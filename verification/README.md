# Poll store model

A Dafny model of the poll widget of the voter dashboard. It covers the poll store
(`src/utils/polls.js`), the voting rule and tallies of the poll page
(`src/components/PollDetail.jsx`), and the creation form of the poll list
(`src/components/PollList.jsx`). Every operation is a pure function from one
`Store` to the next. A `Store` is what the browser's local storage holds for one device:

- `polls`: the `polls_v1` item. It is empty, unreadable, or a saved list of polls.
- `voted`: the `voted_polls_v1` list of poll ids this device voted on. It is `None` when the stored text does not parse.
- `choice`: the `voted_choice_<pollId>` items, as a map from poll id to option id.

Modules:

- `Wrappers`: `Option` and `Result`.
- `Seqs`: mapping, filtering, first-index search and duplicate-freedom, with their lemmas.
- `Text`: `String.prototype.trim` over the ECMAScript white-space set.
- `PollTypes`: `Poll`, `PollOption`, the `votes || 0` count, the vote total, and id lookup.
- `PollStore`: `polls.js`.
- `PollDetail`: `handleVote`, the percent shown per option, and the vote-guard lemmas.
- `PollList`: the creation form.
- `Scenarios`: properties of sequences of operations, and the store invariant
  (unique poll ids, no repeated id in the voted list) that every operation keeps.

Four behaviours of the code are worth knowing:

- Vote counts are not always non-negative. Only `adminSetVotes` clamps at zero. `adminSetPoll` and an import store whatever counts they are given.
- The device's "already voted" rule fails open. When the voted list cannot be parsed, `hasVotedOnDevice` answers false and `markVotedOnDevice` writes nothing. A vote is then counted but not recorded, so the device can vote again. `PollDetail.UnreadableVotedListAllowsRepeatVotes` states this.
- Every operation reads the polls through `loadPolls`. An unreadable `polls_v1` item is therefore treated as an empty list, and the next successful write replaces it. A refused operation writes nothing and leaves the item as it was.
- A refused vote shows the user nothing. `handleVote` stores its error text with `setError`, but the page never renders the `error` state, so all three refusals are silent. `PollDetail.Message` models the stored text.

## Model

| member | source | states |
|---|---|---|
| PollTypes.Count | voter-dashboard/src/components/PollDetail.jsx:34-35 | a missing or zero count reads as 0, and any other count reads as itself |
| PollTypes.Total | voter-dashboard/src/components/PollDetail.jsx:34 | the left-to-right sum of the counts; with no negative count it is at least every single count, and it is 0 only when every count is 0 |
| PollTypes.TotalAppend | voter-dashboard/src/components/PollDetail.jsx:34 | the total of two runs of options is the sum of their totals |
| PollTypes.FindPoll | voter-dashboard/src/utils/polls.js:65 | `findIndex` on poll ids: None exactly when no poll carries the id; otherwise a poll carrying it, with none before it |
| PollTypes.FindOption | voter-dashboard/src/utils/polls.js:67 | `findIndex` on option ids: None exactly when no option carries the id; otherwise an option carrying it, with none before it |
| PollStore.LoadPolls | voter-dashboard/src/utils/polls.js:9-18 | an absent, empty or unparseable stored item loads as the empty list; a saved list loads as saved |
| PollStore.SavePolls | voter-dashboard/src/utils/polls.js:20-28 | after a save, the next load returns exactly the saved list; the device's vote marker is untouched |
| PollStore.NewPoll | voter-dashboard/src/utils/polls.js:30-37 | the poll has id `poll-`+uid, the given title and timestamp, one option per label in the same order, each with id `opt-`+uid and 0 votes, and a total of 0 |
| PollStore.HasVotedOnDevice | voter-dashboard/src/utils/polls.js:39-46 | true exactly when the voted list is readable and contains the poll id; an unreadable list answers false |
| PollStore.MarkVotedOnDevice | voter-dashboard/src/utils/polls.js:48-56 | with a readable list, the device then counts as having voted on the poll, its recorded choice is the given one, no other poll's voted status changes, and a list without duplicates stays without duplicates; with an unreadable list, nothing changes |
| PollStore.GetDeviceChoice | voter-dashboard/src/utils/polls.js:58-60 | answers the recorded choice, or null when none is recorded or it is the empty string |
| Seqs.FirstIndex | voter-dashboard/src/utils/polls.js:65-67 | `findIndex`: None exactly when no element matches; otherwise the index of a match with no match before it |
| PollTypes.WithVotes | voter-dashboard/src/utils/polls.js:69 | writing one option's count keeps the poll's id, title, timestamp, the option ids and the other options, and moves the total by the difference of the two counts |
| PollStore.AdminSetVotes | voter-dashboard/src/utils/polls.js:63-72 | succeeds exactly when the first poll with the id has an option with the id; a failure changes nothing; a success sets only that option's count, to max(0, v), keeps every other option and poll, moves the total accordingly, and leaves the device state alone |
| PollStore.Zeroed | voter-dashboard/src/utils/polls.js:77 | every count becomes 0, option ids and labels are kept, and the total is 0 |
| PollStore.AdminResetVotes | voter-dashboard/src/utils/polls.js:73-87 | on a missing poll: false, and nothing changes, not even the voted list; on a present poll: that poll's counts become 0 with ids and labels kept, other polls are untouched, and with a readable voted list the poll leaves the list, its recorded choice is removed and no other poll's status changes |
| PollStore.Without | voter-dashboard/src/utils/polls.js:90 | no poll with the id survives, and a poll survives exactly when it was there and has another id |
| PollStore.AdminDeletePoll | voter-dashboard/src/utils/polls.js:88-93 | always answers true; the stored list becomes the survivors of the deletion; the device state is untouched |
| PollStore.WithoutAppend | voter-dashboard/src/utils/polls.js:90 | deletion works piecewise over a concatenation, so the survivors keep their relative order |
| PollStore.WithoutAbsent | voter-dashboard/src/utils/polls.js:90 | deleting an id no poll carries leaves the list unchanged |
| PollStore.AdminDeleteIdempotent | voter-dashboard/src/utils/polls.js:88-93 | deleting the same id twice gives the same store as deleting it once |
| PollStore.WithoutUnique | voter-dashboard/src/utils/polls.js:88-93 | with unique ids, deleting the id at position i removes exactly position i and shortens the list by one |
| PollStore.WithoutKeepsUnique | voter-dashboard/src/utils/polls.js:90 | deletion keeps poll ids unique |
| PollStore.Upsert | voter-dashboard/src/utils/polls.js:94-100 | an absent id is prepended and the length grows by one; an existing id is replaced at its first index with the length unchanged and every other position kept; either way, looking up the id afterwards finds the new poll |
| PollStore.UpsertKeepsUnique | voter-dashboard/src/utils/polls.js:94-100 | if ids were unique before an upsert, they are unique after |
| PollStore.UpsertIdempotent | voter-dashboard/src/utils/polls.js:116-126 | upserting the same poll twice gives the same list as upserting it once |
| PollStore.AdminSetPoll | voter-dashboard/src/utils/polls.js:94-100 | the stored list becomes the upsert of the edited poll; the device state is untouched |
| PollStore.ImportPoll | voter-dashboard/src/utils/polls.js:112-132 | a payload that failed to decode or parse, or has an empty id, gives null and changes nothing; any other payload is returned and stored exactly as `adminSetPoll` would store it |
| PollStore.ImportTwice | voter-dashboard/src/utils/polls.js:116-126 | importing the same link twice gives the same result and store as importing it once |
| PollTypes.TotalUpdate | voter-dashboard/src/components/PollDetail.jsx:34 | the sum of counts, with a missing count read as 0, changes by exactly the difference when one option's count is replaced |
| PollTypes.SameIdsKeepUnique | voter-dashboard/src/utils/polls.js:69 | an operation that changes no poll id keeps the ids unique |
| PollDetail.HandleVote | voter-dashboard/src/components/PollDetail.jsx:37-50 | a vote already recorded on this device is refused first, then a missing poll, then a missing option, and a refusal writes nothing; a vote goes through exactly when none of these applies; it then raises only the chosen option's count, by 1, keeps every other option, poll and id, raises the poll's total by 1, and, with a readable voted list, marks the device as voted with that choice |
| PollDetail.SecondVoteRejected | voter-dashboard/src/components/PollDetail.jsx:39-47 | after a successful vote with a readable voted list, any further vote on that poll from the device is refused as already voted |
| PollDetail.UnreadableVotedListAllowsRepeatVotes | voter-dashboard/src/components/PollDetail.jsx:39-47 | with an unreadable voted list, the same vote goes through a second time |
| PollDetail.Message | voter-dashboard/src/components/PollDetail.jsx:39-44 | the error text `handleVote` stores for each refusal; no two refusals share one |
| PollDetail.Percent | voter-dashboard/src/components/PollDetail.jsx:35 | 0 when the total is 0; for a non-zero total, votes/total*100 rounded half up to an integer; within 0..100 when 0 <= votes <= total |
| PollDetail.ZeroTotalShowsZeroPercent | voter-dashboard/src/components/PollDetail.jsx:60 | when a poll's total is 0, every option shows 0 percent |
| Text.Trim | voter-dashboard/src/components/PollList.jsx:29 | the result is a slice of the input with only white space cut at both ends, it neither starts nor ends with white space, and it is empty exactly when the input is all white space |
| Text.TrimIdempotent | voter-dashboard/src/components/PollList.jsx:29 | trimming an already trimmed string changes nothing |
| PollList.AddOption | voter-dashboard/src/components/PollList.jsx:24 | the draft gets exactly one more option field, empty, at the end; the earlier fields and the title are kept |
| PollList.AddOptionKeepsLabels | voter-dashboard/src/components/PollList.jsx:24-29 | adding a field never changes the labels a poll would be created with, because the new field is blank |
| PollList.ChangeOpt | voter-dashboard/src/components/PollList.jsx:25 | only field i changes, to the typed value; the length and the title are kept |
| PollList.ChangeOptSameValue | voter-dashboard/src/components/PollList.jsx:25 | typing back what a field already held leaves the draft as it was |
| PollList.ChangeOptLastWins | voter-dashboard/src/components/PollList.jsx:25 | two edits of the same field leave only the last one |
| PollList.CleanOptions | voter-dashboard/src/components/PollList.jsx:29 | the labels are non-empty, have no white space at either end, and are no more than the fields |
| PollList.CleanOptionsAppend | voter-dashboard/src/components/PollList.jsx:29 | cleaning works field by field and keeps the order of the fields |
| PollList.CleanOptionsSingle | voter-dashboard/src/components/PollList.jsx:29 | a single field contributes its trimmed text, or nothing when it is blank |
| PollList.HandleCreate | voter-dashboard/src/components/PollList.jsx:27-36 | refused exactly when the title is blank or fewer than two non-blank options remain, and a refusal writes nothing; otherwise the new poll, with the trimmed title, the cleaned labels in order and zero counts, goes first, the earlier polls follow in their order, the device state is untouched, and the form is reset to an empty title and two empty fields |
| PollList.CreateKeepsUnique | voter-dashboard/src/components/PollList.jsx:31-32 | creating a poll under an id not yet in use keeps poll ids unique |
| Scenarios.VoteResetVote | voter-dashboard/src/utils/polls.js:80-84 | after a vote and an admin reset of the same poll, a new vote from the same device goes through, and the poll's total is then 1 |
| Scenarios.ResetPermitsVote | voter-dashboard/src/utils/polls.js:79-85 | a device refused as already voted can vote on the poll once an admin has reset it |
| Scenarios.Valid | voter-dashboard/src/utils/polls.js:39-125 | the store invariant: poll ids are unique, as the upsert at lines 118-125 intends, and the voted list of lines 39-56 names each poll at most once; under it, looking up any stored poll's id finds exactly that poll |
| Scenarios.VoteKeepsValid | voter-dashboard/src/components/PollDetail.jsx:45-47 | a successful vote keeps poll ids unique and the voted list free of repeats |
| Scenarios.AdminCountsKeepValid | voter-dashboard/src/utils/polls.js:63-87 | setting and resetting counts keep poll ids unique and the voted list free of repeats |
| Scenarios.AdminListEditsKeepValid | voter-dashboard/src/utils/polls.js:88-126 | deleting, storing an edited poll and importing keep poll ids unique and the voted list free of repeats |

## Left out

- Local storage, `JSON.parse`/`JSON.stringify` and percent-encoding are library calls. The storage items are modelled by their parsed contents. A `polls_v1` item that parses to something other than an array (for example `null`) is not modelled.
- PollStore.MarkVotedOnDevice: a voted-list item that parses to something other than an array is folded into "unreadable", which is not exact. For `null`, an object or a number, `markVotedOnDevice` still writes `voted_choice_<pollId>` before `list.includes` throws; the model writes nothing. So after such a vote `getDeviceChoice` answers the choice in the source and null in the model.
- PollStore.HasVotedOnDevice: for a voted-list item that parses to a JSON string, `includes` is a substring test and the spread in `markVotedOnDevice` appends to the string's characters. The model reads such an item as unreadable instead, so it answers false where the source may answer true.
- PollTypes.PollOption: stored records are assumed well-shaped, with string ids and labels, an `options` array, and integer or missing counts. `adminSetPoll` stores whatever the edit form builds, and `Number(...)` there gives fractional counts. An import checks only `id`, so a poll may also arrive with string counts or no `options`. With a string count the source concatenates instead of adding: a vote on `"5"` stores `"51"`. None of this is modelled.
- PollDetail.HandleVote: counts and totals are exact, unbounded integers. In the source they are JavaScript numbers, that is 64-bit floats. From 2^53 upward, the vote's `+ 1` and the running `total` sum can lose the increment: a count of 9007199254740992 stays 9007199254740992 after a vote, where the model promises 9007199254740993. `JSON.parse` in `loadPolls` likewise rounds any stored count above 2^53. PollTypes.Total, PollTypes.TotalUpdate and PollStore.AdminSetVotes share this gap.
- A failed `localStorage.setItem` inside `savePolls` is caught and logged. The model treats every write as successful.
- The events between views are not modelled. Only the cross-tab `storage` event triggers a reload. `savePolls` also dispatches a `polls-updated` event on its own window, but that event has no `key`, and the listeners reload only when `key` is null or `polls_v1`, so they ignore it.
- `uid`, `Date.now`, `Math.random` and `toISOString` are nondeterministic. The ids and the creation timestamp are parameters instead: `uid(k)` is the k-th `uid()` call.
- `exportPollUrl` and the share-URL round trip are left out. They only build and decode text, and that is library work.
- PollStore.AdminSetVotes: the new count is an integer. The source also accepts fractional numbers, and it turns non-numbers into 0 through `Number(votes) || 0`.
- PollStore.ImportPoll: ids are strings, and an absent id is the empty string. A payload whose id is a non-string JSON value is not modelled.
- PollDetail.Percent: the percentage is rounded over exact rationals. The source divides in binary floating point, which can round the other way at exact halves.
- PollList.ChangeOpt: the index must be that of an existing field, as it always is when it comes from the rendered list. The source would grow the array for a larger index.
- Text.Trim: Dafny characters are Unicode scalar values. The source's strings are UTF-16, which differs only for unpaired surrogates.
- The page state of `PollDetail.jsx` (`votedChoice`, `error`, the re-render), the alerts of `PollList.jsx` and the navigation are not modelled. Neither is the rendering of counts.
- `App.jsx` routing is left out, including the fixed `admin` path segment, which is not access control. So are `AdminPanel.jsx` (its dialogs and edit form only forward to the `polls.js` setters), `ImportPoll.jsx`, `ErrorBoundary.jsx`, and the two chart components, which are rendering only.
- The voter-roster dashboard is not part of this model: surname extraction, the token-frequency index, aggregation and CSV export.
