/**
 * The poll store of `src/utils/polls.js`: loading, creating, device vote markers,
 * the admin setters and the import of a shared poll. Every operation is a pure
 * transition from one `Store` to the next.
 */
module PollStore {
  import opened Wrappers
  import opened Seqs
  import opened PollTypes

  /** The `polls_v1` storage item. */
  datatype PollsSlot =
    | Empty                   // no item, or the empty string
    | Unreadable              // text that does not parse
    | Saved(list: seq<Poll>)  // a stored poll array

  /** Everything the store reads and writes on one device. */
  datatype Store = Store(
    polls: PollsSlot,
    voted: Option<seq<PollId>>,     // `voted_polls_v1`; None when the stored text does not parse
    choice: map<PollId, OptionId>)  // the `voted_choice_<pollId>` items

  /** `loadPolls`: an absent, empty or unparseable item reads as no polls. */
  function LoadPolls(slot: PollsSlot): (r: seq<Poll>)
    ensures slot.Saved? ==> r == slot.list
    ensures !slot.Saved? ==> r == []
  {
    match slot
    case Saved(list) => list
    case _ => []
  }

  /** The polls every operation starts from. */
  function Polls(st: Store): (r: seq<Poll>)
    ensures st.polls.Saved? ==> r == st.polls.list
    ensures !st.polls.Saved? ==> r == []
  {
    LoadPolls(st.polls)
  }

  /** `savePolls`: the next load returns exactly what was saved, and the device marker is untouched. */
  function SavePolls(st: Store, ps: seq<Poll>): (r: Store)
    ensures Polls(r) == ps
    ensures r.voted == st.voted && r.choice == st.choice
  {
    st.(polls := Saved(ps))
  }

  /** Options whose every count is zero total zero. */
  lemma {:induction false} TotalOfZeros(os: seq<PollOption>)
    requires forall k :: 0 <= k < |os| ==> Count(os[k]) == 0
    ensures Total(os) == 0
  {
    if |os| > 0 {
      TotalOfZeros(os[..|os| - 1]);
    }
  }

  /**
   * `newPoll`. The identifiers come from `uid`: call 0 names the poll, call
   * `k + 1` names option `k`, in the order the source generates them.
   */
  function NewPoll(title: string, labels: seq<string>, createdAt: string, uid: nat -> string): (r: Poll)
    ensures r.id == "poll-" + uid(0) && r.title == title && r.createdAt == createdAt
    ensures Labels(r.options) == labels
    ensures forall k :: 0 <= k < |r.options| ==> r.options[k].id == "opt-" + uid(k + 1) && r.options[k].votes == Some(0)
    ensures Total(r.options) == 0
  {
    var os := seq(|labels|, k requires 0 <= k < |labels| => PollOption("opt-" + uid(k + 1), labels[k], Some(0)));
    TotalOfZeros(os);
    Poll("poll-" + uid(0), title, createdAt, os)
  }

  /** `hasVotedOnDevice`: an unreadable voted list counts as not voted. */
  function HasVotedOnDevice(st: Store, pollId: PollId): (r: bool)
    ensures r <==> st.voted.Some? && pollId in st.voted.value
  {
    match st.voted
    case None => false
    case Some(list) => pollId in list
  }

  /** `getDeviceChoice`: an absent or empty recorded choice reads as null. */
  function GetDeviceChoice(st: Store, pollId: PollId): (r: Option<OptionId>)
    ensures r.Some? <==> pollId in st.choice && st.choice[pollId] != ""
    ensures r.Some? ==> r.value == st.choice[pollId]
  {
    if pollId in st.choice && st.choice[pollId] != "" then Some(st.choice[pollId]) else None
  }

  /**
   * `markVotedOnDevice`: record the choice and add the poll to the voted list
   * once. An unreadable voted list makes the whole call a no-op.
   */
  function MarkVotedOnDevice(st: Store, pollId: PollId, choiceId: OptionId): (r: Store)
    ensures r.polls == st.polls
    ensures st.voted.None? ==> r == st
    ensures st.voted.Some? ==> HasVotedOnDevice(r, pollId) && r.choice == st.choice[pollId := choiceId]
    ensures st.voted.Some? ==> GetDeviceChoice(r, pollId) == if choiceId == "" then None else Some(choiceId)
    ensures st.voted.Some? ==> forall q :: HasVotedOnDevice(r, q) <==> HasVotedOnDevice(st, q) || q == pollId
    ensures st.voted.Some? && NoDup(st.voted.value) ==> NoDup(r.voted.value)
  {
    match st.voted
    case None => st
    case Some(list) =>
      Store(st.polls, if pollId in list then st.voted else Some(list + [pollId]), st.choice[pollId := choiceId])
  }

  /**
   * `adminSetVotes`: set one option's count, clamped at zero. A missing poll
   * or option answers false and writes nothing.
   */
  function AdminSetVotes(st: Store, pollId: PollId, optionId: OptionId, votes: int): (r: (bool, Store))
    ensures r.0 <==> HasOption(Polls(st), pollId, optionId)
    ensures !r.0 ==> r.1 == st
    ensures r.0 ==>
      var ps := Polls(st);
      var pi := FindPoll(ps, pollId).value;
      var oi := FindOption(ps[pi].options, optionId).value;
      && OnlyCountChanged(ps, Polls(r.1), pi, oi)
      && Polls(r.1)[pi].options[oi].votes == Some(if votes < 0 then 0 else votes)
      && Total(Polls(r.1)[pi].options) == Total(ps[pi].options) - Count(ps[pi].options[oi]) + (if votes < 0 then 0 else votes)
      && r.1.voted == st.voted && r.1.choice == st.choice
    ensures SameIds(Polls(st), Polls(r.1))
  {
    var ps := Polls(st);
    match FindPoll(ps, pollId)
    case None => (false, st)
    case Some(pi) =>
      match FindOption(ps[pi].options, optionId)
      case None => (false, st)
      case Some(oi) =>
        var n := if votes < 0 then 0 else votes;
        var ps' := ps[pi := WithVotes(ps[pi], oi, Some(n))];
        assert OnlyCountChanged(ps, ps', pi, oi);
        OnlyCountChangedSameIds(ps, ps', pi, oi);
        (true, SavePolls(st, ps'))
  }

  /** Every count set to zero, ids and labels kept. */
  function Zeroed(os: seq<PollOption>): (r: seq<PollOption>)
    ensures OptionIds(r) == OptionIds(os) && Labels(r) == Labels(os)
    ensures forall k :: 0 <= k < |r| ==> r[k].votes == Some(0)
    ensures Total(r) == 0
  {
    var r := seq(|os|, k requires 0 <= k < |os| => os[k].(votes := Some(0)));
    TotalOfZeros(r);
    r
  }

  /**
   * `adminResetVotes`: zero every count of the poll, then forget this device's
   * vote on it so that it may vote again. A missing poll answers false and
   * writes nothing; an unreadable voted list leaves the device marker as is.
   */
  function AdminResetVotes(st: Store, pollId: PollId): (r: (bool, Store))
    ensures r.0 <==> pollId in PollIds(Polls(st))
    ensures !r.0 ==> r.1 == st
    ensures r.0 ==>
      var ps := Polls(st);
      var ps' := Polls(r.1);
      var pi := FindPoll(ps, pollId).value;
      && |ps'| == |ps|
      && (forall j :: 0 <= j < |ps| && j != pi ==> ps'[j] == ps[j])
      && ps'[pi] == ps[pi].(options := ps'[pi].options)
      && OptionIds(ps'[pi].options) == OptionIds(ps[pi].options)
      && Labels(ps'[pi].options) == Labels(ps[pi].options)
      && (forall k :: 0 <= k < |ps'[pi].options| ==> ps'[pi].options[k].votes == Some(0))
      && Total(ps'[pi].options) == 0
    ensures SameIds(Polls(st), Polls(r.1))
    ensures r.0 && st.voted.None? ==> r.1.voted == st.voted && r.1.choice == st.choice
    ensures r.0 && st.voted.Some? ==>
      && r.1.voted.Some?
      && (forall q :: HasVotedOnDevice(r.1, q) <==> HasVotedOnDevice(st, q) && q != pollId)
      && r.1.choice == st.choice - {pollId}
      && GetDeviceChoice(r.1, pollId) == None
      && (NoDup(st.voted.value) ==> NoDup(r.1.voted.value))
  {
    var ps := Polls(st);
    match FindPoll(ps, pollId)
    case None => (false, st)
    case Some(pi) =>
      var ps' := ps[pi := ps[pi].(options := Zeroed(ps[pi].options))];
      assert SameIds(ps, ps') by {
        assert OptionIds(ps'[pi].options) == OptionIds(ps[pi].options);
      }
      var saved := SavePolls(st, ps');
      match st.voted
      case None => (true, saved)
      case Some(list) =>
        var rest := Filter(list, (q: PollId) => q != pollId);
        FilterMembers(list, (q: PollId) => q != pollId);
        assert NoDup(list) ==> NoDup(rest) by {
          if NoDup(list) {
            FilterNoDup(list, (q: PollId) => q != pollId);
          }
        }
        (true, saved.(voted := Some(rest), choice := st.choice - {pollId}))
  }

  /** `polls.filter(p => p.id !== pollId)`. */
  function Without(ps: seq<Poll>, pollId: PollId): (r: seq<Poll>)
    ensures pollId !in PollIds(r)
    ensures forall q :: q in r <==> q in ps && q.id != pollId
  {
    FilterMembers(ps, (p: Poll) => p.id != pollId);
    Filter(ps, (p: Poll) => p.id != pollId)
  }

  /** `adminDeletePoll`: drop every poll with the id; always answers true. */
  function AdminDeletePoll(st: Store, pollId: PollId): (r: (bool, Store))
    ensures r.0
    ensures Polls(r.1) == Without(Polls(st), pollId)
    ensures r.1.voted == st.voted && r.1.choice == st.choice
  {
    (true, SavePolls(st, Without(Polls(st), pollId)))
  }

  /** Deletion keeps the survivors in order: it works piecewise on a concatenation. */
  lemma WithoutAppend(a: seq<Poll>, b: seq<Poll>, pollId: PollId)
    ensures Without(a + b, pollId) == Without(a, pollId) + Without(b, pollId)
  {
    FilterAppend(a, b, (p: Poll) => p.id != pollId);
  }

  /** Deleting an id nobody carries changes nothing. */
  lemma WithoutAbsent(ps: seq<Poll>, pollId: PollId)
    requires pollId !in PollIds(ps)
    ensures Without(ps, pollId) == ps
  {
    forall i | 0 <= i < |ps|
      ensures ps[i].id != pollId
    {
      assert PollIds(ps)[i] == ps[i].id;
    }
    FilterKeepsAll(ps, (p: Poll) => p.id != pollId);
  }

  /** Deleting twice is deleting once. */
  lemma AdminDeleteIdempotent(st: Store, pollId: PollId)
    ensures AdminDeletePoll(AdminDeletePoll(st, pollId).1, pollId) == AdminDeletePoll(st, pollId)
  {
    WithoutAbsent(Without(Polls(st), pollId), pollId);
  }

  /** With unique ids, deleting a present poll removes exactly that one poll. */
  lemma WithoutUnique(ps: seq<Poll>, i: nat)
    requires UniqueIds(ps) && i < |ps|
    ensures Without(ps, ps[i].id) == ps[..i] + ps[i + 1..]
    ensures |Without(ps, ps[i].id)| == |ps| - 1
  {
    assert ps == ps[..i] + [ps[i]] + ps[i + 1..];
    WithoutSpares(ps, i);
    WithoutAround(ps[..i], ps[i], ps[i + 1..]);
  }

  /** Deleting the id of a poll that sits between polls it does not share an id with removes just that poll. */
  lemma WithoutAround(front: seq<Poll>, p: Poll, back: seq<Poll>)
    requires Without(front, p.id) == front && Without(back, p.id) == back
    ensures Without(front + [p] + back, p.id) == front + back
  {
    WithoutAppend(front + [p], back, p.id);
    WithoutAppend(front, [p], p.id);
    WithoutDropsSingle(p);
    assert front + [] == front;
  }

  /** With unique ids, the polls before and after position `i` survive deleting the id at `i`. */
  lemma WithoutSpares(ps: seq<Poll>, i: nat)
    requires UniqueIds(ps) && i < |ps|
    ensures Without(ps[..i], ps[i].id) == ps[..i]
    ensures Without(ps[i + 1..], ps[i].id) == ps[i + 1..]
  {
    var id := ps[i].id;
    var front, back := ps[..i], ps[i + 1..];
    forall j | 0 <= j < |front| ensures front[j].id != id {
      assert front[j] == ps[j];
    }
    assert id !in PollIds(front);
    WithoutAbsent(front, id);
    forall j | 0 <= j < |back| ensures back[j].id != id {
      assert back[j] == ps[i + 1 + j];
    }
    assert id !in PollIds(back);
    WithoutAbsent(back, id);
  }

  /** A lone poll does not survive the deletion of its own id. */
  lemma WithoutDropsSingle(p: Poll)
    ensures Without([p], p.id) == []
  {
    assert [p][1..] == [];
  }

  /** Deletion keeps ids unique. */
  lemma WithoutKeepsUnique(ps: seq<Poll>, pollId: PollId)
    requires UniqueIds(ps)
    ensures UniqueIds(Without(ps, pollId))
  {
    var r := Without(ps, pollId);
    forall i, j | 0 <= i < j < |r|
      ensures r[i].id != r[j].id
    {
      // the survivors keep their relative order, so distinct positions come from distinct positions of ps
      var a :| 0 <= a < |ps| && ps[a] == r[i];
      var b :| 0 <= b < |ps| && ps[b] == r[j];
      if a == b {
        WithoutNoDupPositions(ps, pollId, i, j);
      }
    }
  }

  /** With unique ids the polls are pairwise distinct, and so are the survivors of a deletion. */
  lemma WithoutNoDupPositions(ps: seq<Poll>, pollId: PollId, i: nat, j: nat)
    requires UniqueIds(ps) && i < j < |Without(ps, pollId)|
    ensures Without(ps, pollId)[i] != Without(ps, pollId)[j]
  {
    assert NoDup(ps) by {
      forall a, b | 0 <= a < b < |ps| ensures ps[a] != ps[b] {
        assert ps[a].id != ps[b].id;
      }
    }
    FilterNoDup(ps, (p: Poll) => p.id != pollId);
  }

  /** `adminSetPoll`'s and the import's shared step: replace the poll with the same id, or put a new one first. */
  function Upsert(ps: seq<Poll>, p: Poll): (r: seq<Poll>)
    ensures p.id !in PollIds(ps) ==> |r| == |ps| + 1 && r[0] == p && r[1..] == ps
    ensures p.id in PollIds(ps) ==>
      var i := FindPoll(ps, p.id).value;
      && |r| == |ps| && r[i] == p
      && (forall j :: 0 <= j < |ps| && j != i ==> r[j] == ps[j])
    ensures FindPoll(r, p.id).Some? && r[FindPoll(r, p.id).value] == p
  {
    match FindPoll(ps, p.id)
    case None =>
      var r := [p] + ps;
      FirstIndexAt(PollIds(r), p.id, 0);
      r
    case Some(i) =>
      var r := ps[i := p];
      assert PollIds(r)[..i] == PollIds(ps)[..i];
      FirstIndexAt(PollIds(r), p.id, i);
      r
  }

  /** Upserting keeps ids unique. */
  lemma UpsertKeepsUnique(ps: seq<Poll>, p: Poll)
    requires UniqueIds(ps)
    ensures UniqueIds(Upsert(ps, p))
  {
    var r := Upsert(ps, p);
    if p.id !in PollIds(ps) {
      forall i, j | 0 <= i < j < |r|
        ensures r[i].id != r[j].id
      {
        if i == 0 {
          assert r[j] == ps[j - 1] && PollIds(ps)[j - 1] == ps[j - 1].id;
        }
      }
    }
  }

  /** Upserting the same poll twice is upserting it once. */
  lemma UpsertIdempotent(ps: seq<Poll>, p: Poll)
    ensures Upsert(Upsert(ps, p), p) == Upsert(ps, p)
  {
    var r := Upsert(ps, p);
    var i := FindPoll(r, p.id).value;
    assert r[i := p] == r;
  }

  /** `adminSetPoll`: store an edited poll; the device marker is untouched. */
  function AdminSetPoll(st: Store, poll: Poll): (r: Store)
    ensures Polls(r) == Upsert(Polls(st), poll)
    ensures r.voted == st.voted && r.choice == st.choice
  {
    SavePolls(st, Upsert(Polls(st), poll))
  }

  /**
   * `importPollFromString`, after decoding: `payload` is the parsed poll, or
   * None when decoding or parsing failed or the text was `null`. A poll
   * without an id (the empty string) is refused. Answers the stored poll.
   */
  function ImportPoll(st: Store, payload: Option<Poll>): (r: (Option<Poll>, Store))
    ensures payload.None? || payload.value.id == "" ==> r == (None, st)
    ensures payload.Some? && payload.value.id != "" ==>
      && r.0 == payload
      && r.1 == AdminSetPoll(st, payload.value)
  {
    match payload
    case None => (None, st)
    case Some(p) =>
      if p.id == "" then (None, st)
      else (Some(p), SavePolls(st, Upsert(Polls(st), p)))
  }

  /** Importing the same link twice leaves the store as importing it once. */
  lemma ImportTwice(st: Store, payload: Option<Poll>)
    ensures ImportPoll(ImportPoll(st, payload).1, payload) == ImportPoll(st, payload)
  {
    if payload.Some? && payload.value.id != "" {
      UpsertIdempotent(Polls(st), payload.value);
    }
  }
}
