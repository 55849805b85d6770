/** The poll-creation form of `src/components/PollList.jsx`. */
module PollList {
  import opened Wrappers
  import opened Seqs
  import opened Text
  import opened PollTypes
  import opened PollStore

  /** The form's state: the title field and one text field per option. */
  datatype Draft = Draft(title: string, options: seq<string>)

  /** An empty title and two empty option fields, the form's initial and post-create state. */
  const InitialDraft := Draft("", ["", ""])

  /** The "Add option" button: one more, empty, option field at the end. */
  function AddOption(d: Draft): (r: Draft)
    ensures r.title == d.title
    ensures |r.options| == |d.options| + 1
    ensures r.options[..|d.options|] == d.options && r.options[|d.options|] == ""
  {
    d.(options := d.options + [""])
  }

  /** Typing into option field `i`: only that field changes. */
  function ChangeOpt(d: Draft, i: nat, v: string): (r: Draft)
    requires i < |d.options|
    ensures r.title == d.title && |r.options| == |d.options| && r.options[i] == v
    ensures forall j :: 0 <= j < |d.options| && j != i ==> r.options[j] == d.options[j]
  {
    d.(options := d.options[i := v])
  }

  /** Typing back what a field held leaves the draft as it was. */
  lemma ChangeOptSameValue(d: Draft, i: nat)
    requires i < |d.options|
    ensures ChangeOpt(d, i, d.options[i]) == d
  {
  }

  /** Only the last edit of a field counts. */
  lemma ChangeOptLastWins(d: Draft, i: nat, v: string, w: string)
    requires i < |d.options|
    ensures ChangeOpt(ChangeOpt(d, i, v), i, w) == ChangeOpt(d, i, w)
  {
  }

  /** `Boolean` on a string: only the empty string is dropped. */
  predicate NonEmpty(s: string) {
    s != ""
  }

  /** `options.map(o => o.trim()).filter(Boolean)`: the labels a poll is created with. */
  function CleanOptions(opts: seq<string>): (r: seq<string>)
    ensures |r| <= |opts|
    ensures forall k :: 0 <= k < |r| ==> |r[k]| > 0 && !IsSpace(r[k][0]) && !IsSpace(r[k][|r[k]| - 1])
  {
    var ts := Map(opts, Trim);
    var r := Filter(ts, NonEmpty);
    assert forall k :: 0 <= k < |r| ==> !IsSpace(r[k][0]) && !IsSpace(r[k][|r[k]| - 1]) by {
      forall k | 0 <= k < |r|
        ensures !IsSpace(r[k][0]) && !IsSpace(r[k][|r[k]| - 1])
      {
        FilterMembers(ts, NonEmpty);
        assert r[k] in ts;
      }
    }
    r
  }

  /** Cleaning works field by field and keeps the fields' order. */
  lemma CleanOptionsAppend(a: seq<string>, b: seq<string>)
    ensures CleanOptions(a + b) == CleanOptions(a) + CleanOptions(b)
  {
    MapAppend(a, b, Trim);
    FilterAppend(Map(a, Trim), Map(b, Trim), NonEmpty);
  }

  /** One field contributes its trimmed text, or nothing when it is blank. */
  lemma CleanOptionsSingle(s: string)
    ensures CleanOptions([s]) == if AllSpace(s) then [] else [Trim(s)]
  {
    assert Map([s], Trim) == [Trim(s)];
    assert Map([s], Trim)[1..] == [];
  }

  /** An added field is blank, so it never changes the labels a poll is created with. */
  lemma AddOptionKeepsLabels(d: Draft)
    ensures CleanOptions(AddOption(d).options) == CleanOptions(d.options)
  {
    CleanOptionsAppend(d.options, [""]);
    CleanOptionsSingle("");
  }

  /** Why creation was refused; the form shows an alert and nothing is stored. */
  datatype CreateError = TitleAndTwoOptionsRequired

  /**
   * `handleCreate`: refuse a blank title or fewer than two non-blank options;
   * otherwise build the poll from the trimmed title and options, put it first
   * in the store, and reset the form.
   */
  function HandleCreate(st: Store, d: Draft, createdAt: string, uid: nat -> string): (r: Result<(Store, Draft), CreateError>)
    ensures r.Err? <==> AllSpace(d.title) || |CleanOptions(d.options)| < 2
    ensures r.Ok? ==>
      var st' := r.value.0;
      var ps := Polls(st);
      var ps' := Polls(st');
      && r.value.1 == InitialDraft
      && st'.voted == st.voted && st'.choice == st.choice
      && |ps'| == |ps| + 1 && ps'[1..] == ps
      && ps'[0].id == "poll-" + uid(0)
      && ps'[0].title == Trim(d.title) && ps'[0].title != ""
      && ps'[0].createdAt == createdAt
      && Labels(ps'[0].options) == CleanOptions(d.options)
      && |ps'[0].options| >= 2
      && (forall k :: 0 <= k < |ps'[0].options| ==> ps'[0].options[k].id == "opt-" + uid(k + 1) && ps'[0].options[k].votes == Some(0))
      && Total(ps'[0].options) == 0
  {
    var t := Trim(d.title);
    var opts := CleanOptions(d.options);
    if t == "" || |opts| < 2 then Err(TitleAndTwoOptionsRequired)
    else
      var p := NewPoll(t, opts, createdAt, uid);
      var ps' := [p] + Polls(st);
      assert ps'[0] == p && ps'[1..] == Polls(st);
      Ok((SavePolls(st, ps'), InitialDraft))
  }

  /** A poll created under an id not yet in use keeps the store's ids unique. */
  lemma CreateKeepsUnique(st: Store, d: Draft, createdAt: string, uid: nat -> string)
    requires UniqueIds(Polls(st)) && "poll-" + uid(0) !in PollIds(Polls(st))
    requires HandleCreate(st, d, createdAt, uid).Ok?
    ensures UniqueIds(Polls(HandleCreate(st, d, createdAt, uid).value.0))
  {
    var ps := Polls(st);
    var ps' := Polls(HandleCreate(st, d, createdAt, uid).value.0);
    forall i, j | 0 <= i < j < |ps'|
      ensures ps'[i].id != ps'[j].id
    {
      assert ps'[j] == ps[j - 1] && PollIds(ps)[j - 1] == ps[j - 1].id;
    }
  }
}
