/** The records the poll store persists: polls and their options. */
module PollTypes {
  import opened Wrappers
  import opened Seqs

  type PollId = string
  type OptionId = string

  /** One answer of a poll; `text` is the source's `label` (a Dafny keyword). `votes` is None when the stored count is missing or not a number. */
  datatype PollOption = PollOption(id: OptionId, text: string, votes: Option<int>)

  /** A titled question with its ordered answers. */
  datatype Poll = Poll(id: PollId, title: string, createdAt: string, options: seq<PollOption>)

  /** The count every reader uses: `o.votes || 0`. A missing or zero count reads as 0, any other as itself. */
  function Count(o: PollOption): (r: int)
    ensures r == 0 <==> o.votes == None || o.votes == Some(0)
    ensures r != 0 ==> o.votes == Some(r)
  {
    match o.votes
    case Some(n) => n
    case None => 0
  }

  /** No option carries a negative count. */
  predicate NonNegative(os: seq<PollOption>) {
    forall i :: 0 <= i < |os| ==> Count(os[i]) >= 0
  }

  /**
   * `options.reduce((s, o) => s + (o.votes || 0), 0)`, summed from the left.
   * With no negative count, the total bounds every count and is 0 only when every count is.
   */
  function Total(os: seq<PollOption>): (r: int)
    ensures NonNegative(os) ==> r >= 0 && forall i :: 0 <= i < |os| ==> Count(os[i]) <= r
    ensures NonNegative(os) && r == 0 ==> forall i :: 0 <= i < |os| ==> Count(os[i]) == 0
  {
    if |os| == 0 then 0
    else
      var n := |os| - 1;
      assert NonNegative(os) ==> NonNegative(os[..n]) by {
        forall i | 0 <= i < n
          ensures os[..n][i] == os[i]
        {
        }
      }
      Total(os[..n]) + Count(os[n])
  }

  /** The total of a concatenation is the sum of the totals of its parts. */
  lemma {:induction false} TotalAppend(a: seq<PollOption>, b: seq<PollOption>)
    ensures Total(a + b) == Total(a) + Total(b)
  {
    if |b| > 0 {
      var n := |b| - 1;
      assert (a + b)[..|a + b| - 1] == a + b[..n];
      TotalAppend(a, b[..n]);
    } else {
      assert a + b == a;
    }
  }

  /** Changing one option's count changes the total by exactly the difference. */
  lemma {:induction false} TotalUpdate(os: seq<PollOption>, k: nat, o: PollOption)
    requires k < |os|
    ensures Total(os[k := o]) == Total(os) - Count(os[k]) + Count(o)
  {
    var os' := os[k := o];
    var n := |os| - 1;
    assert os'[..n] == if k == n then os[..n] else os[..n][k := o];
    if k < n {
      TotalUpdate(os[..n], k, o);
    }
  }

  /** The ids of the polls, in order. */
  function PollIds(ps: seq<Poll>): (r: seq<PollId>)
    ensures |r| == |ps| && forall i :: 0 <= i < |ps| ==> r[i] == ps[i].id
  {
    Map(ps, (p: Poll) => p.id)
  }

  /** The ids of the options, in order. */
  function OptionIds(os: seq<PollOption>): (r: seq<OptionId>)
    ensures |r| == |os| && forall i :: 0 <= i < |os| ==> r[i] == os[i].id
  {
    Map(os, (o: PollOption) => o.id)
  }

  /** The labels of the options, in order. */
  function Labels(os: seq<PollOption>): (r: seq<string>)
    ensures |r| == |os| && forall i :: 0 <= i < |os| ==> r[i] == os[i].text
  {
    Map(os, (o: PollOption) => o.text)
  }

  /** `polls.findIndex(p => p.id === id)`: the first poll carrying `id`. */
  function FindPoll(ps: seq<Poll>, id: PollId): (r: Option<nat>)
    ensures r.None? <==> forall i :: 0 <= i < |ps| ==> ps[i].id != id
    ensures r.Some? ==> r.value < |ps| && ps[r.value].id == id && forall j :: 0 <= j < r.value ==> ps[j].id != id
  {
    var ids := PollIds(ps);
    var r := FirstIndex(ids, id);
    assert r.Some? ==> forall j :: 0 <= j < r.value ==> ps[j].id != id by {
      if r.Some? {
        forall j | 0 <= j < r.value
          ensures ps[j].id != id
        {
          assert ids[..r.value][j] == ids[j];
        }
      }
    }
    assert r.None? ==> forall i :: 0 <= i < |ps| ==> ps[i].id != id by {
      if r.None? {
        forall i | 0 <= i < |ps|
          ensures ps[i].id != id
        {
          assert ids[i] in ids;
        }
      }
    }
    r
  }

  /** `options.findIndex(o => o.id === id)`: the first option carrying `id`. */
  function FindOption(os: seq<PollOption>, id: OptionId): (r: Option<nat>)
    ensures r.None? <==> forall i :: 0 <= i < |os| ==> os[i].id != id
    ensures r.Some? ==> r.value < |os| && os[r.value].id == id && forall j :: 0 <= j < r.value ==> os[j].id != id
  {
    var ids := OptionIds(os);
    var r := FirstIndex(ids, id);
    assert r.Some? ==> forall j :: 0 <= j < r.value ==> os[j].id != id by {
      if r.Some? {
        forall j | 0 <= j < r.value
          ensures os[j].id != id
        {
          assert ids[..r.value][j] == ids[j];
        }
      }
    }
    assert r.None? ==> forall i :: 0 <= i < |os| ==> os[i].id != id by {
      if r.None? {
        forall i | 0 <= i < |os|
          ensures os[i].id != id
        {
          assert ids[i] in ids;
        }
      }
    }
    r
  }

  /** No two polls share an id. Nothing in storage enforces it; the operations are shown to keep it. */
  predicate UniqueIds(ps: seq<Poll>) {
    forall i, j :: 0 <= i < j < |ps| ==> ps[i].id != ps[j].id
  }

  /** `p` with the count of its option `k` replaced by `n`; nothing else changes. */
  function WithVotes(p: Poll, k: nat, n: Option<int>): (r: Poll)
    requires k < |p.options|
    ensures r.id == p.id && r.title == p.title && r.createdAt == p.createdAt
    ensures |r.options| == |p.options| && OptionIds(r.options) == OptionIds(p.options)
    ensures r.options[k].votes == n && r.options[k].text == p.options[k].text
    ensures forall j :: 0 <= j < |p.options| && j != k ==> r.options[j] == p.options[j]
    ensures Total(r.options) == Total(p.options) - Count(p.options[k]) + Count(r.options[k])
  {
    var o := p.options[k].(votes := n);
    TotalUpdate(p.options, k, o);
    p.(options := p.options[k := o])
  }

  /** `ps'` is `ps` except for the count of option `oi` of poll `pi`. */
  predicate OnlyCountChanged(ps: seq<Poll>, ps': seq<Poll>, pi: nat, oi: nat) {
    && |ps'| == |ps|
    && pi < |ps|
    && oi < |ps[pi].options|
    && (forall j :: 0 <= j < |ps| && j != pi ==> ps'[j] == ps[j])
    && ps'[pi].id == ps[pi].id && ps'[pi].title == ps[pi].title && ps'[pi].createdAt == ps[pi].createdAt
    && |ps'[pi].options| == |ps[pi].options|
    && (forall k :: 0 <= k < |ps[pi].options| && k != oi ==> ps'[pi].options[k] == ps[pi].options[k])
    && ps'[pi].options[oi].id == ps[pi].options[oi].id
    && ps'[pi].options[oi].text == ps[pi].options[oi].text
  }
  /** The first poll carrying `pollId` exists and has an option carrying `optionId`. */
  predicate HasOption(ps: seq<Poll>, pollId: PollId, optionId: OptionId) {
    match FindPoll(ps, pollId)
    case None => false
    case Some(pi) => optionId in OptionIds(ps[pi].options)
  }

  /** Two poll lists carry the same poll ids and the same option ids, position by position. */
  predicate SameIds(ps: seq<Poll>, ps': seq<Poll>) {
    && PollIds(ps') == PollIds(ps)
    && forall i :: 0 <= i < |ps| ==> OptionIds(ps'[i].options) == OptionIds(ps[i].options)
  }

  /** Lists with the same ids locate every poll and option in the same place. */
  lemma SameIdsFind(ps: seq<Poll>, ps': seq<Poll>, pollId: PollId, optionId: OptionId)
    requires SameIds(ps, ps')
    ensures FindPoll(ps', pollId) == FindPoll(ps, pollId)
    ensures HasOption(ps', pollId, optionId) == HasOption(ps, pollId, optionId)
    ensures HasOption(ps, pollId, optionId) ==>
      FindOption(ps'[FindPoll(ps, pollId).value].options, optionId) == FindOption(ps[FindPoll(ps, pollId).value].options, optionId)
  {
  }

  /** Changing one count keeps every id in place. */
  lemma OnlyCountChangedSameIds(ps: seq<Poll>, ps': seq<Poll>, pi: nat, oi: nat)
    requires OnlyCountChanged(ps, ps', pi, oi)
    ensures SameIds(ps, ps')
  {
    assert OptionIds(ps'[pi].options) == OptionIds(ps[pi].options);
  }

  /** Operations that keep every id in place keep the ids unique. */
  lemma SameIdsKeepUnique(ps: seq<Poll>, ps': seq<Poll>)
    requires SameIds(ps, ps') && UniqueIds(ps)
    ensures UniqueIds(ps')
  {
    forall i, j | 0 <= i < j < |ps'|
      ensures ps'[i].id != ps'[j].id
    {
      assert PollIds(ps')[i] == PollIds(ps)[i] && PollIds(ps')[j] == PollIds(ps)[j];
    }
  }
}
