/** Properties of sequences of operations across the store, the voting page and the admin panel. */
module Scenarios {
  import opened Wrappers
  import opened PollTypes
  import opened PollStore
  import opened PollDetail
  import Seqs

  /**
   * Vote, admin reset, vote again: the second vote on the same poll from the
   * same device goes through, and afterwards that vote is the poll's only one.
   */
  lemma VoteResetVote(st: Store, pollId: PollId, optId: OptionId, again: OptionId)
    requires HandleVote(st, pollId, optId).Ok?
    requires HasOption(Polls(st), pollId, again)
    ensures
      var s1 := HandleVote(st, pollId, optId).value;
      var reset := AdminResetVotes(s1, pollId);
      && reset.0
      && HandleVote(reset.1, pollId, again).Ok?
      && var s3 := HandleVote(reset.1, pollId, again).value;
         Total(Polls(s3)[FindPoll(Polls(s3), pollId).value].options) == 1
  {
    var ps := Polls(st);
    var s1 := HandleVote(st, pollId, optId).value;
    SameIdsFind(ps, Polls(s1), pollId, again);
    var reset := AdminResetVotes(s1, pollId);
    var s2 := reset.1;
    SameIdsFind(Polls(s1), Polls(s2), pollId, again);
    assert !HasVotedOnDevice(s2, pollId);
    var s3 := HandleVote(s2, pollId, again).value;
    SameIdsFind(Polls(s2), Polls(s3), pollId, again);
  }

  /** An admin reset lets a device vote on a poll it had already voted on. */
  lemma ResetPermitsVote(st: Store, pollId: PollId, optId: OptionId)
    requires HasVotedOnDevice(st, pollId) && HasOption(Polls(st), pollId, optId)
    ensures HandleVote(st, pollId, optId) == Err(AlreadyVoted)
    ensures HandleVote(AdminResetVotes(st, pollId).1, pollId, optId).Ok?
  {
    var s2 := AdminResetVotes(st, pollId).1;
    SameIdsFind(Polls(st), Polls(s2), pollId, optId);
  }

  /** The store's invariant: poll ids are unique and a readable voted list names each poll at most once. */
  predicate Valid(st: Store): (r: bool)
    ensures r ==> forall i :: 0 <= i < |Polls(st)| ==> FindPoll(Polls(st), Polls(st)[i].id) == Some(i)
  {
    var ps := Polls(st);
    var r := UniqueIds(ps) && (st.voted.Some? ==> Seqs.NoDup(st.voted.value));
    assert r ==> forall i :: 0 <= i < |ps| ==> FindPoll(ps, ps[i].id) == Some(i) by {
      if r {
        forall i | 0 <= i < |ps|
          ensures FindPoll(ps, ps[i].id) == Some(i)
        {
          var k := FindPoll(ps, ps[i].id);
          assert k.Some? && ps[k.value].id == ps[i].id;
          assert k.value == i;
        }
      }
    }
    r
  }

  /** A successful vote keeps the invariant. */
  lemma VoteKeepsValid(st: Store, pollId: PollId, optId: OptionId)
    requires Valid(st) && HandleVote(st, pollId, optId).Ok?
    ensures Valid(HandleVote(st, pollId, optId).value)
  {
    SameIdsKeepUnique(Polls(st), Polls(HandleVote(st, pollId, optId).value));
  }

  /** The admin count setters keep the invariant. */
  lemma AdminCountsKeepValid(st: Store, pollId: PollId, optId: OptionId, votes: int)
    requires Valid(st)
    ensures Valid(AdminSetVotes(st, pollId, optId, votes).1)
    ensures Valid(AdminResetVotes(st, pollId).1)
  {
    var ps := Polls(st);
    SameIdsKeepUnique(ps, Polls(AdminSetVotes(st, pollId, optId, votes).1));
    SameIdsKeepUnique(ps, Polls(AdminResetVotes(st, pollId).1));
  }

  /** Deleting, storing an edited poll and importing keep the invariant. */
  lemma AdminListEditsKeepValid(st: Store, pollId: PollId, poll: Poll, payload: Option<Poll>)
    requires Valid(st)
    ensures Valid(AdminDeletePoll(st, pollId).1)
    ensures Valid(AdminSetPoll(st, poll))
    ensures Valid(ImportPoll(st, payload).1)
  {
    var ps := Polls(st);
    WithoutKeepsUnique(ps, pollId);
    UpsertKeepsUnique(ps, poll);
    if payload.Some? {
      UpsertKeepsUnique(ps, payload.value);
    }
  }
}
