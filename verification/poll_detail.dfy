/** The voting rule and the tallies of `src/components/PollDetail.jsx`. */
module PollDetail {
  import opened Wrappers
  import opened PollTypes
  import opened PollStore

  /** Why a vote was refused; no storage is written in any of these cases. */
  datatype VoteError = AlreadyVoted | PollMissing | OptionMissing

  /** The error text `handleVote` stores for each refusal; no two refusals share one. */
  function Message(e: VoteError): (r: string)
    ensures e.AlreadyVoted? <==> r == "You already voted on this device."
    ensures e.PollMissing? <==> r == "Poll missing"
    ensures e.OptionMissing? <==> r == "Option missing"
  {
    match e
    case AlreadyVoted => "You already voted on this device."
    case PollMissing => "Poll missing"
    case OptionMissing => "Option missing"
  }

  /**
   * `handleVote` on the page of poll `pollId`: refuse a repeat vote from this
   * device, then a missing poll or option; otherwise add one to the chosen
   * count, save, and mark the device as having voted with that choice.
   */
  function HandleVote(st: Store, pollId: PollId, optId: OptionId): (r: Result<Store, VoteError>)
    ensures HasVotedOnDevice(st, pollId) ==> r == Err(AlreadyVoted)
    ensures !HasVotedOnDevice(st, pollId) && pollId !in PollIds(Polls(st)) ==> r == Err(PollMissing)
    ensures !HasVotedOnDevice(st, pollId) && pollId in PollIds(Polls(st)) && !HasOption(Polls(st), pollId, optId) ==>
      r == Err(OptionMissing)
    ensures r.Ok? <==> !HasVotedOnDevice(st, pollId) && HasOption(Polls(st), pollId, optId)
    ensures r.Ok? ==>
      var ps := Polls(st);
      var ps' := Polls(r.value);
      var pi := FindPoll(ps, pollId).value;
      var oi := FindOption(ps[pi].options, optId).value;
      && OnlyCountChanged(ps, ps', pi, oi)
      && Count(ps'[pi].options[oi]) == Count(ps[pi].options[oi]) + 1
      && ps'[pi].options[oi].votes == Some(Count(ps[pi].options[oi]) + 1)
      && Total(ps'[pi].options) == Total(ps[pi].options) + 1
      && SameIds(ps, ps')
    ensures r.Ok? && st.voted.Some? ==>
      && HasVotedOnDevice(r.value, pollId)
      && r.value.choice == st.choice[pollId := optId]
      && (forall q :: q != pollId ==> HasVotedOnDevice(r.value, q) == HasVotedOnDevice(st, q))
    ensures r.Ok? && st.voted.None? ==> r.value.voted == st.voted && r.value.choice == st.choice
  {
    if HasVotedOnDevice(st, pollId) then Err(AlreadyVoted)
    else
      var ps := Polls(st);
      match FindPoll(ps, pollId)
      case None => Err(PollMissing)
      case Some(pi) =>
        match FindOption(ps[pi].options, optId)
        case None => Err(OptionMissing)
        case Some(oi) =>
          var ps' := ps[pi := WithVotes(ps[pi], oi, Some(Count(ps[pi].options[oi]) + 1))];
          OnlyCountChangedSameIds(ps, ps', pi, oi);
          Ok(MarkVotedOnDevice(SavePolls(st, ps'), pollId, optId))
  }

  /** Once a vote went through on a readable voted list, any further vote on that poll is refused. */
  lemma SecondVoteRejected(st: Store, pollId: PollId, optId: OptionId, again: OptionId)
    requires st.voted.Some? && HandleVote(st, pollId, optId).Ok?
    ensures HandleVote(HandleVote(st, pollId, optId).value, pollId, again) == Err(AlreadyVoted)
  {
  }

  /**
   * The guard fails open: when the voted list cannot be parsed, the vote is
   * counted but not recorded, so the same device can vote again and again.
   */
  lemma UnreadableVotedListAllowsRepeatVotes(st: Store, pollId: PollId, optId: OptionId)
    requires st.voted.None? && HandleVote(st, pollId, optId).Ok?
    ensures HandleVote(HandleVote(st, pollId, optId).value, pollId, optId).Ok?
  {
    var st' := HandleVote(st, pollId, optId).value;
    SameIdsFind(Polls(st), Polls(st'), pollId, optId);
  }

  /**
   * The percent shown next to an option: `Math.round(votes / total * 100)`,
   * taken over the exact rational, or 0 when the total is 0.
   */
  function Percent(votes: int, total: int): (r: int)
    ensures total == 0 ==> r == 0
    ensures 0 <= votes <= total ==> 0 <= r <= 100
    ensures total > 0 ==> 2 * total * r <= 200 * votes + total < 2 * total * (r + 1)
    ensures total < 0 ==> -2 * total * r <= -200 * votes - total < -2 * total * (r + 1)
  {
    if total == 0 then 0
    else if total > 0 then
      var n, d := 200 * votes + total, 2 * total;
      var r := n / d;
      DivBounds(n, d);
      assert 0 <= votes <= total ==> 0 <= r <= 100 by {
        if 0 <= votes <= total {
          assert n < d * 101;
          MulCancel(d, r, 101);
          MulCancel(d, 0, r + 1);
        }
      }
      r
    else
      var n, d := -200 * votes - total, -2 * total;
      DivBounds(n, d);
      n / d
  }

  /** Euclidean division by a positive divisor rounds down. */
  lemma DivBounds(n: int, d: int)
    requires d > 0
    ensures d * (n / d) <= n < d * (n / d + 1)
  {
  }

  /** A positive factor can be cancelled from a strict inequality. */
  lemma MulCancel(d: int, a: int, b: int)
    requires d > 0 && d * a < d * b
    ensures a < b
  {
  }

  /** With no votes at all, every option shows 0 percent. */
  lemma ZeroTotalShowsZeroPercent(os: seq<PollOption>, k: nat)
    requires k < |os| && Total(os) == 0
    ensures Percent(Count(os[k]), Total(os)) == 0
  {
  }
}
