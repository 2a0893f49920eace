/**
 The behaviour the Election test suite pins down, replayed against the model on
 one deployed instance shared by every step, in the suite's order.
 */
module ElectionTest {
  import opened Election
  import opened Invariants
  import opened Replay

  /** The suite's transactions: `a` votes for 1; `b` tries 99, then votes for 2
      and tries to vote for 2 again. */
  function TestCalls(a: Address, b: Address): seq<Call> {
    [Call(1, a), Call(99, b), Call(2, b), Call(2, b)]
  }

  /** The deployed ledger holds two candidates, ids 1 and 2, named
      "Candidate 1" and "Candidate 2", with no votes yet. */
  lemma DeployedRoster()
    ensures Deployed().candidatesCount == 2
    ensures CandidateAt(Deployed(), 1) == Some(Candidate(1, "Candidate 1", 0))
    ensures CandidateAt(Deployed(), 2) == Some(Candidate(2, "Candidate 2", 0))
    ensures forall w :: !HasVoted(Deployed(), w)
    ensures Consistent(Deployed())
  {
    InitConsistent(["Candidate 1", "Candidate 2"]);
  }

  /** Step by step, for two distinct accounts `a` and `b`:
      1. `vote(1)` from `a` logs one `VotedEvent(1)`, flags `a`, and candidate 1 has 1 vote;
      2. `vote(99)` from `b` reverts; the counts stay 1 and 0;
      3. `vote(2)` from `b` is accepted; candidate 2 has 1 vote;
      4. `vote(2)` from `b` again reverts; the counts stay 1 and 1. */
  lemma TestTrace(a: Address, b: Address)
    requires a != b
    ensures var rs := Run(Deployed(), TestCalls(a, b));
      && !rs[0].reverted && |rs[0].logs| == 1 && rs[0].logs[0] == VotedEvent(1)
      && HasVoted(rs[0].state, a) && VotesFor(rs[0].state, 1) == 1
      && rs[1].reverted && VotesFor(rs[1].state, 1) == 1 && VotesFor(rs[1].state, 2) == 0
      && !rs[2].reverted && VotesFor(rs[2].state, 2) == 1
      && rs[3].reverted && VotesFor(rs[3].state, 1) == 1 && VotesFor(rs[3].state, 2) == 1
  {
  }
}
