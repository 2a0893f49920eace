/**
 Properties of single transactions on the Election ledger: the tally invariant
 (the vote counts add up to the number of accounts that have voted), the
 one-way voter flag, the frozen roster, and what a revert leaves behind.
 */
module Invariants {
  import opened Election

  /** Sum of the vote counts of ids 1..n (an id with no entry contributes 0). */
  function SumVotes(c: map<nat, Candidate>, n: nat): nat {
    if n == 0 then 0
    else SumVotes(c, n - 1) + (if n in c then c[n].voteCount else 0)
  }

  /** Total votes credited across the roster. */
  function Tally(l: Ledger): nat {
    SumVotes(l.candidates, l.candidatesCount)
  }

  /** A well-formed roster on which every flagged account accounts for exactly one vote. */
  ghost predicate Consistent(l: Ledger) {
    Valid(l) && Tally(l) == |l.voters|
  }

  // ---------------------------------------------------------------------------
  // Facts about SumVotes

  /** Changing an entry above n does not move the sum of ids 1..n. */
  lemma {:induction false} SumVotesFrame(c: map<nat, Candidate>, n: nat, k: nat, x: Candidate)
    requires k > n
    ensures SumVotes(c[k := x], n) == SumVotes(c, n)
  {
    if n > 0 {
      SumVotesFrame(c, n - 1, k, x);
    }
  }

  /** Crediting one vote to an entry inside 1..n raises the sum by exactly one. */
  lemma {:induction false} SumVotesCredit(c: map<nat, Candidate>, n: nat, k: nat, x: Candidate)
    requires 1 <= k <= n && k in c
    requires x.voteCount == c[k].voteCount + 1
    ensures SumVotes(c[k := x], n) == SumVotes(c, n) + 1
  {
    if k == n {
      SumVotesFrame(c, n - 1, k, x);
    } else {
      SumVotesCredit(c, n - 1, k, x);
    }
  }

  /** No single entry inside 1..n exceeds the sum. */
  lemma {:induction false} SumVotesBound(c: map<nat, Candidate>, n: nat, k: nat)
    requires 1 <= k <= n && k in c
    ensures c[k].voteCount <= SumVotes(c, n)
  {
    if k < n {
      SumVotesBound(c, n - 1, k);
    }
  }

  // ---------------------------------------------------------------------------
  // Construction

  /** A freshly seeded roster has credited no votes and flagged no account. */
  lemma {:induction false} InitConsistent(names: seq<string>)
    ensures Tally(Init(names)) == 0
    ensures Consistent(Init(names))
    decreases |names|
  {
    if names != [] {
      var prev := Init(names[..|names| - 1]);
      var n := |names|;
      InitConsistent(names[..|names| - 1]);
      SumVotesFrame(prev.candidates, n - 1, n, Candidate(n, names[n - 1], 0));
    }
  }

  // ---------------------------------------------------------------------------
  // One transaction

  /** A committed vote adds exactly one to the tally. */
  lemma VoteCreditsTally(l: Ledger, candidateId: nat, voter: Address)
    requires Valid(l)
    ensures Tally(Transact(l, candidateId, voter).state)
            == Tally(l) + (if Transact(l, candidateId, voter).reverted then 0 else 1)
  {
    if !Transact(l, candidateId, voter).reverted {
      var c := l.candidates[candidateId];
      SumVotesCredit(l.candidates, l.candidatesCount, candidateId, c.(voteCount := c.voteCount + 1));
    }
  }

  /** Every transaction, committed or reverted, keeps the ledger consistent. */
  lemma VotePreservesConsistent(l: Ledger, candidateId: nat, voter: Address)
    requires Consistent(l)
    ensures Consistent(Transact(l, candidateId, voter).state)
  {
    var r := Transact(l, candidateId, voter);
    VoteCreditsTally(l, candidateId, voter);
    if !r.reverted {
      assert r.state.voters == l.voters + {voter};
      assert voter !in l.voters;
    }
  }

  /** On a consistent ledger no candidate holds more votes than accounts have voted. */
  lemma VotesBoundedByVoters(l: Ledger, id: nat)
    requires Consistent(l)
    ensures VotesFor(l, id) <= |l.voters|
  {
    if id in l.candidates {
      SumVotesBound(l.candidates, l.candidatesCount, id);
    }
  }

  /** Once an account's flag is set it stays set, and the roster never grows,
      shrinks or renames: only vote counts change. */
  lemma FlagsAndRosterPersist(l: Ledger, candidateId: nat, voter: Address, w: Address, id: nat)
    ensures HasVoted(l, w) ==> HasVoted(Transact(l, candidateId, voter).state, w)
    ensures Transact(l, candidateId, voter).state.candidatesCount == l.candidatesCount
    ensures CandidateAt(Transact(l, candidateId, voter).state, id).Some? <==> CandidateAt(l, id).Some?
    ensures CandidateAt(l, id).Some? ==>
              && CandidateAt(Transact(l, candidateId, voter).state, id).value.id == CandidateAt(l, id).value.id
              && CandidateAt(Transact(l, candidateId, voter).state, id).value.name == CandidateAt(l, id).value.name
    ensures VotesFor(l, id) <= VotesFor(Transact(l, candidateId, voter).state, id)
  {
  }

  /** After a committed vote, the same account is refused whatever candidate it
      names, and the refusal changes nothing. */
  lemma SecondVoteReverts(l: Ledger, candidateId: nat, voter: Address, again: nat)
    requires !Transact(l, candidateId, voter).reverted
    ensures Transact(Transact(l, candidateId, voter).state, again, voter).reverted
    ensures Transact(Transact(l, candidateId, voter).state, again, voter).state
            == Transact(l, candidateId, voter).state
  {
  }

  /** An id outside the roster is refused for every account, with no effect. */
  lemma UnknownCandidateReverts(l: Ledger, candidateId: nat, voter: Address)
    requires Valid(l)
    requires candidateId == 0 || candidateId > l.candidatesCount
    ensures Transact(l, candidateId, voter).reverted
    ensures Transact(l, candidateId, voter).state == l
    ensures Transact(l, candidateId, voter).logs == []
  {
  }

  /** A refused call sets no flag: an account turned away for a bad id can
      still vote for a real candidate afterwards. */
  lemma RejectedVoterCanStillVote(l: Ledger, bad: nat, good: nat, voter: Address)
    requires !HasVoted(l, voter)
    requires Transact(l, bad, voter).reverted
    requires good in l.candidates
    ensures !HasVoted(Transact(l, bad, voter).state, voter)
    ensures !Transact(Transact(l, bad, voter).state, good, voter).reverted
  {
  }

  /** Repeating a refused call refuses it again, identically, with no drift. */
  lemma RejectionIsIdempotent(l: Ledger, candidateId: nat, voter: Address)
    requires Transact(l, candidateId, voter).reverted
    ensures Transact(Transact(l, candidateId, voter).state, candidateId, voter)
            == Transact(l, candidateId, voter)
  {
  }
}
