/**
 A sequence of `vote` transactions applied in order to one ledger, each seeing
 the state the previous one left behind.
 */
module Replay {
  import opened Election
  import opened Invariants

  /** One `vote(candidateId)` transaction sent from `voter`. */
  datatype Call = Call(candidateId: nat, voter: Address)

  /** The receipts of `calls`, applied one after another starting from `l`:
      the first call sees `l`, every later call sees the state its predecessor
      left behind. */
  function Run(l: Ledger, calls: seq<Call>): (rs: seq<Receipt>)
    ensures |rs| == |calls|
    ensures |calls| > 0 ==> rs[0] == Transact(l, calls[0].candidateId, calls[0].voter)
    ensures forall i :: 0 < i < |rs| ==> rs[i] == Transact(rs[i - 1].state, calls[i].candidateId, calls[i].voter)
    ensures forall i :: 0 <= i < |rs| ==> (rs[i].reverted <==> rs[i].logs == [])
    decreases |calls|
  {
    if calls == [] then []
    else
      var r := Transact(l, calls[0].candidateId, calls[0].voter);
      [r] + Run(r.state, calls[1..])
  }

  /** The ledger after `calls`. */
  function Final(l: Ledger, calls: seq<Call>): Ledger
    decreases |calls|
  {
    if calls == [] then l
    else Final(Transact(l, calls[0].candidateId, calls[0].voter).state, calls[1..])
  }

  /** How many events of one log name candidate `id`. */
  function CountFor(logs: seq<VotedEvent>, id: nat): nat {
    if logs == [] then 0
    else (if logs[0] == VotedEvent(id) then 1 else 0) + CountFor(logs[1..], id)
  }

  /** How many of the events logged across `rs` name candidate `id`. */
  function EventsFor(rs: seq<Receipt>, id: nat): nat {
    if rs == [] then 0
    else CountFor(rs[0].logs, id) + EventsFor(rs[1..], id)
  }

  /** The state in receipt i is the ledger left by the first i + 1 calls. */
  lemma {:induction false} RunThreadsState(l: Ledger, calls: seq<Call>)
    ensures forall i :: 0 <= i < |calls| ==> Run(l, calls)[i].state == Final(l, calls[..i + 1])
    decreases |calls|
  {
    if calls != [] {
      var r := Transact(l, calls[0].candidateId, calls[0].voter);
      RunThreadsState(r.state, calls[1..]);
      forall i | 0 <= i < |calls|
        ensures Run(l, calls)[i].state == Final(l, calls[..i + 1])
      {
        if i > 0 {
          assert calls[1..][..i] == calls[..i + 1][1..];
          assert Run(l, calls)[i] == Run(r.state, calls[1..])[i - 1];
        }
      }
    }
  }

  /** A consistent ledger stays consistent through any sequence of transactions. */
  lemma {:induction false} RunPreservesConsistent(l: Ledger, calls: seq<Call>)
    requires Consistent(l)
    ensures Consistent(Final(l, calls))
    ensures forall i :: 0 <= i < |calls| ==> Consistent(Run(l, calls)[i].state)
    decreases |calls|
  {
    if calls != [] {
      var r := Transact(l, calls[0].candidateId, calls[0].voter);
      VotePreservesConsistent(l, calls[0].candidateId, calls[0].voter);
      RunPreservesConsistent(r.state, calls[1..]);
      forall i | 0 <= i < |calls|
        ensures Consistent(Run(l, calls)[i].state)
      {
        if i > 0 {
          assert Run(l, calls)[i] == Run(r.state, calls[1..])[i - 1];
        }
      }
    }
  }

  /** Every vote a candidate gains is announced by exactly one `VotedEvent`
      naming it, and no event is logged without its vote. */
  lemma {:induction false} VotesMatchEvents(l: Ledger, calls: seq<Call>, id: nat)
    ensures VotesFor(Final(l, calls), id) == VotesFor(l, id) + EventsFor(Run(l, calls), id)
    decreases |calls|
  {
    if calls != [] {
      var r := Transact(l, calls[0].candidateId, calls[0].voter);
      var rs := Run(l, calls);
      assert rs[0] == r && rs[1..] == Run(r.state, calls[1..]);
      VotesMatchEvents(r.state, calls[1..], id);
      assert EventsFor(rs, id) == CountFor(r.logs, id) + EventsFor(rs[1..], id);
      assert Final(l, calls) == Final(r.state, calls[1..]);
      if r.reverted {
        assert CountFor(r.logs, id) == 0;
        assert VotesFor(r.state, id) == VotesFor(l, id);
      } else {
        assert r.logs[1..] == [];
        assert CountFor(r.logs, id) == (if calls[0].candidateId == id then 1 else 0);
        assert VotesFor(r.state, id) == VotesFor(l, id) + (if calls[0].candidateId == id then 1 else 0);
      }
    }
  }

  /** `voters(account)` after a sequence of calls is true exactly when it was
      true before, or one of the calls was sent from that account and committed:
      a committed vote flags its sender, a reverted one flags no one. */
  lemma {:induction false} FlagReflectsHistory(l: Ledger, calls: seq<Call>, v: Address)
    ensures HasVoted(Final(l, calls), v)
            <==> HasVoted(l, v)
                 || exists i :: 0 <= i < |calls| && calls[i].voter == v && !Run(l, calls)[i].reverted
    decreases |calls|
  {
    if calls != [] {
      var r := Transact(l, calls[0].candidateId, calls[0].voter);
      var rs := Run(l, calls);
      assert rs[1..] == Run(r.state, calls[1..]);
      FlagReflectsHistory(r.state, calls[1..], v);
      if HasVoted(Final(l, calls), v) && !HasVoted(l, v) {
        if HasVoted(r.state, v) {
          assert calls[0].voter == v && !rs[0].reverted;
        } else {
          var i :| 0 <= i < |calls[1..]| && calls[1..][i].voter == v && !Run(r.state, calls[1..])[i].reverted;
          assert calls[i + 1].voter == v && !rs[i + 1].reverted;
        }
      }
      if exists i :: 0 <= i < |calls| && calls[i].voter == v && !rs[i].reverted {
        var i :| 0 <= i < |calls| && calls[i].voter == v && !rs[i].reverted;
        if i > 0 {
          assert calls[1..][i - 1].voter == v && !Run(r.state, calls[1..])[i - 1].reverted;
        }
      }
    }
  }

  /** A set flag stays set for the rest of a run. */
  lemma {:induction false} FlagPersistsAlongRun(l: Ledger, calls: seq<Call>, i: nat, k: nat, v: Address)
    requires i <= k < |calls|
    requires HasVoted(Run(l, calls)[i].state, v)
    ensures HasVoted(Run(l, calls)[k].state, v)
    decreases k - i
  {
    if i < k {
      var rs := Run(l, calls);
      FlagsAndRosterPersist(rs[i].state, calls[i + 1].candidateId, calls[i + 1].voter, v, 0);
      FlagPersistsAlongRun(l, calls, i + 1, k, v);
    }
  }

  /** Each account commits at most one vote on a shared instance: once call i
      from an account has committed, every later call from that account reverts,
      whatever other accounts do in between. */
  lemma AtMostOneCommitPerAccount(l: Ledger, calls: seq<Call>, i: nat, j: nat)
    requires i < j < |calls|
    requires calls[i].voter == calls[j].voter
    requires !Run(l, calls)[i].reverted
    ensures Run(l, calls)[j].reverted
  {
    var rs := Run(l, calls);
    if i == 0 {
      assert rs[i] == Transact(l, calls[i].candidateId, calls[i].voter);
    } else {
      assert rs[i] == Transact(rs[i - 1].state, calls[i].candidateId, calls[i].voter);
    }
    FlagPersistsAlongRun(l, calls, i, j - 1, calls[i].voter);
  }
}
