/**
 The Election ledger: a roster of candidates seeded once at construction, a
 per-account "has voted" flag, and the single mutating operation `Vote`, which
 either commits atomically (flag set, one vote credited, one `VotedEvent`
 emitted) or reverts with no effect at all.

 Accounts are identified by their address; nothing but equality of addresses is
 used. Transactions are applied one after another, so every call sees the state
 the previous one left behind.
 */
module Election {

  datatype Option<+T> = None | Some(value: T)

  /** An account, identified by its 160-bit address. */
  type Address = a: nat | a < 0x1_0000_0000_0000_0000_0000_0000_0000_0000_0000_0000

  /** One entry of the roster: `candidates(id)` returns these three fields. */
  datatype Candidate = Candidate(id: nat, name: string, voteCount: nat)

  /** The only event the ledger emits; it names the candidate voted for. */
  datatype VotedEvent = VotedEvent(candidateId: nat)

  /** The ledger's storage: the `candidates` mapping, the `candidatesCount`
      counter, and the accounts whose `voters` flag is true. An account absent
      from `voters` reads as "has not voted". */
  datatype Ledger = Ledger(candidates: map<nat, Candidate>, candidatesCount: nat, voters: set<Address>)

  /** What a call to `vote` does: commit a new ledger and its event log, or revert. */
  datatype Outcome = Ok(ledger: Ledger, logs: seq<VotedEvent>) | Revert

  /** A transaction receipt: the state after the call, the events it logged,
      and whether it reverted. */
  datatype Receipt = Receipt(state: Ledger, logs: seq<VotedEvent>, reverted: bool)

  /** A roster whose ids are exactly 1..candidatesCount, each entry carrying its own id. */
  ghost predicate Valid(l: Ledger) {
    && (forall id :: id in l.candidates <==> 1 <= id <= l.candidatesCount)
    && (forall id :: id in l.candidates ==> l.candidates[id].id == id)
  }

  // ---------------------------------------------------------------------------
  // Read-only queries

  /** `candidates(id)`: the roster entry for `id`, if there is one. On a
      well-formed roster that is exactly the ids 1..candidatesCount, and the
      entry returned carries the id it was asked for. */
  function CandidateAt(l: Ledger, id: nat): (r: Option<Candidate>)
    ensures r.Some? <==> id in l.candidates
    ensures Valid(l) ==> (r.Some? <==> 1 <= id <= l.candidatesCount)
    ensures Valid(l) && r.Some? ==> r.value.id == id
  {
    if id in l.candidates then Some(l.candidates[id]) else None
  }

  /** The vote count `candidates(id)` reports: the entry's count, or 0 for an
      id with no entry. */
  function VotesFor(l: Ledger, id: nat): (r: nat)
    ensures CandidateAt(l, id).Some? ==> r == CandidateAt(l, id).value.voteCount
    ensures CandidateAt(l, id).None? ==> r == 0
    ensures Valid(l) && (id == 0 || id > l.candidatesCount) ==> r == 0
  {
    if id in l.candidates then l.candidates[id].voteCount else 0
  }

  /** `voters(account)`: whether the account has already cast its vote. An
      account with no recorded flag reads as "not voted". */
  function HasVoted(l: Ledger, voter: Address): (r: bool)
    ensures l.voters == {} ==> !r
    ensures r <==> voter in l.voters
  {
    voter in l.voters
  }

  // ---------------------------------------------------------------------------
  // Construction

  /** The ledger before any candidate has been added. */
  function Empty(): (r: Ledger)
    ensures Valid(r) && r.candidatesCount == 0 && r.voters == {}
  {
    Ledger(map[], 0, {})
  }

  /** The constructor's helper: give `name` the next sequential id and a zero count. */
  function AddCandidate(l: Ledger, name: string): (r: Ledger)
    ensures r.candidatesCount == l.candidatesCount + 1
    ensures CandidateAt(r, r.candidatesCount) == Some(Candidate(r.candidatesCount, name, 0))
    ensures forall id :: id != r.candidatesCount ==> CandidateAt(r, id) == CandidateAt(l, id)
    ensures r.voters == l.voters
    ensures Valid(l) ==> Valid(r)
  {
    var id := l.candidatesCount + 1;
    l.(candidates := l.candidates[id := Candidate(id, name, 0)], candidatesCount := id)
  }

  /** Construction: seed the roster with `names`, in order, and no voter flagged. */
  function Init(names: seq<string>): (r: Ledger)
    ensures Valid(r)
    ensures r.candidatesCount == |names|
    ensures forall id :: 1 <= id <= |names| ==> CandidateAt(r, id) == Some(Candidate(id, names[id - 1], 0))
    ensures r.voters == {}
    decreases |names|
  {
    if names == [] then Empty()
    else AddCandidate(Init(names[..|names| - 1]), names[|names| - 1])
  }

  /** The deployed instance: two candidates, "Candidate 1" and "Candidate 2". */
  function Deployed(): (r: Ledger)
    ensures Valid(r) && r.candidatesCount == 2 && r.voters == {}
    ensures CandidateAt(r, 1) == Some(Candidate(1, "Candidate 1", 0))
    ensures CandidateAt(r, 2) == Some(Candidate(2, "Candidate 2", 0))
  {
    Init(["Candidate 1", "Candidate 2"])
  }

  // ---------------------------------------------------------------------------
  // The one mutating operation

  /** `vote(candidateId)` sent from `voter`. It commits exactly when the id names
      a roster entry and the voter has not voted yet; a commit flags the voter,
      credits one vote to that candidate alone and logs one `VotedEvent`. */
  function Vote(l: Ledger, candidateId: nat, voter: Address): (r: Outcome)
    ensures r.Ok? <==> candidateId in l.candidates && !HasVoted(l, voter)
    ensures Valid(l) ==> (r.Ok? <==> 1 <= candidateId <= l.candidatesCount && !HasVoted(l, voter))
    ensures r.Ok? ==> |r.logs| == 1 && r.logs[0] == VotedEvent(candidateId)
    ensures r.Ok? ==> HasVoted(r.ledger, voter)
    ensures r.Ok? ==> forall w :: w != voter ==> (HasVoted(r.ledger, w) <==> HasVoted(l, w))
    ensures r.Ok? ==> VotesFor(r.ledger, candidateId) == VotesFor(l, candidateId) + 1
    ensures r.Ok? ==> CandidateAt(r.ledger, candidateId).Some?
                      && CandidateAt(r.ledger, candidateId).value.id == l.candidates[candidateId].id
                      && CandidateAt(r.ledger, candidateId).value.name == l.candidates[candidateId].name
    ensures r.Ok? ==> forall id :: id != candidateId ==> CandidateAt(r.ledger, id) == CandidateAt(l, id)
    ensures r.Ok? ==> r.ledger.candidatesCount == l.candidatesCount
    ensures r.Ok? && Valid(l) ==> Valid(r.ledger)
  {
    if candidateId in l.candidates && voter !in l.voters then
      var c := l.candidates[candidateId];
      var credited := c.(voteCount := c.voteCount + 1);
      Ok(l.(candidates := l.candidates[candidateId := credited], voters := l.voters + {voter}),
         [VotedEvent(candidateId)])
    else
      Revert
  }

  /** The transaction around `Vote`: a revert rolls everything back and logs nothing. */
  function Transact(l: Ledger, candidateId: nat, voter: Address): (r: Receipt)
    ensures r.reverted <==> candidateId !in l.candidates || HasVoted(l, voter)
    ensures r.reverted ==> r.state == l && r.logs == []
    ensures !r.reverted ==> Vote(l, candidateId, voter) == Ok(r.state, r.logs)
    ensures !r.reverted ==> r.logs == [VotedEvent(candidateId)] && HasVoted(r.state, voter)
    ensures !r.reverted ==> VotesFor(r.state, candidateId) == VotesFor(l, candidateId) + 1
    ensures !r.reverted ==> forall id :: id != candidateId ==> CandidateAt(r.state, id) == CandidateAt(l, id)
    ensures !r.reverted ==> forall w :: w != voter ==> (HasVoted(r.state, w) <==> HasVoted(l, w))
  {
    match Vote(l, candidateId, voter)
    case Ok(next, logs) => Receipt(next, logs, false)
    case Revert => Receipt(l, [], true)
  }
}
