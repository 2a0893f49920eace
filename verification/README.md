# Election ledger in Dafny

A model of the Election ledger exercised by `test/election.js`: a roster of
candidates `{id, name, voteCount}` seeded once at deployment (ids 1 and 2,
"Candidate 1" and "Candidate 2"), a per-account "has voted" flag, and the single
mutating call `vote(candidateId)`. A vote either commits atomically (the caller's
flag is set, exactly one vote is credited to the chosen candidate, and exactly one
`VotedEvent` carrying the candidate id is logged) or reverts, leaving the ledger
untouched and logging nothing.

The behaviour is the one `test/election.js` asserts. The model assumes that ids
are assigned sequentially from 1, that a vote is guarded by "the id names a
candidate" and "the caller has not voted yet", and that a failed guard reverts
the whole call.

Modules:

- `Election` (`election.dfy`): the data model (`Candidate`, `VotedEvent`,
  `Ledger`, `Outcome`, `Receipt`), the queries `candidates(id)` (`CandidateAt`,
  `VotesFor`) and `voters(account)` (`HasVoted`), construction (`AddCandidate`,
  `Init`, `Deployed`), `Vote`, and `Transact`, the transaction wrapper whose revert
  rolls back to the prior state.
- `Invariants` (`invariants.dfy`): the tally invariant (vote counts add up to the
  number of flagged accounts), the one-way voter flag, the frozen roster, and the
  revert lemmas.
- `Replay` (`replay.dfy`): a sequence of transactions threaded through one ledger;
  every credited vote is announced by exactly one event, the voter flag records
  exactly the committed calls, and each account commits at most once.
- `ElectionTest` (`election_test.dfy`): the test suite's trace replayed on one
  shared deployed instance.

Accounts are 160-bit addresses (`Address`); nothing about them is used beyond
equality. A voter flag that is true is modelled as membership of the `voters` set;
an account never seen reads as "not voted", as the contract's mapping does.

## Model

| member | source | states |
|---|---|---|
| `Election.Vote` | test/election.js:27-91 | commits exactly when the id is on the roster and the caller has not voted (on a well-formed roster: 1 <= id <= candidatesCount); a commit logs exactly one `VotedEvent(id)`, flags the caller and no one else, adds exactly 1 to that candidate's count, keeps its id and name, leaves every other candidate and the roster size as they were, and keeps the roster well-formed |
| `Election.Transact` | test/election.js:52-90 | a call reverts exactly when the id is unknown or the caller already voted; a reverted call leaves the ledger unchanged and logs nothing; a committed one is exactly `Vote`'s commit: it logs the single event, flags the caller and no one else, adds exactly 1 to the chosen candidate and leaves every other candidate as it was |
| `Election.CandidateAt` | test/election.js:16-24 | `candidates(id)` returns an entry exactly when the id is on the roster; on a well-formed roster that is exactly 1 <= id <= candidatesCount, and the entry carries the id asked for |
| `Election.VotesFor` | test/election.js:48-49 | the count read through `candidates(id)` is the entry's vote count, and 0 for an id with no entry (in particular 0 or above candidatesCount) |
| `Election.Empty` | test/election.js:6-8 | the storage before construction: a well-formed roster with count 0 and no account flagged |
| `Election.Deployed` | test/election.js:6-25 | the deployed instance is well-formed, holds 2 candidates, (1, "Candidate 1", 0) and (2, "Candidate 2", 0), and no account has voted |
| `Election.AddCandidate` | test/election.js:15-25 | a seeded candidate takes the next id, its given name and a zero count; nothing else on the roster changes and well-formedness is kept |
| `Election.Init` | test/election.js:10-25 | seeding with a list of names gives a well-formed roster of that many candidates, candidate i carrying id i, the i-th name and 0 votes, and no account flagged |
| `ElectionTest.DeployedRoster` | test/election.js:10-25 | the deployed ledger has candidatesCount 2, candidate 1 is (1, "Candidate 1", 0), candidate 2 is (2, "Candidate 2", 0), no account has voted, and the tally invariant holds |
| `ElectionTest.TestTrace` | test/election.js:27-91 | on one shared instance, for distinct accounts a and b: vote(1) from a logs one VotedEvent(1), flags a and gives candidate 1 one vote; vote(99) from b reverts with counts 1 and 0; vote(2) from b commits with candidate 2 at 1; a second vote(2) from b reverts with counts 1 and 1 |
| `Invariants.InitConsistent` | test/election.js:15-25 | a freshly seeded ledger has credited no votes and is consistent (well-formed, tally equal to the number of flagged accounts) |
| `Invariants.VoteCreditsTally` | test/election.js:48-49 | a committed vote raises the total of all counts by exactly one; a reverted one leaves it unchanged |
| `Invariants.VotePreservesConsistent` | test/election.js:45-49 | every transaction, committed or reverted, keeps the tally equal to the number of accounts that have voted |
| `Invariants.VotesBoundedByVoters` | test/election.js:45-49 | on a consistent ledger no candidate's count exceeds the number of accounts that have voted |
| `Invariants.FlagsAndRosterPersist` | test/election.js:62-66 | a set voter flag is never cleared; no transaction changes candidatesCount, which ids exist, or any candidate's id or name; counts never decrease |
| `Invariants.SecondVoteReverts` | test/election.js:76-90 | after a committed vote, the same account's next vote reverts whatever candidate it names, and that revert changes nothing |
| `Invariants.UnknownCandidateReverts` | test/election.js:52-67 | an id outside 1..candidatesCount (such as 99) reverts for every account, leaves the ledger unchanged and logs nothing |
| `Invariants.RejectedVoterCanStillVote` | test/election.js:52-74 | a revert sets no flag: an account refused for a bad id can then vote for a real candidate |
| `Invariants.RejectionIsIdempotent` | test/election.js:76-90 | repeating a refused call on the state it left gives the identical refusal and receipt |
| `Replay.Run` | test/election.js:6-8 | replaying calls on one shared instance yields one receipt per call: receipt 0 is the first call applied to the starting ledger, receipt i is call i applied to the state of receipt i-1, and a receipt has logs exactly when it did not revert |
| `Replay.RunThreadsState` | test/election.js:6-8 | the state in receipt i is the ledger the first i+1 calls leave behind |
| `Replay.RunPreservesConsistent` | test/election.js:27-91 | a consistent ledger stays consistent after every transaction of any sequence |
| `Replay.FlagReflectsHistory` | test/election.js:45-74 | after any sequence of calls, `voters(account)` is true exactly when it was true before or some call from that account committed; a reverted call flags no one |
| `Replay.AtMostOneCommitPerAccount` | test/election.js:76-90 | on one shared instance, once a call from an account has committed, every later call from the same account reverts, whatever other accounts send in between |
| `Replay.VotesMatchEvents` | test/election.js:33-49 | over any sequence of calls, the votes a candidate gains equal the number of logged `VotedEvent`s naming it |

## Left out

- Deployment and the test runner (`artifacts.require`, `Election.deployed()`, the
  `contract(...)` harness): I/O around the ledger; the deployed ledger is the
  function `Deployed`.
- The Solidity contract and its migration are not part of this model; the roster
  names "Candidate 1"/"Candidate 2" come from the test's assertions.
- Transaction receipts beyond the event list, the event's name as a string, and
  the "revert" error message text: a revert is the `Revert` outcome, or a receipt
  with `reverted` set, and the state is left unchanged.
- Which of the two guards is reported when both fail: the test observes only one
  generic revert, and the model has a single `Revert` outcome.
- `candidates(id)` for an id with no entry: `CandidateAt` answers `None` and
  `VotesFor` answers 0; the id and name fields of the zero-valued record a
  deployed contract would return there are not modelled, since the tests never
  query such an id.
- Gas, blocks and concurrent submission: accounts are compared only for
  equality and transactions are applied one at a time.
- Vote counts are unbounded naturals: a 256-bit overflow would need 2^256 voters.
