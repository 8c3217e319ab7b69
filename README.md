# Voting backend: candidate routes

A model of the candidate routes of a small voting backend
(`routes/candidateRoutes.js`). The routes keep two stores, users and
candidates. They let an admin create, update and delete candidates. They let
a user cast one vote, which appends a ballot `{user}` to the candidate,
raises its `voteCount` and marks the user `isVoted`. They also report every
candidate's party and tally, highest tally first.

Layout:

- `records.dfy` (module `Records`): users, ballots, candidates, update patches, the
  `Outcome` every handler answers (`Ok`, `NotFound`, `Forbidden`,
  `AlreadyVoted`, `InternalError`, with their HTTP statuses), the state of
  both stores, and `Faults`. `Faults` is the input that says which database
  call of a request raises, if any.
- `access.dfy` (module `Access`): `checkAdminRole` as the pure answer to a user
  lookup. It comes in two gates: the awaited one, and the un-awaited one the
  update and delete handlers use.
- `registry.dfy` (module `Registry`): create, update and delete as pure
  transitions of the state.
- `voting.dfy` (module `Voting`): the vote handler as pure transitions. There
  is an intended version and an as-written version. The module also holds
  the ballot invariants.
- `report.dfy` (module `Report`): the vote-count report. It is a sort by tally
  followed by a projection to `{party, count}`.
- `store.dfy` (module `Store`): class `VotingStore`. It holds the two stores as
  fields, and its handler methods update them in place. Each method's
  postcondition says that its answer and the new stores are exactly those
  of the pure transition.

Database calls within one request are numbered from 0. For create, update
and delete, call 0 is the caller's admin lookup and call 1 is the write. For
a vote, call 0 looks up the candidate, call 1 looks up the user, and call 2
writes both records.

The vote handler checks "already voted" (400) before "admin" (403), at lines
113-118. So an admin who has already voted is answered 400, not 403. The
model keeps that order.

## Model

| member | source | states |
|---|---|---|
| `Records.Patched` | routes/candidateRoutes.js:55-58 | each field the update request carries replaces the stored one and each field it leaves out is kept; a patch that touches neither `votes` nor `voteCount` keeps a consistent tally consistent; an empty patch changes nothing |
| `Records.Outcome.Status` | routes/candidateRoutes.js:104-132 | an outcome is 200 exactly when it is `Ok`; NotFound is 404, Forbidden 403, AlreadyVoted 400 and InternalError 500 |
| `Access.FindUser` | routes/candidateRoutes.js:11 | a lookup finds the stored user exactly when the id is stored and the call does not raise; it raises exactly when the fault input says so |
| `Access.AdminRoleOf` | routes/candidateRoutes.js:9-18 | truthy only for a found user whose role is "admin"; a missing user or a failed lookup gives false (fail closed); any other role gives `undefined` |
| `Access.AwaitedGate` | routes/candidateRoutes.js:24-25 | the awaited check admits exactly an existing admin whose lookup did not fail |
| `Access.UnawaitedGate` | routes/candidateRoutes.js:49-50 | the un-awaited check admits every caller, because a promise is always truthy |
| `Registry.Create` | routes/candidateRoutes.js:22-42 | a caller the gate refuses gets Forbidden and nothing changes; an admitted request whose save raises or whose id is taken gets InternalError; success exactly for an admin when the write does not raise and the id is new; on success only that id is added, with the given record; the tally invariant is kept when the new record is consistent |
| `Registry.UpdateGated` | routes/candidateRoutes.js:52-65 | a raising write gives InternalError and an unknown id NotFound, both with no change; on success only that record changes, to the patched record, which is returned; a refused gate gives Forbidden |
| `Registry.Update` | routes/candidateRoutes.js:47-70 | with the check awaited, a caller who is not an existing admin gets Forbidden and nothing changes |
| `Registry.UpdateAsWritten` | routes/candidateRoutes.js:49-50 | as written, the update handler never answers Forbidden |
| `Registry.DeleteGated` | routes/candidateRoutes.js:77-87 | a raising write gives InternalError and an unknown id NotFound, both with no change; success removes exactly that id, returns the removed record and leaves every other record; the tally invariant is kept |
| `Registry.Delete` | routes/candidateRoutes.js:72-92 | with the check awaited, a caller who is not an existing admin gets Forbidden and nothing changes |
| `Registry.DeleteAsWritten` | routes/candidateRoutes.js:74-75 | as written, the delete handler never answers Forbidden |
| `Registry.UnawaitedGateAdmitsVoters` | routes/candidateRoutes.js:49-50 | a registered non-admin updates and deletes an existing candidate through the handlers as written, and is refused by the awaited gate |
| `Registry.NonAdminCannotChangeRegistry` | routes/candidateRoutes.js:24-25 | under every fault, a caller who is not an admin gets Forbidden from create, update and delete, and the state is unchanged |
| `Registry.DeleteUndoesCreate` | routes/candidateRoutes.js:80-87 | deleting a just-created candidate returns its record and restores the state |
| `Voting.RecordBallot` | routes/candidateRoutes.js:120-127 | an accepted vote appends exactly one ballot `{user}` to the candidate, raises its tally by one, and marks that user as voted; every other candidate and user, and the candidate's other fields, are unchanged; tallies stay consistent |
| `Voting.Vote` | routes/candidateRoutes.js:96-134 | success exactly when no call raises, the candidate and user exist, the user has not voted and is not an admin; an unknown candidate gives NotFound before the user is looked up; an unknown user gives NotFound; a user who has voted gets AlreadyVoted; an admin gets Forbidden; a database call that raises gives InternalError; every refusal leaves the state unchanged |
| `Voting.VoteAsWritten` | routes/candidateRoutes.js:96-134 | as written, the lookups answer as in the corrected handler; a user who has voted and is an admin gets AlreadyVoted and nothing is written, because the 403 response raises; otherwise a user who has voted gets AlreadyVoted, an admin who has not gets Forbidden, an eligible user gets Ok (InternalError if the write raises), and in all three cases the ballot is recorded unless the write raises |
| `Voting.VotePreservesOneBallotPerVoter` | routes/candidateRoutes.js:97-98 | every vote keeps the one-to-one match between users marked as voted and ballots: each ballot names a voted user, no user holds two ballots, and each voted user holds one |
| `Voting.SecondVoteRejected` | routes/candidateRoutes.js:113-115 | after an accepted vote, the same user's next vote for any candidate gets AlreadyVoted and changes nothing |
| `Voting.AdminNeverVotes` | routes/candidateRoutes.js:116-118 | under every fault, an admin's vote is refused and changes nothing |
| `Voting.AsWrittenRejectedVotesAreCounted` | routes/candidateRoutes.js:113-123 | as written, a voter who has already voted gets AlreadyVoted and an admin who has not voted gets Forbidden, but the candidate's tally still rises by one; the intended handler changes nothing |
| `Voting.AsWrittenDoubleVote` | routes/candidateRoutes.js:113-127 | a concrete state where a user's second vote is answered AlreadyVoted but gives that user a second ballot |
| `Report.Insert` | routes/candidateRoutes.js:140 | inserting into a list ordered by tally keeps it ordered, and adds exactly that one document |
| `Report.SortByVotes` | routes/candidateRoutes.js:140 | the sorted documents are ordered by tally from highest to lowest and are a permutation of the query's documents |
| `Report.MapSort` | routes/candidateRoutes.js:140 | sorting permutes whatever is read off the documents, ids and report lines included |
| `Report.Results` | routes/candidateRoutes.js:140-148 | one `{party, count}` line per document, the lines a permutation of the documents' lines, counts from highest to lowest |
| `Store.VotingStore.CheckAdminRole` | routes/candidateRoutes.js:9-18 | truthy exactly for a stored admin whose lookup did not fail; false exactly when the lookup fails or the user is missing |
| `Store.VotingStore.CreateCandidate` | routes/candidateRoutes.js:22-42 | the answer and the new stores are those of `Registry.Create`; the tally invariant is kept when the new record is consistent |
| `Store.VotingStore.UpdateCandidate` | routes/candidateRoutes.js:47-70 | the answer and the new stores are those of `Registry.Update`; the tally invariant is kept by patches that touch neither the ballots nor the tally |
| `Store.VotingStore.DeleteCandidate` | routes/candidateRoutes.js:72-92 | the answer and the new stores are those of `Registry.Delete`; the tally invariant is kept |
| `Store.VotingStore.CastVote` | routes/candidateRoutes.js:96-134 | the answer and the new stores are those of `Voting.Vote`; the tally invariant is kept |
| `Store.VotingStore.FindAll` | routes/candidateRoutes.js:140 | the query returns each stored candidate exactly once, each with its stored record |
| `Store.VotingStore.VoteCount` | routes/candidateRoutes.js:137-156 | a failing query gives InternalError; otherwise there is one line per stored candidate (each id exactly once), each line holds that candidate's party and `voteCount`, and the counts never increase down the list |

## Left out

- The candidate list handler (`GET /candidateList`, routes/candidateRoutes.js:159-170) is not modelled. Its projection string `'name party - _id'` depends on how the database library parses it.
- `db.js` is not part of this model. It only opens the database connection and logs connection events.
- The token middleware `jwtAuthMiddleware` and `generateToken` (module `../jwt`) are not part of this model. The caller's user id is a trusted input.
- The candidate and user schemas (`models/candidate`, `models/user`) are not part of this model. So are their defaults (a new candidate's empty ballots and zero tally) and the validation run at routes/candidateRoutes.js:57. Fields a schema would drop from a request are not modelled either.
- Registry.Create: stores the request's record as given. The tally invariant is promised only when that record is consistent, since the schema defaults are not modelled.
- Registry.UpdateGated: a patch that sets `votes` or `voteCount` can break the tally invariant, and the handler allows it. The invariant is promised only for patches that leave both alone.
- Voting.VotePreservesOneBallotPerVoter: only the vote handler keeps this invariant. Deleting a candidate leaves its voters marked as voted with no ballot. Creating or patching a record can add ballots.
- The vote handler's two writes (routes/candidateRoutes.js:123 and 127) are separate, and there is no transaction. The model writes both records in one step (call 2). It does not model the state left when the candidate is saved and the user is not.
- Concurrent requests are not modelled. Lines 100-101 assign `candidateID` and `userId` without a declaration, so they are implicit globals (properties of the global object), shared by concurrent votes. That sharing is not modelled either.
- Faults: at most one database call per request raises. The raise is an input, and its kind is not modelled (storage down, an id the database cannot parse, a duplicate id). The only 500 path is the opaque `InternalError`.
- Logging (`console.log`) is not modelled.
- Report.SortByVotes: states only the ordering by tally and the permutation. The order among equal tallies is the database's choice and is not promised.
- Voting.VoteAsWritten: the raise caused by a second response is modelled only by what it skips. The unhandled rejection it leaves behind is not modelled.

## Findings

| source | as written | input that shows it | evidently intended | confidence | as-written member | corrected member |
|---|---|---|---|---|---|---|
| routes/candidateRoutes.js:113-118 | the already-voted and admin checks send 400/403 but do not return, so lines 121-127 still record the ballot | a user with `isVoted = true` and role "voter" votes again for an existing candidate: the answer is 400, yet a second ballot is appended and the tally rises | return after each error response, as the comments at lines 97-98 state (no admin votes, one vote per user) | high; not executed | `Voting.VoteAsWritten`, `Voting.AsWrittenDoubleVote` | `Voting.Vote`, `Voting.VotePreservesOneBallotPerVoter` |
| routes/candidateRoutes.js:49, 74 | `!checkAdminRole(id)` negates the un-awaited promise, which is always truthy, so the 403 branch never runs | a registered user with role "voter" sends PUT or DELETE for an existing candidate id: the update or delete succeeds | `!(await checkAdminRole(id))`, as at line 24 | high; not executed | `Registry.UpdateAsWritten`, `Registry.DeleteAsWritten`, `Registry.UnawaitedGateAdmitsVoters` | `Registry.Update`, `Registry.Delete`, `Registry.NonAdminCannotChangeRegistry` |
