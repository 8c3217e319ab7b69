/** Casting a vote. Database call 0 of a vote request looks up the candidate,
    call 1 the user, call 2 writes both records back. */
module Voting {
  import opened Records

  /** The effect of an accepted vote: one ballot naming `uid` appended to the
      candidate, its tally raised by one, and the user marked as having voted.
      Nothing else in either store changes. */
  function RecordBallot(st: State, cid: CandidateId, uid: UserId): (r: State)
    requires cid in st.candidates && uid in st.users
    ensures r.candidates.Keys == st.candidates.Keys && r.users.Keys == st.users.Keys
    ensures r.candidates[cid].votes == st.candidates[cid].votes + [VoteEntry(uid)]
    ensures r.candidates[cid].voteCount == st.candidates[cid].voteCount + 1
    ensures r.candidates[cid].name == st.candidates[cid].name
    ensures r.candidates[cid].party == st.candidates[cid].party
    ensures r.candidates[cid].age == st.candidates[cid].age
    ensures forall c :: c in st.candidates && c != cid ==> r.candidates[c] == st.candidates[c]
    ensures r.users[uid] == st.users[uid].(isVoted := true)
    ensures forall u :: u in st.users && u != uid ==> r.users[u] == st.users[u]
    ensures st.candidates[cid].Consistent() ==> r.candidates[cid].Consistent()
    ensures TalliesConsistent(st) ==> TalliesConsistent(r)
  {
    var c := st.candidates[cid];
    State(st.users[uid := st.users[uid].(isVoted := true)],
          st.candidates[cid := c.(votes := c.votes + [VoteEntry(uid)], voteCount := c.voteCount + 1)])
  }

  /** The vote handler with the intent its comments state: admins do not vote
      and a user votes once. Every check returns as soon as it fails, in the
      order the handler makes them: candidate, user, already voted, admin. */
  function Vote(st: State, cid: CandidateId, uid: UserId, fault: Faults): (s: Step<()>)
    ensures s.response.Ok? <==>
              && !fault.Fails(0) && !fault.Fails(1) && !fault.Fails(2)
              && cid in st.candidates && uid in st.users
              && !st.users[uid].isVoted && st.users[uid].role != "admin"
    ensures !s.response.Ok? ==> s.next == st
    ensures s.response.Ok? ==> s.next == RecordBallot(st, cid, uid)
    // a raising database call is answered InternalError
    ensures fault.Fails(0) ==> s.response == InternalError
    ensures fault.Fails(1) && cid in st.candidates ==> s.response == InternalError
    ensures fault.Fails(2) && cid in st.candidates && uid in st.users
            && !st.users[uid].isVoted && st.users[uid].role != "admin"
            ==> s.response == InternalError
    // the candidate is looked up first: the user lookup is never reached for an unknown candidate
    ensures !fault.Fails(0) && cid !in st.candidates ==> s.response == NotFound
    ensures !fault.Fails(0) && !fault.Fails(1) && cid in st.candidates && uid !in st.users ==> s.response == NotFound
    ensures !fault.Fails(0) && !fault.Fails(1) && cid in st.candidates && uid in st.users && st.users[uid].isVoted
            ==> s.response == AlreadyVoted
    ensures !fault.Fails(0) && !fault.Fails(1) && cid in st.candidates && uid in st.users
            && !st.users[uid].isVoted && st.users[uid].role == "admin"
            ==> s.response == Forbidden
    ensures TalliesConsistent(st) ==> TalliesConsistent(s.next)
  {
    if fault.Fails(0) then Step(InternalError, st)
    else if cid !in st.candidates then Step(NotFound, st)
    else if fault.Fails(1) then Step(InternalError, st)
    else if uid !in st.users then Step(NotFound, st)
    else if st.users[uid].isVoted then Step(AlreadyVoted, st)
    else if st.users[uid].role == "admin" then Step(Forbidden, st)
    else if fault.Fails(2) then Step(InternalError, st)
    else Step(Ok(()), RecordBallot(st, cid, uid))
  }

  /** The vote handler as written: the already-voted and admin checks send
      their error response but do not return. The client sees the first
      response sent; any later response raises because one has already gone
      out, and the raise jumps to the handler's catch. So a user who has voted
      and is an admin gets 400 and nothing is written (the 403 raises first),
      while a user who fails only one of the two checks gets the error
      response and the ballot is written anyway. */
  function VoteAsWritten(st: State, cid: CandidateId, uid: UserId, fault: Faults): (s: Step<()>)
    // the lookups behave as in the corrected handler
    ensures fault.Fails(0) ==> s == Step(InternalError, st)
    ensures !fault.Fails(0) && cid !in st.candidates ==> s == Step(NotFound, st)
    ensures fault.Fails(1) && cid in st.candidates ==> s == Step(InternalError, st)
    ensures !fault.Fails(0) && !fault.Fails(1) && cid in st.candidates && uid !in st.users
            ==> s == Step(NotFound, st)
    // a user who has voted and is an admin: the 403 raises, nothing is written
    ensures !fault.Fails(0) && !fault.Fails(1) && cid in st.candidates && uid in st.users
            && st.users[uid].isVoted && st.users[uid].role == "admin"
            ==> s == Step(AlreadyVoted, st)
    // otherwise the first response sent is what the client sees ...
    ensures !fault.Fails(0) && !fault.Fails(1) && cid in st.candidates && uid in st.users
            && st.users[uid].isVoted
            ==> s.response == AlreadyVoted
    ensures !fault.Fails(0) && !fault.Fails(1) && cid in st.candidates && uid in st.users
            && !st.users[uid].isVoted && st.users[uid].role == "admin"
            ==> s.response == Forbidden
    ensures !fault.Fails(0) && !fault.Fails(1) && cid in st.candidates && uid in st.users
            && !st.users[uid].isVoted && st.users[uid].role != "admin"
            ==> s.response == (if fault.Fails(2) then InternalError else Ok(()))
    // ... and the ballot is written unless the write raises
    ensures cid in st.candidates && uid in st.users && !fault.Fails(0) && !fault.Fails(1)
            && !(st.users[uid].isVoted && st.users[uid].role == "admin")
            ==> s.next == (if fault.Fails(2) then st else RecordBallot(st, cid, uid))
  {
    if fault.Fails(0) then Step(InternalError, st)
    else if cid !in st.candidates then Step(NotFound, st)
    else if fault.Fails(1) then Step(InternalError, st)
    else if uid !in st.users then Step(NotFound, st)
    else if st.users[uid].isVoted && st.users[uid].role == "admin" then Step(AlreadyVoted, st)
    else
      var rejection: Option<Outcome<()>> :=
        if st.users[uid].isVoted then Some(AlreadyVoted)
        else if st.users[uid].role == "admin" then Some(Forbidden)
        else None;
      var next := if fault.Fails(2) then st else RecordBallot(st, cid, uid);
      var response := if rejection.Some? then rejection.value
                      else if fault.Fails(2) then InternalError
                      else Ok(());
      Step(response, next)
  }

  /** Ballot `i` of candidate `c` exists and was cast by `u`. */
  ghost predicate BallotAt(st: State, c: CandidateId, i: int, u: UserId) {
    c in st.candidates && 0 <= i < |st.candidates[c].votes| && st.candidates[c].votes[i].user == u
  }

  /** Every ballot names a stored user who is marked as having voted. */
  ghost predicate BallotsFromVoters(st: State) {
    forall c, i :: c in st.candidates && 0 <= i < |st.candidates[c].votes| ==>
      st.candidates[c].votes[i].user in st.users && st.users[st.candidates[c].votes[i].user].isVoted
  }

  /** No user appears on two ballots, for the same candidate or different ones. */
  ghost predicate BallotsUnique(st: State) {
    forall c1, i1, c2, i2, u :: BallotAt(st, c1, i1, u) && BallotAt(st, c2, i2, u) ==> c1 == c2 && i1 == i2
  }

  /** Every user marked as having voted has a ballot. */
  ghost predicate VotersHaveBallots(st: State) {
    forall u :: u in st.users && st.users[u].isVoted ==> exists c, i :: BallotAt(st, c, i, u)
  }

  /** Users marked as having voted and ballots correspond one to one. */
  ghost predicate OneBallotPerVoter(st: State) {
    BallotsFromVoters(st) && BallotsUnique(st) && VotersHaveBallots(st)
  }

  /** A vote, accepted or not, keeps the one-to-one correspondence between
      voters and ballots. */
  lemma VotePreservesOneBallotPerVoter(st: State, cid: CandidateId, uid: UserId, fault: Faults)
    requires OneBallotPerVoter(st)
    ensures OneBallotPerVoter(Vote(st, cid, uid, fault).next)
  {
    var s := Vote(st, cid, uid, fault);
    if s.response.Ok? {
      var r := s.next;
      var n := |st.candidates[cid].votes|;
      assert BallotAt(r, cid, n, uid);
      // uid held no ballot before: it was not marked as having voted
      forall c, i
        ensures !BallotAt(st, c, i, uid)
      {
      }
      // every old ballot is still at its place
      forall c, i, u | BallotAt(st, c, i, u)
        ensures BallotAt(r, c, i, u)
      {
      }
      // every new ballot is an old one or the appended one
      forall c, i, u | BallotAt(r, c, i, u)
        ensures BallotAt(st, c, i, u) || (c == cid && i == n && u == uid)
      {
        if c == cid && i < n {
          assert r.candidates[cid].votes[i] == st.candidates[cid].votes[i];
        }
      }
      forall c, i | c in r.candidates && 0 <= i < |r.candidates[c].votes|
        ensures r.candidates[c].votes[i].user in r.users && r.users[r.candidates[c].votes[i].user].isVoted
      {
        assert BallotAt(r, c, i, r.candidates[c].votes[i].user);
      }
      forall u | u in r.users && r.users[u].isVoted
        ensures exists c, i :: BallotAt(r, c, i, u)
      {
        if u != uid {
          var c, i :| BallotAt(st, c, i, u);
          assert BallotAt(r, c, i, u);
        }
      }
    }
  }

  /** Once a vote is accepted, the same user's next vote, for any candidate,
      is answered AlreadyVoted and changes nothing. */
  lemma SecondVoteRejected(st: State, cid: CandidateId, other: CandidateId, uid: UserId, fault: Faults)
    requires Vote(st, cid, uid, Healthy).response.Ok?
    requires other in st.candidates && !fault.Fails(0) && !fault.Fails(1)
    ensures var after := Vote(st, cid, uid, Healthy).next;
            Vote(after, other, uid, fault) == Step(AlreadyVoted, after)
  {
  }

  /** An admin's vote is never recorded, whatever the faults. */
  lemma AdminNeverVotes(st: State, cid: CandidateId, uid: UserId, fault: Faults)
    requires uid in st.users && st.users[uid].role == "admin"
    ensures !Vote(st, cid, uid, fault).response.Ok?
    ensures Vote(st, cid, uid, fault).next == st
  {
  }

  /** As written, a voter who has already voted is answered AlreadyVoted and
      an admin who has not voted is answered Forbidden, but both ballots are
      recorded, where the corrected handler records neither. */
  lemma AsWrittenRejectedVotesAreCounted(st: State, cid: CandidateId, uid: UserId)
    requires cid in st.candidates && uid in st.users
    requires st.users[uid].isVoted != (st.users[uid].role == "admin")
    ensures VoteAsWritten(st, cid, uid, Healthy).response
            == (if st.users[uid].isVoted then AlreadyVoted else Forbidden)
    ensures Vote(st, cid, uid, Healthy).next == st
    ensures VoteAsWritten(st, cid, uid, Healthy).next.candidates[cid].voteCount
            == st.candidates[cid].voteCount + 1
  {
  }

  /** A concrete double vote: user "u" already holds the one ballot of
      candidate "c"; voting again as written gives "u" a second ballot, which
      the corrected handler refuses. */
  lemma AsWrittenDoubleVote()
    ensures var st := State(map["u" := User("Ann", "voter", true)],
                            map["c" := Candidate("Bob", "P", 40, [VoteEntry("u")], 1)]);
            && OneBallotPerVoter(st)
            && VoteAsWritten(st, "c", "u", Healthy).response == AlreadyVoted
            && !BallotsUnique(VoteAsWritten(st, "c", "u", Healthy).next)
            && Vote(st, "c", "u", Healthy) == Step(AlreadyVoted, st)
  {
    var st := State(map["u" := User("Ann", "voter", true)],
                     map["c" := Candidate("Bob", "P", 40, [VoteEntry("u")], 1)]);
    assert BallotAt(st, "c", 0, "u");
    var after := VoteAsWritten(st, "c", "u", Healthy).next;
    assert after.candidates["c"].votes == [VoteEntry("u"), VoteEntry("u")];
    assert BallotAt(after, "c", 0, "u") && BallotAt(after, "c", 1, "u");
  }
}
