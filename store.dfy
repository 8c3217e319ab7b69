/** The two stores, users and candidates, as one object whose request
    handlers update them in place. Each handler is specified by the pure
    function that describes it: the answer it gives and the stores it leaves
    are exactly that function's. */
module Store {
  import opened Records
  import Access
  import Registry
  import Voting
  import Report

  class VotingStore {
    var users: map<UserId, User>
    var candidates: map<CandidateId, Candidate>

    function Snapshot(): State
      reads this
    {
      State(users, candidates)
    }

    /** Every candidate's tally agrees with its ballots. */
    ghost predicate TalliesConsistent()
      reads this
    {
      Records.TalliesConsistent(Snapshot())
    }

    /** Users are registered elsewhere; the stores start from what is given. */
    constructor (users: map<UserId, User>, candidates: map<CandidateId, Candidate>)
      ensures Snapshot() == State(users, candidates)
    {
      this.users := users;
      this.candidates := candidates;
    }

    /** `checkAdminRole`: look the user up (database call 0) and answer. */
    method CheckAdminRole(userId: UserId, fault: Faults) returns (r: Access.JsBool)
      ensures r.Truthy() <==> !fault.Fails(0) && userId in users && users[userId].role == "admin"
      ensures r == Access.JsFalse <==> fault.Fails(0) || userId !in users
    {
      var user := Access.FindUser(users, userId, fault, 0);
      r := Access.AdminRoleOf(user);
    }

    /** POST `/`: an admin adds a candidate under the id the database assigns. */
    method CreateCandidate(caller: UserId, id: CandidateId, data: Candidate, fault: Faults)
      returns (r: Outcome<Candidate>)
      modifies this
      ensures Step(r, Snapshot()) == Registry.Create(old(Snapshot()), caller, id, data, fault)
      ensures old(TalliesConsistent()) && data.Consistent() ==> TalliesConsistent()
    {
      var isAdmin := CheckAdminRole(caller, fault);
      if !isAdmin.Truthy() {
        return Forbidden;
      }
      if fault.Fails(1) || id in candidates {
        return InternalError;
      }
      candidates := candidates[id := data];
      r := Ok(data);
    }

    /** PUT `/:candidateID`, with the admin check awaited. */
    method UpdateCandidate(caller: UserId, id: CandidateId, patch: CandidatePatch, fault: Faults)
      returns (r: Outcome<Candidate>)
      modifies this
      ensures Step(r, Snapshot()) == Registry.Update(old(Snapshot()), caller, id, patch, fault)
      ensures old(TalliesConsistent()) && patch.votes.None? && patch.voteCount.None? ==> TalliesConsistent()
    {
      var isAdmin := CheckAdminRole(caller, fault);
      if !isAdmin.Truthy() {
        return Forbidden;
      }
      if fault.Fails(1) {
        return InternalError;
      }
      if id !in candidates {
        return NotFound;
      }
      var updated := Patched(candidates[id], patch);
      candidates := candidates[id := updated];
      r := Ok(updated);
    }

    /** DELETE `/:candidateID`, with the admin check awaited; answers the
        removed record. */
    method DeleteCandidate(caller: UserId, id: CandidateId, fault: Faults)
      returns (r: Outcome<Candidate>)
      modifies this
      ensures Step(r, Snapshot()) == Registry.Delete(old(Snapshot()), caller, id, fault)
      ensures old(TalliesConsistent()) ==> TalliesConsistent()
    {
      var isAdmin := CheckAdminRole(caller, fault);
      if !isAdmin.Truthy() {
        return Forbidden;
      }
      if fault.Fails(1) {
        return InternalError;
      }
      if id !in candidates {
        return NotFound;
      }
      r := Ok(candidates[id]);
      candidates := candidates - {id};
    }

    /** POST `/vote/:candidateID`, every failed check returning at once. */
    method CastVote(candidateId: CandidateId, userId: UserId, fault: Faults) returns (r: Outcome<()>)
      modifies this
      ensures Step(r, Snapshot()) == Voting.Vote(old(Snapshot()), candidateId, userId, fault)
      ensures old(TalliesConsistent()) ==> TalliesConsistent()
    {
      if fault.Fails(0) {
        return InternalError;
      }
      if candidateId !in candidates {
        return NotFound;
      }
      var candidate := candidates[candidateId];
      if fault.Fails(1) {
        return InternalError;
      }
      if userId !in users {
        return NotFound;
      }
      var user := users[userId];
      if user.isVoted {
        return AlreadyVoted;
      }
      if user.role == "admin" {
        return Forbidden;
      }
      if fault.Fails(2) {
        return InternalError;
      }
      candidate := candidate.(votes := candidate.votes + [VoteEntry(userId)]);
      candidate := candidate.(voteCount := candidate.voteCount + 1);
      user := user.(isVoted := true);
      candidates := candidates[candidateId := candidate];
      users := users[userId := user];
      r := Ok(());
    }

    /** `Candidate.find()`: every stored candidate once, as a document, in an
        order the database chooses. */
    method FindAll() returns (docs: seq<Report.Doc>)
      ensures multiset(Report.MapDocs(Report.IdOf, docs)) == multiset(candidates.Keys)
      ensures forall d :: d in docs ==> d.id in candidates && d.candidate == candidates[d.id]
    {
      docs := [];
      var unread := candidates.Keys;
      while unread != {}
        invariant unread <= candidates.Keys
        invariant multiset(Report.MapDocs(Report.IdOf, docs)) + multiset(unread) == multiset(candidates.Keys)
        invariant forall d :: d in docs ==> d.id in candidates && d.candidate == candidates[d.id]
        decreases |unread|
      {
        var id :| id in unread;
        var doc := Report.Doc(id, candidates[id]);
        Report.MapAppend(Report.IdOf, docs, doc);
        TakeFromSet(unread, id);
        docs := docs + [doc];
        unread := unread - {id};
      }
    }

    /** GET `/vote/count`. The query (database call 0) returns the stored
        candidates; the report lists each of them once, as its party and
        tally, highest tally first. `order` names the candidate behind each
        line. */
    method VoteCount(fault: Faults) returns (r: Outcome<seq<Report.VoteRecord>>, ghost order: seq<CandidateId>)
      ensures r.Ok? <==> !fault.Fails(0)
      ensures !r.Ok? ==> r == InternalError
      ensures r.Ok? ==>
                && multiset(order) == multiset(candidates.Keys)
                && |r.value| == |order|
                && (forall i :: 0 <= i < |order| ==>
                      order[i] in candidates
                      && r.value[i] == Report.VoteRecord(candidates[order[i]].party, candidates[order[i]].voteCount))
                && Report.CountsDescending(r.value)
    {
      if fault.Fails(0) {
        return InternalError, [];
      }
      var docs := FindAll();
      ghost var sorted := Report.SortByVotes(docs);
      Report.MapSort(Report.IdOf, docs);
      order := Report.MapDocs(Report.IdOf, sorted);
      r := Ok(Report.Results(docs));
      forall i | 0 <= i < |order|
        ensures order[i] in candidates && sorted[i].candidate == candidates[order[i]]
      {
        assert sorted[i] in multiset(docs);
      }
    }
  }

  /** Taking `x` out of `s` takes exactly one `x` out of its multiset. */
  lemma TakeFromSet<T>(s: set<T>, x: T)
    requires x in s
    ensures multiset(s) == multiset(s - {x}) + multiset{x}
  {
    assert s == (s - {x}) + {x};
  }
}
