/** The candidate registry: create, update and delete of candidate records,
    each reserved to admins. Database call 0 of each request is the admin
    lookup; call 1 is the write. */
module Registry {
  import opened Records
  import Access

  /** Store `data` under the id the database assigns to the new document.
      A write that raises, including one rejected because the id is already
      taken, answers InternalError. */
  function Create(st: State, caller: UserId, id: CandidateId, data: Candidate, fault: Faults): (s: Step<Candidate>)
    ensures !Access.AwaitedGate(st.users, caller, fault) ==> s == Step(Forbidden, st)
    ensures s.response.Ok? <==> Access.AwaitedGate(st.users, caller, fault) && !fault.Fails(1) && id !in st.candidates
    ensures Access.AwaitedGate(st.users, caller, fault) && (fault.Fails(1) || id in st.candidates)
            ==> s.response == InternalError
    ensures !s.response.Ok? ==> s.next == st
    ensures s.response.Ok? ==>
              && s.response.value == data
              && s.next.users == st.users
              && s.next.candidates.Keys == st.candidates.Keys + {id}
              && s.next.candidates[id] == data
              && (forall c :: c in st.candidates ==> s.next.candidates[c] == st.candidates[c])
    ensures TalliesConsistent(st) && data.Consistent() ==> TalliesConsistent(s.next)
  {
    if !Access.AwaitedGate(st.users, caller, fault) then Step(Forbidden, st)
    else if fault.Fails(1) || id in st.candidates then Step(InternalError, st)
    else Step(Ok(data), st.(candidates := st.candidates[id := data]))
  }

  /** The update handler once its gate has been evaluated to `admit`. */
  function UpdateGated(admit: bool, st: State, id: CandidateId, patch: CandidatePatch, fault: Faults): (s: Step<Candidate>)
    ensures !admit ==> s == Step(Forbidden, st)
    ensures admit && fault.Fails(1) ==> s == Step(InternalError, st)
    ensures admit && !fault.Fails(1) && id !in st.candidates ==> s == Step(NotFound, st)
    ensures s.response.Ok? <==> admit && !fault.Fails(1) && id in st.candidates
    ensures !s.response.Ok? ==> s.next == st
    ensures s.response.Ok? ==>
              && s.response.value == Patched(st.candidates[id], patch)
              && s.next.users == st.users
              && s.next.candidates.Keys == st.candidates.Keys
              && s.next.candidates[id] == s.response.value
              && (forall c :: c in st.candidates && c != id ==> s.next.candidates[c] == st.candidates[c])
    ensures TalliesConsistent(st) && patch.votes.None? && patch.voteCount.None? ==> TalliesConsistent(s.next)
  {
    if !admit then Step(Forbidden, st)
    else if fault.Fails(1) then Step(InternalError, st)
    else if id !in st.candidates then Step(NotFound, st)
    else
      var updated := Patched(st.candidates[id], patch);
      Step(Ok(updated), st.(candidates := st.candidates[id := updated]))
  }

  /** The update handler with its admin check awaited, as the create handler does. */
  function Update(st: State, caller: UserId, id: CandidateId, patch: CandidatePatch, fault: Faults): (s: Step<Candidate>)
    ensures fault.Fails(0) || caller !in st.users || st.users[caller].role != "admin" ==> s == Step(Forbidden, st)
  {
    UpdateGated(Access.AwaitedGate(st.users, caller, fault), st, id, patch, fault)
  }

  /** The update handler as written: its gate tests the un-awaited promise. */
  function UpdateAsWritten(st: State, caller: UserId, id: CandidateId, patch: CandidatePatch, fault: Faults): (s: Step<Candidate>)
    ensures s.response != Forbidden
  {
    UpdateGated(Access.UnawaitedGate(st.users, caller, fault), st, id, patch, fault)
  }

  /** The delete handler once its gate has been evaluated to `admit`; on
      success it answers the record it removed. */
  function DeleteGated(admit: bool, st: State, id: CandidateId, fault: Faults): (s: Step<Candidate>)
    ensures !admit ==> s == Step(Forbidden, st)
    ensures admit && fault.Fails(1) ==> s == Step(InternalError, st)
    ensures admit && !fault.Fails(1) && id !in st.candidates ==> s == Step(NotFound, st)
    ensures s.response.Ok? <==> admit && !fault.Fails(1) && id in st.candidates
    ensures !s.response.Ok? ==> s.next == st
    ensures s.response.Ok? ==>
              && s.response.value == st.candidates[id]
              && s.next.users == st.users
              && s.next.candidates.Keys == st.candidates.Keys - {id}
              && (forall c :: c in s.next.candidates ==> s.next.candidates[c] == st.candidates[c])
    ensures TalliesConsistent(st) ==> TalliesConsistent(s.next)
  {
    if !admit then Step(Forbidden, st)
    else if fault.Fails(1) then Step(InternalError, st)
    else if id !in st.candidates then Step(NotFound, st)
    else Step(Ok(st.candidates[id]), st.(candidates := st.candidates - {id}))
  }

  /** The delete handler with its admin check awaited. */
  function Delete(st: State, caller: UserId, id: CandidateId, fault: Faults): (s: Step<Candidate>)
    ensures fault.Fails(0) || caller !in st.users || st.users[caller].role != "admin" ==> s == Step(Forbidden, st)
  {
    DeleteGated(Access.AwaitedGate(st.users, caller, fault), st, id, fault)
  }

  /** The delete handler as written: its gate tests the un-awaited promise. */
  function DeleteAsWritten(st: State, caller: UserId, id: CandidateId, fault: Faults): (s: Step<Candidate>)
    ensures s.response != Forbidden
  {
    DeleteGated(Access.UnawaitedGate(st.users, caller, fault), st, id, fault)
  }

  /** A registered voter (any role but admin) changes the registry through the
      handlers as written, while the awaited gate turns the same requests away. */
  lemma UnawaitedGateAdmitsVoters(st: State, caller: UserId, id: CandidateId, patch: CandidatePatch)
    requires caller in st.users && st.users[caller].role != "admin"
    requires id in st.candidates
    ensures UpdateAsWritten(st, caller, id, patch, Healthy).response.Ok?
    ensures DeleteAsWritten(st, caller, id, Healthy).response.Ok?
    ensures id !in DeleteAsWritten(st, caller, id, Healthy).next.candidates
    ensures Update(st, caller, id, patch, Healthy) == Step(Forbidden, st)
    ensures Delete(st, caller, id, Healthy) == Step(Forbidden, st)
  {
  }

  /** Whatever the faults, a caller who is not an admin leaves the registry
      exactly as it was and is answered Forbidden. */
  lemma NonAdminCannotChangeRegistry(st: State, caller: UserId, id: CandidateId, data: Candidate,
                                     patch: CandidatePatch, fault: Faults)
    requires caller !in st.users || st.users[caller].role != "admin"
    ensures Create(st, caller, id, data, fault) == Step(Forbidden, st)
    ensures Update(st, caller, id, patch, fault) == Step(Forbidden, st)
    ensures Delete(st, caller, id, fault) == Step(Forbidden, st)
  {
  }

  /** Deleting what was just created restores the registry. */
  lemma DeleteUndoesCreate(st: State, caller: UserId, id: CandidateId, data: Candidate)
    requires caller in st.users && st.users[caller].role == "admin"
    requires id !in st.candidates
    ensures Create(st, caller, id, data, Healthy).response == Ok(data)
    ensures Delete(Create(st, caller, id, data, Healthy).next, caller, id, Healthy) == Step(Ok(data), st)
  {
    var created := Create(st, caller, id, data, Healthy).next;
    assert created.candidates - {id} == st.candidates;
  }
}
