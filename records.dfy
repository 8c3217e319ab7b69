/** The records kept by the voting backend's two stores, users and candidates,
    and the result type shared by every request handler. */
module Records {

  /** Document identities issued by the database. */
  type UserId = string
  type CandidateId = string

  datatype Option<T> = None | Some(value: T)

  /** A user as the candidate routes see it. The profile fields the routes
      never read (age, email, mobile, address, password) are not kept. */
  datatype User = User(name: string, role: string, isVoted: bool)

  /** One ballot: a reference from a candidate to the user who cast it. */
  datatype VoteEntry = VoteEntry(user: UserId)

  datatype Candidate = Candidate(name: string, party: string, age: int,
                                 votes: seq<VoteEntry>, voteCount: int)
  {
    /** The tally agrees with the ballots recorded for this candidate. */
    predicate Consistent() {
      voteCount == |votes|
    }
  }

  /** The body of an update request: each present field replaces the stored
      one, each absent field is kept. */
  datatype CandidatePatch = CandidatePatch(name: Option<string>, party: Option<string>,
                                           age: Option<int>, votes: Option<seq<VoteEntry>>,
                                           voteCount: Option<int>)

  function Pick<T>(field: Option<T>, stored: T): T {
    if field.Some? then field.value else stored
  }

  /** The record an update stores: each field the patch carries replaces the
      stored one and each field it leaves out is kept. A patch that leaves the
      ballots and the tally alone therefore keeps a consistent record
      consistent. */
  function Patched(c: Candidate, p: CandidatePatch): (r: Candidate)
    ensures p.name.Some? ==> r.name == p.name.value
    ensures p.name.None? ==> r.name == c.name
    ensures p.party.Some? ==> r.party == p.party.value
    ensures p.party.None? ==> r.party == c.party
    ensures p.age.Some? ==> r.age == p.age.value
    ensures p.age.None? ==> r.age == c.age
    ensures p.votes.Some? ==> r.votes == p.votes.value
    ensures p.votes.None? ==> r.votes == c.votes
    ensures p.voteCount.Some? ==> r.voteCount == p.voteCount.value
    ensures p.voteCount.None? ==> r.voteCount == c.voteCount
    ensures p.votes.None? && p.voteCount.None? && c.Consistent() ==> r.Consistent()
    ensures p == CandidatePatch(None, None, None, None, None) ==> r == c
  {
    Candidate(Pick(p.name, c.name), Pick(p.party, c.party), Pick(p.age, c.age),
              Pick(p.votes, c.votes), Pick(p.voteCount, c.voteCount))
  }

  /** What a handler answers: a value with status 200, or one of the error
      statuses 404, 403, 400 and 500. */
  datatype Outcome<T> = Ok(value: T) | NotFound | Forbidden | AlreadyVoted | InternalError
  {
    function Status(): (code: int)
      ensures code == 200 <==> Ok?
      ensures 400 <= code < 600 <==> !Ok?
      ensures NotFound? ==> code == 404
      ensures Forbidden? ==> code == 403
      ensures AlreadyVoted? ==> code == 400
      ensures InternalError? ==> code == 500
    {
      match this
      case Ok(_) => 200
      case NotFound => 404
      case Forbidden => 403
      case AlreadyVoted => 400
      case InternalError => 500
    }
  }

  /** Which database call of a request raises, if any; calls are numbered
      from 0 in the order the handler issues them. */
  datatype Faults = Healthy | FailsAt(call: nat)
  {
    predicate Fails(k: nat) {
      FailsAt? && call == k
    }
  }

  /** The contents of both stores. */
  datatype State = State(users: map<UserId, User>, candidates: map<CandidateId, Candidate>)

  /** A handler's answer together with the stores it leaves behind. */
  datatype Step<T> = Step(response: Outcome<T>, next: State)

  /** Every stored candidate's tally agrees with its ballots. */
  ghost predicate TalliesConsistent(st: State) {
    forall id :: id in st.candidates ==> st.candidates[id].Consistent()
  }
}
