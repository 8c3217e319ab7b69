/** The admin-role check that guards the candidate registry, in its awaited
    form and in the un-awaited form two of the handlers actually use. */
module Access {
  import opened Records

  /** What a `findById` call yields: the document, null when no document has
      that id, or an exception raised by the database layer. */
  datatype Lookup<T> = Found(value: T) | Null | Threw

  /** The value an async JavaScript function resolves to, as far as a
      condition can tell: `true`, `false`, or `undefined` when the function
      falls off its end without returning. */
  datatype JsBool = JsTrue | JsFalse | JsUndefined
  {
    predicate Truthy() {
      JsTrue?
    }
  }

  /** The user lookup issued as database call `call` of a request. */
  function FindUser(users: map<UserId, User>, id: UserId, fault: Faults, call: nat): (r: Lookup<User>)
    ensures r.Found? <==> !fault.Fails(call) && id in users
    ensures r.Found? ==> r.value == users[id]
    ensures r.Threw? <==> fault.Fails(call)
  {
    if fault.Fails(call) then Threw
    else if id in users then Found(users[id])
    else Null
  }

  /** `checkAdminRole` once its lookup has completed. Only an existing user
      whose role is "admin" gets a truthy answer. A failed lookup and a
      missing user both answer false: reading `role` of null raises, and the
      handler's catch answers false, so the check fails closed. A user with
      another role gets `undefined`, which is falsy. */
  function AdminRoleOf(lookup: Lookup<User>): (r: JsBool)
    ensures r.Truthy() <==> lookup.Found? && lookup.value.role == "admin"
    ensures !lookup.Found? ==> r == JsFalse
    ensures lookup.Found? && lookup.value.role != "admin" ==> r == JsUndefined
  {
    match lookup
    case Threw => JsFalse
    case Null => JsFalse
    case Found(user) => if user.role == "admin" then JsTrue else JsUndefined
  }

  /** The awaited gate of the create handler: the request goes on exactly when
      the caller's lookup (database call 0) succeeds and finds an admin. */
  function AwaitedGate(users: map<UserId, User>, caller: UserId, fault: Faults): (admit: bool)
    ensures admit <==> !fault.Fails(0) && caller in users && users[caller].role == "admin"
  {
    AdminRoleOf(FindUser(users, caller, fault, 0)).Truthy()
  }

  /** A promise that has not been awaited; the answer it will settle to is
      invisible to a condition that tests the promise itself. */
  datatype Promise<T> = Pending(settlesTo: T)

  /** Every JavaScript object, a promise included, is truthy. */
  predicate PromiseTruthy<T>(p: Promise<T>) {
    true
  }

  /** The gate of the update and delete handlers as written: the condition
      negates the promise returned by `checkAdminRole` instead of its settled
      answer, so it admits every caller, admin or not. */
  function UnawaitedGate(users: map<UserId, User>, caller: UserId, fault: Faults): (admit: bool)
    ensures admit
  {
    PromiseTruthy(Pending(AdminRoleOf(FindUser(users, caller, fault, 0))))
  }
}
