/**
 * `MEMORY_DB` (index.ts, line 29) and the two request workflows as
 * functions on its contents: the record from username to entry, the two
 * helper lookups (lines 45-54) and what `/register` (lines 72-100) and
 * `/login` (lines 105-123) do to it.
 *
 * bcrypt is not modelled: `hash(password, salt)` is an arbitrary
 * deterministic function supplied by the caller, and `bcrypt.compare`
 * holds exactly when rehashing with the stored salt reproduces the stored
 * hash. The salt `bcrypt.genSalt` would draw is an input of registration.
 */
module Store {
  import opened Wrappers
  import opened Validation

  /** `UserEntry`: what is kept per username; the plaintext password never is. */
  datatype Entry = Entry(email: string, role: Role, salt: string, passwordHash: string)

  /** The `UserDto` returned to the caller: no salt and no hash. */
  datatype View = View(username: string, email: string, role: Role)

  /** Why a request failed. */
  datatype Failure =
    | ValidationError(field: Field)  // the schema rejected the body
    | Conflict                       // "User already exists"
    | UserNotFound                   // "User not found"
    | PasswordMismatch               // "Password do not match"

  /** `MEMORY_DB`, keyed by username. */
  type Db = map<string, Entry>

  /** `bcrypt.hash(password, salt)`. */
  type Hasher = (string, string) -> string

  /** The message each failure is sent with; joi's own messages for the other keys are not modelled. */
  function Message(f: Failure): (m: Option<string>)
    ensures m.None? <==> f.ValidationError? && f.field != Password
  {
    match f
    case ValidationError(Password) => Some(PasswordMessage)
    case ValidationError(_) => None
    case Conflict => Some("User already exists")
    case UserNotFound => Some("User not found")
    case PasswordMismatch => Some("Password do not match")
  }

  /** The status `/register` answers with (lines 97 and 99). */
  function RegisterStatus(r: Result<View, Failure>): nat {
    if r.Ok? then 200 else 400
  }

  /** The status `/login` answers with (lines 120 and 122). */
  function LoginStatus(r: Result<View, Failure>): nat {
    if r.Ok? then 200 else 401
  }

  /** The wire does not tell a rejected body from an existing user, nor an unknown user from a wrong password. */
  lemma FailuresShareStatus(f: Failure)
    ensures RegisterStatus(Err(f)) == RegisterStatus(Err(Conflict)) == 400
    ensures LoginStatus(Err(f)) == LoginStatus(Err(UserNotFound)) == 401
  {
  }

  /** `getUserByUsername`: the entry stored under exactly this key, if any. */
  function GetUserByUsername(db: Db, name: string): (r: Option<Entry>)
    ensures r.Some? <==> name in db
    ensures r.Some? ==> r.value == db[name]
  {
    if name in db then Some(db[name]) else None
  }

  /** Some stored entry has exactly this email. */
  predicate EmailTaken(db: Db, email: string) {
    exists u :: u in db && db[u].email == email
  }

  /** `getUserByEmail`: an entry whose email is exactly `email`, or nothing when no entry has it. */
  ghost function GetUserByEmail(db: Db, email: string): (r: Option<Entry>)
    ensures r.Some? ==> r.value.email == email && exists u :: u in db && db[u] == r.value
    ensures r.None? <==> !EmailTaken(db, email)
  {
    if EmailTaken(db, email) then
      var u :| u in db && db[u].email == email;
      Some(db[u])
    else None
  }

  /** No two usernames share an email (usernames are unique as keys). */
  ghost predicate Unique(db: Db) {
    forall u, v :: u in db && v in db && u != v ==> db[u].email != db[v].email
  }

  /** With unique emails the email lookup is determined: it is the one entry with that email. */
  lemma EmailLookupUnique(db: Db, u: string)
    requires Unique(db)
    requires u in db
    ensures GetUserByEmail(db, db[u].email) == Some(db[u])
  {
  }

  /** `validatePassword`: `bcrypt.compare` against the stored hash. */
  predicate PasswordMatches(e: Entry, password: string, hash: Hasher) {
    hash(password, e.salt) == e.passwordHash
  }

  /** The entry a successful registration stores. */
  function NewEntry(c: Candidate, salt: string, hash: Hasher): Entry {
    Entry(c.email, c.role, salt, hash(c.password, salt))
  }

  /**
   * The `/register` handler: the response and the store afterwards.
   * The body is validated first; then a username that is a key, or an email
   * that some entry has, is a conflict; otherwise the entry is stored under
   * the username.
   */
  function RegisterStep(db: Db, body: Body, validEmail: string -> bool, hash: Hasher, salt: string): (Result<View, Failure>, Db) {
    match Validate(body, validEmail)
    case Err(f) => (Err(ValidationError(f)), db)
    case Ok(c) =>
      if EmailTaken(db, c.email) || GetUserByUsername(db, c.username).Some? then
        (Err(Conflict), db)
      else
        (Ok(View(c.username, c.email, c.role)), db[c.username := NewEntry(c, salt, hash)])
  }

  /** The `/login` handler: look the user up, compare the password, answer with the stored email and role. */
  function LoginStep(db: Db, username: string, password: string, hash: Hasher): Result<View, Failure> {
    match GetUserByUsername(db, username)
    case None => Err(UserNotFound)
    case Some(e) =>
      if PasswordMatches(e, password, hash) then Ok(View(username, e.email, e.role))
      else Err(PasswordMismatch)
  }

  /** A rejected body is reported before the store is consulted, and the store is untouched. */
  lemma RegisterValidatesFirst(db: Db, body: Body, validEmail: string -> bool, hash: Hasher, salt: string)
    requires Validate(body, validEmail).Err?
    ensures RegisterStep(db, body, validEmail, hash, salt) == (Err(ValidationError(Validate(body, validEmail).error)), db)
  {
  }

  /** A valid body conflicts exactly when its username is a key or its email is some entry's email. */
  lemma RegisterConflictIff(db: Db, body: Body, validEmail: string -> bool, hash: Hasher, salt: string)
    requires Validate(body, validEmail).Ok?
    ensures var c := Validate(body, validEmail).value;
      RegisterStep(db, body, validEmail, hash, salt).0 == Err(Conflict) <==> c.username in db || EmailTaken(db, c.email)
  {
  }

  /** Every failed registration leaves the store exactly as it was. */
  lemma RegisterFailureUnchanged(db: Db, body: Body, validEmail: string -> bool, hash: Hasher, salt: string)
    requires RegisterStep(db, body, validEmail, hash, salt).0.Err?
    ensures RegisterStep(db, body, validEmail, hash, salt).1 == db
  {
  }

  /**
   * A successful registration adds exactly one entry, under the new username,
   * with the validated email and role, the salt and the salted hash; every
   * other key keeps its entry. The view echoes the candidate.
   */
  lemma RegisterSuccess(db: Db, body: Body, validEmail: string -> bool, hash: Hasher, salt: string)
    requires RegisterStep(db, body, validEmail, hash, salt).0.Ok?
    ensures var (r, db') := RegisterStep(db, body, validEmail, hash, salt);
      && Validate(body, validEmail).Ok?
      && var c := Validate(body, validEmail).value;
      && r.value == View(c.username, c.email, c.role)
      && c.username !in db && !EmailTaken(db, c.email)
      && db'.Keys == db.Keys + {c.username}
      && |db'| == |db| + 1
      && db'[c.username] == Entry(c.email, c.role, salt, hash(c.password, salt))
      && forall u :: u in db ==> db'[u] == db[u]
  {
  }

  /** Registration keeps usernames and emails unique. */
  lemma RegisterKeepsUnique(db: Db, body: Body, validEmail: string -> bool, hash: Hasher, salt: string)
    requires Unique(db)
    ensures Unique(RegisterStep(db, body, validEmail, hash, salt).1)
  {
  }

  /** Logging in with the username and password just registered succeeds with the registered view. */
  lemma RegisterThenLogin(db: Db, body: Body, validEmail: string -> bool, hash: Hasher, salt: string)
    requires RegisterStep(db, body, validEmail, hash, salt).0.Ok?
    ensures var (r, db') := RegisterStep(db, body, validEmail, hash, salt);
      LoginStep(db', body.username.value, body.password.value, hash) == r
  {
  }

  /** After registering, a password that hashes differently under the stored salt is refused. */
  lemma RegisterThenWrongPassword(db: Db, body: Body, validEmail: string -> bool, hash: Hasher, salt: string, other: string)
    requires RegisterStep(db, body, validEmail, hash, salt).0.Ok?
    requires hash(other, salt) != hash(body.password.value, salt)
    ensures var db' := RegisterStep(db, body, validEmail, hash, salt).1;
      LoginStep(db', body.username.value, other, hash) == Err(PasswordMismatch)
  {
  }

  /** Registering one user changes no other user's login outcome. */
  lemma RegisterLeavesOtherLogins(db: Db, body: Body, validEmail: string -> bool, hash: Hasher, salt: string, name: string, password: string)
    requires body.username.Some? ==> name != body.username.value
    ensures LoginStep(RegisterStep(db, body, validEmail, hash, salt).1, name, password, hash) == LoginStep(db, name, password, hash)
  {
  }

  /** A second registration under a taken username fails and the first account stays. */
  lemma SameUsernameConflicts(db: Db, first: Body, second: Body, validEmail: string -> bool, hash: Hasher, salt1: string, salt2: string)
    requires RegisterStep(db, first, validEmail, hash, salt1).0.Ok?
    requires Validate(second, validEmail).Ok?
    requires second.username == first.username
    ensures var db1 := RegisterStep(db, first, validEmail, hash, salt1).1;
      && RegisterStep(db1, second, validEmail, hash, salt2) == (Err(Conflict), db1)
      && db1[first.username.value].email == first.email.value
  {
  }

  /** A second registration under a taken email fails even with a new username. */
  lemma SameEmailConflicts(db: Db, first: Body, second: Body, validEmail: string -> bool, hash: Hasher, salt1: string, salt2: string)
    requires RegisterStep(db, first, validEmail, hash, salt1).0.Ok?
    requires Validate(second, validEmail).Ok?
    requires second.email == first.email
    ensures var db1 := RegisterStep(db, first, validEmail, hash, salt1).1;
      RegisterStep(db1, second, validEmail, hash, salt2) == (Err(Conflict), db1)
  {
    var db1 := RegisterStep(db, first, validEmail, hash, salt1).1;
    var u := first.username.value;
    assert u in db1 && db1[u].email == second.email.value;
  }

  /**
   * The three ways a login ends: an unknown username, a password whose hash
   * does not match, or the stored email and role under the requested name.
   */
  lemma LoginOutcomes(db: Db, name: string, password: string, hash: Hasher)
    ensures LoginStep(db, name, password, hash) == Err(UserNotFound) <==> name !in db
    ensures LoginStep(db, name, password, hash) == Err(PasswordMismatch) <==>
      name in db && hash(password, db[name].salt) != db[name].passwordHash
    ensures LoginStep(db, name, password, hash).Ok? ==>
      LoginStep(db, name, password, hash).value == View(name, db[name].email, db[name].role)
  {
  }

  /** A sequence of registrations, each with its own salt, applied in order. */
  function RegisterAll(db: Db, requests: seq<(Body, string)>, validEmail: string -> bool, hash: Hasher): Db
    decreases |requests|
  {
    if requests == [] then db
    else RegisterAll(RegisterStep(db, requests[0].0, validEmail, hash, requests[0].1).1, requests[1..], validEmail, hash)
  }

  /** Any run of registrations keeps every username and every email unique. */
  lemma {:induction false} RegisterAllKeepsUnique(db: Db, requests: seq<(Body, string)>, validEmail: string -> bool, hash: Hasher)
    requires Unique(db)
    ensures Unique(RegisterAll(db, requests, validEmail, hash))
    decreases |requests|
  {
    if requests != [] {
      var db1 := RegisterStep(db, requests[0].0, validEmail, hash, requests[0].1).1;
      RegisterKeepsUnique(db, requests[0].0, validEmail, hash, requests[0].1);
      RegisterAllKeepsUnique(db1, requests[1..], validEmail, hash);
    }
  }

  /** Once stored, an entry is never changed or removed by later registrations. */
  lemma {:induction false} RegisterAllKeepsEntries(db: Db, requests: seq<(Body, string)>, validEmail: string -> bool, hash: Hasher)
    ensures var db' := RegisterAll(db, requests, validEmail, hash);
      forall u :: u in db ==> u in db' && db'[u] == db[u]
    decreases |requests|
  {
    if requests != [] {
      var db1 := RegisterStep(db, requests[0].0, validEmail, hash, requests[0].1).1;
      RegisterAllKeepsEntries(db1, requests[1..], validEmail, hash);
    }
  }

  /** Every store the process can reach from the empty one has unique usernames and emails. */
  lemma ReachableStoresUnique(requests: seq<(Body, string)>, validEmail: string -> bool, hash: Hasher)
    ensures Unique(RegisterAll(map[], requests, validEmail, hash))
  {
    RegisterAllKeepsUnique(map[], requests, validEmail, hash);
  }
}
