/**
 * The process-wide `MEMORY_DB` record and the handlers that read and
 * update it in place (index.ts, lines 29, 45-54, 72-100, 105-123). Each
 * handler runs as one atomic step; the `await` points inside them are not
 * modelled as places where another request may run.
 */
module Authority {
  import opened Wrappers
  import opened Validation
  import opened Store

  class CredentialAuthority {
    /** `MEMORY_DB`: username to entry. */
    var users: Db
    /** `bcrypt.hash`, fixed for the life of the process. */
    const hash: Hasher
    /** joi's `email()` syntax check. */
    const validEmail: string -> bool

    /** The store keeps emails unique across entries. */
    ghost predicate Valid()
      reads this
    {
      Unique(users)
    }

    /** An empty store, as the process starts. */
    constructor (hash: Hasher, validEmail: string -> bool)
      ensures Valid()
      ensures users == map[]
      ensures this.hash == hash && this.validEmail == validEmail
    {
      users := map[];
      this.hash := hash;
      this.validEmail := validEmail;
    }

    /** `getUserByEmail`: scans the entries for one whose email is exactly `email`. */
    method FindByEmail(email: string) returns (r: Option<Entry>)
      ensures r.Some? ==> r.value.email == email && exists u :: u in users && users[u] == r.value
      ensures r.None? <==> !EmailTaken(users, email)
      ensures Valid() ==> r == GetUserByEmail(users, email)
    {
      var pending := users.Keys;
      while pending != {}
        invariant pending <= users.Keys
        invariant forall u :: u in users && u !in pending ==> users[u].email != email
        decreases pending
      {
        var u :| u in pending;
        if users[u].email == email {
          r := Some(users[u]);
          if Valid() {
            EmailLookupUnique(users, u);
          }
          return;
        }
        pending := pending - {u};
      }
      r := None;
    }

    /**
     * The `/register` handler: validate, refuse a username or email already
     * present, hash the password with `salt`, store the entry, answer with
     * the public view.
     */
    method Register(body: Body, salt: string) returns (r: Result<View, Failure>)
      requires Valid()
      modifies this
      ensures Valid()
      ensures (r, users) == RegisterStep(old(users), body, validEmail, hash, salt)
    {
      RegisterKeepsUnique(users, body, validEmail, hash, salt);
      var validated := Validate(body, validEmail);
      if validated.Err? {
        return Err(ValidationError(validated.error));
      }
      var candidate := validated.value;
      var matchedInEmail := FindByEmail(candidate.email);
      var matchedInUsername := GetUserByUsername(users, candidate.username);
      if matchedInEmail.Some? || matchedInUsername.Some? {
        return Err(Conflict);
      }
      var passwordHash := hash(candidate.password, salt);
      users := users[candidate.username := Entry(candidate.email, candidate.role, salt, passwordHash)];
      r := Ok(View(candidate.username, candidate.email, candidate.role));
    }

    /** The `/login` handler: reads the store and never changes it. */
    method Login(username: string, password: string) returns (r: Result<View, Failure>)
      ensures r == LoginStep(users, username, password, hash)
    {
      var matchedUser := GetUserByUsername(users, username);
      if matchedUser.None? {
        return Err(UserNotFound);
      }
      var isValid := PasswordMatches(matchedUser.value, password, hash);
      if !isValid {
        return Err(PasswordMismatch);
      }
      r := Ok(View(username, matchedUser.value.email, matchedUser.value.role));
    }
  }

  /** Register then log in with the same credentials on one store object: the login answers with what was registered. */
  method RegisterThenLoginOnStore(store: CredentialAuthority, body: Body, salt: string) returns (registered: Result<View, Failure>, loggedIn: Result<View, Failure>)
    requires store.Valid()
    requires body.username.Some? && body.password.Some?
    modifies store
    ensures store.Valid()
    ensures registered.Ok? ==> loggedIn == registered
    ensures registered.Err? ==> store.users == old(store.users)
  {
    ghost var before := store.users;
    registered := store.Register(body, salt);
    if registered.Ok? {
      RegisterThenLogin(before, body, store.validEmail, store.hash, salt);
    } else {
      RegisterFailureUnchanged(before, body, store.validEmail, store.hash, salt);
    }
    loggedIn := store.Login(body.username.value, body.password.value);
  }
}
