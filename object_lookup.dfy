/**
 * How `MEMORY_DB[name] || undefined` (index.ts, line 46) behaves on a
 * JavaScript object literal: a name that is not an own key still finds the
 * members every object inherits from `Object.prototype`, and those members
 * are truthy (functions, and `Object.prototype` itself under `__proto__`). Several of their names are alphanumeric and 3 to 24
 * characters long, so they pass the username rule.
 *
 * This module models the lookup and both handlers as written, next to the
 * intended behaviour that `Store` models (own keys only).
 */
module ObjectLookup {
  import opened Wrappers
  import opened Validation
  import opened Store

  /** The properties of `Object.prototype`. */
  const InheritedNames: set<string> := {
    "constructor", "hasOwnProperty", "isPrototypeOf", "propertyIsEnumerable",
    "toLocaleString", "toString", "valueOf", "__proto__",
    "__defineGetter__", "__defineSetter__", "__lookupGetter__", "__lookupSetter__"
  }

  /** What reading `MEMORY_DB[name]` yields. */
  datatype Property = Own(entry: Entry) | Inherited | Undefined

  function PropertyOf(db: Db, name: string): (p: Property)
    ensures p.Own? <==> name in db
    ensures p.Undefined? <==> name !in db && name !in InheritedNames
  {
    if name in db then Own(db[name])
    else if name in InheritedNames then Inherited
    else Undefined
  }

  /** `getUserByUsername` as written: any truthy property counts as a user. */
  predicate UsernameTakenAsWritten(db: Db, name: string) {
    !PropertyOf(db, name).Undefined?
  }

  /** The `/register` handler as written, with the inherited-property lookup. */
  function RegisterAsWritten(db: Db, body: Body, validEmail: string -> bool, hash: Hasher, salt: string): (Result<View, Failure>, Db) {
    match Validate(body, validEmail)
    case Err(f) => (Err(ValidationError(f)), db)
    case Ok(c) =>
      if EmailTaken(db, c.email) || UsernameTakenAsWritten(db, c.username) then
        (Err(Conflict), db)
      else
        (Ok(View(c.username, c.email, c.role)), db[c.username := NewEntry(c, salt, hash)])
  }

  /**
   * The `/login` handler as written, answering with the message it sends.
   * An inherited member has no `passwordhash`, so `bcrypt.compare` rejects
   * its arguments and that error's message is sent instead of "User not found".
   */
  function LoginAsWritten(db: Db, username: string, password: string, hash: Hasher): Result<View, string> {
    match PropertyOf(db, username)
    case Undefined => Err("User not found")
    case Inherited => Err("Illegal arguments: string, undefined")
    case Own(e) =>
      if PasswordMatches(e, password, hash) then Ok(View(username, e.email, e.role))
      else Err("Password do not match")
  }

  /** Inherited names that also pass the username rule. */
  lemma InheritedUsernames()
    ensures "toString" in InheritedNames && UsernameOk("toString")
    ensures "valueOf" in InheritedNames && UsernameOk("valueOf")
    ensures "constructor" in InheritedNames && UsernameOk("constructor")
  {
  }

  /**
   * As written, a valid registration under an inherited name is refused as
   * "User already exists" even on an empty store; the intended handler
   * accepts it.
   */
  lemma RegisterAsWrittenRefusesInheritedName(body: Body, validEmail: string -> bool, hash: Hasher, salt: string)
    requires Validate(body, validEmail).Ok?
    requires body.username.value in InheritedNames
    ensures RegisterAsWritten(map[], body, validEmail, hash, salt) == (Err(Conflict), map[])
    ensures RegisterStep(map[], body, validEmail, hash, salt).0.Ok?
  {
  }

  /** A concrete request that shows the discrepancy: username "toString" on an empty store. */
  lemma ToStringCannotRegister(validEmail: string -> bool, hash: Hasher, salt: string)
    requires validEmail("a@b.io")
    ensures var body := Body(Some("toString"), Some("a@b.io"), Some("user"), Some("Abc!2"), {});
      && RegisterAsWritten(map[], body, validEmail, hash, salt).0 == Err(Conflict)
      && RegisterStep(map[], body, validEmail, hash, salt).0 == Ok(View("toString", "a@b.io", User))
  {
    var body := Body(Some("toString"), Some("a@b.io"), Some("user"), Some("Abc!2"), {});
    PasswordExamples();
    InheritedUsernames();
    assert Validate(body, validEmail).Ok?;
  }

  /** As written, logging in under an inherited name sends bcrypt's error instead of "User not found"; the status stays 401. */
  lemma LoginAsWrittenInheritedName(db: Db, name: string, password: string, hash: Hasher)
    requires name in InheritedNames && name !in db
    ensures LoginAsWritten(db, name, password, hash) == Err("Illegal arguments: string, undefined")
    ensures LoginStep(db, name, password, hash) == Err(UserNotFound)
    ensures Message(LoginStep(db, name, password, hash).error) == Some("User not found")
  {
  }

  /** Away from the inherited names the handlers as written agree with the intended ones. */
  lemma AsWrittenAgreesOffInheritedNames(db: Db, body: Body, validEmail: string -> bool, hash: Hasher, salt: string)
    requires body.username.Some? ==> body.username.value !in InheritedNames
    ensures RegisterAsWritten(db, body, validEmail, hash, salt) == RegisterStep(db, body, validEmail, hash, salt)
  {
  }

  /** Away from the inherited names, login as written gives the intended outcome and sends the intended message. */
  lemma LoginAsWrittenAgreesOffInheritedNames(db: Db, name: string, password: string, hash: Hasher)
    requires name !in InheritedNames
    ensures LoginAsWritten(db, name, password, hash).Ok? <==> LoginStep(db, name, password, hash).Ok?
    ensures LoginAsWritten(db, name, password, hash).Ok? ==>
      LoginAsWritten(db, name, password, hash).value == LoginStep(db, name, password, hash).value
    ensures LoginAsWritten(db, name, password, hash).Err? ==>
      Some(LoginAsWritten(db, name, password, hash).error) == Message(LoginStep(db, name, password, hash).error)
  {
  }
}
