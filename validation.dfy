/**
 * The joi schema that the `/register` handler applies to the request body
 * (index.ts, lines 58-71).
 *
 * joi validates the keys in the order the schema declares them and stops at
 * the first failure, so a rejected body is reported by the first field that
 * fails. Strings are sequences of characters; the body's fields are optional
 * because joi's `required()` rejects a missing key (a value that is not a
 * string is treated as missing).
 */
module Validation {
  import opened Wrappers

  // Character classes used by the schema (all ASCII ranges).

  predicate IsLower(c: char) { 'a' <= c <= 'z' }
  predicate IsUpper(c: char) { 'A' <= c <= 'Z' }
  predicate IsDigit(c: char) { '0' <= c <= '9' }
  predicate IsAlphaNum(c: char) { IsLower(c) || IsUpper(c) || IsDigit(c) }
  /** `[ -~]`: printable ASCII, space to tilde. */
  predicate IsPrintable(c: char) { ' ' <= c <= '~' }

  /** The single character each password regex insists on. */
  datatype CharClass = Lower | Upper | Special

  /** `[a-z]`, `[A-Z]`, and `(?=[ -~])[^0-9a-zA-Z]` (a lookahead for printable, then a non-alphanumeric). */
  predicate InClass(k: CharClass, c: char) {
    match k
    case Lower => IsLower(c)
    case Upper => IsUpper(c)
    case Special => IsPrintable(c) && !IsAlphaNum(c)
  }

  /**
   * The pattern `[ -~]*K[ -~]*` matches starting at position `i` of `s`:
   * printable characters, then one character of class `K`. The trailing
   * `[ -~]*` may match the empty string, so it never decides the match.
   */
  predicate MatchesAt(s: string, k: CharClass, i: nat)
    decreases |s| - i
  {
    i < |s| && (InClass(k, s[i]) || (IsPrintable(s[i]) && MatchesAt(s, k, i + 1)))
  }

  /** `RegExp.prototype.test` of the unanchored pattern: some start position from `i` on matches. */
  predicate SearchFrom(s: string, k: CharClass, i: nat)
    decreases |s| - i
  {
    i < |s| && (MatchesAt(s, k, i) || SearchFrom(s, k, i + 1))
  }

  /** Some character of `s` belongs to class `k`. */
  predicate Contains(s: string, k: CharClass) {
    exists j :: 0 <= j < |s| && InClass(k, s[j])
  }

  /** A match that starts at `i` ends on a character of the class at or after `i`. */
  lemma {:induction false} MatchesAtWitness(s: string, k: CharClass, i: nat)
    requires MatchesAt(s, k, i)
    ensures exists j :: i <= j < |s| && InClass(k, s[j])
    decreases |s| - i
  {
    if !InClass(k, s[i]) {
      MatchesAtWitness(s, k, i + 1);
    }
  }

  /** The unanchored search succeeds exactly when a character of the class occurs from `i` on. */
  lemma {:induction false} SearchFromIff(s: string, k: CharClass, i: nat)
    requires i <= |s|
    ensures SearchFrom(s, k, i) <==> exists j :: i <= j < |s| && InClass(k, s[j])
    decreases |s| - i
  {
    if i < |s| {
      SearchFromIff(s, k, i + 1);
      if MatchesAt(s, k, i) {
        MatchesAtWitness(s, k, i);
      }
      if InClass(k, s[i]) {
        assert MatchesAt(s, k, i);
      }
    }
  }

  /** The schema's `regex(...)` rule for class `K` accepts `s` exactly when `s` contains a character of class `K`. */
  lemma RegexMeansContains(s: string, k: CharClass)
    ensures SearchFrom(s, k, 0) <==> Contains(s, k)
  {
    SearchFromIff(s, k, 0);
  }

  /** `joi.string().alphanum().min(3).max(24)` (line 59). */
  predicate UsernameOk(s: string) {
    3 <= |s| <= 24 && forall i :: 0 <= i < |s| ==> IsAlphaNum(s[i])
  }

  /** The password rules as the schema writes them: three unanchored regexes, then `min(5)` and `max(24)` (lines 62-69). */
  predicate PasswordOk(p: string) {
    && SearchFrom(p, Lower, 0)
    && SearchFrom(p, Upper, 0)
    && SearchFrom(p, Special, 0)
    && 5 <= |p| <= 24
  }

  /** The password rule is a length bound and three existentials; nothing else about the characters matters. */
  lemma PasswordRule(p: string)
    ensures PasswordOk(p) <==>
      && 5 <= |p| <= 24
      && (exists i :: 0 <= i < |p| && IsLower(p[i]))
      && (exists i :: 0 <= i < |p| && IsUpper(p[i]))
      && (exists i :: 0 <= i < |p| && IsPrintable(p[i]) && !IsAlphaNum(p[i]))
  {
    RegexMeansContains(p, Lower);
    RegexMeansContains(p, Upper);
    RegexMeansContains(p, Special);
  }

  /**
   * Because the regexes are unanchored, inserting any character at all
   * (including a non-printable one) into an accepted password keeps it
   * accepted as long as the length bound still holds.
   */
  lemma PasswordIgnoresOtherChars(a: string, b: string, c: char)
    requires PasswordOk(a + b)
    requires |a + b| < 24
    ensures PasswordOk(a + [c] + b)
  {
    var p, q := a + b, a + [c] + b;
    forall k: CharClass ensures Contains(p, k) ==> Contains(q, k) {
      if Contains(p, k) {
        var j :| 0 <= j < |p| && InClass(k, p[j]);
        var j' := if j < |a| then j else j + 1;
        assert q[j'] == p[j];
      }
    }
    RegexMeansContains(p, Lower);
    RegexMeansContains(p, Upper);
    RegexMeansContains(p, Special);
    RegexMeansContains(q, Lower);
    RegexMeansContains(q, Upper);
    RegexMeansContains(q, Special);
  }

  /** The values `joi.string().valid('user', 'admin')` admits for `type` (line 61). */
  datatype Role = User | Admin

  /** The literal a role is written as in a request and a response. */
  function RoleName(r: Role): string {
    match r
    case User => "user"
    case Admin => "admin"
  }

  /** Reads the `type` field: only the two literals are accepted, exactly as written. */
  function ParseRole(s: string): (r: Option<Role>)
    ensures r.Some? ==> RoleName(r.value) == s
    ensures r.None? ==> forall role :: RoleName(role) != s
  {
    if s == "user" then Some(User)
    else if s == "admin" then Some(Admin)
    else None
  }

  /** Naming a role and reading the name back gives the role. */
  lemma ParseRoleName(r: Role)
    ensures ParseRole(RoleName(r)) == Some(r)
  {
  }

  /**
   * The keys of the schema, in the order joi checks them, and last the
   * keys the schema does not name (joi refuses unknown keys by default).
   */
  datatype Field = Username | Email | Type | Password | OtherKeys

  function Rank(f: Field): nat {
    match f
    case Username => 0
    case Email => 1
    case Type => 2
    case Password => 3
    case OtherKeys => 4
  }

  /**
   * The request body of `/register` (the `UserDto` with its password).
   * `others` holds the names of the keys it carries besides `username`,
   * `email`, `type` and `password`; it never holds those four.
   */
  datatype Body = Body(username: Option<string>, email: Option<string>, kind: Option<string>, password: Option<string>, others: set<string>)

  /** A body that passed the schema; nothing is trimmed or rewritten. */
  datatype Candidate = Candidate(username: string, email: string, role: Role, password: string)

  /** The message that `.error(...)` puts on every password failure (line 70). */
  const PasswordMessage: string := "Your password must at least have 1 uppercase, 1 lowercase and 1 special character"

  /** Whether one key of the body passes its rule; `validEmail` is joi's `email()` check. */
  predicate FieldOk(body: Body, f: Field, validEmail: string -> bool) {
    match f
    case Username => body.username.Some? && UsernameOk(body.username.value)
    case Email => body.email.Some? && validEmail(body.email.value)
    case Type => body.kind.Some? && ParseRole(body.kind.value).Some?
    case Password => body.password.Some? && PasswordOk(body.password.value)
    case OtherKeys => body.others == {}
  }

  /**
   * `schema.validateAsync(req.body || {})` (line 73): the candidate when every
   * key passes, otherwise the first key (in schema order) that fails.
   */
  function Validate(body: Body, validEmail: string -> bool): (r: Result<Candidate, Field>)
    ensures r.Ok? <==> forall f :: FieldOk(body, f, validEmail)
    ensures r.Err? ==> !FieldOk(body, r.error, validEmail)
    ensures r.Err? ==> forall f :: Rank(f) < Rank(r.error) ==> FieldOk(body, f, validEmail)
    ensures r.Ok? ==>
      && body == Body(Some(r.value.username), Some(r.value.email), Some(RoleName(r.value.role)), Some(r.value.password), {})
      && UsernameOk(r.value.username)
      && validEmail(r.value.email)
      && 5 <= |r.value.password| <= 24
      && Contains(r.value.password, Lower)
      && Contains(r.value.password, Upper)
      && Contains(r.value.password, Special)
  {
    if !FieldOk(body, Username, validEmail) then Err(Username)
    else if !FieldOk(body, Email, validEmail) then Err(Email)
    else if !FieldOk(body, Type, validEmail) then Err(Type)
    else if !FieldOk(body, Password, validEmail) then Err(Password)
    else if !FieldOk(body, OtherKeys, validEmail) then Err(OtherKeys)
    else
      var p := body.password.value;
      RegexMeansContains(p, Lower);
      RegexMeansContains(p, Upper);
      RegexMeansContains(p, Special);
      Ok(Candidate(body.username.value, body.email.value, ParseRole(body.kind.value).value, p))
  }

  /** Examples of the password rule: a missing class rejects, all three classes in five characters accept. */
  lemma PasswordExamples()
    ensures !PasswordOk("abc12")
    ensures PasswordOk("Abc!2")
    ensures PasswordOk("Abc!" + ['\0'])
  {
    RegexMeansContains("abc12", Upper);
    var p := "Abc!2";
    assert InClass(Lower, p[1]) && InClass(Upper, p[0]) && InClass(Special, p[3]);
    RegexMeansContains(p, Lower);
    RegexMeansContains(p, Upper);
    RegexMeansContains(p, Special);
    var q := "Abc!" + ['\0'];
    assert InClass(Lower, q[1]) && InClass(Upper, q[0]) && InClass(Special, q[3]);
    RegexMeansContains(q, Lower);
    RegexMeansContains(q, Upper);
    RegexMeansContains(q, Special);
  }

  /** Examples of the username rule: too short, and a non-alphanumeric character. */
  lemma UsernameExamples()
    ensures !UsernameOk("ab")
    ensures !UsernameOk("ab_3")
    ensures UsernameOk("toString")
  {
    assert !IsAlphaNum("ab_3"[2]);
  }
}
