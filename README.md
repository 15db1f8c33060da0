# Credential authority model

A Dafny model of the in-memory credential authority in `index.ts`. It has three parts:

- the joi schema that `/register` applies to its body: the username, email, type and password rules;
- `MEMORY_DB`, the record from username to entry, and its two lookups (by username, and by scanning for an email);
- the `/register` and `/login` workflows as operations on that record.

Modules:

- `Wrappers` (`wrappers.dfy`): `Option` and `Result`.
- `Validation` (`validation.dfy`): character classes and the three password regexes, written as unanchored searches the way `RegExp.prototype.test` runs them. Also the username and type rules, and `Validate`, which reports the first key that fails in schema order.
- `Store` (`store.dfy`): the entry, the public view, the error kinds and the lookups. `RegisterStep` and `LoginStep` are the specification functions for the two handlers. The lemmas cover uniqueness, failure without change, what a success adds, and the login round trip.
- `Authority` (`authority.dfy`): `CredentialAuthority`, a class whose `users` field is `MEMORY_DB`. `Register` updates it in place and `Login` only reads it. `FindByEmail` is the scan behind `getUserByEmail`. `Register` and `Login` are proved equal to the `Store` specification functions. `FindByEmail` is proved to return an entry with exactly that email, or nothing exactly when none has it; it equals `GetUserByEmail` when emails are unique (`Valid()`).
- `ObjectLookup` (`object_lookup.dfy`): the username lookup as written, including names inherited from `Object.prototype` (see Findings).

How external pieces are modelled:

- bcrypt is an arbitrary deterministic `hash(password, salt)`, held as a constant of the store. `bcrypt.compare` holds exactly when rehashing with the stored salt reproduces the stored hash; a bcrypt hash string carries its salt, so this is the same comparison.
- The salt `bcrypt.genSalt` would draw is a parameter of `Register`.
- joi's `email()` check is a constant predicate `validEmail` of the store.

The model follows the code where it departs from what its own comments (lines 31-38) or a careful design would ask:

- A duplicate user is answered with status 400, the same status as a rejected body. The comment at line 35 asks for a conflict error. The datatype keeps `Conflict` apart from `ValidationError`, but `FailuresShareStatus` states that the status does not tell them apart.
- Usernames and emails are compared exactly. Nothing is trimmed or case-folded.
- The check-then-insert in `/register` is not atomic in the code: it has awaits between the lookup and the insert. The model treats each handler as one atomic step.
- Login answers with the requested username, plus the stored email and type.

## Model

| member | source | states |
|---|---|---|
| `Validation.UsernameOk` | index.ts:59 | a username is accepted exactly when it is 3 to 24 characters long and every character is an ASCII letter or digit |
| `Validation.PasswordOk` | index.ts:62-69 | the password rule as the schema writes it: each of the three unanchored regexes finds a match, and the length is 5 to 24 |
| `Validation.SearchFromIff` | index.ts:64-66 | an unanchored `[ -~]*K[ -~]*` search from position i succeeds exactly when some character of class K occurs at or after i |
| `Validation.RegexMeansContains` | index.ts:64-66 | each password regex accepts a string exactly when the string contains a character of its class |
| `Validation.PasswordRule` | index.ts:62-69 | a password passes exactly when its length is 5 to 24 and it has some a-z, some A-Z and some printable non-alphanumeric character; no rule is placed on the other characters |
| `Validation.PasswordIgnoresOtherChars` | index.ts:64-66 | inserting any character, printable or not, into an accepted password keeps it accepted while the length stays within 24 |
| `Validation.PasswordExamples` | index.ts:62-70 | "abc12" is refused; "Abc!2" and "Abc!" followed by a NUL character are accepted |
| `Validation.UsernameExamples` | index.ts:59 | "ab" (too short) and "ab_3" (underscore) are refused; "toString" is accepted |
| `Validation.ParseRole` | index.ts:61 | the type is accepted only when it is literally "user" or "admin", and the accepted role names back to the same literal |
| `Validation.ParseRoleName` | index.ts:61 | reading a role's literal gives back the role |
| `Validation.Validate` | index.ts:58-73 | a body is accepted exactly when every key passes, and the candidate carries the fields unchanged; a refusal names the first key in schema order that fails (username, email, type, password, then unknown keys), and all earlier keys pass |
| `Store.Message` | index.ts:70 | a password failure is sent with the fixed password message; conflict, unknown user and mismatch have their own texts; only joi's messages for the other keys are not modelled |
| `Store.FailuresShareStatus` | index.ts:97-99 | every registration failure is answered 400, validation and conflict alike, and every login failure is answered 401 |
| `Store.RegisterStatus` | index.ts:97-99 | `/register` answers 200 with the view on success and 400 on any failure |
| `Store.LoginStatus` | index.ts:120-122 | `/login` answers 200 with the view on success and 401 on any failure |
| `Store.PasswordMatches` | index.ts:40-43 | `bcrypt.compare` holds exactly when rehashing the password with the entry's salt gives the stored hash |
| `Store.RegisterStep` | index.ts:72-100 | the `/register` handler as a function of the store: a refused body is a validation error, a taken username or email is a conflict, both with the store unchanged; otherwise the entry with the salted hash is stored under the username and the view is returned |
| `Store.LoginStep` | index.ts:105-123 | the `/login` handler as a function of the store: an unknown username is "not found", a password that does not match is a mismatch, otherwise the requested name with the stored email and type |
| `Store.GetUserByUsername` | index.ts:45-47 | the lookup finds something exactly when the name is a key, and then it is the entry stored under that key |
| `Store.GetUserByEmail` | index.ts:49-54 | a found entry is a stored entry whose email equals the query exactly; nothing is found exactly when no entry has that email |
| `Store.EmailLookupUnique` | index.ts:49-54 | with unique emails, looking up a stored entry's email gives that entry, so the scan order does not matter |
| `Store.RegisterValidatesFirst` | index.ts:72-73 | a refused body is reported as that validation error before the store is read, and the store is unchanged |
| `Store.RegisterConflictIff` | index.ts:74-79 | a valid registration conflicts exactly when its username is already a key or its email already belongs to an entry |
| `Store.RegisterFailureUnchanged` | index.ts:98-99 | every failed registration leaves the store exactly as it was |
| `Store.RegisterSuccess` | index.ts:81-97 | a success adds one entry under the new username, with the validated email and role, the salt and the salted hash; all other keys keep their entries; the view holds only username, email and role |
| `Store.RegisterKeepsUnique` | index.ts:74-90 | registration never creates two entries with the same email |
| `Store.RegisterThenLogin` | index.ts:104-120 | after a successful registration, login with the same username and password answers with the registered view |
| `Store.RegisterThenWrongPassword` | index.ts:110-113 | after registering, a password that hashes differently under the stored salt is refused as a mismatch |
| `Store.RegisterLeavesOtherLogins` | index.ts:85-90 | registering one user changes no other username's login outcome |
| `Store.SameUsernameConflicts` | index.ts:75-79 | a second valid registration under a registered username is a conflict, and the first account remains |
| `Store.SameEmailConflicts` | index.ts:74-79 | a second valid registration with a registered email is a conflict even under a new username |
| `Store.LoginOutcomes` | index.ts:106-120 | login fails as "not found" exactly when the username is not a key, and as a mismatch exactly when the stored hash differs from the hash of the password under the stored salt; a success echoes the stored email and type |
| `Store.RegisterAllKeepsUnique` | index.ts:74-90 | any sequence of registrations keeps emails unique |
| `Store.RegisterAllKeepsEntries` | index.ts:85-90 | once stored, an entry is never changed or removed by later registrations |
| `Store.ReachableStoresUnique` | index.ts:29 | every store reachable from the empty `MEMORY_DB` holds no two entries with the same email |
| `Authority.CredentialAuthority.constructor` | index.ts:29 | the store starts empty |
| `Authority.CredentialAuthority.FindByEmail` | index.ts:49-54 | the scan returns a stored entry with exactly that email, or nothing exactly when no entry has it; with unique emails it returns that entry |
| `Authority.CredentialAuthority.Register` | index.ts:72-100 | the in-place handler gives the response and the new store that `RegisterStep` specifies, and keeps emails unique |
| `Authority.CredentialAuthority.Login` | index.ts:105-123 | the handler answers as `LoginStep` specifies and does not modify the store |
| `Authority.RegisterThenLoginOnStore` | index.ts:33-36 | on one store object, registering and then logging in with the same credentials returns the registered view; a failed registration leaves the store unchanged |
| `ObjectLookup.PropertyOf` | index.ts:46 | reading `MEMORY_DB[name]` finds an own entry exactly for keys, and is undefined exactly when the name is neither a key nor an `Object.prototype` member |
| `ObjectLookup.RegisterAsWritten` | index.ts:72-100 | the `/register` handler with the username lookup as written: any truthy property of `MEMORY_DB`, inherited ones included, makes the username taken |
| `ObjectLookup.LoginAsWritten` | index.ts:105-123 | the `/login` handler as written, answering with the message it sends: "User not found" for an undefined property, bcrypt's argument error for an inherited member, otherwise the own entry's password check |
| `ObjectLookup.InheritedUsernames` | index.ts:46 | "toString", "valueOf" and "constructor" are inherited members that pass the username rule |
| `ObjectLookup.RegisterAsWrittenRefusesInheritedName` | index.ts:75-79 | as written, a valid registration under an inherited name is refused as a conflict on an empty store, while the intended handler accepts it |
| `ObjectLookup.ToStringCannotRegister` | index.ts:75-79 | as written, username "toString" with a valid email and password "Abc!2" is refused as a conflict on an empty store; the intended handler stores it |
| `ObjectLookup.LoginAsWrittenInheritedName` | index.ts:106-113 | as written, login under an inherited name fails with bcrypt's argument error instead of "User not found" |
| `ObjectLookup.AsWrittenAgreesOffInheritedNames` | index.ts:45-47 | for any username that is not an inherited name, registration as written and the intended registration agree |
| `ObjectLookup.LoginAsWrittenAgreesOffInheritedNames` | index.ts:105-123 | for any username that is not an inherited name, login as written and the intended login agree on success, on the view, and on the message sent for a failure |

## Findings

| source | as written | input that shows it | evidently intended | confidence | as-written member | corrected member |
|---|---|---|---|---|---|---|
| index.ts:46 | `MEMORY_DB[name] \|\| undefined` also returns the truthy members `MEMORY_DB` inherits from `Object.prototype`, so `/register` treats such a name as taken | register `{username: "toString", email: "a@b.io", type: "user", password: "Abc!2"}` on an empty store: "User already exists", status 400 | only stored users are found, so the registration succeeds | high; not executed | `ObjectLookup.ToStringCannotRegister` | `Store.RegisterConflictIff` |
| index.ts:106-113 | for an inherited name, login passes the inherited function to `bcrypt.compare`, whose `passwordhash` is undefined, and bcrypt throws | login `{username: "valueOf", password: "x"}`: message "Illegal arguments: string, undefined" (status still 401) | "User not found" | high; not executed | `ObjectLookup.LoginAsWrittenInheritedName` | `Store.LoginOutcomes` |

The rest of the model (`Store`, `Authority`) uses own-key lookup, the corrected behaviour.

## Left out

- HTTP transport: Express wiring, route registration (including `/register` being registered as GET), JSON body parsing, status sending, `app.listen`. Responses are modelled as a `Result`, with the status as a function of it.
- bcrypt internals: `genSalt`, the hash function and the timing-safe comparison. The hash is an arbitrary deterministic function, and the salt is an input.
- joi's `email()` syntax: an uninterpreted predicate fixed when the store is built.
- joi's message texts for the username, email, type and unknown-key failures: only the failing key is reported.
- Values in the body that are not strings are treated as missing keys. joi would report them with a different message, but still as a failure of that key.
- String length: joi counts UTF-16 code units and the model counts characters, so the two agree on every character of the Basic Multilingual Plane.
- Concurrency: a second registration could run between the uniqueness check and the insert, at the awaits. Each handler is modelled as atomic.
- The `|| 'user'` default at line 87: it cannot apply because type is required.
- Login bodies whose fields are not strings: login takes two strings. A missing or non-string username is converted to a key string ("undefined", "null", ...) and looked up like any other name. "undefined" passes the username rule, so once a user of that name exists, a body that carries only its password logs in with status 200, and the response has no `username`. A non-string password makes `bcrypt.compare` reject only when the user exists, which ends in a 401.
- A body that is valid JSON but not an object, such as an array: joi refuses it before checking any key, and `/register` answers 400. The model's `Body` is always an object, so this refusal has no `Field`.
- `lodash` `_.find` iteration order: the scan may pick any matching entry. Under the uniqueness invariant at most one entry matches.
