# TallyAssist credential store, modelled in Dafny

TallyAssist's login page keeps its accounts in the browser. The `AuthService`
class in `TallyAssist/ent_js.js` holds three pieces of state:

- a list of user records (id, username, encoded password, email, creation
  stamp, plan);
- a table from reset-token strings to `{email, expires}`;
- one current-user slot.

It offers registration, login, the session accessors, and a one-hour,
single-use password-reset token lifecycle. The sign-up form also checks
password strength with five regular expressions (`passwordRules` and
`isPasswordValid`).

This project models that core as immutable values and pure functions:

- `auth_records.dfy` (module `AuthRecords`) holds the data model. It also
  defines `FirstMatch`, which models `Array.prototype.find` over the user list
  for the three lookups the class uses: by username, by email, and by
  username-or-email.
- `auth_service.dfy` (module `AuthService`) holds every operation as a pure
  function of a `Store`, its arguments, and the inputs that come from outside:
  - `RegisterUser`, `LoginUser` and `ResetPassword` return a `Step`: a `Reply`
    and the next `Store`. `Reply` carries the same success flag and the same
    message strings as `ent_js.js`.
  - `SaveCurrentUser`, `ClearCurrentUser` and `GenerateResetToken` return only
    the next `Store`. `GenerateResetToken` does not return the token, because
    the caller supplies it.
  - `ValidateResetToken`, `GetUserByEmail` and `GetCurrentUser` return an
    `Option` and leave the store as it was.
- `auth_invariants.dfy` (module `AuthInvariants`) holds the state invariants:
  usernames and emails are unique, and every token names a stored email. It
  proves uniqueness for every operation and every trace that starts from
  empty storage. `generateResetToken` stores any email without looking it up,
  so the token invariant is proved only when tokens are issued for registered
  emails (`IssuesForUsersOnly`), as the forgot-password form does.
- `auth_roundtrips.dfy` (module `AuthRoundTrips`) relates several calls:
  register then login, reset then login, issue a token then redeem it, and
  token single use. It ends with small scenario lemmas for one account's life.
- `password_rules.dfy` (module `PasswordRules`) models the five rule tests as
  scanning methods. Each method is proved equal to a declarative definition of
  what its regular expression matches.

Inputs from outside the model:

- The password encoding (`btoa`) is an arbitrary function `enc: string -> string`.
  Lemmas that need it to be injective require `Injective(enc)`.
- The clock (`Date.now()`) is a `now: nat` argument.
- The record id and creation stamp are caller-supplied strings.
- The random reset token is a caller-supplied string.

Two behaviours of the code that the model keeps as written:

- `ValidateResetToken` still accepts a token at exactly its expiry time,
  because `TallyAssist/ent_js.js:98` rejects only `expires < now`.
- A live token whose stored email is `""` is refused with
  `'Invalid or expired reset token'`, because `TallyAssist/ent_js.js:106` tests
  `!email` and the empty string is falsy. `ResetPassword` states this.

## Model

| member | source | states |
|---|---|---|
| AuthRecords.FirstMatch | TallyAssist/ent_js.js:58 | `find` returns the position of the first record that satisfies the lookup, and returns nothing exactly when no record satisfies it |
| AuthService.SaveCurrentUser | TallyAssist/ent_js.js:17-20 | afterwards the current user is the given projection; users and tokens are unchanged |
| AuthService.ClearCurrentUser | TallyAssist/ent_js.js:22-25 | afterwards `getCurrentUser` returns null; users and tokens are unchanged |
| AuthService.RegisterUser | TallyAssist/ent_js.js:27-54 | a taken username fails with 'Username already exists' and changes nothing, and it is checked before the email; a taken email then fails with 'Email already registered' and changes nothing; otherwise exactly one record (the given username and email, the encoded password, plan 'Premium Plan') is appended, the session becomes its projection, and the tokens are untouched |
| AuthService.LoginUser | TallyAssist/ent_js.js:56-76 | the first record matching the identifier by username or by email decides the outcome; no match and a wrong password both give the same 'Invalid username/email or password' reply and the same unchanged store; a right password sets the session to that record's projection and returns it |
| AuthService.GetUserByEmail | TallyAssist/ent_js.js:82-84 | returns nothing exactly when no record has the email; otherwise returns the first record that has it |
| AuthService.GenerateResetToken | TallyAssist/ent_js.js:86-94 | users and session are unchanged, and every other token is unchanged; the new token validates to the given email at every time up to one hour (3600000 ms) after issue, and at no later time |
| AuthService.ValidateResetToken | TallyAssist/ent_js.js:96-102 | returns the token's email exactly when the token is present and its expiry is not before `now`; it has no effect on the store |
| AuthService.ResetPassword | TallyAssist/ent_js.js:104-120 | a token that is absent or expired, or that names the empty email, fails with 'Invalid or expired reset token' and changes nothing; a token whose email no record has fails with 'User not found', changes nothing and stays in place; otherwise only the first record with that email changes, its password becoming the encoded new one, the token is removed, and the session is kept |
| AuthInvariants.RegisterKeepsUnique | TallyAssist/ent_js.js:27-53 | registration keeps usernames pairwise distinct and emails pairwise distinct |
| AuthInvariants.ResetKeepsUnique | TallyAssist/ent_js.js:110-116 | a password reset keeps usernames and emails pairwise distinct |
| AuthInvariants.ApplyKeepsUnique | TallyAssist/ent_js.js:22-120 | every operation of the service keeps usernames and emails pairwise distinct |
| AuthInvariants.RunKeepsUnique | TallyAssist/ent_js.js:22-120 | any sequence of operations keeps usernames and emails pairwise distinct |
| AuthInvariants.ReachableUnique | TallyAssist/ent_js.js:3-7 | every store reached from empty storage has distinct usernames and distinct emails |
| AuthInvariants.RegisterKeepsTargets | TallyAssist/ent_js.js:38-48 | registration keeps every token's email registered, because records are only added |
| AuthInvariants.ResetKeepsTargets | TallyAssist/ent_js.js:110-116 | a reset keeps every remaining token's email registered, because it changes no email |
| AuthInvariants.ApplyKeepsTargets | TallyAssist/ent_js.js:22-120 | every operation keeps every token's email registered, provided a token is issued only for a registered email |
| AuthInvariants.RunKeepsTargets | TallyAssist/ent_js.js:22-120 | a trace that issues tokens only for registered emails keeps every token's email registered |
| AuthInvariants.ResetFindsUser | TallyAssist/ent_js.js:110-119 | while every token names a registered email, a reset never answers 'User not found' |
| AuthInvariants.ReachableResetFindsUser | TallyAssist/ent_js.js:327-335 | for one service instance starting from empty storage, when tokens are requested only after the email lookup succeeds (as the forgot-password form does), no reset ever answers 'User not found' |
| AuthRoundTrips.RegisterThenLogin | TallyAssist/ent_js.js:38-75 | after registering (u, p, m), logging in as u with p yields the new account's projection exactly when no older record has email u; logging in as m yields it exactly when no older record has username m |
| AuthRoundTrips.LoginSelects | TallyAssist/ent_js.js:58-75 | after a record with a fresh username and email is appended, logging in by its username or email with its password returns its projection exactly when no older record matches the identifier |
| AuthRoundTrips.RegisterThenWrongPassword | TallyAssist/ent_js.js:58-65 | with an injective encoding, and when no older record has email u, logging in as u refuses every password other than the registered one |
| AuthRoundTrips.ResetKeepsLookups | TallyAssist/ent_js.js:110-113 | a successful reset leaves the answer of every lookup unchanged |
| AuthRoundTrips.ResetThenLogin | TallyAssist/ent_js.js:104-116 | after a reset, an identifier that selects the reset record logs in exactly with passwords that encode like the new one; with an injective encoding, exactly with the new password, so the old password stops working |
| AuthRoundTrips.ResetIsSingleUse | TallyAssist/ent_js.js:104-116 | a reset with a live token for a registered, non-empty email succeeds; afterwards the token never validates again, and a second reset with it fails with 'Invalid or expired reset token' and changes nothing |
| AuthRoundTrips.IssueThenReset | TallyAssist/ent_js.js:86-117 | a token just issued for a registered, non-empty email redeems exactly when the reset happens no later than one hour after issue |
| AuthRoundTrips.AliceRegistered | TallyAssist/ent_js.js:38-48 | registering into empty storage succeeds and leaves exactly the new record |
| AuthRoundTrips.DuplicateScenario | TallyAssist/ent_js.js:29-36 | re-registering a taken username, or a fresh username with a taken email, fails with the matching message and changes nothing |
| AuthRoundTrips.LoginScenario | TallyAssist/ent_js.js:56-75 | login succeeds by username and by email; a wrong password and an unknown name both get the same failure reply and leave the store unchanged |
| AuthRoundTrips.ResetScenario | TallyAssist/ent_js.js:86-116 | a token validates at issue and not after its hour; the reset succeeds; the new password logs in and the old one does not; the token cannot be used again |
| PasswordRules.TestLength | TallyAssist/ent_js.js:133 | the scan accepts exactly when some 8 consecutive characters contain no line terminator, which is what `/.{8,}/` tests |
| PasswordRules.TestClass | TallyAssist/ent_js.js:134-137 | the scan accepts exactly when some character is in the rule's class: A–Z, a–z, 0–9, or the listed special characters |
| PasswordRules.Test | TallyAssist/ent_js.js:132-138 | the test of any rule in the table accepts exactly the strings its regular expression matches |
| PasswordRules.IsPasswordValid | TallyAssist/ent_js.js:207-209 | holds exactly when all five rules hold: the length rule, an uppercase letter, a lowercase letter, a digit and a special character |
| PasswordRules.LengthRuleWithoutTerminators | TallyAssist/ent_js.js:133 | for a password without line terminators, the length rule holds exactly when it has at least 8 characters |
| PasswordRules.TerminatorSplitsRun | TallyAssist/ent_js.js:133 | a 10-character password with a line break at position 6 fails the length rule |
| PasswordRules.StrongSample | TallyAssist/ent_js.js:132-138 | "Secret123!" satisfies every rule of the table |

## Left out

- Browser persistence is not modelled: `saveUsers`, `saveResetTokens`, the `localStorage` writes inside `saveCurrentUser` and `clearCurrentUser`, and the JSON loads in the constructor. The model keeps the in-memory state only. The constructor appears only as `Initial`, the store built when storage is empty.
- `btoa` is not modelled concretely, including its exception on characters outside Latin-1. It is an abstract encoder `enc`, assumed injective only where a lemma says so.
- Random and clock-derived values are inputs: the `Math.random` token string, `Date.now().toString()` ids, and `new Date().toISOString()` stamps. No uniqueness is claimed for ids or tokens. An issued token that reuses an existing key overwrites that entry, as the object assignment does.
- Token lookups that hit properties inherited by a plain JavaScript object (a token named `constructor` or `__proto__`) are not modelled. The token table is a `map` that holds only issued tokens.
- AuthInvariants.ReachableResetFindsUser: a trace models the calls of one `AuthService` instance. Several instances sharing `localStorage` (two tabs, say) are not modelled: a stale instance's `saveUsers` can overwrite another's user list, dropping a user whose reset token survives, and a later reset then answers 'User not found'.
- `now` and `expires` are unbounded naturals. The 2^53 limit of JavaScript numbers is not modelled.
- Each `char` stands for one UTF-16 code unit. Characters outside the Basic Multilingual Plane, which JavaScript sees as two code units, are not modelled.
- `GetCurrentUser` has no contract of its own because it only returns the slot. Its meaning is stated through the contracts of `SaveCurrentUser` and `ClearCurrentUser`.
- DOM and page glue in `TallyAssist/ent_js.js` is left out because it is user-interface wiring: password toggles, captcha generation and comparison, the form submit handlers, alerts, redirects, `setTimeout`, and the redundant `tallyAssist_*` keys. The only exception is the forgot-password form's rule that a token is issued only for a registered email, which appears as the `IssuesForUsersOnly` trace condition.
- `TallyAssist/ent_main_js.js` is not part of this model. It holds menu and modal toggling, account display, logout and the authentication redirect.
