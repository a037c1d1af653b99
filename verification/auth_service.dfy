/** The operations of the credential store, each a pure function of a store
    and of the caller-supplied clock, id, token and encoder. The three that
    reply (registration, login and password reset) return a `Step`: the
    reply and the next store. The session setters and token issue return
    only the next store; the lookups return an `Option`. Persisting to
    browser storage is not modelled: a returned store is what the service
    holds in memory afterwards. */
module AuthService {
  import opened AuthRecords

  const DefaultPlan := "Premium Plan"

  /** Lifetime of a reset token: one hour in milliseconds. */
  const ResetWindow: nat := 3600000

  const MsgUsernameTaken := "Username already exists"
  const MsgEmailTaken := "Email already registered"
  const MsgRegistered := "User registered successfully"
  const MsgBadCredentials := "Invalid username/email or password"
  const MsgLoggedIn := "Login successful!"
  const MsgBadToken := "Invalid or expired reset token"
  const MsgPasswordReset := "Password reset successfully"
  const MsgUserNotFound := "User not found"

  /** The `{success, message, user?}` object that `registerUser`,
      `loginUser` and `resetPassword` return. */
  datatype Reply<T> = Success(message: string, value: T) | Failure(message: string)

  /** A reply together with the store the operation leaves behind. */
  datatype Step<T> = Step(reply: Reply<T>, store: Store)

  /** The store a service starts from when browser storage holds nothing. */
  const Initial := Store([], map[], None)

  /** Token t is present and its expiry has not passed at time now. */
  ghost predicate Live(s: Store, t: string, now: nat) {
    t in s.resetTokens && now <= s.resetTokens[t].expires
  }

  function GetCurrentUser(s: Store): Option<SessionUser> {
    s.currentUser
  }

  function SaveCurrentUser(s: Store, u: SessionUser): (r: Store)
    ensures GetCurrentUser(r) == Some(u)
    ensures r.users == s.users && r.resetTokens == s.resetTokens
  {
    s.(currentUser := Some(u))
  }

  function ClearCurrentUser(s: Store): (r: Store)
    ensures GetCurrentUser(r) == None
    ensures r.users == s.users && r.resetTokens == s.resetTokens
  {
    s.(currentUser := None)
  }

  function RegisterUser(s: Store, username: string, password: string, email: string,
                        id: string, createdAt: string, enc: Encoder): (r: Step<UserRecord>)
    ensures HasUsername(s.users, username) ==> r == Step(Failure(MsgUsernameTaken), s)
    ensures !HasUsername(s.users, username) && HasEmail(s.users, email) ==>
              r == Step(Failure(MsgEmailTaken), s)
    ensures !HasUsername(s.users, username) && !HasEmail(s.users, email) ==>
              var rec := UserRecord(id, username, enc(password), email, createdAt, DefaultPlan);
              && r.reply == Success(MsgRegistered, rec)
              && r.store.users == s.users + [rec]
              && r.store.resetTokens == s.resetTokens
              && r.store.currentUser == Some(Project(rec))
  {
    if FirstMatch(s.users, ByUsername(username)).Some? then
      Step(Failure(MsgUsernameTaken), s)
    else if FirstMatch(s.users, ByEmail(email)).Some? then
      Step(Failure(MsgEmailTaken), s)
    else
      var user := UserRecord(id, username, enc(password), email, createdAt, DefaultPlan);
      var added := s.(users := s.users + [user]);
      Step(Success(MsgRegistered, user), SaveCurrentUser(added, Project(user)))
  }

  /** Both failure causes give the same reply and leave the store alone. */
  function LoginUser(s: Store, identifier: string, password: string, enc: Encoder): (r: Step<SessionUser>)
    ensures r.reply.Failure? ==> r == Step(Failure(MsgBadCredentials), s)
    ensures (forall j :: 0 <= j < |s.users| ==> !Matches(s.users[j], ByIdentifier(identifier))) ==>
              r.reply.Failure?
    ensures forall k :: IsFirst(s.users, ByIdentifier(identifier), k) ==>
              if s.users[k].password == enc(password) then
                var info := Project(s.users[k]);
                r == Step(Success(MsgLoggedIn, info), s.(currentUser := Some(info)))
              else
                r.reply.Failure?
  {
    match FirstMatch(s.users, ByIdentifier(identifier))
    case None => Step(Failure(MsgBadCredentials), s)
    case Some(k) =>
      if s.users[k].password != enc(password) then
        Step(Failure(MsgBadCredentials), s)
      else
        var info := Project(s.users[k]);
        Step(Success(MsgLoggedIn, info), SaveCurrentUser(s, info))
  }

  function GetUserByEmail(s: Store, email: string): (r: Option<UserRecord>)
    ensures r.None? <==> !HasEmail(s.users, email)
    ensures forall k :: IsFirst(s.users, ByEmail(email), k) ==> r == Some(s.users[k])
  {
    match FirstMatch(s.users, ByEmail(email))
    case None => None
    case Some(k) => Some(s.users[k])
  }

  /** Stores `token` (chosen at random by the caller) for `email`, valid
      through `now + ResetWindow`; an existing entry under the same key is
      overwritten. Returns the new store only: `generateResetToken` returns
      the token, which here is the caller's own argument. */
  function GenerateResetToken(s: Store, email: string, token: string, now: nat): (r: Store)
    ensures r.users == s.users && r.currentUser == s.currentUser
    ensures forall t :: t != token ==>
              (t in r.resetTokens <==> t in s.resetTokens) &&
              (t in s.resetTokens ==> r.resetTokens[t] == s.resetTokens[t])
    ensures forall later: nat :: ValidateResetToken(r, token, later) ==
              if later <= now + ResetWindow then Some(email) else None
  {
    s.(resetTokens := s.resetTokens[token := TokenData(email, now + ResetWindow)])
  }

  /** The token's email while it is present and not past its expiry; only
      `expires < now` counts as expired. */
  function ValidateResetToken(s: Store, token: string, now: nat): (r: Option<string>)
    ensures r.Some? <==> Live(s, token, now)
    ensures r.Some? ==> r.value == s.resetTokens[token].email
  {
    if token !in s.resetTokens || s.resetTokens[token].expires < now then None
    else Some(s.resetTokens[token].email)
  }

  /** A live token whose email is the empty string is rejected like an
      expired one, since the empty string is falsy in the `!email` test of
      `resetPassword`. */
  function ResetPassword(s: Store, token: string, newPassword: string, now: nat, enc: Encoder): (r: Step<()>)
    ensures !Live(s, token, now) ==> r == Step(Failure(MsgBadToken), s)
    ensures Live(s, token, now) && s.resetTokens[token].email == "" ==>
              r == Step(Failure(MsgBadToken), s)
    ensures Live(s, token, now) && s.resetTokens[token].email != "" &&
            !HasEmail(s.users, s.resetTokens[token].email) ==>
              r == Step(Failure(MsgUserNotFound), s)
    ensures forall k :: Live(s, token, now) && s.resetTokens[token].email != "" &&
                        IsFirst(s.users, ByEmail(s.resetTokens[token].email), k) ==>
              && r.reply == Success(MsgPasswordReset, ())
              && |r.store.users| == |s.users|
              && r.store.users[k] == s.users[k].(password := enc(newPassword))
              && (forall j :: 0 <= j < |s.users| && j != k ==> r.store.users[j] == s.users[j])
              && r.store.resetTokens == s.resetTokens - {token}
              && r.store.currentUser == s.currentUser
  {
    match ValidateResetToken(s, token, now)
    case None => Step(Failure(MsgBadToken), s)
    case Some(email) =>
      if email == "" then
        Step(Failure(MsgBadToken), s)
      else
        match FirstMatch(s.users, ByEmail(email))
        case None => Step(Failure(MsgUserNotFound), s)
        case Some(k) =>
          var users := s.users[k := s.users[k].(password := enc(newPassword))];
          Step(Success(MsgPasswordReset, ()), Store(users, s.resetTokens - {token}, s.currentUser))
  }
}
