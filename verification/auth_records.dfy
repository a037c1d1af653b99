/** The data held by the client-side credential store: the user list, the
    reset-token table and the single current-user slot, plus the first-match
    lookup (`Array.prototype.find`) that registration, login, the email
    lookup and password reset use on the user list. */
module AuthRecords {

  /** `null` / `undefined` versus a present value. */
  datatype Option<T> = None | Some(value: T)

  /** One element of the persisted user list. `id` and `createdAt` come from
      the wall clock at registration; `password` holds the encoded password. */
  datatype UserRecord = UserRecord(
    id: string,
    username: string,
    password: string,
    email: string,
    createdAt: string,
    plan: string)

  /** The password-free projection of a record that occupies the session slot. */
  datatype SessionUser = SessionUser(id: string, username: string, email: string, plan: string)

  /** The value a reset token maps to: the target email and an absolute expiry
      time in milliseconds. */
  datatype TokenData = TokenData(email: string, expires: nat)

  /** The whole in-memory state of the service. */
  datatype Store = Store(
    users: seq<UserRecord>,
    resetTokens: map<string, TokenData>,
    currentUser: Option<SessionUser>)

  /** The reversible password encoding (the browser's `btoa`), left abstract. */
  type Encoder = string -> string

  ghost predicate Injective(enc: Encoder) {
    forall a, b :: enc(a) == enc(b) ==> a == b
  }

  function Project(u: UserRecord): SessionUser {
    SessionUser(u.id, u.username, u.email, u.plan)
  }

  /** The three search predicates the service hands to `find`. */
  datatype Lookup = ByUsername(name: string) | ByEmail(address: string) | ByIdentifier(identifier: string)

  predicate Matches(u: UserRecord, q: Lookup) {
    match q
    case ByUsername(n) => u.username == n
    case ByEmail(e) => u.email == e
    case ByIdentifier(x) => u.username == x || u.email == x
  }

  ghost predicate HasUsername(users: seq<UserRecord>, name: string) {
    exists i :: 0 <= i < |users| && users[i].username == name
  }

  ghost predicate HasEmail(users: seq<UserRecord>, address: string) {
    exists i :: 0 <= i < |users| && users[i].email == address
  }

  /** Index k holds the first record of `users` that satisfies `q`. */
  ghost predicate IsFirst(users: seq<UserRecord>, q: Lookup, k: int) {
    && 0 <= k < |users|
    && Matches(users[k], q)
    && forall j :: 0 <= j < k ==> !Matches(users[j], q)
  }

  /** The position `users.find(q)` returns, or None when nothing matches. */
  function FirstMatch(users: seq<UserRecord>, q: Lookup): (r: Option<nat>)
    ensures r.Some? ==> IsFirst(users, q, r.value)
    ensures r.None? <==> forall j :: 0 <= j < |users| ==> !Matches(users[j], q)
    decreases |users|
  {
    if |users| == 0 then None
    else if Matches(users[0], q) then Some(0)
    else
      match FirstMatch(users[1..], q)
      case None => None
      case Some(i) => Some(i + 1)
  }

  /** A match inside a prefix is still the first match after appending. */
  lemma FirstMatchAppend(users: seq<UserRecord>, extra: seq<UserRecord>, q: Lookup, k: int)
    requires IsFirst(users, q, k)
    ensures IsFirst(users + extra, q, k)
  {
  }
}
