/** State invariants of the credential store and their preservation by every
    operation, over single steps and over whole traces of operations. */
module AuthInvariants {
  import opened AuthRecords
  import opened AuthService

  /** No two records share a username, and no two records share an email. */
  ghost predicate UniqueIdentities(users: seq<UserRecord>) {
    forall i, j :: 0 <= i < j < |users| ==>
      users[i].username != users[j].username && users[i].email != users[j].email
  }

  /** Every outstanding reset token names the email of a stored record. */
  ghost predicate TokensTargetUsers(s: Store) {
    forall t :: t in s.resetTokens ==> HasEmail(s.users, s.resetTokens[t].email)
  }

  /** One call into the service. Clock-derived values (the record id and
      creation stamp) and the random token arrive as arguments. */
  datatype Command =
    | Register(username: string, password: string, email: string, id: string, createdAt: string)
    | Login(identifier: string, password: string)
    | Logout
    | IssueToken(email: string, token: string)
    | Reset(token: string, newPassword: string)

  /** A call together with the time at which it is made. */
  datatype Event = Event(cmd: Command, now: nat)

  function Apply(s: Store, e: Event, enc: Encoder): Store {
    match e.cmd
    case Register(u, p, m, id, c) => RegisterUser(s, u, p, m, id, c, enc).store
    case Login(x, p) => LoginUser(s, x, p, enc).store
    case Logout => ClearCurrentUser(s)
    case IssueToken(m, t) => GenerateResetToken(s, m, t, e.now)
    case Reset(t, p) => ResetPassword(s, t, p, e.now, enc).store
  }

  function Run(s: Store, events: seq<Event>, enc: Encoder): Store
    decreases |events|
  {
    if |events| == 0 then s else Run(Apply(s, events[0], enc), events[1..], enc)
  }

  lemma RegisterKeepsUnique(s: Store, u: string, p: string, m: string, id: string, c: string, enc: Encoder)
    requires UniqueIdentities(s.users)
    ensures UniqueIdentities(RegisterUser(s, u, p, m, id, c, enc).store.users)
  {
  }

  /** A reset changes one password and no username or email. */
  lemma ResetKeepsUnique(s: Store, t: string, p: string, now: nat, enc: Encoder)
    requires UniqueIdentities(s.users)
    ensures UniqueIdentities(ResetPassword(s, t, p, now, enc).store.users)
  {
  }

  lemma ApplyKeepsUnique(s: Store, e: Event, enc: Encoder)
    requires UniqueIdentities(s.users)
    ensures UniqueIdentities(Apply(s, e, enc).users)
  {
  }

  lemma {:induction false} RunKeepsUnique(s: Store, events: seq<Event>, enc: Encoder)
    requires UniqueIdentities(s.users)
    ensures UniqueIdentities(Run(s, events, enc).users)
    decreases |events|
  {
    if |events| > 0 {
      ApplyKeepsUnique(s, events[0], enc);
      RunKeepsUnique(Apply(s, events[0], enc), events[1..], enc);
    }
  }

  /** Every store reachable from empty storage keeps usernames and emails unique. */
  lemma ReachableUnique(events: seq<Event>, enc: Encoder)
    ensures UniqueIdentities(Run(Initial, events, enc).users)
  {
    RunKeepsUnique(Initial, events, enc);
  }

  /** The trace only issues tokens for emails that are registered at the
      time, as the forgot-password form does before calling the service. */
  ghost predicate IssuesForUsersOnly(s: Store, events: seq<Event>, enc: Encoder)
    decreases |events|
  {
    |events| == 0 ||
    ((events[0].cmd.IssueToken? ==> HasEmail(s.users, events[0].cmd.email)) &&
     IssuesForUsersOnly(Apply(s, events[0], enc), events[1..], enc))
  }

  lemma RegisterKeepsTargets(s: Store, u: string, p: string, m: string, id: string, c: string, enc: Encoder)
    requires TokensTargetUsers(s)
    ensures TokensTargetUsers(RegisterUser(s, u, p, m, id, c, enc).store)
  {
    var r := RegisterUser(s, u, p, m, id, c, enc);
    if r.reply.Success? {
      var s' := r.store;
      forall t | t in s'.resetTokens
        ensures HasEmail(s'.users, s'.resetTokens[t].email)
      {
        var i :| 0 <= i < |s.users| && s.users[i].email == s.resetTokens[t].email;
        assert s'.users[i] == s.users[i];
      }
    }
  }

  lemma ResetKeepsTargets(s: Store, t: string, p: string, now: nat, enc: Encoder)
    requires TokensTargetUsers(s)
    ensures TokensTargetUsers(ResetPassword(s, t, p, now, enc).store)
  {
  }

  lemma ApplyKeepsTargets(s: Store, e: Event, enc: Encoder)
    requires TokensTargetUsers(s)
    requires e.cmd.IssueToken? ==> HasEmail(s.users, e.cmd.email)
    ensures TokensTargetUsers(Apply(s, e, enc))
  {
    match e.cmd
    case Register(u, p, m, id, c) => RegisterKeepsTargets(s, u, p, m, id, c, enc);
    case Login(x, p) =>
    case Logout =>
    case IssueToken(m, t) =>
    case Reset(t, p) => ResetKeepsTargets(s, t, p, e.now, enc);
  }

  lemma {:induction false} RunKeepsTargets(s: Store, events: seq<Event>, enc: Encoder)
    requires TokensTargetUsers(s)
    requires IssuesForUsersOnly(s, events, enc)
    ensures TokensTargetUsers(Run(s, events, enc))
    decreases |events|
  {
    if |events| > 0 {
      ApplyKeepsTargets(s, events[0], enc);
      RunKeepsTargets(Apply(s, events[0], enc), events[1..], enc);
    }
  }

  /** While every token names a stored email, a reset never reports a missing user. */
  lemma ResetFindsUser(s: Store, t: string, p: string, now: nat, enc: Encoder)
    requires TokensTargetUsers(s)
    ensures ResetPassword(s, t, p, now, enc).reply.message != MsgUserNotFound
  {
  }

  /** Along a trace that issues tokens only for registered emails, starting
      from empty storage, no reset ever reports a missing user. */
  lemma ReachableResetFindsUser(events: seq<Event>, enc: Encoder, t: string, p: string, now: nat)
    requires IssuesForUsersOnly(Initial, events, enc)
    ensures ResetPassword(Run(Initial, events, enc), t, p, now, enc).reply.message != MsgUserNotFound
  {
    RunKeepsTargets(Initial, events, enc);
    ResetFindsUser(Run(Initial, events, enc), t, p, now, enc);
  }
}
