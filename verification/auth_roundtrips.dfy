/** Properties that relate several calls: registering then logging in,
    issuing then redeeming a reset token, and logging in after a reset. */
module AuthRoundTrips {
  import opened AuthRecords
  import opened AuthService

  /** After a successful registration of (u, p, m), logging in as u with p
      yields the new account exactly when no older record has email u (the
      lookup matches either field, oldest record first); logging in as m
      yields it exactly when no older record has username m. */
  lemma RegisterThenLogin(s: Store, u: string, p: string, m: string, id: string, c: string, enc: Encoder)
    requires RegisterUser(s, u, p, m, id, c, enc).reply.Success?
    ensures var s' := RegisterUser(s, u, p, m, id, c, enc).store;
            LoginUser(s', u, p, enc).reply == Success(MsgLoggedIn, SessionUser(id, u, m, DefaultPlan))
            <==> !HasEmail(s.users, u)
    ensures var s' := RegisterUser(s, u, p, m, id, c, enc).store;
            LoginUser(s', m, p, enc).reply == Success(MsgLoggedIn, SessionUser(id, u, m, DefaultPlan))
            <==> !HasUsername(s.users, m)
  {
    var s' := RegisterUser(s, u, p, m, id, c, enc).store;
    var rec := UserRecord(id, u, enc(p), m, c, DefaultPlan);
    var n := |s.users|;
    assert s'.users == s.users + [rec];
    assert s'.users[n] == rec;
    LoginSelects(s, s', rec, u, p, enc);
    LoginSelects(s, s', rec, m, p, enc);
  }

  /** Login on `s.users + [rec]` by identifier x: when no older record
      matches x the new record is chosen; otherwise an older one is, and its
      projection differs from the new record's whenever the new record's
      username and email are fresh. */
  lemma LoginSelects(s: Store, s': Store, rec: UserRecord, x: string, p: string, enc: Encoder)
    requires s'.users == s.users + [rec]
    requires !HasUsername(s.users, rec.username) && !HasEmail(s.users, rec.email)
    requires rec.password == enc(p)
    requires x == rec.username || x == rec.email
    ensures LoginUser(s', x, p, enc).reply == Success(MsgLoggedIn, Project(rec))
            <==> forall j :: 0 <= j < |s.users| ==> !Matches(s.users[j], ByIdentifier(x))
  {
    var q := ByIdentifier(x);
    var n := |s.users|;
    if forall j :: 0 <= j < n ==> !Matches(s.users[j], q) {
      assert s'.users[n] == rec;
      forall j | 0 <= j < n ensures !Matches(s'.users[j], q) {
        assert s'.users[j] == s.users[j];
      }
      assert IsFirst(s'.users, q, n);
    } else {
      var k := FirstMatch(s.users, q).value;
      FirstMatchAppend(s.users, [rec], q, k);
      var earlier := s.users[k];
      if earlier.username == x {
        assert x != rec.username;
      } else {
        assert x != rec.email;
      }
      assert Project(earlier) != Project(rec);
    }
  }

  /** With an injective encoding, the freshly registered account rejects any
      other password when it is the one the identifier selects. */
  lemma RegisterThenWrongPassword(s: Store, u: string, p: string, m: string, id: string, c: string,
                                  enc: Encoder, other: string)
    requires RegisterUser(s, u, p, m, id, c, enc).reply.Success?
    requires !HasEmail(s.users, u)
    requires Injective(enc) && other != p
    ensures LoginUser(RegisterUser(s, u, p, m, id, c, enc).store, u, other, enc).reply
            == Failure(MsgBadCredentials)
  {
  }

  /** A successful reset changes no username or email, so every lookup finds
      the same record before and after it. */
  lemma ResetKeepsLookups(s: Store, t: string, np: string, now: nat, enc: Encoder, q: Lookup, k: int)
    requires ResetPassword(s, t, np, now, enc).reply.Success?
    ensures IsFirst(s.users, q, k) <==> IsFirst(ResetPassword(s, t, np, now, enc).store.users, q, k)
  {
  }

  /** After resetting the password of record k, an identifier that selects
      record k logs in with p exactly when p encodes like the new password;
      under an injective encoding, exactly when p is the new password. */
  lemma ResetThenLogin(s: Store, t: string, np: string, now: nat, enc: Encoder, k: int, x: string, p: string)
    requires t in s.resetTokens
    requires ResetPassword(s, t, np, now, enc).reply.Success?
    requires IsFirst(s.users, ByEmail(s.resetTokens[t].email), k)
    requires IsFirst(s.users, ByIdentifier(x), k)
    ensures LoginUser(ResetPassword(s, t, np, now, enc).store, x, p, enc).reply.Success?
            <==> enc(p) == enc(np)
    ensures Injective(enc) ==>
            (LoginUser(ResetPassword(s, t, np, now, enc).store, x, p, enc).reply.Success? <==> p == np)
  {
  }

  /** A redeemed token is gone: it no longer validates and a second reset
      with it fails as invalid, at any time and with any password. */
  lemma ResetIsSingleUse(s: Store, t: string, np: string, now: nat, enc: Encoder, p2: string, later: nat)
    requires t in s.resetTokens && now <= s.resetTokens[t].expires
    requires s.resetTokens[t].email != "" && HasEmail(s.users, s.resetTokens[t].email)
    ensures ResetPassword(s, t, np, now, enc).reply.Success?
    ensures var s' := ResetPassword(s, t, np, now, enc).store;
            && ValidateResetToken(s', t, later) == None
            && ResetPassword(s', t, p2, later, enc) == Step(Failure(MsgBadToken), s')
  {
  }

  /** A token just issued for a registered, non-empty email redeems exactly
      until its expiry, one hour after issue. */
  lemma IssueThenReset(s: Store, e: string, t: string, now: nat, np: string, later: nat, enc: Encoder)
    requires HasEmail(s.users, e) && e != ""
    ensures ResetPassword(GenerateResetToken(s, e, t, now), t, np, later, enc).reply.Success?
            <==> later <= now + ResetWindow
  {
  }

  /** The store after registering alice into empty storage. */
  function AliceStore(enc: Encoder): Store {
    RegisterUser(Initial, "alice", "Secret123!", "a@x.com", "1", "t1", enc).store
  }

  /** The record alice's registration appends to empty storage. */
  lemma AliceRegistered(enc: Encoder)
    ensures RegisterUser(Initial, "alice", "Secret123!", "a@x.com", "1", "t1", enc).reply.Success?
    ensures AliceStore(enc).users == [UserRecord("1", "alice", enc("Secret123!"), "a@x.com", "t1", DefaultPlan)]
  {
  }

  /** Registering alice's username or email a second time is refused with
      the matching message and changes nothing. */
  lemma DuplicateScenario(enc: Encoder)
    ensures var s1 := AliceStore(enc);
      && RegisterUser(s1, "alice", "Other99!", "b@x.com", "2", "t2", enc) == Step(Failure(MsgUsernameTaken), s1)
      && RegisterUser(s1, "bob", "Other99!", "a@x.com", "2", "t2", enc) == Step(Failure(MsgEmailTaken), s1)
  {
  }

  /** Login works by username and by email; a wrong password and an
      unknown name get the same reply and leave the store alone. */
  lemma LoginScenario(enc: Encoder)
    requires Injective(enc)
    ensures var s1 := AliceStore(enc);
      var alice := SessionUser("1", "alice", "a@x.com", DefaultPlan);
      && LoginUser(s1, "alice", "Secret123!", enc).reply == Success(MsgLoggedIn, alice)
      && LoginUser(s1, "a@x.com", "Secret123!", enc).reply == Success(MsgLoggedIn, alice)
      && LoginUser(s1, "alice", "wrong", enc) == Step(Failure(MsgBadCredentials), s1)
      && LoginUser(s1, "nobody", "wrong", enc) == Step(Failure(MsgBadCredentials), s1)
  {
  }

  /** Reset scenario: a fresh token validates until its hour is up, redeems
      once, makes the new password work and the old one fail, and cannot be
      redeemed again. */
  lemma ResetScenario(enc: Encoder)
    requires Injective(enc)
    ensures
      var s2 := GenerateResetToken(AliceStore(enc), "a@x.com", "tok", 1000);
      var r3 := ResetPassword(s2, "tok", "NewPass1!", 2000, enc);
      && ValidateResetToken(s2, "tok", 1000) == Some("a@x.com")
      && ValidateResetToken(s2, "tok", 1000 + ResetWindow + 1) == None
      && r3.reply.Success?
      && LoginUser(r3.store, "alice", "NewPass1!", enc).reply.Success?
      && LoginUser(r3.store, "alice", "Secret123!", enc).reply.Failure?
      && ResetPassword(r3.store, "tok", "Again1!x", 3000, enc) == Step(Failure(MsgBadToken), r3.store)
  {
  }
}
