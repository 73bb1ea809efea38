/**
 * Properties of the account lifecycle: every handler keeps the repository
 * invariant, each handler's branches as seen from the row it acts on, and
 * what sequences of requests do.
 */
module AuthProperties {
  import opened UserStore
  import opened AuthLifecycle

  /** Row `i` is the only row whose e-mail token is `t`. */
  predicate HoldsEmailTokenAlone(users: seq<User>, i: nat, t: string) {
    && i < |users| && users[i].emailToken == Some(t)
    && forall j :: 0 <= j < |users| && j != i ==> users[j].emailToken != Some(t)
  }

  /** Row `i` is the only row whose reset token is `t`. */
  predicate HoldsResetTokenAlone(users: seq<User>, i: nat, t: string) {
    && i < |users| && users[i].resetPasswordToken == Some(t)
    && forall j :: 0 <= j < |users| && j != i ==> users[j].resetPasswordToken != Some(t)
  }

  /** No row holds `email` except, possibly, the last one. */
  predicate OnlyLastHoldsEmail(users: seq<User>, email: string) {
    forall j :: 0 <= j < |users| && users[j].email == email ==> j == |users| - 1
  }

  // ---------------------------------------------------------------------------
  // The repository invariant is kept by every handler
  // ---------------------------------------------------------------------------

  /** Appending a row with a fresh e-mail, the next key and paired tokens keeps the invariant. */
  lemma AppendRowKeepsWellFormed(db: Db, u: User)
    requires WellFormed(db)
    requires forall j :: 0 <= j < |db.users| ==> db.users[j].email != u.email
    requires u.id == db.nextId && Paired(u)
    ensures WellFormed(Db(db.users + [u], db.nextId + 1))
  {
  }

  /** Removing a row keeps the invariant, and the removed e-mail is then held by no row. */
  lemma RemoveRowKeepsWellFormed(db: Db, i: nat)
    requires WellFormed(db) && i < |db.users|
    ensures WellFormed(Db(RemoveAt(db.users, i), db.nextId))
    ensures forall j :: 0 <= j < |db.users| - 1 ==> RemoveAt(db.users, i)[j].email != db.users[i].email
  {
  }

  lemma RegisterKeepsWellFormed(db: Db, name: string, email: string, now: Instant, token: string, mailOk: bool)
    requires WellFormed(db) && IsHexToken(token)
    ensures WellFormed(Register(db, name, email, now, token, mailOk).db)
  {
    var row := NewPending(db.nextId, name, email, token, now + HOUR);
    match FindOne(db.users, ByEmail(email))
    case None =>
      AppendRowKeepsWellFormed(db, row);
    case Some(i) =>
      if Pending(db.users[i]) && now >= db.users[i].emailTokenExpiry.value {
        var kept := Db(RemoveAt(db.users, i), db.nextId);
        RemoveRowKeepsWellFormed(db, i);
        AppendRowKeepsWellFormed(kept, row);
      }
  }

  lemma VerifyEmailKeepsWellFormed(db: Db, token: string, password: string, now: Instant, hash: Hasher)
    requires WellFormed(db)
    ensures WellFormed(VerifyEmail(db, token, password, now, hash).db)
  {
  }

  lemma LoginKeepsWellFormed(db: Db, email: string, password: string, now: Instant, hash: Hasher,
                             access: string, refresh: string)
    requires WellFormed(db)
    ensures WellFormed(Login(db, email, password, now, hash, access, refresh).db)
  {
  }

  lemma FindPasswordKeepsWellFormed(db: Db, name: string, email: string, now: Instant, token: string, mailOk: bool)
    requires WellFormed(db) && IsHexToken(token)
    ensures WellFormed(FindPassword(db, name, email, now, token, mailOk).db)
  {
  }

  lemma ResetPasswordKeepsWellFormed(db: Db, token: string, newPassword: string, now: Instant, hash: Hasher)
    requires WellFormed(db)
    ensures WellFormed(ResetPassword(db, token, newPassword, now, hash).db)
  {
  }

  // ---------------------------------------------------------------------------
  // register, seen from the row holding the e-mail
  // ---------------------------------------------------------------------------

  /** An open registration is refused and nothing is written. */
  lemma RegisterWhilePending(db: Db, i: nat, name: string, now: Instant, token: string, mailOk: bool)
    requires WellFormed(db) && i < |db.users| && IsHexToken(token)
    requires Pending(db.users[i]) && now < db.users[i].emailTokenExpiry.value
    ensures Register(db, name, db.users[i].email, now, token, mailOk) == Step(Fail(PendingVerification), db)
  {
  }

  /** An expired registration is removed and exactly one new pending row takes its place. */
  lemma RegisterAfterExpiry(db: Db, i: nat, name: string, now: Instant, token: string, mailOk: bool)
    requires WellFormed(db) && i < |db.users| && IsHexToken(token)
    requires Pending(db.users[i]) && now >= db.users[i].emailTokenExpiry.value
    ensures var r := Register(db, name, db.users[i].email, now, token, mailOk);
      && r.reply == AfterMail(mailOk)
      && r.db == Db(RemoveAt(db.users, i) + [NewPending(db.nextId, name, db.users[i].email, token, now + HOUR)],
                    db.nextId + 1)
      && OnlyLastHoldsEmail(r.db.users, db.users[i].email)
  {
  }

  /** An e-mail whose row has no open token pair belongs to an active account: refused, nothing written. */
  lemma RegisterActiveAccount(db: Db, i: nat, name: string, now: Instant, token: string, mailOk: bool)
    requires WellFormed(db) && i < |db.users| && IsHexToken(token)
    requires !Pending(db.users[i])
    ensures Register(db, name, db.users[i].email, now, token, mailOk) == Step(Fail(AlreadyRegistered), db)
  {
  }

  /** A new e-mail gets exactly one pending row, appended with the next key. */
  lemma RegisterNewEmail(db: Db, name: string, email: string, now: Instant, token: string, mailOk: bool)
    requires IsHexToken(token)
    requires forall j :: 0 <= j < |db.users| ==> db.users[j].email != email
    ensures var r := Register(db, name, email, now, token, mailOk);
      && r.reply == AfterMail(mailOk)
      && r.db == Db(db.users + [NewPending(db.nextId, name, email, token, now + HOUR)], db.nextId + 1)
      && OnlyLastHoldsEmail(r.db.users, email)
  {
  }

  /** Registering twice within the hour: the second attempt is refused and adds no second row. */
  lemma RegisterTwiceWithinHour(db: Db, name: string, name2: string, email: string, now: Instant, now2: Instant,
                                token: string, token2: string, mailOk: bool, mailOk2: bool)
    requires WellFormed(db) && IsHexToken(token) && IsHexToken(token2)
    requires Register(db, name, email, now, token, mailOk).reply == AfterMail(mailOk)
    requires now2 < now + HOUR
    ensures var r := Register(db, name, email, now, token, mailOk);
      && Register(r.db, name2, email, now2, token2, mailOk2) == Step(Fail(PendingVerification), r.db)
      && OnlyLastHoldsEmail(r.db.users, email)
  {
  }

  /** Registering again once the hour has passed replaces the stale row with a fresh one. */
  lemma RegisterAgainAfterHour(db: Db, name: string, name2: string, email: string, now: Instant, now2: Instant,
                               token: string, token2: string, mailOk: bool, mailOk2: bool)
    requires WellFormed(db) && IsHexToken(token) && IsHexToken(token2)
    requires Register(db, name, email, now, token, mailOk).reply == AfterMail(mailOk)
    requires now2 >= now + HOUR
    ensures var r := Register(db, name, email, now, token, mailOk);
      var r2 := Register(r.db, name2, email, now2, token2, mailOk2);
      && r2.reply == AfterMail(mailOk2)
      && r2.db.users == RemoveAt(r.db.users, |r.db.users| - 1) + [NewPending(r.db.nextId, name2, email, token2, now2 + HOUR)]
      && OnlyLastHoldsEmail(r2.db.users, email)
  {
    var r := Register(db, name, email, now, token, mailOk);
    RegisterKeepsWellFormed(db, name, email, now, token, mailOk);
    RegisterAfterExpiry(r.db, |r.db.users| - 1, name2, now2, token2, mailOk2);
  }

  // ---------------------------------------------------------------------------
  // verifyEmail, seen from the row holding the token
  // ---------------------------------------------------------------------------

  /** An expired token is refused and its row stays pending, untouched. */
  lemma VerifyExpiredToken(db: Db, i: nat, token: string, password: string, now: Instant, hash: Hasher)
    requires HoldsEmailTokenAlone(db.users, i, token)
    requires PastExpiry(db.users[i].emailTokenExpiry, now)
    ensures VerifyEmail(db, token, password, now, hash) == Step(Fail(EmailTokenExpired), db)
  {
  }

  /** A live token activates its row: the digest of the password, no token pair, nothing else changed. */
  lemma VerifyLiveToken(db: Db, i: nat, token: string, password: string, now: Instant, hash: Hasher)
    requires HoldsEmailTokenAlone(db.users, i, token)
    requires !PastExpiry(db.users[i].emailTokenExpiry, now)
    ensures var r := VerifyEmail(db, token, password, now, hash);
      && r.reply == Done
      && r.db.nextId == db.nextId && |r.db.users| == |db.users|
      && Verifies(hash, password, r.db.users[i].password)
      && r.db.users[i].emailToken.None? && r.db.users[i].emailTokenExpiry.None?
      && r.db.users[i] == db.users[i].(password := r.db.users[i].password, emailToken := None, emailTokenExpiry := None)
      && forall j :: 0 <= j < |db.users| && j != i ==> r.db.users[j] == db.users[j]
  {
  }

  // ---------------------------------------------------------------------------
  // login
  // ---------------------------------------------------------------------------

  /**
   * The login decision for the row holding the e-mail, one reply at a time.
   * An expiry equal to `now` passes both expiry checks and leaves the
   * decision to the password.
   */
  lemma LoginDecision(db: Db, i: nat, password: string, now: Instant, hash: Hasher, access: string, refresh: string)
    requires WellFormed(db) && i < |db.users|
    ensures var u := db.users[i];
      var r := Login(db, u.email, password, now, hash, access, refresh);
      var clearsExpiry := u.emailTokenExpiry.None? || u.emailTokenExpiry == Some(now);
      && (r.reply == Fail(EmailNotVerified) <==> u.emailTokenExpiry.Some? && now < u.emailTokenExpiry.value)
      && (r.reply == Fail(VerificationExpired) <==> u.emailTokenExpiry.Some? && now > u.emailTokenExpiry.value)
      && (r.reply == Fail(WrongPassword) <==> clearsExpiry && !Verifies(hash, password, u.password))
      && (r.reply == Fail(AlreadyLoggedIn) <==> clearsExpiry && Verifies(hash, password, u.password) && Truthy(u.refreshToken))
      && (r.reply == Tokens(access, refresh) <==> clearsExpiry && Verifies(hash, password, u.password) && !Truthy(u.refreshToken))
      && (r.reply.Tokens? ==> r.db == db.(users := db.users[i := SignedIn(u, refresh)]))
      && (r.reply.Fail? ==> r.db == db)
  {
  }

  /**
   * After a successful login that stored a non-empty refresh token, no
   * second login for that e-mail succeeds. With the same password it is
   * refused as already logged in at any later time when the row is verified
   * (its e-mail expiry cleared). A row that is still pending logged in only
   * at its exact expiry instant; a later login for it is refused as expired,
   * so there already-logged-in is promised at that same instant only.
   */
  lemma SecondLoginRefused(db: Db, email: string, password: string, now: Instant, hash: Hasher,
                           access: string, refresh: string,
                           password2: string, now2: Instant, access2: string, refresh2: string)
    requires WellFormed(db) && refresh != ""
    requires Login(db, email, password, now, hash, access, refresh).reply.Tokens?
    ensures var r := Login(db, email, password, now, hash, access, refresh);
      var r2 := Login(r.db, email, password2, now2, hash, access2, refresh2);
      && r2.reply.Fail? && r2.db == r.db
      && (&& password2 == password
          && (|| now2 == now
              || forall j :: 0 <= j < |db.users| && db.users[j].email == email ==> db.users[j].emailTokenExpiry.None?)
          ==> r2.reply == Fail(AlreadyLoggedIn))
  {
    var r := Login(db, email, password, now, hash, access, refresh);
    var i: nat :| i < |db.users| && db.users[i].email == email && r.db == db.(users := db.users[i := SignedIn(db.users[i], refresh)]);
    LoginKeepsWellFormed(db, email, password, now, hash, access, refresh);
    LoginDecision(r.db, i, password2, now2, hash, access2, refresh2);
  }

  /**
   * A row just registered at `now`: login is refused as unverified within the
   * hour, as expired after it, and at the expiry instant itself reaches the
   * password check, which the empty stored password fails.
   */
  lemma LoginOnFreshRegistration(db: Db, name: string, email: string, now: Instant, token: string, mailOk: bool,
                                 password: string, now2: Instant, hash: Hasher, access: string, refresh: string)
    requires WellFormed(db) && IsHexToken(token)
    requires Register(db, name, email, now, token, mailOk).reply == AfterMail(mailOk)
    ensures var r := Register(db, name, email, now, token, mailOk);
      Login(r.db, email, password, now2, hash, access, refresh).reply ==
        if now2 < now + HOUR then Fail(EmailNotVerified)
        else if now2 > now + HOUR then Fail(VerificationExpired)
        else Fail(WrongPassword)
  {
  }

  /**
   * The whole happy path: register a new e-mail, verify it within the hour,
   * log in and receive the issued pair; a second login, at any later time,
   * is refused as already logged in.
   */
  lemma RegisterVerifyLogin(db: Db, name: string, email: string, token: string, password: string,
                            t0: Instant, t1: Instant, t2: Instant, t3: Instant, hash: Hasher,
                            access: string, refresh: string, access2: string, refresh2: string)
    requires WellFormed(db) && IsHexToken(token) && refresh != ""
    requires forall j :: 0 <= j < |db.users| ==> db.users[j].email != email
    requires forall j :: 0 <= j < |db.users| ==> db.users[j].emailToken != Some(token)
    requires t1 <= t0 + HOUR
    ensures var r1 := Register(db, name, email, t0, token, true);
      var r2 := VerifyEmail(r1.db, token, password, t1, hash);
      var r3 := Login(r2.db, email, password, t2, hash, access, refresh);
      var r4 := Login(r3.db, email, password, t3, hash, access2, refresh2);
      && r1.reply == Done && r2.reply == Done
      && r3.reply == Tokens(access, refresh)
      && r4.reply == Fail(AlreadyLoggedIn)
  {
    var r1 := Register(db, name, email, t0, token, true);
    RegisterNewEmail(db, name, email, t0, token, true);
    RegisterKeepsWellFormed(db, name, email, t0, token, true);
    var k := |r1.db.users| - 1;
    assert HoldsEmailTokenAlone(r1.db.users, k, token);
    var r2 := VerifyEmail(r1.db, token, password, t1, hash);
    VerifyLiveToken(r1.db, k, token, password, t1, hash);
    VerifyEmailKeepsWellFormed(r1.db, token, password, t1, hash);
    assert r2.db.users[k].email == email && r2.db.users[k].emailTokenExpiry.None?;
    assert r2.db.users[k].refreshToken.None?;
    LoginDecision(r2.db, k, password, t2, hash, access, refresh);
    SecondLoginRefused(r2.db, email, password, t2, hash, access, refresh, password, t3, access2, refresh2);
  }

  // ---------------------------------------------------------------------------
  // findPassword and resetPassword
  // ---------------------------------------------------------------------------

  /** findPassword stamps the named row with the new reset token and an hour, and changes nothing else. */
  lemma FindPasswordStamps(db: Db, i: nat, now: Instant, token: string, mailOk: bool)
    requires WellFormed(db) && i < |db.users| && IsHexToken(token)
    ensures var u := db.users[i];
      var r := FindPassword(db, u.name, u.email, now, token, mailOk);
      && r.reply == AfterMail(mailOk)
      && r.db.nextId == db.nextId && |r.db.users| == |db.users|
      && r.db.users[i] == u.(resetPasswordToken := Some(token), resetPasswordExpiry := Some(now + HOUR))
      && forall j :: 0 <= j < |db.users| && j != i ==> r.db.users[j] == db.users[j]
  {
  }

  /** A second findPassword overwrites the first: the earlier reset link stops working. */
  lemma FindPasswordTwiceRevokesFirst(db: Db, name: string, email: string, now: Instant, now2: Instant,
                                      token: string, token2: string, newPassword: string, now3: Instant, hash: Hasher)
    requires WellFormed(db) && IsHexToken(token) && IsHexToken(token2) && token != token2
    requires forall j :: 0 <= j < |db.users| ==> db.users[j].resetPasswordToken != Some(token)
    ensures var r := FindPassword(db, name, email, now, token, true);
      var r2 := FindPassword(r.db, name, email, now2, token2, true);
      ResetPassword(r2.db, token, newPassword, now3, hash) == Step(Fail(InvalidResetToken), r2.db)
  {
  }

  /** An expired reset token is refused and the password is left as it was. */
  lemma ResetWithExpiredToken(db: Db, i: nat, token: string, newPassword: string, now: Instant, hash: Hasher)
    requires HoldsResetTokenAlone(db.users, i, token)
    requires PastExpiry(db.users[i].resetPasswordExpiry, now)
    ensures var r := ResetPassword(db, token, newPassword, now, hash);
      r == Step(Fail(ResetTokenExpired), db) && r.db.users[i].password == db.users[i].password
  {
  }

  /**
   * The reset flow on an active row with no session: after findPassword and
   * resetPassword within the hour, login accepts the new password and no
   * longer accepts an old one with a different digest.
   */
  lemma ResetThenLogin(db: Db, i: nat, now: Instant, token: string, newPassword: string, now2: Instant,
                       oldPassword: string, now3: Instant, hash: Hasher, access: string, refresh: string)
    requires WellFormed(db) && i < |db.users| && IsHexToken(token)
    requires forall j :: 0 <= j < |db.users| ==> db.users[j].resetPasswordToken != Some(token)
    requires db.users[i].emailTokenExpiry.None? && !Truthy(db.users[i].refreshToken)
    requires now2 <= now + HOUR && hash(oldPassword) != hash(newPassword)
    ensures var u := db.users[i];
      var r := FindPassword(db, u.name, u.email, now, token, true);
      var r2 := ResetPassword(r.db, token, newPassword, now2, hash);
      && r2.reply == Done
      && Login(r2.db, u.email, newPassword, now3, hash, access, refresh).reply == Tokens(access, refresh)
      && Login(r2.db, u.email, oldPassword, now3, hash, access, refresh).reply == Fail(WrongPassword)
  {
    var u := db.users[i];
    var r := FindPassword(db, u.name, u.email, now, token, true);
    FindPasswordStamps(db, i, now, token, true);
    FindPasswordKeepsWellFormed(db, u.name, u.email, now, token, true);
    assert HoldsResetTokenAlone(r.db.users, i, token);
    var r2 := ResetPassword(r.db, token, newPassword, now2, hash);
    ResetPasswordKeepsWellFormed(r.db, token, newPassword, now2, hash);
    assert r2.db.users[i] == PasswordReplaced(r.db.users[i], hash(newPassword));
    LoginDecision(r2.db, i, newPassword, now3, hash, access, refresh);
    LoginDecision(r2.db, i, oldPassword, now3, hash, access, refresh);
  }

  /**
   * Nothing stops the reset flow on a row whose registration is still
   * pending: the row then has a password digest and its e-mail token pair
   * at once, and at the instant its verification expires login accepts that
   * password without the e-mail ever having been verified.
   */
  lemma ResetOnPendingRegistration(db: Db, name: string, email: string, now: Instant, token: string,
                                   resetToken: string, password: string, hash: Hasher,
                                   access: string, refresh: string)
    requires WellFormed(db) && IsHexToken(token) && IsHexToken(resetToken)
    requires forall j :: 0 <= j < |db.users| ==> db.users[j].email != email
    requires forall j :: 0 <= j < |db.users| ==> db.users[j].resetPasswordToken != Some(resetToken)
    ensures var r1 := Register(db, name, email, now, token, true);
      var r2 := FindPassword(r1.db, name, email, now, resetToken, true);
      var r3 := ResetPassword(r2.db, resetToken, password, now, hash);
      var k := |r3.db.users| - 1;
      && r3.reply == Done
      && r3.db.users[k].email == email
      && r3.db.users[k].emailToken == Some(token)
      && Verifies(hash, password, r3.db.users[k].password)
      && Login(r3.db, email, password, now + HOUR, hash, access, refresh).reply == Tokens(access, refresh)
  {
    var r1 := Register(db, name, email, now, token, true);
    RegisterNewEmail(db, name, email, now, token, true);
    RegisterKeepsWellFormed(db, name, email, now, token, true);
    var k := |r1.db.users| - 1;
    var r2 := FindPassword(r1.db, name, email, now, resetToken, true);
    FindPasswordStamps(r1.db, k, now, resetToken, true);
    FindPasswordKeepsWellFormed(r1.db, name, email, now, resetToken, true);
    assert HoldsResetTokenAlone(r2.db.users, k, resetToken);
    var r3 := ResetPassword(r2.db, resetToken, password, now, hash);
    ResetPasswordKeepsWellFormed(r2.db, resetToken, password, now, hash);
    assert r3.db.users[k] == PasswordReplaced(r2.db.users[k], hash(password));
    LoginDecision(r3.db, k, password, now + HOUR, hash, access, refresh);
  }
}
