/**
 * The account lifecycle of `AuthController` as pure transition functions:
 * each handler takes the repository as it finds it and returns the reply it
 * sends together with the repository as it leaves it.
 *
 * Collaborators become parameters: the clock is `now`, the random token is
 * `token`, bcrypt is the function `hash` (a digest matches a password when it
 * is that password's hash), the JWT issuer's outputs are `access` and
 * `refresh`, and the mail transport's success is `mailOk`.
 */
module AuthLifecycle {
  import opened UserStore

  /** The distinct rejections the handlers answer with. */
  datatype AuthError =
    | PendingVerification   // register: a pending registration is still open
    | AlreadyRegistered     // register: the e-mail belongs to an active account
    | InvalidEmailToken     // verifyEmail: no row holds the token
    | EmailTokenExpired     // verifyEmail: the token's hour has passed
    | UserNotFound          // login, findPassword: no matching row
    | EmailNotVerified      // login: verification still pending
    | VerificationExpired   // login: verification window missed
    | WrongPassword         // login: password does not match the digest
    | AlreadyLoggedIn       // login: a refresh token is already stored
    | InvalidResetToken     // resetPassword: no row holds the token
    | ResetTokenExpired     // resetPassword: the token's hour has passed
    | ServerError           // the mail transport failed

  /** What a handler answers: plain success, the issued token pair, or a rejection. */
  datatype Reply =
    | Done
    | Tokens(accessToken: string, refreshToken: string)
    | Fail(error: AuthError)

  datatype Step = Step(reply: Reply, db: Db)

  /** A bcrypt digest: never the empty string. */
  type Digest = s: string | s != "" witness "$2b$"

  /** bcrypt's `hash(plain, 10)`. */
  type Hasher = string -> Digest

  /** `bcrypt.compare(plain, digest)`. */
  predicate Verifies(hash: Hasher, plain: string, digest: string) {
    digest == hash(plain)
  }

  /** `crypto.randomBytes(32).toString('hex')`: 64 lower-case hexadecimal digits. */
  predicate IsHexToken(t: string) {
    |t| == 64 && forall k :: 0 <= k < |t| ==> t[k] in "0123456789abcdef"
  }

  /** The register-time check for an unverified row: a truthy token and an expiry. */
  predicate Pending(u: User) {
    Truthy(u.emailToken) && u.emailTokenExpiry.Some?
  }

  /** `expiry && currentTime > expiry`: strictly after a set expiry. */
  predicate PastExpiry(expiry: Option<Instant>, now: Instant) {
    expiry.Some? && now > expiry.value
  }

  /** `expiry && currentTime < expiry`: strictly before a set expiry. */
  predicate BeforeExpiry(expiry: Option<Instant>, now: Instant) {
    expiry.Some? && now < expiry.value
  }

  /** The row `userRepository.create` builds in register. */
  function NewPending(id: nat, name: string, email: string, token: string, expiry: Instant): User {
    User(id, name, email, "", Student, Some(token), Some(expiry), None, None, None)
  }

  /** The writes of a successful verifyEmail. */
  function Activated(u: User, digest: string): User {
    u.(password := digest, emailToken := None, emailTokenExpiry := None)
  }

  /** The write of a successful login. */
  function SignedIn(u: User, refresh: string): User {
    u.(refreshToken := Some(refresh))
  }

  /** The writes of findPassword. */
  function ResetStamped(u: User, token: string, expiry: Instant): User {
    u.(resetPasswordToken := Some(token), resetPasswordExpiry := Some(expiry))
  }

  /** The writes of a successful resetPassword. */
  function PasswordReplaced(u: User, digest: string): User {
    u.(password := digest, resetPasswordToken := None, resetPasswordExpiry := None)
  }

  /** The reply once the row is saved and the mail transport has been called. */
  function AfterMail(mailOk: bool): Reply {
    if mailOk then Done else Fail(ServerError)
  }

  /**
   * register(name, email): reject an open or completed registration, drop an
   * expired one, then add one pending row whose token lives for an hour.
   */
  function Register(db: Db, name: string, email: string, now: Instant, token: string, mailOk: bool): (r: Step)
    requires IsHexToken(token)
    ensures r.reply == Fail(PendingVerification) || r.reply == Fail(AlreadyRegistered) || r.reply == AfterMail(mailOk)
    ensures r.reply.Fail? && r.reply.error != ServerError ==> r.db == db
    ensures r.reply == AfterMail(mailOk) ==>
      && r.db.nextId == db.nextId + 1
      && |r.db.users| > 0
      && r.db.users[|r.db.users| - 1] == NewPending(db.nextId, name, email, token, now + HOUR)
      && ((&& r.db.users == db.users + [r.db.users[|r.db.users| - 1]]
           && forall j :: 0 <= j < |db.users| ==> db.users[j].email != email)
          || exists i :: && 0 <= i < |db.users|
                         && db.users[i].email == email && Pending(db.users[i])
                         && now >= db.users[i].emailTokenExpiry.value
                         && r.db.users == RemoveAt(db.users, i) + [r.db.users[|r.db.users| - 1]])
  {
    var row := NewPending(db.nextId, name, email, token, now + HOUR);
    match FindOne(db.users, ByEmail(email))
    case None =>
      Step(AfterMail(mailOk), Db(db.users + [row], db.nextId + 1))
    case Some(i) =>
      var u := db.users[i];
      if Pending(u) then
        if now < u.emailTokenExpiry.value then Step(Fail(PendingVerification), db)
        else Step(AfterMail(mailOk), Db(RemoveAt(db.users, i) + [row], db.nextId + 1))
      else Step(Fail(AlreadyRegistered), db)
  }

  /**
   * verifyEmail(emailToken, password): the row holding the token, unless its
   * expiry has passed, gets the password's digest and loses its token pair.
   */
  function VerifyEmail(db: Db, token: string, password: string, now: Instant, hash: Hasher): (r: Step)
    ensures r.reply == Done || r.reply == Fail(InvalidEmailToken) || r.reply == Fail(EmailTokenExpired)
    ensures r.reply.Fail? ==> r.db == db
    ensures r.reply == Fail(InvalidEmailToken) <==>
      forall j :: 0 <= j < |db.users| ==> db.users[j].emailToken != Some(token)
    ensures r.reply == Fail(EmailTokenExpired) ==>
      exists i :: && 0 <= i < |db.users| && db.users[i].emailToken == Some(token)
                  && PastExpiry(db.users[i].emailTokenExpiry, now)
    ensures r.reply == Done ==>
      exists i :: && 0 <= i < |db.users| && db.users[i].emailToken == Some(token)
                  && !PastExpiry(db.users[i].emailTokenExpiry, now)
                  && r.db == db.(users := db.users[i := Activated(db.users[i], hash(password))])
  {
    match FindOne(db.users, ByEmailToken(token))
    case None => Step(Fail(InvalidEmailToken), db)
    case Some(i) =>
      var u := db.users[i];
      if PastExpiry(u.emailTokenExpiry, now) then Step(Fail(EmailTokenExpired), db)
      else Step(Done, db.(users := db.users[i := Activated(u, hash(password))]))
  }

  /**
   * login(email, password): not found, still pending, verification expired,
   * wrong password and already logged in are checked in that order; otherwise
   * the refresh token is stored and the issued pair returned.
   */
  function Login(db: Db, email: string, password: string, now: Instant, hash: Hasher,
                 access: string, refresh: string): (r: Step)
    ensures r.reply.Fail? ==> r.db == db
    ensures r.reply.Fail? || r.reply == Tokens(access, refresh)
    ensures r.reply == Fail(UserNotFound) <==>
      forall j :: 0 <= j < |db.users| ==> db.users[j].email != email
    ensures r.reply.Tokens? ==>
      exists i :: && 0 <= i < |db.users| && db.users[i].email == email
                  && (db.users[i].emailTokenExpiry.None? || db.users[i].emailTokenExpiry == Some(now))
                  && Verifies(hash, password, db.users[i].password)
                  && !Truthy(db.users[i].refreshToken)
                  && r.db == db.(users := db.users[i := SignedIn(db.users[i], refresh)])
  {
    match FindOne(db.users, ByEmail(email))
    case None => Step(Fail(UserNotFound), db)
    case Some(i) =>
      var u := db.users[i];
      if BeforeExpiry(u.emailTokenExpiry, now) then Step(Fail(EmailNotVerified), db)
      else if PastExpiry(u.emailTokenExpiry, now) then Step(Fail(VerificationExpired), db)
      else if !Verifies(hash, password, u.password) then Step(Fail(WrongPassword), db)
      else if Truthy(u.refreshToken) then Step(Fail(AlreadyLoggedIn), db)
      else Step(Tokens(access, refresh), db.(users := db.users[i := SignedIn(u, refresh)]))
  }

  /**
   * findPassword(name, email): the row matching both gets a new reset token
   * with an hour to live, whatever reset token it held before.
   */
  function FindPassword(db: Db, name: string, email: string, now: Instant, token: string, mailOk: bool): (r: Step)
    requires IsHexToken(token)
    ensures r.reply == Fail(UserNotFound) || r.reply == AfterMail(mailOk)
    ensures r.reply == Fail(UserNotFound) <==>
      forall j :: 0 <= j < |db.users| ==> !(db.users[j].name == name && db.users[j].email == email)
    ensures r.reply == Fail(UserNotFound) ==> r.db == db
    ensures r.reply == AfterMail(mailOk) ==>
      exists i :: && 0 <= i < |db.users| && db.users[i].name == name && db.users[i].email == email
                  && r.db == db.(users := db.users[i := ResetStamped(db.users[i], token, now + HOUR)])
  {
    match FindOne(db.users, ByNameAndEmail(name, email))
    case None => Step(Fail(UserNotFound), db)
    case Some(i) =>
      Step(AfterMail(mailOk), db.(users := db.users[i := ResetStamped(db.users[i], token, now + HOUR)]))
  }

  /**
   * resetPassword(resetPasswordToken, newPassword): the row holding the
   * token, unless its expiry has passed, gets the new password's digest and
   * loses its reset pair.
   */
  function ResetPassword(db: Db, token: string, newPassword: string, now: Instant, hash: Hasher): (r: Step)
    ensures r.reply == Done || r.reply == Fail(InvalidResetToken) || r.reply == Fail(ResetTokenExpired)
    ensures r.reply.Fail? ==> r.db == db
    ensures r.reply == Fail(InvalidResetToken) <==>
      forall j :: 0 <= j < |db.users| ==> db.users[j].resetPasswordToken != Some(token)
    ensures r.reply == Fail(ResetTokenExpired) ==>
      exists i :: && 0 <= i < |db.users| && db.users[i].resetPasswordToken == Some(token)
                  && PastExpiry(db.users[i].resetPasswordExpiry, now)
    ensures r.reply == Done ==>
      exists i :: && 0 <= i < |db.users| && db.users[i].resetPasswordToken == Some(token)
                  && !PastExpiry(db.users[i].resetPasswordExpiry, now)
                  && r.db == db.(users := db.users[i := PasswordReplaced(db.users[i], hash(newPassword))])
  {
    match FindOne(db.users, ByResetToken(token))
    case None => Step(Fail(InvalidResetToken), db)
    case Some(i) =>
      var u := db.users[i];
      if PastExpiry(u.resetPasswordExpiry, now) then Step(Fail(ResetTokenExpired), db)
      else Step(Done, db.(users := db.users[i := PasswordReplaced(u, hash(newPassword))]))
  }
}
