/**
 * `AuthController` as an object that owns the user repository. Each handler
 * reads a row, checks it, and writes the row back in place (or removes and
 * creates rows), exactly as the controller does; each method is proved
 * against the transition function of the same name in AuthLifecycle, and
 * keeps the repository invariant.
 */
module Controllers {
  import opened UserStore
  import opened AuthLifecycle
  import AuthProperties

  class AuthController {
    /** The rows of the user repository, oldest first. */
    var users: seq<User>
    /** The next auto-generated primary key. */
    var nextId: nat
    /** The password hasher (bcrypt). */
    const hash: Hasher

    function State(): Db
      reads this
    {
      Db(users, nextId)
    }

    ghost predicate Valid()
      reads this
    {
      WellFormed(State())
    }

    /** A controller over an empty repository. */
    constructor (hash: Hasher)
      ensures Valid() && users == [] && nextId == 0 && this.hash == hash
    {
      users := [];
      nextId := 0;
      this.hash := hash;
    }

    method Register(name: string, email: string, now: Instant, token: string, mailOk: bool) returns (reply: Reply)
      requires Valid() && IsHexToken(token)
      modifies this
      ensures Valid()
      ensures Step(reply, State()) == AuthLifecycle.Register(old(State()), name, email, now, token, mailOk)
    {
      AuthProperties.RegisterKeepsWellFormed(State(), name, email, now, token, mailOk);
      var found := FindOne(users, ByEmail(email));
      if found.Some? {
        var findUser := users[found.value];
        if Pending(findUser) {
          if now < findUser.emailTokenExpiry.value {
            return Fail(PendingVerification);
          }
          users := RemoveAt(users, found.value);
        } else {
          return Fail(AlreadyRegistered);
        }
      }
      var user := NewPending(nextId, name, email, token, now + HOUR);
      users := users + [user];
      nextId := nextId + 1;
      if !mailOk {
        return Fail(ServerError);
      }
      return Done;
    }

    method VerifyEmail(emailToken: string, password: string, now: Instant) returns (reply: Reply)
      requires Valid()
      modifies this
      ensures Valid()
      ensures Step(reply, State()) == AuthLifecycle.VerifyEmail(old(State()), emailToken, password, now, hash)
    {
      AuthProperties.VerifyEmailKeepsWellFormed(State(), emailToken, password, now, hash);
      var found := FindOne(users, ByEmailToken(emailToken));
      if found.None? {
        return Fail(InvalidEmailToken);
      }
      var user := users[found.value];
      if PastExpiry(user.emailTokenExpiry, now) {
        return Fail(EmailTokenExpired);
      }
      var hashedPassword := hash(password);
      user := user.(password := hashedPassword, emailToken := None, emailTokenExpiry := None);
      users := users[found.value := user];
      return Done;
    }

    method Login(email: string, password: string, now: Instant, access: string, refresh: string) returns (reply: Reply)
      requires Valid()
      modifies this
      ensures Valid()
      ensures Step(reply, State()) == AuthLifecycle.Login(old(State()), email, password, now, hash, access, refresh)
    {
      AuthProperties.LoginKeepsWellFormed(State(), email, password, now, hash, access, refresh);
      var found := FindOne(users, ByEmail(email));
      if found.None? {
        return Fail(UserNotFound);
      }
      var user := users[found.value];
      if BeforeExpiry(user.emailTokenExpiry, now) {
        return Fail(EmailNotVerified);
      }
      if PastExpiry(user.emailTokenExpiry, now) {
        return Fail(VerificationExpired);
      }
      var isValidPassword := Verifies(hash, password, user.password);
      if !isValidPassword {
        return Fail(WrongPassword);
      }
      if Truthy(user.refreshToken) {
        return Fail(AlreadyLoggedIn);
      }
      user := user.(refreshToken := Some(refresh));
      users := users[found.value := user];
      return Tokens(access, refresh);
    }

    method FindPassword(name: string, email: string, now: Instant, token: string, mailOk: bool) returns (reply: Reply)
      requires Valid() && IsHexToken(token)
      modifies this
      ensures Valid()
      ensures Step(reply, State()) == AuthLifecycle.FindPassword(old(State()), name, email, now, token, mailOk)
    {
      AuthProperties.FindPasswordKeepsWellFormed(State(), name, email, now, token, mailOk);
      var found := FindOne(users, ByNameAndEmail(name, email));
      if found.None? {
        return Fail(UserNotFound);
      }
      var user := users[found.value];
      user := user.(resetPasswordToken := Some(token), resetPasswordExpiry := Some(now + HOUR));
      users := users[found.value := user];
      if !mailOk {
        return Fail(ServerError);
      }
      return Done;
    }

    method ResetPassword(resetPasswordToken: string, newPassword: string, now: Instant) returns (reply: Reply)
      requires Valid()
      modifies this
      ensures Valid()
      ensures Step(reply, State()) == AuthLifecycle.ResetPassword(old(State()), resetPasswordToken, newPassword, now, hash)
    {
      AuthProperties.ResetPasswordKeepsWellFormed(State(), resetPasswordToken, newPassword, now, hash);
      var found := FindOne(users, ByResetToken(resetPasswordToken));
      if found.None? {
        return Fail(InvalidResetToken);
      }
      var user := users[found.value];
      if PastExpiry(user.resetPasswordExpiry, now) {
        return Fail(ResetTokenExpired);
      }
      var hashedPassword := hash(newPassword);
      user := user.(password := hashedPassword, resetPasswordToken := None, resetPasswordExpiry := None);
      users := users[found.value := user];
      return Done;
    }
  }

  /**
   * A client of the controller: on a fresh repository, register an address,
   * verify it a minute later, log in, and try to log in again a minute after.
   */
  method HappyPath(hash: Hasher, token: string, password: string,
                   access: string, refresh: string, access2: string, refresh2: string)
    returns (registered: Reply, verified: Reply, first: Reply, second: Reply)
    requires IsHexToken(token) && refresh != ""
    ensures registered == Done && verified == Done
    ensures first == Tokens(access, refresh)
    ensures second == Fail(AlreadyLoggedIn)
  {
    var controller := new AuthController(hash);
    ghost var db0 := controller.State();
    registered := controller.Register("Alice", "a@x.com", 0, token, true);
    verified := controller.VerifyEmail(token, password, 60_000);
    first := controller.Login("a@x.com", password, 120_000, access, refresh);
    second := controller.Login("a@x.com", password, 180_000, access2, refresh2);
    AuthProperties.RegisterVerifyLogin(db0, "Alice", "a@x.com", token, password, 0, 60_000, 120_000, 180_000, hash,
                                       access, refresh, access2, refresh2);
  }
}
