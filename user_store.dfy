/**
 * The user records the authentication controller works on, and the few
 * repository operations it uses: `findOne` with a `where` clause, `remove`,
 * and `create` followed by `save`.
 *
 * The repository is a sequence of rows in insertion order together with the
 * next auto-generated primary key, so that `findOne` has a definite answer:
 * the first row that matches.
 */
module UserStore {

  datatype Option<T> = None | Some(value: T)

  /** Role tags. Only the lowest-privilege tag, STUDENT, is used by the core. */
  datatype Role = Student | OtherRole

  /** An instant on an integer clock, in milliseconds. */
  type Instant = nat

  /** One hour on that clock; `setHours(getHours() + 1)` adds it. */
  const HOUR: nat := 3_600_000

  /** A user row. A `null` column is `None`. */
  datatype User = User(
    id: nat,
    name: string,
    email: string,
    password: string,
    role: Role,
    emailToken: Option<string>,
    emailTokenExpiry: Option<Instant>,
    resetPasswordToken: Option<string>,
    resetPasswordExpiry: Option<Instant>,
    refreshToken: Option<string>)

  /** The repository: its rows, oldest first, and the next primary key. */
  datatype Db = Db(users: seq<User>, nextId: nat)

  /** JavaScript truthiness of a nullable string column: `null` and `""` are falsy. */
  predicate Truthy(s: Option<string>) {
    s.Some? && s.value != ""
  }

  /** The four `where` clauses the controller passes to `findOne`. */
  datatype Query =
    | ByEmail(email: string)
    | ByEmailToken(token: string)
    | ByNameAndEmail(name: string, email: string)
    | ByResetToken(token: string)

  predicate Matches(u: User, q: Query) {
    match q
    case ByEmail(e) => u.email == e
    case ByEmailToken(t) => u.emailToken == Some(t)
    case ByNameAndEmail(n, e) => u.name == n && u.email == e
    case ByResetToken(t) => u.resetPasswordToken == Some(t)
  }

  /** `repository.findOne({ where })`: the index of the first matching row, if any. */
  function FindOne(users: seq<User>, q: Query): (r: Option<nat>)
    ensures r.Some? ==> r.value < |users| && Matches(users[r.value], q)
    ensures r.Some? ==> forall j :: 0 <= j < r.value ==> !Matches(users[j], q)
    ensures r.None? <==> forall j :: 0 <= j < |users| ==> !Matches(users[j], q)
  {
    if |users| == 0 then None
    else if Matches(users[0], q) then Some(0)
    else
      match FindOne(users[1..], q)
      case None => None
      case Some(k) => Some(k + 1)
  }

  /** `repository.remove(user)`: the row at `i` disappears, the others keep their order. */
  function RemoveAt(users: seq<User>, i: nat): (r: seq<User>)
    requires i < |users|
    ensures |r| + 1 == |users|
    ensures forall j :: 0 <= j < i ==> r[j] == users[j]
    ensures forall j :: i <= j < |r| ==> r[j] == users[j + 1]
  {
    users[..i] + users[i + 1..]
  }

  /** A token column and its expiry column are set or cleared together. */
  predicate Paired(u: User) {
    && (u.emailToken.Some? <==> u.emailTokenExpiry.Some?)
    && (u.resetPasswordToken.Some? <==> u.resetPasswordExpiry.Some?)
  }

  /**
   * The repository invariant: e-mail addresses are unique, primary keys
   * increase along the rows and stay below the next key, and every row
   * keeps its token columns paired with their expiry columns.
   */
  predicate WellFormed(db: Db) {
    && (forall i, j :: 0 <= i < j < |db.users| ==> db.users[i].email != db.users[j].email)
    && (forall i, j :: 0 <= i < j < |db.users| ==> db.users[i].id < db.users[j].id)
    && (forall i :: 0 <= i < |db.users| ==> db.users[i].id < db.nextId && Paired(db.users[i]))
  }

  /** Under the invariant, the row `findOne` returns for an e-mail is the one holding it. */
  lemma FindByEmail(db: Db, i: nat)
    requires WellFormed(db) && i < |db.users|
    ensures FindOne(db.users, ByEmail(db.users[i].email)) == Some(i)
  {
  }
}
