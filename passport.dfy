/**
 * data/passport.js: the local-strategy verify callback, the session
 * serializer and deserializer, and the stand-in `User` store that the file
 * installs when the real model cannot be loaded.
 *
 * The store is abstract: `findOne` is the lookup by e-mail, `findById` the
 * lookup by id, and `compare` stands for an account's own `comparePassword`
 * (consulted only when the account has one). Each may fail, which models a
 * rejected promise.
 */
module Passport {
  import opened Wrappers
  import opened Text

  /** A user record as the verify callback sees it. */
  datatype Account = Account(
    id: string,
    username: string,
    email: string,
    password: Option<string>,
    hasComparator: bool)

  /** Outcome of a store lookup. */
  datatype Lookup = Found(account: Account) | Missing | LookupFailed(cause: string)

  /** Outcome of `comparePassword`. */
  datatype Comparison = Compared(isMatch: bool) | CompareFailed(cause: string)

  /**
   * The three ways the verify callback can call `done`: `done(null, user)`,
   * `done(null, false, { message })` and `done(error)`.
   */
  datatype Verdict = Authenticated(user: Account) | Rejected(message: string) | Failed(cause: string)

  const InvalidCredentialsMessage := "Invalid email or password"

  /** The password accepted for an account without `comparePassword`. */
  const FallbackPassword := "password123"

  /** Whether `password` matches `user` by the rule the callback applies: the account's own
      `comparePassword` when it has one, otherwise equality with the fallback password. */
  function PasswordCheck(compare: (Account, string) -> Comparison, user: Account, password: string): Comparison {
    if user.hasComparator then compare(user, password) else Compared(password == FallbackPassword)
  }

  /** The local-strategy verify callback. */
  function VerifyLocal(
    findOne: string -> Lookup,
    compare: (Account, string) -> Comparison,
    email: string,
    password: string): (v: Verdict)
    ensures v.Rejected? ==> v.message == InvalidCredentialsMessage
    ensures v.Authenticated? ==> findOne(ToLower(email)) == Found(v.user)
    ensures v.Authenticated? && v.user.hasComparator ==> compare(v.user, password) == Compared(true)
    ensures v.Authenticated? && !v.user.hasComparator ==> password == FallbackPassword
  {
    match findOne(ToLower(email))
    case LookupFailed(cause) => Failed(cause)
    case Missing => Rejected(InvalidCredentialsMessage)
    case Found(user) =>
      match PasswordCheck(compare, user, password)
      case CompareFailed(cause) => Failed(cause)
      case Compared(ok) => if ok then Authenticated(user) else Rejected(InvalidCredentialsMessage)
  }

  /** The lookup uses the lower-cased e-mail: submitting it lower-cased already changes nothing. */
  lemma VerifyLowercasesEmail(
    findOne: string -> Lookup, compare: (Account, string) -> Comparison,
    email: string, password: string)
    ensures VerifyLocal(findOne, compare, email, password)
         == VerifyLocal(findOne, compare, ToLower(email), password)
  {
    ToLowerIdempotent(email);
  }

  /** Logins whose e-mails differ only in the case of ASCII letters are decided alike. */
  lemma VerifyIgnoresEmailCase(
    findOne: string -> Lookup, compare: (Account, string) -> Comparison,
    email1: string, email2: string, password: string)
    requires ToLower(email1) == ToLower(email2)
    ensures VerifyLocal(findOne, compare, email1, password)
         == VerifyLocal(findOne, compare, email2, password)
  {
  }

  /** The full decision table of the callback. */
  lemma VerifyOutcomes(
    findOne: string -> Lookup, compare: (Account, string) -> Comparison,
    email: string, password: string)
    ensures var v := VerifyLocal(findOne, compare, email, password);
            var found := findOne(ToLower(email));
            && (found == Missing ==> v == Rejected(InvalidCredentialsMessage))
            && (found.LookupFailed? ==> v == Failed(found.cause))
            && (found.Found? ==>
                  match PasswordCheck(compare, found.account, password)
                  case CompareFailed(cause) => v == Failed(cause)
                  case Compared(ok) =>
                    v == if ok then Authenticated(found.account) else Rejected(InvalidCredentialsMessage))
  {
  }

  /** A store that knows no user at all. */
  function NoUsers(email: string): Lookup {
    Missing
  }

  /**
   * A wrong password for an existing account gets exactly the answer an
   * unknown e-mail gets, so the two cannot be told apart.
   */
  lemma WrongPasswordLooksLikeUnknownUser(
    findOne: string -> Lookup, compare: (Account, string) -> Comparison,
    email: string, password: string)
    requires findOne(ToLower(email)).Found?
    requires PasswordCheck(compare, findOne(ToLower(email)).account, password) == Compared(false)
    ensures VerifyLocal(findOne, compare, email, password) == VerifyLocal(NoUsers, compare, email, password)
    ensures VerifyLocal(NoUsers, compare, email, password) == Rejected(InvalidCredentialsMessage)
  {
  }

  /** An account without `comparePassword` is accepted iff the password is the fixed fallback one. */
  lemma FallbackPasswordDecides(
    findOne: string -> Lookup, compare: (Account, string) -> Comparison,
    email: string, password: string)
    requires findOne(ToLower(email)).Found? && !findOne(ToLower(email)).account.hasComparator
    ensures VerifyLocal(findOne, compare, email, password)
         == if password == FallbackPassword then Authenticated(findOne(ToLower(email)).account)
            else Rejected(InvalidCredentialsMessage)
  {
  }

  /** `serializeUser`: only the id goes into the session. */
  function Serialize(user: Account): string {
    user.id
  }

  /** `deserializeUser`: the session id is looked up again on every request. */
  function Deserialize(findById: string -> Lookup, id: string): Lookup {
    findById(id)
  }

  /** Two users with the same id are indistinguishable once serialized. */
  lemma SessionKeepsOnlyTheId(findById: string -> Lookup, u1: Account, u2: Account)
    requires u1.id == u2.id
    ensures Deserialize(findById, Serialize(u1)) == Deserialize(findById, Serialize(u2))
  {
  }

  // A store backed by a table of accounts.

  function AccountId(a: Account): string { a.id }
  function AccountEmail(a: Account): string { a.email }

  /** No two accounts agree on `field`. */
  ghost predicate UniqueBy(table: seq<Account>, field: Account -> string) {
    forall i, j :: 0 <= i < j < |table| ==> field(table[i]) != field(table[j])
  }

  /** `findOne({ email })` and `findById(id)` over a table: the first account whose `field` is `value`. */
  function FindAccount(table: seq<Account>, field: Account -> string, value: string): (r: Lookup)
    ensures r.Found? ==> r.account in table && field(r.account) == value
    ensures r.Missing? <==> forall i :: 0 <= i < |table| ==> field(table[i]) != value
    ensures !r.LookupFailed?
  {
    if table == [] then Missing
    else if field(table[0]) == value then Found(table[0])
    else FindAccount(table[1..], field, value)
  }

  /** When `field` is unique, looking an account's value up finds exactly that account. */
  lemma {:induction false} FindAccountUnique(table: seq<Account>, field: Account -> string, k: nat)
    requires UniqueBy(table, field) && k < |table|
    ensures FindAccount(table, field, field(table[k])) == Found(table[k])
  {
    if field(table[0]) != field(table[k]) {
      assert k > 0;
      assert UniqueBy(table[1..], field);
      assert table[1..][k - 1] == table[k];
      FindAccountUnique(table[1..], field, k - 1);
    } else {
      assert k == 0;
    }
  }

  /** Serializing a stored user and deserializing the id gives back that user. */
  lemma SessionRoundTrip(table: seq<Account>, user: Account)
    requires UniqueBy(table, AccountId) && user in table
    ensures Deserialize(id => FindAccount(table, AccountId, id), Serialize(user)) == Found(user)
  {
    var k :| 0 <= k < |table| && table[k] == user;
    FindAccountUnique(table, AccountId, k);
  }

  // The stand-in `User` used when the model cannot be loaded.

  /** The one user the stand-in `findOne` knows. */
  const MockTestUser := Account("1", "testuser", "test@test.com", None, true)

  /** Stand-in `findOne`: a user only for the e-mail test@test.com. */
  function MockFindOne(email: string): (r: Lookup)
    ensures r.Found? <==> email == "test@test.com"
    ensures r.Found? ==> r.account == MockTestUser
    ensures !r.LookupFailed?
  {
    if email == "test@test.com" then Found(MockTestUser) else Missing
  }

  /** The stand-in user's `comparePassword`. */
  function MockCompare(user: Account, password: string): (c: Comparison)
    ensures c == Compared(password == FallbackPassword)
  {
    Compared(password == FallbackPassword)
  }

  /** Stand-in `findById`: a fresh comparator-less user with the requested id, for any id. */
  function MockFindById(id: string): (r: Lookup)
    ensures r.Found? && r.account.id == id && !r.account.hasComparator
  {
    Found(Account(id, "testuser", "test@test.com", None, false))
  }

  /** Against the stand-in store, exactly test@test.com (in any case) with password123 logs in. */
  lemma MockLogin(email: string, password: string)
    ensures VerifyLocal(MockFindOne, MockCompare, email, password).Authenticated?
        <==> ToLower(email) == "test@test.com" && password == FallbackPassword
    ensures VerifyLocal(MockFindOne, MockCompare, email, password).Authenticated?
        ==> VerifyLocal(MockFindOne, MockCompare, email, password).user == MockTestUser
  {
  }

  /**
   * The stand-in session round trip keeps the id but not the account: the
   * deserialized test user has lost its `comparePassword`.
   */
  lemma MockSessionRoundTrip(user: Account)
    ensures Deserialize(MockFindById, Serialize(user)).account.id == user.id
    ensures Deserialize(MockFindById, Serialize(MockTestUser)) != Found(MockTestUser)
  {
  }
}
