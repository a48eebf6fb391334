/**
 * routes/auth.js: registration, local login, logout, the current-identity
 * endpoint and the OAuth failure endpoint, over an in-memory account table
 * and one session.
 *
 * The session holds what `serializeUser` stores, the user's id; the request
 * user is that id looked up again in the table. express-validator's
 * `isEmail` and `normalizeEmail` are library code and come in as parameters.
 */
module AuthRoutes {
  import opened Wrappers
  import opened AuthGuards
  import opened Passport

  /** The JSON (or plain-text) answer of an auth endpoint. */
  datatype AuthReply = AuthReply(
    status: nat,
    success: bool,
    message: string,
    user: Option<Account>,
    errors: seq<FieldError>)

  /** The fields of a registration body; an absent field reads as the empty string. */
  datatype RegisterBody = RegisterBody(username: string, email: string, password: string)

  const InvalidValue := "Invalid value"

  /** True iff some error in `errors` is about the field `path`. */
  predicate HasErrorFor(errors: seq<FieldError>, path: string) {
    exists i :: 0 <= i < |errors| && errors[i].path == path
  }

  /** One validator of the chain: no error when `ok`, otherwise one for `path`. */
  function Check(ok: bool, path: string): (errors: seq<FieldError>)
    ensures HasErrorFor(errors, path) <==> !ok
    ensures forall i :: 0 <= i < |errors| ==> errors[i] == FieldError(path, InvalidValue)
    ensures |errors| <= 1
  {
    if ok then [] else
      var errors := [FieldError(path, InvalidValue)];
      assert errors[0].path == path;
      errors
  }

  /** An error about `path` is in a concatenation iff it is in one of the parts. */
  lemma HasErrorForConcat(a: seq<FieldError>, b: seq<FieldError>, path: string)
    ensures HasErrorFor(a + b, path) <==> HasErrorFor(a, path) || HasErrorFor(b, path)
  {
    if HasErrorFor(a + b, path) {
      var i :| 0 <= i < |a + b| && (a + b)[i].path == path;
      if i >= |a| { assert b[i - |a|].path == path; }
    }
    if HasErrorFor(b, path) {
      var i :| 0 <= i < |b| && b[i].path == path;
      assert (a + b)[|a| + i].path == path;
    }
    if HasErrorFor(a, path) {
      var i :| 0 <= i < |a| && a[i].path == path;
      assert (a + b)[i].path == path;
    }
  }

  /**
   * The length `isLength` measures: characters (surrogate pairs counted once),
   * not counting the variation selectors U+FE0E and U+FE0F.
   */
  function IsLengthCount(s: string): (n: nat)
    ensures n <= |s|
    ensures (forall i :: 0 <= i < |s| ==> s[i] != '\U{FE0E}' && s[i] != '\U{FE0F}') ==> n == |s|
  {
    if s == [] then 0 else (if s[0] == '\U{FE0E}' || s[0] == '\U{FE0F}' then 0 else 1) + IsLengthCount(s[1..])
  }

  /** A chain of one-validator fields names each of its three fields at most once, and no other. */
  lemma ChainPaths(u: seq<FieldError>, e: seq<FieldError>, p: seq<FieldError>)
    requires |u| <= 1 && |e| <= 1 && |p| <= 1
    requires forall i :: 0 <= i < |u| ==> u[i].path == "username"
    requires forall i :: 0 <= i < |e| ==> e[i].path == "email"
    requires forall i :: 0 <= i < |p| ==> p[i].path == "password"
    ensures forall i :: 0 <= i < |u + e + p| ==> (u + e + p)[i].path in {"username", "email", "password"}
    ensures forall i, j :: 0 <= i < j < |u + e + p| ==> (u + e + p)[i].path != (u + e + p)[j].path
  {
    var errors := u + e + p;
    forall i | 0 <= i < |errors|
      ensures errors[i].path == (if i < |u| then "username" else if i < |u| + |e| then "email" else "password")
    {
      if i < |u| { assert errors[i] == u[i]; }
      else if i < |u| + |e| { assert errors[i] == e[i - |u|]; }
      else { assert errors[i] == p[i - |u| - |e|]; }
    }
  }

  /** One character counts one, except a variation selector, which counts nothing. */
  lemma IsLengthCountOfChar(c: char)
    ensures IsLengthCount([c]) == if c == '\U{FE0E}' || c == '\U{FE0F}' then 0 else 1
  {
    assert [c][1..] == [];
  }

  /** The count of a concatenation is the sum of its parts' counts. */
  lemma {:induction false} IsLengthCountConcat(a: string, b: string)
    ensures IsLengthCount(a + b) == IsLengthCount(a) + IsLengthCount(b)
  {
    if a != [] {
      assert (a + b)[1..] == a[1..] + b;
      IsLengthCountConcat(a[1..], b);
    } else {
      assert a + b == b;
    }
  }

  /** The validation chain of `/register`: the errors it records, in chain order. */
  function RegisterErrors(isEmail: string -> bool, body: RegisterBody): (errors: seq<FieldError>)
    ensures errors == [] <==> 3 <= IsLengthCount(body.username) <= 30 && isEmail(body.email) && IsLengthCount(body.password) >= 6
    ensures HasErrorFor(errors, "username") <==> !(3 <= IsLengthCount(body.username) <= 30)
    ensures HasErrorFor(errors, "email") <==> !isEmail(body.email)
    ensures HasErrorFor(errors, "password") <==> IsLengthCount(body.password) < 6
    ensures forall i :: 0 <= i < |errors| ==> errors[i].msg == InvalidValue
    ensures forall i :: 0 <= i < |errors| ==> errors[i].path in {"username", "email", "password"}
    ensures forall i, j :: 0 <= i < j < |errors| ==> errors[i].path != errors[j].path
  {
    ChainOfThree(3 <= IsLengthCount(body.username) <= 30, isEmail(body.email), IsLengthCount(body.password) >= 6);
    Check(3 <= IsLengthCount(body.username) <= 30, "username")
      + Check(isEmail(body.email), "email")
      + Check(IsLengthCount(body.password) >= 6, "password")
  }

  /** The three one-validator chains of `/register`, whatever their verdicts, recorded in order. */
  lemma ChainOfThree(username: bool, email: bool, password: bool)
    ensures var errors := Check(username, "username") + Check(email, "email") + Check(password, "password");
      && (errors == [] <==> username && email && password)
      && (HasErrorFor(errors, "username") <==> !username)
      && (HasErrorFor(errors, "email") <==> !email)
      && (HasErrorFor(errors, "password") <==> !password)
      && (forall i :: 0 <= i < |errors| ==> errors[i].msg == InvalidValue)
      && (forall i :: 0 <= i < |errors| ==> errors[i].path in {"username", "email", "password"})
      && (forall i, j :: 0 <= i < j < |errors| ==> errors[i].path != errors[j].path)
  {
    var u := Check(username, "username");
    var e := Check(email, "email");
    var p := Check(password, "password");
    ChainPaths(u, e, p);
    forall path | path in {"username", "email", "password"}
      ensures HasErrorFor(u + e + p, path) <==> HasErrorFor(u, path) || HasErrorFor(e, path) || HasErrorFor(p, path)
    {
      HasErrorForConcat(u + e, p, path);
      HasErrorForConcat(u, e, path);
    }
    assert HasErrorFor(u, "email") == false;
    assert HasErrorFor(u, "password") == false;
    assert HasErrorFor(e, "username") == false;
    assert HasErrorFor(e, "password") == false;
    assert HasErrorFor(p, "username") == false;
    assert HasErrorFor(p, "email") == false;
  }

  /** A variation selector does not count: "ab" followed by U+FE0F is too short a username. */
  lemma VariationSelectorNotCounted(isEmail: string -> bool, email: string, password: string)
    ensures IsLengthCount("ab\U{FE0F}") == 2
    ensures HasErrorFor(RegisterErrors(isEmail, RegisterBody("ab\U{FE0F}", email, password)), "username")
  {
    var s := "ab\U{FE0F}";
    assert s[1..][1..][1..] == [];
  }

  /** True iff some stored account already has this e-mail or this username. */
  predicate Clashes(accounts: seq<Account>, email: string, username: string) {
    exists i :: 0 <= i < |accounts| && (accounts[i].email == email || accounts[i].username == username)
  }

  /** The table invariant registration keeps: ids, e-mails and usernames are unique, nobody has `comparePassword`. */
  ghost predicate UniqueIdentities(accounts: seq<Account>) {
    && UniqueBy(accounts, AccountId)
    && UniqueBy(accounts, AccountEmail)
    && (forall i, j :: 0 <= i < j < |accounts| ==> accounts[i].username != accounts[j].username)
    && (forall i :: 0 <= i < |accounts| ==> !accounts[i].hasComparator)
  }

  /** Appending an account that clashes with nobody and has a fresh id keeps every identity unique. */
  lemma RegisterKeepsIdentitiesUnique(accounts: seq<Account>, added: Account)
    requires UniqueIdentities(accounts)
    requires !Clashes(accounts, added.email, added.username)
    requires forall i :: 0 <= i < |accounts| ==> accounts[i].id != added.id
    requires !added.hasComparator
    ensures UniqueIdentities(accounts + [added])
  {
    var t := accounts + [added];
    forall i, j | 0 <= i < j < |t|
      ensures t[i].id != t[j].id && t[i].email != t[j].email && t[i].username != t[j].username
    {
      if j == |accounts| {
        assert t[i] == accounts[i];
      }
    }
  }

  /** The lookup by e-mail the login route performs against the table. */
  function TableLookup(accounts: seq<Account>): string -> Lookup {
    email => FindAccount(accounts, AccountEmail, email)
  }

  /** No account of the table has `comparePassword`, so this is never consulted. */
  function NoComparator(user: Account, password: string): Comparison {
    CompareFailed("comparePassword is not defined")
  }

  /**
   * Logging in with the e-mail of a stored account, as stored, succeeds iff
   * the password is the fallback one: the account's own password plays no part.
   */
  lemma LoginUsesFallbackPassword(accounts: seq<Account>, k: nat, password: string)
    requires UniqueIdentities(accounts) && k < |accounts|
    requires Text.IsLower(accounts[k].email)
    ensures VerifyLocal(TableLookup(accounts), NoComparator, accounts[k].email, password)
         == if password == FallbackPassword then Authenticated(accounts[k])
            else Rejected(InvalidCredentialsMessage)
  {
    Text.ToLowerIsLower(accounts[k].email);
    FindAccountUnique(accounts, AccountEmail, k);
  }

  /** `/auth/oauth-failure`: always 401. */
  function OAuthFailure(): (r: AuthReply)
    ensures r.status == 401 && !r.success && r.message == "OAuth authentication failed"
    ensures r.user == None && r.errors == []
  {
    AuthReply(401, false, "OAuth authentication failed", None, [])
  }

  /** A guard rejection as a reply. */
  function GuardReply(g: GuardResult): AuthReply
    requires g.Reject?
  {
    AuthReply(g.status, false, g.message, None, g.errors)
  }

  /** `req.user` on a request: the session id deserialized against the table, if it still resolves. */
  function SessionUser(accounts: seq<Account>, session: Option<string>): (u: Option<Account>)
    ensures u.Some? ==> session == Some(u.value.id) && u.value in accounts
    ensures u.None? <==> session.None? || forall i :: 0 <= i < |accounts| ==> accounts[i].id != session.value
  {
    if session.None? then None
    else match Deserialize(id => FindAccount(accounts, AccountId, id), session.value)
      case Found(u) => Some(u)
      case _ => None
  }

  class AuthServer {
    var accounts: seq<Account>
    /** The serialized session user (its id), or None for an anonymous session. */
    var session: Option<string>

    ghost predicate Valid()
      reads this
    {
      UniqueIdentities(accounts)
    }

    constructor ()
      ensures Valid() && accounts == [] && session == None
    {
      accounts := [];
      session := None;
    }

    /** `req.user` for this server's session and table. */
    function CurrentUser(): Option<Account>
      reads this
    {
      SessionUser(accounts, session)
    }

    /** `req.isAuthenticated()`. */
    function IsAuthenticated(): bool
      reads this
    {
      CurrentUser().Some?
    }

    /** `GET /auth/me`: always succeeds, with the session user or null. */
    function Me(): (r: AuthReply)
      reads this
      ensures r.status == 200 && r.success
      ensures r.user == CurrentUser()
    {
      AuthReply(200, true, "", CurrentUser(), [])
    }

    /** `POST /auth/register`. `newId` is the id the store assigns to the saved user. */
    method Register(isEmail: string -> bool, normalizeEmail: string -> string, body: RegisterBody, newId: string)
      returns (r: AuthReply)
      requires Valid()
      requires forall i :: 0 <= i < |accounts| ==> accounts[i].id != newId
      modifies this
      ensures Valid()
      ensures old(IsAuthenticated()) ==>
        r == AuthReply(400, false, AlreadyLoggedInMessage, None, []) && unchanged(this)
      ensures !old(IsAuthenticated()) && RegisterErrors(isEmail, body) != [] ==>
        r == AuthReply(400, false, ValidationFailedMessage, None, RegisterErrors(isEmail, body)) && unchanged(this)
      ensures !old(IsAuthenticated()) && RegisterErrors(isEmail, body) == []
              && Clashes(old(accounts), normalizeEmail(body.email), body.username) ==>
        r == AuthReply(409, false, "User already exists", None, []) && unchanged(this)
      ensures !old(IsAuthenticated()) && RegisterErrors(isEmail, body) == []
              && !Clashes(old(accounts), normalizeEmail(body.email), body.username) ==>
        var user := Account(newId, body.username, normalizeEmail(body.email), Some(body.password), false);
        && accounts == old(accounts) + [user]
        && session == Some(newId)
        && CurrentUser() == Some(user)
        && r == AuthReply(201, true, "Registration successful", Some(user), [])
    {
      var gate := RequireNoAuth(IsAuthenticated());
      if gate.Reject? {
        return GuardReply(gate);
      }
      var checked := HandleValidationErrors(RegisterErrors(isEmail, body));
      if checked.Reject? {
        return GuardReply(checked);
      }
      var email := normalizeEmail(body.email);
      if Clashes(accounts, email, body.username) {
        return AuthReply(409, false, "User already exists", None, []);
      }
      var user := Account(newId, body.username, email, Some(body.password), false);
      RegisterKeepsIdentitiesUnique(accounts, user);
      accounts := accounts + [user];
      session := Some(Serialize(user));
      FindAccountUnique(accounts, AccountId, |accounts| - 1);
      r := AuthReply(201, true, "Registration successful", Some(user), []);
    }

    /**
     * `POST /auth/login`: `requireNoAuth`, then passport's local strategy.
     * passport-local answers 400 when a credential is missing; a rejection
     * is passport's bare 401; a failure goes to the global error handler (500).
     */
    method Login(email: string, password: string) returns (r: AuthReply)
      requires Valid()
      modifies this
      ensures Valid() && accounts == old(accounts)
      ensures old(IsAuthenticated()) ==>
        r == AuthReply(400, false, AlreadyLoggedInMessage, None, []) && unchanged(this)
      ensures !old(IsAuthenticated()) && (email == "" || password == "") ==>
        r == AuthReply(400, false, "Bad Request", None, []) && unchanged(this)
      ensures !old(IsAuthenticated()) && email != "" && password != "" ==>
        match VerifyLocal(TableLookup(old(accounts)), NoComparator, email, password)
        case Authenticated(u) =>
          session == Some(u.id) && CurrentUser() == Some(u)
          && r == AuthReply(200, true, "Login successful", Some(u), [])
        case Rejected(_) =>
          r == AuthReply(401, false, "Unauthorized", None, []) && unchanged(this)
        case Failed(_) =>
          r == AuthReply(500, false, "Internal Server Error", None, []) && unchanged(this)
    {
      var gate := RequireNoAuth(IsAuthenticated());
      if gate.Reject? {
        return GuardReply(gate);
      }
      if email == "" || password == "" {
        return AuthReply(400, false, "Bad Request", None, []);
      }
      var verdict := VerifyLocal(TableLookup(accounts), NoComparator, email, password);
      match verdict {
        case Authenticated(u) =>
          var k :| 0 <= k < |accounts| && accounts[k] == u;
          FindAccountUnique(accounts, AccountId, k);
          session := Some(Serialize(u));
          r := AuthReply(200, true, "Login successful", Some(u), []);
        case Rejected(_) =>
          r := AuthReply(401, false, "Unauthorized", None, []);
        case Failed(_) =>
          r := AuthReply(500, false, "Internal Server Error", None, []);
      }
    }

    /** `POST /auth/logout`: always succeeds and leaves the session anonymous. */
    method Logout() returns (r: AuthReply)
      requires Valid()
      modifies this
      ensures Valid() && accounts == old(accounts)
      ensures session == None && !IsAuthenticated()
      ensures r == AuthReply(200, true, "Logged out", None, [])
    {
      session := None;
      r := AuthReply(200, true, "Logged out", None, []);
    }
  }
}
