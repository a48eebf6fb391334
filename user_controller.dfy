/**
 * controllers/userController.js over an in-memory `User` collection: the
 * collection is a sequence of documents, and each handler's reply is its
 * status code and JSON body.
 */
module UserController {
  import opened Wrappers
  import opened Text
  import opened Collection
  import opened SchemaRules
  import opened UserSchema

  const InvalidUserId := "Invalid user ID"
  const UserNotFound := "User not found"
  const ValidationFailed := "Validation Error"
  const EmailExists := "Email already exists"
  const UserUpdated := "User updated successfully"
  const UserDeleted := "User deleted successfully"

  /** A stored user: its id, its schema paths and its creation time. */
  datatype UserDoc = UserDoc(id: string, fields: UserFields, createdAt: int)

  function UserId(u: UserDoc): string { u.id }
  function UserEmail(u: UserDoc): string { u.fields.email }
  function CreatedAt(u: UserDoc): int { u.createdAt }

  /** A reply: the status code and the body's `success`, `message`, `data` and `errors`. */
  datatype UserReply = UserReply(
    status: nat,
    success: bool,
    message: Option<string>,
    data: Option<UserDoc>,
    errors: seq<string>)

  function Failure(status: nat, message: string): UserReply {
    UserReply(status, false, Some(message), None, [])
  }

  /** The collection's invariant: ObjectId ids that are unique, unique e-mails (the `unique`
      index), and every document admitted by the schema. */
  ghost predicate ValidUsers(users: seq<UserDoc>) {
    && UniqueKeys(users, UserId)
    && UniqueKeys(users, UserEmail)
    && forall i :: 0 <= i < |users| ==> IsStoredId(users[i].id) && IsValidUser(users[i].fields)
  }

  /** Some document other than the one at `except` already has this e-mail. */
  predicate EmailTaken(users: seq<UserDoc>, email: string, except: int) {
    exists j :: 0 <= j < |users| && j != except && users[j].fields.email == email
  }

  /** The saved form of the document at `k` after the assignments of `patch`. */
  function Patched(users: seq<UserDoc>, k: nat, patch: UserInput): UserDoc
    requires k < |users|
  {
    users[k].(fields := ApplyPatch(users[k].fields, patch))
  }

  /** A patched copy of a valid document that passes validation and keeps its e-mail unique
      can take the document's place. */
  lemma ReplaceKeepsValidUsers(users: seq<UserDoc>, k: nat, patch: UserInput)
    requires ValidUsers(users) && k < |users|
    requires UserErrors(Patched(users, k, patch).fields) == []
    requires !EmailTaken(users, Patched(users, k, patch).fields.email, k)
    ensures ValidUsers(users[k := Patched(users, k, patch)])
  {
    var d := Patched(users, k, patch);
    PatchedUserIsValid(users[k].fields, patch);
    ReplaceByValidUser(users, k, d);
  }

  /** A document with the same id, admitted by the schema and with an e-mail no other document has,
      can take the place of the one at `k`. */
  lemma ReplaceByValidUser(users: seq<UserDoc>, k: nat, d: UserDoc)
    requires ValidUsers(users) && k < |users|
    requires d.id == users[k].id && IsValidUser(d.fields)
    requires forall j :: 0 <= j < |users| && j != k ==> users[j].fields.email != d.fields.email
    ensures ValidUsers(users[k := d])
  {
    ReplaceKeepsUnique(users, k, d, UserId);
    ReplaceKeepsUnique(users, k, d, UserEmail);
    var r := users[k := d];
    forall i | 0 <= i < |r| ensures IsStoredId(r[i].id) && IsValidUser(r[i].fields) {
      if i == k { assert r[i] == d; } else { assert r[i] == users[i]; }
    }
  }

  /** A patched valid document that passes validation is admitted by the schema. */
  lemma PatchedUserIsValid(u: UserFields, patch: UserInput)
    requires IsValidUser(u) && UserErrors(ApplyPatch(u, patch)) == []
    ensures IsValidUser(ApplyPatch(u, patch))
  {
  }

  class UserCollection {
    var users: seq<UserDoc>

    ghost predicate Valid()
      reads this
    {
      ValidUsers(users)
    }

    constructor()
      ensures users == [] && Valid()
    {
      users := [];
    }

    /** `getUsers`: every user, newest first, with `count` the number returned. */
    method GetUsers() returns (data: seq<UserDoc>, count: nat)
      ensures NewestFirst(data, CreatedAt)
      ensures multiset(data) == multiset(users)
      ensures count == |data| == |users|
    {
      data := SortNewestFirst(users, CreatedAt);
      count := |data|;
    }

    /** `getUser`: 400 for a malformed id, 404 when no user has it, otherwise the user. */
    method GetUser(id: string) returns (r: UserReply)
      ensures match FindById(users, id, UserId)
              case BadId => r == Failure(400, InvalidUserId)
              case NotFound => r == Failure(404, UserNotFound)
              case At(k) => r == UserReply(200, true, None, Some(users[k]), [])
    {
      match FindById(users, id, UserId)
      case BadId => r := Failure(400, InvalidUserId);
      case NotFound => r := Failure(404, UserNotFound);
      case At(k) => r := UserReply(200, true, None, Some(users[k]), []);
    }

    /** `createUser`: validation, then the unique e-mail index, then the insertion. The store
        supplies the new document's id (a fresh ObjectId, in its lower-case spelling) and creation time. */
    method CreateUser(body: UserInput, newId: string, now: int) returns (r: UserReply)
      requires Valid()
      requires IsStoredId(newId) && forall j :: 0 <= j < |users| ==> users[j].id != newId
      modifies this
      ensures Valid()
      ensures match ValidateNewUser(body)
              case Refused(messages) =>
                r == UserReply(400, false, Some(ValidationFailed), None, messages) && users == old(users)
              case Accepted(f) =>
                if EmailTaken(old(users), f.email, -1) then
                  r == Failure(400, EmailExists) && users == old(users)
                else
                  && users == old(users) + [UserDoc(newId, f, now)]
                  && r == UserReply(201, true, None, Some(UserDoc(newId, f, now)), [])
    {
      match ValidateNewUser(body)
      case Refused(messages) =>
        r := UserReply(400, false, Some(ValidationFailed), None, messages);
      case Accepted(f) =>
        if EmailTaken(users, f.email, -1) {
          r := Failure(400, EmailExists);
        } else {
          var d := UserDoc(newId, f, now);
          AppendKeepsUnique(users, d, UserId);
          AppendKeepsUnique(users, d, UserEmail);
          users := users + [d];
          r := UserReply(201, true, None, Some(d), []);
        }
    }

    /** `updateUser`: fetch by id, assign the supplied paths, save (validation, then the unique
        e-mail index). Only the fetched document can change, and only in the supplied paths. */
    method UpdateUser(id: string, body: UserInput) returns (r: UserReply)
      requires Valid()
      modifies this
      ensures Valid()
      ensures match FindById(old(users), id, UserId)
              case BadId => r == Failure(400, InvalidUserId) && users == old(users)
              case NotFound => r == Failure(404, UserNotFound) && users == old(users)
              case At(k) =>
                var d := Patched(old(users), k, body);
                if UserErrors(d.fields) != [] then
                  r == UserReply(400, false, Some(ValidationFailed), None, UserErrors(d.fields))
                  && users == old(users)
                else if EmailTaken(old(users), d.fields.email, k) then
                  r == Failure(400, EmailExists) && users == old(users)
                else
                  users == old(users)[k := d] && r == UserReply(200, true, Some(UserUpdated), Some(d), [])
    {
      match FindById(users, id, UserId)
      case BadId => r := Failure(400, InvalidUserId);
      case NotFound => r := Failure(404, UserNotFound);
      case At(k) =>
        var d := Patched(users, k, body);
        var errs := UserErrors(d.fields);
        if errs != [] {
          r := UserReply(400, false, Some(ValidationFailed), None, errs);
        } else if EmailTaken(users, d.fields.email, k) {
          r := Failure(400, EmailExists);
        } else {
          ReplaceKeepsValidUsers(users, k, body);
          users := users[k := d];
          r := UserReply(200, true, Some(UserUpdated), Some(d), []);
        }
    }

    /** `deleteUser`: fetch by id, then remove exactly that document. */
    method DeleteUser(id: string) returns (r: UserReply)
      requires Valid()
      modifies this
      ensures Valid()
      ensures match FindById(old(users), id, UserId)
              case BadId => r == Failure(400, InvalidUserId) && users == old(users)
              case NotFound => r == Failure(404, UserNotFound) && users == old(users)
              case At(k) =>
                users == RemoveAt(old(users), k) && r == UserReply(200, true, Some(UserDeleted), None, [])
    {
      match FindById(users, id, UserId)
      case BadId => r := Failure(400, InvalidUserId);
      case NotFound => r := Failure(404, UserNotFound);
      case At(k) =>
        RemoveAtKeepsUnique(users, k, UserId);
        RemoveAtKeepsUnique(users, k, UserEmail);
        users := RemoveAt(users, k);
        r := UserReply(200, true, Some(UserDeleted), None, []);
    }
  }

  /** A new user is found afterwards under any spelling of its id. */
  lemma CreatedUserIsFound(users: seq<UserDoc>, d: UserDoc, id: string)
    requires ValidUsers(users) && IsStoredId(d.id) && ToLower(id) == d.id
    requires forall j :: 0 <= j < |users| ==> users[j].id != d.id
    ensures FindById(users + [d], id, UserId) == At(|users|)
  {
    AppendKeepsUnique(users, d, UserId);
    StoredIdIsFound(users + [d], |users|, id, UserId);
  }

  /** A deleted user is not found afterwards, under any spelling of its id. */
  lemma DeletedUserIsGone(users: seq<UserDoc>, k: nat, id: string)
    requires ValidUsers(users) && k < |users| && ToLower(id) == users[k].id
    ensures FindById(RemoveAt(users, k), id, UserId) == NotFound
  {
    RemovedIsNotFound(users, k, id, UserId);
  }

  /** An update that supplies nothing saves the document unchanged. */
  lemma EmptyUpdateKeepsUser(users: seq<UserDoc>, k: nat)
    requires k < |users|
    ensures Patched(users, k, NoInput) == users[k]
  {
    EmptyPatchChangesNothing(users[k].fields);
  }

  /** On a valid collection, an update is refused for validation exactly when a supplied path fails. */
  lemma UpdateRefusedOnlyForSuppliedPaths(users: seq<UserDoc>, k: nat, patch: UserInput)
    requires ValidUsers(users) && k < |users|
    ensures UserErrors(Patched(users, k, patch).fields) == PatchErrors(patch)
  {
    PatchReportsOnlySuppliedPaths(users[k].fields, patch);
  }
}
