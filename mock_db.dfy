/**
 * The development user store `mockDB` of data/database.js: an array of
 * user records that `createUser` appends to, and two linear scans over it.
 * The record's `_id` (the clock's `Date.now()` as text) and `createdAt`
 * (the current date) are passed in; field values are kept as strings.
 */
module MockDatabase {
  import opened Wrappers

  /** Keys the record sets itself after copying the caller's fields. */
  const Reserved: set<string> := {"createdAt", "comparePassword"}

  /** A stored record: `_id`, the copied fields other than `_id`, and `createdAt`. */
  datatype MockUser = MockUser(id: string, data: map<string, string>, createdAt: int)

  /** The value of a record's field other than `createdAt` and `comparePassword`, or `undefined`. */
  function Field(u: MockUser, name: string): (v: Option<string>)
    requires name !in Reserved
    ensures name == "_id" ==> v == Some(u.id)
    ensures name != "_id" ==> (v.Some? <==> name in u.data)
    ensures name != "_id" && v.Some? ==> v.value == u.data[name]
  {
    if name == "_id" then Some(u.id)
    else if name in u.data then Some(u.data[name])
    else None
  }

  /** The record `{ _id: generatedId, ...userData, createdAt: now, comparePassword }`. */
  function MakeRecord(userData: map<string, string>, generatedId: string, now: int): (rec: MockUser)
    ensures rec.id == (if "_id" in userData then userData["_id"] else generatedId)
    ensures rec.createdAt == now
    ensures forall k :: k in userData && k !in Reserved ==> Field(rec, k) == Some(userData[k])
    ensures forall k :: k !in userData && k !in Reserved && k != "_id" ==> Field(rec, k) == None
  {
    var id := if "_id" in userData then userData["_id"] else generatedId;
    MockUser(id, map k | k in userData && k !in Reserved && k != "_id" :: userData[k], now)
  }

  /** `comparePassword(password)`: the stored password is exactly `password`. */
  function ComparePassword(u: MockUser, password: string): (ok: bool)
    ensures ok <==> Field(u, "password") == Some(password)
  {
    "password" in u.data && u.data["password"] == password
  }

  /** A record compares equal exactly to the password it was created with. */
  lemma CreatedPasswordCompares(userData: map<string, string>, generatedId: string, now: int, password: string)
    ensures ComparePassword(MakeRecord(userData, generatedId, now), password)
            <==> "password" in userData && userData["password"] == password
  {
    var rec := MakeRecord(userData, generatedId, now);
    assert "password" !in Reserved;
    if "password" !in userData {
      assert Field(rec, "password") == None;
    }
  }

  /** The argument of `findUser`: `email` and `username`, each possibly `undefined`. */
  datatype Query = Query(email: Option<string>, username: Option<string>)

  /** `user.email === query.email || user.username === query.username`; two `undefined`s are equal. */
  predicate Matches(u: MockUser, q: Query) {
    Field(u, "email") == q.email || Field(u, "username") == q.username
  }

  /** A query without a username matches every record without one, whatever their e-mails. */
  lemma MissingUsernamesMatch(u: MockUser, email: string)
    requires "username" !in u.data
    ensures Matches(u, Query(Some(email), None))
  {
  }

  class MockDB {
    var users: seq<MockUser>

    constructor()
      ensures users == []
    {
      users := [];
    }

    /** `createUser`: builds the record and pushes it onto the end of `users`. */
    method CreateUser(userData: map<string, string>, generatedId: string, now: int) returns (user: MockUser)
      modifies this
      ensures user == MakeRecord(userData, generatedId, now)
      ensures users == old(users) + [user]
    {
      user := MakeRecord(userData, generatedId, now);
      users := users + [user];
    }

    /** `findUser`: the first record that matches the query, or `undefined`. */
    method FindUser(q: Query) returns (r: Option<MockUser>)
      ensures r.None? <==> forall j :: 0 <= j < |users| ==> !Matches(users[j], q)
      ensures r.Some? ==> exists k :: && 0 <= k < |users| && users[k] == r.value && Matches(users[k], q)
                                      && forall j :: 0 <= j < k ==> !Matches(users[j], q)
    {
      var i := 0;
      while i < |users|
        invariant 0 <= i <= |users|
        invariant forall j :: 0 <= j < i ==> !Matches(users[j], q)
      {
        if Matches(users[i], q) {
          r := Some(users[i]);
          return;
        }
        i := i + 1;
      }
      r := None;
    }

    /** `findUserById`: the first record whose `_id` is `id`, or `undefined`. */
    method FindUserById(id: string) returns (r: Option<MockUser>)
      ensures r.None? <==> forall j :: 0 <= j < |users| ==> users[j].id != id
      ensures r.Some? ==> exists k :: && 0 <= k < |users| && users[k] == r.value && users[k].id == id
                                      && forall j :: 0 <= j < k ==> users[j].id != id
    {
      var i := 0;
      while i < |users|
        invariant 0 <= i <= |users|
        invariant forall j :: 0 <= j < i ==> users[j].id != id
      {
        if users[i].id == id {
          r := Some(users[i]);
          return;
        }
        i := i + 1;
      }
      r := None;
    }
  }
}
