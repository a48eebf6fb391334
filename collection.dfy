/**
 * What the in-memory collections borrow from the document store: the shape
 * of a document id that can be cast to an ObjectId, and the order of
 * `find().sort({ createdAt: -1 })`, newest first, and the lookup, replacement
 * and removal of a document by its id.
 */
module Collection {
  import opened Wrappers
  import opened Text

  /** An id string the store can cast to an ObjectId: 24 hexadecimal digits, in either case. */
  predicate IsObjectId(id: string) {
    |id| == 24 && forall i :: 0 <= i < |id| ==> IsHexDigit(id[i])
  }

  /** An id as the store keeps and returns it, the ObjectId's `toHexString`: lower-case hex. */
  predicate IsStoredId(id: string) {
    IsObjectId(id) && IsLower(id)
  }

  /** Casting ignores the case of the hex digits: a string casts iff its lower-case form does,
      and then that form is the stored id it denotes. */
  lemma CastIgnoresCase(id: string)
    ensures IsObjectId(ToLower(id)) <==> IsObjectId(id)
    ensures IsObjectId(id) ==> IsStoredId(ToLower(id))
  {
    ToLowerIsLower(id);
    var l := ToLower(id);
    assert forall i :: 0 <= i < |id| ==> (IsHexDigit(l[i]) <==> IsHexDigit(id[i]));
  }

  /** `s` is ordered by `key`, largest first. */
  ghost predicate NewestFirst<T>(s: seq<T>, key: T -> int) {
    forall i, j :: 0 <= i < j < |s| ==> key(s[i]) >= key(s[j])
  }

  /** Prefixing an element no older than any element of a newest-first sequence keeps it newest first. */
  lemma ConsNewestFirst<T>(h: T, t: seq<T>, key: T -> int)
    requires NewestFirst(t, key)
    requires forall k :: 0 <= k < |t| ==> key(h) >= key(t[k])
    ensures NewestFirst([h] + t, key)
  {
    var r := [h] + t;
    forall i, j | 0 <= i < j < |r| ensures key(r[i]) >= key(r[j]) {
      assert r[j] == t[j - 1];
      if i > 0 { assert r[i] == t[i - 1]; }
    }
  }

  /** Puts `x` into the newest-first sequence `s` before the first element that is not newer. */
  function Insert<T>(x: T, s: seq<T>, key: T -> int): (r: seq<T>)
    requires NewestFirst(s, key)
    ensures NewestFirst(r, key)
    ensures multiset(r) == multiset(s) + multiset{x}
    ensures forall k :: 0 <= k < |r| ==> r[k] == x || r[k] in s
  {
    if s == [] || key(x) >= key(s[0]) then
      ConsNewestFirst(x, s, key);
      [x] + s
    else
      var t := Insert(x, s[1..], key);
      assert s == [s[0]] + s[1..];
      HeadBoundsTail(s[0], s[1..], x, t, key);
      ConsNewestFirst(s[0], t, key);
      [s[0]] + t
  }

  /** An element no older than `x` and than every element of `rest` is no older than any element of `t`,
      when `t` holds only `x` and elements of `rest`. */
  lemma HeadBoundsTail<T>(h: T, rest: seq<T>, x: T, t: seq<T>, key: T -> int)
    requires forall m :: 0 <= m < |rest| ==> key(h) >= key(rest[m])
    requires key(h) >= key(x)
    requires forall k :: 0 <= k < |t| ==> t[k] == x || t[k] in rest
    ensures forall k :: 0 <= k < |t| ==> key(h) >= key(t[k])
  {
  }

  /** The elements of `s`, newest first: `sort({ createdAt: -1 })` with `key` the creation time. */
  function SortNewestFirst<T>(s: seq<T>, key: T -> int): (r: seq<T>)
    ensures NewestFirst(r, key)
    ensures multiset(r) == multiset(s)
    ensures |r| == |s|
  {
    if s == [] then
      []
    else
      assert s == [s[0]] + s[1..];
      Insert(s[0], SortNewestFirst(s[1..], key), key)
  }

  /** No two elements share a key. */
  ghost predicate UniqueKeys<T>(s: seq<T>, key: T -> string) {
    forall i, j :: 0 <= i < j < |s| ==> key(s[i]) != key(s[j])
  }

  /** `findById`: the position of the first element with the key `id`, if any. */
  function IndexOf<T>(s: seq<T>, id: string, key: T -> string): (r: Option<nat>)
    ensures r.Some? ==> r.value < |s| && key(s[r.value]) == id
    ensures r.Some? ==> forall j :: 0 <= j < r.value ==> key(s[j]) != id
    ensures r.None? <==> forall j :: 0 <= j < |s| ==> key(s[j]) != id
  {
    if s == [] then None
    else if key(s[0]) == id then Some(0)
    else
      var r := IndexOf(s[1..], id, key);
      assert forall j :: 1 <= j < |s| ==> s[j] == s[1..][j - 1];
      if r.Some? then Some(r.value + 1) else None
  }

  /** What looking a document up by an id string can give: a malformed id (the cast to an
      ObjectId fails), no document, or the position of the document. */
  datatype Fetch = BadId | NotFound | At(index: nat)

  /** `findById(id)`: a cast error for a malformed id, otherwise the first element whose key is the
      ObjectId the id denotes, that is its lower-case spelling. */
  function FindById<T>(s: seq<T>, id: string, key: T -> string): (f: Fetch)
    ensures f == BadId <==> !IsObjectId(id)
    ensures f == NotFound <==> IsObjectId(id) && forall j :: 0 <= j < |s| ==> key(s[j]) != ToLower(id)
    ensures f.At? ==> && f.index < |s| && key(s[f.index]) == ToLower(id)
                      && forall j :: 0 <= j < f.index ==> key(s[j]) != ToLower(id)
  {
    if !IsObjectId(id) then BadId
    else
      match IndexOf(s, ToLower(id), key)
      case None => NotFound
      case Some(k) => At(k)
  }

  /** Two spellings of an id that differ only in letter case fetch the same result. */
  lemma FindByIdIgnoresCase<T>(s: seq<T>, id1: string, id2: string, key: T -> string)
    requires ToLower(id1) == ToLower(id2)
    ensures FindById(s, id1, key) == FindById(s, id2, key)
  {
    CastIgnoresCase(id1);
    CastIgnoresCase(id2);
  }

  /** With unique stored keys, any spelling of an element's id finds that element. */
  lemma StoredIdIsFound<T>(s: seq<T>, k: nat, id: string, key: T -> string)
    requires UniqueKeys(s, key) && k < |s| && IsStoredId(key(s[k])) && ToLower(id) == key(s[k])
    ensures FindById(s, id, key) == At(k)
  {
    CastIgnoresCase(id);
    IndexOfUnique(s, k, key);
  }

  /** An element appended with a new key is found at the end. */
  lemma AppendedIsFound<T>(s: seq<T>, x: T, key: T -> string)
    requires UniqueKeys(s, key) && IsStoredId(key(x))
    requires forall j :: 0 <= j < |s| ==> key(s[j]) != key(x)
    ensures FindById(s + [x], key(x), key) == At(|s|)
  {
    AppendKeepsUnique(s, x, key);
    ToLowerIsLower(key(x));
    StoredIdIsFound(s + [x], |s|, key(x), key);
  }

  /** Once removed, an element's key is no longer found, in any spelling. */
  lemma RemovedIsNotFound<T>(s: seq<T>, k: nat, id: string, key: T -> string)
    requires UniqueKeys(s, key) && k < |s| && IsStoredId(key(s[k])) && ToLower(id) == key(s[k])
    ensures FindById(RemoveAt(s, k), id, key) == NotFound
  {
    CastIgnoresCase(id);
    RemoveAtKeepsUnique(s, k, key);
  }

  /** With unique keys, the element found is the only one with that key. */
  lemma IndexOfUnique<T>(s: seq<T>, k: nat, key: T -> string)
    requires UniqueKeys(s, key) && k < |s|
    ensures IndexOf(s, key(s[k]), key) == Some(k)
  {
    var r := IndexOf(s, key(s[k]), key);
    assert r.Some?;
    assert !(r.value < k) && !(r.value > k);
  }

  /** `findByIdAndDelete`: `s` without its element at `k`. */
  function RemoveAt<T>(s: seq<T>, k: nat): (r: seq<T>)
    requires k < |s|
    ensures |r| == |s| - 1
    ensures forall j :: 0 <= j < k ==> r[j] == s[j]
    ensures forall j :: k <= j < |r| ==> r[j] == s[j + 1]
    ensures multiset(r) + multiset{s[k]} == multiset(s)
  {
    assert s == s[..k] + [s[k]] + s[k + 1..];
    s[..k] + s[k + 1..]
  }

  /** Removing an element keeps the keys unique and takes its key out of the collection. */
  lemma RemoveAtKeepsUnique<T>(s: seq<T>, k: nat, key: T -> string)
    requires UniqueKeys(s, key) && k < |s|
    ensures UniqueKeys(RemoveAt(s, k), key)
    ensures forall j :: 0 <= j < |RemoveAt(s, k)| ==> key(RemoveAt(s, k)[j]) != key(s[k])
  {
    var r := RemoveAt(s, k);
    forall i, j | 0 <= i < j < |r| ensures key(r[i]) != key(r[j]) {
      var i' := if i < k then i else i + 1;
      var j' := if j < k then j else j + 1;
      assert r[i] == s[i'] && r[j] == s[j'];
    }
    forall j | 0 <= j < |r| ensures key(r[j]) != key(s[k]) {
      var j' := if j < k then j else j + 1;
      assert r[j] == s[j'];
    }
  }

  /** Replacing the element at `k` by one with a key no other element has keeps the keys unique. */
  lemma ReplaceKeepsUnique<T>(s: seq<T>, k: nat, x: T, key: T -> string)
    requires UniqueKeys(s, key) && k < |s|
    requires forall j :: 0 <= j < |s| && j != k ==> key(s[j]) != key(x)
    ensures UniqueKeys(s[k := x], key)
  {
  }

  /** Appending an element whose key is new keeps the keys unique. */
  lemma AppendKeepsUnique<T>(s: seq<T>, x: T, key: T -> string)
    requires UniqueKeys(s, key)
    requires forall j :: 0 <= j < |s| ==> key(s[j]) != key(x)
    ensures UniqueKeys(s + [x], key)
  {
  }
}
