/**
 * controllers/itemsController.js over an in-memory `Item` collection: the
 * collection is a sequence of documents, and each handler's reply is its
 * status code and JSON body.
 */
module ItemsController {
  import opened Wrappers
  import opened Text
  import opened Collection
  import opened SchemaRules
  import opened ItemSchema

  const InvalidIdFormat := "Invalid ID format"
  const ItemNotFound := "Item not found"
  const ValidationFailed := "Validation Error"
  const ItemDeleted := "Item deleted"

  /** A stored item: its id, its schema paths and its creation time. */
  datatype ItemDoc = ItemDoc(id: string, fields: ItemFields, createdAt: int)

  function ItemId(d: ItemDoc): string { d.id }
  function CreatedAt(d: ItemDoc): int { d.createdAt }

  /** A reply: the status code and the body's `success`, `message`, `data`, and the messages
      of the failing paths that make up a validation error. */
  datatype ItemReply = ItemReply(
    status: nat,
    success: bool,
    message: Option<string>,
    data: Option<ItemDoc>,
    error: seq<string>)

  function Failure(status: nat, message: string): ItemReply {
    ItemReply(status, false, Some(message), None, [])
  }

  function Found(status: nat, d: ItemDoc): ItemReply {
    ItemReply(status, true, None, Some(d), [])
  }

  /** The collection's invariant: unique ObjectId ids, and every document admitted by the schema. */
  ghost predicate ValidItems(items: seq<ItemDoc>) {
    && UniqueKeys(items, ItemId)
    && forall i :: 0 <= i < |items| ==> IsStoredId(items[i].id) && IsValidItem(items[i].fields)
  }

  /** The document at `k` with the paths of `patch` set through their setters. */
  function Patched(items: seq<ItemDoc>, k: nat, patch: ItemInput): ItemDoc
    requires k < |items|
  {
    items[k].(fields := ApplyPatch(items[k].fields, patch))
  }

  /** A patch that passes the update validators can replace a document of a valid collection. */
  lemma ReplaceKeepsValidItems(items: seq<ItemDoc>, k: nat, patch: ItemInput)
    requires ValidItems(items) && k < |items| && PatchErrors(patch) == []
    ensures ValidItems(items[k := Patched(items, k, patch)])
  {
    var d := Patched(items, k, patch);
    PatchKeepsValid(items[k].fields, patch);
    ReplaceByValidItem(items, k, d);
  }

  /** A document with the same id and admitted by the schema can take the place of the one at `k`. */
  lemma ReplaceByValidItem(items: seq<ItemDoc>, k: nat, d: ItemDoc)
    requires ValidItems(items) && k < |items|
    requires d.id == items[k].id && IsValidItem(d.fields)
    ensures ValidItems(items[k := d])
  {
    ReplaceKeepsUnique(items, k, d, ItemId);
    var r := items[k := d];
    forall i | 0 <= i < |r| ensures IsStoredId(r[i].id) && IsValidItem(r[i].fields) {
      if i == k { assert r[i] == d; } else { assert r[i] == items[i]; }
    }
  }

  class ItemCollection {
    var items: seq<ItemDoc>

    ghost predicate Valid()
      reads this
    {
      ValidItems(items)
    }

    constructor()
      ensures items == [] && Valid()
    {
      items := [];
    }

    /** `getItems`: every item, newest first, with `count` the number returned. */
    method GetItems() returns (data: seq<ItemDoc>, count: nat)
      ensures NewestFirst(data, CreatedAt)
      ensures multiset(data) == multiset(items)
      ensures count == |data| == |items|
    {
      data := SortNewestFirst(items, CreatedAt);
      count := |data|;
    }

    /** `getItem`: 400 for a malformed id, 404 when no item has it, otherwise the item. */
    method GetItem(id: string) returns (r: ItemReply)
      ensures match FindById(items, id, ItemId)
              case BadId => r == Failure(400, InvalidIdFormat)
              case NotFound => r == Failure(404, ItemNotFound)
              case At(k) => r == Found(200, items[k])
    {
      match FindById(items, id, ItemId)
      case BadId => r := Failure(400, InvalidIdFormat);
      case NotFound => r := Failure(404, ItemNotFound);
      case At(k) => r := Found(200, items[k]);
    }

    /** `createItem`: validation, then the insertion. The store supplies the new document's id (a
        fresh ObjectId, in its lower-case spelling) and creation time. */
    method CreateItem(body: ItemInput, newId: string, now: int) returns (r: ItemReply)
      requires Valid()
      requires IsStoredId(newId) && forall j :: 0 <= j < |items| ==> items[j].id != newId
      modifies this
      ensures Valid()
      ensures match ValidateNewItem(body)
              case Refused(messages) =>
                r == ItemReply(400, false, Some(ValidationFailed), None, messages) && items == old(items)
              case Accepted(f) =>
                items == old(items) + [ItemDoc(newId, f, now)] && r == Found(201, ItemDoc(newId, f, now))
    {
      match ValidateNewItem(body)
      case Refused(messages) =>
        r := ItemReply(400, false, Some(ValidationFailed), None, messages);
      case Accepted(f) =>
        var d := ItemDoc(newId, f, now);
        AppendKeepsUnique(items, d, ItemId);
        items := items + [d];
        r := Found(201, d);
    }

    /** `updateItem` (`findByIdAndUpdate` with `new` and `runValidators`): the id is cast, the
        validators of the supplied paths run, then the document is looked up and replaced. */
    method UpdateItem(id: string, body: ItemInput) returns (r: ItemReply)
      requires Valid()
      modifies this
      ensures Valid()
      ensures var f := FindById(old(items), id, ItemId);
              if f == BadId then r == Failure(400, InvalidIdFormat) && items == old(items)
              else if PatchErrors(body) != [] then
                r == ItemReply(400, false, Some(ValidationFailed), None, PatchErrors(body))
                && items == old(items)
              else if f == NotFound then r == Failure(404, ItemNotFound) && items == old(items)
              else
                && items == old(items)[f.index := Patched(old(items), f.index, body)]
                && r == Found(200, Patched(old(items), f.index, body))
    {
      var f := FindById(items, id, ItemId);
      var errs := PatchErrors(body);
      if f == BadId {
        r := Failure(400, InvalidIdFormat);
      } else if errs != [] {
        r := ItemReply(400, false, Some(ValidationFailed), None, errs);
      } else if f == NotFound {
        r := Failure(404, ItemNotFound);
      } else {
        var d := Patched(items, f.index, body);
        ReplaceKeepsValidItems(items, f.index, body);
        items := items[f.index := d];
        r := Found(200, d);
      }
    }

    /** `deleteItem` (`findByIdAndDelete`): removes exactly the document with that id. */
    method DeleteItem(id: string) returns (r: ItemReply)
      requires Valid()
      modifies this
      ensures Valid()
      ensures match FindById(old(items), id, ItemId)
              case BadId => r == Failure(400, InvalidIdFormat) && items == old(items)
              case NotFound => r == Failure(404, ItemNotFound) && items == old(items)
              case At(k) =>
                items == RemoveAt(old(items), k) && r == ItemReply(200, true, Some(ItemDeleted), None, [])
    {
      match FindById(items, id, ItemId)
      case BadId => r := Failure(400, InvalidIdFormat);
      case NotFound => r := Failure(404, ItemNotFound);
      case At(k) =>
        RemoveAtKeepsUnique(items, k, ItemId);
        var rest := RemoveAt(items, k);
        forall i | 0 <= i < |rest| ensures IsStoredId(rest[i].id) && IsValidItem(rest[i].fields) {
          assert rest[i] == items[if i < k then i else i + 1];
        }
        items := rest;
        r := ItemReply(200, true, Some(ItemDeleted), None, []);
    }
  }

  /** A created item is found afterwards under any spelling of its id, holding the validated fields. */
  lemma CreatedItemIsFound(items: seq<ItemDoc>, body: ItemInput, newId: string, now: int, id: string)
    requires ValidItems(items) && IsStoredId(newId) && ToLower(id) == newId
    requires forall j :: 0 <= j < |items| ==> items[j].id != newId
    requires ValidateNewItem(body).Accepted?
    ensures var s := items + [ItemDoc(newId, ValidateNewItem(body).value, now)];
            FindById(s, id, ItemId) == At(|items|) && IsValidItem(s[|items|].fields)
  {
    var d := ItemDoc(newId, ValidateNewItem(body).value, now);
    AppendKeepsUnique(items, d, ItemId);
    StoredIdIsFound(items + [d], |items|, id, ItemId);
  }

  /** A deleted item is not found afterwards, under any spelling of its id. */
  lemma DeletedItemIsGone(items: seq<ItemDoc>, k: nat, id: string)
    requires ValidItems(items) && k < |items| && ToLower(id) == items[k].id
    ensures FindById(RemoveAt(items, k), id, ItemId) == NotFound
  {
    RemovedIsNotFound(items, k, id, ItemId);
  }

  /** An update that only changes `inStock` is always accepted and keeps every other path. */
  lemma StockOnlyUpdateAccepted(items: seq<ItemDoc>, k: nat, inStock: bool)
    requires k < |items|
    ensures var p := ItemInput(None, None, None, None, Some(inStock));
            && PatchErrors(p) == []
            && Patched(items, k, p) == items[k].(fields := items[k].fields.(inStock := inStock))
  {
  }
}
