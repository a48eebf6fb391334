/**
 * The `Item` schema of models/item.js: the paths name, description, price,
 * category and inStock, their setters (`trim`, `lowercase`), defaults and
 * validators.
 */
module ItemSchema {
  import opened Wrappers
  import opened Text
  import opened SchemaRules
  import opened Price

  const NameRequired := "Please add a name"
  const NameTooLong := "Name cannot be more than 50 characters"
  const NameTooShort := "Name must be at least 2 characters"
  const NameCharset := "Name can only contain letters, numbers, spaces, hyphens, and underscores"
  const DescriptionRequired := "Please add a description"
  const DescriptionTooLong := "Description cannot be more than 500 characters"
  const DescriptionTooShort := "Description must be at least 10 characters"
  const PriceRequired := "Please add a price"
  const PriceNegative := "Price cannot be negative"
  const PriceTooHigh := "Price cannot exceed 100,000"
  const PriceFormat := "Price must be a valid number with up to 2 decimal places"
  const CategoryRequired := "Please add a category"
  const CategoryInvalid := "Category must be one of: electronics, clothing, books, home, other"

  const MaxPrice := 100000
  const Categories: seq<string> := ["electronics", "clothing", "books", "home", "other"]

  /** The characters of `[a-zA-Z0-9\s\-_]`. */
  predicate IsNameChar(c: char) {
    IsLetter(c) || IsDigit(c) || IsSpace(c) || c == '-' || c == '_'
  }

  /** `^[a-zA-Z0-9\s\-_]+$` */
  predicate NamePattern(s: string) {
    |s| >= 1 && forall i :: 0 <= i < |s| ==> IsNameChar(s[i])
  }

  /** The validators of name, on the trimmed value: required, maxlength, minlength, the pattern. */
  function NameError(v: string): (e: Option<string>)
    ensures e.None? <==> 2 <= Utf16Length(v) <= 50 && NamePattern(v)
    ensures v == [] ==> e == Some(NameRequired)
    ensures Utf16Length(v) > 50 ==> e == Some(NameTooLong)
    ensures Utf16Length(v) == 1 ==> e == Some(NameTooShort)
    ensures 2 <= Utf16Length(v) <= 50 && !NamePattern(v) ==> e == Some(NameCharset)
  {
    Required(v, NameRequired)
      .OrElse(MaxLength(v, 50, NameTooLong))
      .OrElse(MinLength(v, 2, NameTooShort))
      .OrElse(Rule(NamePattern(v), NameCharset))
  }

  /** The validators of description, on the trimmed value: required, maxlength, minlength. */
  function DescriptionError(v: string): (e: Option<string>)
    ensures e.None? <==> 10 <= Utf16Length(v) <= 500
    ensures v == [] ==> e == Some(DescriptionRequired)
    ensures Utf16Length(v) > 500 ==> e == Some(DescriptionTooLong)
    ensures 1 <= Utf16Length(v) < 10 ==> e == Some(DescriptionTooShort)
  {
    Required(v, DescriptionRequired)
      .OrElse(MaxLength(v, 500, DescriptionTooLong))
      .OrElse(MinLength(v, 10, DescriptionTooShort))
  }

  /** A price the schema admits: in [0, 100000] and spelt with at most two fraction digits. */
  predicate PriceOk(d: Decimal) {
    0 <= d.units <= MaxPrice * Pow10(d.scale) && Normalize(d).scale <= 2
  }

  /** The validators of price: required, min, max, then the pattern on `v.toString()`. */
  function PriceError(p: Option<Decimal>): (e: Option<string>)
    ensures e.None? <==> p.Some? && PriceOk(p.value)
    ensures p.None? ==> e == Some(PriceRequired)
    ensures p.Some? && p.value.units < 0 ==> e == Some(PriceNegative)
    ensures p.Some? && p.value.units > MaxPrice * Pow10(p.value.scale) ==> e == Some(PriceTooHigh)
    ensures p.Some? && 0 <= p.value.units <= MaxPrice * Pow10(p.value.scale) && Normalize(p.value).scale > 2
            ==> e == Some(PriceFormat)
  {
    match p
    case None => Some(PriceRequired)
    case Some(d) =>
      NumberTextPattern(d);
      Rule(d.units >= 0, PriceNegative)
        .OrElse(Rule(d.units <= MaxPrice * Pow10(d.scale), PriceTooHigh))
        .OrElse(Rule(PricePattern(NumberText(d)), PriceFormat))
  }

  /** The category setters `lowercase` and `trim`. The store runs a path's setters from the last
      declared to the first, so `trim` comes first. */
  function SetCategory(raw: string): (v: string)
    ensures v == ToLower(Trim(raw))
    ensures IsTrimmed(v) && IsLower(v)
  {
    var t := Trim(raw);
    ToLowerIsLower(t);
    ToLowerKeepsTrimmed(t);
    ToLower(t)
  }

  /** The validators of category, on the set value: required, then the `enum`. */
  function CategoryError(v: string): (e: Option<string>)
    ensures e.None? <==> v in Categories
    ensures v == [] ==> e == Some(CategoryRequired)
    ensures v != [] && v !in Categories ==> e == Some(CategoryInvalid)
  {
    Required(v, CategoryRequired).OrElse(OneOf(v, Categories, CategoryInvalid))
  }

  /** A lower-case string without surrounding white space is unchanged by the setters. */
  lemma SetCategoryOfSet(c: string)
    requires IsLower(c) && IsTrimmed(c)
    ensures SetCategory(c) == c
  {
    ToLowerIsLower(c);
    TrimOfTrimmed(c);
  }

  /** Each listed category is unchanged by the setters. */
  lemma CategoriesAreSet(c: string)
    requires c in Categories
    ensures SetCategory(c) == c
  {
    assert forall i :: 0 <= i < |c| ==> 'a' <= c[i] <= 'z';
    LowerLettersAreSet(c);
    SetCategoryOfSet(c);
  }

  /** A category differing from a listed one only in ASCII case and surrounding white space is accepted. */
  lemma CategoryCaseAndPaddingIgnored(raw: string, c: string)
    requires c in Categories && ToLower(Trim(raw)) == c
    ensures CategoryError(SetCategory(raw)) == None
  {
  }

  /** The schema paths of an item document. */
  datatype ItemFields = ItemFields(
    name: string,
    description: string,
    price: Decimal,
    category: string,
    inStock: bool)

  /** The schema paths as a request body supplies them: each may be absent. */
  datatype ItemInput = ItemInput(
    name: Option<string>,
    description: Option<string>,
    price: Option<Decimal>,
    category: Option<string>,
    inStock: Option<bool>)

  /** An item document as the schema admits it. */
  predicate IsValidItem(f: ItemFields) {
    && IsTrimmed(f.name) && 2 <= Utf16Length(f.name) <= 50 && NamePattern(f.name)
    && IsTrimmed(f.description) && 10 <= Utf16Length(f.description) <= 500
    && PriceOk(f.price)
    && f.category in Categories
  }

  /** The validation messages of a new item's body: exactly the messages of its failing paths, each once. */
  function ItemErrors(i: ItemInput): (errs: seq<string>)
    ensures errs == [] <==> (&& NameError(Trim(i.name.GetOr(""))).None?
                              && DescriptionError(Trim(i.description.GetOr(""))).None?
                              && PriceError(i.price).None?
                              && CategoryError(SetCategory(i.category.GetOr(""))).None?)
    ensures |errs| <= 4
    ensures forall m :: m in errs <==> || NameError(Trim(i.name.GetOr(""))) == Some(m)
                                       || DescriptionError(Trim(i.description.GetOr(""))) == Some(m)
                                       || PriceError(i.price) == Some(m)
                                       || CategoryError(SetCategory(i.category.GetOr(""))) == Some(m)
    ensures forall j, k :: 0 <= j < k < |errs| ==> errs[j] != errs[k]
  {
    var name := NameError(Trim(i.name.GetOr("")));
    var description := DescriptionError(Trim(i.description.GetOr("")));
    var price := PriceError(i.price);
    var category := CategoryError(SetCategory(i.category.GetOr("")));
    PathMessagesDiffer(name, description, price, category);
    MessagesOfFour(name, description, price, category);
    Messages([name, description, price, category])
  }

  /** The messages of the four paths are all different. */
  lemma PathMessagesDiffer(name: Option<string>, description: Option<string>, price: Option<string>, category: Option<string>)
    requires name.Some? ==> name.value in {NameRequired, NameTooLong, NameTooShort, NameCharset}
    requires description.Some? ==> description.value in {DescriptionRequired, DescriptionTooLong, DescriptionTooShort}
    requires price.Some? ==> price.value in {PriceRequired, PriceNegative, PriceTooHigh, PriceFormat}
    requires category.Some? ==> category.value in {CategoryRequired, CategoryInvalid}
    ensures && (name.Some? ==> name != description && name != price && name != category)
            && (description.Some? ==> description != price && description != category)
            && (price.Some? ==> price != category)
  {
    assert DescriptionRequired[1] == 'l' && PriceNegative[1] == 'r';
  }

  /** `Item.create(body)` up to the write: the new document (inStock `true` unless supplied), or the messages. */
  function ValidateNewItem(i: ItemInput): (r: Checked<ItemFields>)
    ensures r.Accepted? <==> ItemErrors(i) == []
    ensures r.Accepted? ==> IsValidItem(r.value)
    ensures r.Accepted? ==> && r.value.name == Trim(i.name.GetOr(""))
                            && r.value.description == Trim(i.description.GetOr(""))
                            && r.value.price == i.price.value
                            && r.value.category == SetCategory(i.category.GetOr(""))
                            && r.value.inStock == i.inStock.GetOr(true)
    ensures r.Refused? ==> r.messages == ItemErrors(i)
  {
    var errs := ItemErrors(i);
    if errs == [] then
      Accepted(ItemFields(
        Trim(i.name.GetOr("")),
        Trim(i.description.GetOr("")),
        i.price.value,
        SetCategory(i.category.GetOr("")),
        i.inStock.GetOr(true)))
    else
      Refused(errs)
  }

  /** The body that supplies every path of `f`. */
  function ToInput(f: ItemFields): ItemInput {
    ItemInput(Some(f.name), Some(f.description), Some(f.price), Some(f.category), Some(f.inStock))
  }

  /** The setters leave the string paths of a valid item as they are. */
  lemma SettersKeepValidItem(f: ItemFields)
    requires IsValidItem(f)
    ensures Trim(f.name) == f.name && Trim(f.description) == f.description
    ensures SetCategory(f.category) == f.category
  {
    TrimOfTrimmed(f.name);
    TrimOfTrimmed(f.description);
    CategoriesAreSet(f.category);
  }

  /** A valid item's own fields pass every validator. */
  lemma ValidItemPasses(f: ItemFields)
    requires IsValidItem(f)
    ensures ItemErrors(ToInput(f)) == []
  {
    SettersKeepValidItem(f);
  }

  /** Submitting a valid item's own fields recreates exactly that item. */
  lemma ValidItemRoundTrip(f: ItemFields)
    requires IsValidItem(f)
    ensures ValidateNewItem(ToInput(f)) == Accepted(f)
  {
    ValidItemPasses(f);
    SettersKeepValidItem(f);
  }

  // ---- updateItem: the supplied paths are set and validated, the others kept ----

  /** The supplied paths, through their setters, replace those of `f`. */
  function ApplyPatch(f: ItemFields, p: ItemInput): (r: ItemFields)
    ensures r.name == if p.name.Some? then Trim(p.name.value) else f.name
    ensures r.description == if p.description.Some? then Trim(p.description.value) else f.description
    ensures r.price == p.price.GetOr(f.price)
    ensures r.category == if p.category.Some? then SetCategory(p.category.value) else f.category
    ensures r.inStock == p.inStock.GetOr(f.inStock)
  {
    ItemFields(
      if p.name.Some? then Trim(p.name.value) else f.name,
      if p.description.Some? then Trim(p.description.value) else f.description,
      p.price.GetOr(f.price),
      if p.category.Some? then SetCategory(p.category.value) else f.category,
      p.inStock.GetOr(f.inStock))
  }

  /** The update validators: the messages of the supplied paths only. */
  function PatchErrors(p: ItemInput): (errs: seq<string>)
    ensures errs == [] <==> (&& (p.name.Some? ==> NameError(Trim(p.name.value)).None?)
                              && (p.description.Some? ==> DescriptionError(Trim(p.description.value)).None?)
                              && (p.price.Some? ==> PriceOk(p.price.value))
                              && (p.category.Some? ==> SetCategory(p.category.value) in Categories))
  {
    var name := if p.name.Some? then NameError(Trim(p.name.value)) else None;
    var description := if p.description.Some? then DescriptionError(Trim(p.description.value)) else None;
    var price := if p.price.Some? then PriceError(p.price) else None;
    var category := if p.category.Some? then CategoryError(SetCategory(p.category.value)) else None;
    MessagesOfFour(name, description, price, category);
    Messages([name, description, price, category])
  }

  /** A refused update carries exactly the messages of its failing supplied paths. */
  lemma PatchErrorsAreSuppliedFailures(p: ItemInput)
    ensures forall m :: m in PatchErrors(p) <==> || (p.name.Some? && NameError(Trim(p.name.value)) == Some(m))
                                                  || (p.description.Some? && DescriptionError(Trim(p.description.value)) == Some(m))
                                                  || (p.price.Some? && PriceError(p.price) == Some(m))
                                                  || (p.category.Some? && CategoryError(SetCategory(p.category.value)) == Some(m))
  {
    var name := if p.name.Some? then NameError(Trim(p.name.value)) else None;
    var description := if p.description.Some? then DescriptionError(Trim(p.description.value)) else None;
    var price := if p.price.Some? then PriceError(p.price) else None;
    var category := if p.category.Some? then CategoryError(SetCategory(p.category.value)) else None;
    MessagesOfFour(name, description, price, category);
    assert PatchErrors(p) == Messages([name, description, price, category]);
    forall m
      ensures m in PatchErrors(p) <==> || (p.name.Some? && NameError(Trim(p.name.value)) == Some(m))
                                       || (p.description.Some? && DescriptionError(Trim(p.description.value)) == Some(m))
                                       || (p.price.Some? && PriceError(p.price) == Some(m))
                                       || (p.category.Some? && CategoryError(SetCategory(p.category.value)) == Some(m))
    {
      assert m in PatchErrors(p) <==> name == Some(m) || description == Some(m) || price == Some(m) || category == Some(m);
    }
  }

  /** No message of a refused update appears twice. */
  lemma PatchErrorsDistinct(p: ItemInput)
    ensures forall j, k :: 0 <= j < k < |PatchErrors(p)| ==> PatchErrors(p)[j] != PatchErrors(p)[k]
  {
    var name := if p.name.Some? then NameError(Trim(p.name.value)) else None;
    var description := if p.description.Some? then DescriptionError(Trim(p.description.value)) else None;
    var price := if p.price.Some? then PriceError(p.price) else None;
    var category := if p.category.Some? then CategoryError(SetCategory(p.category.value)) else None;
    PathMessagesDiffer(name, description, price, category);
    MessagesOfFour(name, description, price, category);
  }

  /** An update that passes its validators keeps a valid item valid. */
  lemma PatchKeepsValid(f: ItemFields, p: ItemInput)
    requires IsValidItem(f) && PatchErrors(p) == []
    ensures IsValidItem(ApplyPatch(f, p))
  {
    var r := ApplyPatch(f, p);
    assert IsTrimmed(r.name) && IsTrimmed(r.description);
  }
}
