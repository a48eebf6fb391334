/**
 * The built-in schema validators the two models use, with the document
 * store's meaning: `required` refuses the empty string, `maxlength` and
 * `minlength` bound the length (JavaScript's `length`, in UTF-16 code
 * units), `enum` accepts only the listed values, and
 * of the validators of one path the first that fails supplies that path's
 * message (the `required` validator is always consulted first; the others
 * follow in the order the schema lists them), which `OrElse` expresses.
 *
 * Every value reaching these functions is the one left after the path's
 * setters (`trim`, `lowercase`) and defaults; an absent string value is
 * passed as "" which fails `required` with the same message.
 */
module SchemaRules {
  import opened Wrappers
  import opened Text

  /** The outcome of validating a document: the document, or one message per failing path. */
  datatype Checked<T> = Accepted(value: T) | Refused(messages: seq<string>)

  /** `required: [true, msg]` on a string path. */
  function Required(v: string, msg: string): (e: Option<string>)
    ensures e.None? <==> v != []
    ensures e.Some? ==> e.value == msg
  {
    if v == [] then Some(msg) else None
  }

  /** `maxlength: [n, msg]`. */
  function MaxLength(v: string, n: nat, msg: string): (e: Option<string>)
    ensures e.None? <==> Utf16Length(v) <= n
    ensures e.Some? ==> e.value == msg
  {
    if Utf16Length(v) > n then Some(msg) else None
  }

  /** `minlength: [n, msg]`. */
  function MinLength(v: string, n: nat, msg: string): (e: Option<string>)
    ensures e.None? <==> Utf16Length(v) >= n
    ensures e.Some? ==> e.value == msg
  {
    if Utf16Length(v) < n then Some(msg) else None
  }

  /** `enum` with message `msg`. */
  function OneOf(v: string, values: seq<string>, msg: string): (e: Option<string>)
    ensures e.None? <==> v in values
    ensures e.Some? ==> e.value == msg
  {
    if v in values then None else Some(msg)
  }

  /** A custom `validate` or `match` rule whose outcome is `ok`. */
  function Rule(ok: bool, msg: string): (e: Option<string>)
    ensures e.None? <==> ok
    ensures e.Some? ==> e.value == msg
  {
    if ok then None else Some(msg)
  }

  /** The messages of a validation error, `Object.values(error.errors)`: one per failing path, in
      path order. When different paths fail with different messages, none is repeated. */
  function Messages(es: seq<Option<string>>): (errs: seq<string>)
    ensures |errs| <= |es|
    ensures errs == [] <==> forall e | e in es :: e.None?
    ensures forall m :: m in errs <==> Some(m) in es
    ensures (forall i, j :: 0 <= i < j < |es| && es[i].Some? ==> es[i] != es[j])
            ==> forall i, j :: 0 <= i < j < |errs| ==> errs[i] != errs[j]
  {
    if es == [] then []
    else
      var rest := Messages(es[1..]);
      assert forall m :: Some(m) in es <==> es[0] == Some(m) || Some(m) in es[1..];
      if es[0].None? then
        rest
      else
        var errs := [es[0].value] + rest;
        assert forall k :: 1 <= k < |errs| ==> errs[k] == rest[k - 1];
        errs
  }

  /** The messages of four paths: none iff no path fails, exactly the failing paths' messages, and
      none repeated when the failing paths' messages differ. */
  lemma MessagesOfFour(a: Option<string>, b: Option<string>, c: Option<string>, d: Option<string>)
    ensures Messages([a, b, c, d]) == [] <==> a.None? && b.None? && c.None? && d.None?
    ensures forall m :: m in Messages([a, b, c, d]) <==> a == Some(m) || b == Some(m) || c == Some(m) || d == Some(m)
    ensures (a.Some? ==> a != b && a != c && a != d) && (b.Some? ==> b != c && b != d) && (c.Some? ==> c != d)
            ==> var errs := Messages([a, b, c, d]); forall i, j :: 0 <= i < j < |errs| ==> errs[i] != errs[j]
  {
    FourEmpty(a, b, c, d);
    FourMembers(a, b, c, d);
    if (a.Some? ==> a != b && a != c && a != d) && (b.Some? ==> b != c && b != d) && (c.Some? ==> c != d) {
      FourDiffer(a, b, c, d);
    }
  }

  lemma FourEmpty(a: Option<string>, b: Option<string>, c: Option<string>, d: Option<string>)
    ensures Messages([a, b, c, d]) == [] <==> a.None? && b.None? && c.None? && d.None?
  {
    var es := [a, b, c, d];
    assert forall e | e in es :: e == a || e == b || e == c || e == d;
  }

  lemma FourMembers(a: Option<string>, b: Option<string>, c: Option<string>, d: Option<string>)
    ensures forall m :: m in Messages([a, b, c, d]) <==> a == Some(m) || b == Some(m) || c == Some(m) || d == Some(m)
  {
    var es := [a, b, c, d];
    assert forall m :: Some(m) in es <==> a == Some(m) || b == Some(m) || c == Some(m) || d == Some(m);
  }

  /** Four outcomes whose present ones differ from all those after them. */
  lemma FourDiffer(a: Option<string>, b: Option<string>, c: Option<string>, d: Option<string>)
    requires (a.Some? ==> a != b && a != c && a != d) && (b.Some? ==> b != c && b != d) && (c.Some? ==> c != d)
    ensures var errs := Messages([a, b, c, d]); forall i, j :: 0 <= i < j < |errs| ==> errs[i] != errs[j]
  {
    var es := [a, b, c, d];
    assert forall i, j :: 0 <= i < j < |es| && es[i].Some? ==> es[i] != es[j] by {
      forall i, j | 0 <= i < j < 4 && es[i].Some? ensures es[i] != es[j] {
        if i == 0 { assert es[i] == a && (es[j] == b || es[j] == c || es[j] == d); }
        else if i == 1 { assert es[i] == b && (es[j] == c || es[j] == d); }
        else { assert es[i] == c && es[j] == d; }
      }
    }
    var errs := Messages(es);
  }
}
