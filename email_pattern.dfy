/**
 * The e-mail pattern of models/user.js,
 *   ^\w+([.-]?\w+)*@\w+([.-]?\w+)*(\.\w{2,3})+$
 * written twice: once clause by clause after the regular expression (the
 * predicates ending in `Re`), and once as a plain description of the
 * strings it accepts (the predicates ending in `Shape`). The lemmas prove
 * the two agree on every string.
 */
module EmailPattern {
  import opened Text

  /** The separators `[.-]`. */
  predicate IsSep(c: char) {
    c == '.' || c == '-'
  }

  // ---- The regular expression, clause by clause ----

  /** `\w+` */
  predicate WordsRe(s: string) {
    |s| >= 1 && AllWordChars(s)
  }

  /** `[.-]?\w+` */
  predicate GroupRe(s: string) {
    WordsRe(s) || (|s| >= 2 && IsSep(s[0]) && WordsRe(s[1..]))
  }

  /** `([.-]?\w+)*` */
  predicate GroupsRe(s: string)
    decreases |s|
  {
    s == [] || exists k :: 1 <= k <= |s| && GroupRe(s[..k]) && GroupsRe(s[k..])
  }

  /** `\w+([.-]?\w+)*`: the local part, and the start of the domain. */
  predicate NameRe(s: string) {
    exists k :: 1 <= k <= |s| && WordsRe(s[..k]) && GroupsRe(s[k..])
  }

  /** `(\.\w{2,3})+` */
  predicate SuffixesRe(s: string)
    decreases |s|
  {
    exists k :: 3 <= k <= 4 && k <= |s| && s[0] == '.' && AllWordChars(s[1..k])
                && (k == |s| || SuffixesRe(s[k..]))
  }

  /** `\w+([.-]?\w+)*(\.\w{2,3})+` */
  predicate DomainRe(s: string) {
    exists k :: 1 <= k <= |s| && NameRe(s[..k]) && SuffixesRe(s[k..])
  }

  /** The whole pattern, anchored at both ends. */
  predicate MatchesEmail(s: string) {
    exists i :: 0 <= i < |s| && s[i] == '@' && NameRe(s[..i]) && DomainRe(s[i + 1..])
  }

  // ---- The accepted strings, described directly ----

  /** Only word characters and separators. */
  predicate NameChars(s: string) {
    forall i :: 0 <= i < |s| ==> IsWordChar(s[i]) || IsSep(s[i])
  }

  /** No separator is followed by another one. */
  predicate NoDoubleSep(s: string) {
    forall i :: 0 <= i < |s| - 1 ==> !(IsSep(s[i]) && IsSep(s[i + 1]))
  }

  /** What `([.-]?\w+)*` accepts: empty, or separated words ending with a word character. */
  predicate GroupsShape(s: string) {
    s == [] || (NameChars(s) && NoDoubleSep(s) && IsWordChar(s[|s| - 1]))
  }

  /** What `\w+([.-]?\w+)*` accepts: the same, starting with a word character. */
  predicate NameShape(s: string) {
    |s| >= 1 && IsWordChar(s[0]) && GroupsShape(s)
  }

  /** `s[j]` is a dot followed by 2 or 3 word characters that end the string. */
  predicate LabelAt(s: string, j: int) {
    0 <= j < |s| && s[j] == '.' && 2 <= |s| - j - 1 <= 3 && AllWordChars(s[j + 1..])
  }

  /** What the domain part accepts: a name whose last label follows a dot and has 2 or 3 characters. */
  predicate DomainShape(s: string) {
    NameShape(s) && exists j :: 0 <= j < |s| && LabelAt(s, j)
  }

  /** What the whole pattern accepts, described directly. */
  predicate EmailShape(s: string) {
    exists i :: 0 <= i < |s| && s[i] == '@' && NameShape(s[..i]) && DomainShape(s[i + 1..])
  }

  // ---- The two descriptions agree ----

  /** A name-like prefix ending in a word character, followed by a groups-shaped string, is groups-shaped. */
  lemma ConcatShape(a: string, b: string)
    requires |a| >= 1 && NameChars(a) && NoDoubleSep(a) && IsWordChar(a[|a| - 1])
    requires GroupsShape(b)
    ensures GroupsShape(a + b)
    ensures IsWordChar(a[0]) ==> NameShape(a + b)
  {
    var s := a + b;
    if b == [] {
      assert s == a;
    } else {
      forall i | 0 <= i < |s| ensures IsWordChar(s[i]) || IsSep(s[i]) {
        if i < |a| { assert s[i] == a[i]; } else { assert s[i] == b[i - |a|]; }
      }
      forall i | 0 <= i < |s| - 1 ensures !(IsSep(s[i]) && IsSep(s[i + 1])) {
        if i < |a| - 1 {
          assert s[i] == a[i] && s[i + 1] == a[i + 1];
        } else if i == |a| - 1 {
          assert s[i] == a[|a| - 1];
        } else {
          assert s[i] == b[i - |a|] && s[i + 1] == b[i + 1 - |a|];
        }
      }
      assert s[|s| - 1] == b[|b| - 1];
    }
    assert s[0] == a[0];
  }

  /** One `[.-]?\w+` group followed by groups-shaped text is groups-shaped. */
  lemma GroupThenShape(g: string, t: string)
    requires GroupRe(g) && GroupsShape(t)
    ensures GroupsShape(g + t)
  {
    if WordsRe(g) {
      ConcatShape(g, t);
    } else {
      forall i | 0 <= i < |g| - 1 ensures !(IsSep(g[i]) && IsSep(g[i + 1])) {
        assert g[i + 1] == g[1..][i];
      }
      forall i | 0 <= i < |g| ensures IsWordChar(g[i]) || IsSep(g[i]) {
        if i > 0 { assert g[i] == g[1..][i - 1]; }
      }
      assert g[|g| - 1] == g[1..][|g| - 2];
      ConcatShape(g, t);
    }
  }

  /** Everything `([.-]?\w+)*` accepts is groups-shaped. */
  lemma {:induction false} GroupsReToShape(s: string)
    decreases |s|
    requires GroupsRe(s)
    ensures GroupsShape(s)
  {
    if s != [] {
      var k :| 1 <= k <= |s| && GroupRe(s[..k]) && GroupsRe(s[k..]);
      GroupsReToShape(s[k..]);
      GroupThenShape(s[..k], s[k..]);
      assert s == s[..k] + s[k..];
    }
  }

  /** Dropping the first character of a groups-shaped string that has a word character second keeps it groups-shaped. */
  lemma DropShape(s: string, n: nat)
    requires GroupsShape(s) && n <= |s|
    requires n < |s| ==> IsWordChar(s[n]) || n == 0 || !IsSep(s[n - 1])
    ensures GroupsShape(s[n..])
  {
    var t := s[n..];
    if t != [] {
      assert forall i :: 0 <= i < |t| ==> t[i] == s[i + n];
      assert t[|t| - 1] == s[|s| - 1];
    }
  }

  /** Everything groups-shaped is accepted by `([.-]?\w+)*`. */
  lemma {:induction false} GroupsShapeToRe(s: string)
    decreases |s|
    requires GroupsShape(s)
    ensures GroupsRe(s)
  {
    if s == [] {
      return;
    }
    var k := if IsSep(s[0]) then 2 else 1;
    if IsSep(s[0]) {
      assert !IsSep(s[|s| - 1]);
      assert |s| >= 2;
      assert !(IsSep(s[0]) && IsSep(s[1]));
      assert s[..2][1..] == s[1..2];
    }
    assert GroupRe(s[..k]);
    DropShape(s, k);
    GroupsShapeToRe(s[k..]);
  }

  /** `([.-]?\w+)*` accepts exactly the groups-shaped strings. */
  lemma GroupsReShape(s: string)
    ensures GroupsRe(s) <==> GroupsShape(s)
  {
    if GroupsRe(s) { GroupsReToShape(s); }
    if GroupsShape(s) { GroupsShapeToRe(s); }
  }

  /** `\w+([.-]?\w+)*` accepts exactly the name-shaped strings. */
  lemma NameReShape(s: string)
    ensures NameRe(s) <==> NameShape(s)
  {
    if NameRe(s) {
      var k :| 1 <= k <= |s| && WordsRe(s[..k]) && GroupsRe(s[k..]);
      GroupsReShape(s[k..]);
      var a := s[..k];
      assert a[|a| - 1] == s[k - 1];
      ConcatShape(a, s[k..]);
      assert s == a + s[k..];
    }
    if NameShape(s) {
      var t := s[1..];
      assert GroupsShape(t) by {
        if t != [] {
          assert forall i :: 0 <= i < |t| ==> t[i] == s[i + 1];
          assert t[|t| - 1] == s[|s| - 1];
        }
      }
      GroupsReShape(t);
      assert WordsRe(s[..1]);
    }
  }

  /** A label at the end of `t` is still at the end of `g + t`. */
  lemma LabelAtShift(g: string, t: string, j: int)
    requires LabelAt(t, j)
    ensures LabelAt(g + t, |g| + j)
  {
    assert (g + t)[|g| + j + 1..] == t[j + 1..];
  }

  /** One `\.\w{2,3}` group: a dot and 2 or 3 word characters. */
  lemma SuffixGroupShape(g: string)
    requires 3 <= |g| <= 4 && g[0] == '.' && AllWordChars(g[1..])
    ensures NameChars(g) && NoDoubleSep(g) && IsWordChar(g[|g| - 1]) && LabelAt(g, 0)
  {
    assert forall i :: 1 <= i < |g| ==> g[i] == g[1..][i - 1];
  }

  /** A string `(\.\w{2,3})+` accepts is groups-shaped, starts with a dot and ends with a 2-3 character label. */
  lemma {:induction false} SuffixesReShape(s: string)
    decreases |s|
    requires SuffixesRe(s)
    ensures |s| >= 3 && s[0] == '.' && GroupsShape(s)
    ensures exists j :: 0 <= j < |s| && LabelAt(s, j)
  {
    var k :| 3 <= k <= 4 && k <= |s| && s[0] == '.' && AllWordChars(s[1..k])
             && (k == |s| || SuffixesRe(s[k..]));
    if k == |s| {
      GroupThenSuffixesShape(s, k);
    } else {
      var t := s[k..];
      assert GroupsShape(t) && exists j :: 0 <= j < |t| && LabelAt(t, j) by {
        SuffixesReShape(t);
      }
      GroupThenSuffixesShape(s, k);
    }
  }

  /** A `\.\w{2,3}` group of `k` characters that ends `s`, or is followed by groups ending in a
      label, leaves `s` groups-shaped and ending in a label. */
  lemma GroupThenSuffixesShape(s: string, k: nat)
    requires 3 <= k <= 4 && k <= |s| && s[0] == '.' && AllWordChars(s[1..k])
    requires k < |s| ==> GroupsShape(s[k..]) && exists j :: 0 <= j < |s[k..]| && LabelAt(s[k..], j)
    ensures |s| >= 3 && s[0] == '.' && GroupsShape(s)
    ensures exists j :: 0 <= j < |s| && LabelAt(s, j)
  {
    var g, t := s[..k], s[k..];
    assert g[1..] == s[1..k];
    SuffixGroupShape(g);
    if k == |s| {
      assert s == g;
    } else {
      ConcatShape(g, t);
      var j :| 0 <= j < |t| && LabelAt(t, j);
      LabelAtShift(g, t, j);
      assert s == g + t;
    }
  }

  /** The domain clause accepts only domain-shaped strings. */
  lemma DomainReToShape(s: string)
    requires DomainRe(s)
    ensures DomainShape(s)
  {
    var k :| 1 <= k <= |s| && NameRe(s[..k]) && SuffixesRe(s[k..]);
    SplitDomainShape(s[..k], s[k..]);
    assert s == s[..k] + s[k..];
  }

  /** A name the clause accepts followed by suffixes the clause accepts is domain-shaped. */
  lemma SplitDomainShape(a: string, t: string)
    requires NameRe(a) && SuffixesRe(t)
    ensures DomainShape(a + t)
  {
    assert NameShape(a) by { NameReShape(a); }
    assert |t| >= 3 && t[0] == '.' && GroupsShape(t) && exists j :: 0 <= j < |t| && LabelAt(t, j) by {
      SuffixesReShape(t);
    }
    NameThenSuffixesShape(a, t);
  }

  /** A name followed by dotted suffixes ending in a 2-3 character label is domain-shaped. */
  lemma NameThenSuffixesShape(a: string, t: string)
    requires NameShape(a)
    requires |t| >= 3 && t[0] == '.' && GroupsShape(t)
    requires exists j :: 0 <= j < |t| && LabelAt(t, j)
    ensures DomainShape(a + t)
  {
    ConcatShape(a, t);
    var j :| 0 <= j < |t| && LabelAt(t, j);
    LabelAtShift(a, t, j);
  }

  /** The domain clause accepts every domain-shaped string. */
  lemma DomainShapeToRe(s: string)
    requires DomainShape(s)
    ensures DomainRe(s)
  {
    var j :| 0 <= j < |s| && LabelAt(s, j);
    assert IsSep(s[j]);
    assert j >= 1;
    assert !IsSep(s[j - 1]);
    var a, t := s[..j], s[j..];
    assert NameShape(a) by {
      assert a[0] == s[0] && a[|a| - 1] == s[j - 1];
      assert forall i :: 0 <= i < |a| ==> a[i] == s[i];
    }
    NameReShape(a);
    assert t[1..|t|] == s[j + 1..];
    assert SuffixesRe(t);
    assert s[..j] == a && s[j..] == t;
  }

  /** The domain clause accepts exactly the domain-shaped strings. */
  lemma DomainReShape(s: string)
    ensures DomainRe(s) <==> DomainShape(s)
  {
    if DomainRe(s) { DomainReToShape(s); }
    if DomainShape(s) { DomainShapeToRe(s); }
  }

  /** The pattern accepts exactly the strings described by EmailShape. */
  lemma MatchesEmailShape(s: string)
    ensures MatchesEmail(s) <==> EmailShape(s)
  {
    forall i | 0 <= i < |s|
      ensures NameRe(s[..i]) == NameShape(s[..i]) && DomainRe(s[i + 1..]) == DomainShape(s[i + 1..])
    {
      NameReShape(s[..i]);
      DomainReShape(s[i + 1..]);
    }
  }

  /** The stand-in user's address is accepted. */
  lemma TestAddressMatches()
    ensures MatchesEmail("test@test.com")
  {
    var s := "test@test.com";
    MatchesEmailShape(s);
    assert s[4] == '@';
    assert s[..4] == "test";
    var d := s[5..];
    assert d == "test.com";
    assert d[5..] == "com";
    assert LabelAt(d, 4);
    assert NameShape(d);
  }

  /** A domain without a dotted 2-3 character suffix is refused. */
  lemma ShortSuffixRefused()
    ensures !MatchesEmail("a@b.c")
  {
    var s := "a@b.c";
    MatchesEmailShape(s);
    assert forall i :: 0 <= i < |s| && s[i] == '@' ==> i == 1;
    assert s[2..] == "b.c";
    assert !DomainShape("b.c");
  }
}
