/**
 * ASCII models of the string library calls the blog relies on: Python's
 * `str.strip()` and `str.split(',')`, `str(i)` for a natural number, the
 * ASCII case folding behind `icontains`, and Django's `slugify`.
 */
module Text {

  // ----- character classes -----

  /** Python's whitespace in the ASCII range: \t \n \v \f \r, \x1c-\x1f and space. */
  predicate IsSpace(c: char) {
    c == ' ' || (9 <= c as int <= 13) || (28 <= c as int <= 31)
  }

  predicate IsDigit(c: char) { '0' <= c <= '9' }

  predicate IsUpper(c: char) { 'A' <= c <= 'Z' }

  predicate IsLower(c: char) { 'a' <= c <= 'z' }

  predicate IsAlnum(c: char) { IsUpper(c) || IsLower(c) || IsDigit(c) }

  /** The characters a slug is made of: lower-case ASCII letters, digits, '_' and '-'. */
  predicate IsSlugChar(c: char) { IsLower(c) || IsDigit(c) || c == '_' || c == '-' }

  function ToLower(c: char): (r: char)
    ensures IsUpper(c) ==> IsLower(r)
    ensures !IsUpper(c) ==> r == c
  {
    if IsUpper(c) then (c as int + 32) as char else c
  }

  function Lower(s: string): (r: string)
    ensures |r| == |s|
    ensures forall i :: 0 <= i < |s| ==> r[i] == ToLower(s[i])
  {
    if s == [] then [] else [ToLower(s[0])] + Lower(s[1..])
  }

  // ----- strip -----

  function TrimStart(s: string): (r: string)
    ensures |r| <= |s|
    ensures r == [] || !IsSpace(r[0])
  {
    if s != [] && IsSpace(s[0]) then TrimStart(s[1..]) else s
  }

  function TrimEnd(s: string): (r: string)
    ensures |r| <= |s|
    ensures r == [] || !IsSpace(r[|r| - 1])
    ensures r != [] ==> r[0] == s[0]
  {
    if s != [] && IsSpace(s[|s| - 1]) then TrimEnd(s[..|s| - 1]) else s
  }

  lemma {:induction false} TrimStartSuffix(s: string)
    ensures TrimStart(s) == s[|s| - |TrimStart(s)|..]
  {
    if s != [] && IsSpace(s[0]) {
      TrimStartSuffix(s[1..]);
    }
  }

  lemma {:induction false} TrimEndPrefix(s: string)
    ensures TrimEnd(s) == s[..|TrimEnd(s)|]
  {
    if s != [] && IsSpace(s[|s| - 1]) {
      TrimEndPrefix(s[..|s| - 1]);
    }
  }

  /** A string that neither starts nor ends with whitespace. */
  predicate IsStripped(s: string) {
    s == [] || (!IsSpace(s[0]) && !IsSpace(s[|s| - 1]))
  }

  /** Python's `s.strip()`: drop the leading and the trailing whitespace. */
  function Strip(s: string): (r: string)
    ensures IsStripped(r)
    ensures |r| <= |s|
  {
    TrimEnd(TrimStart(s))
  }

  /** What Strip keeps is a contiguous part of its input. */
  lemma StripSlice(s: string)
    ensures exists k :: OccursAt(s, Strip(s), k)
  {
    var t := TrimStart(s);
    var r := TrimEnd(t);
    TrimStartSuffix(s);
    TrimEndPrefix(t);
    assert r == Strip(s);
    assert r == s[|s| - |t|..|s| - |t| + |r|];
    assert OccursAt(s, r, |s| - |t|);
  }

  predicate AllSpace(t: string) {
    forall i :: 0 <= i < |t| ==> IsSpace(t[i])
  }

  /** `r` sits at `k` in `s`, with only whitespace before and after it. */
  predicate SpaceAround(s: string, r: string, k: int) {
    OccursAt(s, r, k) && AllSpace(s[..k]) && AllSpace(s[k + |r|..])
  }

  lemma {:induction false} TrimStartDrops(s: string)
    ensures AllSpace(s[..|s| - |TrimStart(s)|])
  {
    if s != [] && IsSpace(s[0]) {
      TrimStartDrops(s[1..]);
      assert s[..|s| - |TrimStart(s)|] == [s[0]] + s[1..][..|s[1..]| - |TrimStart(s[1..])|];
    }
  }

  lemma {:induction false} TrimEndDrops(s: string)
    ensures AllSpace(s[|TrimEnd(s)|..])
  {
    if s != [] && IsSpace(s[|s| - 1]) {
      var u := s[..|s| - 1];
      TrimEndDrops(u);
      assert s[|TrimEnd(s)|..] == u[|TrimEnd(u)|..] + [s[|s| - 1]];
    }
  }

  /** Strip removes whitespace only: what it drops on either side is all whitespace. */
  lemma StripOnlySpace(s: string)
    ensures exists k :: SpaceAround(s, Strip(s), k)
  {
    var t := TrimStart(s);
    var r := TrimEnd(t);
    var k := |s| - |t|;
    TrimStartSuffix(s);
    TrimEndPrefix(t);
    TrimStartDrops(s);
    TrimEndDrops(t);
    assert r == Strip(s);
    assert r == s[k..k + |r|];
    assert s[k + |r|..] == t[|r|..];
    assert SpaceAround(s, r, k);
  }

  /** Strip removes nothing from a string that is already stripped. */
  lemma StripFixed(s: string)
    requires IsStripped(s)
    ensures Strip(s) == s
  {
    if s != [] {
      assert TrimStart(s) == s;
      assert TrimEnd(s) == s;
    }
  }

  /** Strip is idempotent. */
  lemma StripIdempotent(s: string)
    ensures Strip(Strip(s)) == Strip(s)
  {
    StripFixed(Strip(s));
  }

  /** A string made of whitespace only strips to the empty string. */
  lemma {:induction false} StripAllSpace(s: string)
    requires forall i :: 0 <= i < |s| ==> IsSpace(s[i])
    ensures Strip(s) == []
  {
    if s != [] {
      StripAllSpace(s[1..]);
      assert TrimStart(s) == TrimStart(s[1..]);
    }
  }

  lemma {:induction false} TrimStartPadded(a: string, t: string)
    requires AllSpace(a) && (t == [] || !IsSpace(t[0]))
    ensures TrimStart(a + t) == t
  {
    if a != [] {
      assert (a + t)[0] == a[0];
      assert (a + t)[1..] == a[1..] + t;
      TrimStartPadded(a[1..], t);
    }
  }

  lemma {:induction false} TrimEndPadded(t: string, b: string)
    requires AllSpace(b) && (t == [] || !IsSpace(t[|t| - 1]))
    ensures TrimEnd(t + b) == t
  {
    if b == [] {
      assert t + b == t;
    } else {
      var u := b[..|b| - 1];
      assert (t + b)[|t + b| - 1] == b[|b| - 1];
      assert (t + b)[..|t + b| - 1] == t + u;
      TrimEndPadded(t, u);
    }
  }

  /** Whitespace added around a stripped string is exactly what strip removes. */
  lemma StripPadded(a: string, core: string, b: string)
    requires AllSpace(a) && AllSpace(b) && IsStripped(core)
    ensures Strip(a + core + b) == core
  {
    if core == [] {
      assert a + core + b == a + b;
      StripAllSpace(a + b);
    } else {
      assert a + core + b == a + (core + b);
      assert (core + b)[0] == core[0];
      TrimStartPadded(a, core + b);
      TrimEndPadded(core, b);
    }
  }

  // ----- split and join -----

  /** Python's `s.split(sep)`: always at least one piece. */
  function Split(s: string, sep: char): (r: seq<string>)
    ensures |r| >= 1
  {
    if s == [] then [[]]
    else
      var rest := Split(s[1..], sep);
      if s[0] == sep then [[]] + rest
      else [[s[0]] + rest[0]] + rest[1..]
  }

  /** No piece of a split holds the separator, and joining the pieces gives back the input. */
  lemma {:induction false} SplitPieces(s: string, sep: char)
    ensures forall i :: 0 <= i < |Split(s, sep)| ==> sep !in Split(s, sep)[i]
    ensures Join(Split(s, sep), sep) == s
  {
    if s != [] {
      var rest := Split(s[1..], sep);
      SplitPieces(s[1..], sep);
      assert s == [s[0]] + s[1..];
      if s[0] == sep {
        assert ([[]] + rest)[1..] == rest;
      } else {
        var r := [[s[0]] + rest[0]] + rest[1..];
        assert r[1..] == rest[1..];
      }
    }
  }

  /** `sep.join(parts)`. */
  function Join(parts: seq<string>, sep: char): (r: string)
  {
    if parts == [] then []
    else if |parts| == 1 then parts[0]
    else parts[0] + [sep] + Join(parts[1..], sep)
  }

  /** Splitting undoes joining, for non-empty lists of pieces free of the separator. */
  lemma {:induction false} SplitJoin(parts: seq<string>, sep: char)
    requires |parts| >= 1
    requires forall i :: 0 <= i < |parts| ==> sep !in parts[i]
    ensures Split(Join(parts, sep), sep) == parts
  {
    if |parts| == 1 {
      SplitPiece(parts[0], sep);
    } else {
      SplitJoin(parts[1..], sep);
      SplitPrefix(parts[0], Join(parts[1..], sep), sep);
      assert [parts[0]] + parts[1..] == parts;
    }
  }

  /** A string without the separator splits into itself. */
  lemma {:induction false} SplitPiece(p: string, sep: char)
    requires sep !in p
    ensures Split(p, sep) == [p]
  {
    if p != [] {
      SplitPiece(p[1..], sep);
      assert [p[0]] + p[1..] == p;
    }
  }

  /** Splitting `p + sep + t`, where `p` is free of `sep`, gives `p` followed by the pieces of `t`. */
  lemma {:induction false} SplitPrefix(p: string, t: string, sep: char)
    requires sep !in p
    ensures Split(p + [sep] + t, sep) == [p] + Split(t, sep)
  {
    var s := p + [sep] + t;
    if p == [] {
      assert s == [sep] + t;
      assert s[1..] == t;
    } else {
      assert s[0] == p[0];
      assert s[1..] == p[1..] + [sep] + t;
      SplitPrefix(p[1..], t, sep);
      var rest := Split(s[1..], sep);
      assert rest[0] == p[1..] && rest[1..] == Split(t, sep);
      assert [p[0]] + p[1..] == p;
    }
  }

  // ----- substring search -----

  predicate OccursAt(hay: string, needle: string, i: int) {
    0 <= i && i + |needle| <= |hay| && hay[i..i + |needle|] == needle
  }

  /** Substring test, the model of SQL `LIKE '%needle%'`. */
  function Contains(hay: string, needle: string): (r: bool)
    ensures r <==> exists i :: OccursAt(hay, needle, i)
  {
    if |needle| > |hay| then
      assert forall i :: !OccursAt(hay, needle, i);
      false
    else if hay[..|needle|] == needle then
      assert OccursAt(hay, needle, 0);
      true
    else
      var r := Contains(hay[1..], needle);
      assert forall i :: OccursAt(hay[1..], needle, i) <==> OccursAt(hay, needle, i + 1) by {
        forall i ensures OccursAt(hay[1..], needle, i) <==> OccursAt(hay, needle, i + 1) {
          if 0 <= i && i + |needle| <= |hay[1..]| {
            assert hay[1..][i..i + |needle|] == hay[i + 1..i + 1 + |needle|];
          }
        }
      }
      assert r ==> exists i :: OccursAt(hay, needle, i) by {
        if r {
          var i :| OccursAt(hay[1..], needle, i);
          assert OccursAt(hay, needle, i + 1);
        }
      }
      assert (exists i :: OccursAt(hay, needle, i)) ==> r by {
        if exists i :: OccursAt(hay, needle, i) {
          var i :| OccursAt(hay, needle, i);
          assert i != 0;
          assert OccursAt(hay[1..], needle, i - 1);
        }
      }
      r
  }

  /** ASCII case-insensitive substring test (`icontains`). */
  function IContains(hay: string, needle: string): bool
  {
    Contains(Lower(hay), Lower(needle))
  }

  /** A string contains itself case-insensitively. */
  lemma IContainsSelf(s: string)
    ensures IContains(s, s)
  {
    assert Lower(s)[0..|s|] == Lower(s);
    assert OccursAt(Lower(s), Lower(s), 0);
  }

  /** The index of the last occurrence of `c` in `s`, or -1 when there is none. */
  function LastIndex(s: string, c: char): (r: int)
    ensures -1 <= r < |s|
    ensures r >= 0 ==> s[r] == c
    ensures forall i :: r < i < |s| ==> s[i] != c
  {
    if s == [] then -1
    else if s[|s| - 1] == c then |s| - 1
    else LastIndex(s[..|s| - 1], c)
  }

  /** ASCII lower-casing changes nothing the second time. */
  lemma LowerIdempotent(s: string)
    ensures Lower(Lower(s)) == Lower(s)
  {
  }

  // ----- decimal numerals: Python's str(i) for i >= 0 -----

  function DigitChar(d: nat): (c: char)
    requires d < 10
    ensures IsDigit(c)
  {
    ('0' as int + d) as char
  }

  function DigitValue(c: char): (d: nat)
    requires IsDigit(c)
    ensures d < 10
  {
    c as int - '0' as int
  }

  function NatToString(n: nat): (r: string)
    ensures |r| >= 1
    ensures forall i :: 0 <= i < |r| ==> IsDigit(r[i])
  {
    if n < 10 then [DigitChar(n)] else NatToString(n / 10) + [DigitChar(n % 10)]
  }

  function ParseNat(s: string): nat
    requires forall i :: 0 <= i < |s| ==> IsDigit(s[i])
  {
    if s == [] then 0 else ParseNat(s[..|s| - 1]) * 10 + DigitValue(s[|s| - 1])
  }

  /** Reading back a numeral gives the number it was written from. */
  lemma {:induction false} ParseNatToString(n: nat)
    ensures ParseNat(NatToString(n)) == n
  {
    var s := NatToString(n);
    if n >= 10 {
      ParseNatToString(n / 10);
      assert s[..|s| - 1] == NatToString(n / 10);
    }
  }

  /** Distinct numbers have distinct numerals. */
  lemma NatToStringInjective(a: nat, b: nat)
    requires NatToString(a) == NatToString(b)
    ensures a == b
  {
    ParseNatToString(a);
    ParseNatToString(b);
  }

  // ----- slugify -----

  /** The separators that slugify turns into one hyphen. */
  predicate IsSeparator(c: char) { c == '-' || IsSpace(c) }

  /** What Clean leaves: slug characters and whitespace. */
  predicate IsCleanChar(c: char) { IsSlugChar(c) || IsSpace(c) }

  /** Keep letters, digits, '_', '-' and whitespace, lower-cased; drop everything else. */
  function Clean(s: string): (r: string)
    ensures |r| <= |s|
  {
    if s == [] then []
    else
      var c := s[0];
      (if IsAlnum(c) || c == '_' || IsSeparator(c) then [ToLower(c)] else []) + Clean(s[1..])
  }

  /** Only lower-case letters, digits, '_', '-' and whitespace survive Clean. */
  lemma {:induction false} CleanChars(s: string)
    ensures forall i :: 0 <= i < |Clean(s)| ==> IsCleanChar(Clean(s)[i])
  {
    if s != [] {
      CleanChars(s[1..]);
    }
  }

  function DropSeparators(s: string): (r: string)
    ensures |r| <= |s|
    ensures r == [] || !IsSeparator(r[0])
  {
    if s != [] && IsSeparator(s[0]) then DropSeparators(s[1..]) else s
  }

  lemma {:induction false} DropSeparatorsSuffix(s: string)
    ensures DropSeparators(s) == s[|s| - |DropSeparators(s)|..]
  {
    if s != [] && IsSeparator(s[0]) {
      DropSeparatorsSuffix(s[1..]);
    }
  }

  /** Replace every run of separators by a single '-'. */
  function Hyphenate(s: string): (r: string)
    ensures s != [] && !IsSeparator(s[0]) ==> r != [] && r[0] == s[0]
    decreases |s|
  {
    if s == [] then []
    else if IsSeparator(s[0]) then ['-'] + Hyphenate(DropSeparators(s[1..]))
    else [s[0]] + Hyphenate(s[1..])
  }

  /** Hyphenating clean text leaves slug characters only. */
  lemma {:induction false} HyphenateChars(s: string)
    requires forall i :: 0 <= i < |s| ==> IsCleanChar(s[i])
    ensures forall i :: 0 <= i < |Hyphenate(s)| ==> IsSlugChar(Hyphenate(s)[i])
    decreases |s|
  {
    if s != [] {
      if IsSeparator(s[0]) {
        var t := DropSeparators(s[1..]);
        DropSeparatorsSuffix(s[1..]);
        assert forall i :: 0 <= i < |t| ==> t[i] == s[|s| - |t| + i];
        HyphenateChars(t);
      } else {
        HyphenateChars(s[1..]);
      }
    }
  }

  /** After Hyphenate no two hyphens are adjacent. */
  lemma {:induction false} HyphenateSingle(s: string)
    ensures forall i :: 0 <= i < |Hyphenate(s)| - 1 ==> !(Hyphenate(s)[i] == '-' && Hyphenate(s)[i + 1] == '-')
    decreases |s|
  {
    if s != [] {
      if IsSeparator(s[0]) {
        var t := DropSeparators(s[1..]);
        HyphenateSingle(t);
      } else {
        HyphenateSingle(s[1..]);
      }
    }
  }

  predicate IsEdge(c: char) { c == '-' || c == '_' }

  /** `strip('-_')`. */
  function StripEdges(s: string): (r: string)
    ensures r == [] || (!IsEdge(r[0]) && !IsEdge(r[|r| - 1]))
  {
    if s == [] then []
    else if IsEdge(s[0]) then StripEdges(s[1..])
    else if IsEdge(s[|s| - 1]) then StripEdges(s[..|s| - 1])
    else s
  }

  /** The stripped text is a contiguous piece of the input. */
  lemma {:induction false} StripEdgesSlice(s: string)
    ensures exists k :: OccursAt(s, StripEdges(s), k)
  {
    if s == [] {
      assert StripEdges(s) == [] && s[0..0] == [];
      assert OccursAt(s, [], 0);
    } else if IsEdge(s[0]) {
      var r := StripEdges(s[1..]);
      assert StripEdges(s) == r;
      StripEdgesSlice(s[1..]);
      var k :| OccursAt(s[1..], r, k);
      assert r == s[k + 1..k + 1 + |r|];
      assert OccursAt(s, r, k + 1);
    } else if IsEdge(s[|s| - 1]) {
      var r := StripEdges(s[..|s| - 1]);
      assert StripEdges(s) == r;
      StripEdgesSlice(s[..|s| - 1]);
      var k :| OccursAt(s[..|s| - 1], r, k);
      assert r == s[k..k + |r|];
      assert OccursAt(s, r, k);
    } else {
      assert StripEdges(s) == s;
      assert s[0..|s|] == s;
      assert OccursAt(s, s, 0);
    }
  }

  /** ASCII model of Django's `slugify(title)`. */
  function Slugify(title: string): (r: string)
    ensures r == [] || (!IsEdge(r[0]) && !IsEdge(r[|r| - 1]))
  {
    StripEdges(Hyphenate(Clean(title)))
  }

  /**
   * A slug has only lower-case letters, digits, '_' and '-', neither '-' nor
   * '_' at either end, and no two hyphens in a row.
   */
  lemma SlugifyWellFormed(title: string)
    ensures forall i :: 0 <= i < |Slugify(title)| ==> IsSlugChar(Slugify(title)[i])
    ensures forall i :: 0 <= i < |Slugify(title)| - 1 ==> !(Slugify(title)[i] == '-' && Slugify(title)[i + 1] == '-')
  {
    var h := Hyphenate(Clean(title));
    var r := StripEdges(h);
    CleanChars(title);
    HyphenateChars(Clean(title));
    HyphenateSingle(Clean(title));
    StripEdgesSlice(h);
    var k :| OccursAt(h, r, k);
    assert forall i :: 0 <= i < |r| ==> r[i] == h[k + i];
  }
}
