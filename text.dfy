/**
 * The string operations the registry relies on: Python's str.strip(),
 * str.isidentifier(), str.lower(), str.title() and the ordering of str.
 * Case mapping and identifiers are modelled for ASCII; strip() uses the
 * full set of characters Python treats as whitespace.
 */
module Text {
  import opened Outcomes

  /** The characters for which Python's str.isspace() holds. */
  predicate IsSpace(c: char) {
    c == ' ' || ('\t' <= c <= '\r') || ('\U{1C}' <= c <= '\U{1F}') ||
    c == '\U{85}' || c == '\U{A0}' || c == '\U{1680}' ||
    ('\U{2000}' <= c <= '\U{200A}') || c == '\U{2028}' || c == '\U{2029}' ||
    c == '\U{202F}' || c == '\U{205F}' || c == '\U{3000}'
  }

  predicate AllSpace(s: string) {
    forall k :: 0 <= k < |s| ==> IsSpace(s[k])
  }

  /** Every character of s from position lo up to (not including) hi is whitespace. */
  predicate SpaceBetween(s: string, lo: nat, hi: nat)
    requires lo <= hi <= |s|
  {
    forall k :: lo <= k < hi ==> IsSpace(s[k])
  }

  function StripLeft(s: string): (r: string)
    ensures |r| <= |s| && r == s[|s| - |r|..]
    ensures r == [] || !IsSpace(r[0])
    ensures SpaceBetween(s, 0, |s| - |r|)
  {
    if s != [] && IsSpace(s[0]) then
      var r := StripLeft(s[1..]);
      StripLeftStep(s, r);
      r
    else s
  }

  /** A blank first character, then blanks, then r: r is a suffix of s behind a blank prefix. */
  lemma StripLeftStep(s: string, r: string)
    requires s != [] && IsSpace(s[0]) && |r| <= |s| - 1
    requires r == s[1..][|s| - 1 - |r|..] && SpaceBetween(s[1..], 0, |s| - 1 - |r|)
    ensures r == s[|s| - |r|..] && SpaceBetween(s, 0, |s| - |r|)
  {
    assert s[1..][|s| - 1 - |r|..] == s[|s| - |r|..];
    forall k | 0 < k < |s| - |r| ensures IsSpace(s[k]) {
      assert s[k] == s[1..][k - 1];
    }
  }

  function StripRight(s: string): (r: string)
    ensures |r| <= |s| && r == s[..|r|]
    ensures r == [] || !IsSpace(r[|r| - 1])
    ensures SpaceBetween(s, |r|, |s|)
  {
    if s != [] && IsSpace(s[|s| - 1]) then
      var r := StripRight(s[..|s| - 1]);
      StripRightStep(s, r);
      r
    else s
  }

  /** r, then blanks, then a blank last character: r is a prefix of s before a blank suffix. */
  lemma StripRightStep(s: string, r: string)
    requires s != [] && IsSpace(s[|s| - 1]) && |r| <= |s| - 1
    requires r == s[..|s| - 1][..|r|] && SpaceBetween(s[..|s| - 1], |r|, |s| - 1)
    ensures r == s[..|r|] && SpaceBetween(s, |r|, |s|)
  {
    assert s[..|s| - 1][..|r|] == s[..|r|];
    forall k | |r| <= k < |s| - 1 ensures IsSpace(s[k]) {
      assert s[k] == s[..|s| - 1][k];
    }
  }

  /** The number of whitespace characters str.strip() removes from the front of s. */
  function Leading(s: string): (n: nat)
    ensures n <= |s|
  {
    |s| - |StripLeft(s)|
  }

  /**
   * str.strip(): the slice of s that starts at its first non-blank and ends
   * at its last non-blank character; everything cut off is whitespace.
   */
  function Strip(s: string): (r: string)
    ensures r == [] || (!IsSpace(r[0]) && !IsSpace(r[|r| - 1]))
    ensures Leading(s) + |r| <= |s| && r == s[Leading(s)..Leading(s) + |r|]
    ensures SpaceBetween(s, 0, Leading(s)) && SpaceBetween(s, Leading(s) + |r|, |s|)
  {
    var l := StripLeft(s);
    var r := StripRight(l);
    StripSlices(s, |s| - |l|, l, r);
    r
  }

  /** A prefix of the suffix of s from i is a slice of s, and what follows it is what follows that slice. */
  lemma StripSlices(s: string, i: nat, l: string, r: string)
    requires i <= |s| && l == s[i..] && |r| <= |l| && r == l[..|r|] && SpaceBetween(l, |r|, |l|)
    ensures r == s[i..i + |r|] && SpaceBetween(s, i + |r|, |s|) && (r == [] || r[0] == l[0])
  {
    forall k | i + |r| <= k < |s| ensures IsSpace(s[k]) {
      assert s[k] == l[k - i];
    }
  }

  predicate IsAsciiLetter(c: char) {
    ('a' <= c <= 'z') || ('A' <= c <= 'Z')
  }

  predicate IsDigit(c: char) {
    '0' <= c <= '9'
  }

  /** str.isidentifier() restricted to ASCII: a letter or underscore, then letters, digits, underscores. */
  predicate IsIdentifier(s: string) {
    |s| > 0 && (IsAsciiLetter(s[0]) || s[0] == '_') &&
    forall k :: 1 <= k < |s| ==> IsAsciiLetter(s[k]) || IsDigit(s[k]) || s[k] == '_'
  }

  /**
   * sanitize_var_name: strip the name, and refuse it unless what is left is
   * an identifier.
   */
  function Sanitize(name: string): (r: Result<string>)
    ensures r.Ok? ==> IsIdentifier(r.value) && r.value == Strip(name)
    ensures r.Err? ==> r.error == InvalidName && !IsIdentifier(Strip(name))
  {
    var s := Strip(name);
    if s == [] || !IsIdentifier(s) then Err(InvalidName) else Ok(s)
  }

  lemma {:induction false} StripLeftPadded(a: string, x: string)
    requires AllSpace(a) && x != [] && !IsSpace(x[0])
    ensures StripLeft(a + x) == x
  {
    if a != [] {
      assert (a + x)[1..] == a[1..] + x;
      StripLeftPadded(a[1..], x);
    } else {
      assert a + x == x;
    }
  }

  lemma {:induction false} StripRightPadded(x: string, b: string)
    requires AllSpace(b) && x != [] && !IsSpace(x[|x| - 1])
    ensures StripRight(x + b) == x
  {
    if b != [] {
      assert (x + b)[..|x + b| - 1] == x + b[..|b| - 1];
      StripRightPadded(x, b[..|b| - 1]);
    } else {
      assert x + b == x;
    }
  }

  /**
   * An identifier surrounded by any whitespace sanitises to itself: the
   * name rules accept exactly the identifiers, up to surrounding blanks.
   */
  lemma SanitizePadded(a: string, x: string, b: string)
    requires AllSpace(a) && AllSpace(b) && IsIdentifier(x)
    ensures Sanitize(a + x + b) == Ok(x)
  {
    var s := a + x + b;
    assert s == a + (x + b);
    assert !IsSpace(x[0]) && !IsSpace(x[|x| - 1]);
    assert (x + b)[0] == x[0];
    StripLeftPadded(a, x + b);
    StripRightPadded(x, b);
    assert Strip(s) == StripRight(StripLeft(s)) == x;
  }

  /** A sanitised name is a fixed point of the name rules. */
  lemma SanitizeIdempotent(name: string)
    requires Sanitize(name).Ok?
    ensures Sanitize(Sanitize(name).value) == Sanitize(name)
  {
    var x := Sanitize(name).value;
    var e: string := [];
    assert e + x + e == x;
    assert AllSpace(e);
    SanitizePadded(e, x, e);
  }

  function LowerChar(c: char): (d: char)
    ensures IsAsciiLetter(d) == IsAsciiLetter(c)
    ensures !('A' <= d <= 'Z')
  {
    if 'A' <= c <= 'Z' then (c as int + 32) as char else c
  }

  function UpperChar(c: char): (d: char)
    ensures IsAsciiLetter(d) == IsAsciiLetter(c)
    ensures !('a' <= d <= 'z')
  {
    if 'a' <= c <= 'z' then (c as int - 32) as char else c
  }

  /** str.lower() on ASCII. */
  function Lower(s: string): (r: string)
    ensures |r| == |s|
  {
    if s == [] then [] else [LowerChar(s[0])] + Lower(s[1..])
  }

  /**
   * str.title() on ASCII: a letter is upper-cased when the character before
   * it is not a letter, and lower-cased otherwise.
   */
  function Title(s: string): (r: string)
    ensures |r| == |s|
  {
    TitleAfter(s, false)
  }

  /** Title-casing the rest of a string, knowing whether the character before it is a letter. */
  function TitleAfter(s: string, afterLetter: bool): (r: string)
    ensures |r| == |s|
  {
    if s == [] then []
    else [if afterLetter then LowerChar(s[0]) else UpperChar(s[0])] + TitleAfter(s[1..], IsAsciiLetter(s[0]))
  }

  lemma {:induction false} TitleAfterIdempotent(s: string, afterLetter: bool)
    ensures TitleAfter(TitleAfter(s, afterLetter), afterLetter) == TitleAfter(s, afterLetter)
  {
    if s != [] {
      var t := TitleAfter(s, afterLetter);
      assert t[1..] == TitleAfter(s[1..], IsAsciiLetter(s[0]));
      TitleAfterIdempotent(s[1..], IsAsciiLetter(s[0]));
    }
  }

  /** Title-casing a title-cased string changes nothing. */
  lemma TitleIdempotent(s: string)
    ensures Title(Title(s)) == Title(s)
  {
    TitleAfterIdempotent(s, false);
  }

  lemma {:induction false} LowerTitleAfter(s: string, afterLetter: bool)
    ensures Lower(TitleAfter(s, afterLetter)) == Lower(s)
  {
    if s != [] {
      var t := TitleAfter(s, afterLetter);
      assert t[1..] == TitleAfter(s[1..], IsAsciiLetter(s[0]));
      LowerTitleAfter(s[1..], IsAsciiLetter(s[0]));
    }
  }

  /** Title-casing keeps the case-insensitive identity of a string. */
  lemma LowerTitle(s: string)
    ensures Lower(Title(s)) == Lower(s)
  {
    LowerTitleAfter(s, false);
  }

  /** The order of Python's str: code point by code point, a proper prefix first. */
  predicate LexLess(a: string, b: string) {
    if a == [] then b != []
    else b != [] && (a[0] < b[0] || (a[0] == b[0] && LexLess(a[1..], b[1..])))
  }

  lemma {:induction false} LexLessIrreflexive(a: string)
    ensures !LexLess(a, a)
  {
    if a != [] {
      LexLessIrreflexive(a[1..]);
    }
  }

  lemma {:induction false} LexLessTransitive(a: string, b: string, c: string)
    requires LexLess(a, b) && LexLess(b, c)
    ensures LexLess(a, c)
  {
    if a != [] && a[0] == b[0] && b[0] == c[0] {
      LexLessTransitive(a[1..], b[1..], c[1..]);
    }
  }

  lemma {:induction false} LexLessTotal(a: string, b: string)
    requires a != b
    ensures LexLess(a, b) || LexLess(b, a)
  {
    if a != [] && b != [] && a[0] == b[0] {
      assert a == [a[0]] + a[1..] && b == [b[0]] + b[1..];
      LexLessTotal(a[1..], b[1..]);
    }
  }

  lemma {:induction false} LexLessAsymmetric(a: string, b: string)
    requires LexLess(a, b)
    ensures !LexLess(b, a)
  {
    if a != [] && b != [] && a[0] == b[0] {
      LexLessAsymmetric(a[1..], b[1..]);
    }
  }
}
