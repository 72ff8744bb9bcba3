/** The parts of Python's `str` and `int` that the parsers rely on: ASCII
    digits and their values, decimal numerals, `str.strip`, `str.upper`,
    `str.replace(p, "")`, `str.split(" ")[0]`, `str.zfill` and `int(str)`. */
module Text {
  import opened Base

  predicate IsDigit(c: char) { '0' <= c <= '9' }

  predicate AllDigits(s: string) { forall i :: 0 <= i < |s| ==> IsDigit(s[i]) }

  function DigitValue(c: char): (v: nat)
    requires IsDigit(c)
    ensures v < 10
  {
    c as int - '0' as int
  }

  function Pow10(n: nat): (p: nat)
    ensures p >= 1
  {
    if n == 0 then 1 else 10 * Pow10(n - 1)
  }

  /** The number a run of decimal digits denotes; leading zeros are allowed. */
  function DigitsValue(s: string): (v: nat)
    requires AllDigits(s)
    ensures v < Pow10(|s|)
  {
    if s == [] then 0 else 10 * DigitsValue(s[..|s| - 1]) + DigitValue(s[|s| - 1])
  }

  /** Reading `a + b` is reading `a`, shifting it by the width of `b`, and adding `b`. */
  lemma {:induction false} DigitsValueAppend(a: string, b: string)
    requires AllDigits(a) && AllDigits(b)
    ensures AllDigits(a + b)
    ensures DigitsValue(a + b) == DigitsValue(a) * Pow10(|b|) + DigitsValue(b)
    decreases |b|
  {
    AllDigitsAppend(a, b);
    if b == [] {
      assert a + b == a;
    } else {
      var b' := b[..|b| - 1];
      var d := DigitValue(b[|b| - 1]);
      assert (a + b)[..|a + b| - 1] == a + b';
      assert (a + b)[|a + b| - 1] == b[|b| - 1];
      assert b[..|b| - 1] == b';
      DigitsValueAppend(a, b');
      var x, p, y := DigitsValue(a), Pow10(|b'|), DigitsValue(b');
      assert DigitsValue(a + b) == 10 * (x * p + y) + d;
      assert DigitsValue(b) == 10 * y + d;
      assert Pow10(|b|) == 10 * p;
      ShiftDigit(x, p, y, d);
      assert DigitsValue(a + b) == x * Pow10(|b|) + DigitsValue(b);
    }
  }

  lemma ShiftDigit(x: int, p: int, y: int, d: int)
    ensures 10 * (x * p + y) + d == x * (10 * p) + (10 * y + d)
  {
  }

  lemma AllDigitsAppend(a: string, b: string)
    requires AllDigits(a) && AllDigits(b)
    ensures AllDigits(a + b)
  {
    assert forall i :: 0 <= i < |a + b| ==> (a + b)[i] == if i < |a| then a[i] else b[i - |a|];
  }

  function DigitChar(d: nat): (c: char)
    requires d < 10
    ensures IsDigit(c) && DigitValue(c) == d
  {
    ('0' as int + d) as char
  }

  /** `str(n)` for a natural number: its decimal numeral without leading zeros. */
  function NatToString(n: nat): (s: string)
    ensures 1 <= |s| && AllDigits(s) && DigitsValue(s) == n
    ensures |s| > 1 ==> s[0] != '0'
  {
    if n < 10 then [DigitChar(n)]
    else
      var p := NatToString(n / 10);
      var s := p + [DigitChar(n % 10)];
      assert s[..|s| - 1] == p;
      s
  }

  /** `str(n)` for any integer: a minus sign before the numeral of a negative number. */
  function IntToString(n: int): (s: string)
  {
    if n < 0 then "-" + NatToString(-n) else NatToString(n)
  }

  /** `"%0<width>d" % n`: `n` written with exactly `width` digits. */
  function PadDigits(n: nat, width: nat): (s: string)
    requires n < Pow10(width)
    ensures |s| == width && AllDigits(s) && DigitsValue(s) == n
  {
    if width == 0 then []
    else
      var p := PadDigits(n / 10, width - 1);
      var s := p + [DigitChar(n % 10)];
      assert s[..|s| - 1] == p;
      s
  }

  /** Length of the longest run of digits at the start of `s`: what `\d+` consumes. */
  function DigitPrefixLen(s: string): (n: nat)
    ensures n <= |s| && AllDigits(s[..n]) && (n < |s| ==> !IsDigit(s[n]))
  {
    if s != [] && IsDigit(s[0]) then
      var n := 1 + DigitPrefixLen(s[1..]);
      assert s[..n] == [s[0]] + s[1..][..n - 1];
      n
    else 0
  }

  /** Length of the longest run of digits at the end of `s`. */
  function DigitSuffixLen(s: string): (n: nat)
    ensures n <= |s| && AllDigits(s[|s| - n..]) && (n < |s| ==> !IsDigit(s[|s| - n - 1]))
  {
    if s != [] && IsDigit(s[|s| - 1]) then
      var n := 1 + DigitSuffixLen(s[..|s| - 1]);
      assert s[|s| - n..] == s[..|s| - 1][|s| - n..] + [s[|s| - 1]];
      n
    else 0
  }

  /** The digit run at the start of `a + b` is exactly `a` when `b` does not go on with a digit. */
  lemma {:induction false} DigitPrefixLenOf(a: string, b: string)
    requires AllDigits(a)
    requires b == [] || !IsDigit(b[0])
    ensures DigitPrefixLen(a + b) == |a|
    decreases |a|
  {
    if a == [] {
      assert a + b == b;
    } else {
      var s := a + b;
      assert s[0] == a[0] && s[1..] == a[1..] + b;
      DigitPrefixLenOf(a[1..], b);
    }
  }

  /** The digit run at the end of `a + b` is exactly `b` when `a` does not end with a digit. */
  lemma {:induction false} DigitSuffixLenOf(a: string, b: string)
    requires AllDigits(b)
    requires a == [] || !IsDigit(a[|a| - 1])
    ensures DigitSuffixLen(a + b) == |b|
    decreases |b|
  {
    if b == [] {
      assert a + b == a;
    } else {
      var s := a + b;
      var b' := b[..|b| - 1];
      assert AllDigits(b') by {
        assert forall i :: 0 <= i < |b'| ==> b'[i] == b[i];
      }
      assert s[..|s| - 1] == a + b';
      assert IsDigit(s[|s| - 1]) by {
        assert s[|s| - 1] == b[|b| - 1];
      }
      DigitSuffixLenOf(a, b');
      assert DigitSuffixLen(s) == 1 + DigitSuffixLen(a + b');
    }
  }

  // ---------------------------------------------------------------------
  // Whitespace and str.strip()

  /** `str.isspace()` for one character: the characters Python strips. */
  predicate IsSpace(c: char)
  {
    || '\t' <= c <= '\r'
    || '\U{1C}' <= c <= ' '
    || c == '\U{85}' || c == '\U{A0}' || c == '\U{1680}'
    || '\U{2000}' <= c <= '\U{200A}'
    || c == '\U{2028}' || c == '\U{2029}' || c == '\U{202F}' || c == '\U{205F}'
    || c == '\U{3000}'
  }

  predicate AllSpace(s: string) { forall i :: 0 <= i < |s| ==> IsSpace(s[i]) }

  /** `str.lstrip()`: drops the leading whitespace and nothing else. */
  function TrimStart(s: string): (r: string)
    ensures |r| <= |s| && r == s[|s| - |r|..]
    ensures AllSpace(s[..|s| - |r|])
    ensures r == [] || !IsSpace(r[0])
  {
    if s != [] && IsSpace(s[0]) then
      var r := TrimStart(s[1..]);
      assert s[..|s| - |r|] == [s[0]] + s[1..][..|s[1..]| - |r|];
      r
    else s
  }

  /** `str.rstrip()`: drops the trailing whitespace and nothing else. */
  function TrimEnd(s: string): (r: string)
    ensures |r| <= |s| && r == s[..|r|]
    ensures AllSpace(s[|r|..])
    ensures r == [] || !IsSpace(r[|r| - 1])
  {
    if s != [] && IsSpace(s[|s| - 1]) then
      var r := TrimEnd(s[..|s| - 1]);
      assert s[|r|..] == s[..|s| - 1][|r|..] + [s[|s| - 1]];
      r
    else s
  }

  /** `str.strip()`: the slice of `s` between its leading and its trailing
      whitespace; it neither starts nor ends with whitespace. */
  function Strip(s: string): (r: string)
    ensures |r| <= |s|
    ensures r == [] || (!IsSpace(r[0]) && !IsSpace(r[|r| - 1]))
    ensures SliceBetweenSpaces(s, r)
  {
    var t := TrimStart(s);
    var r := TrimEnd(t);
    assert r == [] || r[0] == t[0];
    StripSlice(s, t, r);
    r
  }

  /** `r` is a slice of `s` with nothing but whitespace before and after it. */
  predicate SliceBetweenSpaces(s: string, r: string)
  {
    exists k :: 0 <= k <= |s| - |r| && r == s[k..k + |r|] && AllSpace(s[..k]) && AllSpace(s[k + |r|..])
  }

  lemma StripSlice(s: string, t: string, r: string)
    requires |t| <= |s| && t == s[|s| - |t|..] && AllSpace(s[..|s| - |t|])
    requires |r| <= |t| && r == t[..|r|] && AllSpace(t[|r|..])
    ensures SliceBetweenSpaces(s, r)
  {
    var k := |s| - |t|;
    assert r == s[k..k + |r|];
    assert s[k + |r|..] == t[|r|..];
  }

  /** `str.strip()` keeps only characters of its input. */
  lemma StripKeepsChars(s: string)
    ensures forall i :: 0 <= i < |Strip(s)| ==> Strip(s)[i] in s
  {
    SliceKeepsChars(s, Strip(s));
  }

  lemma SliceKeepsChars(s: string, r: string)
    requires SliceBetweenSpaces(s, r)
    ensures forall i :: 0 <= i < |r| ==> r[i] in s
  {
    var k :| 0 <= k <= |s| - |r| && r == s[k..k + |r|] && AllSpace(s[..k]) && AllSpace(s[k + |r|..]);
    forall i | 0 <= i < |r|
      ensures r[i] in s
    {
      assert r[i] == s[k + i];
    }
  }

  /** `str.rstrip()` drops trailing whitespace after the last other character. */
  lemma {:induction false} TrimEndSpaces(t: string, w: string)
    requires AllSpace(w) && (t == [] || !IsSpace(t[|t| - 1]))
    ensures TrimEnd(t + w) == t
    decreases |w|
  {
    if w != [] {
      var w' := w[..|w| - 1];
      assert (t + w)[..|t + w| - 1] == t + w';
      TrimEndSpaces(t, w');
    } else {
      assert t + w == t;
    }
  }

  /** `str.strip()` drops the whitespace on both sides of a word. */
  lemma StripAround(w1: string, t: string, w2: string)
    requires AllSpace(w1) && AllSpace(w2)
    requires t != [] && !IsSpace(t[0]) && !IsSpace(t[|t| - 1])
    ensures Strip(w1 + t + w2) == t
  {
    assert w1 + t + w2 == w1 + (t + w2);
    TrimStartSpaces(w1, t + w2);
    TrimEndSpaces(t, w2);
  }

  /** `str.lstrip()` drops leading whitespace up to the first other character. */
  lemma {:induction false} TrimStartSpaces(w: string, t: string)
    requires AllSpace(w) && (t == [] || !IsSpace(t[0]))
    ensures TrimStart(w + t) == t
    decreases |w|
  {
    if w != [] {
      assert (w + t)[1..] == w[1..] + t;
      TrimStartSpaces(w[1..], t);
    }
  }

  /** `str.strip()` drops leading whitespace before a word. */
  lemma StripAfterSpaces(w: string, t: string)
    requires AllSpace(w) && t != [] && !IsSpace(t[0]) && !IsSpace(t[|t| - 1])
    ensures Strip(w + t) == t
  {
    TrimStartSpaces(w, t);
    assert TrimEnd(t) == t;
  }

  /** Stripping a string that neither starts nor ends with whitespace changes nothing. */
  lemma StripUnchanged(s: string)
    requires s == [] || (!IsSpace(s[0]) && !IsSpace(s[|s| - 1]))
    ensures Strip(s) == s
  {
  }

  lemma StripIdempotent(s: string)
    ensures Strip(Strip(s)) == Strip(s)
  {
    StripUnchanged(Strip(s));
  }

  // ---------------------------------------------------------------------
  // str.upper(), str.replace(p, ""), str.split(c)[0]

  /** `str.upper()` on one character, for the ASCII letters. */
  function UpperChar(c: char): char
  {
    if 'a' <= c <= 'z' then (c as int - 32) as char else c
  }

  function Upper(s: string): (r: string)
    ensures |r| == |s| && forall i :: 0 <= i < |s| ==> r[i] == UpperChar(s[i])
  {
    if s == [] then [] else [UpperChar(s[0])] + Upper(s[1..])
  }

  lemma UpperAppend(a: string, b: string)
    ensures Upper(a + b) == Upper(a) + Upper(b)
  {
    var l, r := Upper(a + b), Upper(a) + Upper(b);
    assert |l| == |r|;
    forall i | 0 <= i < |l|
      ensures l[i] == r[i]
    {
      if i < |a| { assert (a + b)[i] == a[i]; } else { assert (a + b)[i] == b[i - |a|]; }
    }
  }

  lemma UpperUnchanged(s: string)
    requires forall i :: 0 <= i < |s| ==> !('a' <= s[i] <= 'z')
    ensures Upper(s) == s
  {
  }

  /** `s.replace(p, "")`: scans left to right and deletes every
      non-overlapping occurrence of `p`. Only characters of `s` remain, and
      when `p` is one character, exactly the other characters of `s` remain. */
  function RemoveAll(s: string, p: string): (r: string)
    requires |p| >= 1
    ensures |r| <= |s|
    ensures forall c :: c in r ==> c in s
    ensures |p| == 1 ==> forall c :: c in r <==> c in s && c != p[0]
    decreases |s|
  {
    if |s| < |p| then
      assert |p| == 1 ==> s == [];
      s
    else if s[..|p|] == p then
      var r := RemoveAll(s[|p|..], p);
      assert forall c :: c in s[|p|..] ==> c in s;
      assert |p| == 1 ==> s == [p[0]] + s[1..];
      r
    else
      var r := [s[0]] + RemoveAll(s[1..], p);
      assert s == [s[0]] + s[1..];
      assert |p| == 1 ==> s[0] != p[0];
      r
  }

  /** `p` occurs in `s` starting at position `i`. */
  predicate OccursAt(s: string, p: string, i: int)
  {
    0 <= i && i + |p| <= |s| && s[i..i + |p|] == p
  }

  /** Deleting a pattern that occurs nowhere leaves the string as it is. */
  lemma {:induction false} RemoveAllAbsent(s: string, p: string)
    requires |p| >= 1 && forall i :: !OccursAt(s, p, i)
    ensures RemoveAll(s, p) == s
    decreases |s|
  {
    if |s| < |p| {
      RemoveAllShort(s, p);
    } else {
      assert !OccursAt(s, p, 0);
      assert s[0..|p|] == s[..|p|];
      RemoveAllKeepsFirst(s, p);
      AbsentAfterFirst(s, p);
      RemoveAllAbsent(s[1..], p);
      assert s == [s[0]] + s[1..];
    }
  }

  /** A pattern that occurs nowhere in `s` occurs nowhere in its tail. */
  lemma AbsentAfterFirst(s: string, p: string)
    requires |s| >= 1 && forall i :: !OccursAt(s, p, i)
    ensures forall i :: !OccursAt(s[1..], p, i)
  {
    forall i
      ensures !OccursAt(s[1..], p, i)
    {
      if 0 <= i && i + |p| <= |s[1..]| {
        assert !OccursAt(s, p, i + 1);
        assert s[1..][i..i + |p|] == s[i + 1..i + 1 + |p|];
      }
    }
  }

  /** A pattern whose first character is missing occurs nowhere. */
  lemma FirstCharAbsent(s: string, p: string)
    requires |p| >= 1 && p[0] !in s
    ensures forall i :: !OccursAt(s, p, i)
  {
    forall i
      ensures !OccursAt(s, p, i)
    {
      if 0 <= i && i + |p| <= |s| {
        assert s[i..i + |p|][0] == s[i];
      }
    }
  }

  /** Text before which no occurrence can start is kept, in order, in front
      of what the deletion makes of the rest. */
  lemma {:induction false} RemoveAllAppend(a: string, b: string, p: string)
    requires |p| >= 1 && p[0] !in a
    ensures RemoveAll(a + b, p) == a + RemoveAll(b, p)
    decreases |a|
  {
    if a == [] {
      assert a + b == b;
    } else {
      var s := a + b;
      assert s[0] == a[0] && s[1..] == a[1..] + b;
      if |s| < |p| {
        RemoveAllShort(s, p);
        RemoveAllShort(b, p);
      } else {
        assert s[..|p|][0] == a[0];
        RemoveAllKeepsFirst(s, p);
        NotInTail(a, p[0]);
        RemoveAllAppend(a[1..], b, p);
        assert [a[0]] + a[1..] == a;
      }
    }
  }

  lemma NotInTail(a: string, c: char)
    requires |a| >= 1 && c !in a
    ensures c !in a[1..] && a[0] != c
  {
    assert a[0] in a;
    forall i | 0 <= i < |a[1..]| ensures a[1..][i] != c { assert a[1..][i] in a; }
  }

  /** Text shorter than the pattern is kept whole. */
  lemma RemoveAllShort(s: string, p: string)
    requires |p| >= 1 && |s| < |p|
    ensures RemoveAll(s, p) == s
  {
  }

  /** A first character that starts no occurrence is kept. */
  lemma RemoveAllKeepsFirst(s: string, p: string)
    requires |p| >= 1 && |s| >= |p| && s[..|p|] != p
    ensures RemoveAll(s, p) == [s[0]] + RemoveAll(s[1..], p)
  {
  }

  /** An occurrence at the front is deleted and the scan goes on after it. */
  lemma RemoveAllOccurrence(p: string, b: string)
    requires |p| >= 1
    ensures RemoveAll(p + b, p) == RemoveAll(b, p)
  {
    assert (p + b)[..|p|] == p && (p + b)[|p|..] == b;
  }

  /** `s.split(c)[0]`: the part of `s` before the first `c`, or all of `s`. */
  function SplitFirst(s: string, c: char): (r: string)
    ensures c !in r
    ensures |r| <= |s| && r == s[..|r|]
    ensures |r| < |s| ==> s[|r|] == c
  {
    if s == [] || s[0] == c then []
    else
      var r := [s[0]] + SplitFirst(s[1..], c);
      assert r == s[..|r|];
      r
  }

  /** What a regular expression ending in `$` matches against: `$` also
      matches just before a final newline, so the text to match is `s`
      without that one newline. */
  function DropFinalNewline(s: string): (r: string)
    ensures r == s || s == r + "\n"
    ensures r != s <==> |s| >= 1 && s[|s| - 1] == '\n'
  {
    if |s| >= 1 && s[|s| - 1] == '\n' then s[..|s| - 1] else s
  }

  // ---------------------------------------------------------------------
  // str.zfill

  function Zeros(n: nat): (z: string)
    ensures |z| == n && forall i :: 0 <= i < n ==> z[i] == '0'
  {
    if n == 0 then [] else Zeros(n - 1) + ['0']
  }

  /** Number of leading sign characters `str.zfill` keeps in front: 0 or 1. */
  function SignLength(s: string): nat
  {
    if |s| >= 1 && (s[0] == '+' || s[0] == '-') then 1 else 0
  }

  /** `s.zfill(width)`: inserts '0's after the optional leading sign until
      the string is `width` long; a string already that long is kept whole. */
  function ZFill(s: string, width: nat): (r: string)
    ensures |r| == if |s| >= width then |s| else width
    ensures var k := SignLength(s); var pad := |r| - |s|;
      && r[..k] + r[k + pad..] == s
      && forall i :: k <= i < k + pad ==> r[i] == '0'
  {
    if |s| >= width then
      s
    else
      var k := SignLength(s);
      var z := Zeros(width - |s|);
      var r := s[..k] + z + s[k..];
      assert r[..k] == s[..k] && r[k + |z|..] == s[k..];
      assert s[..k] + s[k..] == s;
      assert forall i :: k <= i < k + |z| ==> r[i] == z[i - k];
      r
  }

  /** Without a sign, `str.zfill` puts the zeros in front. */
  lemma ZFillUnsigned(s: string, width: nat)
    requires SignLength(s) == 0 && |s| < width
    ensures ZFill(s, width) == Zeros(width - |s|) + s
  {
    var z := Zeros(width - |s|);
    assert s[..0] + z + s[0..] == z + s by {
      assert s[..0] == [] && s[0..] == s;
    }
  }

  // ---------------------------------------------------------------------
  // int(str)

  /** The digits of an integer literal: `digit ("_"? digit)*`. */
  predicate IsIntBody(s: string)
  {
    && |s| >= 1 && IsDigit(s[0]) && IsDigit(s[|s| - 1])
    && (forall i :: 0 <= i < |s| ==> IsDigit(s[i]) || s[i] == '_')
    && (forall i :: 0 <= i < |s| - 1 ==> !DoubleUnderscoreAt(s, i))
  }

  predicate DoubleUnderscoreAt(s: string, i: nat)
    requires i + 1 < |s|
  {
    s[i] == '_' && s[i + 1] == '_'
  }

  /** The value of an integer literal's digits, underscores ignored. */
  function BodyValue(b: string): nat
    requires IsIntBody(b)
  {
    var d := RemoveAll(b, "_");
    assert AllDigits(d) by {
      forall i | 0 <= i < |d| ensures IsDigit(d[i]) {
        assert d[i] in d;
      }
    }
    DigitsValue(d)
  }

  /** The characters an integer literal is written with. */
  predicate IsLiteralChar(c: char) { IsDigit(c) || c == '+' || c == '-' || c == '_' }

  /** U+001C to U+001F count as whitespace for `str.strip()`, but `int()`
      skips only the ASCII whitespace ` \t\n\v\f\r` and whitespace beyond
      ASCII. */
  predicate IsInfoSeparator(c: char) { '\U{1C}' <= c <= '\U{1F}' }

  /** The whitespace `int()` skips around its literal. */
  predicate IsIntSpace(c: char) { IsSpace(c) && !IsInfoSeparator(c) }

  predicate IsIntChar(c: char) { IsIntSpace(c) || IsLiteralChar(c) }

  /** `int(s)`: surrounding whitespace, an optional sign, then digits with
      single underscores between them; None where Python raises ValueError.
      An information separator is neither whitespace to `int()` nor part of
      a literal, so a string holding one is refused; in any other string
      `int()` and `str.strip()` skip the same characters. */
  function PyInt(s: string): Option<int>
  {
    if exists i :: 0 <= i < |s| && IsInfoSeparator(s[i]) then None
    else IntLiteral(Strip(s))
  }

  /** An integer literal with nothing around it: an optional sign and digits. */
  function IntLiteral(t: string): Option<int>
  {
    if |t| >= 1 && (t[0] == '+' || t[0] == '-') then
      if IsIntBody(t[1..]) then
        var v: int := BodyValue(t[1..]);
        Some(if t[0] == '-' then -v else v)
      else None
    else if IsIntBody(t) then
      Some(BodyValue(t))
    else
      None
  }

  /** Only whitespace, digits, signs and underscores occur in a string `int()` accepts. */
  lemma PyIntChars(s: string)
    ensures PyInt(s).Some? ==> forall i :: 0 <= i < |s| ==> IsIntChar(s[i])
  {
    if PyInt(s).Some? {
      IntLiteralChars(Strip(s));
      IntCharsAroundStrip(s);
    }
  }

  lemma IntLiteralChars(t: string)
    ensures IntLiteral(t).Some? ==> forall j :: 0 <= j < |t| ==> IsLiteralChar(t[j])
  {
    if |t| >= 1 && (t[0] == '+' || t[0] == '-') {
      assert forall j :: 1 <= j < |t| ==> t[j] == t[1..][j - 1];
    }
  }

  /** Whatever `str.strip()` removed is whitespace. */
  lemma IntCharsAroundStrip(s: string)
    requires forall j :: 0 <= j < |Strip(s)| ==> IsLiteralChar(Strip(s)[j])
    ensures forall i :: 0 <= i < |s| ==> IsSpace(s[i]) || IsLiteralChar(s[i])
  {
    LiteralSliceChars(s, Strip(s));
  }

  lemma LiteralSliceChars(s: string, r: string)
    requires SliceBetweenSpaces(s, r)
    requires forall j :: 0 <= j < |r| ==> IsLiteralChar(r[j])
    ensures forall i :: 0 <= i < |s| ==> IsSpace(s[i]) || IsLiteralChar(s[i])
  {
    var k :| 0 <= k <= |s| - |r| && r == s[k..k + |r|] && AllSpace(s[..k]) && AllSpace(s[k + |r|..]);
    forall i | 0 <= i < |s| ensures IsSpace(s[i]) || IsLiteralChar(s[i]) {
      if i < k {
        assert s[..k][i] == s[i];
      } else if i < k + |r| {
        assert r[i - k] == s[i];
      } else {
        assert s[k + |r|..][i - k - |r|] == s[i];
      }
    }
  }

  /** A run of digits is an integer literal whose value is read as usual. */
  lemma {:induction false} PyIntOfDigits(digits: string)
    requires |digits| >= 1 && AllDigits(digits)
    ensures PyInt(digits) == Some(DigitsValue(digits) as int)
  {
    StripUnchangedNumeral(digits);
    PyIntOfStripped(digits);
    DigitsAreIntBody(digits);
    IntLiteralOfBody(digits);
  }

  /** A minus sign before a run of digits negates its value. */
  lemma {:induction false} PyIntOfNegative(digits: string)
    requires |digits| >= 1 && AllDigits(digits)
    ensures PyInt("-" + digits) == Some(-(DigitsValue(digits) as int))
  {
    var s := "-" + digits;
    assert s[0] == '-' && s[|s| - 1] == digits[|digits| - 1];
    DigitsAreIntBody(digits);
    NegatedLiteral(digits, DigitsValue(digits));
    PyIntOfLiteral(s, Some(-(DigitsValue(digits) as int)));
  }

  /** `int()` of text that neither starts nor ends with whitespace is its literal. */
  lemma PyIntOfLiteral(s: string, v: Option<int>)
    requires |s| >= 1 && !IsSpace(s[0]) && !IsSpace(s[|s| - 1]) && IntLiteral(s) == v
    ensures PyInt(s) == v
  {
    StripUnchanged(s);
    PyIntOfStripped(s);
  }

  lemma NegatedLiteral(b: string, v: int)
    requires IsIntBody(b) && BodyValue(b) == v
    ensures IntLiteral("-" + b) == Some(-v)
  {
    var t := "-" + b;
    assert t[0] == '-' && t[1..] == b;
  }

  lemma PyIntOfStripped(s: string)
    requires Strip(s) == s
    ensures PyInt(s) == IntLiteral(s)
  {
    if exists i :: 0 <= i < |s| && IsInfoSeparator(s[i]) {
      var i :| 0 <= i < |s| && IsInfoSeparator(s[i]);
      PyIntWithSeparator(s, i);
      LiteralWithSeparator(s, i);
    } else {
      PyIntWithoutSeparator(s);
    }
  }

  lemma PyIntWithSeparator(s: string, i: int)
    requires 0 <= i < |s| && IsInfoSeparator(s[i])
    ensures PyInt(s) == None
  {
  }

  lemma PyIntWithoutSeparator(s: string)
    requires forall i :: 0 <= i < |s| ==> !IsInfoSeparator(s[i])
    ensures PyInt(s) == IntLiteral(Strip(s))
  {
  }

  lemma LiteralWithSeparator(t: string, i: int)
    requires 0 <= i < |t| && IsInfoSeparator(t[i])
    ensures IntLiteral(t) == None
  {
    IntLiteralChars(t);
    assert !IsLiteralChar(t[i]);
  }

  /** `int()` reads a literal between whitespace it skips; an information
      separator anywhere makes it refuse the string. */
  lemma PyIntAroundSpaces(w1: string, t: string, w2: string)
    requires forall i :: 0 <= i < |w1| ==> IsIntSpace(w1[i])
    requires forall i :: 0 <= i < |w2| ==> IsIntSpace(w2[i])
    requires t != [] && !IsSpace(t[0]) && !IsSpace(t[|t| - 1])
    ensures PyInt(w1 + t + w2) == IntLiteral(t)
  {
    var s := w1 + t + w2;
    StripAround(w1, t, w2);
    if IntLiteral(t).Some? {
      IntLiteralChars(t);
      NoSeparatorAround(w1, t, w2);
      PyIntWithoutSeparator(s);
    } else if exists i :: 0 <= i < |s| && IsInfoSeparator(s[i]) {
      var i :| 0 <= i < |s| && IsInfoSeparator(s[i]);
      PyIntWithSeparator(s, i);
    } else {
      PyIntWithoutSeparator(s);
    }
  }

  lemma NoSeparatorAround(w1: string, t: string, w2: string)
    requires forall i :: 0 <= i < |w1| ==> IsIntSpace(w1[i])
    requires forall i :: 0 <= i < |w2| ==> IsIntSpace(w2[i])
    requires forall i :: 0 <= i < |t| ==> IsLiteralChar(t[i])
    ensures forall i :: 0 <= i < |w1 + t + w2| ==> !IsInfoSeparator((w1 + t + w2)[i])
  {
    var s := w1 + t + w2;
    forall i | 0 <= i < |s|
      ensures !IsInfoSeparator(s[i])
    {
      if i < |w1| {
        assert s[i] == w1[i];
      } else if i < |w1| + |t| {
        assert s[i] == t[i - |w1|];
      } else {
        assert s[i] == w2[i - |w1| - |t|];
      }
    }
  }

  /** A string holding an information separator is not an integer, although
      `str.strip()` would remove the separator. */
  lemma InfoSeparatorNotInteger(w: string, t: string)
    requires |w| >= 1 && IsInfoSeparator(w[0])
    ensures PyInt(t + w) == None
  {
    assert (t + w)[|t|] == w[0];
  }

  lemma IntLiteralOfBody(b: string)
    requires IsIntBody(b)
    ensures IntLiteral(b) == Some(BodyValue(b) as int)
  {
  }

  /** A numeral, possibly negative, has no surrounding whitespace. */
  lemma StripUnchangedNumeral(s: string)
    requires |s| >= 1 && (IsDigit(s[0]) || s[0] == '-') && IsDigit(s[|s| - 1])
    ensures Strip(s) == s
  {
    StripUnchanged(s);
  }

  /** A run of digits is an integer literal without underscores. */
  lemma DigitsAreIntBody(digits: string)
    requires |digits| >= 1 && AllDigits(digits)
    ensures IsIntBody(digits) && BodyValue(digits) == DigitsValue(digits)
  {
    FirstCharAbsent(digits, "_");
    RemoveAllAbsent(digits, "_");
  }

  /** An integer literal ends with a digit. */
  lemma IntLiteralEndsWithDigit(t: string)
    ensures IntLiteral(t).Some? ==> |t| >= 1 && IsDigit(t[|t| - 1])
  {
    if |t| >= 2 && (t[0] == '+' || t[0] == '-') {
      assert t[1..][|t| - 2] == t[|t| - 1];
    }
  }

  /** Python's `int(str(n)) == n`. */
  lemma PyIntOfIntToString(n: int)
    ensures PyInt(IntToString(n)) == Some(n)
  {
    if n < 0 {
      PyIntOfNegative(NatToString(-n));
    } else {
      PyIntOfDigits(NatToString(n));
    }
  }
}
