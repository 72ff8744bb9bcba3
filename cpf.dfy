/** `standardize_cpf`: a Brazilian taxpayer number (CPF) written with or
    without its punctuation, brought to its eleven bare characters. */
module Cpf {
  import opened Base
  import opened Text

  /** The characters removed from a CPF: the apostrophe a spreadsheet puts
      in front of text, and the `.` and `-` of `123.456.789-01`. */
  predicate IsPunctuation(c: char) { c == '\'' || c == '.' || c == '-' }

  /** The three `str.replace(p, "")` calls, in order. */
  function StripPunctuation(s: string): (r: string)
    ensures forall c :: c in r <==> c in s && !IsPunctuation(c)
  {
    RemoveAll(RemoveAll(RemoveAll(s, "'"), "."), "-")
  }

  /** `standardize_cpf(cpf, strict)`. A non-string gives the empty string
      whatever `strict` says. Inside the `try` the source checks again that
      `cpf` is a string; it always is there, so the AssertionError handler,
      and with it `strict`, never has an effect: no exception leaves this
      function. */
  function StandardizeCpf(cell: Cell, strict: bool): (r: string)
    ensures cell.NotStr? ==> r == ""
    ensures cell.Str? ==> forall c :: c in r ==> !IsPunctuation(c)
    ensures cell.Str? ==> |r| == Max(11, |StripPunctuation(cell.s)|)
    ensures cell.Str? ==> var d := StripPunctuation(cell.s);
      var k, pad := SignLength(d), |r| - |d|;
      && r[..k] + r[k + pad..] == d
      && forall i :: k <= i < k + pad ==> r[i] == '0'
  {
    match cell
    case NotStr => ""
    case Str(s) => ZFill(StripPunctuation(s), 11)
  }

  function Max(a: int, b: int): int { if a >= b then a else b }

  // ---------------------------------------------------------------------
  // A reference definition of the removal

  /** The characters of `s` that are not punctuation, in order. */
  function Unpunctuated(s: string): (r: string)
    ensures |r| <= |s|
    ensures forall c :: c in r <==> c in s && !IsPunctuation(c)
  {
    if s == [] then []
    else if IsPunctuation(s[0]) then Unpunctuated(s[1..])
    else [s[0]] + Unpunctuated(s[1..])
  }

  /** Removing one character everywhere keeps the other characters in order. */
  function Without(s: string, c: char): (r: string)
    ensures |r| <= |s|
    ensures forall x :: x in r <==> x in s && x != c
  {
    if s == [] then []
    else if s[0] == c then Without(s[1..], c)
    else [s[0]] + Without(s[1..], c)
  }

  lemma {:induction false} RemoveAllOne(s: string, c: char)
    ensures RemoveAll(s, [c]) == Without(s, c)
    decreases |s|
  {
    if s != [] {
      RemoveAllOne(s[1..], c);
      assert s[..1] == [s[0]];
      assert s[|[c]|..] == s[1..];
    }
  }

  lemma {:induction false} WithoutUnpunctuated(s: string)
    ensures Without(Without(Without(s, '\''), '.'), '-') == Unpunctuated(s)
    decreases |s|
  {
    if s != [] {
      WithoutUnpunctuated(s[1..]);
      var a := Without(s, '\'');
      var b := Without(a, '.');
      if s[0] == '\'' {
      } else if s[0] == '.' {
        assert a == [s[0]] + Without(s[1..], '\'');
      } else if s[0] == '-' {
        assert a == [s[0]] + Without(s[1..], '\'');
        assert b == [s[0]] + Without(Without(s[1..], '\''), '.');
      } else {
        assert a == [s[0]] + Without(s[1..], '\'');
        assert b == [s[0]] + Without(Without(s[1..], '\''), '.');
      }
    }
  }

  /** The three replacements remove exactly the punctuation, and keep every
      other character in its order. */
  lemma StripPunctuationIsFilter(s: string)
    ensures StripPunctuation(s) == Unpunctuated(s)
  {
    RemoveAllOne(s, '\'');
    RemoveAllOne(Without(s, '\''), '.');
    RemoveAllOne(Without(Without(s, '\''), '.'), '-');
    WithoutUnpunctuated(s);
  }

  /** The removal works piece by piece. */
  lemma {:induction false} UnpunctuatedAppend(a: string, b: string)
    ensures Unpunctuated(a + b) == Unpunctuated(a) + Unpunctuated(b)
    decreases |a|
  {
    if a == [] {
      assert a + b == b;
    } else {
      assert (a + b)[0] == a[0] && (a + b)[1..] == a[1..] + b;
      UnpunctuatedAppend(a[1..], b);
    }
  }

  /** Digits have no punctuation to remove. */
  lemma {:induction false} UnpunctuatedDigits(s: string)
    requires AllDigits(s)
    ensures Unpunctuated(s) == s
    decreases |s|
  {
    if s != [] {
      assert !IsPunctuation(s[0]);
      UnpunctuatedDigits(s[1..]);
      assert [s[0]] + s[1..] == s;
    }
  }

  /** A punctuation mark followed by digits leaves just the digits. */
  lemma UnpunctuatedThen(a: string, p: char, b: string)
    requires IsPunctuation(p) && AllDigits(b)
    ensures Unpunctuated(a + [p] + b) == Unpunctuated(a) + b
  {
    UnpunctuatedAppend(a + [p], b);
    UnpunctuatedAppend(a, [p]);
    assert Unpunctuated([p]) == [] by {
      assert [p][1..] == [];
    }
    assert Unpunctuated(a) + [] == Unpunctuated(a);
    UnpunctuatedDigits(b);
  }

  // ---------------------------------------------------------------------
  // Properties

  /** A CPF written `ddd.ddd.ddd-dd`, with or without the apostrophe a
      spreadsheet puts in front of text, becomes its eleven digits. */
  lemma CpfFormatted(q: string, a: string, b: string, c: string, d: string, strict: bool)
    requires q == "" || q == "'"
    requires |a| == 3 && |b| == 3 && |c| == 3 && |d| == 2
    requires AllDigits(a) && AllDigits(b) && AllDigits(c) && AllDigits(d)
    ensures StandardizeCpf(Str(q + a + "." + b + "." + c + "-" + d), strict) == a + b + c + d
  {
    var s := q + a + "." + b + "." + c + "-" + d;
    assert Unpunctuated(q + a) == a by {
      UnpunctuatedAppend(q, a);
      UnpunctuatedDigits(a);
      if q == "'" {
        assert q[1..] == [];
      }
    }
    UnpunctuatedThen(q + a, '.', b);
    UnpunctuatedThen(q + a + "." + b, '.', c);
    UnpunctuatedThen(q + a + "." + b + "." + c, '-', d);
    assert Unpunctuated(s) == a + b + c + d;
    StripPunctuationIsFilter(s);
    CpfNotTruncated(s, strict);
  }

  /** Eleven or more bare digits are kept as they are. */
  lemma CpfDigitsKept(s: string, strict: bool)
    requires AllDigits(s) && |s| >= 11
    ensures StandardizeCpf(Str(s), strict) == s
  {
    UnpunctuatedDigits(s);
    StripPunctuationIsFilter(s);
  }

  /** A string without punctuation comes out of the removal unchanged. */
  lemma StripPunctuationUnchanged(s: string)
    requires forall c :: c in s ==> !IsPunctuation(c)
    ensures StripPunctuation(s) == s
  {
    FirstCharAbsent(s, "'");
    RemoveAllAbsent(s, "'");
    FirstCharAbsent(s, ".");
    RemoveAllAbsent(s, ".");
    FirstCharAbsent(s, "-");
    RemoveAllAbsent(s, "-");
  }

  /** Standardizing a standardized CPF changes nothing. */
  lemma CpfIdempotent(s: string, strict: bool)
    ensures var r := StandardizeCpf(Str(s), strict);
      StandardizeCpf(Str(r), strict) == r
  {
    var r := StandardizeCpf(Str(s), strict);
    StripPunctuationUnchanged(r);
  }

  /** Eleven or more characters are never cut: the result is the text with
      its punctuation removed. */
  lemma CpfNotTruncated(s: string, strict: bool)
    requires |StripPunctuation(s)| >= 11
    ensures StandardizeCpf(Str(s), strict) == Unpunctuated(s)
  {
    StripPunctuationIsFilter(s);
  }

  /** Fewer than eleven digits are padded with zeros in front, which keeps
      the number they denote. */
  lemma CpfPadsDigits(s: string, strict: bool)
    requires AllDigits(StripPunctuation(s)) && |StripPunctuation(s)| < 11
    ensures var r, d := StandardizeCpf(Str(s), strict), StripPunctuation(s);
      && r == Zeros(11 - |d|) + d
      && AllDigits(r) && DigitsValue(r) == DigitsValue(d)
  {
    var d := StripPunctuation(s);
    var r := StandardizeCpf(Str(s), strict);
    assert r == ZFill(d, 11);
    ZFillDigits(d, 11);
  }

  /** `str.zfill` on digits puts zeros in front, which keeps their value. */
  lemma ZFillDigits(d: string, width: nat)
    requires AllDigits(d) && |d| < width
    ensures ZFill(d, width) == Zeros(width - |d|) + d
    ensures AllDigits(ZFill(d, width)) && DigitsValue(ZFill(d, width)) == DigitsValue(d)
  {
    assert SignLength(d) == 0 by {
      if |d| >= 1 { assert IsDigit(d[0]); }
    }
    ZFillUnsigned(d, width);
    ZerosInFront(width - |d|, d);
  }

  /** Zeros in front of digits keep their value. */
  lemma ZerosInFront(n: nat, d: string)
    requires AllDigits(d)
    ensures AllDigits(Zeros(n) + d) && DigitsValue(Zeros(n) + d) == DigitsValue(d)
  {
    var z := Zeros(n);
    ZerosValue(n);
    DigitsValueAppend(z, d);
    ZeroShifted(DigitsValue(z), Pow10(|d|));
  }

  lemma ZeroShifted(x: int, p: int)
    requires x == 0
    ensures x * p == 0
  {
  }

  lemma {:induction false} ZerosValue(n: nat)
    ensures AllDigits(Zeros(n)) && DigitsValue(Zeros(n)) == 0
  {
    if n > 0 {
      ZerosValue(n - 1);
      assert Zeros(n)[..n - 1] == Zeros(n - 1);
    }
  }

  /** A leading `+` stays in front of the padding (`str.zfill` keeps the
      sign first). */
  lemma CpfKeepsPlusFirst(s: string, strict: bool)
    requires var d := StripPunctuation(s); 1 <= |d| < 11 && d[0] == '+'
    ensures var d := StripPunctuation(s);
      StandardizeCpf(Str(s), strict) == "+" + Zeros(11 - |d|) + d[1..]
  {
    var d := StripPunctuation(s);
    assert d[..1] == "+";
  }
}
