/** `standardize_values`: reads a money amount in which `.` and `,` may be
    the decimal point or the thousands separator, by trying a fixed list of
    patterns in order. Amounts are kept in whole cents: every rule yields a
    value with at most two decimals, so nothing is lost. */
module Money {
  import opened Base
  import opened Text

  /** What `standardize_values` returns: the amount in cents, NaN, or the
      exception raised in strict mode. */
  datatype MoneyOutcome = Amount(cents: int) | NaN | Raised(error: Error)

  predicate IsSeparator(c: char) { c == ',' || c == '.' }

  /** `val.upper().replace("R$", "").strip()`: the text the rules see. */
  function Clean(s: string): (r: string)
    ensures |r| <= |s|
    ensures r == [] || (!IsSpace(r[0]) && !IsSpace(r[|r| - 1]))
    ensures forall i :: 0 <= i < |r| ==> !('a' <= r[i] <= 'z')
    ensures SliceBetweenSpaces(RemoveAll(Upper(s), "R$"), r)
  {
    var u := RemoveAll(Upper(s), "R$");
    assert forall c :: c in u ==> !('a' <= c <= 'z');
    StripKeepsChars(u);
    Strip(u)
  }

  // ---------------------------------------------------------------------
  // The pieces the patterns are made of

  /** `t` cut at its last character that is not a digit: what precedes
      it, that character, and the non-empty run of digits that follows. */
  function SplitFraction(t: string): (r: Option<(string, char, string)>)
    ensures r.Some? ==> t == r.value.0 + [r.value.1] + r.value.2
    ensures r.Some? ==> !IsDigit(r.value.1) && |r.value.2| >= 1 && AllDigits(r.value.2)
  {
    var n := DigitSuffixLen(t);
    if 1 <= n < |t| then Some((t[..|t| - n - 1], t[|t| - n - 1], t[|t| - n..])) else None
  }

  /** Every string of the form `a sep f` is cut back into `a`, `sep` and `f`. */
  lemma SplitFractionOf(a: string, sep: char, f: string)
    requires !IsDigit(sep) && |f| >= 1 && AllDigits(f)
    ensures SplitFraction(a + [sep] + f) == Some((a, sep, f))
  {
    var t := a + [sep] + f;
    assert t == (a + [sep]) + f;
    DigitSuffixLenOf(a + [sep], f);
    assert t[..|a|] == a && t[|a|] == sep && t[|a| + 1..] == f;
  }

  /** Three-digit groups, each written after the separator `g`. */
  function JoinGroups(gs: seq<string>, g: char): string
  {
    if gs == [] then [] else [g] + gs[0] + JoinGroups(gs[1..], g)
  }

  predicate AreGroups(gs: seq<string>)
  {
    forall i :: 0 <= i < |gs| ==> |gs[i]| == 3 && AllDigits(gs[i])
  }

  /** The digits of the groups, one after another. */
  function Flatten(gs: seq<string>): (r: string)
    ensures AreGroups(gs) ==> AllDigits(r) && |r| == 3 * |gs|
  {
    if gs == [] then []
    else
      var r := gs[0] + Flatten(gs[1..]);
      assert AreGroups(gs) ==> AreGroups(gs[1..]) && |gs[0]| == 3 && AllDigits(gs[0]);
      assert AreGroups(gs) ==> AllDigits(r) by {
        if AreGroups(gs) { AllDigitsAppend(gs[0], Flatten(gs[1..])); }
      }
      r
  }

  /** `(?:g\d{3})*` read from the start of `s` to its end. */
  function Groups(s: string, g: char): (r: Option<seq<string>>)
    ensures r.Some? ==> AreGroups(r.value) && s == JoinGroups(r.value, g)
    decreases |s|
  {
    if s == [] then Some([])
    else if |s| >= 4 && s[0] == g && AllDigits(s[1..4]) then
      match Groups(s[4..], g)
      case Some(rest) =>
        var gs := [s[1..4]] + rest;
        assert gs[0] == s[1..4] && gs[1..] == rest;
        assert s == [g] + s[1..4] + s[4..];
        Some(gs)
      case None => None
    else None
  }

  /** Whatever groups are written out are read back. */
  lemma {:induction false} GroupsOf(gs: seq<string>, g: char)
    requires AreGroups(gs)
    ensures Groups(JoinGroups(gs, g), g) == Some(gs)
    decreases |gs|
  {
    if gs != [] {
      var s := JoinGroups(gs, g);
      assert s[0] == g && s[1..4] == gs[0] && s[4..] == JoinGroups(gs[1..], g);
      GroupsOf(gs[1..], g);
      assert [gs[0]] + gs[1..] == gs;
    }
  }

  /** Written groups end with the last group, after its separator. */
  lemma {:induction false} JoinGroupsLast(gs: seq<string>, g: char)
    requires |gs| >= 1
    ensures JoinGroups(gs, g) == JoinGroups(gs[..|gs| - 1], g) + [g] + gs[|gs| - 1]
    decreases |gs|
  {
    var init := gs[..|gs| - 1];
    if |gs| == 1 {
      assert init == [];
      assert gs[1..] == [];
    } else {
      var tail := gs[1..];
      JoinGroupsLast(tail, g);
      assert tail[..|tail| - 1] == init[1..];
      assert tail[|tail| - 1] == gs[|gs| - 1];
      assert init[0] == gs[0];
      var j := JoinGroups(init[1..], g);
      assert JoinGroups(tail, g) == j + [g] + gs[|gs| - 1];
      assert JoinGroups(init, g) == [g] + gs[0] + j;
      assert JoinGroups(gs, g) == [g] + gs[0] + (j + [g] + gs[|gs| - 1]);
    }
  }

  /** Written groups start with the separator. */
  lemma JoinGroupsFirst(gs: seq<string>, g: char)
    requires |gs| >= 1
    ensures |JoinGroups(gs, g)| >= 1 && JoinGroups(gs, g)[0] == g
  {
  }

  /** `\d{1,3}(?:g\d{3})*`: one to three digits, then groups. */
  function GroupedInt(s: string, g: char): (r: Option<(string, seq<string>)>)
    ensures r.Some? ==> var (h, gs) := r.value;
      1 <= |h| <= 3 && AllDigits(h) && AreGroups(gs) && s == h + JoinGroups(gs, g)
  {
    var k := DigitPrefixLen(s);
    if 1 <= k <= 3 then
      match Groups(s[k..], g)
      case Some(gs) =>
        assert s == s[..k] + s[k..];
        Some((s[..k], gs))
      case None => None
    else None
  }

  /** Every head-and-groups string is read back into its head and groups. */
  lemma GroupedIntOf(h: string, gs: seq<string>, g: char)
    requires 1 <= |h| <= 3 && AllDigits(h) && AreGroups(gs) && !IsDigit(g)
    ensures GroupedInt(h + JoinGroups(gs, g), g) == Some((h, gs))
  {
    var s := h + JoinGroups(gs, g);
    if gs != [] { JoinGroupsFirst(gs, g); }
    DigitPrefixLenOf(h, JoinGroups(gs, g));
    assert s[..|h|] == h && s[|h|..] == JoinGroups(gs, g);
    GroupsOf(gs, g);
  }

  /** The integer a head and its groups denote. */
  function GroupedValue(h: string, gs: seq<string>): nat
    requires AllDigits(h) && AreGroups(gs)
  {
    AllDigitsAppend(h, Flatten(gs));
    DigitsValue(h + Flatten(gs))
  }

  /** One or two fraction digits as cents: "5" is 50, "05" is 5. */
  function FractionCents(f: string): (c: nat)
    requires 1 <= |f| <= 2 && AllDigits(f)
    ensures c < 100
  {
    if |f| == 1 then 10 * DigitsValue(f) else DigitsValue(f)
  }

  /** The cents are the fraction `0.f` times a hundred. */
  lemma FractionCentsValue(f: string)
    requires 1 <= |f| <= 2 && AllDigits(f)
    ensures FractionCents(f) * Pow10(|f|) == 100 * DigitsValue(f)
  {
  }

  /** A whole number of units and one or two decimals, in cents. */
  function Cents(units: nat, f: string): nat
    requires 1 <= |f| <= 2 && AllDigits(f)
  {
    100 * units + FractionCents(f)
  }

  /** `round(float("a.f"), 2)` in exact decimal arithmetic: the cents
      nearest to `a.f`, halves rounded up. */
  function RoundToCents(a: string, f: string): (c: nat)
    requires AllDigits(a) && AllDigits(f) && |f| >= 3
    ensures 100 * DigitsValue(a) <= c <= 100 * DigitsValue(a) + 100
  {
    100 * DigitsValue(a) + DigitsValue(f[..2]) + (if DigitValue(f[2]) >= 5 then 1 else 0)
  }

  // ---------------------------------------------------------------------
  // The rules, in the order they are tried

  /** Rule 2, `^(\d{1,})(?:,|\.)(\d{1,2})$`: digits, a separator read as
      the decimal point, one or two decimals. */
  function ShortDecimal(t: string): (r: Option<int>)
    ensures r.Some? ==> r.value >= 0 && SplitFraction(t).Some? && IsSeparator(SplitFraction(t).value.1)
    ensures r.Some? ==> |SplitFraction(t).value.2| <= 2
  {
    match SplitFraction(t)
    case Some((a, sep, f)) =>
      if |a| >= 1 && AllDigits(a) && IsSeparator(sep) && |f| <= 2 then
        Some(Cents(DigitsValue(a), f))
      else None
    case None => None
  }

  /** One alternative of rule 3: at least one group, all after `g`. */
  function GroupedWith(t: string, g: char): (r: Option<int>)
    ensures r.Some? ==> r.value >= 0 && r.value % 100 == 0
  {
    match GroupedInt(t, g)
    case Some((h, gs)) =>
      if |gs| >= 1 then
        WholeUnits(GroupedValue(h, gs));
        Some(100 * GroupedValue(h, gs))
      else None
    case None => None
  }

  /** A whole number of units is a whole multiple of a hundred cents. */
  lemma WholeUnits(n: nat)
    ensures (100 * n) % 100 == 0
  {
  }

  /** Rule 3, `^(\d{1,3}(?:(?:\.(?:\d{3}))+|(?:,(?:\d{3}))+))$`: thousands
      groups all after `.` or all after `,`, and no decimals. */
  function GroupedInteger(t: string): (r: Option<int>)
    ensures r.Some? ==> r.value >= 0 && r.value % 100 == 0
  {
    if GroupedWith(t, '.').Some? then GroupedWith(t, '.') else GroupedWith(t, ',')
  }

  /** Rules 4 and 5, `^(\d{1,3}(?:g\d{3}){0,})d(\d{1,2})$`: thousands groups
      after `g`, then the decimal point `d` and one or two decimals. */
  function GroupedDecimal(t: string, g: char, d: char): (r: Option<int>)
    ensures r.Some? ==> r.value >= 0 && SplitFraction(t).Some? && SplitFraction(t).value.1 == d
    ensures r.Some? ==> |SplitFraction(t).value.2| <= 2
  {
    match SplitFraction(t)
    case Some((a, sep, f)) =>
      if sep == d && |f| <= 2 then
        match GroupedInt(a, g)
        case Some((h, gs)) => Some(Cents(GroupedValue(h, gs), f))
        case None => None
      else None
    case None => None
  }

  /** Rule 6, `^(\d{1,})(?:,|\.)(\d{4,})$`: four or more decimals, rounded to cents. */
  function LongDecimal(t: string): (r: Option<int>)
    ensures r.Some? ==> r.value >= 0 && SplitFraction(t).Some? && IsSeparator(SplitFraction(t).value.1)
    ensures r.Some? ==> |SplitFraction(t).value.2| >= 4
  {
    match SplitFraction(t)
    case Some((a, sep, f)) =>
      if |a| >= 1 && AllDigits(a) && IsSeparator(sep) && |f| >= 4 then
        Some(RoundToCents(a, f))
      else None
    case None => None
  }

  /** Rules 1 to 6 in order, first match wins: the amount in cents. Rule 1
      is `int(val)`; rule 4 reads `.` groups and a `,` decimal point, rule 5
      the reverse. */
  function MatchAmount(val: string): (r: Option<int>)
    ensures PyInt(val).Some? ==> r == Some(100 * PyInt(val).value)
    ensures r.Some? && PyInt(val).None? ==> r.value >= 0
  {
    match PyInt(val)
    case Some(n) => Some(100 * n)
    case None =>
      if ShortDecimal(val).Some? then ShortDecimal(val)
      else if GroupedInteger(val).Some? then GroupedInteger(val)
      else if GroupedDecimal(val, '.', ',').Some? then GroupedDecimal(val, '.', ',')
      else if GroupedDecimal(val, ',', '.').Some? then GroupedDecimal(val, ',', '.')
      else LongDecimal(val)
  }

  /** `standardize_values(val, strict)`. A non-string is NaN even in strict
      mode; a string is cleaned and matched; when no rule matches, strict
      mode raises IrrecognizableValue with the cleaned text. */
  function StandardizeValues(cell: Cell, strict: bool): (r: MoneyOutcome)
    ensures cell.NotStr? ==> r == NaN
    ensures r.Raised? ==> strict && cell.Str? && r.error == IrrecognizableValue(Clean(cell.s))
    ensures r.NaN? && cell.Str? ==> !strict
  {
    match cell
    case NotStr => NaN
    case Str(raw) =>
      var val := Clean(raw);
      match MatchAmount(val)
      case Some(c) => Amount(c)
      case None => if strict then Raised(IrrecognizableValue(val)) else NaN
  }

  // ---------------------------------------------------------------------
  // What the rules read, for every amount written in each format

  /** Characters a written amount is made of. */
  predicate IsNumeralChar(c: char) { IsDigit(c) || IsSeparator(c) || c == '-' }

  /** Cleaning leaves alone a numeral that ends with a digit. */
  lemma CleanNumeral(t: string)
    requires forall i :: 0 <= i < |t| ==> IsNumeralChar(t[i])
    ensures Clean(t) == t
  {
    UpperUnchanged(t);
    assert 'R' !in t;
    FirstCharAbsent(t, "R$");
    RemoveAllAbsent(t, "R$");
    if t != [] {
      NumeralIsNotLetter(t[0]);
      NumeralIsNotLetter(t[|t| - 1]);
    }
    StripUnchanged(t);
  }

  /** The currency symbol `R$`, in either case, and the spaces after it are
      cleaned away: the amount is read from the numeral alone. */
  lemma CurrencySymbolIgnored(p: string, w: string, t: string, strict: bool)
    requires Upper(p) == "R$" && AllSpace(w)
    requires |t| >= 1 && IsDigit(t[|t| - 1])
    requires forall i :: 0 <= i < |t| ==> IsNumeralChar(t[i])
    ensures StandardizeValues(Str(p + w + t), strict) == StandardizeValues(Str(t), strict)
  {
    CleanAfterSymbol(p, w, t);
    CleanNumeral(t);
  }

  lemma CleanAfterSymbol(p: string, w: string, t: string)
    requires Upper(p) == "R$" && AllSpace(w)
    requires |t| >= 1 && IsDigit(t[|t| - 1])
    requires forall i :: 0 <= i < |t| ==> IsNumeralChar(t[i])
    ensures Clean(p + w + t) == t
  {
    var u := w + t;
    forall i | 0 <= i < |u|
      ensures !('a' <= u[i] <= 'z') && u[i] != 'R'
    {
      if i < |w| {
        assert u[i] == w[i];
        SpaceIsNotLetter(w[i]);
      } else {
        assert u[i] == t[i - |w|];
        NumeralIsNotLetter(t[i - |w|]);
      }
    }
    assert p + w + t == p + u;
    UpperAppend(p, u);
    UpperUnchanged(u);
    assert RemoveAll("R$" + u, "R$") == RemoveAll(u, "R$") by {
      assert ("R$" + u)[..2] == "R$" && ("R$" + u)[2..] == u;
    }
    assert 'R' !in u;
    FirstCharAbsent(u, "R$");
    RemoveAllAbsent(u, "R$");
    NumeralIsNotLetter(t[0]);
    NumeralIsNotLetter(t[|t| - 1]);
    StripAfterSpaces(w, t);
  }

  lemma NumeralIsNotLetter(c: char)
    requires IsNumeralChar(c)
    ensures !IsSpace(c) && !('a' <= c <= 'z') && c != 'R'
  {
  }

  lemma SpaceIsNotLetter(c: char)
    requires IsSpace(c)
    ensures !('a' <= c <= 'z') && c != 'R'
  {
  }

  /** A numeral some rule reads is that amount. */
  lemma AmountOf(t: string, v: int, strict: bool)
    requires |t| >= 1 && IsDigit(t[|t| - 1])
    requires forall i :: 0 <= i < |t| ==> IsNumeralChar(t[i])
    requires MatchAmount(t) == Some(v)
    ensures StandardizeValues(Str(t), strict) == Amount(v)
  {
    CleanNumeral(t);
  }

  /** A numeral no rule reads is rejected as it is written. */
  lemma NoAmountOf(t: string, strict: bool)
    requires |t| >= 1 && IsDigit(t[|t| - 1])
    requires forall i :: 0 <= i < |t| ==> IsNumeralChar(t[i])
    requires MatchAmount(t) == None
    ensures StandardizeValues(Str(t), strict) == if strict then Raised(IrrecognizableValue(t)) else NaN
  {
    CleanNumeral(t);
  }

  /** Digits, a separator and digits form a numeral ending with a digit. */
  lemma SplitNumeral(a: string, sep: char, f: string)
    requires AllDigits(a) && IsSeparator(sep) && |f| >= 1 && AllDigits(f)
    ensures var t := a + [sep] + f;
      |t| >= 1 && IsDigit(t[|t| - 1]) && forall i :: 0 <= i < |t| ==> IsNumeralChar(t[i])
  {
    NumeralParts(a, [sep]);
    NumeralParts(a + [sep], f);
  }

  /** Numerals put together form a numeral. */
  lemma NumeralParts(a: string, b: string)
    requires forall i :: 0 <= i < |a| ==> IsNumeralChar(a[i])
    requires forall i :: 0 <= i < |b| ==> IsNumeralChar(b[i])
    ensures forall i :: 0 <= i < |a + b| ==> IsNumeralChar((a + b)[i])
    ensures |b| >= 1 && IsDigit(b[|b| - 1]) ==> |a + b| >= 1 && IsDigit((a + b)[|a + b| - 1])
  {
    if |b| >= 1 {
      assert (a + b)[|a + b| - 1] == b[|b| - 1];
    }
  }

  /** The `$` of every pattern also matches before a final newline; the
      cleaned text never ends with one, so `$` is its end. */
  lemma CleanHasNoFinalNewline(s: string)
    ensures DropFinalNewline(Clean(s)) == Clean(s)
  {
    var t := Clean(s);
    assert t == [] || !IsSpace(t[|t| - 1]);
    assert IsSpace('\n');
  }

  /** `int()` refuses any text holding a separator. */
  lemma SeparatorIsNotInteger(t: string, i: int)
    requires 0 <= i < |t| && IsSeparator(t[i])
    ensures PyInt(t) == None
  {
    assert !IsIntChar(t[i]);
    PyIntChars(t);
  }

  /** Written groups are digits and separators. */
  lemma {:induction false} JoinGroupsChars(gs: seq<string>, g: char)
    requires AreGroups(gs) && IsSeparator(g)
    ensures forall i :: 0 <= i < |JoinGroups(gs, g)| ==> IsNumeralChar(JoinGroups(gs, g)[i])
    decreases |gs|
  {
    if gs != [] {
      JoinGroupsChars(gs[1..], g);
      assert AllDigits(gs[0]);
      var j := JoinGroups(gs, g);
      assert forall i :: 4 <= i < |j| ==> j[i] == JoinGroups(gs[1..], g)[i - 4];
    }
  }

  /** Groups after one separator are not read as groups after another. */
  lemma GroupedIntOtherSeparator(h: string, gs: seq<string>, g: char, x: char)
    requires 1 <= |h| && AllDigits(h) && |gs| >= 1 && !IsDigit(g) && x != g
    ensures GroupedInt(h + JoinGroups(gs, g), x) == None
  {
    var s := h + JoinGroups(gs, g);
    JoinGroupsFirst(gs, g);
    DigitPrefixLenOf(h, JoinGroups(gs, g));
    assert s[|h|..] == JoinGroups(gs, g);
  }

  /** Rule 3 matches only text ending in a separator and three digits. */
  lemma GroupedWithTail(t: string, x: char)
    ensures GroupedWith(t, x).Some? ==> |t| >= 4 && t[|t| - 4] == x && AllDigits(t[|t| - 3..])
  {
    if GroupedWith(t, x).Some? {
      var (h, gs) := GroupedInt(t, x).value;
      assert |gs| >= 1 && AreGroups(gs) && t == h + JoinGroups(gs, x);
      EndsWithGroup(t, h, gs, x);
    }
  }

  lemma EndsWithGroup(t: string, h: string, gs: seq<string>, x: char)
    requires |gs| >= 1 && AreGroups(gs) && t == h + JoinGroups(gs, x)
    ensures |t| >= 4 && t[|t| - 4] == x && AllDigits(t[|t| - 3..])
  {
    JoinGroupsLast(gs, x);
    var init := h + JoinGroups(gs[..|gs| - 1], x);
    var g := gs[|gs| - 1];
    assert t == init + [x] + g;
    assert t[|t| - 3..] == g;
  }

  /** How the rules that cut at the decimal separator read `t`. */
  lemma RulesBySplit(t: string, a: string, sep: char, f: string)
    requires SplitFraction(t) == Some((a, sep, f))
    ensures ShortDecimal(t) == if |a| >= 1 && AllDigits(a) && IsSeparator(sep) && |f| <= 2
      then Some(Cents(DigitsValue(a), f)) else None
    ensures LongDecimal(t) == if |a| >= 1 && AllDigits(a) && IsSeparator(sep) && |f| >= 4
      then Some(RoundToCents(a, f)) else None
  {
  }

  /** How rules 4 and 5 read `t`. */
  lemma GroupedDecimalBySplit(t: string, a: string, sep: char, f: string, g: char, d: char)
    requires SplitFraction(t) == Some((a, sep, f))
    ensures sep != d || |f| > 2 || GroupedInt(a, g).None? ==> GroupedDecimal(t, g, d) == None
    ensures sep == d && |f| <= 2 && GroupedInt(a, g).Some? ==>
      (GroupedDecimal(t, g, d)
        == Some(Cents(GroupedValue(GroupedInt(a, g).value.0, GroupedInt(a, g).value.1), f)))
  {
  }

  /** How one alternative of rule 3 reads `t`. */
  lemma GroupedWithByInt(t: string, g: char)
    ensures GroupedInt(t, g).None? ==> GroupedWith(t, g) == None
    ensures GroupedInt(t, g).Some? ==> (GroupedWith(t, g) ==
      if |GroupedInt(t, g).value.1| >= 1
      then Some(100 * GroupedValue(GroupedInt(t, g).value.0, GroupedInt(t, g).value.1))
      else None)
  {
  }

  /** More than three leading digits are not the head of thousands groups. */
  lemma GroupedIntLongHead(t: string, g: char)
    requires DigitPrefixLen(t) > 3
    ensures GroupedInt(t, g) == None
  {
  }

  /** A whole number written out has only digits and a minus sign, and ends with a digit. */
  lemma IntToStringNumeral(n: int)
    ensures var t := IntToString(n);
      |t| >= 1 && IsDigit(t[|t| - 1]) && forall i :: 0 <= i < |t| ==> IsNumeralChar(t[i])
  {
    var digits := NatToString(if n < 0 then -n else n);
    var t := IntToString(n);
    assert t == (if n < 0 then "-" + digits else digits);
    assert t[|t| - 1] == digits[|digits| - 1];
    assert forall i :: 0 <= i < |t| ==> t[i] == '-' || IsDigit(t[i]);
  }

  /** Rule 1: a whole number written out, possibly negative, is that many
      units: `int(str(n))`. */
  lemma IntegerAmount(n: int, strict: bool)
    ensures StandardizeValues(Str(IntToString(n)), strict) == Amount(100 * n)
  {
    var t := IntToString(n);
    PyIntOfIntToString(n);
    assert MatchAmount(t) == Some(100 * n);
    IntToStringNumeral(n);
    CleanNumeral(t);
  }

  /** Rule 2: digits, either separator, one or two decimals. */
  lemma ShortDecimalAmount(a: string, sep: char, f: string, strict: bool)
    requires |a| >= 1 && AllDigits(a) && IsSeparator(sep) && 1 <= |f| <= 2 && AllDigits(f)
    ensures StandardizeValues(Str(a + [sep] + f), strict) == Amount(Cents(DigitsValue(a), f))
  {
    var t := a + [sep] + f;
    SplitFractionOf(a, sep, f);
    SplitNumeral(a, sep, f);
    ShortDecimalRead(t, a, sep, f, strict);
  }

  lemma ShortDecimalRead(t: string, a: string, sep: char, f: string, strict: bool)
    requires |a| >= 1 && AllDigits(a) && IsSeparator(sep) && 1 <= |f| <= 2 && AllDigits(f)
    requires SplitFraction(t) == Some((a, sep, f))
    requires |t| >= 1 && IsDigit(t[|t| - 1]) && forall i :: 0 <= i < |t| ==> IsNumeralChar(t[i])
    ensures StandardizeValues(Str(t), strict) == Amount(Cents(DigitsValue(a), f))
  {
    assert MatchAmount(t) == Some(Cents(DigitsValue(a), f)) by {
      RulesBySplit(t, a, sep, f);
      assert t[|a|] == sep;
      SeparatorIsNotInteger(t, |a|);
    }
    AmountOf(t, Cents(DigitsValue(a), f), strict);
  }

  /** Rule 3: one to three digits and at least one thousands group, all
      after `.` or all after `,`, is an integer. */
  lemma GroupedIntegerAmount(h: string, gs: seq<string>, g: char, strict: bool)
    requires 1 <= |h| <= 3 && AllDigits(h) && AreGroups(gs) && |gs| >= 1 && IsSeparator(g)
    ensures StandardizeValues(Str(h + JoinGroups(gs, g)), strict) == Amount(100 * GroupedValue(h, gs))
  {
    var t := h + JoinGroups(gs, g);
    var init := h + JoinGroups(gs[..|gs| - 1], g);
    var last := gs[|gs| - 1];
    JoinGroupsLast(gs, g);
    assert t == init + [g] + last;
    SplitFractionOf(init, g, last);
    RulesBySplit(t, init, g, last);
    JoinGroupsFirst(gs, g);
    SeparatorIsNotInteger(t, |h|);
    GroupedIntOf(h, gs, g);
    GroupedWithByInt(t, g);
    if g == ',' {
      GroupedIntOtherSeparator(h, gs, ',', '.');
      GroupedWithByInt(t, '.');
    }
    assert MatchAmount(t) == Some(100 * GroupedValue(h, gs));
    JoinGroupsChars(gs, g);
    NumeralParts(h, JoinGroups(gs, g));
    assert t[|t| - 1] == last[2];
    CleanNumeral(t);
  }

  /** Rules 4 and 5: thousands groups after one separator, then the other
      separator and one or two decimals. */
  lemma GroupedDecimalAmount(h: string, gs: seq<string>, g: char, d: char, f: string, strict: bool)
    requires 1 <= |h| <= 3 && AllDigits(h) && AreGroups(gs)
    requires IsSeparator(g) && IsSeparator(d) && g != d
    requires 1 <= |f| <= 2 && AllDigits(f)
    ensures StandardizeValues(Str(h + JoinGroups(gs, g) + [d] + f), strict)
      == Amount(Cents(GroupedValue(h, gs), f))
  {
    var a := h + JoinGroups(gs, g);
    var t := a + [d] + f;
    assert MatchAmount(t) == Some(Cents(GroupedValue(h, gs), f)) by {
      SplitFractionOf(a, d, f);
      GroupedIntOf(h, gs, g);
      if gs != [] {
        JoinGroupsFirst(gs, g);
        assert a[|h|] == g;
      }
      GroupedDecimalRead(t, a, d, f, h, gs, g);
    }
    GroupedDecimalNumeral(h, gs, g, d, f);
    AmountOf(t, Cents(GroupedValue(h, gs), f), strict);
  }

  lemma GroupedDecimalNumeral(h: string, gs: seq<string>, g: char, d: char, f: string)
    requires AllDigits(h) && AreGroups(gs) && IsSeparator(g) && IsSeparator(d)
    requires |f| >= 1 && AllDigits(f)
    ensures var t := h + JoinGroups(gs, g) + [d] + f;
      && |t| >= 1 && IsDigit(t[|t| - 1])
      && forall i :: 0 <= i < |t| ==> IsNumeralChar(t[i])
  {
    var a := h + JoinGroups(gs, g);
    JoinGroupsChars(gs, g);
    NumeralParts(h, JoinGroups(gs, g));
    NumeralParts(a, [d]);
    NumeralParts(a + [d], f);
  }

  lemma GroupedDecimalRead(t: string, a: string, d: char, f: string, h: string, gs: seq<string>, g: char)
    requires SplitFraction(t) == Some((a, d, f)) && |f| <= 2
    requires GroupedInt(a, g) == Some((h, gs))
    requires IsSeparator(g) && IsSeparator(d) && g != d
    requires gs != [] ==> a[|h|] == g
    ensures MatchAmount(t) == Some(Cents(GroupedValue(h, gs), f))
  {
    RulesBySplit(t, a, d, f);
    GroupedDecimalBySplit(t, a, d, f, '.', ',');
    GroupedDecimalBySplit(t, a, d, f, ',', '.');
    assert t[|a|] == d;
    SeparatorIsNotInteger(t, |a|);
    if gs == [] {
      assert a == h && h + Flatten(gs) == h;
      assert GroupedValue(h, gs) == DigitsValue(h);
    } else {
      GroupedWithTail(t, '.');
      GroupedWithTail(t, ',');
      assert t[|t| - 3..][2 - |f|] == d;
    }
  }

  /** `1.234,56` and `1,234.56` are the same amount. */
  lemma SeparatorsInterchangeable(h: string, gs: seq<string>, f: string, strict: bool)
    requires 1 <= |h| <= 3 && AllDigits(h) && AreGroups(gs) && 1 <= |f| <= 2 && AllDigits(f)
    ensures StandardizeValues(Str(h + JoinGroups(gs, '.') + [','] + f), strict)
      == StandardizeValues(Str(h + JoinGroups(gs, ',') + ['.'] + f), strict)
  {
    GroupedDecimalAmount(h, gs, '.', ',', f, strict);
    GroupedDecimalAmount(h, gs, ',', '.', f, strict);
  }

  /** Thousands groups and decimals after the same separator match no rule. */
  lemma SameSeparatorRejected(h: string, gs: seq<string>, g: char, f: string, strict: bool)
    requires 1 <= |h| <= 3 && AllDigits(h) && AreGroups(gs) && |gs| >= 1 && IsSeparator(g)
    requires 1 <= |f| <= 2 && AllDigits(f)
    ensures var t := h + JoinGroups(gs, g) + [g] + f;
      StandardizeValues(Str(t), strict) == if strict then Raised(IrrecognizableValue(t)) else NaN
  {
    var a := h + JoinGroups(gs, g);
    var t := a + [g] + f;
    var other := if g == '.' then ',' else '.';
    SplitFractionOf(a, g, f);
    JoinGroupsFirst(gs, g);
    assert a[|h|] == g;
    GroupedIntOtherSeparator(h, gs, g, other);
    HeadNotGroupedRead(t, a, g, f, other);
    JoinGroupsChars(gs, g);
    NumeralParts(h, JoinGroups(gs, g));
    NumeralParts(a, [g]);
    NumeralParts(a + [g], f);
    NoAmountOf(t, strict);
  }

  /** Text cut at a decimal separator `g`, before which stands neither a run
      of digits nor thousands groups after the other separator, matches no
      rule. */
  lemma HeadNotGroupedRead(t: string, a: string, g: char, f: string, other: char)
    requires SplitFraction(t) == Some((a, g, f)) && |f| <= 2
    requires IsSeparator(g) && IsSeparator(other) && g != other
    requires !AllDigits(a) && GroupedInt(a, other) == None
    ensures MatchAmount(t) == None
  {
    RulesBySplit(t, a, g, f);
    GroupedDecimalBySplit(t, a, g, f, '.', ',');
    GroupedDecimalBySplit(t, a, g, f, ',', '.');
    assert t[|a|] == g;
    SeparatorIsNotInteger(t, |a|);
    GroupedWithTail(t, '.');
    GroupedWithTail(t, ',');
    assert t[|t| - 3..][2 - |f|] == g;
  }

  /** A head of one to three digits, then text after `g` that is not
      three-digit groups (`1.23`, `1.2345`), then the other separator and
      one or two decimals, matches no rule: `1.23,45` is rejected. */
  lemma IrregularGroupsRejected(h: string, m: string, g: char, d: char, f: string, strict: bool)
    requires 1 <= |h| <= 3 && AllDigits(h) && IsSeparator(g) && IsSeparator(d) && g != d
    requires |m| >= 1 && m[0] == g && Groups(m, g) == None
    requires forall i :: 0 <= i < |m| ==> IsDigit(m[i]) || IsSeparator(m[i])
    requires 1 <= |f| <= 2 && AllDigits(f)
    ensures var t := h + m + [d] + f;
      StandardizeValues(Str(t), strict) == if strict then Raised(IrrecognizableValue(t)) else NaN
  {
    var a := h + m;
    var t := a + [d] + f;
    SplitFractionOf(a, d, f);
    assert a[|h|] == g;
    assert GroupedInt(a, g) == None by {
      DigitPrefixLenOf(h, m);
      assert a[|h|..] == m;
    }
    HeadNotGroupedRead(t, a, d, f, g);
    assert forall i :: 0 <= i < |m| ==> IsNumeralChar(m[i]);
    NumeralParts(h, m);
    NumeralParts(a, [d]);
    NumeralParts(a + [d], f);
    NoAmountOf(t, strict);
  }

  /** Thousands groups after one separator, then the other separator and
      three decimals, match no rule: `1.234,567` is rejected. */
  lemma GroupedThreeDecimalsRejected(h: string, gs: seq<string>, g: char, d: char, f: string, strict: bool)
    requires 1 <= |h| <= 3 && AllDigits(h) && AreGroups(gs) && |gs| >= 1
    requires IsSeparator(g) && IsSeparator(d) && g != d
    requires |f| == 3 && AllDigits(f)
    ensures var t := h + JoinGroups(gs, g) + [d] + f;
      StandardizeValues(Str(t), strict) == if strict then Raised(IrrecognizableValue(t)) else NaN
  {
    var a := h + JoinGroups(gs, g);
    var t := a + [d] + f;
    SplitFractionOf(a, d, f);
    JoinGroupsFirst(gs, g);
    assert t[..|h|] == h && t[|h|] == g;
    GroupedThreeDecimalsRead(t, a, d, f, h, g);
    GroupedDecimalNumeral(h, gs, g, d, f);
    NoAmountOf(t, strict);
  }

  lemma GroupedThreeDecimalsRead(t: string, a: string, d: char, f: string, h: string, g: char)
    requires SplitFraction(t) == Some((a, d, f)) && |f| == 3
    requires IsSeparator(g) && IsSeparator(d) && g != d
    requires 1 <= |h| < |t| && AllDigits(h) && t[..|h|] == h && t[|h|] == g
    ensures MatchAmount(t) == None
  {
    RulesBySplit(t, a, d, f);
    LongFractionNotGroupedDecimal(t, a, d, f);
    assert PyInt(t) == None by {
      SeparatorIsNotInteger(t, |h|);
    }
    assert GroupedWith(t, g) == None by {
      assert t[|t| - 4] == d;
      GroupedWithTail(t, g);
    }
    HeadThenOtherSeparator(t, h, d);
    OnlyLongDecimal(t);
  }

  /** Digits followed by a separator other than `x` start no thousands
      groups after `x`. */
  lemma HeadThenOtherSeparator(t: string, h: string, x: char)
    requires 1 <= |h| < |t| && AllDigits(h) && t[..|h|] == h && !IsDigit(t[|h|]) && t[|h|] != x
    ensures GroupedWith(t, x) == None
  {
    assert t == h + t[|h|..];
    DigitPrefixLenOf(h, t[|h|..]);
    GroupedWithByInt(t, x);
  }

  /** Rule 6: four or more decimals are rounded to cents. */
  lemma LongDecimalAmount(a: string, sep: char, f: string, strict: bool)
    requires |a| >= 1 && AllDigits(a) && IsSeparator(sep) && |f| >= 4 && AllDigits(f)
    ensures StandardizeValues(Str(a + [sep] + f), strict) == Amount(RoundToCents(a, f))
  {
    var t := a + [sep] + f;
    SplitFractionOf(a, sep, f);
    LongDecimalRead(t, a, sep, f);
    SplitNumeral(a, sep, f);
    AmountOf(t, RoundToCents(a, f), strict);
  }

  lemma LongDecimalRead(t: string, a: string, sep: char, f: string)
    requires SplitFraction(t) == Some((a, sep, f))
    requires |a| >= 1 && AllDigits(a) && IsSeparator(sep) && |f| >= 4
    ensures MatchAmount(t) == Some(RoundToCents(a, f))
  {
    RulesBySplit(t, a, sep, f);
    LongFractionNotGroupedDecimal(t, a, sep, f);
    SplitSeparatorNotInteger(t, a, sep, f);
    LongFractionNotGrouped(t, a, sep, f, '.');
    LongFractionNotGrouped(t, a, sep, f, ',');
    OnlyLongDecimal(t);
  }

  /** Text cut at a separator is not an integer. */
  lemma SplitSeparatorNotInteger(t: string, a: string, sep: char, f: string)
    requires SplitFraction(t) == Some((a, sep, f)) && IsSeparator(sep)
    ensures PyInt(t) == None
  {
    assert t[|a|] == sep;
    SeparatorIsNotInteger(t, |a|);
  }

  /** More than two decimals are never read by rules 4 and 5. */
  lemma LongFractionNotGroupedDecimal(t: string, a: string, sep: char, f: string)
    requires SplitFraction(t) == Some((a, sep, f)) && |f| > 2
    ensures GroupedDecimal(t, '.', ',') == None && GroupedDecimal(t, ',', '.') == None
  {
    GroupedDecimalBySplit(t, a, sep, f, '.', ',');
    GroupedDecimalBySplit(t, a, sep, f, ',', '.');
  }

  /** Four or more decimals end in four digits, which no group does. */
  lemma LongFractionNotGrouped(t: string, a: string, sep: char, f: string, x: char)
    requires SplitFraction(t) == Some((a, sep, f)) && |f| >= 4 && IsSeparator(x)
    ensures GroupedWith(t, x) == None
  {
    assert t[|t| - 4] == f[|f| - 4];
    GroupedWithTail(t, x);
  }

  /** When rules 1 to 5 fail, rule 6 decides. */
  lemma OnlyLongDecimal(t: string)
    requires PyInt(t) == None && ShortDecimal(t) == None
    requires GroupedWith(t, '.') == None && GroupedWith(t, ',') == None
    requires GroupedDecimal(t, '.', ',') == None && GroupedDecimal(t, ',', '.') == None
    ensures MatchAmount(t) == LongDecimal(t)
  {
  }

  /** Three decimals after four or more digits are ambiguous and match no
      rule: `1234.567` is neither grouped nor a short or long fraction. */
  lemma ThreeDecimalsRejected(a: string, sep: char, f: string, strict: bool)
    requires |a| >= 4 && AllDigits(a) && IsSeparator(sep) && |f| == 3 && AllDigits(f)
    ensures var t := a + [sep] + f;
      StandardizeValues(Str(t), strict) == if strict then Raised(IrrecognizableValue(t)) else NaN
  {
    var t := a + [sep] + f;
    SplitFractionOf(a, sep, f);
    assert DigitPrefixLen(t) == |a| by {
      assert t == a + ([sep] + f);
      DigitPrefixLenOf(a, [sep] + f);
    }
    ThreeDecimalsRead(t, a, sep, f);
    SplitNumeral(a, sep, f);
    NoAmountOf(t, strict);
  }

  lemma ThreeDecimalsRead(t: string, a: string, sep: char, f: string)
    requires SplitFraction(t) == Some((a, sep, f))
    requires |a| >= 4 && IsSeparator(sep) && |f| == 3 && DigitPrefixLen(t) == |a|
    ensures MatchAmount(t) == None
  {
    RulesBySplit(t, a, sep, f);
    GroupedDecimalBySplit(t, a, sep, f, '.', ',');
    GroupedDecimalBySplit(t, a, sep, f, ',', '.');
    assert t[|a|] == sep;
    SeparatorIsNotInteger(t, |a|);
    GroupedIntLongHead(t, '.');
    GroupedIntLongHead(t, ',');
    GroupedWithByInt(t, '.');
    GroupedWithByInt(t, ',');
  }

  /** No rule reads text that does not end with a digit. */
  lemma NoFinalDigitNoMatch(t: string)
    requires Strip(t) == t
    requires t == [] || !IsDigit(t[|t| - 1])
    ensures MatchAmount(t) == None
  {
    NoFinalDigitNoInteger(t);
    NotIntegerNoFinalDigit(t);
  }

  lemma NotIntegerNoFinalDigit(t: string)
    requires PyInt(t) == None
    requires t == [] || !IsDigit(t[|t| - 1])
    ensures MatchAmount(t) == None
  {
    NoFinalDigitNoFraction(t);
    NoFinalDigitNotGrouped(t, '.');
    NoFinalDigitNotGrouped(t, ',');
    NothingToSplit(t);
  }

  lemma NoFinalDigitNoFraction(t: string)
    requires t == [] || !IsDigit(t[|t| - 1])
    ensures SplitFraction(t) == None
  {
    assert DigitSuffixLen(t) == 0;
  }

  lemma NoFinalDigitNoInteger(t: string)
    requires Strip(t) == t
    requires t == [] || !IsDigit(t[|t| - 1])
    ensures PyInt(t) == None
  {
    PyIntOfStripped(t);
    IntLiteralEndsWithDigit(t);
    assert !IntLiteral(t).Some?;
  }

  /** Without a fraction, an integer or thousands groups, no rule matches. */
  lemma NothingToSplit(t: string)
    requires SplitFraction(t) == None && PyInt(t) == None
    requires GroupedWith(t, '.') == None && GroupedWith(t, ',') == None
    ensures MatchAmount(t) == None
  {
  }

  lemma NoFinalDigitNotGrouped(t: string, x: char)
    requires t == [] || !IsDigit(t[|t| - 1])
    ensures GroupedWith(t, x) == None
  {
    GroupedWithEndsWithDigit(t, x);
  }

  lemma GroupedWithEndsWithDigit(t: string, x: char)
    ensures GroupedWith(t, x).Some? ==> IsDigit(t[|t| - 1])
  {
    if GroupedWith(t, x).Some? {
      GroupedWithTail(t, x);
      assert t[|t| - 3..][2] == t[|t| - 1];
    }
  }

  /** Text that is empty or does not end with a digit once cleaned (words,
      a trailing separator) matches no rule. */
  lemma NoFinalDigitRejected(s: string, strict: bool)
    requires Clean(s) == [] || !IsDigit(Clean(s)[|Clean(s)| - 1])
    ensures StandardizeValues(Str(s), strict)
      == if strict then Raised(IrrecognizableValue(Clean(s))) else NaN
  {
    var t := Clean(s);
    assert Strip(t) == t by {
      StripIdempotent(RemoveAll(Upper(s), "R$"));
    }
    NoFinalDigitNoMatch(t);
    Unmatched(s, strict);
  }

  /** Text whose cleaned form no rule reads gives NaN, or raises in strict mode. */
  lemma Unmatched(s: string, strict: bool)
    requires MatchAmount(Clean(s)) == None
    ensures StandardizeValues(Str(s), strict)
      == if strict then Raised(IrrecognizableValue(Clean(s))) else NaN
  {
  }

  /** Strict mode differs only where no rule matched: it raises instead of NaN. */
  lemma StrictOnlyRaises(s: string)
    ensures StandardizeValues(Str(s), false).NaN? <==> StandardizeValues(Str(s), true).Raised?
    ensures StandardizeValues(Str(s), false).Amount? ==>
      StandardizeValues(Str(s), true) == StandardizeValues(Str(s), false)
  {
  }

  // ---------------------------------------------------------------------
  // Rounding

  /** Rule 6 gives the cents nearest to the exact value `a.f` (a half cent
      goes up): `c/100` is within half a cent of `a.f`. With
      `S = 10^(|f| - 2)`, `a.f * 100 * S` is the integer `a ++ f`. */
  lemma RoundToCentsNearest(a: string, f: string)
    requires AllDigits(a) && AllDigits(f) && |f| >= 3
    ensures AllDigits(a + f)
    ensures var c, s := RoundToCents(a, f), Pow10(|f| - 2);
      2 * c * s - s <= 2 * DigitsValue(a + f) < 2 * c * s + s
  {
    var s, t := Pow10(|f| - 2), Pow10(|f| - 3);
    FractionDigits(f);
    var x, v := DigitsValue(a), DigitsValue(a + f);
    assert v == x * (100 * s) + DigitsValue(f) by {
      DigitsValueAppend(a, f);
      assert Pow10(|f|) == 10 * Pow10(|f| - 1);
    }
    assert AllDigits(f[3..]);
    RoundingArith(x, DigitsValue(f[..2]), DigitValue(f[2]), DigitsValue(f[3..]), t, s, v, RoundToCents(a, f));
  }

  /** The decimals of rule 6 as the first two, the third and the rest. */
  lemma FractionDigits(f: string)
    requires AllDigits(f) && |f| >= 3
    ensures AllDigits(f[..2]) && AllDigits(f[3..])
    ensures Pow10(|f| - 2) == 10 * Pow10(|f| - 3)
    ensures DigitsValue(f) == DigitsValue(f[..2]) * Pow10(|f| - 2)
      + (DigitValue(f[2]) * Pow10(|f| - 3) + DigitsValue(f[3..]))
  {
    var hi, lo := f[..2], f[2..];
    assert AllDigits(hi) && AllDigits(lo);
    assert f == hi + lo;
    DigitsValueAppend(hi, lo);
    LeadingDigit(lo);
    assert lo[0] == f[2] && lo[1..] == f[3..];
  }

  /** A numeral is its first digit, shifted, plus the rest. */
  lemma LeadingDigit(s: string)
    requires AllDigits(s) && |s| >= 1
    ensures AllDigits(s[1..]) && Pow10(|s|) == 10 * Pow10(|s| - 1)
    ensures DigitsValue(s) == DigitValue(s[0]) * Pow10(|s| - 1) + DigitsValue(s[1..])
  {
    var head, rest := s[..1], s[1..];
    assert AllDigits(head) && AllDigits(rest);
    assert s == head + rest;
    DigitsValueAppend(head, rest);
    assert DigitsValue(head) == DigitValue(s[0]) by {
      assert head[..0] == [];
    }
  }

  /** The arithmetic of `RoundToCentsNearest`, on numbers alone. */
  lemma RoundingArith(x: int, h: int, d: int, r: int, t: int, s: int, v: int, c: int)
    requires 0 <= d < 10 && 0 <= r < t && s == 10 * t
    requires v == x * (100 * s) + (h * s + (d * t + r))
    requires c == 100 * x + h + (if d >= 5 then 1 else 0)
    ensures 2 * c * s - s <= 2 * v < 2 * c * s + s
  {
    var u := if d >= 5 then 1 else 0;
    assert c * s == x * (100 * s) + h * s + u * s;
    assert d * t + r < (d + 1) * t;
    if d >= 5 {
      assert 5 * t <= d * t;
      assert (d + 1) * t <= s;
    } else {
      assert (d + 1) * t <= 5 * t;
    }
  }
}
