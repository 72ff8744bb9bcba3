/** `standardize_date`: the date formats a spreadsheet column may hold, tried
    in order — ISO `YYYY-MM-DD`, day-first `D/M/YYYY`, day-first `D/M/YY`,
    then a spreadsheet serial day number. */
module Dates {
  import opened Base
  import opened Text
  import opened Calendar

  /** What `standardize_date` gives back: a `datetime`, `pd.NaT`, or the
      exception it raises. */
  datatype DateOutcome = Parsed(date: Date) | NaT | Raised(error: Error)

  /** `date.strip().split(" ")[0]`: the first space-separated word, so a
      time of day after the date is ignored. */
  function DatePart(s: string): (r: string)
    ensures ' ' !in r && |r| <= |Strip(s)| && r == Strip(s)[..|r|]
    ensures |r| < |Strip(s)| ==> Strip(s)[|r|] == ' '
  {
    SplitFirst(Strip(s), ' ')
  }

  // ---------------------------------------------------------------------
  // The patterns

  /** `^(\d{4}-\d{2}-\d{2})$` on text without its final newline: the year,
      month and day fields, not yet checked to form a date. */
  function IsoFields(u: string): (r: Option<(string, string, string)>)
    ensures r.Some? ==> u == r.value.0 + "-" + r.value.1 + "-" + r.value.2
    ensures r.Some? ==> |r.value.0| == 4 && |r.value.1| == 2 && |r.value.2| == 2
    ensures r.Some? ==> AllDigits(r.value.0) && AllDigits(r.value.1) && AllDigits(r.value.2)
  {
    if |u| == 10 && u[4] == '-' && u[7] == '-'
      && AllDigits(u[..4]) && AllDigits(u[5..7]) && AllDigits(u[8..])
    then
      assert u == u[..4] + "-" + u[5..7] + "-" + u[8..];
      Some((u[..4], u[5..7], u[8..]))
    else None
  }

  /** `^(\d{1,2}/\d{1,2}/\d+)$`, the shape shared by the two day-first
      patterns: the day, month and year fields. */
  function SlashFields(u: string): (r: Option<(string, string, string)>)
    ensures r.Some? ==> u == r.value.0 + "/" + r.value.1 + "/" + r.value.2
    ensures r.Some? ==> 1 <= |r.value.0| <= 2 && 1 <= |r.value.1| <= 2
    ensures r.Some? ==> AllDigits(r.value.0) && AllDigits(r.value.1) && AllDigits(r.value.2)
  {
    var d := DigitPrefixLen(u);
    if 1 <= d <= 2 && d < |u| && u[d] == '/' then
      var rest := u[d + 1..];
      var m := DigitPrefixLen(rest);
      if 1 <= m <= 2 && m < |rest| && rest[m] == '/' && AllDigits(rest[m + 1..]) then
        assert rest == rest[..m] + "/" + rest[m + 1..];
        assert u == u[..d] + "/" + rest;
        Some((u[..d], rest[..m], rest[m + 1..]))
      else None
    else None
  }

  /** `datetime.strptime` once the pattern has matched: the date, or the
      ValueError it raises for a day, month or year that does not exist. */
  function Strptime(year: int, month: int, day: int): (r: DateOutcome)
    ensures r.Parsed? <==> ValidDate(Date(year, month, day))
    ensures r.Parsed? ==> r.date == Date(year, month, day)
    ensures !r.Parsed? ==> r == Raised(ValueError)
  {
    match MakeDate(year, month, day)
    case Some(d) => Parsed(d)
    case None => Raised(ValueError)
  }

  /** No format applies: strict mode raises IrrecognizableValue with the
      word that was tried, otherwise NaT. */
  function GiveUp(t: string, strict: bool): (r: DateOutcome)
    ensures r.NaT? <==> !strict
    ensures r.Raised? <==> strict
    ensures r.Raised? ==> r.error == IrrecognizableValue(t)
  {
    if strict then Raised(IrrecognizableValue(t)) else NaT
  }

  /** The last format, `xlrd.xldate_as_datetime(int(date), 0)`: a whole
      number of days counted by a spreadsheet. A ValueError, from `int` or
      from the conversion, means no format applies; any other exception
      propagates. */
  function SerialDate(t: string, strict: bool, xldate: int -> Result<Date>): (r: DateOutcome)
    ensures r.Parsed? ==> PyInt(t).Some? && xldate(PyInt(t).value) == Ok(r.date)
    ensures r.NaT? ==> !strict
    ensures r.Raised? ==> (
      || (strict && r.error == IrrecognizableValue(t))
      || (PyInt(t).Some? && xldate(PyInt(t).value) == Err(r.error) && r.error != ValueError))
    ensures PyInt(t).Some? && xldate(PyInt(t).value).Ok? ==> r == Parsed(xldate(PyInt(t).value).value)
    ensures PyInt(t).Some? && xldate(PyInt(t).value).Err? && xldate(PyInt(t).value).error != ValueError
      ==> r == Raised(xldate(PyInt(t).value).error)
    ensures PyInt(t).None? || xldate(PyInt(t).value) == Err(ValueError)
      ==> r == if strict then Raised(IrrecognizableValue(t)) else NaT
  {
    match PyInt(t)
    case None => GiveUp(t, strict)
    case Some(n) =>
      match xldate(n)
      case Ok(date) => Parsed(date)
      case Err(ValueError) => GiveUp(t, strict)
      case Err(e) => Raised(e)
  }

  /** The three patterns, in order, on the word without its final newline:
      the outcome of `strptime` once one matches, or None when none does.
      Which pattern matches decides the reading; the date need not exist. */
  function PatternDate(u: string): (r: Option<DateOutcome>)
    ensures r.Some? ==> (r.value.Parsed? && ValidDate(r.value.date)) || r.value == Raised(ValueError)
  {
    match IsoFields(u)
    case Some((y, m, d)) => Some(Strptime(DigitsValue(y), DigitsValue(m), DigitsValue(d)))
    case None =>
      var slash := SlashFields(u);
      if slash.Some? && |slash.value.2| == 4 then
        var (d, m, y) := slash.value;
        Some(Strptime(DigitsValue(y), DigitsValue(m), DigitsValue(d)))
      else if slash.Some? && |slash.value.2| == 2 then
        var (d, m, y) := slash.value;
        Some(Strptime(PivotYear(DigitsValue(y)), DigitsValue(m), DigitsValue(d)))
      else None
  }

  /** The formats tried on the first word `t`. */
  function ReadWord(t: string, strict: bool, xldate: int -> Result<Date>): (r: DateOutcome)
    ensures r.NaT? ==> !strict
    ensures r.Raised? ==> (
      || r.error == ValueError
      || (strict && r.error == IrrecognizableValue(t))
      || (PyInt(t).Some? && xldate(PyInt(t).value) == Err(r.error)))
    ensures r.Parsed? ==> (
      || ValidDate(r.date)
      || (PyInt(t).Some? && xldate(PyInt(t).value) == Ok(r.date)))
  {
    match PatternDate(DropFinalNewline(t))
    case Some(outcome) => outcome
    case None => SerialDate(t, strict, xldate)
  }

  /** `standardize_date(date, strict)`. `xldate(n)` stands for
      `xlrd.xldate_as_datetime(n, 0)`; only a ValueError from it is caught.
      A pattern that matches but names a date that does not exist raises
      ValueError: only AssertionError (no match) moves on to the next
      format. */
  function StandardizeDate(cell: Cell, strict: bool, xldate: int -> Result<Date>): (r: DateOutcome)
    ensures cell.NotStr? ==> r == NaT
    ensures cell.Str? ==> r == ReadWord(DatePart(cell.s), strict, xldate)
  {
    match cell
    case NotStr => NaT
    case Str(raw) => ReadWord(DatePart(raw), strict, xldate)
  }

  // ---------------------------------------------------------------------
  // Which word is read

  /** A non-empty run of characters none of which is whitespace. */
  predicate IsWord(w: string)
  {
    |w| >= 1 && forall i :: 0 <= i < |w| ==> !IsSpace(w[i])
  }

  lemma WordAppend(a: string, b: string)
    requires IsWord(a) && IsWord(b)
    ensures IsWord(a + b)
  {
    assert forall i :: 0 <= i < |a + b| ==> (a + b)[i] == if i < |a| then a[i] else b[i - |a|];
  }

  lemma DigitsWord(s: string)
    requires |s| >= 1 && AllDigits(s)
    ensures IsWord(s)
  {
  }

  /** `s.split(c)[0]` ends at the first `c`. */
  lemma SplitFirstAt(s: string, c: char, i: nat)
    requires i <= |s| && c !in s[..i] && (i < |s| ==> s[i] == c)
    ensures SplitFirst(s, c) == s[..i]
  {
  }

  /** A single word is read as it is. */
  lemma WordDatePart(w: string)
    requires IsWord(w)
    ensures DatePart(w) == w && DropFinalNewline(w) == w
  {
    assert !IsSpace(w[0]) && !IsSpace(w[|w| - 1]);
    StripUnchanged(w);
    assert ' ' !in w;
    assert w[..|w|] == w;
    SplitFirstAt(w, ' ', |w|);
  }

  /** Only the first space-separated word is read: a time of day or any
      other text after the date is ignored. */
  lemma DatePartIgnoresRest(w: string, rest: string)
    requires IsWord(w)
    ensures DatePart(w + " " + rest) == w
  {
    var s := w + " " + rest;
    assert !IsSpace(s[0]) && s[|w| - 1] == w[|w| - 1];
    var t := TrimStart(s);
    assert t == s;
    var r := TrimEnd(s);
    assert |r| >= |w|;
    assert Strip(s) == r;
    assert r[..|w|] == w;
    assert ' ' !in w;
    SplitFirstAt(r, ' ', |w|);
  }

  /** The outcome depends on the first word alone. */
  lemma SameWordSameDate(s1: string, s2: string, strict: bool, xldate: int -> Result<Date>)
    requires DatePart(s1) == DatePart(s2)
    ensures StandardizeDate(Str(s1), strict, xldate) == StandardizeDate(Str(s2), strict, xldate)
  {
  }

  /** Whitespace around the text changes nothing. */
  lemma SurroundingSpaceIgnored(s: string, strict: bool, xldate: int -> Result<Date>)
    ensures StandardizeDate(Str(Strip(s)), strict, xldate) == StandardizeDate(Str(s), strict, xldate)
  {
    StripIdempotent(s);
    SameWordSameDate(Strip(s), s, strict, xldate);
  }

  /** A date followed by a time of day reads as the date alone. */
  lemma TimeOfDayIgnored(w: string, rest: string, strict: bool, xldate: int -> Result<Date>)
    requires IsWord(w)
    ensures StandardizeDate(Str(w + " " + rest), strict, xldate) == StandardizeDate(Str(w), strict, xldate)
  {
    DatePartIgnoresRest(w, rest);
    WordDatePart(w);
    SameWordSameDate(w + " " + rest, w, strict, xldate);
  }

  // ---------------------------------------------------------------------
  // What each format reads

  lemma IsoFieldsOf(y: string, m: string, d: string)
    requires |y| == 4 && |m| == 2 && |d| == 2 && AllDigits(y) && AllDigits(m) && AllDigits(d)
    ensures IsoFields(y + "-" + m + "-" + d) == Some((y, m, d))
  {
    var u := y + "-" + m + "-" + d;
    assert u[..4] == y && u[5..7] == m && u[8..] == d;
  }

  lemma SlashFieldsOf(d: string, m: string, y: string)
    requires 1 <= |d| <= 2 && 1 <= |m| <= 2 && AllDigits(d) && AllDigits(m) && AllDigits(y)
    ensures SlashFields(d + "/" + m + "/" + y) == Some((d, m, y))
  {
    var rest := m + "/" + y;
    assert d + "/" + m + "/" + y == d + "/" + rest;
    DigitsThenSeparator(d, '/', rest);
    DigitsThenSeparator(m, '/', y);
    SlashFieldsRead(d + "/" + rest, d, rest, m, y);
  }

  /** A run of digits ends where the separator after it starts. */
  lemma DigitsThenSeparator(a: string, sep: char, rest: string)
    requires AllDigits(a) && !IsDigit(sep)
    ensures var u := a + [sep] + rest;
      DigitPrefixLen(u) == |a| < |u| && u[|a|] == sep && u[..|a|] == a && u[|a| + 1..] == rest
  {
    var u := a + [sep] + rest;
    assert u == a + ([sep] + rest);
    DigitPrefixLenOf(a, [sep] + rest);
  }

  lemma SlashFieldsRead(u: string, d: string, rest: string, m: string, y: string)
    requires 1 <= |d| <= 2 && 1 <= |m| <= 2 && AllDigits(y)
    requires DigitPrefixLen(u) == |d| < |u| && u[|d|] == '/' && u[..|d|] == d && u[|d| + 1..] == rest
    requires DigitPrefixLen(rest) == |m| < |rest| && rest[|m|] == '/' && rest[..|m|] == m && rest[|m| + 1..] == y
    ensures SlashFields(u) == Some((d, m, y))
  {
  }

  /** Digits joined by two separators form one word, and that word is what
      is read. */
  lemma NumeralRead(a: string, sep: string, b: string, sep2: string, c: string,
                    strict: bool, xldate: int -> Result<Date>)
    requires |a| >= 1 && |b| >= 1 && |c| >= 1 && AllDigits(a) && AllDigits(b) && AllDigits(c)
    requires |sep| == 1 && |sep2| == 1 && !IsSpace(sep[0]) && !IsSpace(sep2[0])
    ensures var t := a + sep + b + sep2 + c;
      && StandardizeDate(Str(t), strict, xldate) == ReadWord(t, strict, xldate)
      && DropFinalNewline(t) == t
  {
    NumeralTextWord(a, sep, b, sep2, c);
    WordRead(a + sep + b + sep2 + c, strict, xldate);
  }

  lemma NumeralTextWord(a: string, sep: string, b: string, sep2: string, c: string)
    requires |a| >= 1 && |b| >= 1 && |c| >= 1 && AllDigits(a) && AllDigits(b) && AllDigits(c)
    requires |sep| == 1 && |sep2| == 1 && !IsSpace(sep[0]) && !IsSpace(sep2[0])
    ensures IsWord(a + sep + b + sep2 + c)
  {
    WordAppend(a, sep);
    WordAppend(a + sep, b);
    WordAppend(a + sep + b, sep2);
    WordAppend(a + sep + b + sep2, c);
  }

  /** `YYYY-MM-DD` is read as that year, month and day, or raises ValueError
      when no such date exists. */
  lemma IsoDate(y: string, m: string, d: string, strict: bool, xldate: int -> Result<Date>)
    requires |y| == 4 && |m| == 2 && |d| == 2 && AllDigits(y) && AllDigits(m) && AllDigits(d)
    ensures StandardizeDate(Str(y + "-" + m + "-" + d), strict, xldate)
      == Strptime(DigitsValue(y), DigitsValue(m), DigitsValue(d))
  {
    var t := y + "-" + m + "-" + d;
    IsoFieldsOf(y, m, d);
    NumeralRead(y, "-", m, "-", d, strict, xldate);
  }

  /** `D/M/YYYY`, day and month of one or two digits, is read day first. */
  lemma DayFirstDate(d: string, m: string, y: string, strict: bool, xldate: int -> Result<Date>)
    requires 1 <= |d| <= 2 && 1 <= |m| <= 2 && |y| == 4 && AllDigits(d) && AllDigits(m) && AllDigits(y)
    ensures StandardizeDate(Str(d + "/" + m + "/" + y), strict, xldate)
      == Strptime(DigitsValue(y), DigitsValue(m), DigitsValue(d))
  {
    SlashedRead(d, m, y, strict, xldate);
  }

  /** Day, month and year joined by slashes form one word, read whole,
      that only the day-first pattern matches. */
  lemma SlashedRead(d: string, m: string, y: string, strict: bool, xldate: int -> Result<Date>)
    requires 1 <= |d| <= 2 && 1 <= |m| <= 2 && |y| >= 1 && AllDigits(d) && AllDigits(m) && AllDigits(y)
    ensures var t := d + "/" + m + "/" + y;
      && StandardizeDate(Str(t), strict, xldate) == ReadWord(t, strict, xldate)
      && DropFinalNewline(t) == t
      && IsoFields(t) == None && SlashFields(t) == Some((d, m, y))
  {
    var t := d + "/" + m + "/" + y;
    SlashFieldsOf(d, m, y);
    NumeralRead(d, "/", m, "/", y, strict, xldate);
    assert IsoFields(t) == None by {
      assert t[|d|] == '/';
    }
  }

  /** `D/M/YY` is read day first, the year in the window 1969 to 2068. */
  lemma DayFirstShortYear(d: string, m: string, y: string, strict: bool, xldate: int -> Result<Date>)
    requires 1 <= |d| <= 2 && 1 <= |m| <= 2 && |y| == 2 && AllDigits(d) && AllDigits(m) && AllDigits(y)
    ensures StandardizeDate(Str(d + "/" + m + "/" + y), strict, xldate)
      == Strptime(PivotYear(DigitsValue(y)), DigitsValue(m), DigitsValue(d))
  {
    SlashedRead(d, m, y, strict, xldate);
  }

  /** A word that matches no pattern and is not an integer is not a date. */
  lemma PlainRejected(t: string, strict: bool, xldate: int -> Result<Date>)
    requires DatePart(t) == t && DropFinalNewline(t) == t
    requires IsoFields(t) == None && PyInt(t) == None
    requires SlashFields(t) == None || |SlashFields(t).value.2| !in {2, 4}
    ensures StandardizeDate(Str(t), strict, xldate) == if strict then Raised(IrrecognizableValue(t)) else NaT
  {
    Unrecognized(t, strict, xldate);
  }

  /** A day-first date whose year has neither two nor four digits matches
      no pattern, and its slashes keep it from being a serial number. */
  lemma YearLengthRejected(d: string, m: string, y: string, strict: bool, xldate: int -> Result<Date>)
    requires 1 <= |d| <= 2 && 1 <= |m| <= 2 && |y| >= 1 && AllDigits(d) && AllDigits(m) && AllDigits(y)
    requires |y| != 2 && |y| != 4
    ensures var t := d + "/" + m + "/" + y;
      StandardizeDate(Str(t), strict, xldate) == if strict then Raised(IrrecognizableValue(t)) else NaT
  {
    var t := d + "/" + m + "/" + y;
    SlashFieldsOf(d, m, y);
    NumeralTextWord(d, "/", m, "/", y);
    assert t[|d|] == '/';
    assert IsoFields(t) == None;
    assert PyInt(t) == None by {
      assert !IsIntChar(t[|d|]);
      PyIntChars(t);
    }
    WordDatePart(t);
    PlainRejected(t, strict, xldate);
  }

  /** A day-first date without its month matches no pattern. */
  lemma EmptyMonthRejected(d: string, y: string, strict: bool, xldate: int -> Result<Date>)
    requires 1 <= |d| <= 2 && |y| >= 1 && AllDigits(d) && AllDigits(y)
    ensures var t := d + "//" + y;
      StandardizeDate(Str(t), strict, xldate) == if strict then Raised(IrrecognizableValue(t)) else NaT
  {
    var t := d + "//" + y;
    assert SlashFields(t) == None by {
      EmptyMonthFields(t, d, y);
    }
    assert IsWord(t) by {
      WordAppend(d, "//");
      DigitsWord(y);
      WordAppend(d + "//", y);
    }
    assert t[|d|] == '/';
    assert IsoFields(t) == None;
    assert PyInt(t) == None by {
      assert !IsIntChar(t[|d|]);
      PyIntChars(t);
    }
    WordDatePart(t);
    PlainRejected(t, strict, xldate);
  }

  lemma EmptyMonthFields(t: string, d: string, y: string)
    requires 1 <= |d| <= 2 && AllDigits(d) && t == d + "//" + y
    ensures SlashFields(t) == None
  {
    assert t == d + ['/'] + ("/" + y);
    DigitsThenSeparator(d, '/', "/" + y);
    DigitPrefixLenOf([], "/" + y);
    assert [] + ("/" + y) == "/" + y;
  }

  /** `YYYY-M-D` with a month or a day of one digit matches no pattern, and
      its dashes keep it from being a serial number. */
  lemma IsoUnpaddedRejected(y: string, m: string, d: string, strict: bool, xldate: int -> Result<Date>)
    requires |y| == 4 && 1 <= |m| <= 2 && 1 <= |d| <= 2 && (|m| == 1 || |d| == 1)
    requires AllDigits(y) && AllDigits(m) && AllDigits(d)
    ensures var t := y + "-" + m + "-" + d;
      StandardizeDate(Str(t), strict, xldate) == if strict then Raised(IrrecognizableValue(t)) else NaT
  {
    var t := y + "-" + m + "-" + d;
    NumeralTextWord(y, "-", m, "-", d);
    assert SlashFields(t) == None by {
      assert t == y + ['-'] + (m + "-" + d);
      DigitsThenSeparator(y, '-', m + "-" + d);
    }
    assert IsoFields(t) == None;
    assert PyInt(t) == None by {
      assert IsDigit(t[0]) && IsDigit(t[|t| - 1]) && t[4] == '-';
      DashedNotInteger(t, 4);
    }
    WordDatePart(t);
    PlainRejected(t, strict, xldate);
  }

  /** A digit, later a dash, and a digit at the end: no integer literal. */
  lemma DashedNotInteger(t: string, k: nat)
    requires 0 < k < |t| && IsDigit(t[0]) && IsDigit(t[|t| - 1]) && t[k] == '-'
    ensures PyInt(t) == None
  {
    StripUnchanged(t);
    DashedNotLiteral(t, k);
    PyIntOfStripped(t);
  }

  lemma DashedNotLiteral(t: string, k: nat)
    requires 0 < k < |t| && IsDigit(t[0]) && t[k] == '-'
    ensures IntLiteral(t) == None
  {
    assert !IsIntBody(t) by {
      assert !(IsDigit(t[k]) || t[k] == '_');
    }
    assert !(t[0] == '+' || t[0] == '-');
  }

  // ---------------------------------------------------------------------
  // Round trips

  /** `date.strftime("%Y-%m-%d")`. */
  function IsoFormat(date: Date): string
    requires ValidDate(date)
  {
    assert Pow10(4) == 10000 && Pow10(2) == 100;
    PadDigits(date.year, 4) + "-" + PadDigits(date.month, 2) + "-" + PadDigits(date.day, 2)
  }

  /** `date.strftime("%d/%m/%Y")`. */
  function DayFirstFormat(date: Date): string
    requires ValidDate(date)
  {
    assert Pow10(4) == 10000 && Pow10(2) == 100;
    PadDigits(date.day, 2) + "/" + PadDigits(date.month, 2) + "/" + PadDigits(date.year, 4)
  }

  /** `date.strftime("%d/%m/%y")`. */
  function ShortYearFormat(date: Date): string
    requires ValidDate(date)
  {
    assert Pow10(2) == 100;
    PadDigits(date.day, 2) + "/" + PadDigits(date.month, 2) + "/" + PadDigits(date.year % 100, 2)
  }

  /** Every date written as `YYYY-MM-DD` reads back as itself. */
  lemma IsoRoundTrip(date: Date, strict: bool, xldate: int -> Result<Date>)
    requires ValidDate(date)
    ensures StandardizeDate(Str(IsoFormat(date)), strict, xldate) == Parsed(date)
  {
    assert Pow10(4) == 10000 && Pow10(2) == 100;
    IsoDate(PadDigits(date.year, 4), PadDigits(date.month, 2), PadDigits(date.day, 2), strict, xldate);
  }

  /** Every date written as `DD/MM/YYYY` reads back as itself. */
  lemma DayFirstRoundTrip(date: Date, strict: bool, xldate: int -> Result<Date>)
    requires ValidDate(date)
    ensures StandardizeDate(Str(DayFirstFormat(date)), strict, xldate) == Parsed(date)
  {
    assert Pow10(4) == 10000 && Pow10(2) == 100;
    DayFirstDate(PadDigits(date.day, 2), PadDigits(date.month, 2), PadDigits(date.year, 4), strict, xldate);
  }

  /** A date from 1969 to 2068 written as `DD/MM/YY` reads back as itself;
      outside that window the century is lost. */
  lemma ShortYearRoundTrip(date: Date, strict: bool, xldate: int -> Result<Date>)
    requires ValidDate(date) && 1969 <= date.year <= 2068
    ensures StandardizeDate(Str(ShortYearFormat(date)), strict, xldate) == Parsed(date)
  {
    assert Pow10(2) == 100;
    DayFirstShortYear(PadDigits(date.day, 2), PadDigits(date.month, 2), PadDigits(date.year % 100, 2), strict, xldate);
    PivotYearOfWindow(date.year);
  }

  // ---------------------------------------------------------------------
  // Serial day numbers and failures

  /** `str(n)`: digits after an optional minus sign. */
  lemma IntToStringShape(n: int)
    ensures var s := IntToString(n);
      && |s| >= 1 && (IsDigit(s[0]) || s[0] == '-')
      && forall i :: 1 <= i < |s| ==> IsDigit(s[i])
  {
    if n < 0 {
      var s := IntToString(n);
      assert forall i :: 1 <= i < |s| ==> s[i] == NatToString(-n)[i - 1];
    }
  }

  /** An integer written out matches none of the date patterns, so it is
      handed to the spreadsheet-date conversion. */
  lemma SerialNumber(n: int, strict: bool, xldate: int -> Result<Date>)
    ensures var r := StandardizeDate(Str(IntToString(n)), strict, xldate);
      && (xldate(n).Ok? ==> r == Parsed(xldate(n).value))
      && (xldate(n) == Err(ValueError) ==> r == GiveUp(IntToString(n), strict))
      && (xldate(n).Err? && xldate(n).error != ValueError ==> r == Raised(xldate(n).error))
  {
    var t := IntToString(n);
    IntToStringNoPattern(n);
    WordRead(t, strict, xldate);
    PyIntOfIntToString(n);
    SerialRead(t, n, strict, xldate);
  }

  /** An integer written out is one word that neither date pattern matches. */
  lemma IntToStringNoPattern(n: int)
    ensures var t := IntToString(n);
      IsWord(t) && IsoFields(t) == None && SlashFields(t) == None
  {
    var t := IntToString(n);
    IntToStringShape(n);
    assert IsWord(t);
    assert IsoFields(t) == None by {
      if |t| == 10 {
        assert IsDigit(t[4]);
      }
    }
    assert SlashFields(t) == None;
  }

  lemma SerialRead(t: string, n: int, strict: bool, xldate: int -> Result<Date>)
    requires DropFinalNewline(t) == t
    requires IsoFields(t) == None && SlashFields(t) == None
    ensures ReadWord(t, strict, xldate) == SerialDate(t, strict, xldate)
  {
    assert PatternDate(t) == None;
  }

  /** A word is read whole. */
  lemma WordRead(w: string, strict: bool, xldate: int -> Result<Date>)
    requires IsWord(w)
    ensures StandardizeDate(Str(w), strict, xldate) == ReadWord(w, strict, xldate)
    ensures DropFinalNewline(w) == w
  {
    WordDatePart(w);
  }

  /** A word that is neither a date nor an integer is irrecognizable: NaT,
      or IrrecognizableValue in strict mode. */
  lemma Unrecognized(s: string, strict: bool, xldate: int -> Result<Date>)
    requires IsoFields(DropFinalNewline(DatePart(s))) == None
    requires SlashFields(DropFinalNewline(DatePart(s))) == None
      || |SlashFields(DropFinalNewline(DatePart(s))).value.2| !in {2, 4}
    requires PyInt(DatePart(s)) == None
    ensures StandardizeDate(Str(s), strict, xldate)
      == if strict then Raised(IrrecognizableValue(DatePart(s))) else NaT
  {
  }

  /** Strict mode only turns NaT into IrrecognizableValue. */
  lemma DateStrictOnlyRaises(s: string, xldate: int -> Result<Date>)
    ensures var lax, strict := StandardizeDate(Str(s), false, xldate), StandardizeDate(Str(s), true, xldate);
      && (lax.NaT? ==> strict == Raised(IrrecognizableValue(DatePart(s))))
      && (!lax.NaT? ==> strict == lax)
  {
    ReadWordStrict(DatePart(s), xldate);
  }

  lemma ReadWordStrict(t: string, xldate: int -> Result<Date>)
    ensures var lax, strict := ReadWord(t, false, xldate), ReadWord(t, true, xldate);
      && (lax.NaT? ==> strict == Raised(IrrecognizableValue(t)))
      && (!lax.NaT? ==> strict == lax)
  {
    if PatternDate(DropFinalNewline(t)).None? {
      SerialDateStrict(t, xldate);
    }
  }

  lemma SerialDateStrict(t: string, xldate: int -> Result<Date>)
    ensures var lax, strict := SerialDate(t, false, xldate), SerialDate(t, true, xldate);
      && (lax.NaT? ==> strict == Raised(IrrecognizableValue(t)))
      && (!lax.NaT? ==> strict == lax)
  {
  }
}
