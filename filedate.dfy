/** `extract_date` and `_assert_not_none`: the date a statement's file name
    carries in a `_dd.mm.yyyy.csv` tag. */
module FileDate {
  import opened Base
  import opened Text
  import opened Calendar

  /** `_assert_not_none(x)`: the value itself, or AssertionError with the
      message "Expected not None". */
  function AssertNotNone<T>(x: Option<T>): (r: Result<T>)
    ensures r.Ok? <==> x.Some?
    ensures r.Ok? ==> r.value == x.value
    ensures r.Err? ==> r.error == AssertionError("Expected not None")
  {
    match x
    case Some(v) => Ok(v)
    case None => Err(AssertionError("Expected not None"))
  }

  /** The pattern `_(\d\d\.\d\d\.\d\d\d\d)\.csv` matches at `i`: an
      underscore, two digits, a dot, two digits, a dot, four digits, `.csv`. */
  predicate IsTagAt(s: string, i: nat)
  {
    && i + 15 <= |s|
    && s[i] == '_'
    && AllDigits(s[i + 1..i + 3]) && s[i + 3] == '.'
    && AllDigits(s[i + 4..i + 6]) && s[i + 6] == '.'
    && AllDigits(s[i + 7..i + 11])
    && s[i + 11..i + 15] == ".csv"
  }

  /** `re.search`: the leftmost position, from `from` on, where the pattern matches. */
  function FindTag(s: string, from: nat): (r: Option<nat>)
    ensures r.Some? ==> from <= r.value && IsTagAt(s, r.value)
    ensures r.Some? ==> forall j :: from <= j < r.value ==> !IsTagAt(s, j)
    ensures r.None? ==> forall j :: from <= j ==> !IsTagAt(s, j)
    decreases |s| - from
  {
    if from + 15 > |s| then None
    else if IsTagAt(s, from) then Some(from)
    else FindTag(s, from + 1)
  }

  /** `datetime.strptime(g, "%d.%m.%Y")` on the ten characters the pattern
      captured: the date, or ValueError when it does not exist. */
  function TagDate(g: string): (r: Result<Date>)
    requires |g| == 10 && AllDigits(g[0..2]) && AllDigits(g[3..5]) && AllDigits(g[6..10])
    ensures r.Ok? <==> ValidDate(Date(DigitsValue(g[6..10]), DigitsValue(g[3..5]), DigitsValue(g[0..2])))
    ensures r.Ok? ==> r.value == Date(DigitsValue(g[6..10]), DigitsValue(g[3..5]), DigitsValue(g[0..2]))
    ensures r.Err? ==> r.error == ValueError
  {
    match MakeDate(DigitsValue(g[6..10]), DigitsValue(g[3..5]), DigitsValue(g[0..2]))
    case Some(d) => Ok(d)
    case None => Err(ValueError)
  }

  /** The date the tag at `i` names: day, month and year read from their
      places in the name. */
  function TagAt(s: string, i: nat): (r: Result<Date>)
    requires IsTagAt(s, i)
    ensures var date := Date(DigitsValue(s[i + 7..i + 11]), DigitsValue(s[i + 4..i + 6]), DigitsValue(s[i + 1..i + 3]));
      && (r.Ok? <==> ValidDate(date))
      && (r.Ok? ==> r.value == date)
      && (r.Err? ==> r.error == ValueError)
  {
    var g := s[i + 1..i + 11];
    assert g[0..2] == s[i + 1..i + 3];
    assert g[3..5] == s[i + 4..i + 6] by {
      assert g[3] == s[i + 4] && g[4] == s[i + 5];
    }
    assert g[6..10] == s[i + 7..i + 11];
    TagDate(g)
  }

  /** `extract_date(string)`. A non-string raises TypeError; a string
      without a tag raises AssertionError from `_assert_not_none`; the
      leftmost tag is read, and a date that does not exist raises
      ValueError. There is no lenient mode. */
  function ExtractDate(cell: Cell): (r: Result<Date>)
    ensures cell.NotStr? ==> r == Err(TypeError("String expected as input"))
    ensures cell.Str? ==> (r == Err(AssertionError("Expected not None")) <==> FindTag(cell.s, 0).None?)
    ensures cell.Str? && r.Ok? ==> ValidDate(r.value)
  {
    match cell
    case NotStr => Err(TypeError("String expected as input"))
    case Str(s) =>
      match AssertNotNone(FindTag(s, 0))
      case Err(e) => Err(e)
      case Ok(i) => TagAt(s, i)
  }

  // ---------------------------------------------------------------------
  // Properties

  /** The leftmost tag is the one read, whatever follows it. */
  lemma LeftmostTagRead(s: string, i: nat)
    requires IsTagAt(s, i) && forall j :: 0 <= j < i ==> !IsTagAt(s, j)
    ensures ExtractDate(Str(s)) == TagAt(s, i)
  {
  }

  /** A file name without an underscore has no tag. */
  lemma NoUnderscoreNoTag(s: string)
    requires '_' !in s
    ensures ExtractDate(Str(s)) == Err(AssertionError("Expected not None"))
  {
    forall j: nat | j < |s|
      ensures !IsTagAt(s, j)
    {
      assert s[j] in s;
    }
  }

  /** `date.strftime("%d.%m.%Y")`. */
  function TagText(date: Date): (g: string)
    requires ValidDate(date)
    ensures |g| == 10
  {
    assert Pow10(4) == 10000 && Pow10(2) == 100;
    PadDigits(date.day, 2) + "." + PadDigits(date.month, 2) + "." + PadDigits(date.year, 4)
  }

  /** A file name `<name>_<dd.mm.yyyy>.csv<rest>` whose name has no
      underscore yields the date it was written with. */
  lemma FileNameRoundTrip(name: string, date: Date, rest: string)
    requires '_' !in name && ValidDate(date)
    ensures ExtractDate(Str(name + "_" + TagText(date) + ".csv" + rest)) == Ok(date)
  {
    var g := TagText(date);
    var s := name + "_" + g + ".csv" + rest;
    var i := |name|;
    assert Pow10(4) == 10000 && Pow10(2) == 100;
    TagTextFields(date);
    assert s[i + 1..i + 11] == g;
    assert s[i] == '_';
    assert s[i + 11..i + 15] == ".csv";
    assert s[i + 1..i + 3] == g[0..2] && s[i + 4..i + 6] == g[3..5] && s[i + 7..i + 11] == g[6..10];
    assert s[i + 3] == g[2] && s[i + 6] == g[5];
    forall j: nat | j < i
      ensures !IsTagAt(s, j)
    {
      assert s[j] == name[j];
      assert name[j] in name;
    }
    LeftmostTagRead(s, i);
  }

  /** The fields of a written tag. */
  lemma TagTextFields(date: Date)
    requires ValidDate(date)
    ensures var g := TagText(date);
      && g[2] == '.' && g[5] == '.'
      && AllDigits(g[0..2]) && AllDigits(g[3..5]) && AllDigits(g[6..10])
      && DigitsValue(g[0..2]) == date.day
      && DigitsValue(g[3..5]) == date.month
      && DigitsValue(g[6..10]) == date.year
  {
    assert Pow10(4) == 10000 && Pow10(2) == 100;
    var g := TagText(date);
    assert g[0..2] == PadDigits(date.day, 2);
    assert g[3..5] == PadDigits(date.month, 2);
    assert g[6..10] == PadDigits(date.year, 4);
  }
}
