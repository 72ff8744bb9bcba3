/** The rows of the repository's own test table, read through the general
    lemmas: each input gives what the tests expect of it. */
module Cases {
  import opened Base
  import opened Text
  import opened Calendar
  import opened Money
  import opened Dates
  import opened Cpf
  import opened FileDate

  // ---------------------------------------------------------------------
  // standardize_values

  lemma Money12Comma34(t: string, strict: bool)
    requires t == "12,34"
    ensures StandardizeValues(Str(t), strict) == Amount(1234)
  {
    var a, f := NatToString(12), NatToString(34);
    assert a == "12" && f == "34";
    assert t == a + [','] + f;
    ShortDecimalAmount(a, ',', f, strict);
  }

  lemma Money12Dot34(t: string, strict: bool)
    requires t == "12.34"
    ensures StandardizeValues(Str(t), strict) == Amount(1234)
  {
    var a, f := NatToString(12), NatToString(34);
    assert a == "12" && f == "34";
    assert t == a + ['.'] + f;
    ShortDecimalAmount(a, '.', f, strict);
  }

  lemma Money1Dot234(t: string, strict: bool)
    requires t == "1.234"
    ensures StandardizeValues(Str(t), strict) == Amount(123400)
  {
    var gs := ["234"];
    assert AreGroups(gs);
    assert t == "1" + JoinGroups(gs, '.');
    GroupedIntegerAmount("1", gs, '.', strict);
    OneThousand234("1", gs);
  }

  lemma Money1Dot234Comma56(t: string, strict: bool)
    requires t == "1.234,56"
    ensures StandardizeValues(Str(t), strict) == Amount(123456)
  {
    var gs := ["234"];
    assert AreGroups(gs);
    var f := NatToString(56);
    assert f == "56";
    assert t == "1" + JoinGroups(gs, '.') + [','] + f;
    GroupedDecimalAmount("1", gs, '.', ',', f, strict);
    OneThousand234("1", gs);
  }

  lemma MoneyLongDecimal(t: string, strict: bool)
    requires t == "1234.5699999"
    ensures StandardizeValues(Str(t), strict) == Amount(123457)
  {
    var a, f := "1234", "5699999";
    assert AllDigits(a) && AllDigits(f);
    assert t == a + ['.'] + f;
    LongDecimalAmount(a, '.', f, strict);
    LongDecimalCents(a, f);
  }

  lemma MoneyCurrency(t: string, strict: bool)
    requires t == "R$ 1,23"
    ensures StandardizeValues(Str(t), strict) == Amount(123)
  {
    var a, f := NatToString(1), NatToString(23);
    assert a == "1" && f == "23";
    var n := a + [','] + f;
    assert n == "1,23";
    assert t == "R$" + " " + n;
    ShortDecimalAmount(a, ',', f, strict);
    SymbolAndSpace("R$", " ", n, strict);
  }

  lemma MoneyCurrencyNoSpace(t: string, strict: bool)
    requires t == "R$1"
    ensures StandardizeValues(Str(t), strict) == Amount(100)
  {
    SymbolLayout(t);
    CurrencySymbolIgnored("R$", "", "1", strict);
    IntegerAmount(1, strict);
  }

  lemma MoneyThreeDecimals(t: string, strict: bool)
    requires t == "1234.456"
    ensures StandardizeValues(Str(t), strict) == if strict then MoneyOutcome.Raised(IrrecognizableValue(t)) else NaN
  {
    assert t == "1234" + ['.'] + "456";
    ThreeDecimalsRejected("1234", '.', "456", strict);
  }

  lemma MoneyRepeatedSeparator(t: string, strict: bool)
    requires t == "1.234.56"
    ensures StandardizeValues(Str(t), strict) == if strict then MoneyOutcome.Raised(IrrecognizableValue(t)) else NaN
  {
    var gs := ["234"];
    assert AreGroups(gs);
    assert t == "1" + JoinGroups(gs, '.') + ['.'] + "56";
    SameSeparatorRejected("1", gs, '.', "56", strict);
  }

  lemma MoneyTrailingSeparator(t: string, strict: bool)
    requires t == "1.234."
    ensures StandardizeValues(Str(t), strict) == if strict then MoneyOutcome.Raised(IrrecognizableValue(t)) else NaN
  {
    assert forall i :: 0 <= i < |t| ==> IsNumeralChar(t[i]);
    CleanNumeral(t);
    NoFinalDigitRejected(t, strict);
  }

  lemma MoneyGroupedThreeDecimals(t: string, strict: bool)
    requires t == "1.234,456"
    ensures StandardizeValues(Str(t), strict) == if strict then MoneyOutcome.Raised(IrrecognizableValue(t)) else NaN
  {
    var gs := ["234"];
    assert AreGroups(gs);
    assert t == "1" + JoinGroups(gs, '.') + [','] + "456";
    GroupedThreeDecimalsRejected("1", gs, '.', ',', "456", strict);
  }

  lemma MoneyShortGroup(t: string, strict: bool)
    requires t == "1.23,45"
    ensures StandardizeValues(Str(t), strict) == if strict then MoneyOutcome.Raised(IrrecognizableValue(t)) else NaN
  {
    var m := ".23";
    assert Groups(m, '.') == None;
    assert t == "1" + m + [','] + "45";
    IrregularGroupsRejected("1", m, '.', ',', "45", strict);
  }

  lemma MoneyLongGroup(t: string, strict: bool)
    requires t == "1,2345.67"
    ensures StandardizeValues(Str(t), strict) == if strict then MoneyOutcome.Raised(IrrecognizableValue(t)) else NaN
  {
    var m := ",2345";
    assert Groups(m[4..], ',') == None;
    assert Groups(m, ',') == None;
    assert t == "1" + m + ['.'] + "67";
    IrregularGroupsRejected("1", m, ',', '.', "67", strict);
  }

  lemma MoneyGroupedComma(t: string, strict: bool)
    requires t == "1,234.56"
    ensures StandardizeValues(Str(t), strict) == Amount(123456)
  {
    var gs := ["234"];
    assert AreGroups(gs);
    var f := NatToString(56);
    assert f == "56";
    assert t == "1" + JoinGroups(gs, ',') + ['.'] + f;
    GroupedDecimalAmount("1", gs, ',', '.', f, strict);
    OneThousand234("1", gs);
  }

  // ---------------------------------------------------------------------
  // standardize_date

  lemma DatePadded(t: string, strict: bool, xldate: int -> Result<Date>)
    requires t == "01/02/2000"
    ensures StandardizeDate(Str(t), strict, xldate) == Parsed(Date(2000, 2, 1))
  {
    PaddedFields("01", "02", "2000");
    SlashLayout(t, "01", "02", "2000");
    DayFirstDate("01", "02", "2000", strict, xldate);
    FirstFebruary2000();
  }

  lemma DateUnpadded(t: string, strict: bool, xldate: int -> Result<Date>)
    requires t == "1/2/2000"
    ensures StandardizeDate(Str(t), strict, xldate) == Parsed(Date(2000, 2, 1))
  {
    UnpaddedFields("1", "2");
    Year2000("2000");
    SlashLayout(t, "1", "2", "2000");
    DayFirstDate("1", "2", "2000", strict, xldate);
    FirstFebruary2000();
  }

  lemma DateShortYear(t: string, strict: bool, xldate: int -> Result<Date>)
    requires t == "01/02/00"
    ensures StandardizeDate(Str(t), strict, xldate) == Parsed(Date(2000, 2, 1))
  {
    PaddedDayMonth("01", "02");
    Pad00();
    SlashLayout(t, "01", "02", "00");
    DayFirstShortYear("01", "02", "00", strict, xldate);
    FirstFebruary2000();
  }

  lemma DateIso(t: string, strict: bool, xldate: int -> Result<Date>)
    requires t == "2000-02-01"
    ensures StandardizeDate(Str(t), strict, xldate) == Parsed(Date(2000, 2, 1))
  {
    PaddedFields("01", "02", "2000");
    IsoLayout(t, "2000", "02", "01");
    IsoDate("2000", "02", "01", strict, xldate);
    FirstFebruary2000();
  }

  lemma DateFiveDigitYear(t: string, strict: bool, xldate: int -> Result<Date>)
    requires t == "01/02/20000"
    ensures StandardizeDate(Str(t), strict, xldate) == if strict then DateOutcome.Raised(IrrecognizableValue(t)) else NaT
  {
    SlashLayout(t, "01", "02", "20000");
    YearLengthRejected("01", "02", "20000", strict, xldate);
  }

  lemma DateEmptyMonth(t: string, strict: bool, xldate: int -> Result<Date>)
    requires t == "01//20"
    ensures StandardizeDate(Str(t), strict, xldate) == if strict then DateOutcome.Raised(IrrecognizableValue(t)) else NaT
  {
    EmptyMonthLayout(t);
    EmptyMonthRejected("01", "20", strict, xldate);
  }

  lemma DateIsoUnpadded(t: string, strict: bool, xldate: int -> Result<Date>)
    requires t == "2000-1-1"
    ensures StandardizeDate(Str(t), strict, xldate) == if strict then DateOutcome.Raised(IrrecognizableValue(t)) else NaT
  {
    IsoLayout(t, "2000", "1", "1");
    IsoUnpaddedRejected("2000", "1", "1", strict, xldate);
  }

  // ---------------------------------------------------------------------
  // standardize_cpf and extract_date

  lemma CpfPunctuated(t: string, strict: bool)
    requires t == "123.456.789-01"
    ensures StandardizeCpf(Str(t), strict) == "12345678901"
  {
    CpfLayout(t, "", "01", "12345678901");
    CpfFormatted("", "123", "456", "789", "01", strict);
  }

  lemma CpfApostrophe(t: string, strict: bool)
    requires t == "'123.456.789-10"
    ensures StandardizeCpf(Str(t), strict) == "12345678910"
  {
    CpfLayout(t, "'", "10", "12345678910");
    CpfFormatted("'", "123", "456", "789", "10", strict);
  }

  lemma CpfBare(t: string, strict: bool)
    requires t == "12345678901"
    ensures StandardizeCpf(Str(t), strict) == t
  {
    assert AllDigits(t);
    CpfDigitsKept(t, strict);
  }

  lemma CpfShort(t: string, strict: bool)
    requires t == "000000123-45"
    ensures StandardizeCpf(Str(t), strict) == "00000012345"
  {
    ShortLayout(t);
    UnpunctuatedThen("000000123", '-', "45");
    UnpunctuatedDigits("000000123");
    StripPunctuationIsFilter(t);
    CpfNotTruncated(t, strict);
  }

  lemma FileBradesco(t: string)
    requires t == "Bradesco_01.02.2000.csv"
    ensures ExtractDate(Str(t)) == Ok(Date(2000, 2, 1))
  {
    assert '_' !in "Bradesco" && t == "Bradesco" + "_" + "01.02.2000" + ".csv" + "";
    FileOfFirstFebruary(t, "Bradesco");
  }

  lemma FileC6(t: string)
    requires t == "c6_01.02.2000.csv"
    ensures ExtractDate(Str(t)) == Ok(Date(2000, 2, 1))
  {
    assert '_' !in "c6" && t == "c6" + "_" + "01.02.2000" + ".csv" + "";
    FileOfFirstFebruary(t, "c6");
  }

  lemma FileOfFirstFebruary(t: string, name: string)
    requires '_' !in name && t == name + "_" + "01.02.2000" + ".csv" + ""
    ensures ExtractDate(Str(t)) == Ok(Date(2000, 2, 1))
  {
    FirstFebruary2000();
    TagOfFirstFebruary(TagText(Date(2000, 2, 1)));
    FileNameRoundTrip(name, Date(2000, 2, 1), "");
  }

  lemma FileNoUnderscore(t: string)
    requires t == "Bradesco01.02.2000.csv"
    ensures ExtractDate(Str(t)) == Err(AssertionError("Expected not None"))
  {
    assert forall i :: 0 <= i < |t| ==> t[i] != '_';
    NoUnderscoreNoTag(t);
  }

  lemma FileUnderscores(t: string)
    requires t == "c6_01_02_2000.csv"
    ensures ExtractDate(Str(t)) == Err(AssertionError("Expected not None"))
  {
    assert FindTag(t, 0) == None;
  }

  // ---------------------------------------------------------------------
  // Proof scaffolding: literal and arithmetic facts about the rows' text
  // (digit values, padding, how the literals split into fields). They state
  // nothing about the model; they keep the proofs above small and stable.

  lemma OneThousand234(h: string, gs: seq<string>)
    requires h == "1" && gs == ["234"]
    ensures AllDigits(h) && AreGroups(gs) && GroupedValue(h, gs) == 1234
  {
    assert Flatten(gs) == gs[0] + Flatten(gs[1..]);
    assert gs[1..] == [];
    Pad1234();
    assert h + Flatten(gs) == PadDigits(1234, 4);
  }

  lemma Pad1234()
    ensures Pow10(4) == 10000 && PadDigits(1234, 4) == "1234"
  {
  }

  lemma Pad56()
    ensures Pow10(2) == 100 && PadDigits(56, 2) == "56"
  {
  }

  lemma LongDecimalCents(a: string, f: string)
    requires a == "1234" && f == "5699999"
    ensures AllDigits(a) && AllDigits(f) && RoundToCents(a, f) == 123457
  {
    Pad1234();
    Pad56();
    assert a == PadDigits(1234, 4);
    assert f[..2] == PadDigits(56, 2);
    assert f[2] == '9';
  }

  lemma SymbolLayout(t: string)
    requires t == "R$1"
    ensures Upper("R$") == "R$" && AllSpace("") && IntToString(1) == "1"
    ensures forall i :: 0 <= i < |"1"| ==> IsNumeralChar("1"[i])
    ensures t == "R$" + "" + "1"
  {
  }

  lemma SymbolAndSpace(p: string, w: string, n: string, strict: bool)
    requires p == "R$" && w == " " && n == "1,23"
    ensures StandardizeValues(Str(p + w + n), strict) == StandardizeValues(Str(n), strict)
  {
    assert Upper(p) == "R$";
    assert AllSpace(w);
    assert forall i :: 0 <= i < |n| ==> IsNumeralChar(n[i]);
    CurrencySymbolIgnored(p, w, n, strict);
  }

  lemma PaddedFields(d: string, m: string, y: string)
    requires d == "01" && m == "02" && y == "2000"
    ensures AllDigits(d) && AllDigits(m) && AllDigits(y)
    ensures DigitsValue(d) == 1 && DigitsValue(m) == 2 && DigitsValue(y) == 2000
  {
    PaddedDayMonth(d, m);
    Year2000(y);
  }

  lemma PaddedDayMonth(d: string, m: string)
    requires d == "01" && m == "02"
    ensures AllDigits(d) && AllDigits(m) && DigitsValue(d) == 1 && DigitsValue(m) == 2
  {
    Pad01();
    Pad02();
  }

  lemma Year2000(y: string)
    requires y == "2000"
    ensures AllDigits(y) && DigitsValue(y) == 2000
  {
    Pad2000();
  }

  lemma Pad00()
    ensures Pow10(2) == 100 && PadDigits(0, 2) == "00"
  {
  }

  lemma Pad01()
    ensures Pow10(2) == 100 && PadDigits(1, 2) == "01"
  {
  }

  lemma Pad02()
    ensures Pow10(2) == 100 && PadDigits(2, 2) == "02"
  {
  }

  lemma Pad2000()
    ensures Pow10(4) == 10000 && PadDigits(2000, 4) == "2000"
  {
  }

  /** The date every date row of the tests expects. */
  lemma FirstFebruary2000()
    ensures ValidDate(Date(2000, 2, 1))
    ensures PivotYear(0) == 2000
    ensures Strptime(2000, 2, 1) == Parsed(Date(2000, 2, 1))
  {
  }

  lemma UnpaddedFields(d: string, m: string)
    requires d == "1" && m == "2"
    ensures AllDigits(d) && AllDigits(m) && DigitsValue(d) == 1 && DigitsValue(m) == 2
  {
  }

  /** The digit fields of the date rows, and how they are joined. */
  lemma SlashLayout(t: string, d: string, m: string, y: string)
    requires (t, d, m, y) in {
      ("01/02/2000", "01", "02", "2000"), ("1/2/2000", "1", "2", "2000"),
      ("01/02/00", "01", "02", "00"), ("01/02/20000", "01", "02", "20000")}
    ensures AllDigits(d) && AllDigits(m) && AllDigits(y)
    ensures t == d + "/" + m + "/" + y
  {
  }

  lemma IsoLayout(t: string, y: string, m: string, d: string)
    requires (t, y, m, d) in {("2000-02-01", "2000", "02", "01"), ("2000-1-1", "2000", "1", "1")}
    ensures AllDigits(y) && AllDigits(m) && AllDigits(d)
    ensures t == y + "-" + m + "-" + d
  {
  }

  lemma EmptyMonthLayout(t: string)
    requires t == "01//20"
    ensures AllDigits("01") && AllDigits("20")
    ensures t == "01" + "//" + "20"
  {
  }

  /** The pieces of the test rows' CPF `123.456.789-dd`. */
  lemma CpfLayout(t: string, q: string, d: string, r: string)
    requires q == "" || q == "'"
    requires d == "01" || d == "10"
    requires t == q + "123.456.789-" + d && r == "123456789" + d
    ensures AllDigits("123") && AllDigits("456") && AllDigits("789") && AllDigits(d)
    ensures t == q + "123" + "." + "456" + "." + "789" + "-" + d
    ensures r == "123" + "456" + "789" + d
  {
    CpfPrefix();
    CpfDigits();
  }

  lemma CpfPrefix()
    ensures "123.456.789-" == "123" + "." + "456" + "." + "789" + "-"
  {
  }

  lemma CpfDigits()
    ensures "123456789" == "123" + "456" + "789"
  {
  }

  lemma ShortLayout(t: string)
    requires t == "000000123-45"
    ensures AllDigits("000000123") && AllDigits("45")
    ensures t == "000000123" + ['-'] + "45"
    ensures "000000123" + "45" == "00000012345"
  {
  }

  lemma TagOfFirstFebruary(g: string)
    requires g == TagText(Date(2000, 2, 1))
    ensures g == "01.02.2000"
  {
    Pad01();
    Pad02();
    Pad2000();
  }
}
