# df-utils parsers in Dafny

This project models the four cell parsers of `dfutils/api.py` and the small
helper they share:

- `standardize_values`, the money reader. It upper-cases the text, removes `R$` and
  strips whitespace. It then tries six formats in order: `int()`,
  one or two decimals, thousands groups, `.` groups with a `,` decimal point, `,` groups with a
  `.` decimal point, and four or more decimals rounded to cents.
- `standardize_date`, the date reader. It keeps the first word of the stripped text and
  tries `YYYY-MM-DD`, `D/M/YYYY` and `D/M/YY`. Then it falls back to a spreadsheet
  serial day number.
- `standardize_cpf`, which normalises a Brazilian taxpayer number. It removes `'`, `.`
  and `-`, then applies `zfill(11)`.
- `extract_date`, which reads the `_dd.mm.yyyy.csv` tag of a statement's file name.
- `_assert_not_none`.

The code is pure, so the model is made of datatypes, functions and lemmas.

- A cell is `Str(s)` or `NotStr`.
- Exceptions become values: `Raised(error)` in the parsers' outcome types, and
  `Err(error)` in `Result`.
- Amounts are whole cents. Every format yields at most two decimals, so no
  precision is lost.
- Each regular expression is a function that cuts the text into its fields,
  with a lemma that reads every well-formed string back.
- `int()` reads an optional sign and digits with single underscores between
  them, between whitespace it skips. That whitespace is Python's whitespace
  set without the four information separators U+001C to U+001F: `int()`
  refuses those, although `str.strip()` removes them. The number of digits
  is not limited (see "Left out").
- `str.strip()` uses Python's whitespace set.
- `xlrd.xldate_as_datetime(n, 0)` is a parameter `xldate: int -> Result<Date>`.

Files:

- `base.dfy`: cells, errors, Option and Result.
- `text.dfy`: digits, `strip`, `upper`, `replace`, `split`, `zfill` and `int()`.
- `calendar.dfy`: Gregorian dates and the `%y` window.
- `money.dfy`, `dates.dfy`, `cpf.dfy` and `filedate.dfy`: the parsers.
- `cases.dfy`: rows of the repository's own test table, derived from the
  general lemmas.

Details of the code's behaviour:

- The strict-mode exception carries the cleaned text, not the raw input. For money
  that is the upper-cased text with `R$` removed and stripped. For dates it is the first word.
- `R$` is removed wherever it occurs, not only in front.
- Only a ValueError from the serial-date conversion moves on. Any other
  exception it raises propagates, even in lenient mode.
- In `standardize_date`, only "no match" (AssertionError) moves on to the next
  format. A pattern that matches a date that does not exist (`31/02/2000`)
  raises ValueError in both modes.
- `extract_date` reads the leftmost tag anywhere in the name. The tag need not
  be unique or at the end.
- In `standardize_cpf`, the inner `isinstance` check always passes. So its
  AssertionError handler, and with it `strict`, never has an effect.

## Model

| member | source | states |
|---|---|---|
| FileDate.AssertNotNone | dfutils/api.py:16-21 | a present value is returned as it is; None gives AssertionError("Expected not None") |
| FileDate.FindTag | dfutils/api.py:52 | the result is a position where `_dd.dd.dddd.csv` matches, and no earlier position matches; None means no position matches |
| FileDate.TagAt | dfutils/api.py:51-54 | the tag at `i` gives the date of its day, month and year fields exactly when that date exists, else ValueError |
| FileDate.TagDate | dfutils/api.py:51-54 | `strptime("%d.%m.%Y")` on the captured digits gives the date exactly when it exists, else ValueError |
| FileDate.ExtractDate | dfutils/api.py:45-54 | a non-string raises TypeError("String expected as input"); a string raises AssertionError exactly when it has no tag; a returned date exists |
| FileDate.LeftmostTagRead | dfutils/api.py:52 | the leftmost tag is the one read, whatever follows it |
| FileDate.NoUnderscoreNoTag | dfutils/api.py:52 | a name without `_` raises AssertionError("Expected not None") |
| FileDate.FileNameRoundTrip | dfutils/api.py:45-54 | `<name>_<dd.mm.yyyy>.csv<rest>`, with no `_` in the name, gives back the date written |
| Cpf.StripPunctuation | dfutils/api.py:65-67 | a character is in the result iff it is in the input and is not `'`, `.` or `-` |
| Cpf.StandardizeCpf | dfutils/api.py:57-73 | a non-string gives "" in both modes; a string gives length max(11, remaining characters), and its contents are the sign of the remaining text, then zeros, then the rest of that text |
| Cpf.Unpunctuated | dfutils/api.py:65-67 | the filter keeps a character iff it is in the input and is not punctuation |
| Cpf.Without | dfutils/api.py:65-67 | removing one character keeps exactly the other characters of the input |
| Cpf.StripPunctuationIsFilter | dfutils/api.py:65-67 | the three replacements equal an order-keeping filter that drops exactly the punctuation |
| Cpf.UnpunctuatedAppend | dfutils/api.py:65-67 | the removal works piece by piece on a concatenation |
| Cpf.StripPunctuationUnchanged | dfutils/api.py:65-67 | text without punctuation is unchanged by the removal |
| Cpf.CpfIdempotent | dfutils/api.py:57-73 | standardizing a standardized CPF changes nothing |
| Cpf.CpfNotTruncated | dfutils/api.py:68 | eleven or more remaining characters are kept whole, never cut |
| Cpf.CpfPadsDigits | dfutils/api.py:68 | fewer than eleven digits get zeros in front, and the number they denote is kept |
| Cpf.ZFillDigits | dfutils/api.py:68 | `zfill` on digits puts zeros in front and keeps their value |
| Cpf.CpfKeepsPlusFirst | dfutils/api.py:68 | a leading `+` stays in front of the padding |
| Cpf.CpfFormatted | dfutils/api.py:57-68 | `ddd.ddd.ddd-dd`, with or without a leading `'`, becomes its eleven digits |
| Cpf.CpfDigitsKept | dfutils/api.py:57-68 | eleven or more bare digits come back unchanged |
| Text.Strip | dfutils/api.py:124 | `strip()` gives the slice of the input between leading and trailing whitespace, and that slice neither starts nor ends with whitespace |
| Text.TrimStart | dfutils/api.py:124 | the suffix left after the leading whitespace, which starts with no whitespace |
| Text.TrimEnd | dfutils/api.py:124 | the prefix left before the trailing whitespace, which ends with no whitespace |
| Text.StripKeepsChars | dfutils/api.py:124 | `strip()` keeps only characters of its input |
| Text.StripAround | dfutils/api.py:82 | whitespace on both sides of a word is removed and the word kept |
| Text.StripUnchanged | dfutils/api.py:124 | text that neither starts nor ends with whitespace is unchanged by `strip()` |
| Text.StripIdempotent | dfutils/api.py:82 | stripping twice is stripping once |
| Text.StripAfterSpaces | dfutils/api.py:124 | leading whitespace before a word is removed and the word kept |
| Text.Upper | dfutils/api.py:124 | `upper()` keeps the length and maps each character |
| Text.UpperAppend | dfutils/api.py:124 | `upper()` works piece by piece |
| Text.RemoveAll | dfutils/api.py:65-67 | `replace(p, "")` keeps only characters of the input; for one character, exactly the others |
| Text.RemoveAllAbsent | dfutils/api.py:124 | removing a pattern that occurs nowhere in the text changes nothing |
| Text.FirstCharAbsent | dfutils/api.py:124 | a pattern whose first character is missing from the text occurs nowhere in it |
| Text.RemoveAllAppend | dfutils/api.py:124 | text in front that lacks the pattern's first character is kept as it is, in order, before the rest is scanned |
| Text.RemoveAllOccurrence | dfutils/api.py:124 | an occurrence at the front is deleted and the scan goes on after it |
| Text.SplitFirst | dfutils/api.py:82 | `split(c)[0]` is the prefix before the first `c` and holds no `c` |
| Text.ZFill | dfutils/api.py:68 | `zfill(w)` has length max(w, \|s\|); the sign stays in front, then zeros, then the rest of `s` |
| Text.ZFillUnsigned | dfutils/api.py:68 | without a sign, `zfill` puts all zeros in front |
| Text.PyIntChars | dfutils/api.py:127 | `int()` accepts only whitespace, digits, signs and underscores |
| Text.PyIntOfDigits | dfutils/api.py:127 | `int()` of a run of digits is their value |
| Text.PyIntOfIntToString | dfutils/api.py:127 | `int(str(n)) == n` for every integer |
| Text.IntLiteralEndsWithDigit | dfutils/api.py:127 | an accepted literal ends with a digit |
| Text.PyInt | dfutils/api.py:127 | `int()`: its contract is given by Text.PyIntChars, Text.PyIntOfDigits, Text.PyIntOfIntToString, Text.PyIntAroundSpaces and Text.InfoSeparatorNotInteger |
| Text.IntLiteral | dfutils/api.py:127 | the literal between the skipped whitespace: its contract is given by Text.IntLiteralEndsWithDigit and the lemmas on Text.PyInt |
| Text.PyIntAroundSpaces | dfutils/api.py:127 | `int()` of a literal between whitespace it skips is the literal's value |
| Text.InfoSeparatorNotInteger | dfutils/api.py:127 | text holding an information separator (U+001C to U+001F) is refused by `int()` |
| Text.DropFinalNewline | dfutils/api.py:84-106 | the text a pattern ending in `$` is matched against: the input, or the input without one final newline, and the latter exactly when the input ends with a newline |
| Calendar.MakeDate | dfutils/api.py:51-54 | gives a date exactly when it exists (years 1-9999, real month and day); otherwise None, where `datetime` raises ValueError |
| Calendar.PivotYear | dfutils/api.py:100-104 | `%y` gives a year in 1969-2068 that ends in the two digits read |
| Calendar.PivotYearOfWindow | dfutils/api.py:100-104 | every year from 1969 to 2068 is the `%y` reading of its last two digits |
| Money.Clean | dfutils/api.py:124 | the cleaned text is the slice of the upper-cased text with every `R$` removed that lies between a leading and a trailing run of whitespace; it neither starts nor ends with whitespace, is no longer than the input and has no lower-case ASCII letter |
| Money.MatchAmount | dfutils/api.py:126-179 | text that `int()` reads is that many units; any other rule yields a non-negative amount |
| Money.ShortDecimal | dfutils/api.py:131-139 | a rule-2 amount is non-negative, and the text ends in a separator and one or two decimals |
| Money.GroupedWith | dfutils/api.py:141-149 | groups after one separator give a non-negative whole number of units |
| Money.GroupedInteger | dfutils/api.py:141-149 | a rule-3 amount is a non-negative whole number of units (decimal part "00") |
| Money.GroupedDecimal | dfutils/api.py:151-169 | a rule-4 or rule-5 amount is non-negative, and the text ends in the decimal point `d` and one or two decimals |
| Money.LongDecimal | dfutils/api.py:171-179 | a rule-6 amount is non-negative, and the text ends in a separator and four or more decimals |
| Money.RoundToCents | dfutils/api.py:179 | the rounded cents lie between `a.00` and `a+1.00` |
| Money.StandardizeValues | dfutils/api.py:119-184 | a non-string is NaN even in strict mode; an exception is raised only in strict mode, as IrrecognizableValue of the cleaned text; NaN only in lax mode |
| Money.StrictOnlyRaises | dfutils/api.py:181-184 | strict mode raises exactly where lax mode gives NaN, and agrees on every amount |
| Money.Unmatched | dfutils/api.py:181-184 | cleaned text no format reads gives NaN, or IrrecognizableValue in strict mode |
| Money.SplitFraction | dfutils/api.py:131-139 | the text is the head, a non-digit and a non-empty run of final digits |
| Money.SplitFractionOf | dfutils/api.py:131-139 | every `a sep f` is cut back into `a`, `sep` and `f` |
| Money.Groups | dfutils/api.py:141-149 | groups read are three digits each and spell the text back |
| Money.GroupsOf | dfutils/api.py:141-149 | written groups are read back as they were |
| Money.GroupedInt | dfutils/api.py:151-169 | a head of one to three digits and groups that spell the text back |
| Money.GroupedIntOf | dfutils/api.py:151-169 | every head-and-groups text is read back into its head and groups |
| Money.GroupedIntOtherSeparator | dfutils/api.py:141-169 | groups after one separator are not read as groups after the other |
| Money.GroupedWithTail | dfutils/api.py:141-149 | a thousands-groups match ends with a separator and three digits |
| Money.FractionCentsValue | dfutils/api.py:137-139 | one or two decimals as cents are `0.f` times a hundred |
| Money.CleanNumeral | dfutils/api.py:124 | cleaning leaves a written numeral unchanged |
| Money.CleanHasNoFinalNewline | dfutils/api.py:124-173 | cleaned text never ends with a newline, so each pattern's `$` is its end |
| Money.CurrencySymbolIgnored | dfutils/api.py:124 | `R$`, in either case, and spaces before a numeral do not change the outcome |
| Money.SeparatorIsNotInteger | dfutils/api.py:126-129 | `int()` refuses any text holding a separator |
| Money.IntegerAmount | dfutils/api.py:126-129 | every whole number written out, negative ones too, is that many units |
| Money.ShortDecimalAmount | dfutils/api.py:131-139 | digits, either separator and one or two decimals are that amount |
| Money.GroupedIntegerAmount | dfutils/api.py:141-149 | one to three digits and thousands groups, all after `.` or all after `,`, are that integer |
| Money.GroupedDecimalAmount | dfutils/api.py:151-169 | groups after one separator, then the other separator and one or two decimals, are that amount |
| Money.SeparatorsInterchangeable | dfutils/api.py:151-169 | `1.234,56` and `1,234.56` (any groups, any decimals) are the same amount |
| Money.SameSeparatorRejected | dfutils/api.py:141-184 | groups and decimals after the same separator match no format |
| Money.HeadNotGroupedRead | dfutils/api.py:126-179 | text whose part before the decimal separator is neither digits alone nor groups after the other separator matches no rule |
| Money.IrregularGroupsRejected | dfutils/api.py:131-184 | a head of one to three digits, then separator text that is not three-digit groups, then the other separator and one or two decimals, is NaN, or raises in strict mode |
| Money.GroupedThreeDecimalsRejected | dfutils/api.py:131-184 | thousands groups, then the other separator and three decimals, are NaN, or raise in strict mode |
| Money.LongDecimalAmount | dfutils/api.py:171-179 | four or more decimals are rounded to cents |
| Money.RoundToCentsNearest | dfutils/api.py:179 | the cents of rule 6 are within half a cent of the exact value `a.f` |
| Money.ThreeDecimalsRejected | dfutils/api.py:131-184 | four or more digits, a separator and three decimals match no format |
| Money.NoFinalDigitNoMatch | dfutils/api.py:126-179 | no format reads stripped text that does not end with a digit |
| Money.NoFinalDigitRejected | dfutils/api.py:124-184 | text whose cleaned form is empty or ends in a non-digit is NaN, or raises in strict mode |
| Dates.IsoFields | dfutils/api.py:86 | a match is four, two and two digits joined by `-` that spell the text back |
| Dates.IsoFieldsOf | dfutils/api.py:86 | every `YYYY-MM-DD` of digits is read back into its fields |
| Dates.SlashFields | dfutils/api.py:94-102 | a match is day and month of one or two digits and a year of digits, joined by `/` |
| Dates.SlashFieldsOf | dfutils/api.py:94-102 | every `D/M/Y` of digits is read back into its fields |
| Dates.DatePart | dfutils/api.py:82 | `strip().split(" ")[0]` is the prefix of the stripped text up to its first space, and holds no space |
| Dates.GiveUp | dfutils/api.py:113-116 | no format read the word: NaT exactly in lax mode, IrrecognizableValue of the word exactly in strict mode |
| Dates.Strptime | dfutils/api.py:85-104 | a date exactly when it exists; otherwise ValueError |
| Dates.SerialDate | dfutils/api.py:108-116 | when `int(t)` reads `n`, a converted date is returned and a conversion error other than ValueError is raised; when `int(t)` refuses `t` or the conversion raises ValueError, the outcome is NaT, or IrrecognizableValue in strict mode |
| Dates.PatternDate | dfutils/api.py:84-106 | once a pattern matches, the outcome is an existing date or ValueError |
| Dates.ReadWord | dfutils/api.py:84-116 | NaT only in lax mode; raises only ValueError, strict IrrecognizableValue of the word, or the conversion's error; dates exist or come from the conversion |
| Dates.StandardizeDate | dfutils/api.py:76-116 | a non-string is NaT in both modes; a string is read through its first word |
| Dates.WordDatePart | dfutils/api.py:82 | a word without whitespace is read as it is |
| Dates.DatePartIgnoresRest | dfutils/api.py:82 | only the first space-separated word is read |
| Dates.SameWordSameDate | dfutils/api.py:82 | the outcome depends on the first word alone |
| Dates.SurroundingSpaceIgnored | dfutils/api.py:82 | whitespace around the text changes nothing |
| Dates.TimeOfDayIgnored | dfutils/api.py:82 | a date followed by a time of day reads as the date alone |
| Dates.IsoDate | dfutils/api.py:84-90 | `YYYY-MM-DD` is read as that year, month and day, or raises ValueError |
| Dates.DayFirstDate | dfutils/api.py:92-98 | `D/M/YYYY` is read day first |
| Dates.DayFirstShortYear | dfutils/api.py:100-106 | `D/M/YY` is read day first, with the year in 1969-2068 |
| Dates.PlainRejected | dfutils/api.py:84-116 | a word that no pattern matches and that is no integer is NaT, or raises in strict mode |
| Dates.YearLengthRejected | dfutils/api.py:92-116 | a day-first date whose year has neither two nor four digits is not a date |
| Dates.EmptyMonthRejected | dfutils/api.py:92-116 | a day-first date without its month is not a date |
| Dates.IsoUnpaddedRejected | dfutils/api.py:84-116 | `YYYY-M-D` with a one-digit month or day is not a date |
| Dates.DashedNotInteger | dfutils/api.py:109 | digits with a dash between them are refused by `int()` |
| Dates.IsoRoundTrip | dfutils/api.py:84-90 | every date written `YYYY-MM-DD` reads back as itself |
| Dates.DayFirstRoundTrip | dfutils/api.py:92-98 | every date written `DD/MM/YYYY` reads back as itself |
| Dates.ShortYearRoundTrip | dfutils/api.py:100-106 | every date from 1969 to 2068 written `DD/MM/YY` reads back as itself |
| Dates.SerialNumber | dfutils/api.py:108-116 | an integer written out is passed to the serial conversion: its date, NaT or IrrecognizableValue on ValueError, any other error propagated |
| Dates.Unrecognized | dfutils/api.py:108-116 | a first word that matches no pattern and is no integer is NaT, or IrrecognizableValue in strict mode |
| Dates.DateStrictOnlyRaises | dfutils/api.py:113-116 | strict mode only turns NaT into IrrecognizableValue of the first word |
| Cases.Money12Comma34 | tests/test_utils.py:14 | `12,34` is 12.34 |
| Cases.Money12Dot34 | tests/test_utils.py:15 | `12.34` is 12.34 |
| Cases.Money1Dot234 | tests/test_utils.py:16 | `1.234` is 1234 |
| Cases.MoneyThreeDecimals | tests/test_utils.py:18 | `1234.456` is NaN, or raises in strict mode |
| Cases.MoneyGroupedThreeDecimals | tests/test_utils.py:22 | `1.234,456` is NaN, or raises in strict mode |
| Cases.Money1Dot234Comma56 | tests/test_utils.py:24 | `1.234,56` is 1234.56 |
| Cases.MoneyLongDecimal | tests/test_utils.py:27 | `1234.5699999` is 1234.57 |
| Cases.MoneyShortGroup | tests/test_utils.py:29 | `1.23,45` is NaN, or raises in strict mode |
| Cases.MoneyGroupedComma | tests/test_utils.py:33 | `1,234.56` is 1234.56 |
| Cases.MoneyLongGroup | tests/test_utils.py:37 | `1,2345.67` is NaN, or raises in strict mode |
| Cases.MoneyRepeatedSeparator | tests/test_utils.py:39 | `1.234.56` is NaN, or raises in strict mode |
| Cases.MoneyTrailingSeparator | tests/test_utils.py:41 | `1.234.` is NaN, or raises in strict mode |
| Cases.MoneyCurrencyNoSpace | tests/test_utils.py:43 | `R$1` is 1.0 |
| Cases.MoneyCurrency | tests/test_utils.py:44 | `R$ 1,23` is 1.23 |
| Cases.DatePadded | tests/test_utils.py:58 | `01/02/2000` is 1 February 2000 |
| Cases.DateUnpadded | tests/test_utils.py:61 | `1/2/2000` is 1 February 2000 |
| Cases.DateShortYear | tests/test_utils.py:62 | `01/02/00` is 1 February 2000 |
| Cases.DateIso | tests/test_utils.py:63 | `2000-02-01` is 1 February 2000 |
| Cases.DateIsoUnpadded | tests/test_utils.py:64 | `2000-1-1` is NaT, or raises in strict mode |
| Cases.DateFiveDigitYear | tests/test_utils.py:65 | `01/02/20000` is NaT, or raises in strict mode |
| Cases.DateEmptyMonth | tests/test_utils.py:66 | `01//20` is NaT, or raises in strict mode |
| Cases.CpfApostrophe | tests/test_utils.py:79 | `'123.456.789-10` is `12345678910` |
| Cases.CpfPunctuated | tests/test_utils.py:80 | `123.456.789-01` is `12345678901` |
| Cases.CpfBare | tests/test_utils.py:81 | `12345678901` is unchanged |
| Cases.CpfShort | tests/test_utils.py:82 | `000000123-45` is `00000012345` |
| Cases.FileBradesco | tests/test_utils.py:92 | `Bradesco_01.02.2000.csv` is 1 February 2000 |
| Cases.FileC6 | tests/test_utils.py:93 | `c6_01.02.2000.csv` is 1 February 2000 |
| Cases.FileNoUnderscore | tests/test_utils.py:102 | `Bradesco01.02.2000.csv` raises AssertionError("Expected not None") |
| Cases.FileUnderscores | tests/test_utils.py:105 | `c6_01_02_2000.csv` raises AssertionError("Expected not None") |

## Left out

- `strip_dataframe` and `clean_dataframe_headers`: they work on pandas data frames and call `unidecode`. They are not part of this model.
- `xlrd.xldate_as_datetime` is not modelled. It is the parameter `xldate`, and the lemmas hold for every such function.
- Floating point is not modelled. Amounts are exact cents, and `round(float(...), 2)` is exact decimal rounding with halves up.
- Money.LongDecimalAmount: at a tie it claims halves up, which Python does not promise. Python rounds the binary float half to even: the exact binary ties `1.1250` and `1.6250` give 1.12 and 1.62 where the model gives 1.13 and 1.63. A decimal tie that is not exact in binary, a value within float error of a tie, and an integer part beyond 2^53 may also round differently in Python.
- Money.RoundToCents: rounds the exact decimal value, halves up. It does not model the float conversion or Python's half-to-even rounding of exact binary ties.
- Text.RemoveAll: its own contract states only which characters may remain. The order of what remains and which characters are removed are stated by Text.RemoveAllAppend and Text.RemoveAllOccurrence, and for one character by Cpf.StripPunctuationIsFilter.
- Money.StandardizeValues: `float(int(val))` overflowing for integers beyond the float range is not modelled. For integers of about 309 up to 4300 digits the model returns the exact amount where Python raises OverflowError.
- Text.PyInt: Python's limit on the length of integer strings is not modelled. From Python 3.11 on, and in the 3.7.14, 3.8.14, 3.9.14 and 3.10.7 releases, `int()` raises ValueError for a literal of more than 4300 digits by default (`sys.get_int_max_str_digits()`; the limit can be changed or switched off). The model reads such a literal as its value. This affects Text.PyIntOfDigits, Text.PyIntOfIntToString, Money.IntegerAmount and Dates.SerialNumber: for more than 4300 digits, `standardize_values` gives NaN (IrrecognizableValue in strict mode) where Money.IntegerAmount gives the amount, and `standardize_date` gives up where Dates.SerialNumber passes the integer to `xldate`.
- Text.Upper: only ASCII letters are upper-cased. Python's `str.upper()` also maps other letters, and some of them to longer strings.
- Regular-expression `\d` and `int()` also accept non-ASCII decimal digits in Python. The model accepts ASCII digits only.
- The message text of `IrrecognizableValue` (errors.py) is not modelled. The exception carries the value only.
- Test rows not written as their own lemma follow from the general lemmas:
  - integers (`1`, `1234567890`): Money.IntegerAmount
  - groups (`12.345`, `1,234`, `12,345`, `1.234.567,89`, `1.234.567.890,12`, `1.234,5`, `1,234,567.89`, `1,234,567,890.12`, `1,234.5`): Money.GroupedIntegerAmount and Money.GroupedDecimalAmount
  - `123,5600000`: Money.LongDecimalAmount
  - `1234,456`: Money.ThreeDecimalsRejected
  - `1,234,56`: Money.SameSeparatorRejected
  - `1,234,`: Money.NoFinalDigitRejected
  - the `pd.NA` rows: the contracts for a non-string cell
  - `1,234.567` and `1.234,567`: Money.GroupedThreeDecimalsRejected
  - `1.2345,67` and `1,23.45`: Money.IrregularGroupsRejected
  - `NotNumber`: Money.NoFinalDigitRejected
  - The date rows `01/2/2000` and `1/02/2000`: Dates.DayFirstDate
  - The file-name rows `Bradesco_01.2.2000.csv` and `c6_01.02.20000.csv`: only FileDate.ExtractDate's "AssertionError exactly when no tag" contract.
