/** `extractDate`: a day, a genitive month name and a year in the text; else
    a numeric `d.m.yyyy` date in the text; else a `dd.mm.yy` date in the file
    name; else a fixed sentinel. */
module DateField {
  import opened Text
  import opened Number
  import opened Regex

  /** What `extractDate` returns when no attempt matches. */
  const DateNotFound := "не найдена"

  /** The month table: genitive month name to two-digit month number. */
  const MonthNumbers: map<string, string> := map[
    "января" := "01", "февраля" := "02", "марта" := "03", "апреля" := "04",
    "мая" := "05", "июня" := "06", "июля" := "07", "августа" := "08",
    "сентября" := "09", "октября" := "10", "ноября" := "11", "декабря" := "12"]

  /** `months[name.toLowerCase()]` inside a template string, where a missing
      key would print as "undefined". */
  function MonthNumber(name: string): (r: string)
    ensures IsNumber(r) && |r| == 2 <==> LowerString(name) in MonthNumbers
    ensures r == "undefined" <==> LowerString(name) !in MonthNumbers
  {
    TableNumbers();
    var key := LowerString(name);
    if key in MonthNumbers then MonthNumbers[key] else "undefined"
  }

  /** `day.month.year` with a two-digit day and month and a year of
      `yearLength` digits. */
  predicate IsDottedDate(r: string, yearLength: nat) {
    && |r| == 6 + yearLength
    && IsNumber(r[..2]) && r[2] == '.'
    && IsNumber(r[3..5]) && r[5] == '.'
    && IsDigits(r[6..])
  }

  function Dotted(day: string, month: string, year: string): (r: string)
    requires |day| == 2 && |month| == 2
    ensures |r| == 6 + |year|
    ensures r[..2] == day && r[2] == '.' && r[3..5] == month && r[5] == '.' && r[6..] == year
  {
    var r := day + "." + month + "." + year;
    assert r[..2] == day && r[3..5] == month && r[6..] == year;
    r
  }

  /** The date of a month-name match: `padStart(2, '0')` on the day, the
      table's number for the month, the year as written. */
  function FromMonthName(text: string, m: Match): (r: string)
    requires ValidIn(text, m) && Shaped(MonthNameDate, text, m)
    ensures IsDottedDate(r, 4)
    ensures DigitsValue(r[..2]) == DigitsValue(Group(text, m, 1))
    ensures r[3..5] == MonthNumbers[LowerString(Group(text, m, 2))]
    ensures r[6..] == Group(text, m, 3)
  {
    PaddedDigits(Group(text, m, 1));
    MonthNameHasNumber(Group(text, m, 2));
    Dotted(PadZeros(Group(text, m, 1), 2), MonthNumber(Group(text, m, 2)), Group(text, m, 3))
  }

  /** The date of a numeric match: day and month padded, year as written. */
  function FromNumeric(text: string, m: Match): (r: string)
    requires ValidIn(text, m) && Shaped(NumericDate, text, m)
    ensures IsDottedDate(r, 4)
    ensures DigitsValue(r[..2]) == DigitsValue(Group(text, m, 1))
    ensures DigitsValue(r[3..5]) == DigitsValue(Group(text, m, 2))
    ensures r[6..] == Group(text, m, 3)
  {
    PaddedDigits(Group(text, m, 1));
    PaddedDigits(Group(text, m, 2));
    Dotted(PadZeros(Group(text, m, 1), 2), PadZeros(Group(text, m, 2), 2), Group(text, m, 3))
  }

  /** The date of a file-name match: day and month as written, a two-digit
      year prefixed with "20", a longer one kept. */
  function FromFilename(filename: string, m: Match): (r: string)
    requires ValidIn(filename, m) && Shaped(FilenameDate, filename, m)
    ensures |r| >= 8
    ensures var year := Group(filename, m, 3);
            && r[..2] == Group(filename, m, 1)
            && r[3..5] == Group(filename, m, 2)
            && (|year| == 2 ==> r[6..] == "20" + year && IsDottedDate(r, 4))
            && (|year| > 2 ==> r[6..] == year && IsDottedDate(r, |year|))
  {
    var year := Group(filename, m, 3);
    var y := if |year| == 2 then "20" + year else year;
    assert IsDigits(y) by {
      if |year| == 2 { assert forall k | 2 <= k < 4 :: y[k] == year[k - 2]; }
    }
    Dotted(Group(filename, m, 1), Group(filename, m, 2), y)
  }

  function ExtractDate(text: string, filename: string): (r: string)
    ensures r == DateNotFound || IsDottedDate(r, 4) || IsDottedDate(r, 3)
  {
    match Exec(MonthNameDate, text)
    case Some(m) => FromMonthName(text, m)
    case None =>
      match Exec(NumericDate, text)
      case Some(m) => FromNumeric(text, m)
      case None =>
        match Exec(FilenameDate, filename)
        case Some(m) => FromFilename(filename, m)
        case None => DateNotFound
  }

  /** Every name the month alternation accepts is a key of the month table,
      so under the modelled case fold the lookup never yields "undefined". */
  lemma MonthNameHasNumber(name: string)
    requires IsMonthName(name)
    ensures LowerString(name) in MonthNumbers
    ensures MonthNumber(name) == MonthNumbers[LowerString(name)]
    ensures IsNumber(MonthNumber(name)) && |MonthNumber(name)| == 2
  {
    AlternativesAreKeys();
    TableNumbers();
  }

  lemma AlternativesAreKeys()
    ensures forall a | a in MonthAlternatives :: a in MonthNumbers
  {
  }

  lemma TableNumbers()
    ensures forall key | key in MonthNumbers :: IsNumber(MonthNumbers[key]) && |MonthNumbers[key]| == 2
  {
  }

  /** `padStart(2, '0')` of one or two digits: two digits, same value. */
  lemma PaddedDigits(x: string)
    requires IsNumber(x) && |x| <= 2
    ensures IsNumber(PadZeros(x, 2)) && |PadZeros(x, 2)| == 2
    ensures DigitsValue(PadZeros(x, 2)) == DigitsValue(x)
  {
    var r := PadZeros(x, 2);
    if |x| < 2 {
      var z := r[..2 - |x|];
      assert r == z + x;
      LeadingZerosValue(z, x);
    }
  }

  /** When a day, a month name and a year stand in the text, the date is
      `DD.MM.YYYY`: the day zero-padded to the same value, the month number
      from the table, the year copied. The numeric form and the file name
      are not consulted. */
  lemma MonthNameFormFirst(text: string, filename: string)
    requires Exec(MonthNameDate, text).Some?
    ensures var m := Exec(MonthNameDate, text).value;
            var r := ExtractDate(text, filename);
            && IsDottedDate(r, 4)
            && DigitsValue(r[..2]) == DigitsValue(Group(text, m, 1))
            && r[3..5] == MonthNumbers[LowerString(Group(text, m, 2))]
            && r[6..] == Group(text, m, 3)
  {
  }

  /** Without a month-name date, a numeric `d.m.yyyy` date in the text gives
      `DD.MM.YYYY` with day and month zero-padded to the same values; the
      file name is not consulted. */
  lemma NumericFormSecond(text: string, filename: string)
    requires Exec(MonthNameDate, text).None? && Exec(NumericDate, text).Some?
    ensures var m := Exec(NumericDate, text).value;
            var r := ExtractDate(text, filename);
            && IsDottedDate(r, 4)
            && DigitsValue(r[..2]) == DigitsValue(Group(text, m, 1))
            && DigitsValue(r[3..5]) == DigitsValue(Group(text, m, 2))
            && r[6..] == Group(text, m, 3)
  {
  }

  /** Only when the text holds no date is the file name read. */
  lemma FilenameFormLast(text: string, filename: string)
    requires Exec(MonthNameDate, text).None? && Exec(NumericDate, text).None?
    requires Exec(FilenameDate, filename).Some?
    ensures ExtractDate(text, filename) == FromFilename(filename, Exec(FilenameDate, filename).value)
  {
  }

  /** The sentinel comes back exactly when no attempt matches. */
  lemma NotFoundExactlyWhenNothingMatches(text: string, filename: string)
    ensures ExtractDate(text, filename) == DateNotFound <==>
            Exec(MonthNameDate, text).None? && Exec(NumericDate, text).None? && Exec(FilenameDate, filename).None?
  {
    var r := ExtractDate(text, filename);
    if r == DateNotFound {
      assert !IsDigit(r[0]);
      assert !IsDottedDate(r, 4) && !IsDottedDate(r, 3);
    }
  }

  /** A day of one or two digits, white space, a month name in any case,
      white space and a four-digit year, after text without digits, give
      `DD.MM.YYYY`: the day zero-padded, the month's number from the table,
      the year as written. */
  lemma MonthNameDateInText(text: string, filename: string, pre: string, day: string, sp1: string, name: string, sp2: string, year: string, post: string, k: nat)
    requires text == pre + day + sp1 + name + sp2 + year + post
    requires forall j | 0 <= j < |pre| :: !IsDigit(pre[j])
    requires 0 < |day| <= 2 && IsDigits(day) && 0 < |sp1| && AllIn(sp1, Space)
    requires k < |MonthAlternatives| && StrEq(name, MonthAlternatives[k], true)
    requires 0 < |sp2| && AllIn(sp2, Space) && |year| == 4 && IsDigits(year)
    ensures ExtractDate(text, filename) == PadZeros(day, 2) + "." + MonthNumbers[MonthAlternatives[k]] + "." + year
  {
    var m := MonthNameDateInTextMatch(text, pre, day, sp1, name, sp2, year, post, k);
    MonthNumberOfFolded(name, k);
  }

  /** Where the month-name pattern matches such a text, and what its groups
      hold. */
  lemma MonthNameDateInTextMatch(text: string, pre: string, day: string, sp1: string, name: string, sp2: string, year: string, post: string, k: nat)
    returns (m: Match)
    requires text == pre + day + sp1 + name + sp2 + year + post
    requires forall j | 0 <= j < |pre| :: !IsDigit(pre[j])
    requires 0 < |day| <= 2 && IsDigits(day) && 0 < |sp1| && AllIn(sp1, Space)
    requires k < |MonthAlternatives| && StrEq(name, MonthAlternatives[k], true)
    requires 0 < |sp2| && AllIn(sp2, Space) && |year| == 4 && IsDigits(year)
    ensures Exec(MonthNameDate, text) == Some(m)
    ensures ValidIn(text, m) && |m.groups| == 4
    ensures Group(text, m, 1) == day && Group(text, m, 2) == name && Group(text, m, 3) == year
  {
    var d, w, e, y := MonthNameDateLayout(text, pre, day, sp1, name, sp2, year, post, MonthAlternatives[k]);
    assert MonthNameDateForm(text, |pre|, d, w, k, e, y);
    FirstMonthNameDate(text, |pre|, d, w, k, e, y);
    m := Match([Span(|pre|, YearSuffixEnd(text, y + 4)), Span(|pre|, d), Span(w, e), Span(y, y + 4)]);
  }

  /** A month name written in any case has the number its lower-case
      spelling has in the table. */
  lemma MonthNumberOfFolded(name: string, k: nat)
    requires k < |MonthAlternatives| && StrEq(name, MonthAlternatives[k], true)
    ensures MonthNumber(name) == MonthNumbers[MonthAlternatives[k]]
  {
    MonthAlternativesLower();
    LowerStringOfFolded(name, MonthAlternatives[k]);
    AlternativesAreKeys();
  }

  /** A numeric `d.m.yyyy` date in a text with no other digit gives
      `DD.MM.YYYY`: day and month zero-padded, the year as written. No
      month-name date can stand in such a text, and the file name is not
      consulted. */
  lemma NumericDateInText(text: string, filename: string, pre: string, day: string, month: string, year: string, post: string)
    requires NumericDateText(text, pre, day, month, year, post)
    ensures ExtractDate(text, filename) == PadZeros(day, 2) + "." + PadZeros(month, 2) + "." + year
  {
    var m := NumericDateInTextMatch(text, pre, day, month, year, post);
  }

  /** Where the numeric pattern matches such a text, and what its groups
      hold. */
  lemma NumericDateInTextMatch(text: string, pre: string, day: string, month: string, year: string, post: string)
    returns (m: Match)
    requires NumericDateText(text, pre, day, month, year, post)
    ensures Exec(MonthNameDate, text).None?
    ensures Exec(NumericDate, text) == Some(m)
    ensures ValidIn(text, m) && |m.groups| == 4
    ensures Group(text, m, 1) == day && Group(text, m, 2) == month && Group(text, m, 3) == year
  {
    var a, b := NumericDateLayout(text, pre, day, month, year, post);
    var i := |pre|;
    NoMonthNameDate(text, i, b + 5);
    NumericDateFound(text, i, a, b);
    NoNumericDateBefore(text, i);
    ExecAt(NumericDate, text, i);
    m := Match([Span(i, b + 5), Span(i, a), Span(a + 1, b), Span(b + 1, b + 5)]);
  }

  /** No numeric date starts where there is no digit. */
  lemma NoNumericDateBefore(s: string, i: nat)
    requires i <= |s| && forall j | 0 <= j < i :: !IsDigit(s[j])
    ensures forall j | 0 <= j < i :: MatchAt(NumericDate, s, j).None?
  {
    forall j | 0 <= j < i
      ensures MatchAt(NumericDate, s, j).None?
    {
      assert BoundedRunEnd(s, j, Digit, 2) == j;
    }
  }
}
