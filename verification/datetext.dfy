/** The two text forms a birth date takes: what a user types
    (`strptime(text, '%d/%m/%Y')`) and what the bot persists
    (`strftime('%Y, %m, %d')`, read back with `strptime` and the same format).

    Python's `strptime` turns each directive into a regular expression:
    `%d` is `3[01]|[12]\d|0[1-9]|[1-9]| [1-9]`, `%m` is `1[0-2]|0[1-9]|[1-9]`,
    `%Y` is exactly four digits, every run of whitespace in the format
    becomes `\s+`, the whole text must be consumed, and the fields must then
    form a real date in years 1..9999. */
module DateText {
  import opened Wrappers
  import opened Text
  import opened Dates

  predicate NonZeroDigit(c: char) {
    '1' <= c <= '9'
  }

  /** The `%d` field: one digit 1-9, a space and one digit 1-9, or two
      digits from 01 to 31. */
  function DayField(tok: string): (r: Option<nat>)
    ensures r.Some? ==> 1 <= r.value <= 31
  {
    if |tok| == 1 && NonZeroDigit(tok[0]) then Some(DigitValue(tok[0]))
    else if |tok| == 2 && tok[0] == ' ' && NonZeroDigit(tok[1]) then Some(DigitValue(tok[1]))
    else if |tok| == 2 && AllDigits(tok) && 1 <= DigitsValue(tok) <= 31 then Some(DigitsValue(tok))
    else None
  }

  /** The `%m` field: one digit 1-9 or two digits from 01 to 12. */
  function MonthField(tok: string): (r: Option<nat>)
    ensures r.Some? ==> 1 <= r.value <= 12
  {
    if |tok| == 1 && NonZeroDigit(tok[0]) then Some(DigitValue(tok[0]))
    else if |tok| == 2 && AllDigits(tok) && 1 <= DigitsValue(tok) <= 12 then Some(DigitsValue(tok))
    else None
  }

  /** The `%Y` field: exactly four digits. */
  function YearField(tok: string): Option<nat> {
    if |tok| == 4 && AllDigits(tok) then Some(DigitsValue(tok)) else None
  }

  /** The final step of `strptime`: the matched fields must name a real date. */
  function Assemble(day: Option<nat>, month: Option<nat>, year: Option<nat>): (r: Option<Date>)
    ensures r.Some? ==> ValidDate(r.value)
    ensures r.Some? <==> day.Some? && month.Some? && year.Some? && ValidDate(Date(year.value, month.value, day.value))
  {
    if day.Some? && month.Some? && year.Some? && ValidDate(Date(year.value, month.value, day.value))
    then Some(Date(year.value, month.value, day.value))
    else None
  }

  /** `datetime.strptime(text, '%d/%m/%Y').date()`, None where it raises.
      No field pattern contains '/', so the fields are the text between the
      slashes. */
  function ParseDmy(text: string): (r: Option<Date>)
    ensures r.Some? ==> ValidDate(r.value)
  {
    match IndexOf(text, '/')
    case None => None
    case Some(i) =>
      var rest := text[i + 1..];
      match IndexOf(rest, '/')
      case None => None
      case Some(j) => Assemble(DayField(text[..i]), MonthField(rest[..j]), YearField(rest[j + 1..]))
  }

  /** The canonical `DD/MM/YYYY` spelling of a date. */
  function FormatDmy(d: Date): string
    requires ValidDate(d)
  {
    Pad2(d.day) + "/" + Pad2(d.month) + "/" + Pad4(d.year)
  }

  /** `strptime(text, '%Y, %m, %d').date()`, None where it raises: four
      digits, a comma, whitespace, the month up to the next comma, whitespace,
      then the day to the end of the text. */
  function ParseStored(text: string): (r: Option<Date>)
    ensures r.Some? ==> ValidDate(r.value)
  {
    if |text| < 5 || !AllDigits(text[..4]) || text[4] != ',' then None
    else
      var afterYear := text[5..];
      var gap1 := LeadingSpace(afterYear);
      if gap1 == 0 then None
      else
        var fromMonth := afterYear[gap1..];
        match IndexOf(fromMonth, ',')
        case None => None
        case Some(k) =>
          var afterMonth := fromMonth[k + 1..];
          var gap2 := LeadingSpace(afterMonth);
          if gap2 == 0 then None
          else Assemble(DayField(afterMonth[gap2..]), MonthField(fromMonth[..k]), Some(DigitsValue(text[..4])))
  }

  /** `date.strftime('%Y, %m, %d')` with a four-digit year, the form every
      persisted date takes in this model. */
  function FormatStored(d: Date): string
    requires ValidDate(d)
  {
    Pad4(d.year) + ", " + Pad2(d.month) + ", " + Pad2(d.day)
  }

  /** `date.strftime('%Y, %m, %d')` as the C library on Linux renders it:
      `%Y` is the year in decimal with no padding. */
  function FormatStoredAsWritten(d: Date): string
    requires ValidDate(d)
  {
    NatToString(d.year) + ", " + Pad2(d.month) + ", " + Pad2(d.day)
  }

  lemma MonthFieldPad2(m: nat)
    requires 1 <= m <= 12
    ensures MonthField(Pad2(m)) == Some(m)
  {
    Pad2Value(m);
  }

  lemma DayFieldPad2(d: nat)
    requires 1 <= d <= 31
    ensures DayField(Pad2(d)) == Some(d)
  {
    Pad2Value(d);
  }

  lemma LeadingSpaceOne(s: string)
    requires |s| >= 2 && IsSpace(s[0]) && IsDigit(s[1])
    ensures LeadingSpace(s) == 1
  {
  }

  /** Text of the form day/month/year, with no '/' inside the day or the
      month, is read field by field. */
  lemma ParseDmyFields(dd: string, mm: string, yyyy: string)
    requires '/' !in dd && '/' !in mm
    ensures ParseDmy(dd + "/" + mm + "/" + yyyy) == Assemble(DayField(dd), MonthField(mm), YearField(yyyy))
  {
    var tail := mm + "/" + yyyy;
    var text := dd + "/" + tail;
    SlashJoin(dd, mm, yyyy);
    IndexOfAfterPrefix(dd, '/', tail);
    var rest := text[|dd| + 1..];
    SlashTail(dd, tail);
    assert rest == tail;
    assert tail == mm + ['/'] + yyyy;
    IndexOfAfterPrefix(mm, '/', yyyy);
    assert text[..|dd|] == dd;
    assert rest[..|mm|] == mm;
    assert rest[|mm| + 1..] == yyyy;
  }

  lemma SlashJoin(a: string, b: string, c: string)
    ensures a + "/" + b + "/" + c == a + ['/'] + (b + "/" + c)
  {
  }

  lemma SlashTail(a: string, b: string)
    ensures (a + "/" + b)[|a| + 1..] == b
  {
  }

  /** Every valid date survives a trip through its `DD/MM/YYYY` spelling. */
  lemma ParseFormatDmy(d: Date)
    requires ValidDate(d)
    ensures ParseDmy(FormatDmy(d)) == Some(d)
  {
    Pad2Digits(d.day);
    Pad2Digits(d.month);
    ParseDmyFields(Pad2(d.day), Pad2(d.month), Pad4(d.year));
    DayFieldPad2(d.day);
    MonthFieldPad2(d.month);
    Pad4Value(d.year);
  }

  /** Zero-padded numbers contain no '/'. */
  lemma Pad2Digits(n: nat)
    requires n < 100
    ensures '/' !in Pad2(n)
  {
    var s := Pad2(n);
    assert IsDigit(s[0]) && IsDigit(s[1]);
  }

  /** The persisted form, with any whitespace character after each comma,
      reads back as the same date, for every valid date. */
  lemma ParseStoredGaps(d: Date, g1: char, g2: char)
    requires ValidDate(d) && IsSpace(g1) && IsSpace(g2)
    ensures ParseStored(Pad4(d.year) + [',', g1] + Pad2(d.month) + [',', g2] + Pad2(d.day)) == Some(d)
  {
    var yyyy, mm, dd := Pad4(d.year), Pad2(d.month), Pad2(d.day);
    var text := yyyy + [',', g1] + mm + [',', g2] + dd;
    assert text[..4] == yyyy;
    Pad4Value(d.year);
    var afterYear := text[5..];
    assert afterYear == [g1] + mm + [',', g2] + dd;
    LeadingSpaceOne(afterYear);
    var fromMonth := afterYear[1..];
    assert fromMonth == mm + [','] + ([g2] + dd);
    IndexOfAfterPrefix(mm, ',', [g2] + dd);
    var afterMonth := fromMonth[3..];
    assert afterMonth == [g2] + dd;
    LeadingSpaceOne(afterMonth);
    assert fromMonth[..2] == mm;
    assert afterMonth[1..] == dd;
    DayFieldPad2(d.day);
    MonthFieldPad2(d.month);
  }

  /** The persisted form reads back as the same date, for every valid date. */
  lemma ParseFormatStored(d: Date)
    requires ValidDate(d)
    ensures ParseStored(FormatStored(d)) == Some(d)
  {
    assert FormatStored(d) == Pad4(d.year) + [',', ' '] + Pad2(d.month) + [',', ' '] + Pad2(d.day);
    ParseStoredGaps(d, ' ', ' ');
  }

  /** From year 1000 on, the C library's rendering is the four-digit one,
      so the persisted date reads back unchanged. */
  lemma AsWrittenRoundTripFrom1000(d: Date)
    requires ValidDate(d) && d.year >= 1000
    ensures FormatStoredAsWritten(d) == FormatStored(d)
    ensures ParseStored(FormatStoredAsWritten(d)) == Some(d)
  {
    NatToStringFourDigits(d.year);
    ParseFormatStored(d);
  }

  /** Below year 1000 the unpadded year does not match `%Y`'s four digits:
      the persisted date cannot be read back. */
  lemma AsWrittenShortYearUnreadable(d: Date)
    requires ValidDate(d) && d.year < 1000
    ensures ParseStored(FormatStoredAsWritten(d)) == None
  {
    var ys := NatToString(d.year);
    NatToStringLength(d.year);
    var text := FormatStoredAsWritten(d);
    assert text[|ys|] == ',';
    assert text[..4][|ys|] == ',';
    assert !AllDigits(text[..4]);
  }

  /** The discrepancy on one concrete date: 1 January 999 is saved as
      "999, 01, 01", which does not parse. */
  lemma AsWrittenYear999()
    ensures FormatStoredAsWritten(Date(999, 1, 1)) == "999, 01, 01"
    ensures ParseStored("999, 01, 01") == None
  {
    AsWrittenShortYearUnreadable(Date(999, 1, 1));
  }

  /** The whitespace after each comma may be any character `\s` matches,
      including the ASCII separators 28 to 31. */
  lemma ParseStoredSeparators()
    ensures ParseStored("2000,\U{1C}01,\U{1F}05") == Some(Date(2000, 1, 5))
  {
    assert Pad4(2000) == "2000" && Pad2(1) == "01" && Pad2(5) == "05";
    assert "2000,\U{1C}01,\U{1F}05" == Pad4(2000) + [',', '\U{1C}'] + Pad2(1) + [',', '\U{1F}'] + Pad2(5);
    ParseStoredGaps(Date(2000, 1, 5), '\U{1C}', '\U{1F}');
  }

  /** A user input naming a day the month does not have is refused. */
  lemma ParseDmyRejects31February()
    ensures ParseDmy("31/02/2000") == None
  {
    assert "31/02/2000" == Pad2(31) + "/" + Pad2(2) + "/" + "2000";
    Pad2Digits(31);
    Pad2Digits(2);
    ParseDmyFields(Pad2(31), Pad2(2), "2000");
    DayFieldPad2(31);
    MonthFieldPad2(2);
  }

  /** 29 February is accepted only in a leap year. */
  lemma ParseDmyLeapDay(y: nat)
    requires 1 <= y <= 9999
    ensures ParseDmy(Pad2(29) + "/" + Pad2(2) + "/" + Pad4(y)).Some? <==> IsLeapYear(y)
  {
    Pad2Digits(29);
    Pad2Digits(2);
    ParseDmyFields(Pad2(29), Pad2(2), Pad4(y));
    DayFieldPad2(29);
    MonthFieldPad2(2);
    Pad4Value(y);
  }
}
