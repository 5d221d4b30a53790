/** The parts of Python's datetime.strptime and strftime that the extraction
    and the request pipeline use: the formats "%d/%m/%Y", "%m/%d/%Y" and
    "%Y-%m-%d", and printing a date as "%Y-%m-%d". */
module Dates {
  import opened Text

  datatype Date = Date(year: int, month: int, day: int)

  predicate IsLeapYear(y: int) {
    y % 4 == 0 && (y % 100 != 0 || y % 400 == 0)
  }

  function DaysInMonth(y: int, m: int): (n: int)
    requires 1 <= m <= 12
    ensures 28 <= n <= 31
  {
    if m == 2 then (if IsLeapYear(y) then 29 else 28)
    else if m == 4 || m == 6 || m == 9 || m == 11 then 30
    else 31
  }

  /** What datetime(year, month, day) accepts: years 1 to 9999 of the
      proleptic Gregorian calendar. */
  predicate IsValid(d: Date) {
    1 <= d.year <= 9999 && 1 <= d.month <= 12 && 1 <= d.day <= DaysInMonth(d.year, d.month)
  }

  /** The three directives strptime is asked to read. */
  datatype Directive = DayOfMonth | MonthNumber | FourDigitYear

  /** The three formats the source passes to strptime. */
  datatype Format = DayMonthYear | MonthDayYear | YearMonthDay

  function Separator(f: Format): char {
    if f == YearMonthDay then '-' else '/'
  }

  /** The number a whole field denotes, when the field is in the language of
      the directive's regular expression:
      %d is 3[01]|[12]\d|0[1-9]|[1-9]| [1-9], %m is 1[0-2]|0[1-9]|[1-9],
      %Y is \d\d\d\d (ASCII digits). int() ignores the leading blank of " 5". */
  function DirectiveValue(dir: Directive, s: string): (r: Option<int>)
    ensures r.Some? && dir == DayOfMonth ==> 1 <= r.value <= 31
    ensures r.Some? && dir == MonthNumber ==> 1 <= r.value <= 12
    ensures r.Some? && dir == FourDigitYear ==> 0 <= r.value <= 9999
  {
    match dir
    case DayOfMonth =>
      if |s| == 2 && s[0] == '3' && (s[1] == '0' || s[1] == '1') then Some(30 + DigitValue(s[1]))
      else if |s| == 2 && (s[0] == '1' || s[0] == '2') && IsDigit(s[1]) then Some(10 * DigitValue(s[0]) + DigitValue(s[1]))
      else if |s| == 2 && s[0] == '0' && '1' <= s[1] <= '9' then Some(DigitValue(s[1]))
      else if |s| == 1 && '1' <= s[0] <= '9' then Some(DigitValue(s[0]))
      else if |s| == 2 && s[0] == ' ' && '1' <= s[1] <= '9' then Some(DigitValue(s[1]))
      else None
    case MonthNumber =>
      if |s| == 2 && s[0] == '1' && '0' <= s[1] <= '2' then Some(10 + DigitValue(s[1]))
      else if |s| == 2 && s[0] == '0' && '1' <= s[1] <= '9' then Some(DigitValue(s[1]))
      else if |s| == 1 && '1' <= s[0] <= '9' then Some(DigitValue(s[0]))
      else None
    case FourDigitYear =>
      if |s| == 4 && AllDigits(s) then
        Some(1000 * DigitValue(s[0]) + 100 * DigitValue(s[1]) + 10 * DigitValue(s[2]) + DigitValue(s[3]))
      else None
  }

  /** The text before the first separator, between the first and the
      second, and after the second. */
  function Cut(s: string, sep: char): (r: Option<(string, string, string)>)
    ensures r.Some? ==> sep in s
  {
    var i := IndexOfChar(s, sep, 0);
    if i < 0 then None
    else
      var j := IndexOfChar(s, sep, i + 1);
      if j < 0 then None
      else Some((s[..i], s[i + 1..j], s[j + 1..]))
  }

  /** The date the three fields of format f denote, if they denote one. */
  function Assemble(f: Format, a: string, b: string, c: string): (r: Option<Date>)
    ensures r.Some? ==> IsValid(r.value)
  {
    var d :=
      match f
      case DayMonthYear =>
        Fields(DirectiveValue(FourDigitYear, c), DirectiveValue(MonthNumber, b), DirectiveValue(DayOfMonth, a))
      case MonthDayYear =>
        Fields(DirectiveValue(FourDigitYear, c), DirectiveValue(MonthNumber, a), DirectiveValue(DayOfMonth, b))
      case YearMonthDay =>
        Fields(DirectiveValue(FourDigitYear, a), DirectiveValue(MonthNumber, b), DirectiveValue(DayOfMonth, c));
    if d.Some? && IsValid(d.value) then d else None
  }

  /** datetime.strptime(s, f) with ValueError as None.
      No directive's language holds the separator, so the regular
      expression's backtracking can only cut the text at the first two
      separators; the last field must then cover the rest of the text, or
      strptime reports unconverted data. The numbers must form a real date. */
  function ParseDate(s: string, f: Format): (r: Option<Date>)
    ensures r.Some? ==> IsValid(r.value)
    ensures r.Some? ==> Separator(f) in s
  {
    match Cut(s, Separator(f))
    case None => None
    case Some((a, b, c)) => Assemble(f, a, b, c)
  }

  /** The date named by three parsed fields, when all three parsed. */
  function Fields(y: Option<int>, m: Option<int>, d: Option<int>): Option<Date> {
    if y.Some? && m.Some? && d.Some? then Some(Date(y.value, m.value, d.value)) else None
  }

  function DigitChar(n: nat): (c: char)
    requires n < 10
    ensures IsDigit(c) && DigitValue(c) == n
  {
    ((n + '0' as int) as char)
  }

  /** Decimal digits of n without leading zeros. */
  function NatToDecimal(n: nat): (r: string)
    ensures 1 <= |r| && AllDigits(r)
  {
    if n < 10 then [DigitChar(n)] else NatToDecimal(n / 10) + [DigitChar(n % 10)]
  }

  /** n in two decimal digits, with a leading zero below 10. */
  function Pad2(n: nat): (r: string)
    requires n < 100
    ensures |r| == 2 && AllDigits(r)
    ensures 10 * DigitValue(r[0]) + DigitValue(r[1]) == n
  {
    [DigitChar(n / 10), DigitChar(n % 10)]
  }

  /** date.strftime("%Y-%m-%d"). The year is printed as the C library on
      Linux prints %Y, without padding: year 999 becomes "999". */
  function FormatIso(d: Date): (r: string)
    requires IsValid(d)
    ensures '/' !in r && |r| >= 7
  {
    var y, m, dd := NatToDecimal(d.year), Pad2(d.month), Pad2(d.day);
    assert forall k :: 0 <= k < |y| ==> y[k] != '/';
    y + "-" + m + "-" + dd
  }

  /** strptime(s, "%Y-%m-%d") followed by strftime("%Y-%m-%d"): what the
      pipeline does to a date of birth before storing it. */
  function Reformat(s: string): Option<string> {
    match ParseDate(s, YearMonthDay)
    case Some(d) => Some(FormatIso(d))
    case None => None
  }

  /** A year of four digits prints as exactly those four digits. */
  lemma FourDigitYearText(y: int)
    requires 1000 <= y <= 9999
    ensures NatToDecimal(y) == [DigitChar(y / 1000), DigitChar(y / 100 % 10), DigitChar(y / 10 % 10), DigitChar(y % 10)]
  {
    var a := y / 10;
    var b := a / 10;
    var c := b / 10;
    assert b == y / 100 && c == y / 1000 && 1 <= c < 10 && 10 <= b && 100 <= a;
    assert NatToDecimal(b) == NatToDecimal(c) + [DigitChar(b % 10)];
    assert NatToDecimal(a) == NatToDecimal(b) + [DigitChar(a % 10)];
  }

  /** A year below 1000 prints with fewer than four characters. */
  lemma ShortYearText(y: nat)
    requires y < 1000
    ensures |NatToDecimal(y)| < 4
  {
    if y >= 10 {
      var a := y / 10;
      assert a < 100;
      if a >= 10 {
        assert a / 10 < 10;
        assert NatToDecimal(a) == NatToDecimal(a / 10) + [DigitChar(a % 10)];
      }
      assert NatToDecimal(y) == NatToDecimal(a) + [DigitChar(y % 10)];
    }
  }

  lemma MonthText(m: int)
    requires 1 <= m <= 12
    ensures DirectiveValue(MonthNumber, Pad2(m)) == Some(m)
  {
  }

  lemma DayText(d: int)
    requires 1 <= d <= 31
    ensures DirectiveValue(DayOfMonth, Pad2(d)) == Some(d)
  {
  }

  lemma YearText(y: int)
    requires 1000 <= y <= 9999
    ensures DirectiveValue(FourDigitYear, NatToDecimal(y)) == Some(y)
  {
    FourDigitYearText(y);
    var a := y / 10;
    var b := a / 10;
    var c := b / 10;
    assert b == y / 100 && c == y / 1000;
    var s := NatToDecimal(y);
    assert s[0] == DigitChar(c) && s[1] == DigitChar(b % 10) && s[2] == DigitChar(a % 10) && s[3] == DigitChar(y % 10);
    assert y == 10 * a + y % 10 && a == 10 * b + a % 10 && b == 10 * c + b % 10;
    assert 1000 * c + 100 * (b % 10) + 10 * (a % 10) + y % 10 == y;
  }

  /** Printing a date of a four-digit year and reading it back with
      "%Y-%m-%d" gives the same date. */
  lemma ParseFormatIso(d: Date)
    requires IsValid(d) && 1000 <= d.year
    ensures ParseDate(FormatIso(d), YearMonthDay) == Some(d)
  {
    var s := FormatIso(d);
    var y := NatToDecimal(d.year);
    FourDigitYearText(d.year);
    assert s == y + "-" + Pad2(d.month) + "-" + Pad2(d.day);
    assert |s| == 10 && s[4] == '-' && s[7] == '-';
    IndexOfCharAt(s, '-', 0, 4);
    IndexOfCharAt(s, '-', 5, 7);
    assert s[..4] == y;
    assert s[5..7] == Pad2(d.month);
    assert s[8..] == Pad2(d.day);
    YearText(d.year);
    MonthText(d.month);
    DayText(d.day);
  }

  /** Re-formatting a formatted date changes nothing exactly when its year
      has four digits; for a year below 1000 strptime raises. */
  lemma ReformatIff(d: Date)
    requires IsValid(d)
    ensures Reformat(FormatIso(d)) == Some(FormatIso(d)) <==> d.year >= 1000
    ensures d.year < 1000 ==> Reformat(FormatIso(d)) == None
  {
    if d.year >= 1000 {
      ParseFormatIso(d);
    } else {
      ShortYearDoesNotReparse(d);
    }
  }

  /** A formatted date of a year below 1000 does not read back: "%Y"
      wants four digits. */
  lemma ShortYearDoesNotReparse(d: Date)
    requires IsValid(d) && d.year < 1000
    ensures ParseDate(FormatIso(d), YearMonthDay) == None
  {
    var s := FormatIso(d);
    var y := NatToDecimal(d.year);
    ShortYearText(d.year);
    assert s == y + "-" + Pad2(d.month) + "-" + Pad2(d.day);
    assert s[|y|] == '-';
    assert forall k :: 0 <= k < |y| ==> s[k] == y[k] && IsDigit(s[k]);
    IndexOfCharAt(s, '-', 0, |y|);
    assert s[..|y|] == y;
  }

  // The spellings strptime accepts, stated apart from the parser.

  /** %d: two digits, or for a day below 10 one digit, bare or after a blank. */
  predicate DaySpelling(t: string, n: int) {
    1 <= n <= 31 && (t == Pad2(n) || (n < 10 && (t == [DigitChar(n)] || t == [' ', DigitChar(n)])))
  }

  /** %m: two digits, or for a month below 10 one digit. */
  predicate MonthSpelling(t: string, n: int) {
    1 <= n <= 12 && (t == Pad2(n) || (n < 10 && t == [DigitChar(n)]))
  }

  /** %Y: exactly four digits. */
  predicate YearSpelling(t: string, n: int) {
    0 <= n <= 9999 && t == [DigitChar(n / 1000), DigitChar(n / 100 % 10), DigitChar(n / 10 % 10), DigitChar(n % 10)]
  }

  /** The three fields a, b, c spell the parts of d in the order of f. */
  predicate Spelled(f: Format, d: Date, a: string, b: string, c: string) {
    match f
    case DayMonthYear => DaySpelling(a, d.day) && MonthSpelling(b, d.month) && YearSpelling(c, d.year)
    case MonthDayYear => MonthSpelling(a, d.month) && DaySpelling(b, d.day) && YearSpelling(c, d.year)
    case YearMonthDay => YearSpelling(a, d.year) && MonthSpelling(b, d.month) && DaySpelling(c, d.day)
  }

  lemma DigitRoundTrip(c: char)
    requires IsDigit(c)
    ensures DigitChar(DigitValue(c)) == c
  {
  }

  /** Two digits are the two-digit spelling of their value. */
  lemma TwoDigits(t: string, n: int)
    requires |t| == 2 && IsDigit(t[0]) && IsDigit(t[1]) && n == 10 * DigitValue(t[0]) + DigitValue(t[1])
    ensures t == Pad2(n)
  {
    DigitRoundTrip(t[0]);
    DigitRoundTrip(t[1]);
    assert n / 10 == DigitValue(t[0]) && n % 10 == DigitValue(t[1]);
  }

  /** %d reads exactly its spellings, each as the day it spells. */
  lemma DayValueIff(t: string, n: int)
    ensures DirectiveValue(DayOfMonth, t) == Some(n) <==> DaySpelling(t, n)
  {
    if DirectiveValue(DayOfMonth, t) == Some(n) {
      if |t| == 2 && IsDigit(t[0]) && IsDigit(t[1]) {
        TwoDigits(t, n);
      } else if |t| == 1 {
        DigitRoundTrip(t[0]);
        assert t == [DigitChar(n)];
      } else {
        DigitRoundTrip(t[1]);
        assert t == [' ', DigitChar(n)];
      }
    }
    if DaySpelling(t, n) {
      if t == Pad2(n) {
        DayText(n);
      }
    }
  }

  /** %m reads exactly its spellings, each as the month it spells. */
  lemma MonthValueIff(t: string, n: int)
    ensures DirectiveValue(MonthNumber, t) == Some(n) <==> MonthSpelling(t, n)
  {
    if DirectiveValue(MonthNumber, t) == Some(n) {
      if |t| == 2 {
        TwoDigits(t, n);
      } else {
        DigitRoundTrip(t[0]);
        assert t == [DigitChar(n)];
      }
    }
    if MonthSpelling(t, n) {
      if t == Pad2(n) {
        MonthText(n);
      }
    }
  }

  /** The four decimal digits of a number below 10000. */
  lemma DigitsOfFour(d0: int, d1: int, d2: int, d3: int, n: int)
    requires 0 <= d0 < 10 && 0 <= d1 < 10 && 0 <= d2 < 10 && 0 <= d3 < 10
    requires n == 1000 * d0 + 100 * d1 + 10 * d2 + d3
    ensures n / 1000 == d0 && n / 100 % 10 == d1 && n / 10 % 10 == d2 && n % 10 == d3
  {
    assert n == 10 * (100 * d0 + 10 * d1 + d2) + d3;
    assert n / 10 == 100 * d0 + 10 * d1 + d2;
    assert n / 100 == 10 * d0 + d1;
  }

  /** What %Y reads is the four-digit spelling of the value. */
  lemma YearValueSpells(t: string, n: int)
    requires DirectiveValue(FourDigitYear, t) == Some(n)
    ensures YearSpelling(t, n)
  {
    DigitsOfFour(DigitValue(t[0]), DigitValue(t[1]), DigitValue(t[2]), DigitValue(t[3]), n);
    DigitRoundTrip(t[0]);
    DigitRoundTrip(t[1]);
    DigitRoundTrip(t[2]);
    DigitRoundTrip(t[3]);
    assert t == [t[0], t[1], t[2], t[3]];
  }

  /** A four-digit spelling reads as its value. */
  lemma YearSpellingValue(t: string, n: int)
    requires YearSpelling(t, n)
    ensures DirectiveValue(FourDigitYear, t) == Some(n)
  {
    var a := n / 10;
    var b := a / 10;
    var c := b / 10;
    assert b == n / 100 && c == n / 1000;
    assert n == 10 * a + n % 10 && a == 10 * b + a % 10 && b == 10 * c + b % 10;
    assert 1000 * c + 100 * (b % 10) + 10 * (a % 10) + n % 10 == n;
  }

  /** %Y reads exactly four digits, as the number they spell. */
  lemma YearValueIff(t: string, n: int)
    ensures DirectiveValue(FourDigitYear, t) == Some(n) <==> YearSpelling(t, n)
  {
    if DirectiveValue(FourDigitYear, t) == Some(n) {
      YearValueSpells(t, n);
    }
    if YearSpelling(t, n) {
      YearSpellingValue(t, n);
    }
  }

  /** A spelling holds only digits and blanks, never a separator. */
  lemma SpellingsHaveNoSeparator(t: string, n: int, sep: char)
    requires DaySpelling(t, n) || MonthSpelling(t, n) || YearSpelling(t, n)
    requires sep == '/' || sep == '-'
    ensures sep !in t
  {
  }

  /** Cut splits the text at its first two separators and keeps every
      character. */
  lemma CutShape(s: string, sep: char)
    requires Cut(s, sep).Some?
    ensures var (a, b, c) := Cut(s, sep).value; s == a + [sep] + b + [sep] + c
  {
    var i := IndexOfChar(s, sep, 0);
    var j := IndexOfChar(s, sep, i + 1);
    assert s == s[..i] + [sep] + s[i + 1..j] + [sep] + s[j + 1..];
  }

  /** Three fields make a date exactly when they spell a valid one. */
  lemma AssembleIff(f: Format, a: string, b: string, c: string, d: Date)
    ensures Assemble(f, a, b, c) == Some(d) <==> IsValid(d) && Spelled(f, d, a, b, c)
  {
    YearValueIff(a, d.year);
    YearValueIff(c, d.year);
    MonthValueIff(a, d.month);
    MonthValueIff(b, d.month);
    DayValueIff(a, d.day);
    DayValueIff(b, d.day);
    DayValueIff(c, d.day);
  }

  /** strptime(s, f) succeeds with d exactly when s is three spellings of
      a valid d, in the order of f, joined by the separator, with nothing
      before or after. */
  lemma ParseDateIff(s: string, f: Format, d: Date)
    ensures ParseDate(s, f) == Some(d) <==>
      IsValid(d) && exists a, b, c :: s == a + [Separator(f)] + b + [Separator(f)] + c && Spelled(f, d, a, b, c)
  {
    var sep := Separator(f);
    if ParseDate(s, f) == Some(d) {
      CutShape(s, sep);
      var (a, b, c) := Cut(s, sep).value;
      AssembleIff(f, a, b, c, d);
    }
    if IsValid(d) && exists a, b, c :: s == a + [sep] + b + [sep] + c && Spelled(f, d, a, b, c) {
      var a, b, c :| s == a + [sep] + b + [sep] + c && Spelled(f, d, a, b, c);
      if f == DayMonthYear {
        SpellingsHaveNoSeparator(a, d.day, sep);
        SpellingsHaveNoSeparator(b, d.month, sep);
      } else if f == MonthDayYear {
        SpellingsHaveNoSeparator(a, d.month, sep);
        SpellingsHaveNoSeparator(b, d.day, sep);
      } else {
        SpellingsHaveNoSeparator(a, d.year, sep);
        SpellingsHaveNoSeparator(b, d.month, sep);
      }
      CutFields(a, b, c, sep);
      AssembleIff(f, a, b, c, d);
    }
  }

  /** A date with a four-digit year prints as ten characters: the four year
      digits, '-', two month digits, '-', two day digits. */
  lemma FormatIsoLayout(d: Date)
    requires IsValid(d) && d.year >= 1000
    ensures var r := FormatIso(d);
      && |r| == 10 && r[4] == '-' && r[7] == '-'
      && YearSpelling(r[..4], d.year) && r[5..7] == Pad2(d.month) && r[8..] == Pad2(d.day)
  {
    FourDigitYearText(d.year);
    var r := FormatIso(d);
    assert r == NatToDecimal(d.year) + "-" + Pad2(d.month) + "-" + Pad2(d.day);
    assert r[..4] == NatToDecimal(d.year);
  }

  /** The empty string is not a date in any format. */
  lemma EmptyIsNotADate(f: Format)
    ensures ParseDate("", f) == None
  {
  }

  /** A date printed as "%Y-%m-%d" never reads as a date with '/' between
      the fields. */
  lemma IsoIsNotSlashDate(d: Date, f: Format)
    requires IsValid(d) && f != YearMonthDay
    ensures ParseDate(FormatIso(d), f) == None
  {
  }

  /** Every real date is read from its two-digit day, two-digit month and
      four-digit year in "%d/%m/%Y". */
  lemma ParseDayMonthYearPadded(d: Date)
    requires IsValid(d) && 1000 <= d.year
    ensures ParseDate(Pad2(d.day) + "/" + Pad2(d.month) + "/" + NatToDecimal(d.year), DayMonthYear) == Some(d)
  {
    var y := NatToDecimal(d.year);
    FourDigitYearText(d.year);
    var s := Pad2(d.day) + "/" + Pad2(d.month) + "/" + y;
    assert |s| == 10 && s[2] == '/' && s[5] == '/';
    IndexOfCharAt(s, '/', 0, 2);
    IndexOfCharAt(s, '/', 3, 5);
    assert s[..2] == Pad2(d.day);
    assert s[3..5] == Pad2(d.month);
    assert s[6..] == y;
    YearText(d.year);
    MonthText(d.month);
    DayText(d.day);
  }

  /** Reading a "%d/%m/%Y" date and printing it gives a text that reads back
      as the same date, for four-digit years. */
  lemma DayMonthYearNormalizes(s: string)
    requires ParseDate(s, DayMonthYear).Some? && ParseDate(s, DayMonthYear).value.year >= 1000
    ensures ParseDate(FormatIso(ParseDate(s, DayMonthYear).value), YearMonthDay) == ParseDate(s, DayMonthYear)
  {
    ParseFormatIso(ParseDate(s, DayMonthYear).value);
  }

  /** A text of the shape a/b/c (or a-b-c), where a and b hold no
      separator, is cut into exactly a, b and c. */
  lemma CutFields(a: string, b: string, c: string, sep: char)
    requires sep !in a && sep !in b
    ensures Cut(a + [sep] + b + [sep] + c, sep) == Some((a, b, c))
  {
    var s := a + [sep] + b + [sep] + c;
    var i, j := |a|, |a| + 1 + |b|;
    assert forall k :: 0 <= k < i ==> s[k] == a[k];
    IndexOfCharAt(s, sep, 0, i);
    assert forall k :: i + 1 <= k < j ==> s[k] == b[k - i - 1];
    IndexOfCharAt(s, sep, i + 1, j);
    assert s[..i] == a && s[i + 1..j] == b && s[j + 1..] == c;
  }

  /** 31 February is refused even though each field is well formed. */
  lemma NoThirtyFirstOfFebruary()
    ensures ParseDate("31/02/2020", DayMonthYear) == None
  {
    var a, b, c := "31", "02", "2020";
    CutFields(a, b, c, '/');
    assert a + "/" + b + "/" + c == "31/02/2020";
    NotAFebruaryDay(a, b, c);
  }

  lemma NotAFebruaryDay(a: string, b: string, c: string)
    requires a == "31" && b == "02" && c == "2020"
    ensures Assemble(DayMonthYear, a, b, c) == None
  {
    assert DirectiveValue(DayOfMonth, a) == Some(31);
    assert DirectiveValue(MonthNumber, b) == Some(2);
    assert DirectiveValue(FourDigitYear, c) == Some(2020);
    assert !IsValid(Date(2020, 2, 31));
  }
}
