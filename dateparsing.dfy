/** Reading a spreadsheet cell as a date (`parseExcelDate` and
    `parseDateString` of src/routes/contribuables/importRoutes.ts): serial
    numbers of the spreadsheet 1900 date system, Date values, and text in
    four positional layouts. */
module DateParsing {
  import opened Wrappers
  import opened JsText
  import opened Calendar
  import opened Cells
  import DateText

  /** A numeric local variable of the source: never assigned, NaN, or a number. */
  datatype JsNum = Unset | NotANumber | Value(v: int)

  function FromParse(o: Option<int>): JsNum {
    match o
    case None => NotANumber
    case Some(v) => Value(v)
  }

  /** `parseInt(parts[i], 10)`; past the end `parts[i]` is undefined and parses as NaN. */
  function PartValue(parts: seq<string>, i: nat): Option<int> {
    if i < |parts| then ParseInt(parts[i]) else None
  }

  /** The `day`, `month` and `year` variables of `parseDateString`. */
  datatype Fields = Fields(day: JsNum, month: JsNum, year: JsNum)

  /** `parseInt(...) - 1`, the zero-based month; NaN stays NaN. */
  function MonthFromParse(o: Option<int>): JsNum {
    match o
    case None => NotANumber
    case Some(v) => Value(v - 1)
  }

  /** One turn of the loop: the layout token at position `i` assigns from `parts[i]`;
      the month is stored zero-based (`parseInt(...) - 1`, NaN staying NaN). */
  function Assign(f: Fields, token: string, parts: seq<string>, i: nat): Fields {
    if token == "dd" then f.(day := FromParse(PartValue(parts, i)))
    else if token == "MM" then
      f.(month := MonthFromParse(PartValue(parts, i)))
    else if token == "yyyy" then f.(year := FromParse(PartValue(parts, i)))
    else f
  }

  /** The variables after the first `k` layout tokens have been read. */
  function FieldsAfter(parts: seq<string>, tokens: seq<string>, k: nat): Fields
    requires k <= |tokens|
  {
    if k == 0 then Fields(Unset, Unset, Unset)
    else Assign(FieldsAfter(parts, tokens, k - 1), tokens[k - 1], parts, k - 1)
  }

  /** `new Date(year, month, day)` followed by the check that `getFullYear`,
      `getMonth` and `getDate` give back `year`, `month` and `day`. `new Date`
      reads a year 0..99 as 1900..1999, lets a day past the month's end run
      into the next month, and gives an Invalid Date (whose getters are NaN)
      outside the time-value range. */
  function ConstructChecked(year: int, month: int, day: int): (r: Option<Date>)
    requires 0 <= month < 12
    ensures r.Some? <==>
      ValidCivil(Civil(year, month, day)) && !(0 <= year <= 99) && InTimeRange(DayOf(Civil(year, month, day)))
    ensures r.Some? ==> r.value.day == DayOf(Civil(year, month, day))
  {
    var fullYear := if 0 <= year <= 99 then 1900 + year else year;
    var t := MakeDay(fullYear, month, day);
    var c := Civil(year, month, day);
    assert CivilFromDays(t) == c <==> ValidCivil(c) && !(0 <= year <= 99) by {
      if 0 <= year <= 99 && 1 <= day <= 31 {
        MakeDayYearBound(fullYear, month, day);
      } else if ValidCivil(c) && !(0 <= year <= 99) {
        CivilOfDay(c);
      }
    }
    if !InTimeRange(t) then None
    else if CivilFromDays(t) == Civil(year, month, day) then Some(Date(t))
    else None
  }

  /** The tail of `parseDateString` after the loop. A NaN month passes both range
      tests (every comparison with NaN is false) and then builds an Invalid Date,
      which fails the final check. */
  function DateFromFields(f: Fields): Option<Date> {
    if f.year.Value? && f.year.v != 0 && !f.month.Unset? && f.day.Value? && f.day.v != 0 then
      if f.month.Value? && (f.month.v < 0 || f.month.v > 11) then None
      else if f.day.v < 1 || f.day.v > 31 then None
      else if f.month.NotANumber? then None
      else ConstructChecked(f.year.v, f.month.v, f.day.v)
    else None
  }

  /** What `parseDateString(dateString, format)` returns. */
  function DateStringValue(dateString: string, format: string): Option<Date> {
    var tokens := SplitDate(format);
    DateFromFields(FieldsAfter(SplitDate(dateString), tokens, |tokens|))
  }

  method ParseDateString(dateString: string, format: string) returns (r: Option<Date>)
    ensures r == DateStringValue(dateString, format)
  {
    var parts := SplitDate(dateString);
    var formatParts := SplitDate(format);
    var day, month, year := Unset, Unset, Unset;
    for i := 0 to |formatParts|
      invariant Fields(day, month, year) == FieldsAfter(parts, formatParts, i)
    {
      if formatParts[i] == "dd" {
        day := FromParse(PartValue(parts, i));
      } else if formatParts[i] == "MM" {
        month := MonthFromParse(PartValue(parts, i));
      } else if formatParts[i] == "yyyy" {
        year := FromParse(PartValue(parts, i));
      }
    }
    if year.Value? && year.v != 0 && month != Unset && day.Value? && day.v != 0 {
      if month.Value? && (month.v < 0 || month.v > 11) {
        return None;
      }
      if day.v < 1 || day.v > 31 {
        return None;
      }
      if month.NotANumber? {
        return None;
      }
      r := ConstructChecked(year.v, month.v, day.v);
      return;
    }
    return None;
  }

  /** Every date `parseDateString` returns reproduces the parsed year, month
      and day, which form a valid calendar date with a year outside 0..99. */
  lemma DateStringSound(dateString: string, format: string)
    requires DateStringValue(dateString, format).Some?
    ensures var tokens := SplitDate(format);
      var f := FieldsAfter(SplitDate(dateString), tokens, |tokens|);
      && f.year.Value? && f.month.Value? && f.day.Value?
      && var c := Civil(f.year.v, f.month.v, f.day.v);
      && ValidCivil(c) && !(0 <= c.year <= 99)
      && CivilFromDays(DateStringValue(dateString, format).value.day) == c
  {
    var tokens := SplitDate(format);
    var f := FieldsAfter(SplitDate(dateString), tokens, |tokens|);
    CivilOfDay(Civil(f.year.v, f.month.v, f.day.v));
  }

  /** The layouts tried, in order. */
  const DateLayouts: seq<string> := ["yyyy-MM-dd", "dd/MM/yyyy", "MM/dd/yyyy", "yyyy/MM/dd"]

  /** `a || b` on two parse outcomes. */
  function OrElse(a: Option<Date>, b: Option<Date>): Option<Date> {
    if a.Some? then a else b
  }

  /** The first layout of `formats` under which `s` parses. */
  function FirstLayout(s: string, formats: seq<string>): Option<Date> {
    if formats == [] then None
    else match DateStringValue(s, formats[0])
      case Some(d) => Some(d)
      case None => FirstLayout(s, formats[1..])
  }

  /** Days from 1899-12-30 (serial 0 of the 1900 date system, as this code reads it) to 1970-01-01. */
  const SerialEpochBias: int := 25569

  /** What `parseExcelDate(value)` returns. */
  function ExcelDate(c: Cell): Option<Date> {
    if !Truthy(c) then None
    else match c
      case DateVal(d) => Some(d)
      case Num(n) => Some(Date(n - SerialEpochBias))
      case Str(s) => FirstLayout(s, DateLayouts)
      case _ => None
  }

  method ParseExcelDate(value: Cell) returns (r: Option<Date>)
    ensures r == ExcelDate(value)
  {
    if !Truthy(value) {
      return None;
    }
    if value.DateVal? {
      return Some(value.d);
    }
    if value.Num? {
      return Some(Date(value.n - SerialEpochBias));
    }
    if value.Str? {
      r := TryLayouts(value.s, DateLayouts);
      return;
    }
    return None;
  }

  /** Falsy cells (absent, 0, "") and cells of no date-like type give no date;
      a Date value passes through unchanged; nonempty text goes to the layouts. */
  lemma ExcelDateCases(c: Cell)
    ensures c == Undefined || c == Num(0) || c == Str("") ==> ExcelDate(c).None?
    ensures c.Bool? ==> ExcelDate(c).None?
    ensures c.DateVal? ==> ExcelDate(c) == Some(c.d)
    ensures c.Str? && c.s != "" ==> ExcelDate(c) == FirstLayout(c.s, DateLayouts)
  {
  }

  /** The loop over the layouts: the first one under which `s` parses wins. */
  method TryLayouts(s: string, formats: seq<string>) returns (r: Option<Date>)
    ensures r == FirstLayout(s, formats)
  {
    for i := 0 to |formats|
      invariant FirstLayout(s, formats) == FirstLayout(s, formats[i..])
    {
      assert formats[i..][1..] == formats[i + 1..];
      var parsed := ParseDateString(s, formats[i]);
      if parsed.Some? {
        return parsed;
      }
    }
    return None;
  }

  /** Three separator-free pieces joined by date separators split back into those pieces. */
  lemma SplitThree(a: string, s1: char, b: string, s2: char, c: string)
    requires IsDateSeparator(s1) && IsDateSeparator(s2)
    requires forall i :: 0 <= i < |a| ==> !IsDateSeparator(a[i])
    requires forall i :: 0 <= i < |b| ==> !IsDateSeparator(b[i])
    requires forall i :: 0 <= i < |c| ==> !IsDateSeparator(c[i])
    ensures SplitDate(a + [s1] + b + [s2] + c) == [a, b, c]
  {
    SplitDateJoined(b, s2, c);
    assert a + [s1] + b + [s2] + c == a + [s1] + (b + [s2] + c);
    SplitDateJoined(a, s1, b + [s2] + c);
  }

  lemma YearFirstTokens()
    ensures SplitDate(DateLayouts[0]) == ["yyyy", "MM", "dd"]
  {
    assert DateLayouts[0] == "yyyy" + ['-'] + "MM" + ['-'] + "dd";
    SplitThree("yyyy", '-', "MM", '-', "dd");
  }

  lemma DayFirstTokens()
    ensures SplitDate(DateLayouts[1]) == ["dd", "MM", "yyyy"]
  {
    assert DateLayouts[1] == "dd" + ['/'] + "MM" + ['/'] + "yyyy";
    SplitThree("dd", '/', "MM", '/', "yyyy");
  }

  lemma MonthFirstTokens()
    ensures SplitDate(DateLayouts[2]) == ["MM", "dd", "yyyy"]
  {
    assert DateLayouts[2] == "MM" + ['/'] + "dd" + ['/'] + "yyyy";
    SplitThree("MM", '/', "dd", '/', "yyyy");
  }

  lemma YearFirstSlashTokens()
    ensures SplitDate(DateLayouts[3]) == ["yyyy", "MM", "dd"]
  {
    assert DateLayouts[3] == "yyyy" + ['/'] + "MM" + ['/'] + "dd";
    SplitThree("yyyy", '/', "MM", '/', "dd");
  }

  /** The variables a layout leaves when it reads the year, month and day from
      the pieces at positions `yi`, `mi` and `di`. */
  function PositionalFields(parts: seq<string>, yi: nat, mi: nat, di: nat): Fields {
    Fields(
      FromParse(PartValue(parts, di)),
      MonthFromParse(PartValue(parts, mi)),
      FromParse(PartValue(parts, yi)))
  }

  /** The date that pieces at positions `yi`, `mi` and `di` denote. */
  function PositionalDate(parts: seq<string>, yi: nat, mi: nat, di: nat): Option<Date> {
    DateFromFields(PositionalFields(parts, yi, mi, di))
  }

  lemma ThreeTokens(parts: seq<string>, tokens: seq<string>)
    requires |tokens| == 3
    ensures FieldsAfter(parts, tokens, 3)
      == Assign(Assign(Assign(Fields(Unset, Unset, Unset), tokens[0], parts, 0), tokens[1], parts, 1), tokens[2], parts, 2)
  {
    assert FieldsAfter(parts, tokens, 1) == Assign(Fields(Unset, Unset, Unset), tokens[0], parts, 0);
    assert FieldsAfter(parts, tokens, 2) == Assign(FieldsAfter(parts, tokens, 1), tokens[1], parts, 1);
  }

  /** The first layout reads year, month, day from the first, second and third piece. */
  lemma YearFirstPositions(s: string)
    ensures DateStringValue(s, DateLayouts[0]) == PositionalDate(SplitDate(s), 0, 1, 2)
  {
    YearFirstTokens();
    ThreeTokens(SplitDate(s), SplitDate(DateLayouts[0]));
  }

  /** The second layout reads day, month, year. */
  lemma DayFirstPositions(s: string)
    ensures DateStringValue(s, DateLayouts[1]) == PositionalDate(SplitDate(s), 2, 1, 0)
  {
    DayFirstTokens();
    ThreeTokens(SplitDate(s), SplitDate(DateLayouts[1]));
  }

  /** The third layout reads month, day, year. */
  lemma MonthFirstPositions(s: string)
    ensures DateStringValue(s, DateLayouts[2]) == PositionalDate(SplitDate(s), 2, 0, 1)
  {
    MonthFirstTokens();
    ThreeTokens(SplitDate(s), SplitDate(DateLayouts[2]));
  }

  /** The fourth layout reads year, month, day, like the first. */
  lemma YearFirstSlashPositions(s: string)
    ensures DateStringValue(s, DateLayouts[3]) == PositionalDate(SplitDate(s), 0, 1, 2)
  {
    YearFirstSlashTokens();
    ThreeTokens(SplitDate(s), SplitDate(DateLayouts[3]));
  }

  /** Four layouts are tried in turn, the first success winning. */
  lemma FirstOfFour(s: string, f: seq<string>)
    requires |f| == 4
    ensures FirstLayout(s, f) ==
      OrElse(DateStringValue(s, f[0]), OrElse(DateStringValue(s, f[1]),
        OrElse(DateStringValue(s, f[2]), DateStringValue(s, f[3]))))
  {
    FirstLayoutStep(s, f);
    FirstLayoutStep(s, f[1..]);
    FirstLayoutStep(s, f[2..]);
    FirstLayoutStep(s, f[3..]);
    assert f[1..][1..] == f[2..];
    assert f[2..][1..] == f[3..];
    assert f[3..][1..] == [];
  }

  lemma FirstLayoutStep(s: string, f: seq<string>)
    requires f != []
    ensures FirstLayout(s, f) == OrElse(DateStringValue(s, f[0]), FirstLayout(s, f[1..]))
  {
  }

  /** The fourth layout splits into the same tokens as the first, so it never
      accepts a string the first rejected: trying it changes no outcome. */
  lemma FourthLayoutRedundant(s: string)
    ensures ExcelDate(Str(s)) ==
      if s == "" then None
      else OrElse(DateStringValue(s, DateLayouts[0]), OrElse(DateStringValue(s, DateLayouts[1]),
        DateStringValue(s, DateLayouts[2])))
  {
    FourthMatchesFirst(s);
    FirstOfFour(s, DateLayouts);
    ExcelDateCases(Str(s));
  }

  /** The fourth layout gives what the first gives. */
  lemma FourthMatchesFirst(s: string)
    ensures DateStringValue(s, DateLayouts[3]) == DateStringValue(s, DateLayouts[0])
  {
    YearFirstPositions(s);
    YearFirstSlashPositions(s);
  }

  /** A swap of one separator for the other leaves the split, and so every parse, unchanged. */
  lemma {:induction false} SeparatorsInterchangeable(a: string, b: string)
    requires forall i :: 0 <= i < |a| ==> !IsDateSeparator(a[i])
    ensures SplitDate(a + "/" + b) == SplitDate(a + "-" + b)
    ensures forall f :: DateStringValue(a + "/" + b, f) == DateStringValue(a + "-" + b, f)
  {
    SplitDateJoined(a, '/', b);
    SplitDateJoined(a, '-', b);
  }

  /** Two digits, then two digits, then four digits. */
  predicate ShortDatePieces(a: string, b: string, c: string) {
    |a| == 2 && |b| == 2 && |c| == 4 && AllDigits(a) && AllDigits(b) && AllDigits(c)
  }

  lemma ShortDateSplit(a: string, sep: char, b: string, c: string)
    requires ShortDatePieces(a, b, c) && IsDateSeparator(sep)
    ensures SplitDate(a + [sep] + b + [sep] + c) == [a, b, c]
  {
    SplitThree(a, sep, b, sep, c);
  }

  /** The numbers the pieces "NN", "NN", "NNNN" of `s` parse to. */
  lemma ShortDateValues(s: string, a: string, b: string, c: string)
    requires ShortDatePieces(a, b, c) && SplitDate(s) == [a, b, c]
    ensures PartValue(SplitDate(s), 0) == Some(DigitsValue(a) as int)
    ensures PartValue(SplitDate(s), 1) == Some(DigitsValue(b) as int)
    ensures PartValue(SplitDate(s), 2) == Some(DigitsValue(c) as int)
    ensures DigitsValue(c) <= 9999
  {
    var parts := SplitDate(s);
    PieceValue(parts, 0, a);
    PieceValue(parts, 1, b);
    PieceValue(parts, 2, c);
    DigitsValueOfFour(c);
  }

  lemma PieceValue(parts: seq<string>, i: nat, p: string)
    requires i < |parts| && parts[i] == p && AllDigits(p) && p != []
    ensures PartValue(parts, i) == Some(DigitsValue(p) as int)
  {
  }

  /** Pieces that parse to numbers give the variables each layout reads from them. */
  lemma NumericFields(parts: seq<string>, x: int, y: int, z: int)
    requires PartValue(parts, 0) == Some(x) && PartValue(parts, 1) == Some(y) && PartValue(parts, 2) == Some(z)
    ensures PositionalFields(parts, 0, 1, 2) == Fields(Value(z), Value(y - 1), Value(x))
    ensures PositionalFields(parts, 2, 1, 0) == Fields(Value(x), Value(y - 1), Value(z))
    ensures PositionalFields(parts, 2, 0, 1) == Fields(Value(y), Value(x - 1), Value(z))
  {
    PositionalValues(parts, 0, 1, 2, x, y, z);
    PositionalValues(parts, 2, 1, 0, z, y, x);
    PositionalValues(parts, 2, 0, 1, z, x, y);
  }

  /** Numeric pieces at the three positions give the day, the zero-based month and the year. */
  lemma PositionalValues(parts: seq<string>, yi: nat, mi: nat, di: nat, y: int, m: int, d: int)
    requires PartValue(parts, yi) == Some(y) && PartValue(parts, mi) == Some(m) && PartValue(parts, di) == Some(d)
    ensures PositionalFields(parts, yi, mi, di) == Fields(Value(d), Value(m - 1), Value(y))
  {
    MonthOfValue(PartValue(parts, mi), m);
  }

  /** A parsed month `m` is stored as `m - 1`. */
  lemma MonthOfValue(o: Option<int>, m: int)
    requires o == Some(m)
    ensures MonthFromParse(o) == Value(m - 1)
  {
  }

  /** Fields that pass the range tests go on to `new Date` and its check. */
  lemma FieldsInRange(y: int, m: int, d: int)
    requires y != 0 && 0 <= m < 12 && 1 <= d <= 31
    ensures DateFromFields(Fields(Value(d), Value(m), Value(y))) == ConstructChecked(y, m, d)
  {
  }

  /** Both year-first layouts reject numeric pieces x, y, z with z >= 100: the
      day read from z is out of range. */
  lemma YearFirstRejects(s: string, x: int, y: int, z: int)
    requires PartValue(SplitDate(s), 0) == Some(x) && PartValue(SplitDate(s), 1) == Some(y)
    requires PartValue(SplitDate(s), 2) == Some(z) && z >= 100
    ensures DateStringValue(s, DateLayouts[0]) == None
    ensures DateStringValue(s, DateLayouts[3]) == None
  {
    NumericFields(SplitDate(s), x, y, z);
    YearFirstPositions(s);
    YearFirstSlashPositions(s);
  }

  /** The day-first layout reads numeric pieces x, y, z as day, month, year. */
  lemma DayFirstReads(s: string, x: int, y: int, z: int)
    requires PartValue(SplitDate(s), 0) == Some(x) && PartValue(SplitDate(s), 1) == Some(y)
    requires PartValue(SplitDate(s), 2) == Some(z)
    requires z != 0 && 1 <= y <= 12 && 1 <= x <= 31
    ensures DateStringValue(s, DateLayouts[1]) == ConstructChecked(z, y - 1, x)
  {
    NumericFields(SplitDate(s), x, y, z);
    FieldsInRange(z, y - 1, x);
    DayFirstPositions(s);
  }

  /** The day-first layout rejects numeric pieces whose middle one is 13 or more. */
  lemma DayFirstRejects(s: string, x: int, y: int, z: int)
    requires PartValue(SplitDate(s), 0) == Some(x) && PartValue(SplitDate(s), 1) == Some(y)
    requires PartValue(SplitDate(s), 2) == Some(z) && 13 <= y
    ensures DateStringValue(s, DateLayouts[1]) == None
  {
    NumericFields(SplitDate(s), x, y, z);
    DayFirstPositions(s);
  }

  /** The month-first layout reads numeric pieces x, y, z as month, day, year. */
  lemma MonthFirstReads(s: string, x: int, y: int, z: int)
    requires PartValue(SplitDate(s), 0) == Some(x) && PartValue(SplitDate(s), 1) == Some(y)
    requires PartValue(SplitDate(s), 2) == Some(z)
    requires z != 0 && 1 <= x <= 12 && 1 <= y <= 31
    ensures DateStringValue(s, DateLayouts[2]) == ConstructChecked(z, x - 1, y)
  {
    NumericFields(SplitDate(s), x, y, z);
    FieldsInRange(z, x - 1, y);
    MonthFirstPositions(s);
  }

  /** A real date of the years 100..9999 survives the check after `new Date`. */
  lemma ConstructCheckedKeeps(y: int, m: int, d: int)
    requires 100 <= y <= 9999 && 0 <= m < 12 && 1 <= d <= DaysInMonth(y, m)
    ensures ConstructChecked(y, m, d) == Some(Date(MakeDay(y, m, d)))
  {
    FourDigitYearInRange(y, m, d);
  }

  /** Text the first layout rejects and the second reads is the second's date. */
  lemma SecondLayoutWins(s: string)
    requires s != "" && DateStringValue(s, DateLayouts[0]) == None && DateStringValue(s, DateLayouts[1]).Some?
    ensures ExcelDate(Str(s)) == DateStringValue(s, DateLayouts[1])
  {
    FourthLayoutRedundant(s);
  }

  /** Text the first two layouts reject and the third reads is the third's date. */
  lemma ThirdLayoutWins(s: string)
    requires s != "" && DateStringValue(s, DateLayouts[0]) == None && DateStringValue(s, DateLayouts[1]) == None
    requires DateStringValue(s, DateLayouts[2]).Some?
    ensures ExcelDate(Str(s)) == DateStringValue(s, DateLayouts[2])
  {
    FourthLayoutRedundant(s);
  }

  /** "dd/MM/yyyy" text naming a real date of the years 100..9999 is read day
      first, even when it would also read month first ("05/03/2023" is 5 March). */
  lemma {:induction false} DayFirstWins(a: string, sep: char, b: string, c: string)
    requires ShortDatePieces(a, b, c) && IsDateSeparator(sep)
    requires DigitsValue(c) >= 100 && 1 <= DigitsValue(b) <= 12
    requires 1 <= DigitsValue(a) <= DaysInMonth(DigitsValue(c), DigitsValue(b) - 1)
    ensures ExcelDate(Str(a + [sep] + b + [sep] + c))
      == Some(Date(MakeDay(DigitsValue(c), DigitsValue(b) - 1, DigitsValue(a))))
  {
    var s := a + [sep] + b + [sep] + c;
    var x, y, z := DigitsValue(a) as int, DigitsValue(b) as int, DigitsValue(c) as int;
    ShortDateSplit(a, sep, b, c);
    ShortDateValues(s, a, b, c);
    ConstructCheckedKeeps(z, y - 1, x);
    DayFirstReads(s, x, y, z);
    YearFirstRejects(s, x, y, z);
    SecondLayoutWins(s);
  }

  /** When the middle number cannot be a month (13..31) the day-first layout
      fails and the month-first one reads it as the day ("05/13/2023" is 13 May). */
  lemma {:induction false} MonthFirstFallback(a: string, sep: char, b: string, c: string)
    requires ShortDatePieces(a, b, c) && IsDateSeparator(sep)
    requires DigitsValue(c) >= 100 && 1 <= DigitsValue(a) <= 12 && 13 <= DigitsValue(b)
    requires DigitsValue(b) <= DaysInMonth(DigitsValue(c), DigitsValue(a) - 1)
    ensures ExcelDate(Str(a + [sep] + b + [sep] + c))
      == Some(Date(MakeDay(DigitsValue(c), DigitsValue(a) - 1, DigitsValue(b))))
  {
    var s := a + [sep] + b + [sep] + c;
    var x, y, z := DigitsValue(a) as int, DigitsValue(b) as int, DigitsValue(c) as int;
    ShortDateSplit(a, sep, b, c);
    ShortDateValues(s, a, b, c);
    ConstructCheckedKeeps(z, x - 1, y);
    MonthFirstReads(s, x, y, z);
    DayFirstRejects(s, x, y, z);
    YearFirstRejects(s, x, y, z);
    ThirdLayoutWins(s);
  }

  /** The year-first layout reads numeric pieces x, y, z as year, month, day. */
  lemma YearFirstReads(s: string, x: int, y: int, z: int)
    requires PartValue(SplitDate(s), 0) == Some(x) && PartValue(SplitDate(s), 1) == Some(y)
    requires PartValue(SplitDate(s), 2) == Some(z)
    requires x != 0 && 1 <= y <= 12 && 1 <= z <= 31
    ensures DateStringValue(s, DateLayouts[0]) == ConstructChecked(x, y - 1, z)
  {
    NumericFields(SplitDate(s), x, y, z);
    FieldsInRange(x, y - 1, z);
    YearFirstPositions(s);
  }

  /** Text the first layout reads is that layout's date. */
  lemma FirstLayoutWins(s: string)
    requires s != "" && DateStringValue(s, DateLayouts[0]).Some?
    ensures ExcelDate(Str(s)) == DateStringValue(s, DateLayouts[0])
  {
    FourthLayoutRedundant(s);
  }

  lemma IsoPieces(s: string, a: string, sep: char, b: string, e: string)
    requires |a| == 4 && |b| == 2 && |e| == 2 && AllDigits(a) && AllDigits(b) && AllDigits(e)
    requires IsDateSeparator(sep) && s == a + [sep] + b + [sep] + e
    ensures PartValue(SplitDate(s), 0) == Some(DigitsValue(a) as int)
    ensures PartValue(SplitDate(s), 1) == Some(DigitsValue(b) as int)
    ensures PartValue(SplitDate(s), 2) == Some(DigitsValue(e) as int)
    ensures DigitsValue(a) <= 9999
  {
    SplitThree(a, sep, b, sep, e);
    var parts := SplitDate(s);
    PieceValue(parts, 0, a);
    PieceValue(parts, 1, b);
    PieceValue(parts, 2, e);
    DigitsValueOfFour(a);
  }

  /** "yyyy-MM-dd" (or "yyyy/MM/dd") text naming a real date of the years
      100..9999 is read year first. */
  lemma {:induction false} YearFirstText(a: string, sep: char, b: string, e: string)
    requires |a| == 4 && |b| == 2 && |e| == 2 && AllDigits(a) && AllDigits(b) && AllDigits(e)
    requires IsDateSeparator(sep)
    requires DigitsValue(a) >= 100 && 1 <= DigitsValue(b) <= 12
    requires 1 <= DigitsValue(e) <= DaysInMonth(DigitsValue(a), DigitsValue(b) - 1)
    ensures ExcelDate(Str(a + [sep] + b + [sep] + e))
      == Some(Date(MakeDay(DigitsValue(a), DigitsValue(b) - 1, DigitsValue(e))))
  {
    var s := a + [sep] + b + [sep] + e;
    var x, y, z := DigitsValue(a) as int, DigitsValue(b) as int, DigitsValue(e) as int;
    IsoPieces(s, a, sep, b, e);
    YearFirstDate(s, x, y, z);
  }

  /** Numeric pieces year, month, day naming a real date of the years 100..9999 give that date. */
  lemma YearFirstDate(s: string, x: int, y: int, z: int)
    requires s != ""
    requires PartValue(SplitDate(s), 0) == Some(x) && PartValue(SplitDate(s), 1) == Some(y)
    requires PartValue(SplitDate(s), 2) == Some(z)
    requires 100 <= x <= 9999 && 1 <= y <= 12 && 1 <= z <= DaysInMonth(x, y - 1)
    ensures ExcelDate(Str(s)) == Some(Date(MakeDay(x, y - 1, z)))
  {
    YearFirstReads(s, x, y, z);
    ConstructCheckedKeeps(x, y - 1, z);
    FirstLayoutWins(s);
  }

  /** The YYYY-MM-DD text the listing prints for a date of the years 100..9999
      imports back as that same date. */
  lemma IsoDateReadsBack(d: Date)
    requires 100 <= CivilFromDays(d.day).year <= 9999
    ensures ExcelDate(Str(DateText.IsoDate(d))) == Some(d)
  {
    IsoCivilReadsBack(CivilFromDays(d.day));
  }

  /** The YYYY-MM-DD text of a calendar date of the years 100..9999 imports
      back as that date. */
  lemma {:induction false} IsoCivilReadsBack(c: Civil)
    requires ValidCivil(c) && 100 <= c.year <= 9999
    ensures ExcelDate(Str(DateText.IsoCivil(c))) == Some(Date(DayOf(c)))
  {
    var a, b, e := DateText.IsoYear(c.year), DateText.TwoDigits(c.month + 1), DateText.TwoDigits(c.day);
    IsoCivilPieces(c);
    var s := a + ['-'] + b + ['-'] + e;
    assert DateText.IsoCivil(c) == s;
    assert c == Civil(DigitsValue(a), DigitsValue(b) - 1, DigitsValue(e));
    YearFirstText(a, '-', b, e);
  }

  /** The YYYY-MM-DD text of a date of the years 0..9999 is its year, month
      and day as digit pieces joined by dashes. */
  lemma IsoCivilPieces(c: Civil)
    requires ValidCivil(c) && 0 <= c.year <= 9999
    ensures var a, b, e := DateText.IsoYear(c.year), DateText.TwoDigits(c.month + 1), DateText.TwoDigits(c.day);
      && DateText.IsoCivil(c) == a + ['-'] + b + ['-'] + e
      && |a| == 4 && |b| == 2 && |e| == 2 && AllDigits(a) && AllDigits(b) && AllDigits(e)
      && DigitsValue(a) == c.year && DigitsValue(b) == c.month + 1 && DigitsValue(e) == c.day
  {
    var s := DateText.IsoCivil(c);
    assert s == s[..4] + [s[4]] + s[5..7] + [s[7]] + s[8..];
  }

  /** Each serial step is one day; serial 0 is falsy and gives no date. */
  lemma SerialDates(n: int)
    ensures ExcelDate(Num(n)).Some? <==> n != 0
    ensures n != 0 ==> ExcelDate(Num(n)).value.day == n - SerialEpochBias
    ensures n != 0 && n + 1 != 0 ==> ExcelDate(Num(n + 1)).value.day == ExcelDate(Num(n)).value.day + 1
  {
  }

  /** Serial numbers count days from 1899-12-30: serial 1, day number
      `1 - SerialEpochBias` by `SerialDates`, is 1899-12-31, and serial 25569
      is 1970-01-01. */
  lemma SerialEpoch()
    ensures CivilFromDays(1 - SerialEpochBias) == Civil(1899, 11, 31)
    ensures CivilFromDays(SerialEpochBias - SerialEpochBias) == Civil(1970, 0, 1)
  {
    var first, epoch := Civil(1899, 11, 31), Civil(1970, 0, 1);
    assert DayOf(first) == 1 - SerialEpochBias;
    assert DayOf(epoch) == 0;
    CivilOfDay(first);
    CivilOfDay(epoch);
  }
}
