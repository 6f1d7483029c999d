/**
 * The session date: read from its compact `YYYYMMDD` form with the rules of
 * `pd.to_datetime(..., format='%Y%m%d')` and written back as `YYYY-MM-DD`
 * (`strftime('%Y-%m-%d')`).
 */
module Dates {
  import opened Wrappers
  import opened Digits

  datatype Date = Date(year: nat, month: nat, day: nat)

  /** Gregorian leap years. */
  predicate IsLeapYear(y: nat)
  {
    y % 4 == 0 && (y % 100 != 0 || y % 400 == 0)
  }

  function DaysInMonth(y: nat, m: nat): (n: nat)
    requires 1 <= m <= 12
    ensures 28 <= n <= 31
  {
    if m == 2 then (if IsLeapYear(y) then 29 else 28)
    else if m == 4 || m == 6 || m == 9 || m == 11 then 30
    else 31
  }

  /** Chronological order: by year, then month, then day. */
  predicate Before(a: Date, b: Date)
  {
    a.year < b.year || (a.year == b.year && (a.month < b.month || (a.month == b.month && a.day < b.day)))
  }

  /** A day that exists in the calendar: month 1-12 and a day of that month. */
  predicate IsCalendarDate(d: Date)
  {
    1 <= d.month <= 12 && 1 <= d.day <= DaysInMonth(d.year, d.month)
  }

  /**
   * The whole days a pandas `Timestamp` (nanoseconds in 64 bits) can hold:
   * midnight of 1677-09-21 is just below its minimum, 2262-04-11 is its last day.
   */
  const FIRST_DAY := Date(1677, 9, 22)
  const LAST_DAY := Date(2262, 4, 11)

  predicate InTimestampRange(d: Date)
  {
    !Before(d, FIRST_DAY) && !Before(LAST_DAY, d)
  }

  predicate IsValid(d: Date)
  {
    IsCalendarDate(d) && InTimestampRange(d)
  }

  /** The compact form `YYYYMMDD`. */
  function Compact(d: Date): string
  {
    Padded(d.year, 4) + Padded(d.month, 2) + Padded(d.day, 2)
  }

  /**
   * The ISO form `YYYY-MM-DD`: ten characters with dashes after the year and
   * the month, which are the compact form once the dashes are removed.
   */
  function FormatIso(d: Date): (r: string)
    ensures IsIsoShape(r) && RemoveDashes(r) == Compact(d)
  {
    var y, m, dd := Padded(d.year, 4), Padded(d.month, 2), Padded(d.day, 2);
    IsoShapeOf(y, m, dd);
    RemoveDashesIso(y, m, dd);
    y + "-" + m + "-" + dd
  }

  /**
   * Reading `YYYYMMDD` as eight digits that name a valid day: what pandas'
   * whole-column shortcut for this format accepts, and what `ParseYmd` below
   * reduces to on eight-digit text.
   */
  function ParseCompact(s: string): (r: Option<Date>)
    ensures r.Some? ==> IsValid(r.value) && Compact(r.value) == s
  {
    if |s| == 8 && AllDigits(s) then
      var d := Date(ValueOf(s[..4]), ValueOf(s[4..6]), ValueOf(s[6..]));
      if IsValid(d) then
        assert Pow10(2) == 100 && Pow10(4) == 10000;
        PaddedValueOf(s[..4]);
        PaddedValueOf(s[4..6]);
        PaddedValueOf(s[6..]);
        assert s == s[..4] + s[4..6] + s[6..];
        Some(d)
      else None
    else None
  }

  /** A field that `%m` or `%d` matched: its value and the characters it took. */
  datatype Piece = Piece(value: nat, width: nat)

  /** The two-digit alternatives of `%m` (`1[0-2]`, `0[1-9]`) at position `p`. */
  function TwoDigitMonth(s: string, p: nat): (r: Option<Piece>)
    ensures r.Some? ==> p + 2 <= |s| && 1 <= r.value.value <= 12 && r.value.width == 2
  {
    if p + 2 <= |s| && ((s[p] == '1' && '0' <= s[p + 1] <= '2') || (s[p] == '0' && '1' <= s[p + 1] <= '9'))
    then Some(Piece(DigitValue(s[p]) * 10 + DigitValue(s[p + 1]), 2))
    else None
  }

  /** The last alternative of `%m`, one digit `[1-9]`. */
  function OneDigitMonth(s: string, p: nat): (r: Option<Piece>)
    ensures r.Some? ==> p < |s| && 1 <= r.value.value <= 9 && r.value.width == 1
  {
    if p < |s| && '1' <= s[p] <= '9' then Some(Piece(DigitValue(s[p]), 1)) else None
  }

  /**
   * `%d` at position `p`: the first of its alternatives `3[01]`, `[12]\d`,
   * `0[1-9]`, `[1-9]` and ` [1-9]` (a space, then a digit) that matches there.
   */
  function DayAt(s: string, p: nat): (r: Option<Piece>)
    ensures r.Some? ==> 1 <= r.value.width <= 2 && p + r.value.width <= |s| && 1 <= r.value.value <= 31
  {
    if p + 2 <= |s| && ((s[p] == '3' && '0' <= s[p + 1] <= '1') || ('1' <= s[p] <= '2' && IsDigit(s[p + 1])) || (s[p] == '0' && '1' <= s[p + 1] <= '9'))
    then Some(Piece(DigitValue(s[p]) * 10 + DigitValue(s[p + 1]), 2))
    else if p < |s| && '1' <= s[p] <= '9' then Some(Piece(DigitValue(s[p]), 1))
    else if p + 2 <= |s| && s[p] == ' ' && '1' <= s[p + 1] <= '9' then Some(Piece(DigitValue(s[p + 1]), 2))
    else None
  }

  /** What the regular expression captured after the year, and where its match ends. */
  datatype MonthDay = MonthDay(month: nat, day: nat, end: nat)

  /**
   * The month and day of the regular expression's match from position 4: the
   * first `%m` alternative after which `%d` matches. The match need not reach
   * the end of the text.
   */
  function MatchMonthDay(s: string): (r: Option<MonthDay>)
    ensures r.Some? ==> 6 <= r.value.end <= |s| && r.value.end <= 8 && 1 <= r.value.month <= 12
  {
    var two := TwoDigitMonth(s, 4);
    var one := OneDigitMonth(s, 4);
    if two.Some? && DayAt(s, 6).Some? then
      Some(MonthDay(two.value.value, DayAt(s, 6).value.value, 6 + DayAt(s, 6).value.width))
    else if one.Some? && DayAt(s, 5).Some? then
      Some(MonthDay(one.value.value, DayAt(s, 5).value.value, 5 + DayAt(s, 5).value.width))
    else None
  }

  /**
   * One text through `pd.to_datetime(..., format='%Y%m%d')`, which reads it
   * with `strptime` rules: four digits of year, then the month and day the
   * regular expression matches. The match must use the whole text
   * ("unconverted data remains" otherwise) and name a valid day; anything
   * else makes it raise (None).
   */
  function ParseYmd(s: string): (r: Option<Date>)
    ensures r.Some? ==> IsValid(r.value)
    ensures r.Some? ==> 6 <= |s| <= 8 && AllDigits(s[..4]) && MatchMonthDay(s).Some?
  {
    if |s| < 4 || !AllDigits(s[..4]) then None
    else match MatchMonthDay(s)
      case None => None
      case Some(md) =>
        var d := Date(ValueOf(s[..4]), md.month, md.day);
        if md.end == |s| && IsValid(d) then Some(d) else None
  }

  lemma ValueOfTwo(a: string)
    requires |a| == 2 && AllDigits(a)
    ensures ValueOf(a) == DigitValue(a[0]) * 10 + DigitValue(a[1])
  {
    assert a[..1][..0] == [] && a[..1][0] == a[0];
    assert ValueOf(a[..1]) == DigitValue(a[0]);
  }

  /** Two digits with a value from 1 to 12 match `%m`'s two-digit alternatives. */
  lemma TwoDigitMonthOf(s: string, p: nat)
    requires p + 2 <= |s| && AllDigits(s[p..p + 2]) && 1 <= ValueOf(s[p..p + 2]) <= 12
    ensures TwoDigitMonth(s, p) == Some(Piece(ValueOf(s[p..p + 2]), 2))
  {
    ValueOfTwo(s[p..p + 2]);
    assert IsDigit(s[p..p + 2][0]) && IsDigit(s[p..p + 2][1]);
  }

  /** Two digits with a value from 1 to 31 match `%d`'s two-digit alternatives. */
  lemma TwoDigitDayOf(s: string, p: nat)
    requires p + 2 <= |s| && AllDigits(s[p..p + 2]) && 1 <= ValueOf(s[p..p + 2]) <= 31
    ensures DayAt(s, p) == Some(Piece(ValueOf(s[p..p + 2]), 2))
  {
    ValueOfTwo(s[p..p + 2]);
    assert IsDigit(s[p..p + 2][0]) && IsDigit(s[p..p + 2][1]);
  }

  /** Eight characters leave `ParseYmd` only its two-digit month and two-digit day. */
  lemma ParseYmdEightFields(s: string)
    requires |s| == 8 && AllDigits(s) && ParseYmd(s).Some?
    ensures ParseYmd(s) == Some(Date(ValueOf(s[..4]), ValueOf(s[4..6]), ValueOf(s[6..])))
  {
    ValueOfTwo(s[4..6]);
    ValueOfTwo(s[6..]);
    assert IsDigit(s[6]);
  }

  /** An eight-digit text naming a valid day is read the same way. */
  lemma ParseCompactIsYmd(s: string)
    requires ParseCompact(s).Some?
    ensures ParseYmd(s) == ParseCompact(s)
  {
    assert s[6..] == s[6..8];
    TwoDigitMonthOf(s, 4);
    TwoDigitDayOf(s, 6);
  }

  /** On eight-digit text, `strptime` rules and the compact reading agree. */
  lemma ParseYmdEightDigits(s: string)
    requires |s| == 8 && AllDigits(s)
    ensures ParseYmd(s) == ParseCompact(s)
  {
    if ParseYmd(s).Some? {
      ParseYmdEightFields(s);
    } else if ParseCompact(s).Some? {
      ParseCompactIsYmd(s);
    }
  }

  function RemoveDashes(s: string): string
  {
    if s == [] then [] else (if s[0] == '-' then [] else [s[0]]) + RemoveDashes(s[1..])
  }

  /** Ten characters, dashes at positions 4 and 7, digits everywhere else. */
  predicate IsIsoShape(s: string)
  {
    |s| == 10 && s[4] == '-' && s[7] == '-' &&
    forall i :: 0 <= i < 10 && i != 4 && i != 7 ==> IsDigit(s[i])
  }

  lemma {:induction false} RemoveDashesConcat(a: string, b: string)
    ensures RemoveDashes(a + b) == RemoveDashes(a) + RemoveDashes(b)
  {
    if a == [] {
      assert a + b == b;
    } else {
      assert (a + b)[1..] == a[1..] + b;
      RemoveDashesConcat(a[1..], b);
    }
  }

  lemma {:induction false} RemoveDashesDigits(s: string)
    requires AllDigits(s)
    ensures RemoveDashes(s) == s
  {
    if s != [] {
      assert IsDigit(s[0]);
      RemoveDashesDigits(s[1..]);
    }
  }

  /** Removing the dashes of a dashed year-month-day text leaves its digits. */
  lemma RemoveDashesIso(y: string, m: string, dd: string)
    requires AllDigits(y) && AllDigits(m) && AllDigits(dd)
    ensures RemoveDashes(y + "-" + m + "-" + dd) == y + m + dd
  {
    var dash := "-";
    assert RemoveDashes(dash) == [] by {
      assert dash[1..] == [];
    }
    RemoveDashesDigits(y);
    RemoveDashesDigits(m);
    RemoveDashesDigits(dd);
    RemoveDashesConcat(y, dash);
    assert RemoveDashes(y + dash) == y;
    RemoveDashesConcat(y + dash, m);
    assert RemoveDashes(y + dash + m) == y + m;
    RemoveDashesConcat(y + dash + m, dash);
    assert RemoveDashes(y + dash + m + dash) == y + m;
    RemoveDashesConcat(y + dash + m + dash, dd);
  }

  lemma IsoShapeOf(y: string, m: string, dd: string)
    requires |y| == 4 && |m| == 2 && |dd| == 2
    requires AllDigits(y) && AllDigits(m) && AllDigits(dd)
    ensures IsIsoShape(y + "-" + m + "-" + dd)
  {
    var iso := y + "-" + m + "-" + dd;
    assert forall i :: 0 <= i < 4 ==> iso[i] == y[i];
    assert forall i :: 5 <= i < 7 ==> iso[i] == m[i - 5];
    assert forall i :: 8 <= i < 10 ==> iso[i] == dd[i - 8];
  }

  /**
   * What the parser accepts is written back as the same year, month and day
   * with two dashes inserted: removing them gives the input again.
   */
  lemma ParseThenFormat(s: string, d: Date)
    requires ParseCompact(s) == Some(d)
    ensures IsValid(d) && Compact(d) == s
    ensures FormatIso(d) == s[..4] + "-" + s[4..6] + "-" + s[6..]
    ensures IsIsoShape(FormatIso(d))
    ensures RemoveDashes(FormatIso(d)) == s
  {
    var y, m, dd := s[..4], s[4..6], s[6..];
    ParsedParts(s, d);
    assert s == y + m + dd;
    IsoShapeOf(y, m, dd);
    RemoveDashesIso(y, m, dd);
  }

  /** An accepted text is three digit groups whose padded values are the parts of the day. */
  lemma ParsedParts(s: string, d: Date)
    requires ParseCompact(s) == Some(d)
    ensures |s| == 8 && AllDigits(s[..4]) && AllDigits(s[4..6]) && AllDigits(s[6..]) && IsValid(d)
    ensures Padded(d.year, 4) == s[..4] && Padded(d.month, 2) == s[4..6] && Padded(d.day, 2) == s[6..]
  {
    PaddedValueOf(s[..4]);
    PaddedValueOf(s[4..6]);
    PaddedValueOf(s[6..]);
  }

  /**
   * Any eight-digit year-month-day text is accepted exactly when it names a
   * valid day, and is then read back unchanged.
   */
  lemma ParseCompactOfCompact(d: Date)
    requires d.year < 10000 && d.month < 100 && d.day < 100
    ensures ParseCompact(Compact(d)) == if IsValid(d) then Some(d) else None
  {
    var s := Compact(d);
    assert Pow10(2) == 100 && Pow10(4) == 10000;
    assert s[..4] == Padded(d.year, 4);
    assert s[4..6] == Padded(d.month, 2);
    assert s[6..] == Padded(d.day, 2);
    ValueOfPadded(d.year, 4);
    ValueOfPadded(d.month, 2);
    ValueOfPadded(d.day, 2);
  }

  /** Every valid day is accepted in its compact form and read back unchanged. */
  lemma FormatThenParse(d: Date)
    requires IsValid(d)
    ensures ParseCompact(Compact(d)) == Some(d)
  {
    ParseCompactOfCompact(d);
  }

  /** Every valid day written compactly is read back by `strptime` rules too. */
  lemma YmdOfCompact(d: Date)
    requires IsValid(d)
    ensures ParseYmd(Compact(d)) == Some(d)
  {
    FormatThenParse(d);
    ParseCompactIsYmd(Compact(d));
  }

  /** On valid days, comparing ISO strings as Python does is chronological order. */
  lemma IsoOrderIsChronological(a: Date, b: Date)
    requires IsValid(a) && IsValid(b)
    ensures StrLess(FormatIso(a), FormatIso(b)) <==> Before(a, b)
  {
    assert Pow10(2) == 100 && Pow10(4) == 10000;
    var ya, ma, da := Padded(a.year, 4), Padded(a.month, 2), Padded(a.day, 2);
    var yb, mb, db := Padded(b.year, 4), Padded(b.month, 2), Padded(b.day, 2);
    assert FormatIso(a) == ya + ("-" + (ma + ("-" + da)));
    assert FormatIso(b) == yb + ("-" + (mb + ("-" + db)));
    StrLessIrreflexive("-");
    StrLessConcat(ya, "-" + (ma + ("-" + da)), yb, "-" + (mb + ("-" + db)));
    StrLessConcat("-", ma + ("-" + da), "-", mb + ("-" + db));
    StrLessConcat(ma, "-" + da, mb, "-" + db);
    StrLessConcat("-", da, "-", db);
    PaddedOrder(a.year, b.year, 4);
    PaddedOrder(a.month, b.month, 2);
    PaddedOrder(a.day, b.day, 2);
    PaddedInjective(a.year, b.year, 4);
    PaddedInjective(a.month, b.month, 2);
  }

  /** The four-digit years of the examples below, digit by digit. */
  lemma ExampleYears()
    ensures Padded(2016, 4) == "2016" && Padded(2017, 4) == "2017"
  {
    assert Padded(2, 1) == "2";
    assert Padded(20, 2) == Padded(2, 1) + "0" == "20";
    assert Padded(201, 3) == Padded(20, 2) + "1" == "201";
    assert Padded(2016, 4) == Padded(201, 3) + "6" == "2016";
    assert Padded(2017, 4) == Padded(201, 3) + "7" == "2017";
  }

  /** The two-digit months and days of the examples below. */
  lemma ExampleMonthsAndDays()
    ensures Padded(2, 2) == "02" && Padded(6, 2) == "06" && Padded(15, 2) == "15" && Padded(29, 2) == "29"
  {
    assert Padded(0, 1) == "0" && Padded(1, 1) == "1" && Padded(2, 1) == "2";
    assert Padded(2, 2) == Padded(0, 1) + "2";
    assert Padded(6, 2) == Padded(0, 1) + "6";
    assert Padded(15, 2) == Padded(1, 1) + "5";
    assert Padded(29, 2) == Padded(2, 1) + "9";
  }

  /** The session date format of the dashboard's sample data. */
  lemma ExampleSessionDate()
    ensures ParseCompact("20170615") == Some(Date(2017, 6, 15))
  {
    ExampleYears();
    ExampleMonthsAndDays();
    assert Compact(Date(2017, 6, 15)) == "2017" + "06" + "15" == "20170615";
    FormatThenParse(Date(2017, 6, 15));
  }

  /** ... which `strptime` rules read the same way ... */
  lemma ExampleSessionYmd()
    ensures ParseYmd("20170615") == Some(Date(2017, 6, 15))
  {
    ExampleSessionDate();
    ParseCompactIsYmd("20170615");
  }

  /** ... and its ISO form, the label the dashboard plots. */
  lemma ExampleSessionIso()
    ensures FormatIso(Date(2017, 6, 15)) == "2017-06-15"
  {
    ExampleYears();
    ExampleMonthsAndDays();
    assert FormatIso(Date(2017, 6, 15)) == "2017" + "-" + "06" + "-" + "15";
  }

  /** 29 February exists in 2016 ... */
  lemma ExampleLeapDay()
    ensures ParseCompact("20160229") == Some(Date(2016, 2, 29))
  {
    ExampleYears();
    ExampleMonthsAndDays();
    assert Compact(Date(2016, 2, 29)) == "2016" + "02" + "29" == "20160229";
    FormatThenParse(Date(2016, 2, 29));
  }

  /** ... but not in 2017. */
  lemma ExampleNoLeapDay()
    ensures ParseCompact("20170229") == None
  {
    ExampleYears();
    ExampleMonthsAndDays();
    assert Compact(Date(2017, 2, 29)) == "2017" + "02" + "29" == "20170229";
    ParseCompactOfCompact(Date(2017, 2, 29));
  }

  /**
   * The calendar check: the century rule of the Gregorian leap year, the
   * thirty-day months, and the two ends of the `Timestamp` range.
   */
  lemma ExampleCalendar()
    ensures !IsValid(Date(1900, 2, 29)) && IsValid(Date(2000, 2, 29))
    ensures !IsValid(Date(2017, 4, 31)) && IsValid(Date(2017, 3, 31))
    ensures !IsValid(Date(1677, 9, 21)) && IsValid(FIRST_DAY)
    ensures IsValid(LAST_DAY) && !IsValid(Date(2262, 4, 12))
  {
  }

  lemma ExampleYearValue()
    ensures AllDigits("2017") && ValueOf("2017") == 2017
  {
    assert "2"[..0] == [] && ValueOf("2") == 2;
    assert "20"[..1] == "2" && ValueOf("20") == 20;
    assert "201"[..2] == "20" && ValueOf("201") == 201;
    assert "2017"[..3] == "201";
  }

  /** A month without its leading zero is read by the one-digit alternative. */
  lemma ExampleShortMonth()
    ensures ParseYmd("2017615") == Some(Date(2017, 6, 15))
  {
    ExampleYearValue();
    assert "2017615"[..4] == "2017";
  }

  /** A day without its leading zero, after a two-digit month. */
  lemma ExampleShortDay()
    ensures ParseYmd("2017061") == Some(Date(2017, 6, 1))
  {
    ExampleYearValue();
    assert "2017061"[..4] == "2017";
  }

  /** Seven digits that could be January 11 or November 1: the two-digit month is tried first. */
  lemma ExampleAmbiguous()
    ensures ParseYmd("2017111") == Some(Date(2017, 11, 1))
  {
    ExampleYearValue();
    assert "2017111"[..4] == "2017";
  }

  /** Text left after the match, or a date with dashes, is refused. */
  lemma ExampleRefused()
    ensures ParseYmd("201706150") == None
    ensures ParseYmd("2017-06-15") == None
  {
  }
}
