/** The civil calendar and the dates of guides (src/capture.rs). */
module CivilDate {
  import opened Strings

  // ---- machine division

  /** Division of signed machine integers: the quotient is truncated toward zero. */
  function Quot(a: int, b: int): int
    requires b > 0
  {
    if a >= 0 then a / b else -((-a) / b)
  }

  datatype Date = Date(year: int, month: int, day: int)

  /** The year of the 400-year era. */
  function YearOfEra(doe: int): int
  {
    Quot(doe - Quot(doe, 1460) + Quot(doe, 36524) - Quot(doe, 146096), 365)
  }

  /** The day of the year, counted from March. */
  function DayOfYear(doe: int, yoe: int): int
  {
    doe - (365 * yoe + Quot(yoe, 4) - Quot(yoe, 100))
  }

  /** Month and day of a day counted from March of year `y`. */
  function DateIn(y: int, doy: int): Date
  {
    var mp := Quot(5 * doy + 2, 153);
    var d := doy - Quot(153 * mp + 2, 5) + 1;
    var m := if mp < 10 then mp + 3 else mp - 9;
    Date(if m <= 2 then y + 1 else y, m, d)
  }

  /** The date of a count of days since 1970-01-01. */
  function CivilFromDays(days: int): Date
  {
    var z := days + 719468;
    var era := Quot(if z >= 0 then z else z - 146096, 146097);
    var doe := z - era * 146097;
    var yoe := YearOfEra(doe);
    DateIn(yoe + era * 400, DayOfYear(doe, yoe))
  }

  // ---- the Gregorian calendar

  predicate IsLeap(year: int)
  {
    year % 4 == 0 && (year % 100 != 0 || year % 400 == 0)
  }

  function MonthLength(year: int, month: int): int
  {
    if month == 2 then (if IsLeap(year) then 29 else 28)
    else if month == 4 || month == 6 || month == 9 || month == 11 then 30
    else 31
  }

  predicate IsDate(d: Date)
  {
    1 <= d.month <= 12 && 1 <= d.day <= MonthLength(d.year, d.month)
  }

  function NextDay(d: Date): Date
  {
    if d.day < MonthLength(d.year, d.month) then d.(day := d.day + 1)
    else if d.month < 12 then Date(d.year, d.month + 1, 1)
    else Date(d.year + 1, 1, 1)
  }

  // ---- the day within its 400-year era, which starts on the first of March

  /** A day of an era: century, four-year cycle, year of the cycle and day of that year. */
  datatype Place = Place(century: int, cycle: int, year: int, day: int)

  /** Only the last year of a cycle can have 366 days, and in the last cycle of a century only in the last century. */
  predicate IsPlace(p: Place)
  {
    && 0 <= p.century < 4 && 0 <= p.cycle < 25 && 0 <= p.year < 4 && 0 <= p.day
    && (p.day <= 364 || (p.day == 365 && p.year == 3 && (p.cycle < 24 || p.century == 3)))
  }

  function YearOf(p: Place): int
  {
    100 * p.century + 4 * p.cycle + p.year
  }

  function DayOfEra(p: Place): int
  {
    36524 * p.century + 1461 * p.cycle + 365 * p.year + p.day
  }

  lemma AtLeastOne(b: int, n: int)
    requires b > 0 && n >= 1
    ensures b * n >= b
  {
    assert b * (n - 1) >= 0;
  }

  lemma Quotient(a: int, b: int, k: int)
    requires b > 0 && b * k <= a < b * k + b
    ensures a / b == k
  {
    var q := a / b;
    assert a == b * q + a % b;
    assert b * (k - q) == b * k - b * q && b * (q - k) == b * q - b * k;
    if q < k {
      AtLeastOne(b, k - q);
    } else if q > k {
      AtLeastOne(b, q - k);
    }
  }

  /** The year formula: the corrections cancel exactly the leap days before the day. */
  lemma YearFormula(p: Place)
    requires IsPlace(p)
    ensures YearOfEra(DayOfEra(p)) == YearOf(p)
  {
    var doe, n := DayOfEra(p), 25 * p.century + p.cycle;
    var last := p == Place(3, 24, 3, 365);
    Quotient(doe, 146096, if last then 1 else 0);
    Quotient(doe, 36524, if last then 4 else p.century);
    var rest := 365 * p.year + 24 * p.century + p.cycle + p.day;
    assert doe == 1460 * n + rest;
    Quotient(doe, 1460, if rest < 1460 then n else n + 1);
    Quotient(doe - doe / 1460 + p.century, 365, YearOf(p));
  }

  /** Every day of an era has a place. */
  lemma PlaceOf(doe: int) returns (p: Place)
    requires 0 <= doe < 146097
    ensures IsPlace(p) && DayOfEra(p) == doe
  {
    var c := if doe == 146096 then 3 else doe / 36524;
    var r := doe - 36524 * c;
    var q := r / 1461;
    var r' := r - 1461 * q;
    var y := if r' == 1460 then 3 else r' / 365;
    p := Place(c, q, y, r' - 365 * y);
  }

  /** The day of the year, counted from March, from the day of the era. */
  lemma DayFormula(p: Place)
    requires IsPlace(p)
    ensures DayOfYear(DayOfEra(p), YearOf(p)) == p.day
  {
    var y := YearOf(p);
    Quotient(y, 4, 25 * p.century + p.cycle);
    Quotient(y, 100, p.century);
  }

  // ---- months

  /** Days before month `mp`, counted from March. */
  function MonthStart(mp: int): int
  {
    (153 * mp + 2) / 5
  }

  function CalendarMonth(mp: int): int
  {
    if mp < 10 then mp + 3 else mp - 9
  }

  // ---- the calendar of all days

  /** Floor division, which the code writes for truncating division. */
  lemma EraFormula(z: int)
    ensures Quot(if z >= 0 then z else z - 146096, 146097) == z / 146097
  {
    if z < 0 {
      var k := z / 146097;
      Quotient(-(z - 146096), 146097, -k);
    }
  }

  /** The date of any day, from its era and its place in it. */
  lemma CivilByPlace(days: int, p: Place)
    requires IsPlace(p) && DayOfEra(p) == (days + 719468) % 146097
    ensures CivilFromDays(days) == DateIn(YearOf(p) + (days + 719468) / 146097 * 400, p.day)
  {
    hide IsPlace, DayOfEra, YearOf, Quot, YearOfEra, DayOfYear, DateIn;
    var z := days + 719468;
    EraFormula(z);
    assert z - (z / 146097) * 146097 == z % 146097;
    YearFormula(p);
    DayFormula(p);
  }

  /** The month formula finds the month a day of the year lies in; months have the lengths of the calendar. */
  lemma MonthFormula(y: int, doy: int)
    requires 0 <= doy <= 365
    ensures var mp := (5 * doy + 2) / 153;
            && 0 <= mp < 12 && MonthStart(mp) <= doy < MonthStart(mp + 1)
            && DateIn(y, doy) == Date(if mp >= 10 then y + 1 else y, CalendarMonth(mp), doy - MonthStart(mp) + 1)
  {
  }

  lemma DayOfYearIsDate(y: int, doy: int)
    requires 0 <= doy <= 365 && (doy == 365 ==> IsLeap(y + 1))
    ensures IsDate(DateIn(y, doy))
  {
    hide IsLeap, DateIn;
    MonthFormula(y, doy);
  }

  /** Within a year the next day has the next date. */
  lemma NextWithinYear(y: int, doy: int)
    requires 0 <= doy < 364 || (doy == 364 && IsLeap(y + 1))
    ensures DateIn(y, doy + 1) == NextDay(DateIn(y, doy))
  {
    hide IsLeap, DateIn;
    MonthFormula(y, doy);
    MonthFormula(y, doy + 1);
  }

  /** The last day of February ends the year. */
  lemma NextAcrossYear(y: int, doy: int)
    requires (doy == 364 && !IsLeap(y + 1)) || (doy == 365 && IsLeap(y + 1))
    ensures DateIn(y + 1, 0) == NextDay(DateIn(y, doy))
  {
    hide IsLeap, DateIn;
    MonthFormula(y, doy);
    MonthFormula(y + 1, 0);
  }

  lemma LeapPlace(era: int, p: Place)
    requires IsPlace(p)
    ensures IsLeap(YearOf(p) + era * 400 + 1) <==> p.year == 3 && (p.cycle < 24 || p.century == 3)
  {
    var y := YearOf(p) + era * 400 + 1;
    Quotient(y, 4, 100 * era + 25 * p.century + p.cycle + if p.year == 3 then 1 else 0);
    Quotient(y, 100, 4 * era + p.century + if p.year == 3 && p.cycle == 24 then 1 else 0);
    Quotient(y, 400, era + if p.year == 3 && p.cycle == 24 && p.century == 3 then 1 else 0);
  }

  /** The place of the next day in the same era. */
  function NextPlace(p: Place): Place
  {
    var lastDay := if p.year == 3 && (p.cycle < 24 || p.century == 3) then 365 else 364;
    if p.day < lastDay then p.(day := p.day + 1)
    else if p.year < 3 then Place(p.century, p.cycle, p.year + 1, 0)
    else if p.cycle < 24 then Place(p.century, p.cycle + 1, 0, 0)
    else Place(p.century + 1, 0, 0, 0)
  }

  lemma NextPlaceIsNext(p: Place)
    requires IsPlace(p) && DayOfEra(p) < 146096
    ensures IsPlace(NextPlace(p)) && DayOfEra(NextPlace(p)) == DayOfEra(p) + 1
    ensures NextPlace(p).day == 0 ==> YearOf(NextPlace(p)) == YearOf(p) + 1
    ensures NextPlace(p).day != 0 ==> YearOf(NextPlace(p)) == YearOf(p) && NextPlace(p).day == p.day + 1
  {
  }

  /** Day 0 is 1970-01-01. */
  lemma Epoch()
    ensures CivilFromDays(0) == Date(1970, 1, 1)
  {
  }

  lemma NextInEra(z: int)
    ensures z % 146097 < 146096 ==> (z + 1) / 146097 == z / 146097 && (z + 1) % 146097 == z % 146097 + 1
    ensures z % 146097 == 146096 ==> (z + 1) / 146097 == z / 146097 + 1 && (z + 1) % 146097 == 0
  {
    var era, doe := z / 146097, z % 146097;
    assert z == 146097 * era + doe;
    Quotient(z + 1, 146097, if doe < 146096 then era else era + 1);
  }

  /** The year and the day of the year of the next place. */
  lemma NextYearAndDay(era: int, p: Place)
    requires IsPlace(p) && DayOfEra(p) < 146096
    ensures var y, n := YearOf(p) + era * 400, NextPlace(p);
            && IsPlace(n) && DayOfEra(n) == DayOfEra(p) + 1
            && (p.day < 364 || (p.day == 364 && IsLeap(y + 1)) ==> YearOf(n) + era * 400 == y && n.day == p.day + 1)
            && (p.day == 365 || (p.day == 364 && !IsLeap(y + 1)) ==> YearOf(n) + era * 400 == y + 1 && n.day == 0)
            && (p.day == 365 ==> IsLeap(y + 1))
  {
    hide IsLeap;
    LeapPlace(era, p);
    NextPlaceIsNext(p);
  }

  lemma DayInYear(p: Place)
    requires IsPlace(p)
    ensures 0 <= p.day <= 365
  {
  }

  lemma LastPlace(p: Place)
    requires IsPlace(p) && DayOfEra(p) == 146096
    ensures p == Place(3, 24, 3, 365) && YearOf(p) == 399
  {
  }

  /** Every day count is a date of the calendar, and the next count is the next date, before and after the epoch. */
  lemma NextDayIsNext(days: int)
    ensures IsDate(CivilFromDays(days))
    ensures CivilFromDays(days + 1) == NextDay(CivilFromDays(days))
  {
    hide DateIn, NextDay, IsDate, IsLeap, CivilFromDays, YearOf, DayOfEra, IsPlace, NextPlace;
    var z := days + 719468;
    var era := z / 146097;
    var p := PlaceOf(z % 146097);
    var y := YearOf(p) + era * 400;
    CivilByPlace(days, p);
    NextInEra(z);
    if DayOfEra(p) < 146096 {
      NextYearAndDay(era, p);
      DayInYear(p);
      DayOfYearIsDate(y, p.day);
      if p.day < 364 || (p.day == 364 && IsLeap(y + 1)) { NextWithinYear(y, p.day); } else { NextAcrossYear(y, p.day); }
      CivilByPlace(days + 1, NextPlace(p));
    } else {
      LastPlace(p);
      LastDayOfEra(era, p);
      DayOfYearIsDate(y, 365);
      NextAcrossYear(y, 365);
      FirstPlace();
      CivilByPlace(days + 1, Place(0, 0, 0, 0));
    }
  }

  lemma LastDayOfEra(era: int, p: Place)
    requires p == Place(3, 24, 3, 365)
    ensures IsLeap(YearOf(p) + era * 400 + 1)
  {
    LeapPlace(era, p);
  }

  lemma FirstPlace()
    ensures IsPlace(Place(0, 0, 0, 0)) && DayOfEra(Place(0, 0, 0, 0)) == 0 && YearOf(Place(0, 0, 0, 0)) == 0
  {
  }

  // ---- dates and their strings in order

  predicate Earlier(a: Date, b: Date)
  {
    a.year < b.year || (a.year == b.year && (a.month < b.month || (a.month == b.month && a.day < b.day)))
  }

  lemma {:induction false} LaterDayLaterDate(a: int, b: int)
    requires a < b
    ensures Earlier(CivilFromDays(a), CivilFromDays(b))
    decreases b - a
  {
    hide CivilFromDays;
    NextDayIsNext(a);
    if a + 1 < b {
      NextDayIsNext(a + 1);
      LaterDayLaterDate(a + 1, b);
    }
  }

  function Digit(n: int): char
    requires 0 <= n < 10
  {
    '0' + n as char
  }

  function Decimal(n: nat): string
  {
    if n < 10 then [Digit(n)] else Decimal(n / 10) + [Digit(n % 10)]
  }

  function ZeroPad(s: string, width: nat): string
    decreases width - |s|
  {
    if |s| < width then ZeroPad("0" + s, width) else s
  }

  /** `{:0width}`. */
  function Padded(n: int, width: nat): string
  {
    if n < 0 then "-" + ZeroPad(Decimal(-n), if width == 0 then 0 else width - 1) else ZeroPad(Decimal(n), width)
  }

  function DateString(d: Date): string
  {
    Padded(d.year, 4) + "-" + Padded(d.month, 2) + "-" + Padded(d.day, 2)
  }

  /** The last `width` decimal digits. */
  function Digits(n: nat, width: nat): (s: string)
    ensures |s| == width
  {
    if width == 0 then "" else Digits(n / 10, width - 1) + [Digit(n % 10)]
  }

  function Power(width: nat): nat
  {
    if width == 0 then 1 else 10 * Power(width - 1)
  }

  lemma {:induction false} PadAppend(s: string, c: char, width: nat)
    requires width > 0
    ensures ZeroPad(s + [c], width) == ZeroPad(s, width - 1) + [c]
    decreases width - |s|
  {
    if |s| + 1 < width {
      PadAppend("0" + s, c, width);
      assert "0" + (s + [c]) == ("0" + s) + [c];
    }
  }

  lemma {:induction false} PaddedIsDigits(n: nat, width: nat)
    requires n < Power(width) && width > 0
    ensures ZeroPad(Decimal(n), width) == Digits(n, width)
    decreases width
  {
    if n < 10 {
      ZeroDigits(width - 1);
      PadAppend("", Digit(n), width);
      assert "" + [Digit(n)] == [Digit(n)];
    } else {
      assert Power(width) == 10 * Power(width - 1);
      assert width > 1 by { assert Power(1) == 10 * Power(0); }
      PaddedIsDigits(n / 10, width - 1);
      PadAppend(Decimal(n / 10), Digit(n % 10), width);
    }
  }

  lemma {:induction false} ZeroDigits(width: nat)
    ensures ZeroPad("", width) == Digits(0, width)
  {
    if width > 0 {
      ZeroDigits(width - 1);
      PadAppend("", '0', width);
      assert "" + ['0'] == "0" + "";
      assert Digit(0) == '0';
    }
  }

  /** Strings of equal length followed by more: the first difference decides. */
  lemma {:induction false} LeConcat(a: string, b: string, c: string, d: string)
    requires |a| == |c|
    ensures Le(a + b, c + d) <==> Lt(a, c) || (a == c && Le(b, d))
  {
    if a == [] {
      assert a + b == b && c + d == d;
    } else {
      LeConcat(a[1..], b, c[1..], d);
      assert (a + b)[1..] == a[1..] + b && (c + d)[1..] == c[1..] + d;
      assert (a + b)[0] == a[0] && (c + d)[0] == c[0];
      assert a == [a[0]] + a[1..] && c == [c[0]] + c[1..];
    }
  }

  lemma {:induction false} DigitsOrder(a: nat, b: nat, width: nat)
    requires a < Power(width) && b < Power(width)
    ensures Le(Digits(a, width), Digits(b, width)) <==> a <= b
    ensures Digits(a, width) == Digits(b, width) <==> a == b
  {
    if width > 0 {
      DigitsOrder(a / 10, b / 10, width - 1);
      var x, y := [Digit(a % 10)], [Digit(b % 10)];
      LeConcat(Digits(a / 10, width - 1), x, Digits(b / 10, width - 1), y);
      assert Le(x, y) <==> a % 10 <= b % 10 by { assert x[1..] == "" && y[1..] == ""; }
      LastDiffers(Digits(a / 10, width - 1), x[0], Digits(b / 10, width - 1), y[0]);
    }
  }

  lemma LastDiffers(a: string, c: char, b: string, d: char)
    requires |a| == |b|
    ensures a + [c] == b + [d] <==> a == b && c == d
  {
    if a + [c] == b + [d] {
      assert (a + [c])[|a|] == c && (b + [d])[|b|] == d;
      assert a == (a + [c])[..|a|] && b == (b + [d])[..|b|];
    }
  }

  /** The string of a date with a year of four digits. */
  lemma DateDigits(d: Date)
    requires IsDate(d) && 0 <= d.year <= 9999
    ensures DateString(d) == Digits(d.year, 4) + ("-" + (Digits(d.month, 2) + ("-" + Digits(d.day, 2))))
    ensures d.year < Power(4) && d.month < Power(2) && d.day < Power(2)
  {
    assert Power(4) == 10000 && Power(2) == 100 by {
      assert Power(0) == 1 && Power(1) == 10 && Power(2) == 100 && Power(3) == 1000;
    }
    PaddedIsDigits(d.year, 4);
    PaddedIsDigits(d.month, 2);
    PaddedIsDigits(d.day, 2);
  }

  /** For years of four digits the order of the strings is the order of the dates. */
  lemma StringsOrderDates(a: Date, b: Date)
    requires IsDate(a) && IsDate(b) && 0 <= a.year <= 9999 && 0 <= b.year <= 9999
    ensures Le(DateString(a), DateString(b)) <==> a == b || Earlier(a, b)
  {
    hide Digits, Power, DateString;
    DateDigits(a);
    DateDigits(b);
    var da, db := Digits(a.day, 2), Digits(b.day, 2);
    var ma, mb := Digits(a.month, 2) + ("-" + da), Digits(b.month, 2) + ("-" + db);
    LeConcat(Digits(a.year, 4), "-" + ma, Digits(b.year, 4), "-" + mb);
    LeConcat("-", ma, "-", mb);
    LeConcat(Digits(a.month, 2), "-" + da, Digits(b.month, 2), "-" + db);
    LeConcat("-", da, "-", db);
    DigitsOrder(a.year, b.year, 4);
    DigitsOrder(a.month, b.month, 2);
    DigitsOrder(a.day, b.day, 2);
  }

  // ---- reading a date

  ghost predicate IsNumeral(s: string)
  {
    s != "" && forall i | 0 <= i < |s| :: '0' <= s[i] <= '9'
  }

  ghost function ValueOf(s: string): nat
    requires IsNumeral(s)
  {
    var last := s[|s| - 1] as int - '0' as int;
    if |s| == 1 then last else 10 * ValueOf(s[..|s| - 1]) + last
  }

  /** `s` is the number in at least `width` characters, its sign among them, and no more zeros than that takes. */
  ghost predicate Writes(s: string, n: int, width: nat)
  {
    |s| >= width && s != ""
    && (n < 0 ==> s[0] == '-')
    && (var t := if n < 0 then s[1..] else s;
        IsNumeral(t) && ValueOf(t) == (if n < 0 then -n else n) && (|s| > width && |t| > 1 ==> t[0] != '0'))
  }

  lemma {:induction false} DecimalReads(n: nat)
    ensures var s := Decimal(n); IsNumeral(s) && ValueOf(s) == n && (|s| > 1 ==> s[0] != '0')
  {
    var s := Decimal(n);
    if n >= 10 {
      DecimalReads(n / 10);
      var front := Decimal(n / 10);
      assert s[..|s| - 1] == front && s[0] == front[0];
      if |front| == 1 { assert front == [Digit(n / 10)]; }
    }
  }

  lemma {:induction false} ZeroInFront(s: string)
    requires IsNumeral(s)
    ensures IsNumeral("0" + s) && ValueOf("0" + s) == ValueOf(s)
  {
    var t := "0" + s;
    if |s| > 1 {
      ZeroInFront(s[..|s| - 1]);
      assert t[..|t| - 1] == "0" + s[..|s| - 1];
    } else {
      assert t[..1] == "0" && ValueOf("0") == 0;
    }
  }

  lemma {:induction false} ZeroPadReads(s: string, width: nat)
    requires IsNumeral(s)
    ensures var t := ZeroPad(s, width);
      IsNumeral(t) && ValueOf(t) == ValueOf(s) && |t| == if |s| < width then width else |s|
    decreases width - |s|
  {
    if |s| < width {
      ZeroInFront(s);
      ZeroPadReads("0" + s, width);
    }
  }

  lemma PaddedReads(n: int, width: nat)
    ensures Writes(Padded(n, width), n, width)
  {
    hide ValueOf;
    var m := if n < 0 then -n else n;
    var room := if n >= 0 then width else if width == 0 then 0 else width - 1;
    DecimalReads(m);
    ZeroPadReads(Decimal(m), room);
    var digits := ZeroPad(Decimal(m), room);
    if n < 0 { assert Padded(n, width)[1..] == digits; }
    assert |digits| > room ==> digits == Decimal(m);
  }

  /** A date reads as year, month and day with dashes between them, for every date, early and late years too. */
  lemma DateReads(d: Date) returns (y: string, m: string, day: string)
    ensures DateString(d) == y + "-" + m + "-" + day
    ensures Writes(y, d.year, 4) && Writes(m, d.month, 2) && Writes(day, d.day, 2)
    ensures IsDate(d) ==> |m| == 2 && |day| == 2
    ensures 0 <= d.year <= 9999 ==> |y| == 4
  {
    hide Writes;
    y, m, day := Padded(d.year, 4), Padded(d.month, 2), Padded(d.day, 2);
    PaddedReads(d.year, 4);
    PaddedReads(d.month, 2);
    PaddedReads(d.day, 2);
    if 0 <= d.year <= 9999 { PaddedWidth(d.year, 4); }
    if IsDate(d) {
      PaddedWidth(d.month, 2);
      PaddedWidth(d.day, 2);
    }
  }

  lemma PaddedWidth(n: nat, width: nat)
    requires width > 0 && n < Power(width)
    ensures |Padded(n, width)| == width
  {
    PaddedIsDigits(n, width);
  }

  /** The string of a day. */
  function DayString(days: int): string
  {
    DateString(CivilFromDays(days))
  }

  predicate InFourDigits(days: int)
  {
    0 <= CivilFromDays(days).year <= 9999
  }

  /** For years of four digits the order of the strings is the order of the days. */
  lemma StringsOrderDays(a: int, b: int)
    ensures InFourDigits(a) && InFourDigits(b) ==> (Le(DayString(a), DayString(b)) <==> a <= b)
  {
    hide CivilFromDays, DateString;
    NextDayIsNext(a);
    NextDayIsNext(b);
    if InFourDigits(a) && InFourDigits(b) {
      StringsOrderDates(CivilFromDays(a), CivilFromDays(b));
    }
    if a < b { LaterDayLaterDate(a, b); }
    if b < a { LaterDayLaterDate(b, a); }
  }

  // ---- stamping guides

  /** The dates of a guide. */
  datatype Dates = Dates(created: string, updated: string)

  function Later(a: string, b: string): string
  {
    if Le(a, b) then b else a
  }

  /** The dates after a stamp: the update date never moves back, and no creation date is left after it. */
  function Stamped(d: Dates, today: string): Dates
  {
    var updated := Later(d.updated, today);
    Dates(if d.created != "" && !Le(d.created, updated) then updated else d.created, updated)
  }

  class Frontmatter {
    var created: string
    var updated: string

    ghost function Now(): Dates
      reads this
    {
      Dates(created, updated)
    }

    constructor (created: string, updated: string)
      ensures Now() == Dates(created, updated)
    {
      this.created, this.updated := created, updated;
    }

    method StampUpdated(today: string)
      modifies this
      ensures Now() == Stamped(old(Now()), today)
    {
      EmptyIsLeast(today);
      LtIsNotGe(today, updated);
      if updated == "" || Le(updated, today) {
        updated := today;
      }
      LtIsNotGe(updated, created);
      EmptyIsLeast(updated);
      if created != "" && Lt(updated, created) {
        created := updated;
      }
    }
  }

  lemma EmptyIsLeast(s: string)
    ensures Le("", s) && (Le(s, "") ==> s == "")
  {
  }

  function StampAll(d: Dates, stamps: seq<string>): Dates
  {
    if stamps == [] then d else Stamped(StampAll(d, stamps[..|stamps| - 1]), stamps[|stamps| - 1])
  }

  /** After any stamps in any order, `updated` is the latest date seen and `created` is not after it. */
  lemma {:induction false} StampsKeepTheLatest(d: Dates, stamps: seq<string>)
    ensures var r := StampAll(d, stamps);
            && (r.updated == d.updated || r.updated in stamps)
            && Le(d.updated, r.updated) && (forall s | s in stamps :: Le(s, r.updated))
            && (stamps != [] ==> Le(r.created, r.updated))
            && (d.created == "" ==> r.created == "")
            && Le(r.created, d.created)
    decreases |stamps|
  {
    hide Le;
    if stamps == [] {
      LeReflexive(d.updated);
      LeReflexive(d.created);
    } else {
      var n := |stamps| - 1;
      var before, today := StampAll(d, stamps[..n]), stamps[n];
      StampsKeepTheLatest(d, stamps[..n]);
      var r := Stamped(before, today);
      StampStep(before, today);
      assert stamps == stamps[..n] + [today];
      LeTransitive(d.updated, before.updated, r.updated);
      forall s | s in stamps ensures Le(s, r.updated) {
        if s != today { LeTransitive(s, before.updated, r.updated); }
      }
      LeTransitive(r.created, before.created, d.created);
    }
  }

  function DayStrings(days: seq<int>): (r: seq<string>)
    ensures |r| == |days| && forall k | 0 <= k < |r| :: r[k] == DayString(days[k])
  {
    seq(|days|, k requires 0 <= k < |days| => DayString(days[k]))
  }

  /**
   * Stamping a guide on days of years of four digits, in any order, leaves the string of the latest of those days,
   * or the date the guide had if that is later.
   */
  lemma StampsKeepTheLatestDay(d: Dates, days: seq<int>, latest: int)
    requires latest in days && forall x | x in days :: InFourDigits(x) && x <= latest
    ensures StampAll(d, DayStrings(days)).updated == Later(d.updated, DayString(latest))
  {
    hide Le, DayString, InFourDigits;
    var stamps, last := DayStrings(days), DayString(latest);
    var r := StampAll(d, stamps);
    StampsKeepTheLatest(d, stamps);
    var i :| 0 <= i < |days| && days[i] == latest;
    assert stamps[i] == last && Le(last, r.updated);
    if r.updated in stamps {
      var k :| 0 <= k < |stamps| && stamps[k] == r.updated;
      assert days[k] in days;
      StringsOrderDays(days[k], latest);
      LeAntisymmetric(r.updated, last);
    } else if Le(d.updated, last) {
      LeAntisymmetric(d.updated, last);
    }
  }

  lemma StampStep(d: Dates, today: string)
    ensures var r := Stamped(d, today);
            && (r.updated == d.updated || r.updated == today) && Le(d.updated, r.updated) && Le(today, r.updated)
            && Le(r.created, r.updated) && Le(r.created, d.created) && (d.created == "" ==> r.created == "")
  {
    LeTotal(d.updated, today);
    LeReflexive(d.updated);
    LeReflexive(today);
    LeReflexive(d.created);
    var updated := Later(d.updated, today);
    LeTotal(d.created, updated);
    LeReflexive(updated);
    EmptyIsLeast(updated);
    EmptyIsLeast(d.created);
  }
}
