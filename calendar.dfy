/** Calendar days as whole numbers. A day is its proleptic Gregorian
    ordinal, as Python's `date.toordinal()` gives it: day 1 is Monday
    0001-01-01, so the weekday depends only on the day modulo 7. Stepping
    `timedelta(days=1)` back is subtracting 1. */
module Calendar {
  import Text

  type Day = int

  /** Python's `isoweekday()`: Monday is 1, Saturday 6, Sunday 7. */
  function IsoWeekday(d: Day): (w: int)
    ensures 1 <= w <= 7
    ensures w % 7 == d % 7
  {
    if d % 7 == 0 then 7 else d % 7
  }

  predicate IsSaturday(d: Day)
  {
    IsoWeekday(d) == 6
  }

  /** `get_last_week_end`: the most recent Saturday on or before `now`,
      reached by stepping `(isoweekday + 1) % 7` days back. */
  function LastWeekEnd(now: Day): (d: Day)
    ensures IsSaturday(d)
    ensures now - 6 <= d <= now
    ensures IsSaturday(now) ==> d == now
  {
    now - (IsoWeekday(now) + 1) % 7
  }

  /** No Saturday lies strictly between the last week end and `now`, so the
      last week end is the latest Saturday not after `now`. */
  lemma LastWeekEndIsLatest(now: Day, d: Day)
    requires IsSaturday(d) && d <= now
    ensures d <= LastWeekEnd(now)
  {
  }

  /** The calendar date (year, month, day of month) of a day number, by
      the days-to-civil conversion over 400-year eras of 146097 days. */
  function Civil(d: Day): (c: (int, int, int))
    ensures 1 <= c.1 <= 12 && 1 <= c.2 <= 31
  {
    var z := d - 719163 + 719468;  // days since 0000-03-01
    FromEraDay(z / 146097, z % 146097)
  }

  /** The date of day `doe` of 400-year era `era`. */
  function FromEraDay(era: int, doe: int): (c: (int, int, int))
    requires 0 <= doe < 146097
    ensures 1 <= c.1 <= 12 && 1 <= c.2 <= 31
  {
    var yoe := YearOfEra(doe);
    var doy := doe - StartOfYear(yoe);
    var mp := MonthOfYear(doy);
    var dom := doy - MonthStart(mp) + 1;
    var month := if mp < 10 then mp + 3 else mp - 9;
    YearOfEraBounds(doe);
    MonthBounds(doy, true);
    (yoe + era * 400 + (if month <= 2 then 1 else 0), month, dom)
  }

  /** The year, counted from March, of day `doe` of a 400-year era. */
  function YearOfEra(doe: int): int
  {
    (doe - doe / 1460 + doe / 36524 - doe / 146096) / 365
  }

  /** The first day of March-year `yoe` within its era. */
  function StartOfYear(yoe: int): int
  {
    365 * yoe + yoe / 4 - yoe / 100
  }

  /** The month, counted from March as 0, of day `doy` of a March-year. */
  function MonthOfYear(doy: int): int
  {
    (5 * doy + 2) / 153
  }

  /** The first day of month `mp` (March is 0) within its March-year. */
  function MonthStart(mp: int): int
  {
    (153 * mp + 2) / 5
  }

  /** `"%0*d" % (width, n)`, with a `-` in front of a negative number. */
  function Padded(n: int, width: nat): (r: string)
    ensures |r| >= width
    ensures forall k :: 0 <= k < |r| ==> r[k] == '-' || '0' <= r[k] <= '9'
  {
    if n < 0 then "-" + Text.ZeroPad(-n, width) else Text.ZeroPad(n, width)
  }

  /** `str(date)`: the ISO form YYYY-MM-DD. */
  function IsoDate(d: Day): (r: string)
    ensures |r| >= 10
    ensures forall k :: 0 <= k < |r| ==> r[k] == '-' || '0' <= r[k] <= '9'
  {
    var (y, m, dom) := Civil(d);
    Padded(y, 4) + "-" + Padded(m, 2) + "-" + Padded(dom, 2)
  }

  // ---------------------------------------------------------------------
  // Python's own day numbering, `date.toordinal`, as the reference.

  predicate IsLeap(y: int)
  {
    y % 4 == 0 && (y % 100 != 0 || y % 400 == 0)
  }

  function DaysInMonth(y: int, m: int): int
    requires 1 <= m <= 12
  {
    match m
    case 2 => if IsLeap(y) then 29 else 28
    case 4 | 6 | 9 | 11 => 30
    case _ => 31
  }

  predicate ValidDate(y: int, m: int, d: int)
  {
    1 <= m <= 12 && 1 <= d <= DaysInMonth(y, m)
  }

  function DaysBeforeYear(y: int): int
  {
    var y1 := y - 1;
    y1 * 365 + y1 / 4 - y1 / 100 + y1 / 400
  }

  function DaysBeforeMonth(y: int, m: int): int
    requires 1 <= m <= 12
  {
    var before := match m
      case 1 => 0 case 2 => 31 case 3 => 59 case 4 => 90 case 5 => 120 case 6 => 151
      case 7 => 181 case 8 => 212 case 9 => 243 case 10 => 273 case 11 => 304 case _ => 334;
    before + (if m > 2 && IsLeap(y) then 1 else 0)
  }

  /** `date(y, m, d).toordinal()`: day 1 is 0001-01-01. */
  function Ordinal(y: int, m: int, d: int): int
    requires ValidDate(y, m, d)
  {
    DaysBeforeYear(y) + DaysBeforeMonth(y, m) + d
  }

  // ---------------------------------------------------------------------
  // The era arithmetic.

  /** The days of the month `mp` (March is 0), with a 29-day February
      when `leap`. */
  function MarchMonthLength(mp: int, leap: bool): int
    requires 0 <= mp <= 11
  {
    match mp
    case 11 => if leap then 29 else 28
    case 1 | 3 | 6 | 8 => 30
    case _ => 31
  }

  lemma LeapParts(c: int, q: int, r: int)
    requires 0 <= c <= 3 && 0 <= q <= 24 && 0 <= r <= 3
    ensures IsLeap(100 * c + 4 * q + r + 1) <==> r == 3 && (q != 24 || c == 3)
  {
    var y1 := 100 * c + 4 * q + r + 1;
    if r == 3 {
      assert y1 == 100 * c + 4 * (q + 1);
      assert y1 % 4 == 0;
      if q == 24 {
        assert y1 == 100 * (c + 1);
        assert y1 % 100 == 0;
      } else {
        assert y1 % 100 == 4 * (q + 1);
      }
    } else {
      assert y1 % 4 == r + 1;
    }
  }

  lemma StartParts(c: int, q: int, r: int)
    requires 0 <= c <= 3 && 0 <= q <= 24 && 0 <= r <= 3
    ensures StartOfYear(100 * c + 4 * q + r) == 36524 * c + 1461 * q + 365 * r
  {
  }

  lemma YearParts(c: int, q: int, r: int, doy: int, doe: int)
    requires 0 <= c <= 3 && 0 <= q <= 24 && 0 <= r <= 3
    requires 0 <= doy < 365 + (if r == 3 && (q != 24 || c == 3) then 1 else 0)
    requires doe == 36524 * c + 1461 * q + 365 * r + doy
    ensures YearOfEra(doe) == 100 * c + 4 * q + r
  {
    var last := c == 3 && q == 24 && r == 3 && doy == 365;
    var rest := 24 * c + q + 365 * r + doy;
    assert 0 <= rest < 2 * 1460;
    assert doe == 1460 * (25 * c + q) + rest;
    assert doe / 1460 == 25 * c + q + rest / 1460;
    assert doe / 36524 == if last then 4 else c;
    assert doe / 146096 == if last then 1 else 0;
    var yoe := 100 * c + 4 * q + r;
    var n := doe - doe / 1460 + doe / 36524 - doe / 146096;
    assert n == 365 * yoe + doy - rest / 1460;
    if r < 3 {
      assert rest / 1460 == 0;
    } else {
      assert rest / 1460 == if doy >= 365 - 24 * c - q then 1 else 0;
    }
    assert 365 * yoe <= n < 365 * yoe + 365;
    assert n / 365 == yoe;
    assert YearOfEra(doe) == n / 365;
  }

  /** Reading the year back from a day of it gives the year. */
  lemma YearOfEraOf(yoe: int, doy: int, doe: int)
    requires 0 <= yoe <= 399
    requires 0 <= doy < 365 + (if IsLeap(yoe + 1) then 1 else 0)
    requires doe == StartOfYear(yoe) + doy
    ensures YearOfEra(doe) == yoe
  {
    var c, q, r := yoe / 100, yoe % 100 / 4, yoe % 4;
    assert yoe == 100 * c + 4 * q + r;
    StartParts(c, q, r);
    LeapParts(c, q, r);
    YearParts(c, q, r, doy, doe);
  }

  /** Every day of an era lies in a year of the era, within that year's
      length. */
  lemma YearOfEraBounds(doe: int)
    requires 0 <= doe < 146097
    ensures var yoe := YearOfEra(doe); var doy := doe - StartOfYear(yoe);
      && 0 <= yoe <= 399
      && 0 <= doy < 365 + (if IsLeap(yoe + 1) then 1 else 0)
  {
    var c, q, r, doy := EraDecompose(doe);
    LeapParts(c, q, r);
    StartParts(c, q, r);
    YearParts(c, q, r, doy, doe);
    var yoe := 100 * c + 4 * q + r;
    assert doe - StartOfYear(yoe) == doy;
  }

  /** A day of an era splits into centuries of 36524 days, four-year
      cycles of 1461 days, years of 365 days and a day of the year. */
  lemma EraDecompose(doe: int) returns (c: int, q: int, r: int, doy: int)
    requires 0 <= doe < 146097
    ensures 0 <= c <= 3 && 0 <= q <= 24 && 0 <= r <= 3
    ensures 0 <= doy < 365 + (if r == 3 && (q != 24 || c == 3) then 1 else 0)
    ensures doe == 36524 * c + 1461 * q + 365 * r + doy
  {
    c := if doe / 36524 < 3 then doe / 36524 else 3;
    var t := doe - 36524 * c;
    assert 0 <= t <= 36524;
    q := if t / 1461 < 24 then t / 1461 else 24;
    var u := t - 1461 * q;
    assert 0 <= u <= 1460;
    r := if u / 365 < 3 then u / 365 else 3;
    doy := u - 365 * r;
  }

  /** A day of a March-year lies in month `MonthOfYear` of it, within that
      month's length. */
  lemma MonthBounds(doy: int, leap: bool)
    requires 0 <= doy < 365 + (if leap then 1 else 0)
    ensures var mp := MonthOfYear(doy);
      && 0 <= mp <= 11
      && 1 <= doy - MonthStart(mp) + 1 <= MarchMonthLength(mp, leap)
  {
    var mp := MonthOfYear(doy);
    assert 0 <= mp <= 11;
    if mp == 0 { assert MonthStart(mp) == 0; }
    else if mp == 1 { assert MonthStart(mp) == 31; }
    else if mp == 2 { assert MonthStart(mp) == 61; }
    else if mp == 3 { assert MonthStart(mp) == 92; }
    else if mp == 4 { assert MonthStart(mp) == 122; }
    else if mp == 5 { assert MonthStart(mp) == 153; }
    else if mp == 6 { assert MonthStart(mp) == 184; }
    else if mp == 7 { assert MonthStart(mp) == 214; }
    else if mp == 8 { assert MonthStart(mp) == 245; }
    else if mp == 9 { assert MonthStart(mp) == 275; }
    else if mp == 10 { assert MonthStart(mp) == 306; }
    else { assert MonthStart(mp) == 337; }
  }

  /** Reading the month back from a day of it gives the month. */
  lemma MonthOfStart(mp: int, dom: int, leap: bool, doy: int)
    requires 0 <= mp <= 11 && 1 <= dom <= MarchMonthLength(mp, leap)
    requires doy == MonthStart(mp) + dom - 1
    ensures MonthOfYear(doy) == mp
    ensures 0 <= doy < 365 + (if leap then 1 else 0)
  {
  }

  /** The days from 0000-03-01 to March 1st of year `y`. */
  function MarchStart(y: int): int
  {
    365 * y + y / 4 - y / 100 + y / 400
  }

  /** The year a date's March-year begins in: January and February
      belong to the year before. */
  function MarchYear(y: int, m: int): int
  {
    if m <= 2 then y - 1 else y
  }

  /** Month `m` counted from March as 0. */
  function MarchMonth(m: int): int
  {
    if m > 2 then m - 3 else m + 9
  }

  /** A year's March start is its era's start plus the year's start
      within the era. */
  lemma EraSplit(y: int)
    ensures MarchStart(y) == 146097 * (y / 400) + StartOfYear(y % 400)
  {
    var e, t := y / 400, y % 400;
    assert y == 400 * e + t;
    assert y / 4 == 100 * e + t / 4;
    assert y / 100 == 4 * e + t / 100;
  }

  /** Leap years repeat every 400 years. */
  lemma LeapPeriod(y: int)
    ensures IsLeap(y + 1) <==> IsLeap(y % 400 + 1)
  {
    var e, t := y / 400, y % 400;
    ModShift(4, 100 * e, t + 1, y + 1);
    ModShift(100, 4 * e, t + 1, y + 1);
    ModShift(400, e, t + 1, y + 1);
  }

  lemma ModShift(k: int, q: int, x: int, v: int)
    requires k in {4, 100, 400} && v == k * q + x
    ensures v % k == x % k
  {
    if k == 4 {
      Mod4(q, x, v);
    } else if k == 100 {
      Mod100(q, x, v);
    } else {
      Mod400(q, x, v);
    }
  }

  lemma Mod4(q: int, x: int, v: int)
    requires v == 4 * q + x
    ensures v % 4 == x % 4
  {
    assert v == 4 * (q + x / 4) + x % 4;
  }

  lemma Mod100(q: int, x: int, v: int)
    requires v == 100 * q + x
    ensures v % 100 == x % 100
  {
    assert v == 100 * (q + x / 100) + x % 100;
  }

  lemma Mod400(q: int, x: int, v: int)
    requires v == 400 * q + x
    ensures v % 400 == x % 400
  {
    assert v == 400 * (q + x / 400) + x % 400;
  }

  /** A year adds 365 days, and one more when it is a leap year. */
  lemma YearStep(y: int)
    ensures MarchStart(y) == DaysBeforeYear(y) + 365 + (if IsLeap(y) then 1 else 0)
  {
    var y1 := y - 1;
    assert y / 4 == y1 / 4 + (if y % 4 == 0 then 1 else 0);
    assert y / 100 == y1 / 100 + (if y % 100 == 0 then 1 else 0);
    assert y / 400 == y1 / 400 + (if y % 400 == 0 then 1 else 0);
  }

  /** A month's days in the March-first count are its days in the
      calendar. */
  lemma MonthLength(y: int, m: int)
    requires 1 <= m <= 12
    ensures DaysInMonth(y, m) == MarchMonthLength(MarchMonth(m), IsLeap(y))
  {
  }

  /** Python's ordinal, moved to count from 0000-03-01, is the March start
      of the date's March-year plus the day within it. */
  lemma OrdinalShift(y: int, m: int, d: int)
    requires ValidDate(y, m, d)
    ensures Ordinal(y, m, d) + 305 == MarchStart(MarchYear(y, m)) + MonthStart(MarchMonth(m)) + d - 1
  {
    if m > 2 {
      YearStep(y);
      assert DaysBeforeMonth(y, m) + 305 == 364 + (if IsLeap(y) then 1 else 0) + MonthStart(m - 3);
    } else {
      assert MarchStart(y - 1) == DaysBeforeYear(y);
    }
  }

  lemma Div400(e: int, t: int, y: int)
    requires 0 <= t < 400 && y == t + e * 400
    ensures y / 400 == e && y % 400 == t
  {
  }

  lemma Div146097(e: int, t: int, z: int)
    requires 0 <= t < 146097 && z == 146097 * e + t
    ensures z / 146097 == e && z % 146097 == t
  {
  }

  /** Month `mp` (March is 0) as a calendar month. */
  function CalendarMonth(mp: int): int
  {
    if mp < 10 then mp + 3 else mp - 9
  }

  /** Day `dom` of month `mp` of March-year `yoe` of an era reads back as
      that date. */
  lemma FromEraDayOf(era: int, yoe: int, mp: int, dom: int, doe: int)
    requires 0 <= yoe <= 399 && 0 <= mp <= 11
    requires 1 <= dom <= MarchMonthLength(mp, IsLeap(yoe + 1))
    requires doe == StartOfYear(yoe) + MonthStart(mp) + dom - 1
    ensures 0 <= doe < 146097
    ensures FromEraDay(era, doe).2 == dom
    ensures FromEraDay(era, doe).1 == CalendarMonth(mp)
    ensures FromEraDay(era, doe).0 == yoe + era * 400 + (if mp >= 10 then 1 else 0)
  {
    var doy := MonthStart(mp) + dom - 1;
    MonthOfStart(mp, dom, IsLeap(yoe + 1), doy);
    YearOfEraOf(yoe, doy, doe);
    var month := if mp < 10 then mp + 3 else mp - 9;
    assert month <= 2 <==> mp >= 10;
  }

  /** A day number is its era's start plus its day in the era. */
  lemma CivilOfEraDay(n: Day, era: int, doe: int)
    requires 0 <= doe < 146097 && n - 719163 + 719468 == 146097 * era + doe
    ensures Civil(n) == FromEraDay(era, doe)
  {
    Div146097(era, doe, n - 719163 + 719468);
  }

  /** The conversion gives the date of the parts a day number is made of. */
  lemma CivilOfParts(n: Day, era: int, yoe: int, mp: int, dom: int)
    requires 0 <= yoe <= 399 && 0 <= mp <= 11
    requires 1 <= dom <= MarchMonthLength(mp, IsLeap(yoe + 1))
    requires n - 719163 + 719468 == 146097 * era + StartOfYear(yoe) + MonthStart(mp) + dom - 1
    ensures Civil(n) == (yoe + era * 400 + (if mp >= 10 then 1 else 0), CalendarMonth(mp), dom)
  {
    var doe := StartOfYear(yoe) + MonthStart(mp) + dom - 1;
    FromEraDayOf(era, yoe, mp, dom, doe);
    CivilOfEraDay(n, era, doe);
    var c := FromEraDay(era, doe);
    assert c == (c.0, c.1, c.2);
  }

  /** The date made of those parts is valid, and its ordinal is the day
      number they make. */
  lemma OrdinalOfParts(era: int, yoe: int, mp: int, dom: int)
    requires 0 <= yoe <= 399 && 0 <= mp <= 11
    requires 1 <= dom <= MarchMonthLength(mp, IsLeap(yoe + 1))
    ensures var y := yoe + era * 400 + (if mp >= 10 then 1 else 0);
      && ValidDate(y, CalendarMonth(mp), dom)
      && Ordinal(y, CalendarMonth(mp), dom) - 719163 + 719468
        == 146097 * era + StartOfYear(yoe) + MonthStart(mp) + dom - 1
  {
    var year := yoe + era * 400;
    var y, m := year + (if mp >= 10 then 1 else 0), CalendarMonth(mp);
    Div400(era, yoe, year);
    LeapPeriod(year);
    MonthLength(y, m);
    assert MarchMonth(m) == mp && MarchYear(y, m) == year;
    assert mp == 11 ==> y == year + 1;
    assert ValidDate(y, m, dom);
    OrdinalShift(y, m, dom);
    EraSplit(year);
  }

  /** The conversion reads every date's ordinal back as that date. */
  lemma CivilOfOrdinal(y: int, m: int, d: int)
    requires ValidDate(y, m, d)
    ensures Civil(Ordinal(y, m, d)) == (y, m, d)
  {
    var era, yoe, mp := DateSplit(y, m, d);
    OrdinalOfParts(era, yoe, mp, d);
    CivilOfParts(Ordinal(y, m, d), era, yoe, mp, d);
  }

  /** Every valid date is a day of a month of a March-year of an era. */
  lemma DateSplit(y: int, m: int, d: int) returns (era: int, yoe: int, mp: int)
    requires ValidDate(y, m, d)
    ensures 0 <= yoe <= 399 && 0 <= mp <= 11
    ensures 1 <= d <= MarchMonthLength(mp, IsLeap(yoe + 1))
    ensures y == yoe + era * 400 + (if mp >= 10 then 1 else 0) && m == CalendarMonth(mp)
  {
    var year := MarchYear(y, m);
    mp := MarchMonth(m);
    era, yoe := year / 400, year % 400;
    MonthLength(y, m);
    LeapPeriod(year);
    assert mp == 11 ==> year + 1 == y;
  }

  /** Every day number is the ordinal of the valid date the conversion
      gives. */
  lemma OrdinalOfCivil(n: Day)
    ensures var c := Civil(n); ValidDate(c.0, c.1, c.2) && Ordinal(c.0, c.1, c.2) == n
  {
    var era, yoe, mp, dom := CivilSplit(n);
    CivilOfParts(n, era, yoe, mp, dom);
    OrdinalOfParts(era, yoe, mp, dom);
  }

  /** Every day number is made of an era, a March-year of it, a month of
      that year and a day of that month. */
  lemma CivilSplit(n: Day) returns (era: int, yoe: int, mp: int, dom: int)
    ensures 0 <= yoe <= 399 && 0 <= mp <= 11
    ensures 1 <= dom <= MarchMonthLength(mp, IsLeap(yoe + 1))
    ensures n - 719163 + 719468 == 146097 * era + StartOfYear(yoe) + MonthStart(mp) + dom - 1
  {
    var z := n - 719163 + 719468;
    var doe := z % 146097;
    era := z / 146097;
    YearOfEraBounds(doe);
    yoe := YearOfEra(doe);
    var doy := doe - StartOfYear(yoe);
    MonthBounds(doy, IsLeap(yoe + 1));
    mp := MonthOfYear(doy);
    dom := doy - MonthStart(mp) + 1;
  }

  // ---------------------------------------------------------------------
  // The ISO text reads back as the date.

  /** `int` of a padded number is the number; the text is `width` long
      when the number fits. */
  lemma PaddedValue(n: int, width: nat)
    requires width >= 1 && 0 <= n < Text.Pow10(width)
    ensures |Padded(n, width)| == width
    ensures Text.AllDigits(Padded(n, width)) && Text.DecimalValue(Padded(n, width)) == n
  {
    Text.ZeroPadValue(n, width);
    Text.NatToStringLength(n, width);
  }

  /** For a year Python can represent (1 to 9999), `str(date)` is exactly
      `YYYY-MM-DD`, and its three fields read back as the year, month and
      day the conversion gives. */
  lemma IsoDateFields(d: Day)
    requires 1 <= Civil(d).0 <= 9999
    ensures var r := IsoDate(d); var c := Civil(d);
      && |r| == 10 && r[4] == '-' && r[7] == '-'
      && Text.AllDigits(r[..4]) && Text.DecimalValue(r[..4]) == c.0
      && Text.AllDigits(r[5..7]) && Text.DecimalValue(r[5..7]) == c.1
      && Text.AllDigits(r[8..]) && Text.DecimalValue(r[8..]) == c.2
  {
    var c := Civil(d);
    assert Text.Pow10(2) == 100 && Text.Pow10(4) == 10000;
    PaddedValue(c.0, 4);
    PaddedValue(c.1, 2);
    PaddedValue(c.2, 2);
    DashFields(Padded(c.0, 4), Padded(c.1, 2), Padded(c.2, 2), IsoDate(d));
  }

  /** The three fields of `a-b-c` with fields of 4, 2 and 2 characters. */
  lemma DashFields(a: string, b: string, c: string, r: string)
    requires |a| == 4 && |b| == 2 && |c| == 2 && r == a + "-" + b + "-" + c
    ensures |r| == 10 && r[4] == '-' && r[7] == '-'
    ensures r[..4] == a && r[5..7] == b && r[8..] == c
  {
  }
}
