/**
The proleptic Gregorian calendar arithmetic behind every timestamp the console emits:
`civil_from_unix_days` and `rfc3339_utc` (crates/hyperion-console/src/a2a.rs).

The source turns a day count into a date with integer divisions only.  The reference here is the
calendar itself: month lengths (RFC 3339 section 5.7), the leap-year rule (RFC 3339 Appendix C)
and a day count that adds up whole years and whole months.
*/
module Calendar {
  import opened Common
  import opened Numerals

  datatype Date = Date(year: int, month: nat, day: nat)

  // ----- The calendar -----

  predicate IsLeap(y: int) {
    y % 4 == 0 && (y % 100 != 0 || y % 400 == 0)
  }

  function DaysInMonth(y: int, m: nat): nat {
    if m == 2 then (if IsLeap(y) then 29 else 28)
    else if m == 4 || m == 6 || m == 9 || m == 11 then 30
    else 31
  }

  predicate ValidDate(c: Date) {
    1 <= c.month <= 12 && 1 <= c.day <= DaysInMonth(c.year, c.month)
  }

  /** The day after `c`. */
  function NextDate(c: Date): Date {
    if c.day < DaysInMonth(c.year, c.month) then c.(day := c.day + 1)
    else if c.month < 12 then Date(c.year, c.month + 1, 1)
    else Date(c.year + 1, 1, 1)
  }

  /** Days from 0001-01-01 to the first day of year `y`. */
  function DaysBeforeYear(y: int): int {
    365 * (y - 1) + (y - 1) / 4 - (y - 1) / 100 + (y - 1) / 400
  }

  /** Days from the first day of year `y` to the first day of its month `m`. */
  function DaysBeforeMonth(y: int, m: nat): nat {
    if m <= 1 then 0 else DaysBeforeMonth(y, m - 1) + DaysInMonth(y, m - 1)
  }

  /** Days from 1970-01-01 to `c`. */
  function DayNumber(c: Date): int
    requires 1 <= c.month && 1 <= c.day
  {
    DaysBeforeYear(c.year) + DaysBeforeMonth(c.year, c.month) + c.day - 1 - DaysBeforeYear(1970)
  }

  // ----- The source's conversion -----

  /** Rust's `/` on signed integers: rounds toward zero. */
  function TruncDiv(a: int, b: int): int
    requires b > 0
  {
    if a >= 0 then a / b else -((-a) / b)
  }


  /** The 400-year era (counted from 1 March of year 0) holding a day, by truncating division. */
  function EraOf(shifted: int): int {
    TruncDiv(if shifted >= 0 then shifted else shifted - 146_096, 146_097)
  }

  /** The compensated truncating division is the floor. */
  lemma EraIsFloor(shifted: int)
    ensures EraOf(shifted) == shifted / 146_097
  {}

  /** `yoe` in the source; the `nat` results also state that no unsigned subtraction underflows. */
  function YearOfEra(doe: nat): nat
    requires doe < 146_097
  {
    (doe - doe / 1460 + doe / 36_524 - doe / 146_096) / 365
  }

  function DaysBeforeYearOfEra(yoe: nat): nat {
    365 * yoe + yoe / 4 - yoe / 100
  }

  function DayOfYear(doe: nat): (doy: nat)
    requires doe < 146_097
    ensures doy <= 365
  {
    YearOfEraBounds(doe);
    doe - DaysBeforeYearOfEra(YearOfEra(doe))
  }

  /** Month counted from March (0) to February (11). */
  function MonthFromMarch(doy: nat): (mp: nat)
    requires doy <= 365
    ensures mp <= 11
  {
    (5 * doy + 2) / 153
  }

  /** The date `doy` days after 1 March of year `y`. */
  function FromMarch(y: int, doy: nat): Date
    requires doy <= 365
  {
    var mp := MonthFromMarch(doy);
    var d: nat := doy - (153 * mp + 2) / 5 + 1;
    var m: nat := if mp < 10 then mp + 3 else mp - 9;
    Date(if m <= 2 then y + 1 else y, m, d)
  }

  function DayOfEra(shifted: int): (doe: nat)
    ensures doe < 146_097
  {
    EraIsFloor(shifted);
    shifted - EraOf(shifted) * 146_097
  }

  function CivilFromUnixDays(z: int): Date {
    var shifted := z + 719_468;
    var doe := DayOfEra(shifted);
    FromMarch(YearOfEra(doe) + EraOf(shifted) * 400, DayOfYear(doe))
  }

  // ----- The year of an era: 100 q + 4 k + j -----

  /** A day of the era split along centuries, four-year cycles and years. */
  ghost predicate SplitsAs(doe: nat, q: nat, k: nat, j: nat, i: nat) {
    && q <= 3 && k <= 24 && j <= 3 && i <= 365
    && doe == 36_524 * q + 1461 * k + 365 * j + i
    && (i == 365 ==> j == 3 && (k < 24 || q == 3))
  }

  lemma SplitExists(doe: nat) returns (q: nat, k: nat, j: nat, i: nat)
    requires doe < 146_097
    ensures SplitsAs(doe, q, k, j, i)
  {
    q := if doe / 36_524 <= 3 then doe / 36_524 else 3;
    var r := doe - 36_524 * q;
    k := r / 1461;
    var s := r - 1461 * k;
    j := if s / 365 <= 3 then s / 365 else 3;
    i := s - 365 * j;
  }

  lemma YearOfSplit(doe: nat, q: nat, k: nat, j: nat, i: nat)
    requires doe < 146_097 && SplitsAs(doe, q, k, j, i)
    ensures YearOfEra(doe) == 100 * q + 4 * k + j
    ensures DaysBeforeYearOfEra(YearOfEra(doe)) == doe - i
  {
    var y := 100 * q + 4 * k + j;
    var rest := 24 * q + k + 365 * j + i;
    var e := rest / 1460;
    DivUnique(y, 4, 25 * q + k, j);
    DivUnique(y, 100, q, 4 * k + j);
    DivUnique(doe, 1460, 25 * q + k + e, rest - 1460 * e);
    CenturyCorrection(doe, q, k, j, i);
    DivUnique(365 * y + (i - e), 365, y, i - e);
  }

  lemma CenturyCorrection(doe: nat, q: nat, k: nat, j: nat, i: nat)
    requires doe < 146_097 && SplitsAs(doe, q, k, j, i)
    ensures doe / 36_524 - doe / 146_096 == q
  {
    if doe < 146_096 {
      DivUnique(doe, 36_524, q, doe - 36_524 * q);
    }
  }

  /** The source's year formula picks the March-based year holding the day. */
  lemma YearOfEraBounds(doe: nat)
    requires doe < 146_097
    ensures YearOfEra(doe) < 400
    ensures 0 <= doe - DaysBeforeYearOfEra(YearOfEra(doe)) <= 365
    ensures doe - DaysBeforeYearOfEra(YearOfEra(doe)) == 365 ==> IsLeap(YearOfEra(doe) + 1)
  {
    hide YearOfEra, DaysBeforeYearOfEra;
    var q, k, j, i := SplitExists(doe);
    YearOfSplit(doe, q, k, j, i);
    if i == 365 {
      LeapDayClosesCycle(q, k);
    }
  }

  /** A 366th day falls at the end of a four-year cycle that is not a century, or is the fourth one. */
  lemma LeapDayClosesCycle(q: nat, k: nat)
    requires q <= 3 && k <= 24 && (k == 24 ==> q == 3)
    ensures IsLeap(100 * q + 4 * k + 4)
  {
    var next := 100 * q + 4 * k + 4;
    assert next % 4 == 0 by { assert next == 4 * (25 * q + k + 1); }
    if k == 24 {
      assert next == 400;
    } else {
      assert next % 100 == 4 * k + 4 by { assert next == 100 * q + (4 * k + 4); }
    }
  }

  // ----- Counting days -----

  lemma MonthOffsets(y: int)
    ensures forall m | 3 <= m <= 12 ::
      DaysBeforeMonth(y, m) == (if IsLeap(y) then 60 else 59) + (153 * (m - 3) + 2) / 5
    ensures DaysBeforeMonth(y, 1) == 0 && DaysBeforeMonth(y, 2) == 31
  {
    assert DaysBeforeMonth(y, 2) == 31;
    assert DaysBeforeMonth(y, 3) == (if IsLeap(y) then 60 else 59);
    assert DaysBeforeMonth(y, 5) == DaysBeforeMonth(y, 3) + 61;
    assert DaysBeforeMonth(y, 7) == DaysBeforeMonth(y, 5) + 61;
    assert DaysBeforeMonth(y, 9) == DaysBeforeMonth(y, 7) + 62;
    assert DaysBeforeMonth(y, 11) == DaysBeforeMonth(y, 9) + 61;
    assert DaysBeforeMonth(y, 12) == DaysBeforeMonth(y, 11) + 30;
  }

  lemma YearLength(y: int)
    ensures DaysBeforeYear(y + 1) == DaysBeforeYear(y) + (if IsLeap(y) then 366 else 365)
  {
    DivStep(y, 4);
    DivStep(y, 100);
    DivStep(y, 400);
  }

  lemma DivStep(y: int, n: int)
    requires n > 1
    ensures y / n == (y - 1) / n + (if y % n == 0 then 1 else 0)
  {
    var q, r := y / n, y % n;
    if r == 0 {
      assert y - 1 == (q - 1) * n + (n - 1);
      DivUnique(y - 1, n, q - 1, n - 1);
    } else {
      assert y - 1 == q * n + (r - 1);
      DivUnique(y - 1, n, q, r - 1);
    }
  }

  // ----- The conversion is the calendar -----

  lemma DayNumberFromMarch(y: int, doy: nat, z: int)
    requires doy <= 365 && (doy == 365 ==> IsLeap(y + 1))
    requires DaysBeforeYear(y + 1) + doy == z + 719_468
    ensures ValidDate(FromMarch(y, doy))
    ensures DayNumber(FromMarch(y, doy)) == z
  {
    MonthOffsets(y);
    MonthOffsets(y + 1);
    YearLength(y);
  }

  lemma MarchYearOfEra(doe: nat, era: int)
    requires doe < 146_097
    ensures
      var y := YearOfEra(doe) + era * 400;
      && (DayOfYear(doe) == 365 ==> IsLeap(y + 1))
      && DaysBeforeYear(y + 1) + DayOfYear(doe) == era * 146_097 + doe
  {
    var yoe := YearOfEra(doe);
    YearOfEraBounds(doe);
    assert DayOfYear(doe) == doe - DaysBeforeYearOfEra(yoe);
    LeapByEra(yoe + 1, era);
    DaysBeforeByEra(yoe, era);
    assert yoe + 1 + era * 400 == yoe + era * 400 + 1;
  }

  /** Every result is a date that exists, and the conversion inverts the day count. */
  lemma CivilCountsBack(z: int)
    ensures ValidDate(CivilFromUnixDays(z))
    ensures DayNumber(CivilFromUnixDays(z)) == z
  {
    var doe, era := DayOfEra(z + 719_468), EraOf(z + 719_468);
    MarchYearOfEra(doe, era);
    DayNumberFromMarch(YearOfEra(doe) + era * 400, DayOfYear(doe), z);
  }

  lemma ShiftDivMod(a: int, k: int, n: int)
    requires n > 0
    ensures (a + k * n) / n == a / n + k && (a + k * n) % n == a % n
  {
    assert (a / n + k) * n == (a / n) * n + k * n;
    DivUnique(a + k * n, n, a / n + k, a % n);
  }

  lemma LeapByEra(yoe: int, era: int)
    ensures IsLeap(yoe + era * 400) == IsLeap(yoe)
  {
    ShiftDivMod(yoe, 100 * era, 4);
    ShiftDivMod(yoe, 4 * era, 100);
    ShiftDivMod(yoe, era, 400);
  }

  lemma DaysBeforeByEra(yoe: nat, era: int)
    requires yoe < 400
    ensures DaysBeforeYear(yoe + era * 400 + 1) == era * 146_097 + DaysBeforeYearOfEra(yoe)
  {
    ShiftDivMod(yoe, 100 * era, 4);
    ShiftDivMod(yoe, 4 * era, 100);
    ShiftDivMod(yoe, era, 400);
  }

  predicate Before(a: Date, b: Date) {
    || a.year < b.year
    || (a.year == b.year && a.month < b.month)
    || (a.year == b.year && a.month == b.month && a.day < b.day)
  }

  lemma {:induction false} YearsIncrease(y1: int, y2: int)
    requires y1 <= y2
    ensures DaysBeforeYear(y2) >= DaysBeforeYear(y1) + 365 * (y2 - y1)
    decreases y2 - y1
  {
    if y1 < y2 {
      YearLength(y1);
      YearsIncrease(y1 + 1, y2);
    }
  }

  lemma {:induction false} MonthsIncrease(y: int, m1: nat, m2: nat)
    requires 1 <= m1 < m2
    ensures DaysBeforeMonth(y, m2) >= DaysBeforeMonth(y, m1) + DaysInMonth(y, m1)
  {
    if m1 + 1 < m2 {
      MonthsIncrease(y, m1, m2 - 1);
    }
  }

  /** A date's offset within its year is below the year's length. */
  lemma OffsetInYear(c: Date)
    requires ValidDate(c)
    ensures 0 <= DaysBeforeMonth(c.year, c.month) + c.day - 1
    ensures DaysBeforeYear(c.year) + DaysBeforeMonth(c.year, c.month) + c.day - 1 < DaysBeforeYear(c.year + 1)
  {
    MonthOffsets(c.year);
    YearLength(c.year);
    if c.month < 12 {
      MonthsIncrease(c.year, c.month, 12);
    }
  }

  /** Counting days is strictly increasing on the calendar, hence injective. */
  lemma DayNumberIncreases(a: Date, b: Date)
    requires ValidDate(a) && ValidDate(b) && Before(a, b)
    ensures DayNumber(a) < DayNumber(b)
  {
    if a.year < b.year {
      OffsetInYear(a);
      OffsetInYear(b);
      YearsIncrease(a.year + 1, b.year);
    } else if a.month < b.month {
      MonthsIncrease(a.year, a.month, b.month);
    }
  }

  lemma SameDayNumber(a: Date, b: Date)
    requires ValidDate(a) && ValidDate(b) && DayNumber(a) == DayNumber(b)
    ensures a == b
  {
    if Before(a, b) {
      DayNumberIncreases(a, b);
    } else if Before(b, a) {
      DayNumberIncreases(b, a);
    }
  }

  lemma NextDateCounts(c: Date)
    requires ValidDate(c)
    ensures ValidDate(NextDate(c)) && DayNumber(NextDate(c)) == DayNumber(c) + 1
  {
    if c.day == DaysInMonth(c.year, c.month) && c.month == 12 {
      MonthOffsets(c.year);
      YearLength(c.year);
    }
  }

  /** The conversion is a bijection: every date that exists is the image of its own day count. */
  lemma CivilIsOnto(c: Date)
    requires ValidDate(c)
    ensures CivilFromUnixDays(DayNumber(c)) == c
  {
    CivilCountsBack(DayNumber(c));
    SameDayNumber(CivilFromUnixDays(DayNumber(c)), c);
  }

  /**
   * `civil_from_unix_days` is the Gregorian calendar: day 0 is 1970-01-01 and each further day is the
   * calendar's next day.  These two facts determine the function on every day, past and future.
   */
  lemma CivilIsTheCalendar(z: int)
    ensures CivilFromUnixDays(0) == Date(1970, 1, 1)
    ensures CivilFromUnixDays(z + 1) == NextDate(CivilFromUnixDays(z))
  {
    assert DayNumber(Date(1970, 1, 1)) == 0;
    CivilIsOnto(Date(1970, 1, 1));
    CivilCountsBack(z);
    CivilCountsBack(z + 1);
    NextDateCounts(CivilFromUnixDays(z));
    SameDayNumber(CivilFromUnixDays(z + 1), NextDate(CivilFromUnixDays(z)));
  }

  /** Later days are later dates, so no two days share a date. */
  lemma CivilIncreases(z1: int, z2: int)
    requires z1 < z2
    ensures Before(CivilFromUnixDays(z1), CivilFromUnixDays(z2))
  {
    var a, b := CivilFromUnixDays(z1), CivilFromUnixDays(z2);
    CivilCountsBack(z1);
    CivilCountsBack(z2);
    if Before(b, a) {
      DayNumberIncreases(b, a);
    }
  }

  // ----- The timestamp text -----

  /** `{n:0width}` in the source's format string: zero padding to at least `width` characters. */
  function Padded(n: nat, width: nat): string {
    var s := Decimal(n);
    if |s| < width then Zeros(width - |s|) + s else s
  }

  lemma PaddedReads(n: nat, width: nat)
    requires width >= 1
    ensures ReadNat(Padded(n, width)) == n
    ensures forall c | c in Padded(n, width) :: IsDigit(c)
    ensures |Padded(n, width)| >= width
    ensures |Padded(n, width)| == width <==> n < Power10(width)
  {
    DecimalReads(n);
    var s := Decimal(n);
    if |s| < width {
      ZerosRead(width - |s|, s);
    }
  }

  /** `rfc3339_utc` */
  function Rfc3339Utc(unixSeconds: nat): string {
    YearIsNatural(unixSeconds / 86_400);
    TimestampText(CivilFromUnixDays(unixSeconds / 86_400), unixSeconds % 86_400)
  }

  function TimestampText(c: Date, secs: nat): string
    requires c.year >= 0
  {
    Padded(c.year, 4) + Fields("--T::", [c.month, c.day, secs / 3600, (secs % 3600) / 60, secs % 60])
  }

  /** Two-digit fields, each after its separator, and the closing `Z`. */
  function Fields(separators: string, ns: seq<nat>): string
    requires |separators| == |ns|
  {
    if ns == [] then "Z" else [separators[0]] + Padded(ns[0], 2) + Fields(separators[1..], ns[1..])
  }

  lemma YearIsNatural(days: nat)
    ensures CivilFromUnixDays(days).year >= 1970
  {
    hide CivilFromUnixDays, NextDate;
    CivilIsTheCalendar(0);
    if days > 0 {
      CivilIncreases(0, days);
    }
  }

  // ----- Reading a timestamp -----

  /** The two-digit fields of the text after the year. */
  function ReadFields(t: string): seq<nat> {
    if |t| < 3 then [] else [ReadNat(t[1..3])] + ReadFields(t[3..])
  }

  predicate HasShape(separators: string, t: string) {
    if separators == [] then t == "Z"
    else |t| >= 3 && t[0] == separators[0] && IsDigit(t[1]) && IsDigit(t[2]) && HasShape(separators[1..], t[3..])
  }

  /** The second a timestamp denotes: a reader that knows the calendar but not the conversion. */
  function ReadTimestamp(t: string): int {
    if |t| < 16 then 0 else SecondOf(ReadNat(t[..|t| - 16]), ReadFields(t[|t| - 16..]))
  }

  function SecondOf(year: nat, f: seq<nat>): int {
    if |f| != 5 || f[0] == 0 || f[1] == 0 then 0
    else DayNumber(Date(year, f[0], f[1])) * 86_400 + f[2] * 3600 + f[3] * 60 + f[4]
  }

  lemma TwoDigits(n: nat)
    requires n < 100
    ensures |Padded(n, 2)| == 2 && ReadNat(Padded(n, 2)) == n
    ensures IsDigit(Padded(n, 2)[0]) && IsDigit(Padded(n, 2)[1])
  {
    assert Power10(1) == 10 && Power10(2) == 100;
    PaddedReads(n, 2);
  }

  lemma {:induction false} FieldsReadBack(separators: string, ns: seq<nat>)
    requires |separators| == |ns| && forall i | 0 <= i < |ns| :: ns[i] < 100
    ensures |Fields(separators, ns)| == 3 * |ns| + 1
    ensures ReadFields(Fields(separators, ns)) == ns
    ensures HasShape(separators, Fields(separators, ns))
  {
    if ns != [] {
      TwoDigits(ns[0]);
      var two, rest := Padded(ns[0], 2), Fields(separators[1..], ns[1..]);
      var t := Fields(separators, ns);
      assert t[1..3] == two && t[3..] == rest;
      FieldsReadBack(separators[1..], ns[1..]);
    }
  }

  lemma TextReadsBack(c: Date, secs: nat)
    requires c.year >= 0 && ValidDate(c) && secs < 86_400
    ensures
      var t := TimestampText(c, secs);
      && |t| >= 20 && (|t| == 20 <==> c.year < 10_000)
      && (forall i | 0 <= i < |t| - 16 :: IsDigit(t[i])) && HasShape("--T::", t[|t| - 16..])
      && ReadNat(t[..|t| - 16]) == c.year
      && ReadFields(t[|t| - 16..]) == [c.month, c.day, secs / 3600, (secs % 3600) / 60, secs % 60]
  {
    var year := Padded(c.year, 4);
    assert Power10(4) == 10_000 by { assert Power10(2) == 100; }
    PaddedReads(c.year, 4);
    var ns := [c.month, c.day, secs / 3600, (secs % 3600) / 60, secs % 60];
    FieldsReadBack("--T::", ns);
    var t := TimestampText(c, secs);
    assert t[..|year|] == year && t[|year|..] == Fields("--T::", ns);
  }

  /** Every timestamp reads back as the second it was made from. */
  lemma TimestampReadsBack(unixSeconds: nat)
    ensures ReadTimestamp(Rfc3339Utc(unixSeconds)) == unixSeconds
  {
    var days := unixSeconds / 86_400;
    YearIsNatural(days);
    CivilCountsBack(days);
    TextDenotes(CivilFromUnixDays(days), days, unixSeconds % 86_400);
  }

  lemma TextDenotes(c: Date, days: int, secs: nat)
    requires c.year >= 0 && ValidDate(c) && DayNumber(c) == days && secs < 86_400
    ensures ReadTimestamp(TimestampText(c, secs)) == days * 86_400 + secs
  {
    TextReadsBack(c, secs);
    SecondsOfFields(c, days, secs, [c.month, c.day, secs / 3600, (secs % 3600) / 60, secs % 60]);
  }

  lemma SecondsOfFields(c: Date, days: int, secs: nat, f: seq<nat>)
    requires c.year >= 0 && ValidDate(c) && DayNumber(c) == days && secs < 86_400
    requires f == [c.month, c.day, secs / 3600, (secs % 3600) / 60, secs % 60]
    ensures SecondOf(c.year, f) == days * 86_400 + secs
  {
    assert Date(c.year, f[0], f[1]) == c;
  }

  /** No two seconds share a timestamp. */
  lemma TimestampInjective(a: nat, b: nat)
    ensures Rfc3339Utc(a) == Rfc3339Utc(b) ==> a == b
  {
    TimestampReadsBack(a);
    TimestampReadsBack(b);
  }

  /** The `date-time` production of RFC 3339 section 5.6, restricted to whole seconds in UTC. */
  predicate IsDateTime(t: string) {
    && |t| == 20
    && (forall i | 0 <= i < 4 :: IsDigit(t[i])) && HasShape("--T::", t[4..])
    && InRange(ReadNat(t[..4]), ReadFields(t[4..]))
  }

  predicate InRange(year: nat, f: seq<nat>) {
    |f| == 5 && ValidDate(Date(year, f[0], f[1])) && f[2] <= 23 && f[3] <= 59 && f[4] <= 59
  }

  lemma FourDigitYears(c: Date)
    requires ValidDate(c)
    ensures c.year < 10_000 <==> DayNumber(c) < 2_932_897
  {
    var limit := Date(10_000, 1, 1);
    assert DayNumber(limit) == 2_932_897;
    if c.year < 10_000 {
      DayNumberIncreases(c, limit);
    } else if c != limit {
      DayNumberIncreases(limit, c);
    }
  }

  lemma TextShape(c: Date, secs: nat)
    requires c.year >= 0 && ValidDate(c) && secs < 86_400
    ensures IsDateTime(TimestampText(c, secs)) <==> c.year < 10_000
  {
    TextReadsBack(c, secs);
  }

  /**
   * A timestamp has the shape RFC 3339 requires exactly while the year has four digits, that is
   * before 10000-01-01T00:00:00Z; from then on the source prints a longer year.
   */
  lemma TimestampShape(unixSeconds: nat)
    ensures IsDateTime(Rfc3339Utc(unixSeconds)) <==> unixSeconds < 253_402_300_800
  {
    var days := unixSeconds / 86_400;
    YearIsNatural(days);
    CivilCountsBack(days);
    FourDigitYears(CivilFromUnixDays(days));
    TextShape(CivilFromUnixDays(days), unixSeconds % 86_400);
  }
}
