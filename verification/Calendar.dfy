/** The proleptic Gregorian calendar and the fixed-width UTC texts of RFC 3339, section
    5.6 (yyyy-mm-ddThh:mm:ssZ). The database compares these texts as strings; section 5.1
    promises that this is comparing the instants, and this module proves it. */
module Calendar {

  predicate IsLeap(year: int) {
    year % 4 == 0 && (year % 100 != 0 || year % 400 == 0)
  }

  function DaysInYear(year: int): int {
    if IsLeap(year) then 366 else 365
  }

  function DaysInMonth(year: int, month: int): int {
    if month == 2 then (if IsLeap(year) then 29 else 28)
    else if month == 4 || month == 6 || month == 9 || month == 11 then 30
    else 31
  }

  /** Days from 1 January of year 0 to 1 January of `year`, in closed form. */
  function DaysUpTo(year: nat): int {
    365 * year + (year + 3) / 4 - (year + 99) / 100 + (year + 399) / 400
  }

  /** The same, counted year by year. */
  function DaysBeforeYear(year: nat): nat {
    if year == 0 then 0 else DaysBeforeYear(year - 1) + DaysInYear(year - 1)
  }

  /** Days from 1 January to the first of `month`; month 13 is next January. */
  function DaysBeforeMonth(year: int, month: int): nat
    requires 1 <= month <= 13
  {
    [0, 31, 59, 90, 120, 151, 181, 212, 243, 273, 304, 334, 365][month - 1] + if month > 2 && IsLeap(year) then 1 else 0
  }

  datatype Civil = Civil(year: int, month: int, day: int, hour: int, minute: int, second: int)
  {
    /** A date of the years 0 to 9999, the ones the format can write. */
    predicate Valid() {
      && 0 <= year <= 9999 && 1 <= month <= 12 && 1 <= day <= DaysInMonth(year, month)
      && 0 <= hour <= 23 && 0 <= minute <= 59 && 0 <= second <= 59
    }

    function DayNumber(): int
      requires Valid()
    {
      DaysUpTo(year) + DaysBeforeMonth(year, month) + day - 1
    }

    function SecondOfDay(): int {
      hour * 3600 + minute * 60 + second
    }

    /** Seconds since 1 January 1970. */
    function Epoch(): int
      requires Valid()
    {
      (DayNumber() - EPOCH_DAY) * 86400 + SecondOfDay()
    }

    /** Earlier field by field, the most significant first. */
    predicate Precedes(that: Civil) {
      || year < that.year
      || (year == that.year && month < that.month)
      || (year == that.year && month == that.month && day < that.day)
      || (year == that.year && month == that.month && day == that.day && hour < that.hour)
      || (year == that.year && month == that.month && day == that.day && hour == that.hour && minute < that.minute)
      || (year == that.year && month == that.month && day == that.day && hour == that.hour && minute == that.minute
          && second < that.second)
    }

    function Text(): string
      requires Valid()
    {
      Digits(year, 4) + ("-" + (Digits(month, 2) + ("-" + (Digits(day, 2) + ("T" +
      (Digits(hour, 2) + (":" + (Digits(minute, 2) + (":" + (Digits(second, 2) + "Z"))))))))))
    }
  }

  /** The day numbers of 1 January 1970 and of 1 January 10000. */
  const EPOCH_DAY := 719528
  const END_DAY := 3652425

  lemma Div4(x: int, q: int)
    requires 4 * q <= x < 4 * q + 4
    ensures x / 4 == q
  {
  }

  lemma Div100(x: int, q: int)
    requires 100 * q <= x < 100 * q + 100
    ensures x / 100 == q
  {
  }

  lemma Div400(x: int, q: int)
    requires 400 * q <= x < 400 * q + 400
    ensures x / 400 == q
  {
  }

  /** One more year adds a multiple of 4, of 100 or of 400 when that year is one. */
  lemma FourthsStep(year: nat)
    ensures (year + 4) / 4 - (year + 3) / 4 == if year % 4 == 0 then 1 else 0
  {
    Div4(year + 4, year / 4 + 1);
    Div4(year + 3, if year % 4 == 0 then year / 4 else year / 4 + 1);
  }

  lemma CenturiesStep(year: nat)
    ensures (year + 100) / 100 - (year + 99) / 100 == if year % 100 == 0 then 1 else 0
  {
    Div100(year + 100, year / 100 + 1);
    Div100(year + 99, if year % 100 == 0 then year / 100 else year / 100 + 1);
  }

  lemma FourCenturiesStep(year: nat)
    ensures (year + 400) / 400 - (year + 399) / 400 == if year % 400 == 0 then 1 else 0
  {
    Div400(year + 400, year / 400 + 1);
    Div400(year + 399, if year % 400 == 0 then year / 400 else year / 400 + 1);
  }

  lemma CenturiesAreFourths(year: nat)
    ensures year % 100 == 0 ==> year % 4 == 0
    ensures year % 400 == 0 ==> year % 100 == 0
  {
    if year % 100 == 0 {
      Div4(year, 25 * (year / 100));
    }
    if year % 400 == 0 {
      Div100(year, 4 * (year / 400));
    }
  }

  lemma YearStep(year: nat)
    ensures DaysUpTo(year + 1) == DaysUpTo(year) + DaysInYear(year)
  {
    FourthsStep(year);
    CenturiesStep(year);
    FourCenturiesStep(year);
    CenturiesAreFourths(year);
  }

  /** The closed form counts the leap years. */
  lemma {:induction false} DaysBeforeYearIs(year: nat)
    ensures DaysBeforeYear(year) == DaysUpTo(year)
  {
    if year == 0 {
    } else {
      DaysBeforeYearIs(year - 1);
      YearStep(year - 1);
    }
  }

  // ---------------------------------------------------------------------------
  // Fields order like instants
  // ---------------------------------------------------------------------------

  lemma {:induction false} LaterYearIsLater(a: nat, b: nat)
    requires a < b
    ensures DaysBeforeYear(a) + DaysInYear(a) <= DaysBeforeYear(b)
    decreases b
  {
    if a == b - 1 {
    } else {
      LaterYearIsLater(a, b - 1);
    }
  }

  /** Each month begins when the one before has run its days. */
  lemma MonthTable(year: int, month: int)
    requires 1 <= month <= 12
    ensures DaysBeforeMonth(year, 1) == 0 && DaysBeforeMonth(year, 13) == DaysInYear(year)
    ensures DaysBeforeMonth(year, month + 1) == DaysBeforeMonth(year, month) +
            if month == 2 then (if year % 4 == 0 && (year % 100 != 0 || year % 400 == 0) then 29 else 28)
            else if month in {4, 6, 9, 11} then 30
            else 31
    ensures DaysBeforeMonth(year, month + 1) == DaysBeforeMonth(year, month) + DaysInMonth(year, month)
  {
  }

  lemma {:induction false} LaterMonthIsLater(year: int, a: int, b: int)
    requires 1 <= a < b <= 13
    ensures DaysBeforeMonth(year, a) + DaysInMonth(year, a) <= DaysBeforeMonth(year, b)
    decreases b
  {
    MonthTable(year, b - 1);
    if a == b - 1 {
    } else {
      LaterMonthIsLater(year, a, b - 1);
    }
  }

  lemma DayIsWithinYear(c: Civil)
    requires c.Valid()
    ensures DaysBeforeYear(c.year) <= c.DayNumber() < DaysBeforeYear(c.year) + DaysInYear(c.year)
  {
    LaterMonthIsLater(c.year, c.month, 13);
    MonthTable(c.year, c.month);
    DaysBeforeYearIs(c.year);
  }

  lemma PrecedesIsEarlier(a: Civil, b: Civil)
    requires a.Valid() && b.Valid() && a.Precedes(b)
    ensures a.Epoch() < b.Epoch()
  {
    if a.year < b.year {
      LaterYearIsLater(a.year, b.year);
      DayIsWithinYear(a);
      DayIsWithinYear(b);
      assert a.DayNumber() < b.DayNumber();
    } else if a.month < b.month {
      LaterMonthIsLater(a.year, a.month, b.month);
      assert a.DayNumber() < b.DayNumber();
    }
  }

  /** Every pair of fields is in one of the two orders or equal, so the reading is exact. */
  lemma EpochOrder(a: Civil, b: Civil)
    requires a.Valid() && b.Valid()
    ensures a.Precedes(b) <==> a.Epoch() < b.Epoch()
    ensures a == b <==> a.Epoch() == b.Epoch()
  {
    if a.Precedes(b) {
      PrecedesIsEarlier(a, b);
    } else if a != b {
      PrecedesIsEarlier(b, a);
    }
  }

  /** Where 1 January of a year begins. */
  lemma NewYearIs(year: nat)
    requires year <= 9999
    ensures var first := Civil(year, 1, 1, 0, 0, 0);
            first.Valid() && first.Epoch() ==
                (365 * year + (year + 3) / 4 - (year + 99) / 100 + (year + 399) / 400 - 719528) * 86400
  {
  }

  lemma FirstYears()
    ensures DaysUpTo(1970) == 719528 && DaysUpTo(1) == 366
  {
  }

  lemma NewYearAfter(first: Civil, days: int)
    requires first.Valid() && first == Civil(first.year, 1, 1, 0, 0, 0) && DaysUpTo(first.year) == days
    ensures first.Epoch() == (days - EPOCH_DAY) * 86400
  {
  }

  /** The count starts where Unix time does. */
  lemma UnixEpoch(first: Civil)
    requires first.Valid() && first == Civil(1970, 1, 1, 0, 0, 0)
    ensures first.Epoch() == 0
  {
    FirstYears();
    NewYearAfter(first, 719528);
  }

  /** The instant that the import takes for a missing time. */
  lemma ZeroTime(first: Civil)
    requires first.Valid() && first == Civil(1, 1, 1, 0, 0, 0)
    ensures first.Epoch() == -62135596800
  {
    FirstYears();
    NewYearAfter(first, 366);
  }

  /** Hours, minutes and seconds count on from midnight. */
  lemma TimeOfDay(c: Civil)
    requires c.Valid()
    ensures c.(hour := 0, minute := 0, second := 0).Valid()
    ensures c.Epoch() == c.(hour := 0, minute := 0, second := 0).Epoch() + c.hour * 3600 + c.minute * 60 + c.second
  {
    WithTime(c, 0, 0, 0);
  }

  lemma WithTime(c: Civil, h: int, m: int, sec: int)
    requires c.Valid() && 0 <= h <= 23 && 0 <= m <= 59 && 0 <= sec <= 59
    ensures var d := c.(hour := h, minute := m, second := sec);
            d.Valid() && d.DayNumber() == c.DayNumber()
  {
  }

  // ---------------------------------------------------------------------------
  // Texts order like fields
  // ---------------------------------------------------------------------------

  /** Byte-wise comparison of strings, as SQLite's BINARY collation does. */
  predicate LexLess(a: string, b: string) {
    if a == [] || b == [] then a == [] && b != []
    else a[0] < b[0] || (a[0] == b[0] && LexLess(a[1..], b[1..]))
  }

  function Digit(d: int): char
    requires 0 <= d <= 9
  {
    ('0' as int + d) as char
  }

  function Digits(n: int, width: nat): string
    requires n >= 0
  {
    if width == 0 then "" else Digits(n / 10, width - 1) + [Digit(n % 10)]
  }

  function Power10(width: nat): nat {
    if width == 0 then 1 else 10 * Power10(width - 1)
  }

  lemma {:induction false} LexOfConcat(a: string, b: string, x: string, y: string)
    requires |a| == |b|
    ensures LexLess(a + x, b + y) <==> LexLess(a, b) || (a == b && LexLess(x, y))
    decreases |a|
  {
    if a == [] {
      assert a + x == x && b + y == y;
    } else {
      assert (a + x)[1..] == a[1..] + x && (b + y)[1..] == b[1..] + y;
      LexOfConcat(a[1..], b[1..], x, y);
      assert a == b <==> a[0] == b[0] && a[1..] == b[1..];
    }
  }

  lemma LexIrreflexive(a: string)
    ensures !LexLess(a, a)
  {
  }

  lemma {:induction false} DigitsOrder(m: int, n: int, width: nat)
    requires 0 <= m < Power10(width) && 0 <= n < Power10(width)
    ensures |Digits(m, width)| == |Digits(n, width)| == width
    ensures LexLess(Digits(m, width), Digits(n, width)) <==> m < n
    ensures Digits(m, width) == Digits(n, width) <==> m == n
  {
    if width == 0 {
    } else {
      DigitsOrder(m / 10, n / 10, width - 1);
      var a, b := Digits(m / 10, width - 1), Digits(n / 10, width - 1);
      var x, y := [Digit(m % 10)], [Digit(n % 10)];
      LexOfConcat(a, b, x, y);
      assert LexLess(x, y) <==> m % 10 < n % 10;
      assert a + x == b + y <==> a == b && x == y by {
        if a + x == b + y {
          assert (a + x)[..width - 1] == a && (b + y)[..width - 1] == b;
          assert (a + x)[width - 1] == x[0] && (b + y)[width - 1] == y[0];
        }
      }
    }
  }

  /** A number field of fixed width, followed by a separator and the rest. */
  lemma FieldOrder(m: int, n: int, width: nat, sep: string, x: string, y: string)
    requires 0 <= m < Power10(width) && 0 <= n < Power10(width)
    ensures LexLess(Digits(m, width) + (sep + x), Digits(n, width) + (sep + y)) <==> m < n || (m == n && LexLess(x, y))
  {
    DigitsOrder(m, n, width);
    LexOfConcat(Digits(m, width), Digits(n, width), sep + x, sep + y);
    LexOfConcat(sep, sep, x, y);
    LexIrreflexive(sep);
  }

  lemma TextOrder(a: Civil, b: Civil)
    requires a.Valid() && b.Valid()
    ensures LexLess(a.Text(), b.Text()) <==> a.Precedes(b)
  {
    assert Power10(2) == 100 && Power10(4) == 10000;
    var as_, bs := Digits(a.second, 2) + "Z", Digits(b.second, 2) + "Z";
    var am, bm := Digits(a.minute, 2) + (":" + as_), Digits(b.minute, 2) + (":" + bs);
    var ah, bh := Digits(a.hour, 2) + (":" + am), Digits(b.hour, 2) + (":" + bm);
    var ad, bd := Digits(a.day, 2) + ("T" + ah), Digits(b.day, 2) + ("T" + bh);
    var ao, bo := Digits(a.month, 2) + ("-" + ad), Digits(b.month, 2) + ("-" + bd);
    assert "Z" + "" == "Z";
    FieldOrder(a.second, b.second, 2, "Z", "", "");
    FieldOrder(a.minute, b.minute, 2, ":", as_, bs);
    FieldOrder(a.hour, b.hour, 2, ":", am, bm);
    FieldOrder(a.day, b.day, 2, "T", ah, bh);
    FieldOrder(a.month, b.month, 2, "-", ad, bd);
    FieldOrder(a.year, b.year, 4, "-", ao, bo);
  }

  lemma {:induction false} DigitsLength(n: int, width: nat)
    requires n >= 0
    ensures |Digits(n, width)| == width
  {
    if width == 0 {
    } else {
      DigitsLength(n / 10, width - 1);
    }
  }

  lemma TwoDigits(n: int)
    requires 0 <= n <= 99
    ensures Digits(n, 2) == [('0' as int + n / 10) as char, ('0' as int + n % 10) as char]
  {
    assert Digits(n / 10 / 10, 0) == "" && Digits(n / 10, 1) == [Digit(n / 10)];
  }

  lemma Piece(t: string, a: string, sep: string, rest: string)
    requires t == a + (sep + rest) && |sep| == 1
    ensures |t| == |a| + 1 + |rest| && t[..|a|] == a && t[|a|] == sep[0] && t[|a| + 1..] == rest
  {
  }

  lemma Tail(t: string, k: nat, u: string)
    requires k <= |t| && t[k..] == u
    ensures |t| == k + |u| && (forall i :: 0 <= i < |u| ==> t[k + i] == u[i])
    ensures forall i :: 0 <= i <= |u| ==> t[k..k + i] == u[..i] && t[k + i..] == u[i..]
  {
  }

  /** The form of the text: year, month and day, T... */
  lemma DateMeans(c: Civil)
    requires c.Valid()
    ensures var t := c.Text();
            && |t| == 20 && t[4] == t[7] == '-' && t[10] == 'T'
            && t[..4] == Digits(c.year, 4) && t[5..7] == Digits(c.month, 2) && t[8..10] == Digits(c.day, 2)
    ensures c.Text()[11..] == Digits(c.hour, 2) + (":" + (Digits(c.minute, 2) + (":" + (Digits(c.second, 2) + "Z"))))
  {
    DigitsLength(c.year, 4);
    DigitsLength(c.month, 2);
    DigitsLength(c.day, 2);
    DigitsLength(c.hour, 2);
    DigitsLength(c.minute, 2);
    DigitsLength(c.second, 2);
    var h := Digits(c.hour, 2) + (":" + (Digits(c.minute, 2) + (":" + (Digits(c.second, 2) + "Z"))));
    var d := Digits(c.day, 2) + ("T" + h);
    var o := Digits(c.month, 2) + ("-" + d);
    Piece(c.Text(), Digits(c.year, 4), "-", o);
    Piece(o, Digits(c.month, 2), "-", d);
    Piece(d, Digits(c.day, 2), "T", h);
    Tail(c.Text(), 5, o);
    Tail(c.Text(), 8, d);
  }

  lemma TimeSlices(t: string, h: string, m: string, sec: string)
    requires |h| == |m| == |sec| == 2 && t == h + (":" + (m + (":" + (sec + "Z"))))
    ensures |t| == 9 && t[2] == t[5] == ':' && t[8] == 'Z' && t[..2] == h && t[3..5] == m && t[6..8] == sec
  {
    Piece(t, h, ":", m + (":" + (sec + "Z")));
    Piece(t[3..], m, ":", sec + "Z");
    assert t[3..][3..] == t[6..] && t[6..] == sec + "Z";
  }

  /** ... and then hours, minutes and seconds, Z. */
  lemma TimeMeans(c: Civil)
    requires c.Valid()
    ensures |c.Text()| == 20
    ensures var t := c.Text()[11..];
            && t[2] == t[5] == ':' && t[8] == 'Z'
            && t[..2] == Digits(c.hour, 2) && t[3..5] == Digits(c.minute, 2) && t[6..8] == Digits(c.second, 2)
  {
    DateMeans(c);
    DigitsLength(c.hour, 2);
    DigitsLength(c.minute, 2);
    DigitsLength(c.second, 2);
    TimeSlices(c.Text()[11..], Digits(c.hour, 2), Digits(c.minute, 2), Digits(c.second, 2));
  }

  // ---------------------------------------------------------------------------
  // From instants to texts
  // ---------------------------------------------------------------------------

  function YearOf(day: nat, from: nat): (year: nat)
    requires DaysBeforeYear(from) <= day
    ensures DaysBeforeYear(year) <= day < DaysBeforeYear(year) + DaysInYear(year)
    decreases day - DaysBeforeYear(from)
  {
    if day < DaysBeforeYear(from) + DaysInYear(from) then from else YearOf(day, from + 1)
  }

  function MonthOf(year: int, day: nat, from: int): (month: int)
    requires 1 <= from <= 12 && DaysBeforeMonth(year, from) <= day < DaysBeforeMonth(year, 13)
    ensures 1 <= month <= 12
    ensures DaysBeforeMonth(year, month) <= day < DaysBeforeMonth(year, month) + DaysInMonth(year, month)
    decreases 12 - from
  {
    MonthTable(year, from);
    if from == 12 || day < DaysBeforeMonth(year, from) + DaysInMonth(year, from) then from
    else MonthOf(year, day, from + 1)
  }

  /** The instants of the years 0 to 9999. */
  predicate Representable(t: int) {
    -EPOCH_DAY * 86400 <= t < (END_DAY - EPOCH_DAY) * 86400
  }

  lemma YearIsWritable(year: nat)
    requires DaysBeforeYear(year) < END_DAY
    ensures year <= 9999
  {
    DaysBeforeYearIs(year);
  }

  lemma DayNumberIs(c: Civil, start: int, days: int, day: int)
    requires c.Valid() && start == DaysUpTo(c.year) && days == DaysBeforeMonth(c.year, c.month)
    requires c.day == day - start - days + 1
    ensures c.DayNumber() == day
  {
  }

  lemma DateParts(day: nat, year: nat, month: int, start: nat, days: nat)
    requires year <= 9999 && 1 <= month <= 12 && start == DaysBeforeYear(year) && days == DaysBeforeMonth(year, month)
    requires days <= day - start < days + DaysInMonth(year, month)
    ensures var c := Civil(year, month, day - start - days + 1, 0, 0, 0);
            c.Valid() && c.DayNumber() == day && c.SecondOfDay() == 0
  {
    DaysBeforeYearIs(year);
    DayNumberIs(Civil(year, month, day - start - days + 1, 0, 0, 0), start, days, day);
  }

  /** Midnight of a day. */
  function DateOf(day: nat): (c: Civil)
    requires day < END_DAY
    ensures c.Valid() && c.DayNumber() == day && c.SecondOfDay() == 0
  {
    var year := YearOf(day, 0);
    MonthTable(year, 1);
    var month := MonthOf(year, day - DaysBeforeYear(year), 1);
    YearIsWritable(year);
    var start, days := DaysBeforeYear(year), DaysBeforeMonth(year, month);
    DateParts(day, year, month, start, days);
    Civil(year, month, day - start - days + 1, 0, 0, 0)
  }

  lemma SecondsSplit(s: int)
    requires 0 <= s < 86400
    ensures s / 3600 * 3600 + s % 3600 / 60 * 60 + s % 60 == s
    ensures 0 <= s / 3600 <= 23 && 0 <= s % 3600 / 60 <= 59
  {
  }

  lemma AtSecond(c: Civil, day: int, s: int)
    requires c.Valid() && c.DayNumber() == day && 0 <= s < 86400
    ensures var d := c.(hour := s / 3600, minute := s % 3600 / 60, second := s % 60);
            d.Valid() && d.Epoch() == (day - EPOCH_DAY) * 86400 + s
  {
    SecondsSplit(s);
    WithTime(c, s / 3600, s % 3600 / 60, s % 60);
  }

  /** The fields of an instant, as time.Time's UTC() and Format take it apart. */
  function CivilOf(t: int): (c: Civil)
    requires Representable(t)
    ensures c.Valid() && c.Epoch() == t
  {
    var s := t % 86400;
    var c := DateOf(t / 86400 + EPOCH_DAY);
    AtSecond(c, t / 86400 + EPOCH_DAY, s);
    c.(hour := s / 3600, minute := s % 3600 / 60, second := s % 60)
  }

  /** t.UTC().Format(time.RFC3339). */
  function Format(t: int): string
    requires Representable(t)
  {
    CivilOf(t).Text()
  }

  /** Text order is time order: comparing the stored texts is comparing the instants, so the
      string `max` and `>=` of the queries are those of time. */
  lemma TextOrderIsTimeOrder(t: int, u: int)
    requires Representable(t) && Representable(u)
    ensures LexLess(Format(t), Format(u)) <==> t < u
    ensures Format(t) == Format(u) <==> t == u
    ensures |Format(t)| == 20
  {
    var a, b := CivilOf(t), CivilOf(u);
    TextOrder(a, b);
    TextOrder(b, a);
    EpochOrder(a, b);
    EpochOrder(b, a);
    LexIrreflexive(Format(t));
    DateMeans(a);
  }

  lemma InstantIsRepresentable(c: Civil)
    requires c.Valid()
    ensures Representable(c.Epoch())
  {
    DayIsWithinYear(c);
    LaterYearStarts(c.year);
  }

  lemma LaterYearStarts(year: nat)
    requires year <= 9999
    ensures DaysBeforeYear(year) + DaysInYear(year) <= END_DAY
  {
    DaysBeforeYearIs(year + 1);
  }

  /** The fields of a valid date are recovered from its instant. */
  lemma CivilOfEpoch(c: Civil)
    requires c.Valid()
    ensures Representable(c.Epoch()) && CivilOf(c.Epoch()) == c
  {
    InstantIsRepresentable(c);
    EpochOrder(c, CivilOf(c.Epoch()));
  }
}
