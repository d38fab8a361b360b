/** The canonical UTC text of instants, and exactly when its lexicographic order is the order in time. */
module TextOrder {
  import opened Calendar
  import opened Text
  import opened Timestamps

  // ----- Dates and clock readings of one year -----

  lemma Pow10Values()
    ensures Pow10(2) == 100 && Pow10(4) == 10000
  {
    assert Pow10(1) == 10;
    assert Pow10(3) == 1000;
  }

  lemma LexLessPrefix(a: string, b: string, restA: string, restB: string)
    requires |a| == |b| && LexLess(a, b)
    ensures LexLess(a + restA, b + restB)
  {
    LexLessInContext("", a, b, restA, restB);
    assert "" + a + restA == a + restA && "" + b + restB == b + restB;
  }

  lemma LexLessSuffix(prefix: string, a: string, b: string)
    requires |a| == |b| && LexLess(a, b)
    ensures LexLess(prefix + a, prefix + b)
  {
    LexLessInContext(prefix, a, b, "", "");
    assert prefix + a + "" == prefix + a && prefix + b + "" == prefix + b;
  }

  lemma MonthLength(year: int, month: nat)
    requires 1 <= month <= 12
    ensures DaysInMonth(year, month) <= 31
  {
  }

  lemma DateTextOrder(a: Date, b: Date)
    requires a.Valid() && b.Valid() && a.Before(b) && a.year == b.year
    ensures |DateText(a)| == |DateText(b)|
    ensures LexLess(DateText(a), DateText(b))
  {
    hide LexLess, Decimal, DaysInMonth;
    MonthLength(a.year, a.month);
    MonthLength(b.year, b.month);
    Pow10Values();
    var ya, ma, da := YearText(a.year), Decimal(a.month, 2), Decimal(a.day, 2);
    var yb, mb, db := YearText(b.year), Decimal(b.month, 2), Decimal(b.day, 2);
    assert DateText(a) == ya + ("-" + ma + "-" + da) && DateText(b) == yb + ("-" + mb + "-" + db);
    if a.month < b.month {
      DecimalOrder(a.month, b.month, 2);
      LexLessInContext(ya + "-", ma, mb, "-" + da, "-" + db);
      assert DateText(a) == (ya + "-") + ma + ("-" + da) && DateText(b) == (ya + "-") + mb + ("-" + db);
    } else {
      DecimalOrder(a.day, b.day, 2);
      LexLessSuffix(ya + "-" + ma + "-", da, db);
    }
  }

  function HmsText(hour: nat, minute: nat, second: nat): string {
    Decimal(hour, 2) + ":" + Decimal(minute, 2) + ":" + Decimal(second, 2)
  }

  predicate HmsBefore(h1: nat, m1: nat, s1: nat, h2: nat, m2: nat, s2: nat) {
    h1 < h2 || (h1 == h2 && m1 < m2) || (h1 == h2 && m1 == m2 && s1 < s2)
  }

  lemma HmsTextOrder(h1: nat, m1: nat, s1: nat, h2: nat, m2: nat, s2: nat)
    requires HmsBefore(h1, m1, s1, h2, m2, s2)
    requires h1 < 100 && h2 < 100 && m1 < 100 && m2 < 100 && s1 < 100 && s2 < 100
    ensures |HmsText(h1, m1, s1)| == |HmsText(h2, m2, s2)| == 8
    ensures LexLess(HmsText(h1, m1, s1), HmsText(h2, m2, s2))
  {
    hide LexLess, Decimal;
    Pow10Values();
    var ha, ma, sa := Decimal(h1, 2), Decimal(m1, 2), Decimal(s1, 2);
    var hb, mb, sb := Decimal(h2, 2), Decimal(m2, 2), Decimal(s2, 2);
    var x, y := HmsText(h1, m1, s1), HmsText(h2, m2, s2);
    if h1 < h2 {
      DecimalOrder(h1, h2, 2);
      LexLessPrefix(ha, hb, ":" + ma + ":" + sa, ":" + mb + ":" + sb);
      assert x == ha + (":" + ma + ":" + sa) && y == hb + (":" + mb + ":" + sb);
    } else if m1 < m2 {
      DecimalOrder(m1, m2, 2);
      LexLessInContext(ha + ":", ma, mb, ":" + sa, ":" + sb);
      assert x == (ha + ":") + ma + (":" + sa) && y == (ha + ":") + mb + (":" + sb);
    } else {
      DecimalOrder(s1, s2, 2);
      LexLessSuffix(ha + ":" + ma + ":", sa, sb);
    }
  }

  lemma ClockFields(a: nat)
    requires a < SECONDS_PER_DAY
    ensures a == a / 3600 * 3600 + a / 60 % 60 * 60 + a % 60
    ensures a / 3600 < 24 && a / 60 % 60 < 60 && a % 60 < 60
  {
    assert a / 60 / 60 == a / 3600;
  }

  lemma ClockTextOrder(a: nat, b: nat)
    requires a < b < SECONDS_PER_DAY
    ensures |ClockText(a)| == |ClockText(b)| == 8
    ensures LexLess(ClockText(a), ClockText(b))
  {
    ClockFields(a);
    ClockFields(b);
    HmsTextOrder(a / 3600, a / 60 % 60, a % 60, b / 3600, b / 60 % 60, b % 60);
  }

  /** The year of an instant. */
  function YearOf(seconds: int): int {
    DateOf(seconds / SECONDS_PER_DAY).year
  }

  /** Within one year the earlier instant has the smaller text. */
  lemma SameYearOrder(s: int, t: int)
    requires s < t && YearOf(s) == YearOf(t)
    ensures LexLess(FormatUtc(s), FormatUtc(t))
  {
    hide LexLess, DateText, ClockText, DateOf, DayNumber;
    var a, b := DateOf(s / SECONDS_PER_DAY), DateOf(t / SECONDS_PER_DAY);
    var ca, cb := ClockText(s % SECONDS_PER_DAY), ClockText(t % SECONDS_PER_DAY);
    DayNumberMonotone(a, b);
    assert FormatUtc(s) == DateText(a) + ("T" + ca + "Z") && FormatUtc(t) == DateText(b) + ("T" + cb + "Z");
    if s / SECONDS_PER_DAY < t / SECONDS_PER_DAY {
      DateTextOrder(a, b);
      LexLessPrefix(DateText(a), DateText(b), "T" + ca + "Z", "T" + cb + "Z");
    } else {
      ClockTextOrder(s % SECONDS_PER_DAY, t % SECONDS_PER_DAY);
      LexLessInContext(DateText(a) + "T", ca, cb, "Z", "Z");
    }
  }

  // ----- Leading digits -----

  lemma {:induction false} DecimalIsDigits(n: nat, width: nat, i: nat)
    requires i < width
    ensures IsDigit(Decimal(n, width)[i])
  {
    if i < width - 1 {
      DecimalIsDigits(n / 10, width - 1, i);
    }
  }

  lemma {:induction false} DigitsFit(n: nat)
    ensures n < Pow10(DecimalLength(n))
  {
    if n >= 10 {
      DigitsFit(n / 10);
    }
  }

  lemma {:induction false} LongerIsLarger(m: nat, n: nat)
    requires m <= n
    ensures DecimalLength(m) <= DecimalLength(n)
  {
    if m >= 10 {
      LongerIsLarger(m / 10, n / 10);
    }
  }

  lemma {:induction false} Pow10Monotone(j: nat, k: nat)
    requires j <= k
    ensures Pow10(j) <= Pow10(k)
    decreases k
  {
    if j < k {
      Pow10Monotone(j, k - 1);
    }
  }

  lemma MagnitudeFits(n: nat)
    ensures n < Pow10(Width(n))
  {
    DigitsFit(n);
    Pow10Monotone(DecimalLength(n), Width(n));
  }

  lemma WiderIsLarger(m: nat, n: nat)
    requires m <= n
    ensures Width(m) <= Width(n)
  {
    LongerIsLarger(m, n);
  }

  /** A number without its last `k` decimal digits. */
  function DropDigits(n: nat, k: nat): nat {
    if k == 0 then n else DropDigits(n / 10, k - 1)
  }

  lemma {:induction false} DecimalPrefix(n: nat, width: nat, k: nat)
    ensures Decimal(n, width + k)[..width] == Decimal(DropDigits(n, k), width)
  {
    if k > 0 {
      DecimalPrefix(n / 10, width, k - 1);
      assert Decimal(n, width + k)[..width + (k - 1)] == Decimal(n / 10, width + (k - 1));
      assert Decimal(n, width + k)[..width] == Decimal(n, width + k)[..width + (k - 1)][..width];
    }
  }

  lemma {:induction false} DropFits(n: nat, width: nat, k: nat)
    requires n < Pow10(width + k)
    ensures DropDigits(n, k) < Pow10(width)
  {
    if k > 0 {
      assert Pow10(width + k) == 10 * Pow10(width + (k - 1));
      DropFits(n / 10, width, k - 1);
    }
  }

  // ----- Years of different text -----

  /** The number of digits a signed year is written with. */
  function Width(magnitude: nat): nat {
    if DecimalLength(magnitude) < 4 then 4 else DecimalLength(magnitude)
  }

  /** The first `width` digits of a written magnitude. */
  function Leading(magnitude: nat, width: nat): nat {
    if Width(magnitude) <= width then magnitude else DropDigits(magnitude, Width(magnitude) - width)
  }

  /**
   * Whether the text of the year `early` sorts before that of `late`: always, if `late` has four
   * digits and no sign; beyond the year 9999 only against another such year, whose digits must not
   * exceed as many first digits of `late`; before the year 0 only if the first digits of `early`
   * are below those of `late`.
   */
  predicate YearsKeepOrder(early: int, late: int)
    requires early < late
  {
    if 0 <= late <= 9999 then true
    else if late > 9999 then early > 9999 && early <= Leading(late, Width(early))
    else Leading(-early, Width(-late)) < -late
  }

  /** A written magnitude followed by a hyphen. */
  function SignedText(sign: char, magnitude: nat, rest: string): string {
    [sign] + Decimal(magnitude, Width(magnitude)) + "-" + rest
  }

  lemma SameWidthOrder(sign: char, m: nat, n: nat, restM: string, restN: string)
    requires m < n && Width(m) == Width(n)
    ensures LexLess(SignedText(sign, m, restM), SignedText(sign, n, restN))
  {
    MagnitudeFits(n);
    DecimalOrder(m, n, Width(n));
    LexLessInContext([sign], Decimal(m, Width(m)), Decimal(n, Width(n)), "-" + restM, "-" + restN);
    assert SignedText(sign, m, restM) == [sign] + Decimal(m, Width(m)) + ("-" + restM);
    assert SignedText(sign, n, restN) == [sign] + Decimal(n, Width(n)) + ("-" + restN);
  }

  /** The hyphen after a shorter year sorts before the next digit of a longer one. */
  lemma ShorterFirst(sign: char, m: nat, n: nat, restM: string, restN: string)
    requires Width(m) < Width(n)
    ensures if m <= Leading(n, Width(m)) then LexLess(SignedText(sign, m, restM), SignedText(sign, n, restN))
            else LexLess(SignedText(sign, n, restN), SignedText(sign, m, restM))
  {
    hide Width, LexLess;
    var w, k := Width(m), Width(n) - Width(m);
    var q := Leading(n, w);
    var dm, dn, dq := Decimal(m, w), Decimal(n, w + k), Decimal(q, w);
    MagnitudeFits(m);
    MagnitudeFits(n);
    DropFits(n, w, k);
    DecimalPrefix(n, w, k);
    var x, y := SignedText(sign, m, restM), SignedText(sign, n, restN);
    assert dn == dq + dn[w..];
    assert x == [sign] + dm + ("-" + restM) && y == [sign] + dq + (dn[w..] + "-" + restN);
    if m < q {
      DecimalOrder(m, q, w);
      LexLessInContext([sign], dm, dq, "-" + restM, dn[w..] + "-" + restN);
    } else if q < m {
      DecimalOrder(q, m, w);
      LexLessInContext([sign], dq, dm, dn[w..] + "-" + restN, "-" + restM);
    } else {
      HyphenFirst([sign] + dm, restM, dn[w..] + "-" + restN, x, y);
      DecimalIsDigits(n, w + k, w);
    }
  }

  lemma HyphenFirst(prefix: string, restX: string, restY: string, x: string, y: string)
    requires x == prefix + ("-" + restX) && y == prefix + restY
    ensures restY != "" && IsDigit(restY[0]) ==> LexLess(x, y)
  {
    assert x[..|prefix|] == y[..|prefix|];
    if restY != "" && IsDigit(restY[0]) {
      assert DiffersAt(x, y, |prefix|);
    }
  }

  lemma SignedYear(year: int, rest: string)
    ensures year > 9999 ==> YearText(year) + "-" + rest == SignedText('+', year, rest)
    ensures year < 0 ==> YearText(year) + "-" + rest == SignedText('-', -year, rest)
    ensures 0 <= year <= 9999 ==> IsDigit((YearText(year) + "-" + rest)[0])
  {
    if 0 <= year <= 9999 {
      DecimalIsDigits(year, 4, 0);
    }
  }

  lemma DifferentStart(x: string, y: string)
    requires x != "" && y != "" && x[0] < y[0]
    ensures LexLess(x, y)
  {
    assert DiffersAt(x, y, 0);
  }

  /** Texts that begin with different years are ordered as the years' own condition says. */
  lemma YearTextOrder(early: int, late: int, restE: string, restL: string)
    requires early < late
    ensures var x, y := YearText(early) + "-" + restE, YearText(late) + "-" + restL;
            if YearsKeepOrder(early, late) then LexLess(x, y) else LexLess(y, x)
  {
    hide LexLess, Width, Leading, YearText, SignedText;
    SignedYear(early, restE);
    SignedYear(late, restL);
    if 0 <= early && late <= 9999 {
      PlainYearOrder(early, late, restE, restL);
    } else if early > 9999 {
      PositiveYearOrder(early, late, restE, restL);
    } else if late < 0 {
      NegativeYearOrder(-late, -early, restL, restE);
    } else {
      MixedYearOrder(early, late, restE, restL);
    }
  }

  lemma PlainYearOrder(early: nat, late: nat, restE: string, restL: string)
    requires early < late <= 9999
    ensures LexLess(YearText(early) + "-" + restE, YearText(late) + "-" + restL)
  {
    hide LexLess, Decimal;
    Pow10Values();
    DecimalOrder(early, late, 4);
    LexLessPrefix(YearText(early), YearText(late), "-" + restE, "-" + restL);
    assert YearText(early) + "-" + restE == YearText(early) + ("-" + restE);
    assert YearText(late) + "-" + restL == YearText(late) + ("-" + restL);
  }

  lemma PositiveYearOrder(early: nat, late: nat, restE: string, restL: string)
    requires early < late
    ensures var x, y := SignedText('+', early, restE), SignedText('+', late, restL);
            if early <= Leading(late, Width(early)) then LexLess(x, y) else LexLess(y, x)
  {
    hide LexLess, SignedText, Width;
    WiderIsLarger(early, late);
    if Width(early) == Width(late) {
      SameWidthOrder('+', early, late, restE, restL);
    } else {
      ShorterFirst('+', early, late, restE, restL);
    }
  }

  lemma NegativeYearOrder(small: nat, large: nat, restS: string, restL: string)
    requires small < large
    ensures var x, y := SignedText('-', large, restL), SignedText('-', small, restS);
            if Leading(large, Width(small)) < small then LexLess(x, y) else LexLess(y, x)
  {
    hide LexLess, SignedText, Width;
    WiderIsLarger(small, large);
    if Width(small) == Width(large) {
      SameWidthOrder('-', small, large, restS, restL);
    } else {
      ShorterFirst('-', small, large, restS, restL);
    }
  }

  lemma MixedYearOrder(early: int, late: int, restE: string, restL: string)
    requires (early < 0 <= late) || (0 <= early <= 9999 < late)
    ensures var x, y := YearText(early) + "-" + restE, YearText(late) + "-" + restL;
            if late <= 9999 then LexLess(x, y) else LexLess(y, x)
  {
    hide LexLess, Decimal, YearText;
    SignedYear(early, restE);
    SignedYear(late, restL);
    var x, y := YearText(early) + "-" + restE, YearText(late) + "-" + restL;
    if late <= 9999 {
      DifferentStart(x, y);
    } else {
      DifferentStart(y, x);
    }
  }

  // ----- The order of the text -----

  /** Strings that differ first at `i` agree at every earlier place. */
  lemma AgreeBefore(a: string, b: string, i: nat, k: nat)
    ensures DiffersAt(a, b, i) && k < i ==> k < |a| && k < |b| && a[k] == b[k]
  {
    if DiffersAt(a, b, i) && k < i {
      assert a[..i][k] == b[..i][k];
    }
  }

  lemma LexLessOneWay(a: string, b: string)
    requires LexLess(a, b)
    ensures !LexLess(b, a)
  {
    var i: nat :| DiffersAt(a, b, i);
    forall j: nat
      ensures !DiffersAt(b, a, j)
    {
      AgreeBefore(b, a, j, i);
      AgreeBefore(a, b, i, j);
    }
  }

  lemma LaterYear(s: int, t: int)
    requires s <= t
    ensures YearOf(s) <= YearOf(t)
  {
    DayNumberMonotone(DateOf(t / SECONDS_PER_DAY), DateOf(s / SECONDS_PER_DAY));
  }

  lemma FormatStart(seconds: int) returns (rest: string)
    ensures FormatUtc(seconds) == YearText(YearOf(seconds)) + "-" + rest
  {
    hide YearText, Decimal, ClockText, DateOf;
    var date := DateOf(seconds / SECONDS_PER_DAY);
    rest := Decimal(date.month, 2) + "-" + Decimal(date.day, 2) + "T" + ClockText(seconds % SECONDS_PER_DAY) + "Z";
  }

  /**
   * For all instants: the later one has the larger text if and only if both lie in one year, or
   * their years' texts keep the order.
   */
  lemma TextOrderExactly(s: int, t: int)
    requires s < t
    ensures YearOf(s) <= YearOf(t)
    ensures LexLess(FormatUtc(s), FormatUtc(t)) <==>
            YearOf(s) == YearOf(t) || YearsKeepOrder(YearOf(s), YearOf(t))
  {
    hide FormatUtc, LexLess, YearsKeepOrder, YearOf, YearText;
    LaterYear(s, t);
    if YearOf(s) == YearOf(t) {
      SameYearOrder(s, t);
    } else {
      var restS := FormatStart(s);
      var restT := FormatStart(t);
      YearTextOrder(YearOf(s), YearOf(t), restS, restT);
      if !YearsKeepOrder(YearOf(s), YearOf(t)) {
        LexLessOneWay(FormatUtc(t), FormatUtc(s));
      }
    }
  }

  /** The instants whose year has four digits and no sign. */
  predicate FourDigitYear(seconds: int) {
    0 <= YearOf(seconds) <= 9999
  }

  /**
   * Section 5.1 of RFC 3339: between instants of the years 0 to 9999, the earlier instant has the
   * lexicographically smaller text.
   */
  lemma TextOrderIsTimeOrder(s: int, t: int)
    requires s < t && FourDigitYear(s) && FourDigitYear(t)
    ensures LexLess(FormatUtc(s), FormatUtc(t))
  {
    TextOrderExactly(s, t);
  }

  /** Every instant beyond the year 9999 sorts before all instants of the years 0 to 9999. */
  lemma TextOrderBreaksAtFiveDigits(s: int, t: int)
    requires FourDigitYear(s) && YearOf(t) > 9999
    ensures LexLess(FormatUtc(t), FormatUtc(s))
  {
    hide FormatUtc, LexLess, YearOf, YearText;
    var restS := FormatStart(s);
    var restT := FormatStart(t);
    MixedYearOrder(YearOf(s), YearOf(t), restS, restT);
  }

  /** The first second of the year 10000, in seconds from the epoch. */
  const YEAR_10000 := 253402300800

  lemma TurnOf10000()
    ensures DayNumber(Date(10000, 1, 1)) == 2932897 && DayNumber(Date(9999, 12, 31)) == 2932896
  {
    MonthsFillYear(9999);
  }

  /** The last second of the year 9999 and the next one sort the wrong way round. */
  lemma OrderFailsAfter9999()
    ensures Representable(YEAR_10000 - 1) && Representable(YEAR_10000)
    ensures LexLess(FormatUtc(YEAR_10000), FormatUtc(YEAR_10000 - 1))
  {
    hide FormatUtc, LexLess, DateOf, DayNumber, DaysBeforeMonth;
    TurnOf10000();
    DateOfDayNumber(Date(10000, 1, 1));
    DateOfDayNumber(Date(9999, 12, 31));
    assert YearOf(YEAR_10000) == 10000 && YearOf(YEAR_10000 - 1) == 9999;
    TextOrderBreaksAtFiveDigits(YEAR_10000 - 1, YEAR_10000);
  }

  /** Beyond the year 9999 the order may hold, and before the year 0 it may fail. */
  lemma OrderBeyondFourDigits()
    ensures YearsKeepOrder(10000, 20000) && !YearsKeepOrder(20000, 100000)
    ensures !YearsKeepOrder(-2000, -1000) && YearsKeepOrder(-10000, -1001)
  {
  }

  lemma SmallDecimals()
    ensures Decimal(0, 2) == "00" && Decimal(1, 2) == "01" && Decimal(1970, 4) == "1970"
  {
    hide Decimal;
    DecimalNext(0, 1);
    DecimalNext(0, 0);
    DecimalNext(1, 1);
    DecimalNext(1970, 3);
    DecimalNext(197, 2);
    DecimalNext(19, 1);
    DecimalNext(1, 0);
  }

  /** The text of the epoch is the one the parser falls back to. */
  lemma EpochText()
    ensures FormatUtc(0) == EPOCH_TEXT
  {
    hide Decimal, DateOf, DayNumber;
    EpochIsDayZero();
    DateOfDayNumber(Date(1970, 1, 1));
    assert DateOf(0) == Date(1970, 1, 1);
    SmallDecimals();
    assert DateText(Date(1970, 1, 1)) == "1970-01-01";
    assert ClockText(0) == "00:00:00";
  }
}
