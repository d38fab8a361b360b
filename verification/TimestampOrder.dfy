/** Packed timestamps: decoding, and why a smaller value is an earlier instant with a smaller text. */
module TimestampOrder {
  import opened Wrappers
  import opened Arithmetic
  import opened Calendar
  import opened Text
  import opened Timestamps
  import opened TextOrder

  // ----- Packed timestamps -----

  function Pack(t: PackedTime): nat
    requires 2000 <= t.year
  {
    (t.year - 2000) * 0x400_0000 + t.month * 0x40_0000 + t.day * 0x2_0000
    + t.hour * 0x1000 + t.minute * 0x40 + t.second
  }

  /** Unpacking inverts packing, on every time that fits the fields; and packing inverts unpacking. */
  lemma UnpackInvertsPack(t: PackedTime)
    requires 2000 <= t.year < 2064 && t.month < 16 && t.day < 32 && t.hour < 32 && t.minute < 64 && t.second < 64
    ensures Unpack(Pack(t)) == t && Pack(t) < 0x1_0000_0000
  {
    var raw := Pack(t);
    var a := (t.year - 2000) * 16 + t.month;
    var b := a * 32 + t.day;
    var c := b * 32 + t.hour;
    var d := c * 64 + t.minute;
    DivisionUnique(raw, 64, d, t.second);
    DivisionUnique(d, 64, c, t.minute);
    DivisionUnique(c, 32, b, t.hour);
    DivisionUnique(b, 32, a, t.day);
    DivisionUnique(a, 16, t.year - 2000, t.month);
    NestedQuotients(raw);
  }

  lemma NestedQuotients(raw: nat)
    ensures raw / 0x40 / 0x40 == raw / 0x1000
    ensures raw / 0x40 / 0x40 / 0x20 == raw / 0x2_0000
    ensures raw / 0x40 / 0x40 / 0x20 / 0x20 == raw / 0x40_0000
    ensures raw / 0x40 / 0x40 / 0x20 / 0x20 / 0x10 == raw / 0x400_0000
  {
  }

  lemma PackInvertsUnpack(raw: nat)
    requires raw < 0x1_0000_0000
    ensures Pack(Unpack(raw)) == raw
  {
    NestedQuotients(raw);
    var d := raw / 64;
    var c := d / 64;
    var b := c / 32;
    var a := b / 32;
    DivisionLaw(raw, 64);
    DivisionLaw(d, 64);
    DivisionLaw(c, 32);
    DivisionLaw(b, 32);
    DivisionLaw(a, 16);
    assert a / 16 < 64;
  }

  // The date half and the clock half of a packed value.

  function PackedDate(year: int, month: nat, day: nat): int {
    (year - 2000) * 512 + month * 32 + day
  }

  function PackedClock(hour: nat, minute: nat, second: nat): nat {
    hour * 0x1000 + minute * 0x40 + second
  }

  lemma PackedDateOrder(y1: int, m1: nat, d1: nat, y2: int, m2: nat, d2: nat)
    requires m1 <= 12 && m2 <= 12 && d1 <= 31 && d2 <= 31
    ensures PackedDate(y1, m1, d1) < PackedDate(y2, m2, d2) ==> Date(y1, m1, d1).Before(Date(y2, m2, d2))
    ensures PackedDate(y1, m1, d1) == PackedDate(y2, m2, d2) ==> y1 == y2 && m1 == m2 && d1 == d2
  {
  }

  lemma PackedClockOrder(h1: nat, m1: nat, s1: nat, h2: nat, m2: nat, s2: nat)
    requires m1 < 60 && m2 < 60 && s1 < 60 && s2 < 60
    requires PackedClock(h1, m1, s1) < PackedClock(h2, m2, s2)
    ensures h1 * 3600 + m1 * 60 + s1 < h2 * 3600 + m2 * 60 + s2
  {
    if h1 < h2 {
      assert h1 + 1 <= h2;
    } else if m1 < m2 {
      assert h1 == h2 && m1 + 1 <= m2;
    } else {
      assert h1 == h2 && m1 == m2 && s1 < s2;
    }
  }

  lemma PackOrder(a: PackedTime, b: PackedTime)
    requires a.Valid() && b.Valid() && 2000 <= a.year && 2000 <= b.year && Pack(a) < Pack(b)
    ensures var da, db := Date(a.year, a.month, a.day), Date(b.year, b.month, b.day);
            && (da.Before(db) || da == db)
            && (da == db ==> a.hour * 3600 + a.minute * 60 + a.second < b.hour * 3600 + b.minute * 60 + b.second)
  {
    hide DaysInMonth;
    MonthLength(a.year, a.month);
    MonthLength(b.year, b.month);
    var d1, d2 := PackedDate(a.year, a.month, a.day), PackedDate(b.year, b.month, b.day);
    var c1, c2 := PackedClock(a.hour, a.minute, a.second), PackedClock(b.hour, b.minute, b.second);
    assert Pack(a) == d1 * 0x2_0000 + c1 && Pack(b) == d2 * 0x2_0000 + c2;
    assert c1 < 0x2_0000 && c2 < 0x2_0000;
    hide PackedDate, PackedClock, Pack;
    assert d1 < d2 || (d1 == d2 && c1 < c2);
    PackedDateOrder(a.year, a.month, a.day, b.year, b.month, b.day);
    if d1 == d2 {
      PackedClockOrder(a.hour, a.minute, a.second, b.hour, b.minute, b.second);
    }
  }

  lemma LocalTimeOrder(a: PackedTime, b: PackedTime)
    requires a.Valid() && b.Valid() && 2000 <= a.year && 2000 <= b.year && Pack(a) < Pack(b)
    ensures a.LocalSeconds() < b.LocalSeconds()
  {
    PackOrder(a, b);
    DayNumberMonotone(Date(a.year, a.month, a.day), Date(b.year, b.month, b.day));
  }

  lemma PackedYearHasFourDigits(t: PackedTime, seconds: int)
    requires t.Valid() && 2000 <= t.year < 2064
    requires t.LocalSeconds() - 86400 < seconds < t.LocalSeconds() + 86400
    ensures FourDigitYear(seconds)
  {
    var day := DayNumber(Date(t.year, t.month, t.day));
    assert day - 1 <= seconds / SECONDS_PER_DAY <= day + 1;
    var low, high := Date(1999, 1, 1), Date(2065, 1, 1);
    WithinYear(Date(t.year, t.month, t.day));
    YearsMonotone(2000, t.year);
    NextYear(t.year);
    YearsMonotone(t.year + 1, 2064);
    assert DayNumber(low) < seconds / SECONDS_PER_DAY < DayNumber(high);
    DayNumberMonotone(low, DateOf(seconds / SECONDS_PER_DAY));
    DayNumberMonotone(DateOf(seconds / SECONDS_PER_DAY), high);
  }

  lemma UnpackedYear(raw: nat)
    ensures 2000 <= Unpack(raw).year < 2064
    ensures Unpack(raw).Valid() ==> raw != 0
  {
  }

  /** The canonical text of a valid packed value is that of its instant. */
  lemma NormalizePacked(raw: nat, encoding: string, offset: int)
    requires encoding == "dahua_packed" || encoding == "dhav_packed"
    requires Unpack(raw).Valid()
    ensures NormalizeAt(raw, encoding, offset) == FormatUtc(Unpack(raw).UtcSeconds(offset))
  {
    UnpackedYear(raw);
  }

  lemma UnpackedOrder(r1: nat, r2: nat)
    requires r1 < r2 < 0x1_0000_0000 && Unpack(r1).Valid() && Unpack(r2).Valid()
    ensures Unpack(r1).LocalSeconds() < Unpack(r2).LocalSeconds()
  {
    PackInvertsUnpack(r1);
    PackInvertsUnpack(r2);
    LocalTimeOrder(Unpack(r1), Unpack(r2));
  }

  lemma PackedOrderAt(r1: nat, r2: nat, encoding: string, offset: int)
    requires encoding == "dahua_packed" || encoding == "dhav_packed"
    requires r1 < r2 < 0x1_0000_0000 && Unpack(r1).Valid() && Unpack(r2).Valid()
    requires -86400 < offset < 86400
    ensures LexLess(NormalizeAt(r1, encoding, offset), NormalizeAt(r2, encoding, offset))
  {
    UnpackedOrder(r1, r2);
    NormalizePacked(r1, encoding, offset);
    NormalizePacked(r2, encoding, offset);
    UnpackedYear(r1);
    UnpackedYear(r2);
    PackedYearHasFourDigits(Unpack(r1), Unpack(r1).UtcSeconds(offset));
    PackedYearHasFourDigits(Unpack(r2), Unpack(r2).UtcSeconds(offset));
    TextOrderIsTimeOrder(Unpack(r1).UtcSeconds(offset), Unpack(r2).UtcSeconds(offset));
  }

  /** A smaller packed value is an earlier instant, and its canonical text is lexicographically smaller. */
  lemma PackedOrder(r1: nat, r2: nat, encoding: string, zone: Option<string>)
    requires encoding == "dahua_packed" || encoding == "dhav_packed"
    requires r1 < r2 < 0x1_0000_0000 && Unpack(r1).Valid() && Unpack(r2).Valid()
    ensures Unpack(r1).LocalSeconds() < Unpack(r2).LocalSeconds()
    ensures LexLess(NormalizeTimestamp(r1, Some(encoding), zone), NormalizeTimestamp(r2, Some(encoding), zone))
  {
    UnpackedOrder(r1, r2);
    PackedOrderAt(r1, r2, encoding, ParseTimezoneOffset(zone));
  }
}
