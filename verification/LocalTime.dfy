/** What clock reading a normalised timestamp stands for, and what its text says. */
module LocalTime {
  import opened Wrappers
  import opened Calendar
  import opened Text
  import opened Timestamps
  import opened TextOrder
  import opened TimestampOrder
  import opened ZoneSpellings

  // ----- Reading the text back -----

  /** The clock time of an instant, from its digits: hours, minutes and seconds of the day. */
  predicate ClockReads(secondOfDay: int, hour: nat, minute: nat, second: nat) {
    hour < 24 && minute < 60 && second < 60 && secondOfDay == hour * 3600 + minute * 60 + second
  }

  lemma YearReadsBack(year: nat)
    requires year <= 9999
    ensures |YearText(year)| == 4 && DigitsValue(YearText(year)) == Some(year)
  {
    hide Decimal;
    Pow10Values();
    DecimalValue(year, 4);
  }

  lemma TwoReadBack(n: nat)
    requires n < 100
    ensures |Decimal(n, 2)| == 2 && DigitsValue(Decimal(n, 2)) == Some(n)
  {
    hide Decimal;
    Pow10Values();
    DecimalValue(n, 2);
  }

  lemma DateReadsBack(date: Date)
    requires date.Valid() && 0 <= date.year <= 9999
    ensures var x := DateText(date);
            && |x| == 10 && x[4] == '-' && x[7] == '-'
            && DigitsValue(x[0..4]) == Some(date.year)
            && DigitsValue(x[5..7]) == Some(date.month)
            && DigitsValue(x[8..10]) == Some(date.day)
  {
    hide Decimal, YearText, DigitsValue, DaysInMonth;
    MonthLength(date.year, date.month);
    YearReadsBack(date.year);
    TwoReadBack(date.month);
    TwoReadBack(date.day);
    var x := DateText(date);
    assert x[0..4] == YearText(date.year) && x[5..7] == Decimal(date.month, 2) && x[8..10] == Decimal(date.day, 2);
  }

  lemma ClockReadsBack(secondOfDay: nat) returns (hour: nat, minute: nat, second: nat)
    requires secondOfDay < 86400
    ensures ClockReads(secondOfDay, hour, minute, second)
    ensures var x := ClockText(secondOfDay);
            && |x| == 8 && x[2] == ':' && x[5] == ':'
            && DigitsValue(x[0..2]) == Some(hour)
            && DigitsValue(x[3..5]) == Some(minute)
            && DigitsValue(x[6..8]) == Some(second)
  {
    hide Decimal, DigitsValue;
    ClockFields(secondOfDay);
    hour, minute, second := secondOfDay / 3600, secondOfDay / 60 % 60, secondOfDay % 60;
    TwoReadBack(hour);
    TwoReadBack(minute);
    TwoReadBack(second);
    var x := ClockText(secondOfDay);
    assert x[0..2] == Decimal(hour, 2) && x[3..5] == Decimal(minute, 2) && x[6..8] == Decimal(second, 2);
  }

  /**
   * The text of an instant of the years 0 to 9999, read digit by digit: the date of its day and the
   * clock time of its second of the day, with the separators of section 5.6 of RFC 3339.
   */
  lemma TextReadsBack(seconds: int) returns (date: Date, hour: nat, minute: nat, second: nat)
    requires FourDigitYear(seconds)
    ensures date.Valid() && DayNumber(date) == seconds / 86400
    ensures ClockReads(seconds % 86400, hour, minute, second)
    ensures var x := FormatUtc(seconds);
            && |x| == 20
            && x[4] == '-' && x[7] == '-' && x[10] == 'T' && x[13] == ':' && x[16] == ':' && x[19] == 'Z'
            && DigitsValue(x[0..4]) == Some(date.year)
            && DigitsValue(x[5..7]) == Some(date.month)
            && DigitsValue(x[8..10]) == Some(date.day)
            && DigitsValue(x[11..13]) == Some(hour)
            && DigitsValue(x[14..16]) == Some(minute)
            && DigitsValue(x[17..19]) == Some(second)
  {
    hide DateText, ClockText, DigitsValue, DayNumber, DateOf;
    date := DateOf(seconds / 86400);
    DateReadsBack(date);
    hour, minute, second := ClockReadsBack(seconds % 86400);
    var x, d, c := FormatUtc(seconds), DateText(date), ClockText(seconds % 86400);
    assert x[0..4] == d[0..4] && x[5..7] == d[5..7] && x[8..10] == d[8..10];
    assert x[11..13] == c[0..2] && x[14..16] == c[3..5] && x[17..19] == c[6..8];
  }

  /** The instants the formatter accepts are those of the calendar library's years. */
  lemma RepresentableExactly(seconds: int)
    ensures Representable(seconds) <==> -262143 <= YearOf(seconds) <= 262142
  {
    hide DateOf, DaysBeforeYear, DayNumber;
    var day := seconds / SECONDS_PER_DAY;
    YearBounds(day, -262143);
    YearBounds(day, 262143);
  }

  lemma YearBounds(day: int, year: int)
    ensures DateOf(day).year >= year <==> day >= DaysBeforeYear(year) - EPOCH_DAYS
  {
    hide DateOf, DaysBeforeYear;
    var first := Date(year, 1, 1);
    DayNumberMonotone(DateOf(day), first);
    DayNumberMonotone(first, DateOf(day));
    FirstDay(year);
  }

  lemma FirstDay(year: int)
    ensures Date(year, 1, 1).Valid() && DayNumber(Date(year, 1, 1)) == DaysBeforeYear(year) - EPOCH_DAYS
  {
  }

  // ----- Zones -----

  lemma DayAndClock(day: int, clock: nat)
    requires clock < 86400
    ensures (day * 86400 + clock) / 86400 == day && (day * 86400 + clock) % 86400 == clock
  {
  }

  /** The local clock reading of a packed time has its date and its clock time. */
  lemma LocalReading(t: PackedTime)
    requires t.Valid()
    ensures DateOf(t.LocalSeconds() / 86400) == Date(t.year, t.month, t.day)
    ensures ClockReads(t.LocalSeconds() % 86400, t.hour, t.minute, t.second)
  {
    hide DateOf, DayNumber, DaysInMonth;
    DateOfDayNumber(Date(t.year, t.month, t.day));
    DayAndClock(DayNumber(Date(t.year, t.month, t.day)), t.hour * 3600 + t.minute * 60 + t.second);
  }

  lemma NormalizePackedLocal(raw: nat, encoding: string, zone: Option<string>)
    requires encoding == "dahua_packed" || encoding == "dhav_packed"
    requires Unpack(raw).Valid()
    ensures NormalizeTimestamp(raw, Some(encoding), zone) ==
            FormatUtc(Unpack(raw).LocalSeconds() - ParseTimezoneOffset(zone))
  {
    hide FormatUtc, Unpack, ParseTimezoneOffset;
    NormalizePacked(raw, encoding, ParseTimezoneOffset(zone));
  }

  /**
   * A packed value: its text is that of the instant at which the zone's clock shows the packed date
   * and time.
   */
  lemma PackedLocalReading(raw: nat, encoding: string, zone: Option<string>) returns (s: int)
    requires encoding == "dahua_packed" || encoding == "dhav_packed"
    requires Unpack(raw).Valid()
    ensures NormalizeTimestamp(raw, Some(encoding), zone) == FormatUtc(s)
    ensures var local, t := s + ParseTimezoneOffset(zone), Unpack(raw);
            && DateOf(local / 86400) == Date(t.year, t.month, t.day)
            && ClockReads(local % 86400, t.hour, t.minute, t.second)
  {
    hide NormalizeTimestamp, FormatUtc, Unpack, ParseTimezoneOffset, DateOf, ClockReads;
    NormalizePackedLocal(raw, encoding, zone);
    LocalReading(Unpack(raw));
    s := Unpack(raw).LocalSeconds() - ParseTimezoneOffset(zone);
  }

  /**
   * A count of seconds in any encoding that is not packed or in milliseconds: the text is that of
   * the instant at which the zone's clock shows so many seconds, or the fallback text if the reading
   * or the instant is outside the calendar.
   */
  lemma UnixLocalReading(raw: nat, encoding: Option<string>, zone: Option<string>) returns (s: int)
    requires 0 < raw < 0x1_0000_0000_0000_0000
    requires encoding.None? || encoding.value !in {"dahua_packed", "dhav_packed", "unix_millis"}
    ensures s + ParseTimezoneOffset(zone) == if raw < 0x8000_0000_0000_0000 then raw else raw - 0x1_0000_0000_0000_0000
    ensures NormalizeTimestamp(raw, encoding, zone) ==
            if Representable(s + ParseTimezoneOffset(zone)) && Representable(s) then FormatUtc(s)
            else "1970-01-01T00:00:00Z"
  {
    hide FormatUtc, Representable, ParseTimezoneOffset;
    s := ToSigned64(raw) - ParseTimezoneOffset(zone);
  }

  /** A count of milliseconds: likewise, for its whole seconds. */
  lemma MillisLocalReading(raw: nat, zone: Option<string>) returns (s: int)
    requires 0 < raw
    ensures (s + ParseTimezoneOffset(zone)) * 1000 <= raw < (s + ParseTimezoneOffset(zone) + 1) * 1000
    ensures NormalizeTimestamp(raw, Some("unix_millis"), zone) ==
            if Representable(s + ParseTimezoneOffset(zone)) && Representable(s) then FormatUtc(s)
            else "1970-01-01T00:00:00Z"
  {
    hide FormatUtc, Representable, ParseTimezoneOffset;
    s := raw / 1000 - ParseTimezoneOffset(zone);
  }

  /** An invalid packed value is read as seconds of UTC, whatever the zone; and zero is the epoch in every encoding. */
  lemma InvalidPackedIsUnix(raw: nat, encoding: string, zone: Option<string>)
    requires encoding == "dahua_packed" || encoding == "dhav_packed"
    requires 0 < raw < 0x1_0000_0000_0000_0000 && !Unpack(raw).Valid()
    ensures NormalizeTimestamp(raw, Some(encoding), zone) == NormalizeTimestamp(raw, Some("unix_seconds"), None)
  {
    hide FormatUtc, Representable, Unpack;
    assert ParseTimezoneOffset(None) == 0;
  }

  lemma ZeroIsEpoch(encoding: Option<string>, zone: Option<string>)
    ensures NormalizeTimestamp(0, encoding, zone) == "1970-01-01T00:00:00Z"
  {
  }

  /** A clock eight hours ahead of UTC that shows 2024-01-15 10:00:00 means 02:00:00 of that day. */
  lemma EastOfUtc()
    ensures NormalizeTimestamp(Pack(PackedTime(2024, 1, 15, 10, 0, 0)), Some("dahua_packed"), Some("+08:00")) ==
            FormatUtc(1705284000)
  {
    hide FormatUtc, Unpack, Pack, ParseTimezoneOffset, NormalizeTimestamp;
    var t := PackedTime(2024, 1, 15, 10, 0, 0);
    MorningOf15January();
    UnpackInvertsPack(t);
    EightHours();
    NormalizePackedLocal(Pack(t), "dahua_packed", Some("+08:00"));
  }

  lemma MorningOf15January()
    ensures PackedTime(2024, 1, 15, 10, 0, 0).Valid()
    ensures PackedTime(2024, 1, 15, 10, 0, 0).LocalSeconds() == 1705312800
  {
    assert DayNumber(Date(2024, 1, 15)) == 19737;
  }

  lemma EightHours()
    ensures ParseTimezoneOffset(Some("+08:00")) == 28800
  {
    hide ParseTimezoneOffset, Decimal;
    SpellingsAgree('+', 8, 0);
    EightDecimals();
    assert ['+'] + (Decimal(8, 2) + ":" + Decimal(0, 2)) == "+08:00";
  }

  lemma EightDecimals()
    ensures Decimal(8, 2) == "08" && Decimal(0, 2) == "00"
  {
    hide Decimal;
    SmallDecimals();
    DecimalNext(8, 1);
    DecimalNext(0, 0);
  }
}
