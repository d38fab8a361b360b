/** Timestamp normalisation: raw header values, zone strings, and canonical UTC text. */
module Timestamps {
  import opened Wrappers
  import opened Calendar
  import opened Text

  // ----- Zone strings -----

  predicate IsWhitespace(c: char) {
    || 9 <= c as int <= 13 || c as int in {0x20, 0x85, 0xA0, 0x1680, 0x2028, 0x2029, 0x202F, 0x205F, 0x3000}
    || 0x2000 <= c as int <= 0x200A
  }

  function TrimStart(s: string): string {
    if s != "" && IsWhitespace(s[0]) then TrimStart(s[1..]) else s
  }

  function TrimEnd(s: string): string {
    if s != "" && IsWhitespace(s[|s| - 1]) then TrimEnd(s[..|s| - 1]) else s
  }

  function StripLeading(s: string, c: char): string {
    if s != "" && s[0] == c then StripLeading(s[1..], c) else s
  }

  function Upper(c: char): char {
    if 'a' <= c <= 'z' then (c as int - 32) as char else c
  }

  predicate IsUtcName(s: string) {
    || (|s| == 3 && Upper(s[0]) == 'U' && Upper(s[1]) == 'T' && Upper(s[2]) == 'C')
    || (|s| == 1 && Upper(s[0]) == 'Z')
  }

  function Split(s: string, separator: char): (parts: seq<string>)
    ensures parts != []
  {
    if s == "" then [""]
    else if s[0] == separator then [""] + Split(s[1..], separator)
    else
      var rest := Split(s[1..], separator);
      [[s[0]] + rest[0]] + rest[1..]
  }

  function DigitsValue(s: string): Option<nat> {
    if s == "" then Some(0)
    else if !IsDigit(s[|s| - 1]) then None
    else
      match DigitsValue(s[..|s| - 1])
      case Some(high) => Some(10 * high + (s[|s| - 1] as int - '0' as int))
      case None => None
  }

  /** `parse::<i32>`: an optional sign and at least one digit, in range. */
  function ParseI32(s: string): Option<int> {
    var signed := s != "" && (s[0] == '+' || s[0] == '-');
    var digits := if signed then s[1..] else s;
    if digits == "" then None
    else
      match DigitsValue(digits)
      case None => None
      case Some(n) =>
        var v: int := if signed && s[0] == '-' then -(n as int) else n;
        if -0x8000_0000 <= v < 0x8000_0000 then Some(v) else None
  }

  function OrZero(o: Option<int>): int {
    if o.Some? then o.value else 0
  }

  /** Two's complement reduction to 32 bits. */
  function Wrap32(n: int): int {
    (n + 0x8000_0000) % 0x1_0000_0000 - 0x8000_0000
  }

  function Signed(negative: bool, n: int): int {
    if negative then -n else n
  }

  /** The zone text without its sign: `HH:MM`, four characters `HHMM`, or a number of hours. */
  function HoursAndMinutes(clean: string): (int, int) {
    var parts := Split(clean, ':');
    if |parts| == 2 then (OrZero(ParseI32(parts[0])), OrZero(ParseI32(parts[1])))
    else if |clean| == 4 then (OrZero(ParseI32(clean[0..2])), OrZero(ParseI32(clean[2..4])))
    else (OrZero(ParseI32(clean)), 0)
  }

  /** An offset of a day or more either way is replaced by zero. */
  function OffsetSeconds(negative: bool, hours: int, mins: int): (seconds: int)
    ensures -86400 < seconds < 86400
  {
    var total := Wrap32(Signed(negative, hours * 3600 + mins * 60));
    if -86400 < total < 86400 then total else 0
  }

  function ZoneText(zone: Option<string>): string {
    if zone.Some? then TrimEnd(TrimStart(zone.value)) else ""
  }

  predicate Digitless(s: string) {
    forall i :: 0 <= i < |s| ==> !IsDigit(s[i])
  }

  lemma DigitlessNumber(s: string)
    requires Digitless(s)
    ensures OrZero(ParseI32(s)) == 0
  {
  }

  lemma {:induction false} DigitlessParts(s: string, separator: char)
    requires Digitless(s)
    ensures forall i :: 0 <= i < |Split(s, separator)| ==> Digitless(Split(s, separator)[i])
  {
    if s != "" {
      DigitlessParts(s[1..], separator);
    }
  }

  lemma {:induction false} DigitlessStrip(s: string, c: char)
    requires Digitless(s)
    ensures Digitless(StripLeading(s, c))
  {
    if s != "" && s[0] == c {
      DigitlessStrip(s[1..], c);
    }
  }

  lemma DigitlessZone(clean: string)
    requires Digitless(clean)
    ensures HoursAndMinutes(clean) == (0, 0)
  {
    hide ParseI32, Split;
    DigitlessParts(clean, ':');
    var parts := Split(clean, ':');
    DigitlessNumber(clean);
    if |parts| == 2 {
      DigitlessNumber(parts[0]);
      DigitlessNumber(parts[1]);
    } else if |clean| == 4 {
      DigitlessNumber(clean[0..2]);
      DigitlessNumber(clean[2..4]);
    }
  }

  lemma DigitlessOffset(s: string)
    ensures Digitless(s) ==> HoursAndMinutes(StripLeading(StripLeading(s, '+'), '-')) == (0, 0)
  {
    if Digitless(s) {
      DigitlessStrip(s, '+');
      DigitlessStrip(StripLeading(s, '+'), '-');
      DigitlessZone(StripLeading(StripLeading(s, '+'), '-'));
    }
  }

  /** Offset east of UTC in seconds; a text without a digit, like an absent one, means UTC. */
  function ParseTimezoneOffset(zone: Option<string>): (seconds: int)
    ensures -86400 < seconds < 86400
    ensures Digitless(ZoneText(zone)) ==> seconds == 0
  {
    var s := ZoneText(zone);
    if s == "" || IsUtcName(s) then 0
    else
      var clean := StripLeading(StripLeading(s, '+'), '-');
      var (hours, mins) := HoursAndMinutes(clean);
      DigitlessOffset(s);
      OffsetSeconds(s[0] == '-', hours, mins)
  }

  // ----- Instants as text -----

  const SECONDS_PER_DAY := 86400

  /** The instants the calendar library can represent: the years -262143 to 262142. */
  predicate Representable(seconds: int) {
    (DaysBeforeYear(-262143) - EPOCH_DAYS) * 86400 <= seconds < (DaysBeforeYear(262143) - EPOCH_DAYS) * 86400
  }

  function DecimalLength(n: nat): nat {
    if n < 10 then 1 else 1 + DecimalLength(n / 10)
  }

  /** Four digits for the years 0 to 9999; any other year carries a sign and at least four digits. */
  function YearText(year: int): string {
    if 0 <= year <= 9999 then Decimal(year, 4)
    else
      var magnitude: nat := if year < 0 then -year else year;
      var length := DecimalLength(magnitude);
      [if year < 0 then '-' else '+'] + Decimal(magnitude, if length < 4 then 4 else length)
  }

  function DateText(date: Date): string {
    YearText(date.year) + "-" + Decimal(date.month, 2) + "-" + Decimal(date.day, 2)
  }

  function ClockText(secondOfDay: nat): string {
    Decimal(secondOfDay / 3600, 2) + ":" + Decimal(secondOfDay / 60 % 60, 2) + ":" + Decimal(secondOfDay % 60, 2)
  }

  /** The instant as `YYYY-MM-DDTHH:MM:SSZ`. */
  function FormatUtc(seconds: int): string {
    DateText(DateOf(seconds / SECONDS_PER_DAY)) + "T" + ClockText(seconds % SECONDS_PER_DAY) + "Z"
  }

  const EPOCH_TEXT := "1970-01-01T00:00:00Z"

  function FormatOrEpoch(seconds: int): string {
    if Representable(seconds) then FormatUtc(seconds) else EPOCH_TEXT
  }

  // ----- Packed timestamps -----

  datatype PackedTime = PackedTime(year: int, month: nat, day: nat, hour: nat, minute: nat, second: nat)
  {
    predicate Valid() {
      Date(year, month, day).Valid() && hour < 24 && minute < 60 && second < 60
    }

    /** Seconds from the epoch on the local clock. */
    function LocalSeconds(): int
      requires Valid()
    {
      DayNumber(Date(year, month, day)) * SECONDS_PER_DAY + hour * 3600 + minute * 60 + second
    }

    /** The instant, when the clock runs `offset` seconds ahead of UTC. */
    function UtcSeconds(offset: int): int
      requires Valid()
    {
      LocalSeconds() - offset
    }
  }

  /** The six bit fields, from the low 32 bits. */
  function Unpack(raw: nat): PackedTime {
    PackedTime(
      (raw / 0x400_0000) % 0x40 + 2000,
      (raw / 0x40_0000) % 0x10,
      (raw / 0x2_0000) % 0x20,
      (raw / 0x1000) % 0x20,
      (raw / 0x40) % 0x40,
      raw % 0x40)
  }

  /** `as i64` on an unsigned 64-bit value. */
  function ToSigned64(raw: nat): int {
    if raw % 0x1_0000_0000_0000_0000 < 0x8000_0000_0000_0000 then raw % 0x1_0000_0000_0000_0000
    else raw % 0x1_0000_0000_0000_0000 - 0x1_0000_0000_0000_0000
  }

  /** A clock reading taken as local time of the zone. */
  function LocalToUtcText(seconds: int, offset: int): string {
    if !Representable(seconds) then EPOCH_TEXT
    else if offset == 0 then FormatUtc(seconds)
    else FormatOrEpoch(seconds - offset)
  }

  function NormalizeAt(raw: nat, encoding: string, offset: int): string {
    if raw == 0 then EPOCH_TEXT
    else if encoding == "dahua_packed" || encoding == "dhav_packed" then
      var t := Unpack(raw);
      if t.Valid() then FormatUtc(t.UtcSeconds(offset)) else FormatOrEpoch(ToSigned64(raw))
    else if encoding == "unix_millis" then LocalToUtcText(raw / 1000, offset)
    else LocalToUtcText(ToSigned64(raw), offset)
  }

  function NormalizeTimestamp(raw: nat, encoding: Option<string>, zone: Option<string>): string {
    NormalizeAt(raw, if encoding.Some? then encoding.value else "unix_seconds", ParseTimezoneOffset(zone))
  }
}
