/** The spellings of a zone offset that the parser accepts all mean the same offset. */
module ZoneSpellings {
  import opened Wrappers
  import opened Text
  import opened Timestamps

  lemma {:induction false} SplitWithout(s: string, separator: char)
    requires separator !in s
    ensures Split(s, separator) == [s]
  {
    if s != "" {
      SplitWithout(s[1..], separator);
      assert [s[0]] + s[1..] == s;
    }
  }

  lemma {:induction false} SplitOnce(a: string, separator: char, b: string)
    requires separator !in a && separator !in b
    ensures Split(a + [separator] + b, separator) == [a, b]
  {
    var s := a + [separator] + b;
    if a == "" {
      SplitWithout(b, separator);
      assert s[1..] == b;
    } else {
      SplitOnce(a[1..], separator, b);
      assert s[1..] == a[1..] + [separator] + b;
      assert [a[0]] + a[1..] == a;
    }
  }

  lemma DigitsValueSnoc(s: string, d: nat, v: nat)
    requires d < 10 && DigitsValue(s) == Some(v)
    ensures DigitsValue(s + [Digit(d)]) == Some(10 * v + d)
  {
    var t := s + [Digit(d)];
    assert t[..|t| - 1] == s;
  }

  /** Reading a decimal text returns the number. */
  lemma {:induction false} DecimalValue(n: nat, width: nat)
    requires n < Pow10(width)
    ensures DigitsValue(Decimal(n, width)) == Some(n)
  {
    if width > 0 {
      DecimalValue(n / 10, width - 1);
      DigitsValueSnoc(Decimal(n / 10, width - 1), n % 10, n / 10);
    }
  }

  lemma TwoDigits(n: nat)
    requires n < 100
    ensures IsDigit(Decimal(n, 2)[0]) && IsDigit(Decimal(n, 2)[1])
  {
    assert Decimal(n / 10, 1) == Decimal(n / 10 / 10, 0) + [Digit(n / 10 % 10)];
  }

  lemma ParseTwoDigits(n: nat)
    requires n < 100
    ensures ParseI32(Decimal(n, 2)) == Some(n)
    ensures IsDigit(Decimal(n, 2)[0]) && IsDigit(Decimal(n, 2)[1])
  {
    TwoDigits(n);
    assert Pow10(1) == 10;
    DecimalValue(n, 2);
  }

  lemma SignedZone(sign: char, clean: string)
    requires sign == '+' || sign == '-'
    requires clean != "" && IsDigit(clean[0]) && IsDigit(clean[|clean| - 1])
    ensures ZoneText(Some([sign] + clean)) == [sign] + clean
    ensures StripLeading(StripLeading([sign] + clean, '+'), '-') == clean
  {
    var s := [sign] + clean;
    assert s[1..] == clean;
    assert !IsWhitespace(s[0]) && !IsWhitespace(s[|s| - 1]);
  }

  /** The offset that a sign, hours and minutes stand for: none, if they make a day or more. */
  function OffsetOf(sign: char, hours: nat, mins: nat): int {
    var total := hours * 3600 + mins * 60;
    if total < 86400 then Signed(sign == '-', total) else 0
  }

  lemma NoWrap(negative: bool, hours: nat, mins: nat)
    requires hours < 100 && mins < 100
    ensures var total := hours * 3600 + mins * 60;
            OffsetSeconds(negative, hours, mins) == if total < 86400 then Signed(negative, total) else 0
  {
  }

  lemma SignIsNoName(s: string)
    requires s != "" && (s[0] == '+' || s[0] == '-')
    ensures !IsUtcName(s)
  {
  }

  lemma ParseSigned(sign: char, clean: string, hours: nat, mins: nat)
    requires sign == '+' || sign == '-'
    requires clean != "" && IsDigit(clean[0]) && IsDigit(clean[|clean| - 1])
    requires HoursAndMinutes(clean) == (hours, mins) && hours < 100 && mins < 100
    ensures ParseTimezoneOffset(Some([sign] + clean)) == OffsetOf(sign, hours, mins)
  {
    hide OffsetSeconds, HoursAndMinutes, ZoneText, StripLeading, IsUtcName;
    SignedZone(sign, clean);
    SignIsNoName([sign] + clean);
    NoWrap(sign == '-', hours, mins);
  }

  lemma ColonForm(hours: nat, mins: nat)
    requires hours < 100 && mins < 100
    ensures HoursAndMinutes(Decimal(hours, 2) + ":" + Decimal(mins, 2)) == (hours, mins)
  {
    ParseTwoDigits(hours);
    ParseTwoDigits(mins);
    SplitOnce(Decimal(hours, 2), ':', Decimal(mins, 2));
  }

  lemma CompactForm(hours: nat, mins: nat)
    requires hours < 100 && mins < 100
    ensures HoursAndMinutes(Decimal(hours, 2) + Decimal(mins, 2)) == (hours, mins)
  {
    ParseTwoDigits(hours);
    ParseTwoDigits(mins);
    var clean := Decimal(hours, 2) + Decimal(mins, 2);
    SplitWithout(clean, ':');
    assert clean[0..2] == Decimal(hours, 2) && clean[2..4] == Decimal(mins, 2);
  }

  lemma HoursForm(hours: nat)
    requires hours < 100
    ensures HoursAndMinutes(Decimal(hours, 2)) == (hours, 0)
  {
    ParseTwoDigits(hours);
    SplitWithout(Decimal(hours, 2), ':');
  }

  // ----- One number of any length -----

  predicate AllDigits(s: string) {
    forall i :: 0 <= i < |s| ==> IsDigit(s[i])
  }

  /** The residues of `n` modulo 2^32 that are less than a day. */
  predicate WrapsTo(n: int, x: int) {
    -86400 < x < 86400 && (x - n) % 0x1_0000_0000 == 0
  }

  lemma WrapIsResidue(n: int, x: int)
    requires WrapsTo(n, x)
    ensures Wrap32(n) == x
  {
  }

  lemma WrapResidue(n: int)
    ensures (Wrap32(n) - n) % 0x1_0000_0000 == 0
  {
  }

  lemma OneNumber(sign: char, clean: string, n: nat)
    requires sign == '+' || sign == '-'
    requires AllDigits(clean) && clean != "" && |clean| != 4 && DigitsValue(clean) == Some(n)
    ensures ParseTimezoneOffset(Some([sign] + clean)) ==
            OffsetSeconds(sign == '-', if n < 0x8000_0000 then n else 0, 0)
  {
    hide OffsetSeconds, ZoneText, StripLeading, IsUtcName, DigitsValue, Split;
    SignedZone(sign, clean);
    SignIsNoName([sign] + clean);
    assert ':' !in clean;
    SplitWithout(clean, ':');
    assert clean[0] != '+' && clean[0] != '-';
  }

  lemma OffsetWraps(negative: bool, n: nat)
    ensures var seconds, offset := if negative then -3600 * n else 3600 * n, OffsetSeconds(negative, n, 0);
            && (forall x :: WrapsTo(seconds, x) ==> offset == x)
            && (offset == 0 || WrapsTo(seconds, offset))
  {
    hide Wrap32;
    var seconds := if negative then -3600 * n else 3600 * n;
    assert Signed(negative, n * 3600 + 0 * 60) == seconds;
    WrapResidue(seconds);
    forall x | WrapsTo(seconds, x)
      ensures Wrap32(seconds) == x
    {
      WrapIsResidue(seconds, x);
    }
  }

  lemma NoOffset(negative: bool)
    ensures OffsetSeconds(negative, 0, 0) == 0
  {
  }

  /**
   * A single number, other than of four digits: so many hours, or none if it exceeds 31 bits. The
   * seconds wrap at 32 bits, and a day or more either way counts as none.
   */
  lemma HoursOnly(sign: char, clean: string, n: nat)
    requires sign == '+' || sign == '-'
    requires AllDigits(clean) && clean != "" && |clean| != 4 && DigitsValue(clean) == Some(n)
    ensures var offset := ParseTimezoneOffset(Some([sign] + clean));
            var seconds := if sign == '-' then -3600 * n else 3600 * n;
            && (n >= 0x8000_0000 ==> offset == 0)
            && (n < 0x8000_0000 ==>
                  && (forall x :: WrapsTo(seconds, x) ==> offset == x)
                  && (offset == 0 || WrapsTo(seconds, offset)))
  {
    hide ParseTimezoneOffset, DigitsValue, AllDigits, OffsetSeconds, WrapsTo;
    OneNumber(sign, clean, n);
    OffsetWraps(sign == '-', n);
    NoOffset(sign == '-');
  }

  // ----- Spelling variants -----

  /** A text of white space only. */
  predicate Blank(s: string) {
    forall i :: 0 <= i < |s| ==> IsWhitespace(s[i])
  }

  lemma {:induction false} TrimStartSkips(w: string, s: string)
    requires Blank(w) && (s == "" || !IsWhitespace(s[0]))
    ensures TrimStart(w + s) == s
  {
    if w == "" {
      assert w + s == s;
    } else {
      TrimStartSkips(w[1..], s);
      assert (w + s)[1..] == w[1..] + s;
    }
  }

  lemma {:induction false} TrimEndSkips(s: string, w: string)
    requires Blank(w) && (s == "" || !IsWhitespace(s[|s| - 1]))
    ensures TrimEnd(s + w) == s
  {
    if w == "" {
      assert s + w == s;
    } else {
      TrimEndSkips(s, w[..|w| - 1]);
      assert (s + w)[..|s + w| - 1] == s + w[..|w| - 1];
    }
  }

  /** White space around a zone text is ignored: spaces, tabs and line ends among others. */
  lemma SpaceIgnored(before: string, zone: string, after: string)
    requires Blank(before) && Blank(after)
    requires zone != "" && !IsWhitespace(zone[0]) && !IsWhitespace(zone[|zone| - 1])
    ensures ParseTimezoneOffset(Some(before + zone + after)) == ParseTimezoneOffset(Some(zone))
  {
    assert before + zone + after == before + (zone + after);
    TrimStartSkips(before, zone + after);
    TrimEndSkips(zone, after);
    TrimStartSkips("", zone);
    TrimEndSkips(zone, "");
    assert "" + zone == zone && zone + "" == zone;
  }

  lemma CommonSpaces()
    ensures IsWhitespace(' ') && IsWhitespace('\t') && IsWhitespace('\n') && IsWhitespace('\r')
    ensures !IsWhitespace('+') && !IsWhitespace('-') && !IsWhitespace(':') && !IsWhitespace('0') && !IsWhitespace('9')
  {
  }

  /**
   * `+HH:MM`, `+HHMM` and, for whole hours, `+HH` give the same offset, with
   * either sign, for all two-digit numbers: that many minutes if they make less than a day, else none.
   */
  lemma SpellingsAgree(sign: char, hours: nat, mins: nat)
    requires sign == '+' || sign == '-'
    requires hours < 100 && mins < 100
    ensures var offset := OffsetOf(sign, hours, mins);
            && ParseTimezoneOffset(Some([sign] + (Decimal(hours, 2) + ":" + Decimal(mins, 2)))) == offset
            && ParseTimezoneOffset(Some([sign] + (Decimal(hours, 2) + Decimal(mins, 2)))) == offset
            && (mins == 0 ==> ParseTimezoneOffset(Some([sign] + Decimal(hours, 2))) == offset)
  {
    ParseTwoDigits(hours);
    ParseTwoDigits(mins);
    ColonForm(hours, mins);
    CompactForm(hours, mins);
    HoursForm(hours);
    ParseSigned(sign, Decimal(hours, 2) + ":" + Decimal(mins, 2), hours, mins);
    ParseSigned(sign, Decimal(hours, 2) + Decimal(mins, 2), hours, mins);
    ParseSigned(sign, Decimal(hours, 2), hours, 0);
  }
}
