/** Hexadecimal text, as the `hex` crate writes and reads it. */
module Hex {
  import opened Wrappers
  import opened Bytes

  const DIGITS := "0123456789abcdef"

  function HexDigit(nibble: byte): char
    requires nibble < 16
  {
    DIGITS[nibble as nat]
  }

  /** Both letter cases are read. */
  function DigitValue(c: char): Option<byte> {
    if '0' <= c <= '9' then Some((c as int - '0' as int) as byte)
    else if 'a' <= c <= 'f' then Some((c as int - 'a' as int + 10) as byte)
    else if 'A' <= c <= 'F' then Some((c as int - 'A' as int + 10) as byte)
    else None
  }

  function PairValue(high: byte, low: byte): byte {
    ((high & 0xF) << 4) | (low & 0xF)
  }

  function Encode(bytes: seq<byte>): (text: string)
    ensures |text| == 2 * |bytes|
  {
    if bytes == [] then []
    else [HexDigit(bytes[0] >> 4), HexDigit(bytes[0] & 0xF)] + Encode(bytes[1..])
  }

  function Decode(text: string): Option<seq<byte>> {
    if text == "" then Some([])
    else if |text| == 1 then None
    else
      match (DigitValue(text[0]), DigitValue(text[1]), Decode(text[2..]))
      case (Some(h), Some(l), Some(rest)) => Some([PairValue(h, l)] + rest)
      case _ => None
  }

  lemma DigitRoundTrip(nibble: byte)
    requires nibble < 16
    ensures DigitValue(HexDigit(nibble)) == Some(nibble)
    ensures '0' <= HexDigit(nibble) <= '9' || 'a' <= HexDigit(nibble) <= 'f'
  {
    var n := nibble as nat;
    assert n as byte == nibble;
    if n < 10 {
      assert HexDigit(nibble) as int == '0' as int + n;
    } else {
      assert HexDigit(nibble) as int == 'a' as int + n - 10;
    }
  }

  lemma PairRoundTrip(b: byte)
    ensures PairValue(b >> 4, b & 0xF) == b
  {
  }

  lemma {:induction false} RoundTrip(bytes: seq<byte>)
    ensures Decode(Encode(bytes)) == Some(bytes)
  {
    hide HexDigit, DigitValue, PairValue;
    if bytes != [] {
      RoundTrip(bytes[1..]);
      DigitRoundTrip(bytes[0] >> 4);
      DigitRoundTrip(bytes[0] & 0xF);
      PairRoundTrip(bytes[0]);
      assert Encode(bytes)[2..] == Encode(bytes[1..]);
      assert bytes == [bytes[0]] + bytes[1..];
    }
  }

  // ----- Comparing digests as text -----

  function ToLower(c: char): char {
    if 'A' <= c <= 'Z' then (c as int + 32) as char else c
  }

  /** Rust's `eq_ignore_ascii_case`. */
  predicate EqualIgnoringCase(a: string, b: string) {
    |a| == |b| && forall i :: 0 <= i < |a| ==> ToLower(a[i]) == ToLower(b[i])
  }

  lemma {:induction false} EncodeIsLower(bytes: seq<byte>, i: nat)
    requires i < |Encode(bytes)|
    ensures ToLower(Encode(bytes)[i]) == Encode(bytes)[i]
  {
    if i < 2 {
      DigitRoundTrip(bytes[0] >> 4);
      DigitRoundTrip(bytes[0] & 0xF);
    } else {
      EncodeIsLower(bytes[1..], i - 2);
    }
  }

  /** Hex digests are equal as text, in either sense, exactly when the digests are equal. */
  lemma DigestsCompare(a: seq<byte>, b: seq<byte>)
    ensures EqualIgnoringCase(Encode(a), Encode(b)) <==> a == b
    ensures Encode(a) == Encode(b) <==> a == b
  {
    RoundTrip(a);
    RoundTrip(b);
    if EqualIgnoringCase(Encode(a), Encode(b)) {
      forall i | 0 <= i < |Encode(a)|
        ensures Encode(a)[i] == Encode(b)[i]
      {
        EncodeIsLower(a, i);
        EncodeIsLower(b, i);
      }
      assert Encode(a) == Encode(b);
    }
  }
}
