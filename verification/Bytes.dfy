/** Bytes and the little- and big-endian integer codecs shared by the writer and the readers. */
module Bytes {
  import opened Arithmetic

  type byte = bv8

  function Nibble(n: nat): (b: bv4)
    requires n < 16
    ensures b as nat == n
  {
    n as bv4
  }

  function JoinNibbles(high: bv4, low: bv4): (b: byte)
    ensures b as nat == 16 * (high as nat) + (low as nat)
  {
    ((high as byte) << 4) | (low as byte)
  }

  /** Truncation of an unsigned integer to its low byte. */
  function ByteOf(n: nat): (b: byte)
    ensures b as nat == n % 256
  {
    var m := n % 256;
    JoinNibbles(Nibble(m / 16), Nibble(m % 16))
  }

  lemma SmallRemainder(n: nat)
    requires n < 256
    ensures n % 256 == n
  {
  }

  lemma ByteRange(b: byte)
    ensures b as nat < 256
  {
  }

  lemma ByteInjective(a: byte, b: byte)
    requires a as nat == b as nat
    ensures a == b
  {
  }

  lemma ByteOfValue(b: byte, n: nat)
    requires n == b as nat
    ensures ByteOf(n) == b
  {
    hide ByteOf;
    ByteRange(b);
    SmallRemainder(n);
    ByteInjective(ByteOf(n), b);
  }

  lemma ByteOfItself(b: byte)
    ensures ByteOf(b as nat) == b
  {
    hide ByteOf;
    var n := b as nat;
    ByteOfValue(b, n);
  }

  function Pow256(k: nat): (p: nat)
    ensures p > 0
  {
    if k == 0 then 1 else 256 * Pow256(k - 1)
  }

  function ToLittleEndian(n: nat, width: nat): (bytes: seq<byte>)
    ensures |bytes| == width
  {
    if width == 0 then [] else [ByteOf(n)] + ToLittleEndian(n / 256, width - 1)
  }

  function FromLittleEndian(bytes: seq<byte>): nat {
    if bytes == [] then 0 else bytes[0] as nat + 256 * FromLittleEndian(bytes[1..])
  }

  function Reverse<T>(s: seq<T>): (r: seq<T>)
    ensures |r| == |s|
  {
    if s == [] then [] else Reverse(s[1..]) + [s[0]]
  }

  function FromBigEndian(bytes: seq<byte>): nat {
    FromLittleEndian(Reverse(bytes))
  }

  // ----- 16-bit words -----

  function LowByte(w: bv16): byte {
    (w & 0xFF) as byte
  }

  function HighByte(w: bv16): byte {
    (w >> 8) as byte
  }

  function JoinBytes(high: byte, low: byte): bv16 {
    ((high as bv16) << 8) | (low as bv16)
  }

  lemma JoinSplit(w: bv16)
    ensures JoinBytes(HighByte(w), LowByte(w)) == w
  {
  }

  /** `to_le_bytes` on a 16-bit word. */
  function WordToLittleEndian(w: bv16): (bytes: seq<byte>)
    ensures |bytes| == 2
  {
    [LowByte(w), HighByte(w)]
  }

  /** `as u16`: truncation of an unsigned integer to 16 bits. */
  function WordOf(n: nat): bv16 {
    JoinBytes(ByteOf(n / 256), ByteOf(n))
  }

  lemma ByteOfSum(low: byte, high: byte, n: nat)
    requires n == low as nat + 256 * (high as nat)
    ensures ByteOf(n) == low && ByteOf(n / 256) == high
  {
    hide ByteOf;
    ByteRange(low);
    ByteRange(high);
    DivisionUnique(n, 256, high as nat, low as nat);
    SmallRemainder(low as nat);
    SmallRemainder(high as nat);
    ByteInjective(ByteOf(n), low);
    ByteInjective(ByteOf(n / 256), high);
  }

  /** A word written in little-endian order reads back as itself. */
  lemma WordRoundTrip(w: bv16)
    ensures WordOf(FromLittleEndian(WordToLittleEndian(w))) == w
  {
    hide ByteOf, JoinBytes, LowByte, HighByte;
    var bytes := WordToLittleEndian(w);
    assert FromLittleEndian(bytes[1..][1..]) == 0;
    assert FromLittleEndian(bytes[1..]) == HighByte(w) as nat;
    ByteOfSum(LowByte(w), HighByte(w), FromLittleEndian(bytes));
    JoinSplit(w);
  }

  /** `k` copies of the zero byte. */
  function Zeros(k: nat): (z: seq<byte>)
    ensures |z| == k
  {
    seq(k, _ => 0)
  }

  /** Writing an integer in `width` little-endian bytes keeps it modulo the width, and nothing else. */
  lemma {:induction false} LittleEndianRoundTrip(n: nat, width: nat)
    ensures FromLittleEndian(ToLittleEndian(n, width)) == n % Pow256(width)
  {
    if width > 0 {
      LittleEndianRoundTrip(n / 256, width - 1);
      var bytes := ToLittleEndian(n, width);
      assert bytes[0] == ByteOf(n) && bytes[1..] == ToLittleEndian(n / 256, width - 1);
      ModuloPeel(n, Pow256(width - 1));
    }
  }

  lemma ModuloPeel(n: nat, m: nat)
    requires m > 0
    ensures n % (256 * m) == n % 256 + 256 * ((n / 256) % m)
  {
    var h := n / 256;
    var q, r := h / m, h % m;
    DivisionLaw(h, m);
    assert q * (256 * m) == 256 * (q * m);
    DivisionUnique(n, 256 * m, q, n % 256 + 256 * r);
  }
}
