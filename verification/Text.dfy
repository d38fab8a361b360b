/** Decimal text, and the lexicographic order on strings. */
module Text {
  function Digit(n: nat): char
    requires n < 10
  {
    ('0' as int + n) as char
  }

  predicate IsDigit(c: char) {
    '0' <= c <= '9'
  }

  function Pow10(k: nat): (p: nat)
    ensures p > 0
  {
    if k == 0 then 1 else 10 * Pow10(k - 1)
  }

  /** The low `width` decimal digits of `n`, with leading zeros. */
  function Decimal(n: nat, width: nat): (s: string)
    ensures |s| == width
  {
    if width == 0 then "" else Decimal(n / 10, width - 1) + [Digit(n % 10)]
  }

  ghost predicate DiffersAt(a: string, b: string, i: nat) {
    i < |a| && i < |b| && a[..i] == b[..i] && a[i] < b[i]
  }

  /** Lexicographic order, for strings neither of which is a prefix of the other. */
  ghost predicate LexLess(a: string, b: string) {
    exists i: nat :: DiffersAt(a, b, i)
  }

  lemma LexLessInContext(prefix: string, a: string, b: string, restA: string, restB: string)
    requires |a| == |b| && LexLess(a, b)
    ensures LexLess(prefix + a + restA, prefix + b + restB)
  {
    var i: nat :| DiffersAt(a, b, i);
    var x, y := prefix + a + restA, prefix + b + restB;
    var k := |prefix| + i;
    forall j | 0 <= j < k
      ensures x[j] == y[j]
    {
      if j >= |prefix| {
        assert a[j - |prefix|] == a[..i][j - |prefix|] && b[j - |prefix|] == b[..i][j - |prefix|];
      }
    }
    assert x[..k] == y[..k];
    assert DiffersAt(x, y, k);
  }

  lemma DecimalNext(n: nat, width: nat)
    ensures Decimal(n, width + 1) == Decimal(n / 10, width) + [Digit(n % 10)]
    ensures Decimal(n, 0) == ""
  {
  }

  lemma LastDigitOrder(a: nat, b: nat, width: nat)
    requires a < b < Pow10(width) && a / 10 == b / 10
    ensures LexLess(Decimal(a, width), Decimal(b, width))
  {
    assert DiffersAt(Decimal(a, width), Decimal(b, width), width - 1);
  }

  /** Decimal texts of the same width are ordered like the numbers. */
  lemma {:induction false} DecimalOrder(a: nat, b: nat, width: nat)
    requires a < b < Pow10(width)
    ensures LexLess(Decimal(a, width), Decimal(b, width))
  {
    hide LexLess;
    if a / 10 == b / 10 {
      LastDigitOrder(a, b, width);
    } else if width > 0 {
      hide Decimal;
      DecimalOrder(a / 10, b / 10, width - 1);
      LexLessInContext("", Decimal(a / 10, width - 1), Decimal(b / 10, width - 1), [Digit(a % 10)], [Digit(b % 10)]);
      DecimalNext(a, width - 1);
      DecimalNext(b, width - 1);
      assert "" + Decimal(a / 10, width - 1) + [Digit(a % 10)] == Decimal(a, width);
      assert "" + Decimal(b / 10, width - 1) + [Digit(b % 10)] == Decimal(b, width);
    }
  }
}
