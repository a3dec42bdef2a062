/**
 * Arithmetic used by the generator: powers of ten and of 256, the
 * big-endian reading and writing of byte strings, and the facts about
 * integer division that connect them.
 */
module Numeric {
  import opened Common

  function Pow10(n: nat): (r: nat)
    ensures r >= 1
  {
    if n == 0 then 1 else 10 * Pow10(n - 1)
  }

  function Pow256(n: nat): (r: nat)
    ensures r >= 1
  {
    if n == 0 then 1 else 256 * Pow256(n - 1)
  }

  /** Quotient and remainder are determined by the division equation. */
  lemma DivModUnique(a: int, b: int, q: int, r: int)
    requires b > 0 && 0 <= r < b && a == q * b + r
    ensures a / b == q && a % b == r
  {
    var q', r' := a / b, a % b;
    assert (q' - q) * b == r - r';
    MulSign(q' - q, b);
  }

  lemma MulSign(x: int, b: int)
    requires b > 0
    ensures x >= 1 ==> x * b >= b
    ensures x <= -1 ==> x * b <= -b
  {
  }

  lemma MulMonotone(x: int, y: int, b: int)
    requires b >= 0
    ensures x >= y ==> x * b >= y * b
  {
  }

  /** The quotient of a natural number by a positive one is at most the number, and zero exactly below the divisor. */
  lemma DivBounds(a: int, b: int)
    requires a >= 0 && b > 0
    ensures 0 <= a / b <= a
    ensures a / b == 0 <==> a < b
  {
    var q, r := a / b, a % b;
    assert a == q * b + r;
    MulMonotone(b, 1, q);
    if q >= 1 {
      MulMonotone(q, 1, b);
    }
  }

  /** Appending digit d to a number of at most n digits gives one of at most n + 1 digits. */
  lemma AppendDigit(s: nat, d: nat, n: nat)
    requires s < Pow10(n) && d <= 9
    ensures s * 10 + d < Pow10(n + 1)
    ensures (s * 10 + d) / 10 == s && (s * 10 + d) % 10 == d
  {
    DivModUnique(s * 10 + d, 10, s, d);
  }

  /** Dividing by b and then by c is dividing by b * c. */
  lemma DivDiv(a: nat, b: nat, c: nat)
    requires b > 0 && c > 0
    ensures a / b / c == a / (b * c)
  {
    var q, r := a / (b * c), a % (b * c);
    assert a == q * (b * c) + r;
    var r1, r0 := r / b, r % b;
    assert r == r1 * b + r0;
    assert r1 < c by {
      MulMonotone(r1, c, b);
    }
    assert a == (q * c + r1) * b + r0;
    DivModUnique(a, b, q * c + r1, r0);
    DivModUnique(a / b, c, q, r1);
  }

  /** The remainder modulo b * m splits into the remainder modulo b and the rest. */
  lemma ModSplit(c: nat, b: nat, m: nat)
    requires b > 0 && m > 0
    ensures c % (b * m) == (c / b % m) * b + c % b
  {
    var q, r := c / b, c % b;
    var hi, lo := q / m, q % m;
    assert q == hi * m + lo;
    assert c == hi * (b * m) + (lo * b + r);
    assert lo * b + r < b * m by {
      assert lo <= m - 1;
      MulMonotone(m - 1, lo, b);
      assert (m - 1) * b == m * b - b;
    }
    DivModUnique(c, b * m, hi, lo * b + r);
  }

  /** The number formed by the n least significant decimal digits of x. */
  function LowDigits(x: nat, n: nat): (r: nat)
    ensures r < Pow10(n)
  {
    if n == 0 then 0 else LowDigits(x / 10, n - 1) * 10 + x % 10
  }

  /** Keeping the n low digits is reducing modulo 10^n. */
  lemma {:induction false} LowDigitsIsMod(x: nat, n: nat)
    ensures LowDigits(x, n) == x % Pow10(n)
  {
    if n > 0 {
      LowDigitsIsMod(x / 10, n - 1);
      ModSplit(x, 10, Pow10(n - 1));
    }
  }

  /** The value of a byte string read high-order byte first. */
  function BigEndian(bs: seq<byte>): nat
  {
    if bs == [] then 0 else BigEndian(bs[..|bs| - 1]) * 256 + bs[|bs| - 1]
  }

  lemma BigEndianFour(b0: byte, b1: byte, b2: byte, b3: byte)
    ensures BigEndian([b0, b1, b2, b3]) == b0 * 0x100_0000 + b1 * 0x1_0000 + b2 * 0x100 + b3
  {
    assert BigEndian([b0]) == b0 by {
      assert [b0][..0] == [];
    }
    assert BigEndian([b0, b1]) == b0 * 0x100 + b1 by {
      assert [b0, b1][..1] == [b0];
    }
    assert BigEndian([b0, b1, b2]) == b0 * 0x1_0000 + b1 * 0x100 + b2 by {
      assert [b0, b1, b2][..2] == [b0, b1];
    }
    assert [b0, b1, b2, b3][..3] == [b0, b1, b2];
  }

  /** The n low-order bytes of c, high-order byte first. */
  function BigEndianBytes(c: nat, n: nat): (bs: seq<byte>)
    ensures |bs| == n
  {
    if n == 0 then [] else BigEndianBytes(c / 256, n - 1) + [c % 256]
  }

  /** Byte i of the encoding is what C obtains with `(c >> 8*(n-1-i)) & 0xFF`. */
  lemma {:induction false} BigEndianBytesAt(c: nat, n: nat, i: nat)
    requires i < n
    ensures BigEndianBytes(c, n)[i] == c / Pow256(n - 1 - i) % 256
  {
    if i < n - 1 {
      BigEndianBytesAt(c / 256, n - 1, i);
      DivDiv(c, 256, Pow256(n - 2 - i));
    }
  }

  /** Reading the encoding back gives the number modulo 256^n. */
  lemma {:induction false} BigEndianBytesRoundTrip(c: nat, n: nat)
    ensures BigEndian(BigEndianBytes(c, n)) == c % Pow256(n)
  {
    if n > 0 {
      var bs := BigEndianBytes(c, n);
      assert bs[..n - 1] == BigEndianBytes(c / 256, n - 1);
      BigEndianBytesRoundTrip(c / 256, n - 1);
      ModSplit(c, 256, Pow256(n - 1));
    }
  }

  /** A number that fits in n bytes is read back exactly. */
  lemma BigEndianBytesRoundTripExact(c: nat, n: nat)
    requires c < Pow256(n)
    ensures BigEndian(BigEndianBytes(c, n)) == c
  {
    BigEndianBytesRoundTrip(c, n);
  }

  lemma Pow256Eight()
    ensures Pow256(8) == TWO_64
  {
  }
}
