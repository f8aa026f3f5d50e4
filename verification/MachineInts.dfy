/** The fixed-width integers of the C++ sources, their truncating remainder, and the
    few facts of modular arithmetic that the other modules build on. */
module MachineInts {

  type int64 = x: int | -0x8000_0000_0000_0000 <= x < 0x8000_0000_0000_0000
  type uint64 = x: int | 0 <= x < 0x1_0000_0000_0000_0000
  newtype byte = x: int | 0 <= x < 0x100

  const INT64_MIN: int64 := -0x8000_0000_0000_0000
  const INT64_MAX: int64 := 0x7FFF_FFFF_FFFF_FFFF
  const UINT64_MAX: uint64 := 0xFFFF_FFFF_FFFF_FFFF

  /** The quotient of C++, rounded towards zero. */
  function Quot(a: int, b: int): int
    requires b > 0
  {
    if a >= 0 then a / b else -((-a) / b)
  }

  /** C++ `a % b` for a positive divisor: the quotient is truncated toward zero, so the
      remainder takes the sign of `a`. */
  function Rem(a: int, b: int): int
    requires b > 0
  {
    if a >= 0 then a % b else -((-a) % b)
  }

  function Pow2(k: nat): (p: nat)
    ensures p > 0
  {
    if k == 0 then 1 else 2 * Pow2(k - 1)
  }

  lemma {:induction false} Pow2Add(j: nat, k: nat)
    ensures Pow2(j + k) == Pow2(j) * Pow2(k)
  {
    if j == 0 {
    } else {
      Pow2Add(j - 1, k);
      assert Pow2(j + k) == 2 * Pow2(j - 1 + k);
    }
  }

  lemma Pow2Eight()
    ensures Pow2(8) == 0x100
  {
  }

  lemma Pow2Six()
    ensures Pow2(6) == 0x40
  {
  }

  lemma Pow2Word()
    ensures Pow2(62) == 0x4000_0000_0000_0000
  {
    hide Pow2;
    Pow2Eight();
    Pow2Six();
    Pow2Add(8, 8);
    Pow2Add(16, 16);
    Pow2Add(32, 16);
    Pow2Add(48, 8);
    Pow2Add(56, 6);
  }

  lemma {:induction false} Pow2Monotone(j: nat, k: nat)
    requires j <= k
    ensures Pow2(j) <= Pow2(k)
  {
    if j == k {
    } else {
      Pow2Monotone(j, k - 1);
    }
  }

  // ---- Quotients, remainders and congruence -------------------------------------------

  ghost predicate Congruent(a: int, b: int, m: int)
    requires m > 0
  {
    a % m == b % m
  }

  lemma QuotientUnique(x: int, q: int, r: int, m: int)
    requires m > 0 && 0 <= r < m
    requires x == q * m + r
    ensures x / m == q && x % m == r
  {
    var d := x / m - q;
    assert x == (x / m) * m + x % m;
    assert d * m == r - x % m by {
      assert (x / m - q) * m == (x / m) * m - q * m;
    }
    assert d >= 1 ==> d * m >= m;
    assert d <= -1 ==> d * m <= -m;
  }

  lemma CongruentByMultiple(a: int, b: int, k: int, m: int)
    requires m > 0
    requires a == b + k * m
    ensures Congruent(a, b, m)
  {
    assert b == (b / m) * m + b % m;
    assert a == (b / m + k) * m + b % m by {
      assert (b / m + k) * m == (b / m) * m + k * m;
    }
    QuotientUnique(a, b / m + k, b % m, m);
  }

  lemma CongruentAdd(a: int, b: int, c: int, d: int, m: int)
    requires m > 0
    requires Congruent(a, b, m) && Congruent(c, d, m)
    ensures Congruent(a + c, b + d, m)
  {
    var k := a / m - b / m + (c / m - d / m);
    assert a + c == b + d + k * m by {
      assert k * m == (a / m) * m - (b / m) * m + ((c / m) * m - (d / m) * m);
    }
    CongruentByMultiple(a + c, b + d, k, m);
  }

  lemma CongruentMul(a: int, b: int, c: int, d: int, m: int)
    requires m > 0
    requires Congruent(a, b, m) && Congruent(c, d, m)
    ensures Congruent(a * c, b * d, m)
  {
    var s, t := a / m - b / m, c / m - d / m;
    assert a == b + s * m by {
      assert s * m == (a / m) * m - (b / m) * m;
    }
    assert c == d + t * m by {
      assert t * m == (c / m) * m - (d / m) * m;
    }
    calc {
      a * c;
      (b + s * m) * (d + t * m);
      b * d + (b * t + s * d + s * t * m) * m;
    }
    CongruentByMultiple(a * c, b * d, b * t + s * d + s * t * m, m);
  }

  lemma CongruentMod(a: int, m: int)
    requires m > 0
    ensures Congruent(a % m, a, m)
  {
    assert a % m == a + (-(a / m)) * m;
    CongruentByMultiple(a % m, a, -(a / m), m);
  }

  /** Reducing by a multiple of the modulus first changes nothing. */
  lemma CongruentDivisor(a: int, k: nat, m: int)
    requires m > 0 && k > 0
    ensures k * m > 0
    ensures Congruent(a % (k * m), a, m)
  {
    var big := k * m;
    assert big > 0;
    assert a == (a / big) * big + a % big;
    assert a % big == a + (-(a / big) * k) * m by {
      assert (a / big) * big == ((a / big) * k) * m;
    }
    CongruentByMultiple(a % big, a, -(a / big) * k, m);
  }

  /** What C++ promises of `/` and `%`: they belong together, the remainder is smaller than the
      divisor, and it has the sign of the dividend. */
  lemma QuotAndRem(a: int, b: int)
    requires b > 0
    ensures Quot(a, b) * b + Rem(a, b) == a
    ensures -b < Rem(a, b) < b
    ensures a >= 0 ==> Rem(a, b) >= 0
    ensures a <= 0 ==> Rem(a, b) <= 0
  {
    if a < 0 {
      assert -a == ((-a) / b) * b + (-a) % b;
      assert Quot(a, b) * b == -(((-a) / b) * b);
    } else {
      assert a == (a / b) * b + a % b;
    }
  }

  /** Dividing twice is dividing by the product. */
  lemma DivDiv(a: int, b: int, c: int)
    requires b > 0 && c > 0
    ensures b * c > 0 && a / (b * c) == (a / b) / c
  {
    var q, r := a / b, a % b;
    var s, t := q / c, q % c;
    assert a == q * b + r && q == s * c + t;
    assert a == s * (b * c) + (t * b + r) by {
      assert q * b == s * c * b + t * b;
      assert s * c * b == s * (b * c);
    }
    MulMonotone(t, c - 1, b);
    assert (c - 1) * b == b * c - b;
    MulNonNegative(t, b);
    assert b * c > 0 by {
      MulMonotone(1, b, c);
    }
    QuotientUnique(a, s, t * b + r, b * c);
  }

  /** Truncating remainder plus the sources' sign correction is the Euclidean remainder. */
  lemma RemCorrected(v: int, m: int)
    requires m > 0
    ensures -m < Rem(v, m) < m
    ensures (if Rem(v, m) < 0 then Rem(v, m) + m else Rem(v, m)) == v % m
  {
    if v < 0 {
      var w := -v;
      var r := w % m;
      assert w == (w / m) * m + r;
      if r == 0 {
        assert v == (-(w / m)) * m + 0;
        QuotientUnique(v, -(w / m), 0, m);
      } else {
        assert v == (-(w / m) - 1) * m + (m - r);
        QuotientUnique(v, -(w / m) - 1, m - r, m);
      }
    }
  }

  /** The number of bytes holding `bits` bits. */
  function BitsToBytes(bits: nat): nat {
    (bits + 7) / 8
  }

  lemma MulNonNegative(a: int, b: int)
    requires a >= 0 && b >= 0
    ensures a * b >= 0
  {
  }

  lemma DivNonNegative(a: int, m: int)
    requires a >= 0 && m > 0
    ensures a / m >= 0
  {
  }

  lemma MulMonotone(a: int, b: int, c: int)
    requires a <= b && c >= 0
    ensures a * c <= b * c
  {
  }

  /** Position `i` inside block `b` of size `n` comes back from the flat index. */
  lemma FlatIndex(b: nat, i: nat, n: nat)
    requires i < n
    ensures (b * n + i) / n == b && (b * n + i) % n == i
  {
    QuotientUnique(b * n + i, b, i, n);
  }

  lemma FlatBound(b: nat, i: nat, n: nat, blocks: nat)
    requires i < n && b < blocks
    ensures b * n + i < blocks * n
  {
    assert (b + 1) * n <= blocks * n by {
      MulMonotone(b + 1, blocks, n);
    }
  }
}
