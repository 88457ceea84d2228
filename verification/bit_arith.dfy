/**
 * Powers of two and the shift and mask facts that unsigned bit operations
 * reduce to on unbounded naturals: `x >> n` is `x / 2^n`, `x & ((1 << n) - 1)`
 * is `x % 2^n`, and `a | (b << n)` is `a + 2^n * b` when `a < 2^n`.
 */
module BitArith {

  /** 2^n, i.e. `1 << n`. */
  function Pow2(n: nat): (r: nat)
    ensures r >= 1
  {
    if n == 0 then 1 else 2 * Pow2(n - 1)
  }

  /** `x >> n` */
  function Shr(x: nat, n: nat): nat
  {
    var d := Pow2(n);
    DivNat(x, d);
    x / d
  }

  lemma DivNat(x: nat, d: nat)
    requires d > 0
    ensures 0 <= x / d
  {
  }

  /** Bits [lo, lo + n) of x, i.e. `(x >> lo) & ((1 << n) - 1)`. */
  function Field(x: nat, lo: nat, n: nat): (r: nat)
    ensures r < Pow2(n)
  {
    Shr(x, lo) % Pow2(n)
  }

  lemma {:induction false} Pow2Add(a: nat, b: nat)
    decreases a
    ensures Pow2(a + b) == Pow2(a) * Pow2(b)
  {
    if a > 0 {
      Pow2Add(a - 1, b);
      assert Pow2(a + b) == 2 * Pow2(a - 1 + b);
    }
  }

  lemma Pow2Monotone(a: nat, b: nat)
    requires a <= b
    ensures Pow2(a) <= Pow2(b)
  {
    Pow2Add(a, b - a);
    MulMonotone(Pow2(a), 1, Pow2(b - a));
  }

  /** The powers of two the word layout needs; 2^64 is the modulus of a 64-bit word. */
  lemma Pow2Of64()
    ensures Pow2(4) == 0x10
    ensures Pow2(16) == 0x1_0000
    ensures Pow2(20) == 0x10_0000
    ensures Pow2(64) == 0x1_0000_0000_0000_0000
  {
    assert Pow2(4) == 16;
    assert Pow2(8) == 0x100 by { Pow2Add(4, 4); }
    assert Pow2(16) == 0x1_0000 by { Pow2Add(8, 8); }
    assert Pow2(20) == 0x10_0000 by { Pow2Add(16, 4); }
    assert Pow2(32) == 0x1_0000_0000 by { Pow2Add(16, 16); }
    Pow2Add(32, 32);
  }

  lemma MulMonotone(a: nat, b: nat, c: nat)
    requires b <= c
    ensures a * b <= a * c
  {
  }

  /** Euclidean division is determined by a quotient and a remainder in range. */
  lemma DivModUnique(x: int, d: int, q: int, r: int)
    requires d > 0 && 0 <= r < d && x == q * d + r
    ensures x / d == q && x % d == r
  {
    var q0, r0 := x / d, x % d;
    assert (q - q0) * d == r0 - r;
    if q0 < q {
      MulMonotone(d, 1, q - q0);
      assert false;
    } else if q < q0 {
      MulMonotone(d, 1, q0 - q);
      assert false;
    }
  }

  /** Dividing by a * b is dividing by a then by b; the remainder splits the same way. */
  lemma DivModNested(x: nat, a: nat, b: nat)
    requires a > 0 && b > 0
    ensures x / (a * b) == (x / a) / b
    ensures x % (a * b) == x % a + a * ((x / a) % b)
  {
    var q1, r1 := x / a, x % a;
    var q2, r2 := q1 / b, q1 % b;
    assert x == a * q1 + r1;
    assert q1 == b * q2 + r2;
    assert x == q2 * (a * b) + (a * r2 + r1) by {
      assert a * q1 == a * (b * q2) + a * r2;
      assert a * (b * q2) == q2 * (a * b);
    }
    assert a * r2 + r1 < a * b by {
      MulMonotone(a, r2, b - 1);
      assert a * (b - 1) == a * b - a;
    }
    DivModUnique(x, a * b, q2, a * r2 + r1);
  }

  /** `(x >> a) >> b == x >> (a + b)` */
  lemma ShrShr(x: nat, a: nat, b: nat)
    ensures Shr(x, a + b) == Shr(Shr(x, a), b)
  {
    Pow2Add(a, b);
    DivModNested(x, Pow2(a), Pow2(b));
  }

  /** The low a + b bits are the low a bits plus the next b bits shifted into place. */
  lemma MaskSplit(x: nat, a: nat, b: nat)
    ensures x % Pow2(a + b) == x % Pow2(a) + Pow2(a) * (Shr(x, a) % Pow2(b))
  {
    Pow2Add(a, b);
    DivModNested(x, Pow2(a), Pow2(b));
  }

  /** `(lo | (hi << n)) & mask(n) == lo` and `(lo | (hi << n)) >> n == hi`, for lo < 2^n. */
  lemma SplitAt(lo: nat, hi: nat, n: nat)
    requires lo < Pow2(n)
    ensures (lo + Pow2(n) * hi) % Pow2(n) == lo
    ensures Shr(lo + Pow2(n) * hi, n) == hi
  {
    DivModUnique(lo + Pow2(n) * hi, Pow2(n), hi, lo);
  }

  /** Clearing the bits at and above a + b keeps the low a bits and the b bits above them. */
  lemma LowBits(x: nat, a: nat, b: nat)
    ensures (x % Pow2(a + b)) % Pow2(a) == x % Pow2(a)
    ensures Shr(x % Pow2(a + b), a) == Shr(x, a) % Pow2(b)
  {
    MaskSplit(x, a, b);
    SplitAt(x % Pow2(a), Shr(x, a) % Pow2(b), a);
  }

  /** A number below 2^n has nothing at or above bit n. */
  lemma ShrSmall(x: nat, n: nat)
    requires x < Pow2(n)
    ensures Shr(x, n) == 0 && x % Pow2(n) == x
  {
    DivModUnique(x, Pow2(n), 0, x);
  }

  /** A number below 2^(a + b) shifted right by a is below 2^b. */
  lemma ShrBound(x: nat, a: nat, b: nat)
    requires x < Pow2(a + b)
    ensures Shr(x, a) < Pow2(b)
  {
    Pow2Add(a, b);
    var q := Shr(x, a);
    assert x == Pow2(a) * q + x % Pow2(a);
    if q >= Pow2(b) {
      MulMonotone(Pow2(a), Pow2(b), q);
      assert false;
    }
  }

  /** `x == (x & mask(n)) | ((x >> n) << n)` */
  lemma Recombine(x: nat, n: nat)
    ensures x == x % Pow2(n) + Pow2(n) * Shr(x, n)
  {
  }

  /** `lo | (hi << k)` with lo < 2^k and hi < 2^m stays below 2^(k + m). */
  lemma PlaceBound(lo: nat, hi: nat, p: nat, b: nat)
    requires lo < p && hi < b
    ensures lo + p * hi < p * b
  {
    MulMonotone(p, hi, b - 1);
    assert p * (b - 1) == p * b - p;
  }

  lemma MulNat(a: nat, b: nat)
    ensures a * b >= 0
  {
  }

  lemma MulSucc(n: nat, w: nat)
    ensures (n + 1) * w == w + n * w
  {
  }

  lemma MulSplit(i: nat, k: nat, w: nat)
    ensures (i + 1 + k) * w == i * w + (w + k * w)
  {
  }
}
