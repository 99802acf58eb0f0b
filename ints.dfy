/** Fixed-width integer semantics of the Rust primitives used by the core:
  * the i32/u32 ranges, `as` reinterpretation, shifts, bit counts, and the
  * bitwise `^` and `&` on two's-complement words.
  *
  * The bitwise operators are defined on unbounded integers in two's
  * complement (`-1` is the all-ones word).  For operands in the i32 range
  * they give exactly the i32 result, so a comparison such as
  * `(a ^ o) < left` on i32 is modelled by `Xor(a, o) < left`.
  */
module Ints {
  const I32_MIN: int := -0x8000_0000
  const I32_MAX: int := 0x7fff_ffff
  const U32_MAX: int := 0xffff_ffff
  const TWO_32: int := 0x1_0000_0000

  type i32 = x: int | I32_MIN <= x <= I32_MAX
  type u32 = x: int | 0 <= x <= U32_MAX

  function Pow2(k: nat): (r: nat)
    ensures r >= 1
  {
    if k == 0 then 1 else 2 * Pow2(k - 1)
  }

  function Abs(n: int): nat
  {
    if n < 0 then -n else n
  }

  /** `u as i32` for a u32 value. */
  function AsI32(u: u32): i32
  {
    if u <= I32_MAX then u else u - TWO_32
  }

  /** `i as u32` for an i32 value. */
  function AsU32(i: i32): u32
  {
    if i >= 0 then i else i + TWO_32
  }

  /** `v << bits` on u32: the bits shifted past bit 31 are lost. */
  function ShlU32(v: u32, bits: nat): u32
    requires bits < 32
  {
    (v * Pow2(bits)) % TWO_32
  }

  /** `v << bits` on i32 (the same bit pattern, read back as signed). */
  function ShlI32(v: i32, bits: nat): i32
    requires bits < 32
  {
    AsI32(ShlU32(AsU32(v), bits))
  }

  /** `u32::trailing_zeros`: 32 for zero. */
  function TrailingZeros(u: u32): nat
  {
    if u == 0 then 32 else if u % 2 == 1 then 0 else 1 + TrailingZeros(u / 2)
  }

  /** Number of significant bits of a non-negative integer. */
  function BitLength(n: nat): nat
  {
    if n == 0 then 0 else 1 + BitLength(n / 2)
  }

  /** `u32::leading_zeros`. */
  function LeadingZeros(u: u32): nat
  {
    Pow2Values();
    BitLengthBound(u, 32);
    32 - BitLength(u)
  }

  /** Two's-complement `a ^ b`. */
  function Xor(a: int, b: int): int
    decreases Abs(a) + Abs(b)
  {
    if (a == 0 || a == -1) && (b == 0 || b == -1) then
      (if a == b then 0 else -1)
    else
      2 * Xor(a / 2, b / 2) + (if a % 2 == b % 2 then 0 else 1)
  }

  /** Two's-complement `a & b`. */
  function And(a: int, b: int): int
    decreases Abs(a) + Abs(b)
  {
    if (a == 0 || a == -1) && (b == 0 || b == -1) then
      (if a == -1 && b == -1 then -1 else 0)
    else
      2 * And(a / 2, b / 2) + (if a % 2 == 1 && b % 2 == 1 then 1 else 0)
  }

  /** Two's-complement `!a`. */
  function Not(a: int): int
  {
    -a - 1
  }

  // ---------------------------------------------------------------------
  // Arithmetic helpers

  lemma Pow2Add(i: nat, j: nat)
    ensures Pow2(i + j) == Pow2(i) * Pow2(j)
  {
    if i > 0 {
      Pow2Add(i - 1, j);
    }
  }

  lemma Pow2Monotone(i: nat, j: nat)
    requires i <= j
    ensures Pow2(i) <= Pow2(j)
  {
    if i < j {
      Pow2Monotone(i, j - 1);
    }
  }

  lemma Pow2Values()
    ensures Pow2(30) == 0x4000_0000 && Pow2(31) == 0x8000_0000 && Pow2(32) == TWO_32
  {
    assert Pow2(8) == 256;
    assert Pow2(16) == 256 * 256 by { Pow2Add(8, 8); }
    assert Pow2(24) == 256 * 256 * 256 by { Pow2Add(16, 8); }
    Pow2Add(24, 6);
    Pow2Add(24, 7);
    Pow2Add(24, 8);
  }

  lemma Pow2Strict(i: nat, j: nat)
    requires Pow2(i) <= Pow2(j)
    ensures i <= j
  {
    if i > j {
      Pow2Monotone(j + 1, i);
    }
  }

  /** A power of two in `[m, 2m)`, for a power of two `m`, is `m`. */
  lemma Pow2Between(x: nat, m: nat)
    requires IsPow2(x) && IsPow2(m) && m <= x < 2 * m
    ensures x == m
  {
    var i, j := Log2(x), Log2(m);
    Pow2Strict(j, i);
    Pow2Below(i, j + 1);
  }

  lemma Pow2Below(i: nat, j: nat)
    requires Pow2(i) < Pow2(j)
    ensures i < j
  {
    if i >= j {
      Pow2Monotone(j, i);
    }
  }

  /** Powers of two, recognised by repeated halving. */
  predicate IsPow2(n: nat)
    decreases n
  {
    if n <= 1 then n == 1 else n % 2 == 0 && IsPow2(n / 2)
  }

  function Log2(n: nat): (k: nat)
    requires IsPow2(n)
    ensures Pow2(k) == n
    decreases n
  {
    if n == 1 then 0 else 1 + Log2(n / 2)
  }

  lemma {:induction false} Pow2IsPow2(k: nat)
    ensures IsPow2(Pow2(k)) && Log2(Pow2(k)) == k
  {
    if k > 0 {
      Pow2IsPow2(k - 1);
      assert Pow2(k) / 2 == Pow2(k - 1);
    }
  }

  /** `a` is a multiple of `2^k`, stated by halving so that it involves no
    * division by a variable. */
  predicate DivisibleByPow2(a: int, k: nat)
    decreases k
  {
    k == 0 || (a % 2 == 0 && DivisibleByPow2(a / 2, k - 1))
  }

  lemma {:induction false} DivisibleByPow2Spec(a: int, k: nat)
    ensures DivisibleByPow2(a, k) <==> a % Pow2(k) == 0
    decreases k
  {
    if k > 0 {
      DivisibleByPow2Spec(a / 2, k - 1);
      HalfMultiple(a, Pow2(k - 1));
    }
  }

  lemma HalfMultiple(a: int, p: int)
    requires p > 0
    ensures a % (2 * p) == 0 <==> a % 2 == 0 && (a / 2) % p == 0
  {
    if a % (2 * p) == 0 {
      var m := a / (2 * p);
      assert a == (2 * p) * m;
      MulAssoc(2, p, m);
      MultipleDiv(p * m, 2);
      assert a / 2 == p * m;
      MultipleDiv(m, p);
    }
    if a % 2 == 0 && (a / 2) % p == 0 {
      var m := (a / 2) / p;
      assert a / 2 == p * m;
      assert a == 2 * (p * m);
      MulAssoc(2, p, m);
      MultipleDiv(m, 2 * p);
    }
  }

  /** `1 << bits` on u32. */
  lemma ShlOne(bits: nat)
    requires bits < 32
    ensures ShlU32(1, bits) == Pow2(bits)
  {
    Pow2Values();
    Pow2Monotone(bits, 31);
  }

  /** Division by a positive number is determined by the bracketing multiple. */
  lemma DivUnique(a: int, d: int, q: int)
    requires d > 0 && d * q <= a < d * q + d
    ensures a / d == q && a % d == a - d * q
  {
    var q', r' := a / d, a % d;
    assert a == d * q' + r' && 0 <= r' < d;
    if q' < q {
      assert d * q' + d <= d * q by { MulStep(d, q', q); }
    } else if q' > q {
      assert d * q + d <= d * q' by { MulStep(d, q, q'); }
    }
  }

  lemma MulStep(d: int, q: int, q': int)
    requires d > 0 && q < q'
    ensures d * q + d <= d * q'
  {
    var e := q' - q - 1;
    assert e >= 0;
    assert d * e >= 0;
    assert d * q' == d * q + d + d * e;
  }

  /** A multiple of `d` divides back exactly. */
  lemma MultipleDiv(q: int, d: int)
    requires d > 0
    ensures (q * d) / d == q && (q * d) % d == 0
  {
    DivUnique(q * d, d, q);
  }

  /** Two multiples of `d` less than `d` apart are ordered as they are exactly. */
  lemma MultiplesOrdered(u: int, v: int, d: int)
    requires d > 0 && u % d == 0 && v % d == 0 && v - d < u
    ensures v <= u
  {
    var qu, qv := u / d, v / d;
    assert u == d * qu + u % d;
    assert v == d * qv + v % d;
    if qu < qv {
      MulStep(d, qu, qv);
    } else if qv < qu {
      MulStep(d, qv, qu);
    }
  }

  /** Against a multiple `a` of `d`, sharing its quotient is lying in `[a, a + d)`. */
  lemma SameQuotient(a: int, o: int, d: int)
    requires d > 0 && a % d == 0
    ensures o / d == a / d <==> a <= o < a + d
  {
    var q := a / d;
    assert a == d * q;
    if a <= o < a + d {
      DivUnique(o, d, q);
    }
    if o / d == q {
      assert o == d * (o / d) + o % d;
    }
  }

  lemma DivBracket(a: int, d: int)
    requires d > 0
    ensures (a / d) * d <= a < (a / d) * d + d
  {
    assert a == d * (a / d) + a % d;
  }

  lemma MultipleNext(a: int, d: int)
    requires d > 0 && a % d == 0
    ensures (a + d) % d == 0
  {
    var q := a / d;
    assert a == d * q;
    assert a + d == d * (q + 1);
    DivUnique(a + d, d, q + 1);
  }

  /** A negative multiple of `d` is at most `-d`. */
  lemma NegativeMultiple(a: int, d: int)
    requires d > 0 && a % d == 0 && a < 0
    ensures a + d <= 0
  {
    MultipleNext(a, d);
    MultiplesOrdered(0, a + d, d);
  }

  /** A multiple of `2^j` is a multiple of every smaller power of two. */
  lemma MultiplePow2(x: int, i: nat, j: nat)
    requires i <= j && x % Pow2(j) == 0
    ensures x % Pow2(i) == 0
  {
    DivisibleByPow2Spec(x, j);
    DivisibleWeaken(x, i, j);
    DivisibleByPow2Spec(x, i);
  }

  lemma {:induction false} DivisibleWeaken(a: int, i: nat, j: nat)
    requires i <= j && DivisibleByPow2(a, j)
    ensures DivisibleByPow2(a, i)
    decreases i
  {
    if i > 0 {
      DivisibleWeaken(a / 2, i - 1, j - 1);
    }
  }

  lemma MulAssoc(a: int, b: int, c: int)
    ensures a * (b * c) == (a * b) * c && b * c == c * b
  {
  }

  lemma DivHalfPow2(a: int, k: nat)
    ensures (a / 2) / Pow2(k) == a / Pow2(k + 1)
  {
    var m := Pow2(k);
    var h := a / 2;
    var q := h / m;
    assert h == m * q + h % m;
    assert a == 2 * h + a % 2;
    assert 2 * m * q <= a < 2 * m * q + 2 * m;
    DivUnique(a, 2 * m, q);
  }

  // ---------------------------------------------------------------------
  // Bit counts

  lemma BitLengthBound(n: nat, k: nat)
    requires n < Pow2(k)
    ensures BitLength(n) <= k
  {
    if n > 0 {
      BitLengthBound(n / 2, k - 1);
    }
  }

  lemma TrailingZerosPow2(k: nat)
    requires k < 32
    ensures Pow2(k) <= U32_MAX && TrailingZeros(Pow2(k)) == k
  {
    Pow2Values();
    Pow2Monotone(k, 31);
    if k > 0 {
      TrailingZerosPow2(k - 1);
      assert Pow2(k) / 2 == Pow2(k - 1);
    }
  }

  lemma {:induction false} BitLengthPow2Bounds(n: nat)
    requires n > 0
    ensures Pow2(BitLength(n) - 1) <= n < Pow2(BitLength(n))
  {
    if n > 1 {
      BitLengthPow2Bounds(n / 2);
      var k := BitLength(n / 2);
      assert BitLength(n) == k + 1;
      assert Pow2(k) == 2 * Pow2(k - 1);
      assert Pow2(k + 1) == 2 * Pow2(k);
    }
  }

  /** `u32::MAX << bits` read as i32 is the mask clearing the low `bits` bits. */
  lemma LowMaskValue(bits: nat)
    requires bits < 32
    ensures AsI32(ShlU32(U32_MAX, bits)) == -(Pow2(bits) as int)
  {
    Pow2Values();
    Pow2Monotone(bits, 31);
    var p := Pow2(bits);
    assert U32_MAX * p == TWO_32 * (p - 1) + (TWO_32 - p);
    DivUnique(U32_MAX * p, TWO_32, p - 1);
  }

  /** `i32::MAX << bits` is the mask clearing the low `bits` bits, for
    * `bits` from 1 (for 0 it is `i32::MAX` itself). */
  lemma MaxMaskValue(bits: nat)
    requires 1 <= bits < 32
    ensures ShlI32(I32_MAX, bits) == -(Pow2(bits) as int)
  {
    Pow2Values();
    Pow2Monotone(bits, 31);
    var p: int := Pow2(bits);
    var h: int := Pow2(bits - 1);
    assert p == 2 * h;
    Pow2Add(bits - 1, 32 - bits);
    assert h * Pow2(32 - bits) == 0x8000_0000;
    Pow2Monotone(1, 32 - bits);
    assert h <= 0x4000_0000;
    assert I32_MAX * p == TWO_32 * (h - 1) + (TWO_32 - p);
    DivUnique(I32_MAX * p, TWO_32, h - 1);
  }

  // ---------------------------------------------------------------------
  // XOR

  lemma XorStep(a: int, b: int)
    ensures Xor(a, b) == 2 * Xor(a / 2, b / 2) + (if a % 2 == b % 2 then 0 else 1)
  {
  }

  lemma {:induction false} XorSymmetric(a: int, b: int)
    ensures Xor(a, b) == Xor(b, a)
    decreases Abs(a) + Abs(b)
  {
    if !((a == 0 || a == -1) && (b == 0 || b == -1)) {
      XorSymmetric(a / 2, b / 2);
    }
  }

  /** The sign bit of `a ^ b` is set iff exactly one operand is negative. */
  lemma {:induction false} XorNegative(a: int, b: int)
    ensures Xor(a, b) < 0 <==> (a < 0) != (b < 0)
    decreases Abs(a) + Abs(b)
  {
    if !((a == 0 || a == -1) && (b == 0 || b == -1)) {
      XorNegative(a / 2, b / 2);
    }
  }

  lemma {:induction false} XorZero(a: int, b: int)
    ensures Xor(a, b) == 0 <==> a == b
    decreases Abs(a) + Abs(b)
  {
    if !((a == 0 || a == -1) && (b == 0 || b == -1)) {
      XorZero(a / 2, b / 2);
      assert a == 2 * (a / 2) + a % 2 && b == 2 * (b / 2) + b % 2;
    }
  }

  lemma {:induction false} XorZeroLeft(b: int)
    ensures Xor(0, b) == b
    decreases Abs(b)
  {
    if !(b == 0 || b == -1) {
      XorZeroLeft(b / 2);
    }
  }

  /** `a ^ b` is a non-negative number below `2^k` iff `a` and `b` agree on
    * every bit from `k` upwards. */
  lemma {:induction false} XorBelowPow2(a: int, b: int, k: nat)
    decreases k
    ensures 0 <= Xor(a, b) < Pow2(k) <==> a / Pow2(k) == b / Pow2(k)
  {
    if k == 0 {
      XorBelowOne(a, b);
    } else {
      var p := Pow2(k - 1);
      XorStep(a, b);
      HalfBound(Xor(a, b), Xor(a / 2, b / 2), if a % 2 == b % 2 then 0 else 1, p);
      XorBelowPow2(a / 2, b / 2, k - 1);
      DivHalfPow2(a, k - 1);
      DivHalfPow2(b, k - 1);
    }
  }

  lemma XorBelowOne(a: int, b: int)
    ensures 0 <= Xor(a, b) < 1 <==> a == b
  {
    XorZero(a, b);
    XorNegative(a, b);
  }

  lemma HalfBound(v: int, h: int, bit: int, p: int)
    requires v == 2 * h + bit && 0 <= bit <= 1 && p > 0
    ensures 0 <= v < 2 * p <==> 0 <= h < p
  {
  }

  /** `a ^ b == a` only when `b` is zero. */
  lemma {:induction false} XorFixed(a: int, b: int)
    ensures Xor(a, b) == a <==> b == 0
    decreases Abs(a) + Abs(b)
  {
    if b == 0 {
      XorSymmetric(a, 0);
      XorZeroLeft(a);
    } else if !((a == 0 || a == -1) && (b == 0 || b == -1)) {
      XorFixed(a / 2, b / 2);
      assert b == 2 * (b / 2) + b % 2;
    }
  }

  /** The classic most-significant-bit test used by Z-order comparison:
    * for non-negative `a` and `b`, `a < b && a < (a ^ b)` holds exactly
    * when `b` has more significant bits than `a`. */
  lemma {:induction false} LessMsb(a: nat, b: nat)
    ensures (a < b && a < Xor(a, b)) <==> BitLength(a) < BitLength(b)
    decreases a + b
  {
    if a == 0 {
      XorZeroLeft(b);
    } else if b == 0 {
    } else {
      XorStep(a, b);
      XorNegative(a / 2, b / 2);
      LessMsb(a / 2, b / 2);
      var x := Xor(a / 2, b / 2);
      if a / 2 == b / 2 {
        XorZero(a / 2, b / 2);
      } else if a / 2 == x {
        XorFixed(a / 2, b / 2);
      }
    }
  }

  // ---------------------------------------------------------------------
  // AND

  lemma AndStep(a: int, b: int)
    ensures And(a, b) == 2 * And(a / 2, b / 2) + (if a % 2 == 1 && b % 2 == 1 then 1 else 0)
  {
  }

  lemma {:induction false} AndAllOnes(a: int)
    ensures And(a, -1) == a
    decreases Abs(a)
  {
    if !(a == 0 || a == -1) {
      AndAllOnes(a / 2);
    }
  }

  lemma {:induction false} AndNone(a: int)
    ensures And(a, 0) == 0
    decreases Abs(a)
  {
    if !(a == 0 || a == -1) {
      AndNone(a / 2);
    }
  }

  lemma {:induction false} AndZeroLeft(b: int)
    ensures And(0, b) == 0
    decreases Abs(b)
  {
    if !(b == 0 || b == -1) {
      AndZeroLeft(b / 2);
    }
  }

  lemma AndEvenMask(x: int, m: int)
    requires m >= 1
    ensures And(x, -2 * m) == 2 * And(x / 2, -m)
  {
    AndStep(x, -2 * m);
    assert (-2 * m) / 2 == -m && (-2 * m) % 2 == 0;
  }

  lemma AndOddMask(x: int, h: int)
    requires h >= 1
    ensures And(x, 2 * h - 1) == 2 * And(x / 2, h - 1) + x % 2
  {
    var m := 2 * h - 1;
    assert m / 2 == h - 1 && m % 2 == 1;
    AndStep(x, m);
  }

  /** `x & -2^k` clears the low `k` bits: it rounds `x` down to a multiple of `2^k`. */
  lemma {:induction false} AndLowMask(x: int, k: nat)
    decreases k
    ensures And(x, -(Pow2(k) as int)) == (x / Pow2(k)) * Pow2(k)
  {
    if k == 0 {
      AndAllOnes(x);
    } else {
      var m: int := Pow2(k - 1);
      var p: int := Pow2(k);
      assert p == 2 * m;
      var q := x / p;
      AndLowMask(x / 2, k - 1);
      DivHalfPow2(x, k - 1);
      assert And(x / 2, -m) == q * m;
      AndEvenMask(x, m);
      assert And(x, -p) == 2 * (q * m);
      MulAssoc2(q, m);
    }
  }

  /** `x & (2^k - 1)` keeps the low `k` bits: it is `x` modulo `2^k`. */
  lemma {:induction false} AndLowBits(x: int, k: nat)
    decreases k
    ensures And(x, Pow2(k) - 1) == x % Pow2(k)
  {
    if k == 0 {
      AndNone(x);
    } else {
      AndLowBits(x / 2, k - 1);
      AndLowBitsStep(x, k);
    }
  }

  lemma AndLowBitsStep(x: int, k: nat)
    requires k >= 1 && And(x / 2, Pow2(k - 1) - 1) == (x / 2) % Pow2(k - 1)
    ensures And(x, Pow2(k) - 1) == x % Pow2(k)
  {
    var h: int := Pow2(k - 1);
    assert Pow2(k) == 2 * h;
    AndOddMask(x, h);
    ModDouble(x, h);
  }

  /** The remainder by `2h` from the halved remainder and the low bit. */
  lemma ModDouble(x: int, h: int)
    requires h >= 1
    ensures 2 * ((x / 2) % h) + x % 2 == x % (2 * h)
  {
    var q, r := (x / 2) / h, (x / 2) % h;
    assert x / 2 == h * q + r;
    assert x == (2 * h) * q + (2 * r + x % 2);
    DivUnique(x, 2 * h, q);
  }

  lemma MulAssoc2(q: int, m: int)
    ensures 2 * (q * m) == q * (2 * m)
  {
  }

  /** The `&` of two `k+1`-bit two's-complement words is one. */
  lemma {:induction false} AndRange(a: int, b: int, k: nat)
    requires -(Pow2(k) as int) <= a < Pow2(k) && -(Pow2(k) as int) <= b < Pow2(k)
    ensures -(Pow2(k) as int) <= And(a, b) < Pow2(k)
    decreases k
  {
    if !((a == 0 || a == -1) && (b == 0 || b == -1)) {
      AndRange(a / 2, b / 2, k - 1);
    }
  }

  /** `a ^ b` of two `k+1`-bit two's-complement values is one too: in
    * particular the XOR of two i32 values is never below `i32::MIN`. */
  lemma {:induction false} XorRange(a: int, b: int, k: nat)
    requires -(Pow2(k) as int) <= a < Pow2(k) && -(Pow2(k) as int) <= b < Pow2(k)
    ensures -(Pow2(k) as int) <= Xor(a, b) < Pow2(k)
    decreases k
  {
    if !((a == 0 || a == -1) && (b == 0 || b == -1)) {
      XorRange(a / 2, b / 2, k - 1);
    }
  }

  /** `a & b` on i32. */
  function AndI32(a: i32, b: i32): i32
  {
    Pow2Values();
    AndRange(a, b, 31);
    And(a, b)
  }

  /** `x & 2^j` is `2^j` when bit `j` of `x` is set and `0` otherwise. */
  lemma {:induction false} AndBit(x: int, j: nat)
    decreases j
    ensures And(x, Pow2(j)) == (if (x / Pow2(j)) % 2 == 1 then Pow2(j) else 0)
  {
    if j == 0 {
      AndStep(x, 1);
      AndNone(x / 2);
    } else {
      var h: int := Pow2(j - 1);
      assert Pow2(j) / 2 == h && Pow2(j) % 2 == 0;
      AndStep(x, Pow2(j));
      assert And(x, Pow2(j)) == 2 * And(x / 2, h);
      AndBit(x / 2, j - 1);
      DivHalfPow2(x, j - 1);
    }
  }
}
