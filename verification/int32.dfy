/** 32-bit two's-complement integers as the C++ `int` of the search sees them:
    the checked arithmetic builtins, truncating division, shifts, and the
    bitwise operators, each written out on unbounded `int`s. */
module Int32 {

  const INT_MIN: int := -0x8000_0000
  const INT_MAX: int := 0x7FFF_FFFF
  const TWO32: int := 0x1_0000_0000

  type int32 = x: int | INT_MIN <= x <= INT_MAX

  predicate InRange(x: int) {
    INT_MIN <= x <= INT_MAX
  }

  /** The value of `x` reduced into the int32 range, as a two's-complement
      machine stores the low 32 bits of a wider result. */
  function Wrap(x: int): (r: int32)
    ensures (r - x) % TWO32 == 0
    ensures InRange(x) <==> r == x
  {
    (x - INT_MIN) % TWO32 + INT_MIN
  }

  // ---------------------------------------------------------------------------
  // Overflow-checked arithmetic (`__builtin_smul_overflow` and friends): the
  // builtin stores the wrapped result and answers whether it differs from the
  // mathematical one.

  datatype Checked = Checked(overflow: bool, result: int32)

  function CheckedOf(exact: int): Checked {
    var w := Wrap(exact);
    Checked(w != exact, w)
  }

  function CheckedMul(a: int32, b: int32): (c: Checked)
    ensures c.overflow <==> !InRange(a * b)
    ensures !c.overflow ==> c.result == a * b
  {
    CheckedOf(a * b)
  }

  function CheckedAdd(a: int32, b: int32): (c: Checked)
    ensures c.overflow <==> !InRange(a + b)
    ensures !c.overflow ==> c.result == a + b
  {
    CheckedOf(a + b)
  }

  function CheckedSub(a: int32, b: int32): (c: Checked)
    ensures c.overflow <==> !InRange(a - b)
    ensures !c.overflow ==> c.result == a - b
  {
    CheckedOf(a - b)
  }

  // ---------------------------------------------------------------------------
  // Division and remainder truncate toward zero in C++ (ISO/IEC 14882:2020,
  // section 7.6.5); Dafny's own `/` and `%` are Euclidean.

  function Abs(x: int): nat {
    if x < 0 then -x else x
  }

  /** `a / b` in C++: the Euclidean quotient of the magnitudes, negated when
      the operands' signs differ. */
  function TruncDiv(a: int, b: int): (q: int)
    requires b != 0
  {
    if a >= 0 && b > 0 then a / b
    else if a >= 0 then -(a / -b)
    else if b > 0 then -(-a / b)
    else -a / -b
  }

  /** `a % b` in C++: what is left once the truncated quotient is taken out. */
  function TruncMod(a: int, b: int): (r: int)
    requires b != 0
    ensures a == b * TruncDiv(a, b) + r
    ensures Abs(r) < Abs(b)
    ensures r == 0 || (r < 0 <==> a < 0)
  {
    DivModFacts(a, b);
    a - b * TruncDiv(a, b)
  }

  /** Euclidean division of non-negative integers. */
  lemma NatDiv(x: nat, y: nat)
    requires y >= 1
    ensures x == y * (x / y) + x % y && 0 <= x % y < y
    ensures 0 <= x / y <= x
  {
    if x / y > x {
      MulAtLeast(y, x / y);
    }
  }

  lemma MulAtLeast(d: int, k: int)
    requires d > 0 && k >= 1
    ensures d * k >= k
  {
  }

  lemma MulAtLeastDivisor(d: int, k: int)
    requires d > 0 && k >= 1
    ensures d * k >= d
  {
  }

  /** The remainder of the truncating division is smaller than the divisor
      and has the dividend's sign; the quotient never exceeds the dividend
      in magnitude. */
  lemma DivModFacts(a: int, b: int)
    requires b != 0
    ensures Abs(TruncDiv(a, b)) <= Abs(a)
    ensures Abs(a - b * TruncDiv(a, b)) < Abs(b)
    ensures a - b * TruncDiv(a, b) == 0 || (a - b * TruncDiv(a, b) < 0 <==> a < 0)
  {
    var q := TruncDiv(a, b);
    if a >= 0 && b > 0 {
      NatDiv(a, b);
    } else if a >= 0 {
      NatDiv(a, -b);
      NegDivisor(a, -b, a / -b);
      assert a - b * q == a % -b;
    } else if b > 0 {
      NatDiv(-a, b);
      NegDividend(-a, b, -a / b);
      assert a - b * q == -(-a % b);
    } else {
      NatDiv(-a, -b);
      NegBoth(-a, -b, -a / -b);
      assert a - b * q == -(-a % -b);
    }
  }

  lemma NegDivisor(x: int, y: int, m: int)
    ensures x - (-y) * -m == x - y * m
  {
  }

  lemma NegDividend(x: int, y: int, m: int)
    ensures -x - y * -m == -(x - y * m)
  {
  }

  lemma NegBoth(x: int, y: int, m: int)
    ensures -x - (-y) * m == -(x - y * m)
  {
  }

  /** Truncating division is the unique quotient whose remainder is smaller
      than the divisor and carries the dividend's sign. */
  lemma {:induction false} TruncDivUnique(a: int, b: int, q: int, r: int)
    requires b != 0
    requires a == b * q + r && Abs(r) < Abs(b)
    requires r == 0 || (r < 0 <==> a < 0)
    ensures q == TruncDiv(a, b) && r == TruncMod(a, b)
  {
    var q0 := TruncDiv(a, b);
    SameRemainder(a, b, q, r, q0, TruncMod(a, b));
  }

  /** Two quotient/remainder pairs whose remainders are both smaller than
      the divisor and carry the dividend's sign coincide. */
  lemma SameRemainder(a: int, b: int, q: int, r: int, q0: int, r0: int)
    requires b != 0
    requires a == b * q + r && Abs(r) < Abs(b) && (r == 0 || (r < 0 <==> a < 0))
    requires a == b * q0 + r0 && Abs(r0) < Abs(b) && (r0 == 0 || (r0 < 0 <==> a < 0))
    ensures q == q0 && r == r0
  {
    assert b * (q - q0) == r0 - r;
    if q != q0 {
      // The remainders have the same sign and are both smaller than |b|, so
      // they differ by less than |b|; yet they differ by a nonzero multiple
      // of b.
      assert Abs(r0 - r) < Abs(b);
      AbsMul(b, q - q0);
      MulAtLeastDivisor(Abs(b), Abs(q - q0));
    }
  }

  lemma AbsMul(x: int, y: int)
    ensures Abs(x * y) == Abs(x) * Abs(y)
  {
    if x < 0 && y < 0 {
      assert x * y == (-x) * (-y);
    } else if x < 0 {
      assert x * y == -((-x) * y);
    } else if y < 0 {
      assert x * y == -(x * (-y));
    }
  }

  // ---------------------------------------------------------------------------
  // Shifts (ISO/IEC 14882:2020, section 7.6.7).

  function Pow2(n: nat): (p: nat)
    ensures p >= 1
  {
    if n == 0 then 1 else 2 * Pow2(n - 1)
  }

  lemma {:induction false} Pow2Add(a: nat, b: nat)
    ensures Pow2(a + b) == Pow2(a) * Pow2(b)
  {
    if a > 0 {
      Pow2Add(a - 1, b);
      assert Pow2(a + b) == 2 * Pow2(a - 1 + b);
    }
  }

  lemma Pow2Word()
    ensures Pow2(31) == 0x8000_0000 && Pow2(32) == TWO32
  {
    assert Pow2(4) == 16;
    Pow2Add(4, 4);
    Pow2Add(8, 8);
    Pow2Add(16, 16);
  }

  /** The unsigned image of a 32-bit pattern: `(unsigned)x`. */
  function ToUnsigned(x: int32): (u: nat)
    ensures u < TWO32
    ensures (u - x) % TWO32 == 0
    ensures u <= INT_MAX <==> x >= 0
  {
    if x < 0 then x + TWO32 else x
  }

  /** The signed reading of a 32-bit pattern. */
  function FromUnsigned(u: nat): (x: int32)
    requires u < TWO32
    ensures ToUnsigned(x) == u
  {
    if u <= INT_MAX then u else u - TWO32
  }

  lemma {:induction false} UnsignedRoundTrip(x: int32)
    ensures FromUnsigned(ToUnsigned(x)) == x
  {
    if x < 0 {
      assert ToUnsigned(x) == x + TWO32;
    }
  }

  /** `(unsigned)x << n`: the low 32 bits of `x * 2^n`. */
  function UnsignedShl(u: nat, n: nat): (r: nat)
    ensures r < TWO32
  {
    (u * Pow2(n)) % TWO32
  }

  /** The guard of the left shift as written: shifting the unsigned image
      left and then right again gives back the operand. */
  predicate ShlRoundTrips(x: int32, n: nat)
    requires x >= 0
  {
    UnsignedShl(x, n) / Pow2(n) == x
  }

  /** The round-trip guard holds exactly when no set bit is shifted out of
      the 32-bit unsigned word. */
  lemma {:induction false} ShlRoundTripsIff(x: int32, n: nat)
    requires x >= 0 && n < 32
    ensures ShlRoundTrips(x, n) <==> x * Pow2(n) < TWO32
  {
    var p := Pow2(n);
    var prod := x * p;
    assert prod >= 0;
    if prod < TWO32 {
      ModSmall(prod, TWO32);
      DivUnique(prod, p, x, 0);
    } else {
      var m := prod % TWO32;
      NatDiv(m, p);
      var q := m / p;
      if q >= x {
        MulMono(p, x, q);
        assert false;
      }
    }
  }

  lemma ModSmall(a: nat, d: nat)
    requires a < d
    ensures a % d == a
  {
  }

  lemma MulMono(x: nat, lo: nat, hi: nat)
    requires lo <= hi
    ensures x * lo <= x * hi
  {
    assert x * hi - x * lo == x * (hi - lo);
  }

  lemma DivUnique(a: int, d: int, q: int, r: int)
    requires d > 0 && a == d * q + r && 0 <= r < d
    ensures a / d == q
  {
    var q0 := a / d;
    var r0 := a % d;
    assert a == d * q0 + r0;
    assert d * (q - q0) == r0 - r;
    if q > q0 {
      MulAtLeastDivisor(d, q - q0);
    }
    if q < q0 {
      MulAtLeastDivisor(d, q0 - q);
    }
  }

  /** C++20 `x << n` on a signed operand: the value congruent to `x * 2^n`
      modulo 2^32. */
  function SignedShl(x: int32, n: nat): (r: int32)
    ensures (r - x * Pow2(n)) % TWO32 == 0
  {
    Wrap(x * Pow2(n))
  }

  /** `x >> n` for a non-negative operand: division by `2^n`, rounding down. */
  function ShrNonNeg(x: int32, n: nat): (r: int32)
    requires x >= 0
    ensures 0 <= r <= x
    ensures r * Pow2(n) <= x < (r + 1) * Pow2(n)
  {
    NatDiv(x, Pow2(n));
    assert (x / Pow2(n) + 1) * Pow2(n) == x / Pow2(n) * Pow2(n) + Pow2(n);
    x / Pow2(n)
  }

  // ---------------------------------------------------------------------------
  // Bitwise operators, bit by bit on the unsigned image, most significant bit
  // first.

  datatype BitOp = And | Xor | Or

  function Bit(k: BitOp, x: nat, y: nat): nat
    requires x < 2 && y < 2
  {
    match k
    case And => if x == 1 && y == 1 then 1 else 0
    case Xor => if x == y then 0 else 1
    case Or => if x == 1 || y == 1 then 1 else 0
  }

  /** Bit `n-1` of an `n`-bit word `x`. */
  function Top(x: nat, n: nat): (t: nat)
    requires n >= 1
  {
    if x >= Pow2(n - 1) then 1 else 0
  }

  /** Bits `0..n-2` of an `n`-bit word `x`. */
  function Low(x: nat, n: nat): (l: nat)
    requires n >= 1 && x < Pow2(n)
    ensures l < Pow2(n - 1)
    ensures x == l + Top(x, n) * Pow2(n - 1)
  {
    if x >= Pow2(n - 1) then x - Pow2(n - 1) else x
  }

  /** The `n`-bit word whose every bit is bit `k` of the operands' bits. */
  function Bitwise(k: BitOp, x: nat, y: nat, n: nat): (r: nat)
    requires x < Pow2(n) && y < Pow2(n)
    ensures r < Pow2(n)
  {
    if n == 0 then 0
    else
      (if Bit(k, Top(x, n), Top(y, n)) == 1 then Pow2(n - 1) else 0)
      + Bitwise(k, Low(x, n), Low(y, n), n - 1)
  }

  /** The `n`-bit word whose every bit is the complement of `x`'s. */
  function Complement(x: nat, n: nat): (r: nat)
    requires x < Pow2(n)
    ensures r < Pow2(n)
  {
    if n == 0 then 0
    else (if Top(x, n) == 0 then Pow2(n - 1) else 0) + Complement(Low(x, n), n - 1)
  }

  /** Complementing every bit is subtracting from the all-ones word. */
  lemma {:induction false} ComplementValue(x: nat, n: nat)
    requires x < Pow2(n)
    ensures Complement(x, n) == Pow2(n) - 1 - x
  {
    if n > 0 {
      ComplementValue(Low(x, n), n - 1);
    }
  }

  /** Carry-save identity: `x + y == (x ^ y) + 2 * (x & y)` on `n`-bit words. */
  lemma {:induction false} XorAndSum(x: nat, y: nat, n: nat)
    requires x < Pow2(n) && y < Pow2(n)
    ensures x + y == Bitwise(Xor, x, y, n) + 2 * Bitwise(And, x, y, n)
  {
    if n > 0 {
      XorAndSum(Low(x, n), Low(y, n), n - 1);
    }
  }

  /** `x | y == (x ^ y) + (x & y)`: a bit is set in the union exactly when it
      is set in one operand or in both. */
  lemma {:induction false} OrXorAnd(x: nat, y: nat, n: nat)
    requires x < Pow2(n) && y < Pow2(n)
    ensures Bitwise(Or, x, y, n) == Bitwise(Xor, x, y, n) + Bitwise(And, x, y, n)
  {
    if n > 0 {
      OrXorAnd(Low(x, n), Low(y, n), n - 1);
    }
  }

  /** Zero is the identity of `^` and `|` and absorbs `&`. */
  lemma {:induction false} BitwiseZero(k: BitOp, x: nat, n: nat)
    requires x < Pow2(n)
    ensures Bitwise(k, x, 0, n) == if k == And then 0 else x
  {
    if n > 0 {
      assert Top(0, n) == 0 && Low(0, n) == 0;
      BitwiseZero(k, Low(x, n), n - 1);
    }
  }

  /** `x & y` on int32, through the unsigned images. */
  function BitwiseInt(k: BitOp, a: int32, b: int32): int32 {
    Pow2Word();
    FromUnsigned(Bitwise(k, ToUnsigned(a), ToUnsigned(b), 32))
  }

  /** `~x` on int32. */
  function ComplementInt(a: int32): (r: int32)
    ensures r == -(a as int) - 1
  {
    Pow2Word();
    ComplementValue(ToUnsigned(a), 32);
    FromUnsigned(Complement(ToUnsigned(a), 32))
  }

  /** The sign of a bitwise result is the operator applied to the operands'
      signs: the sign bit is bit 31. */
  lemma BitwiseSign(k: BitOp, a: int32, b: int32)
    ensures (BitwiseInt(k, a, b) < 0) <==>
      match k
      case And => a < 0 && b < 0
      case Xor => (a < 0) != (b < 0)
      case Or => a < 0 || b < 0
  {
    Pow2Word();
  }

  lemma BitwiseIntZero(k: BitOp, a: int32)
    ensures BitwiseInt(k, a, 0) == if k == And then 0 else a
  {
    Pow2Word();
    BitwiseZero(k, ToUnsigned(a), 32);
    UnsignedRoundTrip(a);
  }

  /** The carry-save identity on signed operands: `a + b` and
      `(a ^ b) + 2 * (a & b)` agree modulo 2^32. */
  lemma XorAndSumInt(a: int32, b: int32)
    ensures (a + b - (BitwiseInt(Xor, a, b) + 2 * BitwiseInt(And, a, b))) % TWO32 == 0
  {
    Pow2Word();
    XorAndSum(ToUnsigned(a), ToUnsigned(b), 32);
  }
}
