/** Fixed-width machine integers, modelled on mathematical integers.
    A W-bit value is a nat below Modulus(W); its two's-complement reading is
    ToSigned(W, x). Bit-level operations are defined bit by bit on nats. */
module Bits {

  /** The widths of the general-purpose integer instructions. */
  type Width = w: nat | w == 8 || w == 16 || w == 32 || w == 64 witness 8

  /** How an instantiation reads its operands: the C++ `Converter` template
      parameter (UnsignedIntegerType or SignedIntegerType). */
  datatype Signedness = UnsignedInt | SignedInt

  function Pow2(n: nat): (r: nat)
    ensures r >= 1
  {
    if n == 0 then 1 else 2 * Pow2(n - 1)
  }

  lemma {:induction false} Pow2Add(a: nat, b: nat)
    ensures Pow2(a + b) == Pow2(a) * Pow2(b)
  {
    if a > 0 {
      Pow2Add(a - 1, b);
    }
  }

  lemma {:induction false} Pow2Monotone(a: nat, b: nat)
    requires a <= b
    ensures Pow2(a) <= Pow2(b)
  {
    if a < b {
      Pow2Monotone(a, b - 1);
    }
  }

  /** 2^w, written as a literal for each width. */
  function Modulus(w: Width): (m: int)
    ensures m >= 0x100
  {
    if w == 8 then 0x100
    else if w == 16 then 0x1_0000
    else if w == 32 then 0x1_0000_0000
    else 0x1_0000_0000_0000_0000
  }

  lemma Pow2OfWidths()
    ensures Pow2(8) == 0x100 && Pow2(16) == 0x1_0000 && Pow2(32) == 0x1_0000_0000
    ensures Pow2(64) == 0x1_0000_0000_0000_0000
  {
    assert Pow2(8) == 0x100;
    Pow2Add(8, 8);
    Pow2Add(16, 16);
    Pow2Add(32, 32);
  }

  /** The literals are the powers of two they stand for. */
  lemma ModulusIsPow2(w: Width)
    ensures Modulus(w) == Pow2(w) && Half(w) == Pow2(w - 1)
  {
    Pow2OfWidths();
  }

  /** 2^(w-1): the weight of the sign bit. */
  function Half(w: Width): (h: int)
    ensures 2 * h == Modulus(w) && h >= 0x80
  {
    if w == 8 then 0x80
    else if w == 16 then 0x8000
    else if w == 32 then 0x8000_0000
    else 0x8000_0000_0000_0000
  }

  /** Truncation of an integer to w bits (a C++ cast to a w-bit type). */
  function Wrap(w: Width, x: int): (r: nat)
    ensures r < Modulus(w)
  {
    x % Modulus(w)
  }

  /** Truncation of a value at most one modulus away from the range. */
  lemma WrapNear(w: Width, x: int)
    requires -Modulus(w) <= x < 2 * Modulus(w)
    ensures Wrap(w, x) == if x < 0 then x + Modulus(w) else if x < Modulus(w) then x else x - Modulus(w)
  {
    var m := Modulus(w);
    if x < 0 {
      DivUnique(x, m, -1, x + m);
    } else if x < m {
      DivUnique(x, m, 0, x);
    } else {
      DivUnique(x, m, 1, x - m);
    }
  }

  /** Two integers that differ by a multiple of the modulus truncate alike. */
  lemma ModShift(w: Width, x: int, y: int)
    requires (y - x) % Modulus(w) == 0
    ensures Wrap(w, x) == Wrap(w, y)
  {
    var m := Modulus(w);
    var k := (y - x) / m;
    assert y - x == m * k;
    DivUnique(y, m, x / m + k, x % m);
  }

  /** The two's-complement value of a w-bit pattern. */
  function ToSigned(w: Width, x: nat): (v: int)
    requires x < Modulus(w)
    ensures -Half(w) <= v < Half(w)
  {
    if x < Half(w) then x else x - Modulus(w)
  }

  /** The value a `Converter` gives a w-bit pattern. */
  function View(s: Signedness, w: Width, x: nat): int
    requires x < Modulus(w)
  {
    if s == SignedInt then ToSigned(w, x) else x
  }

  /** The integers a w-bit type of the given signedness can hold. */
  predicate InRange(s: Signedness, w: Width, v: int) {
    if s == SignedInt then -Half(w) <= v < Half(w) else 0 <= v < Modulus(w)
  }

  lemma ViewOfWrap(s: Signedness, w: Width, v: int)
    requires InRange(s, w, v)
    ensures View(s, w, Wrap(w, v)) == v
  {
    WrapNear(w, v);
  }

  /** The most significant bit of a w-bit value. */
  predicate SignBit(w: Width, x: nat)
    requires x < Modulus(w)
  {
    x >= Half(w)
  }

  /** Bit k of x in two's complement (floor division, so negative x works). */
  predicate Bit(x: int, k: nat) {
    (x / Pow2(k)) % 2 == 1
  }

  lemma SignBitIsTopBit(w: Width, x: nat)
    requires x < Modulus(w)
    ensures SignBit(w, x) == Bit(x, w - 1)
  {
    ModulusIsPow2(w);
    assert x / Half(w) == (if x >= Half(w) then 1 else 0);
  }

  /** Division facts on mathematical integers. */

  lemma DivUnique(x: int, d: int, q: int, r: int)
    requires d > 0 && 0 <= r < d && x == d * q + r
    ensures x / d == q && x % d == r
  {
    var q0, r0 := x / d, x % d;
    assert d * (q - q0) == r0 - r;
    if q > q0 {
      MulAtLeast(d, q - q0);
    } else if q < q0 {
      MulAtLeast(d, q0 - q);
    }
  }

  lemma MulAtLeast(d: int, k: int)
    requires d > 0 && k >= 1
    ensures d * k >= d
  {
  }

  lemma DivDiv(x: int, a: int, b: int)
    requires a > 0 && b > 0
    ensures (x / a) / b == x / (a * b)
  {
    var q1, r1 := x / a, x % a;
    var q2, r2 := q1 / b, q1 % b;
    assert x == a * (b * q2 + r2) + r1;
    assert a * r2 + r1 <= a * (b - 1) + r1 by {
      MulMonotone(a, r2, b - 1);
    }
    assert x == (a * b) * q2 + (a * r2 + r1);
    DivUnique(x, a * b, q2, a * r2 + r1);
  }

  lemma MulMonotone(a: int, x: int, y: int)
    requires a >= 0 && x <= y
    ensures a * x <= a * y
  {
  }

  lemma BitHalf(x: int, k: nat)
    requires k >= 1
    ensures Bit(x, k) == Bit(x / 2, k - 1)
  {
    DivDiv(x, 2, Pow2(k - 1));
  }

  lemma BitZero(x: int)
    ensures Bit(x, 0) == (x % 2 == 1)
  {
  }

  /** The binary bit operations the semantics use. AndNotOp is `(~a) & b`. */
  datatype BitOp = AndOp | OrOp | XorOp | AndNotOp

  predicate ApplyBit(op: BitOp, x: bool, y: bool) {
    match op
    case AndOp => x && y
    case OrOp => x || y
    case XorOp => x != y
    case AndNotOp => !x && y
  }

  /** `op` applied to the low n bits of a and b. */
  function Bitwise(op: BitOp, a: nat, b: nat, n: nat): (r: nat)
    ensures r < Pow2(n)
    decreases n
  {
    if n == 0 then 0
    else (if ApplyBit(op, a % 2 == 1, b % 2 == 1) then 1 else 0) + 2 * Bitwise(op, a / 2, b / 2, n - 1)
  }

  /** `~a` on n bits. */
  function Complement(n: nat, a: nat): (r: nat)
    requires a < Pow2(n)
    ensures r < Pow2(n)
  {
    Pow2(n) - 1 - a
  }

  /** Bitwise is exactly `op` on every bit position below n. */
  lemma {:induction false} BitwiseBit(op: BitOp, a: nat, b: nat, n: nat, k: nat)
    requires k < n
    ensures Bit(Bitwise(op, a, b, n), k) == ApplyBit(op, Bit(a, k), Bit(b, k))
    decreases n
  {
    var r := Bitwise(op, a, b, n);
    var low := if ApplyBit(op, a % 2 == 1, b % 2 == 1) then 1 else 0;
    var rest := Bitwise(op, a / 2, b / 2, n - 1);
    DivUnique(r, 2, rest, low);
    if k == 0 {
      BitZero(r);
      BitZero(a);
      BitZero(b);
    } else {
      BitHalf(r, k);
      BitHalf(a, k);
      BitHalf(b, k);
      BitwiseBit(op, a / 2, b / 2, n - 1, k - 1);
    }
  }

  /** Bits at or above n of a value below 2^n are clear. */
  lemma HighBitClear(x: nat, n: nat, k: nat)
    requires x < Pow2(n) && n <= k
    ensures !Bit(x, k)
  {
    Pow2Monotone(n, k);
    DivUnique(x, Pow2(k), 0, x);
  }

  /** A value below 2^n is zero exactly when its n low bits are all clear. */
  lemma {:induction false} ZeroIffNoBits(x: nat, n: nat)
    requires x < Pow2(n)
    ensures x == 0 <==> forall k :: 0 <= k < n ==> !Bit(x, k)
    decreases n
  {
    if n > 0 && x != 0 {
      if x % 2 == 1 {
        assert Bit(x, 0);
      } else {
        ZeroIffNoBits(x / 2, n - 1);
        var j :| 0 <= j < n - 1 && Bit(x / 2, j);
        BitHalf(x, j + 1);
        assert Bit(x, j + 1);
      }
    }
  }

  /** Two values below 2^n with the same n low bits are equal. */
  lemma {:induction false} BitsDetermine(a: nat, b: nat, n: nat)
    requires a < Pow2(n) && b < Pow2(n)
    requires forall k :: 0 <= k < n ==> Bit(a, k) == Bit(b, k)
    ensures a == b
    decreases n
  {
    if n > 0 {
      BitZero(a);
      BitZero(b);
      assert Bit(a, 0) == Bit(b, 0);
      forall k | 0 <= k < n - 1
        ensures Bit(a / 2, k) == Bit(b / 2, k)
      {
        BitHalf(a, k + 1);
        BitHalf(b, k + 1);
        assert Bit(a, k + 1) == Bit(b, k + 1);
      }
      BitsDetermine(a / 2, b / 2, n - 1);
    }
  }

  lemma {:induction false} ComplementBit(n: nat, a: nat, k: nat)
    requires a < Pow2(n) && k < n
    ensures Bit(Complement(n, a), k) == !Bit(a, k)
    decreases n
  {
    var c := Complement(n, a);
    ComplementHalf(n, a);
    if k == 0 {
      BitZero(c);
      BitZero(a);
    } else {
      BitHalf(c, k);
      BitHalf(a, k);
      ComplementBit(n - 1, a / 2, k - 1);
    }
  }

  /** `(~a) & b` as computed by Bitwise(AndNotOp, ...) is the AND of the complement. */
  lemma {:induction false} AndNotIsAndOfComplement(n: nat, a: nat, b: nat)
    requires a < Pow2(n)
    ensures Bitwise(AndNotOp, a, b, n) == Bitwise(AndOp, Complement(n, a), b, n)
    decreases n
  {
    if n > 0 {
      ComplementHalf(n, a);
      AndNotIsAndOfComplement(n - 1, a / 2, b / 2);
    }
  }

  /** The low bit of `~a` is the flipped low bit of a, and the bits above
      it are the complement of `a / 2` on one bit fewer. */
  lemma ComplementHalf(n: nat, a: nat)
    requires a < Pow2(n) && n >= 1
    ensures a / 2 < Pow2(n - 1)
    ensures Complement(n, a) % 2 == 1 - a % 2
    ensures Complement(n, a) / 2 == Complement(n - 1, a / 2)
  {
    var p := Pow2(n - 1);
    var q, r := a / 2, a % 2;
    assert Pow2(n) == 2 * p;
    DivUnique(Complement(n, a), 2, p - 1 - q, 1 - r);
  }

  lemma {:induction false} XorSelfIsZero(a: nat, n: nat)
    ensures Bitwise(XorOp, a, a, n) == 0
    decreases n
  {
    if n > 0 {
      XorSelfIsZero(a / 2, n - 1);
    }
  }

  /** AND with the mask 2^k - 1 keeps the k low bits: `x & 0x1F == x % 32`. */
  lemma {:induction false} LowMaskIsMod(x: nat, n: nat, k: nat)
    requires k <= n
    ensures Bitwise(AndOp, x, Pow2(k) - 1, n) == x % Pow2(k)
    decreases n
  {
    if k == 0 {
      assert Pow2(k) - 1 == 0;
      ZeroBitsAnd(x, n);
    } else {
      var p := Pow2(k - 1);
      assert Pow2(k) == 2 * p;
      var rest := Bitwise(AndOp, x / 2, p - 1, n - 1);
      LowMaskStep(x, n, p, Pow2(k) - 1);
      LowMaskIsMod(x / 2, n - 1, k - 1);
      assert rest == (x / 2) % p;
      ModOfHalf(x, p, Pow2(k));
    }
  }

  /** One bit of `x & mask` for the mask `2p - 1`: the low bit of x
      survives, the rest is `(x / 2) & (p - 1)`. */
  lemma LowMaskStep(x: nat, n: nat, p: nat, mask: nat)
    requires n >= 1 && p >= 1 && mask == 2 * p - 1
    ensures Bitwise(AndOp, x, mask, n) == x % 2 + 2 * Bitwise(AndOp, x / 2, p - 1, n - 1)
  {
    DivUnique(mask, 2, p - 1, 1);
  }

  lemma {:induction false} ZeroBitsAnd(x: nat, n: nat)
    ensures Bitwise(AndOp, x, 0, n) == 0
    decreases n
  {
    if n > 0 {
      ZeroBitsAnd(x / 2, n - 1);
    }
  }

  lemma ModOfHalf(x: nat, p: nat, m: nat)
    requires p >= 1 && m == 2 * p
    ensures x % m == x % 2 + 2 * ((x / 2) % p)
  {
    var q, r := (x / 2) / p, (x / 2) % p;
    assert x == 2 * (p * q + r) + x % 2;
    assert x == (2 * p) * q + (x % 2 + 2 * r);
    DivUnique(x, 2 * p, q, x % 2 + 2 * r);
  }

  function Abs(x: int): nat {
    if x < 0 then -x else x
  }

  /** C++ `/` on integers: the quotient rounded toward zero. */
  function TruncDiv(a: int, b: int): (q: int)
    requires b != 0
    ensures Abs(b) * Abs(q) <= Abs(a) < Abs(b) * (Abs(q) + 1)
    ensures q != 0 ==> ((q < 0) <==> ((a < 0) != (b < 0)))
  {
    var q := if (a < 0) == (b < 0) then Abs(a) / Abs(b) else -(Abs(a) / Abs(b));
    TruncDivBounds(a, b, q);
    q
  }

  lemma TruncDivBounds(a: int, b: int, q: int)
    requires b != 0
    requires q == if (a < 0) == (b < 0) then Abs(a) / Abs(b) else -(Abs(a) / Abs(b))
    ensures Abs(b) * Abs(q) <= Abs(a) < Abs(b) * (Abs(q) + 1)
    ensures q != 0 ==> ((q < 0) <==> ((a < 0) != (b < 0)))
  {
    var d, m := Abs(b), Abs(a) / Abs(b);
    assert Abs(a) == d * m + Abs(a) % d;
    if m < 0 {
      MulMonotone(d, m, -1);
      assert false;
    }
    assert Abs(q) == m;
    assert d * (m + 1) == d * m + d;
  }

  /** C++ `%` on integers: the remainder that goes with TruncDiv. */
  function TruncMod(a: int, b: int): (r: int)
    requires b != 0
    ensures a == b * TruncDiv(a, b) + r
    ensures Abs(r) < Abs(b)
    ensures r != 0 ==> ((r < 0) <==> (a < 0))
  {
    var q := TruncDiv(a, b);
    ProductSign(b, q);
    a - b * q
  }

  lemma ProductSign(x: int, y: int)
    ensures Abs(x * y) == Abs(x) * Abs(y)
    ensures x != 0 && y != 0 ==> ((x * y < 0) <==> ((x < 0) != (y < 0)))
  {
    if x < 0 && y >= 0 {
      assert x * y == -(Abs(x) * Abs(y));
    } else if x >= 0 && y < 0 {
      assert x * y == -(Abs(x) * Abs(y));
    } else {
      assert x * y == Abs(x) * Abs(y);
    }
    if x != 0 && y != 0 {
      MulAtLeast(Abs(x), Abs(y));
    }
  }

  /** On non-negative operands the truncating and the Euclidean division agree. */
  lemma TruncDivOfNat(a: nat, b: nat)
    requires b > 0
    ensures TruncDiv(a, b) == a / b && TruncMod(a, b) == a % b
  {
  }
}
