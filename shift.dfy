/** The shift semantics: `ShiftRight<Converter>::DO` (SHR with the
    unsigned converter, SAR with the signed one) and SHL. Each method keeps
    the source's branches on the masked count and its mutable new value,
    CF and OF; its contract states the result by the definitions of the
    SAL/SAR/SHL/SHR entry of volume 2 of the Intel 64 and IA-32
    Architectures Software Developer's Manual: a right shift is a floor
    division by 2^count, a left shift a multiplication by 2^count modulo
    2^w, and CF is the last bit shifted out. */
module Shift {
  import opened Bits
  import opened Flags
  import opened Machine

  /** `kArchMask`: 0x3F for 64-bit operands, 0x1F for all other widths. */
  function ArchMask(w: Width): nat {
    if w == 64 then 0x3F else 0x1F
  }

  /** `R(src2_) & kArchMask`: the count modulo 64 for a 64-bit operand and
      modulo 32 otherwise, so that a count of w or more can only occur at
      8 and 16 bits. */
  function MaskedCount(w: Width, y: nat): (c: nat)
    ensures c == y % (if w == 64 then 64 else 32)
    ensures w >= 32 ==> c < w
  {
    ArchMaskIsMod(w, y);
    Bitwise(AndOp, y, ArchMask(w), w)
  }

  lemma ArchMaskIsMod(w: Width, y: nat)
    ensures Bitwise(AndOp, y, ArchMask(w), w) == y % (if w == 64 then 64 else 32)
  {
    Pow2OfCounts();
    if w == 64 {
      LowMaskIsMod(y, w, 6);
    } else {
      LowMaskIsMod(y, w, 5);
    }
  }

  lemma Pow2OfCounts()
    ensures Pow2(1) == 2 && Pow2(5) == 32 && Pow2(6) == 64
  {
    assert Pow2(2) == 4;
    assert Pow2(4) == 16;
  }

  /** Arithmetic facts for the shifts, on plain integers. */

  /** Floor division by a positive number moves a value toward zero and
      keeps its sign. */
  lemma DivShrinks(v: int, p: int)
    requires p >= 1
    ensures v >= 0 ==> 0 <= v / p <= v
    ensures v < 0 ==> v <= v / p < 0
  {
    var q, r := v / p, v % p;
    assert v == p * q + r;
    if v >= 0 {
      if q < 0 {
        MulMonotone(p, q, -1);
        assert false;
      }
      MulMonotone(q, 1, p);
    } else {
      if q >= 0 {
        MulMonotone(p, 0, q);
        assert false;
      }
      MulMonotone(p - 1, 1, -q);
      assert (p - 1) * (-q) == q - p * q;
    }
  }

  /** `(x * p) / (p * q) == x / q`. */
  lemma DivCancel(x: int, p: int, q: int)
    requires p >= 1 && q >= 1
    ensures (x * p) / (p * q) == x / q
  {
    var k, r := x / q, x % q;
    assert x == q * k + r;
    assert x * p == (p * q) * k + p * r;
    MulMonotone(p, r, q - 1);
    DivUnique(x * p, p * q, k, p * r);
  }

  /** The top bit of `y mod 2h` is bit 0 of `y / h`. */
  lemma TopBitCore(y: int, h: int)
    requires h >= 1
    ensures (y % (2 * h) >= h) == ((y / h) % 2 == 1)
  {
    var a, b := y / (2 * h), y % (2 * h);
    assert y == (2 * h) * a + b;
    var t := if b >= h then 1 else 0;
    DivUnique(y, h, 2 * a + t, b - t * h);
    DivUnique(2 * a + t, 2, a, t);
  }

  /** Bits below w of a w-bit pattern read the same through the signed view. */
  lemma LowBitsOfView(s: Signedness, w: Width, x: nat, k: nat)
    requires x < Modulus(w) && k < w
    ensures Bit(View(s, w, x), k) == Bit(x, k)
  {
    if View(s, w, x) != x {
      ModulusIsPow2(w);
      Pow2Add(k, w - k);
      BitShiftCore(x, Pow2(k), Pow2(w - k - 1));
    }
  }

  /** Subtracting an even multiple of p does not change bit 0 of `x / p`. */
  lemma BitShiftCore(x: int, p: int, q: int)
    requires p >= 1
    ensures ((x - p * (2 * q)) / p) % 2 == (x / p) % 2
  {
    var a, r := x / p, x % p;
    assert x - p * (2 * q) == p * (a - 2 * q) + r;
    DivUnique(x - p * (2 * q), p, a - 2 * q, r);
    DivUnique(a - 2 * q, 2, a / 2 - q, a % 2);
  }

  /** The value a right shift by c leaves: the source's step `(v >> (c-1)) >> 1`
      is one floor division by 2^c, and a count of w or more leaves only
      copies of the sign. */
  lemma ShiftRightValue(s: Signedness, w: Width, x: nat, c: nat)
    requires x < Modulus(w) && c >= 1
    ensures var v := View(s, w, x);
      (v / Pow2(c - 1)) / 2 == v / Pow2(c)
      && (c >= w ==> v / Pow2(c) == (if s == SignedInt && SignBit(w, x) then -1 else 0))
      && InRange(s, w, v / Pow2(c))
  {
    var v := View(s, w, x);
    var p := Pow2(c);
    DivDiv(v, Pow2(c - 1), 2);
    DivShrinks(v, p);
    if c >= w {
      ModulusIsPow2(w);
      Pow2Monotone(w - 1, c);
      Pow2Monotone(w, c);
      assert -p <= v < p;
      SmallQuotientCore(v, p);
    }
  }

  /** A value of magnitude at most p divided by p is its sign. */
  lemma SmallQuotientCore(v: int, p: int)
    requires p >= 1 && -p <= v < p
    ensures v / p == if v < 0 then -1 else 0
  {
    if v >= 0 {
      DivUnique(v, p, 0, v);
    } else {
      DivUnique(v, p, -1, v + p);
    }
  }

  /** An unsigned right shift by at least one clears the top bit. */
  lemma ShrClearsSign(w: Width, x: nat, c: nat)
    requires x < Modulus(w) && c >= 1
    ensures x / Pow2(c) < Half(w)
    ensures !SignBit(w, Wrap(w, x / Pow2(c)))
  {
    DivDiv(x, 2, Pow2(c - 1));
    DivShrinks(x / 2, Pow2(c - 1));
    DivShrinks(x, Pow2(c));
    DivUnique(x / Pow2(c), Modulus(w), 0, x / Pow2(c));
  }

  /** Bit w-1 of `x << (c-1)` truncated to w bits is bit w-c of x. */
  lemma ShlCarry(w: Width, x: nat, c: nat)
    requires x < Modulus(w) && 1 <= c < w
    ensures SignBit(w, Wrap(w, x * Pow2(c - 1))) == Bit(x, w - c)
  {
    var p, q := Pow2(c - 1), Pow2(w - c);
    ModulusIsPow2(w);
    Pow2Add(c - 1, w - c);
    assert Half(w) == p * q;
    TopBitCore(x * p, Half(w));
    DivCancel(x, p, q);
  }

  /** `(x << (c-1)) << 1` at w bits is `x << c` at w bits. */
  lemma ShlStep(w: Width, x: nat, c: nat)
    requires c >= 1
    ensures Wrap(w, Wrap(w, x * Pow2(c - 1)) * 2) == Wrap(w, x * Pow2(c))
  {
    var y := x * Pow2(c - 1);
    var m := Modulus(w);
    var q := y / m;
    assert y == m * q + Wrap(w, y);
    assert x * Pow2(c) == 2 * y;
    assert 2 * y - Wrap(w, y) * 2 == m * (2 * q);
    DivUnique(m * (2 * q), m, 2 * q, 0);
    ModShift(w, Wrap(w, y) * 2, 2 * y);
  }

  /** A left shift by w or more leaves zero. */
  lemma ShlAllOut(w: Width, x: nat, c: nat)
    requires c >= w
    ensures Wrap(w, x * Pow2(c)) == 0
  {
    ModulusIsPow2(w);
    Pow2Add(w, c - w);
    MultipleCore(x, Pow2(w), Pow2(c - w));
  }

  /** A multiple of m leaves no remainder. */
  lemma MultipleCore(x: int, m: int, q: int)
    requires m >= 1
    ensures (x * (m * q)) % m == 0
  {
    assert x * (m * q) == m * (x * q);
    DivUnique(x * (m * q), m, x * q, 0);
  }

  /** The flags a right shift by a non-zero count c leaves, by the manual's
      definitions: CF the last bit shifted out (undefined once the count
      reaches the width), OF the original sign bit for SHR and clear for
      SAR at a count of one and undefined otherwise, AF undefined. */
  function ShiftRightFlags(s: Signedness, w: Width, x: nat, c: nat, r: nat): FlagSet
    requires x < Modulus(w) && r < Modulus(w) && c >= 1
  {
    FlagSet(
      if c < w then FromBool(Bit(x, c - 1)) else Undef,
      ParityFlag(r), Undef, FromBool(r == 0), SignFlag(w, r),
      if c == 1 then (if s == SignedInt then F else SignFlag(w, x)) else Undef)
  }

  /** `ShiftRight<Converter>::DO`: SHR for the unsigned converter and SAR for
      the signed one. A masked count of 0 returns before any write. */
  method ShiftRight(st: State, s: Signedness, w: Width, dst: Loc, src1: Operand, src2: Operand)
    modifies st
    ensures var x, c := old(st.Read(w, src1)), MaskedCount(w, old(st.Read(w, src2)));
      if c == 0 then
        st.loc == old(st.loc) && st.vec == old(st.vec) && st.Flags() == old(st.Flags())
      else
        var r := Wrap(w, View(s, w, x) / Pow2(c));
        st.loc == old(st.loc)[dst := r]
        && st.vec == old(st.vec)
        && st.Flags() == ShiftRightFlags(s, w, x, c, r)
  {
    // The count operand is CL or an 8-bit immediate; reading it at width w
    // instead keeps the same low five or six bits, all the mask retains.
    var shift := MaskedCount(w, st.Read(w, src2));
    if shift == 0 {
      return;
    }
    var x := st.Read(w, src1);
    var val := View(s, w, x);
    var newVal: int := 0;
    var newOf := F;
    var newCf := F;
    if shift == 1 {
      newOf := if s == SignedInt then F else SignFlag(w, x);
      newCf := FromBool(val % 2 == 1);
      newVal := val / 2;
    } else if shift < w {
      var res := val / Pow2(shift - 1);
      newOf := Undef;
      newCf := FromBool(res % 2 == 1);
      newVal := res / 2;
    } else {
      newOf := Undef;
      newCf := Undef;
      if s == SignedInt {
        newVal := if SignBit(w, x) then -1 else 0;
      } else {
        newVal := 0;
      }
    }
    ShiftRightBranches(s, w, x, shift);
    assert newVal == val / Pow2(shift);
    var r := Wrap(w, newVal);
    assert newCf == (if shift < w then FromBool(Bit(x, shift - 1)) else Undef);
    var flags := FlagSet(newCf, ParityFlag(r), Undef, ZeroFlag(r), if s == SignedInt then SignFlag(w, r) else F, newOf);
    ShiftRightFlagsOf(s, w, x, shift, newCf, newOf);
    Commit(st, dst, r, flags);
  }

  /** The source's three branches of `ShiftRight::DO` compute the floor
      quotient and the last bit shifted out. */
  lemma ShiftRightBranches(s: Signedness, w: Width, x: nat, c: nat)
    requires x < Modulus(w) && c >= 1
    ensures var v := View(s, w, x);
      (c == 1 ==> v / 2 == v / Pow2(c) && (v % 2 == 1) == Bit(x, 0))
      && (1 < c < w ==> (v / Pow2(c - 1)) / 2 == v / Pow2(c) && ((v / Pow2(c - 1)) % 2 == 1) == Bit(x, c - 1))
      && (c >= w ==> v / Pow2(c) == (if s == SignedInt && SignBit(w, x) then -1 else 0))
  {
    var v := View(s, w, x);
    ShiftRightValue(s, w, x, c);
    if c == 1 {
      Pow2OfCounts();
      BitZero(v);
      LowBitsOfView(s, w, x, 0);
    } else if c < w {
      LowBitsOfView(s, w, x, c - 1);
    }
  }

  /** The flags the source assigns after a right shift agree with the
      manual's: SF is copied from the result for SAR and cleared for SHR,
      whose result never has its top bit set. */
  lemma ShiftRightFlagsOf(s: Signedness, w: Width, x: nat, c: nat, cf: Flag, of: Flag)
    requires x < Modulus(w) && c >= 1
    requires cf == (if c < w then FromBool(Bit(x, c - 1)) else Undef)
    requires of == (if c == 1 then (if s == SignedInt then F else SignFlag(w, x)) else Undef)
    ensures var r := Wrap(w, View(s, w, x) / Pow2(c));
      FlagSet(cf, ParityFlag(r), Undef, ZeroFlag(r), if s == SignedInt then SignFlag(w, r) else F, of)
      == ShiftRightFlags(s, w, x, c, r)
  {
    if s == UnsignedInt {
      ShrClearsSign(w, x, c);
    }
  }

  /** `W(dst) = new_val`, then the six flag assignments. */
  method Commit(st: State, dst: Loc, r: nat, f: FlagSet)
    modifies st
    ensures st.loc == old(st.loc)[dst := r] && st.vec == old(st.vec) && st.Flags() == f
  {
    st.Write(dst, r);
    st.cf := f.cf;
    st.pf := f.pf;
    st.af := f.af;
    st.zf := f.zf;
    st.sf := f.sf;
    st.of := f.of;
  }

  /** SHR never sets SF: its result always has a clear top bit. */
  lemma ShrSignClear(w: Width, x: nat, c: nat)
    requires x < Modulus(w) && c >= 1
    ensures var r := Wrap(w, x / Pow2(c)); ShiftRightFlags(UnsignedInt, w, x, c, r).sf == F
  {
    ShrClearsSign(w, x, c);
  }

  /** SAR by the width or more leaves all ones for a negative operand and
      zero otherwise; SHR leaves zero. */
  lemma ShiftRightAllOut(s: Signedness, w: Width, x: nat, c: nat)
    requires x < Modulus(w) && c >= w
    ensures Wrap(w, View(s, w, x) / Pow2(c))
         == if s == SignedInt && SignBit(w, x) then Modulus(w) - 1 else 0
  {
    ShiftRightValue(s, w, x, c);
    WrapNear(w, View(s, w, x) / Pow2(c));
  }

  /** SAR rounds toward negative infinity: at 8 bits, 0xFF (-1) shifted
      right by one stays 0xFF, with CF set from the bit shifted out. */
  lemma SarRoundsDown()
    ensures var r := Wrap(8, View(SignedInt, 8, 0xFF) / Pow2(1));
      r == 0xFF && ShiftRightFlags(SignedInt, 8, 0xFF, 1, r).cf == T
  {
    assert View(SignedInt, 8, 0xFF) == -1;
    assert Pow2(1) == 2;
    DivUnique(-1, 2, -1, 1);
    WrapNear(8, -1);
    BitZero(0xFF);
  }

  /** The flags a left shift by a non-zero count c leaves: CF the last bit
      shifted out, bit w-c of the operand (undefined once the count reaches
      the width), OF at a count of one the top bit of the result XOR CF,
      undefined otherwise, AF undefined. */
  function ShlFlags(w: Width, x: nat, c: nat, r: nat): FlagSet
    requires x < Modulus(w) && r < Modulus(w) && c >= 1
  {
    FlagSet(
      if c < w then FromBool(Bit(x, w - c)) else Undef,
      ParityFlag(r), Undef, FromBool(r == 0), SignFlag(w, r),
      if c == 1 then FromBool(SignBit(w, r) != Bit(x, w - 1)) else Undef)
  }

  /** SHL (and SAL, which shares its encodings). A masked count of 0 returns
      before any write. */
  method Shl(st: State, w: Width, dst: Loc, src1: Operand, src2: Operand)
    modifies st
    ensures var x, c := old(st.Read(w, src1)), MaskedCount(w, old(st.Read(w, src2)));
      if c == 0 then
        st.loc == old(st.loc) && st.vec == old(st.vec) && st.Flags() == old(st.Flags())
      else
        var r := Wrap(w, x * Pow2(c));
        st.loc == old(st.loc)[dst := r]
        && st.vec == old(st.vec)
        && st.Flags() == ShlFlags(w, x, c, r)
  {
    // The count operand is CL or an 8-bit immediate; reading it at width w
    // instead keeps the same low five or six bits, all the mask retains.
    var shift := MaskedCount(w, st.Read(w, src2));
    if shift == 0 {
      return;
    }
    var val := st.Read(w, src1);
    ghost var r := Wrap(w, val * Pow2(shift));
    ghost var spec := ShlFlags(w, val, shift, r);
    var newVal: nat := 0;
    var newCf := F;
    var newOf := F;
    if shift == 1 {
      var res := Wrap(w, val * 2);
      var msb := SignFlag(w, val);
      var newMsb := SignFlag(w, res);
      newOf := FromBool(msb != newMsb);
      newCf := msb;
      newVal := res;
      SignBitIsTopBit(w, val);
      Pow2OfCounts();
      assert newVal == r && newCf == spec.cf && newOf == spec.of;
    } else if shift < w {
      var res := Wrap(w, val * Pow2(shift - 1));
      var msb := SignFlag(w, res);
      newOf := Undef;
      newCf := msb;
      newVal := Wrap(w, res * 2);
      ShlCarry(w, val, shift);
      ShlStep(w, val, shift);
      assert newVal == r && newCf == spec.cf && newOf == spec.of;
    } else {
      newOf := Undef;
      newCf := Undef;
      newVal := 0;
      ShlAllOut(w, val, shift);
      assert newVal == r && newCf == spec.cf && newOf == spec.of;
    }
    Commit(st, dst, newVal, FlagSet(newCf, ParityFlag(newVal), Undef, ZeroFlag(newVal), SignFlag(w, newVal), newOf));
  }

  /** A left shift by one is a doubling modulo 2^w; SHL by one of 0x80 at 8
      bits gives 0 with CF and OF set. */
  lemma ShlOfTopBit()
    ensures var r := Wrap(8, 0x80 * Pow2(1));
      r == 0 && ShlFlags(8, 0x80, 1, r) == FlagSet(T, T, Undef, T, F, T)
  {
    assert Pow2(1) == 2;
    DivUnique(0x100, 0x100, 1, 0);
    SignBitIsTopBit(8, 0x80);
  }
}
