/** The logical semantics: the scalar AND, OR, XOR, NOT and TEST, which
    set the flags through `SetFlagsLogical`, and the packed PAND, PANDN,
    POR, PXOR and PTEST over vectors of 64-bit words. */
module Logical {
  import opened Bits
  import opened Flags
  import opened Machine

  /** `a op b` on w-bit values. */
  function Logic(op: BitOp, w: Width, a: nat, b: nat): (r: nat)
    ensures r < Modulus(w)
  {
    ModulusIsPow2(w);
    Bitwise(op, a, b, w)
  }

  /** `~a` on a w-bit value. C++ promotes an 8- or 16-bit operand to `int`
      before `~`; the write back to the w-bit destination truncates it again,
      which leaves exactly the w-bit complement. */
  function Not(w: Width, a: nat): (r: nat)
    requires a < Modulus(w)
    ensures r < Modulus(w)
  {
    ModulusIsPow2(w);
    Complement(w, a)
  }

  /** The flags `SetFlagsLogical` leaves: CF and OF cleared, PF, ZF and SF
      from the result, and AF, which it never assigns, as it was. */
  function LogicalFlags(w: Width, res: nat, before: FlagSet): FlagSet
    requires res < Modulus(w)
  {
    before.(cf := F, pf := ParityFlag(res), zf := ZeroFlag(res), sf := SignFlag(w, res), of := F)
  }

  method SetFlagsLogical(st: State, w: Width, res: nat)
    requires res < Modulus(w)
    modifies st
    ensures st.Flags() == LogicalFlags(w, res, old(st.Flags()))
    ensures st.loc == old(st.loc) && st.vec == old(st.vec)
  {
    st.cf := F;
    st.pf := ParityFlag(res);
    st.zf := ZeroFlag(res);
    st.sf := SignFlag(w, res);
    st.of := F;
  }

  /** The shared body of AND, OR and XOR: `res = src1 op src2`, `W(dst) = res`,
      then `SetFlagsLogical`. */
  method BinaryLogical(st: State, op: BitOp, w: Width, dst: Loc, src1: Operand, src2: Operand)
    modifies st
    ensures var res := Logic(op, w, old(st.Read(w, src1)), old(st.Read(w, src2)));
      st.loc == old(st.loc)[dst := res]
      && st.vec == old(st.vec)
      && st.Flags() == LogicalFlags(w, res, old(st.Flags()))
  {
    var a := st.Read(w, src1);
    var b := st.Read(w, src2);
    var res := Logic(op, w, a, b);
    st.Write(dst, res);
    SetFlagsLogical(st, w, res);
  }

  method And(st: State, w: Width, dst: Loc, src1: Operand, src2: Operand)
    modifies st
    ensures var res := Logic(AndOp, w, old(st.Read(w, src1)), old(st.Read(w, src2)));
      st.loc == old(st.loc)[dst := res]
      && st.vec == old(st.vec)
      && st.Flags() == LogicalFlags(w, res, old(st.Flags()))
  {
    BinaryLogical(st, AndOp, w, dst, src1, src2);
  }

  method Or(st: State, w: Width, dst: Loc, src1: Operand, src2: Operand)
    modifies st
    ensures var res := Logic(OrOp, w, old(st.Read(w, src1)), old(st.Read(w, src2)));
      st.loc == old(st.loc)[dst := res]
      && st.vec == old(st.vec)
      && st.Flags() == LogicalFlags(w, res, old(st.Flags()))
  {
    BinaryLogical(st, OrOp, w, dst, src1, src2);
  }

  method Xor(st: State, w: Width, dst: Loc, src1: Operand, src2: Operand)
    modifies st
    ensures var res := Logic(XorOp, w, old(st.Read(w, src1)), old(st.Read(w, src2)));
      st.loc == old(st.loc)[dst := res]
      && st.vec == old(st.vec)
      && st.Flags() == LogicalFlags(w, res, old(st.Flags()))
  {
    BinaryLogical(st, XorOp, w, dst, src1, src2);
  }

  /** NOT writes the complement and assigns no flag. */
  method NotOp(st: State, w: Width, dst: Loc, src1: Operand)
    modifies st
    ensures st.loc == old(st.loc)[dst := Not(w, old(st.Read(w, src1)))]
    ensures st.vec == old(st.vec) && st.Flags() == old(st.Flags())
  {
    st.Write(dst, Not(w, st.Read(w, src1)));
  }

  /** TEST computes AND's result and flags but writes no operand. */
  method Test(st: State, w: Width, src1: Operand, src2: Operand)
    modifies st
    ensures var res := Logic(AndOp, w, old(st.Read(w, src1)), old(st.Read(w, src2)));
      st.Flags() == LogicalFlags(w, res, old(st.Flags()))
    ensures st.loc == old(st.loc) && st.vec == old(st.vec)
  {
    var a := st.Read(w, src1);
    var b := st.Read(w, src2);
    SetFlagsLogical(st, w, Logic(AndOp, w, a, b));
  }

  /** Every bit of a logical result is `op` of the operands' bits, and no
      bit at or above the width is set. */
  lemma LogicBits(op: BitOp, w: Width, a: nat, b: nat, k: nat)
    ensures Bit(Logic(op, w, a, b), k) == (k < w && ApplyBit(op, Bit(a, k), Bit(b, k)))
  {
    ModulusIsPow2(w);
    if k < w {
      BitwiseBit(op, a, b, w, k);
    } else {
      HighBitClear(Logic(op, w, a, b), w, k);
    }
  }

  /** A w-bit result is zero exactly when `op` yields no set bit below w. */
  lemma LogicZeroIff(op: BitOp, w: Width, a: nat, b: nat)
    ensures Logic(op, w, a, b) == 0 <==> forall k :: 0 <= k < w ==> !ApplyBit(op, Bit(a, k), Bit(b, k))
  {
    var r := Logic(op, w, a, b);
    ModulusIsPow2(w);
    ZeroIffNoBits(r, w);
    forall k | 0 <= k < w
      ensures Bit(r, k) == ApplyBit(op, Bit(a, k), Bit(b, k))
    {
      BitwiseBit(op, a, b, w, k);
    }
  }

  /** After TEST (or AND), ZF is set exactly when the operands share no set bit. */
  lemma TestZeroIffDisjoint(w: Width, a: nat, b: nat, before: FlagSet)
    ensures LogicalFlags(w, Logic(AndOp, w, a, b), before).zf == T
      <==> forall k :: 0 <= k < w ==> !(Bit(a, k) && Bit(b, k))
  {
    LogicZeroIff(AndOp, w, a, b);
  }

  /** After TEST (or AND), SF is set exactly when both operands have their sign bit set. */
  lemma TestSignIffBothNegative(w: Width, a: nat, b: nat, before: FlagSet)
    requires a < Modulus(w) && b < Modulus(w)
    ensures LogicalFlags(w, Logic(AndOp, w, a, b), before).sf == T <==> SignBit(w, a) && SignBit(w, b)
  {
    var r := Logic(AndOp, w, a, b);
    SignBitIsTopBit(w, r);
    SignBitIsTopBit(w, a);
    SignBitIsTopBit(w, b);
    LogicBits(AndOp, w, a, b, w - 1);
  }

  /** OR leaves zero, and sets ZF, only when both operands are zero. */
  lemma OrZeroIffBothZero(w: Width, a: nat, b: nat)
    requires a < Modulus(w) && b < Modulus(w)
    ensures Logic(OrOp, w, a, b) == 0 <==> a == 0 && b == 0
  {
    ModulusIsPow2(w);
    LogicZeroIff(OrOp, w, a, b);
    ZeroIffNoBits(a, w);
    ZeroIffNoBits(b, w);
  }

  /** XOR leaves zero exactly when its operands are equal; `xor r, r` is the
      zeroing idiom: the result is 0 with ZF and PF set and SF, CF, OF clear. */
  lemma XorZeroIffEqual(w: Width, a: nat, b: nat, before: FlagSet)
    requires a < Modulus(w) && b < Modulus(w)
    ensures Logic(XorOp, w, a, b) == 0 <==> a == b
    ensures a == b ==>
      LogicalFlags(w, Logic(XorOp, w, a, b), before) == before.(cf := F, pf := T, zf := T, sf := F, of := F)
  {
    ModulusIsPow2(w);
    LogicZeroIff(XorOp, w, a, b);
    if a == b {
      XorSelfIsZero(a, w);
    } else if forall k :: 0 <= k < w ==> Bit(a, k) == Bit(b, k) {
      BitsDetermine(a, b, w);
    }
  }

  /** NOT flips every bit below the width, and in two's complement it is
      `-x - 1`. */
  lemma NotMeaning(w: Width, a: nat, k: nat)
    requires a < Modulus(w) && k < w
    ensures Bit(Not(w, a), k) == !Bit(a, k)
    ensures ToSigned(w, Not(w, a)) == -ToSigned(w, a) - 1
    ensures Not(w, Not(w, a)) == a
  {
    ModulusIsPow2(w);
    ComplementBit(w, a, k);
  }

  /** The packed operations, word by word over the lanes of two vectors. */
  function Lanes(op: BitOp, a: seq<nat>, b: seq<nat>): (r: seq<nat>)
    requires |a| == |b|
    ensures |r| == |a|
    ensures forall i :: 0 <= i < |r| ==> r[i] < WordModulus
  {
    ModulusIsPow2(64);
    seq(|a|, i requires 0 <= i < |a| => Bitwise(op, a[i], b[i], 64))
  }

  /** Every bit of every lane of a packed result is `op` of the operands'
      bits in that lane. */
  lemma LanesBits(op: BitOp, a: seq<nat>, b: seq<nat>)
    requires |a| == |b|
    ensures forall i, k :: 0 <= i < |a| && 0 <= k < 64 ==>
      Bit(Lanes(op, a, b)[i], k) == ApplyBit(op, Bit(a[i], k), Bit(b[i], k))
  {
    forall i, k | 0 <= i < |a| && 0 <= k < 64
      ensures Bit(Lanes(op, a, b)[i], k) == ApplyBit(op, Bit(a[i], k), Bit(b[i], k))
    {
      BitwiseBit(op, a[i], b[i], 64, k);
    }
  }

  /** The word-wise complement of a vector. */
  function ComplementLanes(a: seq<nat>): (r: seq<nat>)
    requires forall i :: 0 <= i < |a| ==> a[i] < WordModulus
    ensures |r| == |a|
  {
    ModulusIsPow2(64);
    seq(|a|, i requires 0 <= i < |a| => Complement(64, a[i]))
  }

  /** PANDN is PAND of the complemented first source with the second. */
  lemma PandnIsPandOfComplement(a: seq<nat>, b: seq<nat>)
    requires |a| == |b|
    requires forall i :: 0 <= i < |a| ==> a[i] < WordModulus
    ensures Lanes(AndNotOp, a, b) == Lanes(AndOp, ComplementLanes(a), b)
  {
    ModulusIsPow2(64);
    var c := ComplementLanes(a);
    forall i | 0 <= i < |a|
      ensures Lanes(AndNotOp, a, b)[i] == Lanes(AndOp, c, b)[i]
    {
      AndNotIsAndOfComplement(64, a[i], b[i]);
    }
  }

  /** PANDN's operand order matters: swapping the sources gives the same
      result only when the sources are equal. */
  lemma PandnOrderMatters(a: seq<nat>, b: seq<nat>)
    requires |a| == |b|
    requires forall i :: 0 <= i < |a| ==> a[i] < WordModulus && b[i] < WordModulus
    ensures Lanes(AndNotOp, a, b) == Lanes(AndNotOp, b, a) <==> a == b
  {
    if a != b {
      var i :| 0 <= i < |a| && a[i] != b[i];
      ModulusIsPow2(64);
      if forall k :: 0 <= k < 64 ==> Bit(a[i], k) == Bit(b[i], k) {
        BitsDetermine(a[i], b[i], 64);
      }
      var k :| 0 <= k < 64 && Bit(a[i], k) != Bit(b[i], k);
      BitwiseBit(AndNotOp, a[i], b[i], 64, k);
      BitwiseBit(AndNotOp, b[i], a[i], 64, k);
      assert Lanes(AndNotOp, a, b)[i] != Lanes(AndNotOp, b, a)[i];
    }
  }

  /** The shared body of PAND, PANDN, POR and PXOR: both sources are read as
      `lanes` 64-bit words (the destination's vector width), the result goes
      to the destination register, and no flag is assigned. */
  method Packed(st: State, op: BitOp, lanes: nat, dst: nat, src1: VOperand, src2: VOperand)
    modifies st
    ensures st.vec == old(st.vec)[dst := Lanes(op, old(st.VRead(lanes, src1)), old(st.VRead(lanes, src2)))]
    ensures st.loc == old(st.loc) && st.Flags() == old(st.Flags())
  {
    var a := st.VRead(lanes, src1);
    var b := st.VRead(lanes, src2);
    st.WriteVector(dst, Lanes(op, a, b));
  }

  method Pand(st: State, lanes: nat, dst: nat, src1: VOperand, src2: VOperand)
    modifies st
    ensures st.vec == old(st.vec)[dst := Lanes(AndOp, old(st.VRead(lanes, src1)), old(st.VRead(lanes, src2)))]
    ensures st.loc == old(st.loc) && st.Flags() == old(st.Flags())
  {
    Packed(st, AndOp, lanes, dst, src1, src2);
  }

  method Pandn(st: State, lanes: nat, dst: nat, src1: VOperand, src2: VOperand)
    modifies st
    ensures st.vec == old(st.vec)[dst := Lanes(AndNotOp, old(st.VRead(lanes, src1)), old(st.VRead(lanes, src2)))]
    ensures st.loc == old(st.loc) && st.Flags() == old(st.Flags())
  {
    Packed(st, AndNotOp, lanes, dst, src1, src2);
  }

  method Por(st: State, lanes: nat, dst: nat, src1: VOperand, src2: VOperand)
    modifies st
    ensures st.vec == old(st.vec)[dst := Lanes(OrOp, old(st.VRead(lanes, src1)), old(st.VRead(lanes, src2)))]
    ensures st.loc == old(st.loc) && st.Flags() == old(st.Flags())
  {
    Packed(st, OrOp, lanes, dst, src1, src2);
  }

  method Pxor(st: State, lanes: nat, dst: nat, src1: VOperand, src2: VOperand)
    modifies st
    ensures st.vec == old(st.vec)[dst := Lanes(XorOp, old(st.VRead(lanes, src1)), old(st.VRead(lanes, src2)))]
    ensures st.loc == old(st.loc) && st.Flags() == old(st.Flags())
  {
    Packed(st, XorOp, lanes, dst, src1, src2);
  }

  predicate AllZero(ws: seq<nat>) {
    forall i :: 0 <= i < |ws| ==> ws[i] == 0
  }

  /** The flags PTEST leaves as written: PF, AF, SF and OF cleared, while the
      ZF and CF assignments are commented out, so both keep their old value. */
  function PtestFlags(before: FlagSet): (r: FlagSet)
    ensures r.zf == before.zf && r.cf == before.cf
    ensures r.pf == F && r.af == F && r.sf == F && r.of == F
  {
    before.(pf := F, af := F, sf := F, of := F)
  }

  /** The flags the PTEST entry of the manual defines: ZF set when
      `src1 & src2` is zero, CF set when `(~src1) & src2` is zero, the other
      four cleared. */
  function PtestIntendedFlags(a: seq<nat>, b: seq<nat>): FlagSet
    requires |a| == |b|
  {
    FlagSet(FromBool(AllZero(Lanes(AndNotOp, a, b))), F, F, FromBool(AllZero(Lanes(AndOp, a, b))), F, F)
  }

  /** PTEST as written: the stale ZF and CF survive. */
  method Ptest(st: State, lanes: nat, src1: VOperand, src2: VOperand)
    modifies st
    ensures st.Flags() == PtestFlags(old(st.Flags()))
    ensures st.loc == old(st.loc) && st.vec == old(st.vec)
  {
    var a := st.VRead(lanes, src1);
    var b := st.VRead(lanes, src2);
    var andRes := Lanes(AndOp, a, b);
    var andnRes := Lanes(AndNotOp, a, b);
    st.pf, st.af, st.sf, st.of := F, F, F, F;
  }

  /** PTEST with the two commented-out assignments restored. */
  method PtestIntended(st: State, lanes: nat, src1: VOperand, src2: VOperand)
    modifies st
    ensures st.Flags() == PtestIntendedFlags(old(st.VRead(lanes, src1)), old(st.VRead(lanes, src2)))
    ensures st.loc == old(st.loc) && st.vec == old(st.vec)
  {
    var a := st.VRead(lanes, src1);
    var b := st.VRead(lanes, src2);
    var andRes := Lanes(AndOp, a, b);
    var andnRes := Lanes(AndNotOp, a, b);
    st.SetFlags(FlagSet(FromBool(AllZero(andnRes)), F, F, FromBool(AllZero(andRes)), F, F));
  }

  /** All-zero sources should set ZF and CF, but after the as-written PTEST
      a previously clear ZF and CF stay clear. */
  lemma PtestKeepsStaleFlags(a: seq<nat>, b: seq<nat>, before: FlagSet)
    requires |a| == |b| && AllZero(a) && AllZero(b)
    requires before.zf == F && before.cf == F
    ensures PtestFlags(before).zf == F && PtestFlags(before).cf == F
    ensures PtestIntendedFlags(a, b).zf == T && PtestIntendedFlags(a, b).cf == T
  {
    LanesZeroIff(AndOp, a, b);
    LanesZeroIff(AndNotOp, a, b);
    forall i, k | 0 <= i < |a| && 0 <= k < 64
      ensures !Bit(b[i], k)
    {
      assert b[i] == 0;
    }
  }

  /** The corrected PTEST's ZF says the sources share no set bit in any
      lane, and its CF says no bit of src2 lies outside src1. */
  lemma PtestIntendedMeaning(a: seq<nat>, b: seq<nat>)
    requires |a| == |b|
    ensures PtestIntendedFlags(a, b).zf == T
      <==> forall i, k :: 0 <= i < |a| && 0 <= k < 64 ==> !(Bit(a[i], k) && Bit(b[i], k))
    ensures PtestIntendedFlags(a, b).cf == T
      <==> forall i, k :: 0 <= i < |a| && 0 <= k < 64 ==> (Bit(b[i], k) ==> Bit(a[i], k))
  {
    LanesZeroIff(AndOp, a, b);
    LanesZeroIff(AndNotOp, a, b);
  }

  /** A packed result is all zero exactly when `op` yields no set bit in any lane. */
  lemma LanesZeroIff(op: BitOp, a: seq<nat>, b: seq<nat>)
    requires |a| == |b|
    ensures AllZero(Lanes(op, a, b))
      <==> forall i, k :: 0 <= i < |a| && 0 <= k < 64 ==> !ApplyBit(op, Bit(a[i], k), Bit(b[i], k))
  {
    var r := Lanes(op, a, b);
    forall i | 0 <= i < |a|
      ensures r[i] == 0 <==> forall k :: 0 <= k < 64 ==> !ApplyBit(op, Bit(a[i], k), Bit(b[i], k))
    {
      LogicZeroIff(op, 64, a[i], b[i]);
      assert r[i] == Logic(op, 64, a[i], b[i]);
    }
  }
}
