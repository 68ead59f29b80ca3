/** The add/subtract family of integer instructions: ADD, XADD, SUB, CMP,
    INC, DEC, NEG, ADC and SBB. Each method follows the order in which the
    semantics read operands, write the destination and assign flags; each
    is proved to produce the flags an exact reference definition gives in
    terms of the mathematical sum or difference. */
module Arith {
  import opened Bits
  import opened Flags
  import opened Machine

  /** The flags `SetFlagsAddSub<Tag>` assigns for `lhs op rhs = res`. */
  function AddSubFlags(tag: ArithTag, w: Width, lhs: nat, rhs: nat, res: nat): FlagSet
    requires lhs < Modulus(w) && rhs < Modulus(w) && res < Modulus(w)
  {
    FlagSet(Carry(tag, lhs, rhs, res), ParityFlag(res), AuxCarryFlag(lhs, rhs, res),
            ZeroFlag(res), SignFlag(w, res), Overflow(tag, w, lhs, rhs, res))
  }

  /** Reference definition: the flags of the exact w-bit sum a + b + c,
      stated on the mathematical sum rather than on the truncated result. */
  function ExactAddFlags(w: Width, a: nat, b: nat, c: nat): FlagSet
    requires a < Modulus(w) && b < Modulus(w)
  {
    var r := Wrap(w, a + b + c);
    FlagSet(FromBool(a + b + c >= Modulus(w)),
            ParityFlag(r),
            FromBool(a % 16 + b % 16 + c >= 16),
            FromBool(r == 0),
            FromBool(ToSigned(w, r) < 0),
            FromBool(!InRange(SignedInt, w, ToSigned(w, a) + ToSigned(w, b) + c)))
  }

  /** Reference definition: the flags of the exact w-bit difference a - b - c. */
  function ExactSubFlags(w: Width, a: nat, b: nat, c: nat): FlagSet
    requires a < Modulus(w) && b < Modulus(w)
  {
    var r := Wrap(w, a - b - c);
    FlagSet(FromBool(a < b + c),
            ParityFlag(r),
            FromBool(a % 16 < b % 16 + c),
            FromBool(r == 0),
            FromBool(ToSigned(w, r) < 0),
            FromBool(!InRange(SignedInt, w, ToSigned(w, a) - ToSigned(w, b) - c)))
  }

  /** The add flags read off the truncated sum are the flags of the exact sum. */
  lemma AddFlagsExact(w: Width, a: nat, b: nat)
    requires a < Modulus(w) && b < Modulus(w)
    ensures AddSubFlags(AddTag, w, a, b, Wrap(w, a + b)) == ExactAddFlags(w, a, b, 0)
  {
    var f, g := AddSubFlags(AddTag, w, a, b, Wrap(w, a + b)), ExactAddFlags(w, a, b, 0);
    CarryOfAdd(w, a, b);
    assert f.cf == g.cf;
    OverflowOfAdd(w, a, b, 0);
    assert f.of == g.of;
    AuxCarryOfAdd(w, a, b, 0);
    assert f.af == g.af;
  }

  /** The subtract flags read off the truncated difference are the flags of
      the exact difference. */
  lemma SubFlagsExact(w: Width, a: nat, b: nat)
    requires a < Modulus(w) && b < Modulus(w)
    ensures AddSubFlags(SubTag, w, a, b, Wrap(w, a - b)) == ExactSubFlags(w, a, b, 0)
  {
    var f, g := AddSubFlags(SubTag, w, a, b, Wrap(w, a - b)), ExactSubFlags(w, a, b, 0);
    OverflowOfSub(w, a, b, 0);
    assert f.of == g.of;
    AuxCarryOfSub(w, a, b, 0);
    assert f.af == g.af;
  }

  /** `CarryFlag<Tag>`: the carry (or borrow) of either of the two steps
      `a op b = ab` and `ab op c = abc`. */
  function CarryFlag(tag: ArithTag, a: nat, b: nat, ab: nat, c: nat, abc: nat): Flag {
    FromBool(Carry(tag, a, b, ab) == T || Carry(tag, ab, c, abc) == T)
  }

  /** The two-step carry of ADC is the carry of the exact sum a + b + c, and
      the two truncations give the truncated exact sum. */
  lemma AdcCarryExact(w: Width, a: nat, b: nat, c: nat)
    requires a < Modulus(w) && b < Modulus(w) && c <= 1
    ensures Wrap(w, Wrap(w, a + b) + c) == Wrap(w, a + b + c)
    ensures CarryFlag(AddTag, a, b, Wrap(w, a + b), c, Wrap(w, a + b + c))
         == FromBool(a + b + c >= Modulus(w))
  {
    var ab := Wrap(w, a + b);
    var abc, r := Wrap(w, ab + c), Wrap(w, a + b + c);
    WrapNear(w, a + b);
    WrapNear(w, ab + c);
    WrapNear(w, a + b + c);
    CarryChainCore(Modulus(w), a, b, c, ab, abc, r);
  }

  /** The two-step carry on plain integers: `abc` is `ab + c` reduced once. */
  lemma CarryChainCore(m: int, a: int, b: int, c: int, ab: int, abc: int, r: int)
    requires m > 1 && 0 <= a < m && 0 <= b < m && 0 <= c <= 1
    requires ab == if a + b < m then a + b else a + b - m
    requires abc == if ab + c < m then ab + c else ab + c - m
    requires r == if a + b + c < m then a + b + c else a + b + c - m
    ensures abc == r
    ensures (ab < a || abc < ab) == (a + b + c >= m)
  {
  }

  /** The two-step borrow of SBB is the borrow of the exact difference
      a - b - c, and the two truncations give the truncated exact difference. */
  lemma SbbBorrowExact(w: Width, a: nat, b: nat, c: nat)
    requires a < Modulus(w) && b < Modulus(w) && c <= 1
    ensures Wrap(w, Wrap(w, a - b) - c) == Wrap(w, a - b - c)
    ensures CarryFlag(SubTag, a, b, Wrap(w, a - b), c, Wrap(w, a - b - c)) == FromBool(a < b + c)
  {
    var ab := Wrap(w, a - b);
    WrapNear(w, a - b);
    WrapNear(w, ab - c);
    WrapNear(w, a - b - c);
    BorrowChainCore(Modulus(w), a, b, c, ab, Wrap(w, ab - c), Wrap(w, a - b - c));
  }

  /** The two-step borrow on plain integers. */
  lemma BorrowChainCore(m: int, a: int, b: int, c: int, ab: int, abc: int, r: int)
    requires m > 1 && 0 <= a < m && 0 <= b < m && 0 <= c <= 1
    requires ab == if a - b >= 0 then a - b else a - b + m
    requires abc == if ab - c >= 0 then ab - c else ab - c + m
    requires r == if a - b - c >= 0 then a - b - c else a - b - c + m
    ensures abc == r
    ensures (a < b || ab < c) == (a < b + c)
  {
  }

  /** The flags ADC assigns are the flags of the exact sum with carry-in. */
  lemma AdcFlagsExact(w: Width, a: nat, b: nat, c: nat, ab: nat, res: nat)
    requires a < Modulus(w) && b < Modulus(w) && c <= 1
    requires ab == Wrap(w, a + b) && res == Wrap(w, ab + c)
    ensures res == Wrap(w, a + b + c)
    ensures AddSubFlags(AddTag, w, a, b, res).(cf := CarryFlag(AddTag, a, b, ab, c, res))
        == ExactAddFlags(w, a, b, c)
  {
    AdcCarryExact(w, a, b, c);
    assert res == Wrap(w, a + b + c);
    var f, g := AddSubFlags(AddTag, w, a, b, res).(cf := CarryFlag(AddTag, a, b, ab, c, res)), ExactAddFlags(w, a, b, c);
    assert f.cf == g.cf;
    OverflowOfAdd(w, a, b, c);
    assert f.of == g.of;
    AuxCarryOfAdd(w, a, b, c);
    assert f.af == g.af;
  }

  /** The flags SBB assigns are the flags of the exact difference with borrow-in. */
  lemma SbbFlagsExact(w: Width, a: nat, b: nat, c: nat, ab: nat, res: nat)
    requires a < Modulus(w) && b < Modulus(w) && c <= 1
    requires ab == Wrap(w, a - b) && res == Wrap(w, ab - c)
    ensures res == Wrap(w, a - b - c)
    ensures AddSubFlags(SubTag, w, a, b, res).(cf := CarryFlag(SubTag, a, b, ab, c, res))
        == ExactSubFlags(w, a, b, c)
  {
    SbbBorrowExact(w, a, b, c);
    OverflowOfSub(w, a, b, c);
    AuxCarryOfSub(w, a, b, c);
  }

  /** After a compare, CF and ZF order the operands as unsigned numbers
      (the conditions of JB and JE). */
  lemma SubOrdersUnsigned(w: Width, a: nat, b: nat)
    requires a < Modulus(w) && b < Modulus(w)
    ensures var f := ExactSubFlags(w, a, b, 0);
      (f.cf == T <==> a < b) && (f.zf == T <==> a == b)
  {
    WrapNear(w, a - b - 0);
  }

  /** After a compare, SF != OF orders the operands as signed numbers (the
      condition of JL). */
  lemma SubOrdersSigned(w: Width, a: nat, b: nat)
    requires a < Modulus(w) && b < Modulus(w)
    ensures var f := ExactSubFlags(w, a, b, 0);
      f.sf != f.of <==> ToSigned(w, a) < ToSigned(w, b)
  {
    var r := Wrap(w, a - b - 0);
    WrapNear(w, a - b - 0);
    SignedOrderCore(Modulus(w), Half(w), a, b, r);
    var f := ExactSubFlags(w, a, b, 0);
    assert f.sf == FromBool(ToSigned(w, r) < 0);
    assert f.of == FromBool(!InRange(SignedInt, w, ToSigned(w, a) - ToSigned(w, b) - 0));
  }

  /** The signed-less-than rule SF != OF on plain integers. */
  lemma SignedOrderCore(m: int, h: int, a: int, b: int, r: int)
    requires m == 2 * h && h > 0 && 0 <= a < m && 0 <= b < m
    requires r == if a - b >= 0 then a - b else a - b + m
    ensures var sa, sb := (if a < h then a else a - m), (if b < h then b else b - m);
      ((if r < h then r else r - m) < 0) != !(-h <= sa - sb < h) <==> sa < sb
  {
  }

  /** INC overflows exactly at the largest signed value and DEC exactly at
      the smallest. */
  lemma IncDecOverflow(w: Width, x: nat)
    requires x < Modulus(w)
    ensures ExactAddFlags(w, x, 1, 0).of == FromBool(x == Half(w) - 1)
    ensures ExactSubFlags(w, x, 1, 0).of == FromBool(x == Half(w))
  {
  }

  /** NEG computes `-x` in the signed view; its flags are those of 0 - x,
      with CF set unless x is zero and OF set only for the smallest signed
      value. */
  lemma NegExact(w: Width, x: nat)
    requires x < Modulus(w)
    ensures Wrap(w, -ToSigned(w, x)) == Wrap(w, 0 - x)
    ensures AddSubFlags(SubTag, w, 0, x, Wrap(w, 0 - x)).(cf := NotZeroFlag(x))
         == ExactSubFlags(w, 0, x, 0)
    ensures ExactSubFlags(w, 0, x, 0).cf == FromBool(x != 0)
    ensures ExactSubFlags(w, 0, x, 0).of == FromBool(x == Half(w))
  {
    NegWrap(w, x);
    SubFlagsExact(w, 0, x);
    var v := ToSigned(w, x);
    assert x == Half(w) <==> v == -Half(w);
  }

  lemma NegWrap(w: Width, x: nat)
    requires x < Modulus(w)
    ensures Wrap(w, -ToSigned(w, x)) == Wrap(w, 0 - x)
  {
    if x >= Half(w) {
      ModShift(w, -ToSigned(w, x), 0 - x);
    }
  }

  /** Feeding a carry of one into ADC gives the same result, CF, PF, ZF and
      SF as adding one more to the second operand without carry. */
  lemma AdcCarryInAsIncrement(w: Width, a: nat, b: nat)
    requires a < Modulus(w) && b + 1 < Modulus(w)
    ensures var f, g := ExactAddFlags(w, a, b, 1), ExactAddFlags(w, a, b + 1, 0);
      Wrap(w, a + b + 1) == Wrap(w, a + (b + 1) + 0)
      && f.cf == g.cf && f.pf == g.pf && f.zf == g.zf && f.sf == g.sf
  {
  }

  /** OF and AF do not follow that equivalence: at 8 bits, 0 + 0x7F with a
      carry of one overflows (0 + 127 + 1 leaves the signed range) and
      carries out of the low nibble (0xF + 1), while 0 + 0x80 without carry
      does neither (0x80 is -128, and 0 + -128 is in range; its low nibble
      is 0). */
  lemma AdcCarryInOverflowDiffers()
    ensures ExactAddFlags(8, 0, 0x7F, 1).of == T
    ensures ExactAddFlags(8, 0, 0x80, 0).of == F
    ensures ExactAddFlags(8, 0, 0x7F, 1).af == T
    ensures ExactAddFlags(8, 0, 0x80, 0).af == F
  {
  }

  /** The 8-bit add 0xFF + 0x01 wraps to zero with CF, PF, AF and ZF set
      and SF and OF clear. */
  lemma AddWrapExample()
    ensures AddSubFlags(AddTag, 8, 0xFF, 0x01, Wrap(8, 0xFF + 0x01)) == FlagSet(T, T, T, T, F, F)
  {
    AddFlagsExact(8, 0xFF, 0x01);
  }

  /** `static_cast<T>(state.aflag.cf)`: the carry-in a flag stands for. An
      undefined flag may stand for either value. */
  predicate CarryIn(f: Flag, c: nat) {
    c <= 1 && (f == T ==> c == 1) && (f == F ==> c == 0)
  }

  /** `SetFlagsIncDec<Tag>`: every arithmetic flag except CF. */
  method SetFlagsIncDec(s: State, tag: ArithTag, w: Width, lhs: nat, rhs: nat, res: nat)
    requires lhs < Modulus(w) && rhs < Modulus(w) && res < Modulus(w)
    modifies s
    ensures s.Flags() == AddSubFlags(tag, w, lhs, rhs, res).(cf := old(s.cf))
    ensures s.loc == old(s.loc) && s.vec == old(s.vec)
  {
    s.pf := ParityFlag(res);
    s.af := AuxCarryFlag(lhs, rhs, res);
    s.zf := ZeroFlag(res);
    s.sf := SignFlag(w, res);
    s.of := Overflow(tag, w, lhs, rhs, res);
  }

  /** `SetFlagsAddSub<Tag>`: CF, then the rest. */
  method SetFlagsAddSub(s: State, tag: ArithTag, w: Width, lhs: nat, rhs: nat, res: nat)
    requires lhs < Modulus(w) && rhs < Modulus(w) && res < Modulus(w)
    modifies s
    ensures s.Flags() == AddSubFlags(tag, w, lhs, rhs, res)
    ensures s.loc == old(s.loc) && s.vec == old(s.vec)
  {
    s.cf := Carry(tag, lhs, rhs, res);
    SetFlagsIncDec(s, tag, w, lhs, rhs, res);
  }

  /** The flag updates of ADC and SBB: the combined carry of the two steps
      into CF, then `SetFlagsIncDec` for the rest. */
  method SetFlagsWithCarry(s: State, tag: ArithTag, w: Width, lhs: nat, rhs: nat, res: nat, cf: Flag)
    requires lhs < Modulus(w) && rhs < Modulus(w) && res < Modulus(w)
    modifies s
    ensures s.Flags() == AddSubFlags(tag, w, lhs, rhs, res).(cf := cf)
    ensures s.loc == old(s.loc) && s.vec == old(s.vec)
  {
    s.cf := cf;
    SetFlagsIncDec(s, tag, w, lhs, rhs, res);
  }

  method Add(s: State, w: Width, dst: Loc, src1: Operand, src2: Operand)
    modifies s
    ensures var a, b := old(s.Read(w, src1)), old(s.Read(w, src2));
      s.loc == old(s.loc)[dst := Wrap(w, a + b)]
      && s.vec == old(s.vec)
      && s.Flags() == ExactAddFlags(w, a, b, 0)
  {
    var a := s.Read(w, src1);
    var b := s.Read(w, src2);
    var res := Wrap(w, a + b);
    s.Write(dst, res);
    SetFlagsAddSub(s, AddTag, w, a, b, res);
    AddFlagsExact(w, a, b);
  }

  /** Exchange-and-add: the memory destination receives the sum, then the
      register destination receives the old memory value, so when both
      name the same location the old value is what remains. */
  method Xadd(s: State, w: Width, mdst: Loc, msrc: Operand, rdst: Loc, rsrc: Operand)
    modifies s
    ensures var a, b := old(s.Read(w, msrc)), old(s.Read(w, rsrc));
      s.loc == old(s.loc)[mdst := Wrap(w, a + b)][rdst := a]
      && s.vec == old(s.vec)
      && s.Flags() == ExactAddFlags(w, a, b, 0)
      && s.Cell(rdst) == a
      && (mdst != rdst ==> s.Cell(mdst) == Wrap(w, a + b))
  {
    var a := s.Read(w, msrc);
    var b := s.Read(w, rsrc);
    var res := Wrap(w, a + b);
    AddFlagsExact(w, a, b);
    s.Write(mdst, res);
    s.Write(rdst, a);
    SetFlagsAddSub(s, AddTag, w, a, b, res);
  }

  /** XADD in the order the XADD entry of volume 2 of the Intel 64 and
      IA-32 Architectures Software Developer's Manual gives: the source
      register receives the old destination first, then the destination
      receives the sum, so when both name the same location the sum is what
      remains. */
  method XaddIntended(s: State, w: Width, mdst: Loc, msrc: Operand, rdst: Loc, rsrc: Operand)
    modifies s
    ensures var a, b := old(s.Read(w, msrc)), old(s.Read(w, rsrc));
      s.loc == old(s.loc)[rdst := a][mdst := Wrap(w, a + b)]
      && s.vec == old(s.vec)
      && s.Flags() == ExactAddFlags(w, a, b, 0)
      && s.Cell(mdst) == Wrap(w, a + b)
      && (mdst != rdst ==> s.Cell(rdst) == a)
  {
    var a := s.Read(w, msrc);
    var b := s.Read(w, rsrc);
    var res := Wrap(w, a + b);
    AddFlagsExact(w, a, b);
    s.Write(rdst, a);
    s.Write(mdst, res);
    SetFlagsAddSub(s, AddTag, w, a, b, res);
  }

  /** With distinct destinations both XADD orders write the same map. */
  lemma XaddOrdersAgree(w: Width, m: map<Loc, nat>, mdst: Loc, rdst: Loc, a: nat, b: nat)
    requires mdst != rdst
    ensures m[mdst := Wrap(w, a + b)][rdst := a] == m[rdst := a][mdst := Wrap(w, a + b)]
  {
  }

  /** `xadd r, r` names one register as both destinations, so both reads
      give the same value a. The source's order leaves a, the manual's
      order leaves 2a mod 2^w, and the two differ for every non-zero a: at
      8 bits, a = 1 leaves 1 as written and 2 as intended. */
  lemma XaddAliasedDestinations(w: Width, m: map<Loc, nat>, d: Loc, a: nat)
    requires a < Modulus(w)
    ensures m[d := Wrap(w, a + a)][d := a][d] == a
    ensures m[d := a][d := Wrap(w, a + a)][d] == Wrap(w, a + a)
    ensures Wrap(w, a + a) == a <==> a == 0
    ensures m[d := a][d := Wrap(w, 1 + 1)][d] == 2 && Wrap(w, 1 + 1) != 1
  {
    var n := Modulus(w);
    if a + a < n {
      DivUnique(a + a, n, 0, a + a);
    } else {
      DivUnique(a + a, n, 1, a + a - n);
    }
    DivUnique(2, n, 0, 2);
  }

  method Sub(s: State, w: Width, dst: Loc, src1: Operand, src2: Operand)
    modifies s
    ensures var a, b := old(s.Read(w, src1)), old(s.Read(w, src2));
      s.loc == old(s.loc)[dst := Wrap(w, a - b)]
      && s.vec == old(s.vec)
      && s.Flags() == ExactSubFlags(w, a, b, 0)
  {
    var a := s.Read(w, src1);
    var b := s.Read(w, src2);
    var res := Wrap(w, a as int - b);
    s.Write(dst, res);
    SetFlagsAddSub(s, SubTag, w, a, b, res);
    SubFlagsExact(w, a, b);
  }

  /** CMP: the flags of SUB, and no write. */
  method Cmp(s: State, w: Width, src1: Operand, src2: Operand)
    modifies s
    ensures var a, b := old(s.Read(w, src1)), old(s.Read(w, src2));
      s.loc == old(s.loc)
      && s.vec == old(s.vec)
      && s.Flags() == ExactSubFlags(w, a, b, 0)
  {
    var a := s.Read(w, src1);
    var b := s.Read(w, src2);
    var res := Wrap(w, a as int - b);
    SetFlagsAddSub(s, SubTag, w, a, b, res);
    SubFlagsExact(w, a, b);
  }

  /** INC: the flags of adding one, except that CF is kept. */
  method Inc(s: State, w: Width, dst: Loc, src: Operand)
    modifies s
    ensures var x := old(s.Read(w, src));
      s.loc == old(s.loc)[dst := Wrap(w, x + 1)]
      && s.vec == old(s.vec)
      && s.Flags() == ExactAddFlags(w, x, 1, 0).(cf := old(s.cf))
  {
    var x := s.Read(w, src);
    var res := Wrap(w, x + 1);
    s.Write(dst, res);
    SetFlagsIncDec(s, AddTag, w, x, 1, res);
    AddFlagsExact(w, x, 1);
  }

  /** DEC: the flags of subtracting one, except that CF is kept. */
  method Dec(s: State, w: Width, dst: Loc, src: Operand)
    modifies s
    ensures var x := old(s.Read(w, src));
      s.loc == old(s.loc)[dst := Wrap(w, x - 1)]
      && s.vec == old(s.vec)
      && s.Flags() == ExactSubFlags(w, x, 1, 0).(cf := old(s.cf))
  {
    var x := s.Read(w, src);
    var res := Wrap(w, x as int - 1);
    s.Write(dst, res);
    SetFlagsIncDec(s, SubTag, w, x, 1, res);
    SubFlagsExact(w, x, 1);
  }

  /** NEG: the two's-complement negation, with the flags of 0 - x. */
  method Neg(s: State, w: Width, dst: Loc, src: Operand)
    modifies s
    ensures var x := old(s.Read(w, src));
      s.loc == old(s.loc)[dst := Wrap(w, 0 - x)]
      && s.vec == old(s.vec)
      && s.Flags() == ExactSubFlags(w, 0, x, 0)
  {
    var x := s.Read(w, src);
    var res := Wrap(w, -ToSigned(w, x));
    NegExact(w, x);
    s.Write(dst, res);
    SetFlagsWithCarry(s, SubTag, w, 0, x, res, NotZeroFlag(x));
  }

  /** ADC adds the carry flag as a third operand; `carry` reports the value
      the incoming CF stood for. */
  method Adc(s: State, w: Width, dst: Loc, src1: Operand, src2: Operand) returns (carry: nat)
    modifies s
    ensures CarryIn(old(s.cf), carry)
    ensures var a, b := old(s.Read(w, src1)), old(s.Read(w, src2));
      s.loc == old(s.loc)[dst := Wrap(w, a + b + carry)]
      && s.vec == old(s.vec)
      && s.Flags() == ExactAddFlags(w, a, b, carry)
  {
    var a := s.Read(w, src1);
    var b := s.Read(w, src2);
    var cf := s.cf;
    var c: nat :| c <= 1 && (cf == T ==> c == 1) && (cf == F ==> c == 0);
    carry := c;
    AddCarry(s, w, dst, a, b, carry);
  }

  /** The body of ADC once the operands and the carry-in are read. */
  method AddCarry(s: State, w: Width, dst: Loc, a: nat, b: nat, carry: nat)
    requires a < Modulus(w) && b < Modulus(w) && carry <= 1
    modifies s
    ensures s.loc == old(s.loc)[dst := Wrap(w, a + b + carry)] && s.vec == old(s.vec)
    ensures s.Flags() == ExactAddFlags(w, a, b, carry)
  {
    var resAdd := Wrap(w, a + b);
    var res := Wrap(w, resAdd + carry);
    AdcFlagsExact(w, a, b, carry, resAdd, res);
    s.Write(dst, res);
    SetFlagsWithCarry(s, AddTag, w, a, b, res, CarryFlag(AddTag, a, b, resAdd, carry, res));
  }

  /** SBB subtracts the carry flag as a borrow; `borrow` reports the value
      the incoming CF stood for. */
  method Sbb(s: State, w: Width, dst: Loc, src1: Operand, src2: Operand) returns (borrow: nat)
    modifies s
    ensures CarryIn(old(s.cf), borrow)
    ensures var a, b := old(s.Read(w, src1)), old(s.Read(w, src2));
      s.loc == old(s.loc)[dst := Wrap(w, a - b - borrow)]
      && s.vec == old(s.vec)
      && s.Flags() == ExactSubFlags(w, a, b, borrow)
  {
    var a := s.Read(w, src1);
    var b := s.Read(w, src2);
    var cf := s.cf;
    var c: nat :| c <= 1 && (cf == T ==> c == 1) && (cf == F ==> c == 0);
    borrow := c;
    SubBorrow(s, w, dst, a, b, borrow);
  }

  /** The body of SBB once the operands and the borrow-in are read. */
  method SubBorrow(s: State, w: Width, dst: Loc, a: nat, b: nat, borrow: nat)
    requires a < Modulus(w) && b < Modulus(w) && borrow <= 1
    modifies s
    ensures s.loc == old(s.loc)[dst := Wrap(w, a - b - borrow)] && s.vec == old(s.vec)
    ensures s.Flags() == ExactSubFlags(w, a, b, borrow)
  {
    var resSub := Wrap(w, a as int - b);
    var res := Wrap(w, resSub - borrow);
    SbbFlagsExact(w, a, b, borrow, resSub, res);
    s.Write(dst, res);
    SetFlagsWithCarry(s, SubTag, w, a, b, res, CarryFlag(SubTag, a, b, resSub, borrow, res));
  }
}
