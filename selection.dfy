/** The `DEF_ISEL` bindings of the two headers: which semantic function,
    at which operand width and with which converter, each instruction form
    selects. The table is kept at (mnemonic, width) granularity: the
    register, memory and immediate variants of one mnemonic and width all
    bind to the same instantiation, since their reads give the same values.
    The `IF_64BIT` and `IF_AVX` build switches are the two fields of Build. */
module Selection {
  import opened Bits
  import Shift

  datatype Option<T> = None | Some(value: T)

  datatype Build = Build(is64: bool, avx: bool)

  /** The scalar mnemonics bound to one semantic function at every width. */
  datatype UniformOp =
    | Add | Xadd | Sub | Cmp | Inc | Dec | Neg | Adc | Sbb
    | Shr | Sar | Shl
    | And | Or | Xor | Not | Test

  /** The four packed bitwise operations. */
  datatype PackedOp = PAnd | PAndn | POr | PXor

  /** The encodings of a packed bitwise operation: the integer form (PXOR),
      its single- and double-precision aliases (XORPS, XORPD), and the VEX
      forms of all three (VPXOR, VXORPS, VXORPD). */
  datatype PackedForm = IntForm | SingleForm | DoubleForm | VexIntForm | VexSingleForm | VexDoubleForm

  /** The instruction mnemonics the tables bind. ImulAcc is the one-operand
      IMUL through the accumulator, ImulReg the two- and three-operand forms
      with a register destination; `Ptest(true)` is VPTEST. */
  datatype Mnemonic =
    | Uniform(op: UniformOp)
    | ImulAcc | ImulReg | Mul | Mulx | Idiv | Div
    | Packed(pop: PackedOp, form: PackedForm)
    | Ptest(vex: bool)

  /** The semantic functions, with the Converter argument where the template
      has one. */
  datatype Sem =
    | SemAdd | SemXadd | SemSub | SemCmp | SemInc | SemDec | SemNeg | SemAdc | SemSbb
    | SemMul(s: Signedness) | SemMulA8(s: Signedness) | SemMulAD(s: Signedness) | SemMulx
    | SemDivA8(s: Signedness) | SemDivAD(s: Signedness)
    | SemShiftRight(s: Signedness) | SemShl
    | SemAnd | SemOr | SemXor | SemNot | SemTest
    | SemPand | SemPandn | SemPor | SemPxor | SemPtest

  /** An instantiation: the semantic function and its operand width in bits
      (for the packed forms, the width of the vector). */
  datatype Binding = Binding(sem: Sem, bits: nat)

  predicate IsPacked(sem: Sem) {
    sem.SemPand? || sem.SemPandn? || sem.SemPor? || sem.SemPxor? || sem.SemPtest?
  }

  predicate IsShift(sem: Sem) {
    sem.SemShiftRight? || sem.SemShl?
  }

  predicate IsVex(f: PackedForm) {
    f.VexIntForm? || f.VexSingleForm? || f.VexDoubleForm?
  }

  /** The widths of a one-size `_8` binding plus a `DEF_ISEL_..n..` macro:
      8, 16 and 32 bits, and 64 bits in a 64-bit build. */
  predicate ScalarWidth(b: Build, w: nat) {
    w == 8 || w == 16 || w == 32 || (w == 64 && b.is64)
  }

  /** The widths of the `n`-sized macros and of the explicit accumulator
      forms above 8 bits. */
  predicate WideWidth(b: Build, w: nat) {
    w == 16 || w == 32 || (w == 64 && b.is64)
  }

  /** The vector widths of a packed encoding: the integer forms at 64 bits
      (MMX, `PXORq`) and 128 bits (`PXOR_XMMdq`), the floating-point aliases
      and the legacy PTEST at 128 bits only, and every VEX form, in an AVX
      build only, at 128 and 256 bits. */
  predicate PackedWidth(b: Build, f: PackedForm, w: nat) {
    if IsVex(f) then b.avx && (w == 128 || w == 256)
    else if f == IntForm then w == 64 || w == 128
    else w == 128
  }

  function Bind(ok: bool, sem: Sem, w: nat): Option<Binding> {
    if ok then Some(Binding(sem, w)) else None
  }

  /** The semantic function of a uniformly bound mnemonic. */
  function UniformSem(op: UniformOp): Sem {
    match op
    case Add => SemAdd
    case Xadd => SemXadd
    case Sub => SemSub
    case Cmp => SemCmp
    case Inc => SemInc
    case Dec => SemDec
    case Neg => SemNeg
    case Adc => SemAdc
    case Sbb => SemSbb
    case Shr => SemShiftRight(UnsignedInt)
    case Sar => SemShiftRight(SignedInt)
    case Shl => SemShl
    case And => SemAnd
    case Or => SemOr
    case Xor => SemXor
    case Not => SemNot
    case Test => SemTest
  }

  function PackedSem(op: PackedOp): Sem {
    match op
    case PAnd => SemPand
    case PAndn => SemPandn
    case POr => SemPor
    case PXor => SemPxor
  }

  /** The binding the tables give a mnemonic at a width in a build, or None
      when no `DEF_ISEL` names that combination. */
  function Select(b: Build, m: Mnemonic, w: nat): (r: Option<Binding>)
    ensures r.Some? ==> r.value.bits == w
  {
    match m
    case Uniform(op) => Bind(ScalarWidth(b, w), UniformSem(op), w)
    case ImulAcc => if w == 8 then Some(Binding(SemMulA8(SignedInt), 8)) else Bind(WideWidth(b, w), SemMulAD(SignedInt), w)
    case Mul => if w == 8 then Some(Binding(SemMulA8(UnsignedInt), 8)) else Bind(WideWidth(b, w), SemMulAD(UnsignedInt), w)
    case ImulReg => Bind(WideWidth(b, w), SemMul(SignedInt), w)
    case Mulx => Bind(w == 32 || (w == 64 && b.is64), SemMulx, w)
    case Idiv => if w == 8 then Some(Binding(SemDivA8(SignedInt), 8)) else Bind(WideWidth(b, w), SemDivAD(SignedInt), w)
    case Div => if w == 8 then Some(Binding(SemDivA8(UnsignedInt), 8)) else Bind(WideWidth(b, w), SemDivAD(UnsignedInt), w)
    case Packed(op, f) => Bind(PackedWidth(b, f, w), PackedSem(op), w)
    case Ptest(vex) => Bind(PackedWidth(b, if vex then VexIntForm else SingleForm, w), SemPtest, w)
  }

  /** The integer-domain mnemonic a packed floating-point mnemonic aliases:
      XORPS and XORPD stand for PXOR, VXORPS and VXORPD for VPXOR. */
  function IntegerForm(m: Mnemonic): Mnemonic {
    match m
    case Packed(op, f) => Packed(op, if IsVex(f) then VexIntForm else IntForm)
    case _ => m
  }

  /** The packed floating-point AND, ANDN, OR and XOR forms share the
      integer forms' semantics: wherever an alias is bound, it selects the
      same instantiation as its integer counterpart. */
  lemma FloatAliasesShareSemantics(b: Build, m: Mnemonic, w: nat)
    ensures Select(b, m, w).Some? ==> Select(b, IntegerForm(m), w) == Select(b, m, w)
  {
  }

  /** Every scalar binding is at one of the four integer widths, and every
      packed one at 64, 128 or 256 bits, 64 being the MMX integer forms. */
  lemma SelectedWidths(b: Build, m: Mnemonic, w: nat)
    requires Select(b, m, w).Some?
    ensures var sem := Select(b, m, w).value.sem;
      (IsPacked(sem) ==> w == 64 || w == 128 || w == 256)
      && (IsPacked(sem) && w == 64 ==> m.Packed? && m.form == IntForm)
      && (!IsPacked(sem) ==> w == 8 || w == 16 || w == 32 || w == 64)
  {
    if m.Uniform? {
      UniformIsScalar(m.op);
    }
  }

  lemma UniformIsScalar(op: UniformOp)
    ensures !IsPacked(UniformSem(op))
  {
  }

  /** The multiply and divide bindings meet their semantics' width
      demands: the accumulator forms split at 8 bits into the AL/AX form and
      the rDX:rAX form, and the register-destination IMUL and MULX have no
      8-bit form. */
  lemma MulDivWidths(b: Build, m: Mnemonic, w: nat)
    requires Select(b, m, w).Some?
    ensures var sem := Select(b, m, w).value.sem;
      ((sem.SemMulA8? || sem.SemDivA8?) <==> w == 8 && m in {ImulAcc, Mul, Idiv, Div})
      && (sem.SemMulAD? || sem.SemDivAD? || sem.SemMul? || sem.SemMulx? ==> w >= 16)
  {
    if m.Uniform? {
      UniformIsNotMulDiv(m.op);
    }
  }

  lemma UniformIsNotMulDiv(op: UniformOp)
    ensures var sem := UniformSem(op);
      !sem.SemMulA8? && !sem.SemDivA8? && !sem.SemMulAD? && !sem.SemDivAD? && !sem.SemMul? && !sem.SemMulx?
  {
  }

  /** A 32-bit build binds no 64-bit scalar form; the only 64-bit bindings
      it has are the MMX forms of the packed operations. */
  lemma SixtyFourBitFormsNeedLongMode(avx: bool, m: Mnemonic)
    ensures Select(Build(false, avx), m, 64).Some? ==> IsPacked(Select(Build(false, avx), m, 64).value.sem)
    ensures Select(Build(true, avx), Uniform(Add), 64) == Some(Binding(SemAdd, 64))
  {
  }

  /** The Converter template argument of an instantiation, if it has one.
      MULX is instantiated with the unsigned converter. */
  function Converter(sem: Sem): Option<Signedness> {
    match sem
    case SemMul(s) => Some(s)
    case SemMulA8(s) => Some(s)
    case SemMulAD(s) => Some(s)
    case SemMulx => Some(UnsignedInt)
    case SemDivA8(s) => Some(s)
    case SemDivAD(s) => Some(s)
    case SemShiftRight(s) => Some(s)
    case _ => None
  }

  /** The converter each mnemonic selects: IMUL, IDIV and SAR read their
      operands as signed; MUL, DIV, SHR and MULX as unsigned; no other
      mnemonic's semantics take a converter. */
  lemma ConvertersBySignedness(b: Build, m: Mnemonic, w: nat)
    requires Select(b, m, w).Some?
    ensures Converter(Select(b, m, w).value.sem) == Some(SignedInt)
      <==> m in {ImulAcc, ImulReg, Idiv, Uniform(Sar)}
    ensures Converter(Select(b, m, w).value.sem) == Some(UnsignedInt)
      <==> m in {Mul, Div, Mulx, Uniform(Shr)}
  {
    if m.Uniform? {
      UniformConverter(m.op);
    }
  }

  lemma UniformConverter(op: UniformOp)
    ensures Converter(UniformSem(op)) == (if op == Sar then Some(SignedInt) else if op == Shr then Some(UnsignedInt) else None)
  {
  }

  /** Of the widths a shift is bound at, only 8 and 16 bits let the masked
      count reach or pass the width: at 32 and 64 bits the mask keeps it
      below, while at 8 bits a count of 8 survives the mask. */
  lemma ShiftCountReachesWidthOnlyBelow32(b: Build, m: Mnemonic, w: nat, y: nat)
    requires Select(b, m, w).Some? && IsShift(Select(b, m, w).value.sem)
    ensures w == 8 || w == 16 || w == 32 || w == 64
    ensures (w == 8 || w == 16 || w == 32 || w == 64) && Shift.MaskedCount(w, y) >= w ==> w <= 16
    ensures Shift.MaskedCount(8, 8) == 8
  {
    assert m.Uniform?;
  }
}
