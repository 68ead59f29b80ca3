/** The machine state the semantics read and write: the six arithmetic
    flags, a map of abstract width-W locations (general-purpose registers
    and memory cells) and a map of vector registers. */
module Machine {
  import opened Bits
  import opened Flags

  /** A location an operand handle can name. */
  datatype Loc = Gpr(index: nat) | Mem(address: nat)

  /** The accumulator registers the one-operand multiply and divide forms use. */
  const RAX := Gpr(0)
  const RDX := Gpr(2)

  /** A decoded scalar source: a location or an immediate. */
  datatype Operand = In(loc: Loc) | Imm(value: nat)

  /** A decoded vector source: a vector register or the 64-bit words of a
      memory operand. */
  datatype VOperand = VReg(index: nat) | VMem(words: seq<nat>)

  const WordModulus := Modulus(64)

  class State {
    var cf: Flag
    var pf: Flag
    var af: Flag
    var zf: Flag
    var sf: Flag
    var of: Flag
    var loc: map<Loc, nat>
    var vec: map<nat, seq<nat>>

    function Flags(): FlagSet
      reads this
    {
      FlagSet(cf, pf, af, zf, sf, of)
    }

    /** The contents of a location; a location never written holds 0. */
    function Cell(l: Loc): nat
      reads this
    {
      if l in loc then loc[l] else 0
    }

    /** `R(op)` at width w: the low w bits of the location, or the immediate. */
    function Read(w: Width, op: Operand): (v: nat)
      reads this
      ensures v < Modulus(w)
      ensures op.Imm? && op.value < Modulus(w) ==> v == op.value
    {
      match op
      case In(l) => Wrap(w, Cell(l))
      case Imm(x) => Wrap(w, x)
    }

    /** A vector source as `lanes` 64-bit words; missing words read as 0. */
    function VRead(lanes: nat, op: VOperand): (ws: seq<nat>)
      reads this
      ensures |ws| == lanes
      ensures forall i :: 0 <= i < lanes ==> ws[i] < WordModulus
    {
      var raw := match op
        case VReg(i) => if i in vec then vec[i] else []
        case VMem(words) => words;
      seq(lanes, i requires 0 <= i < lanes => if i < |raw| then Wrap(64, raw[i]) else 0)
    }

    /** `W(dst) = v` through an operand handle. */
    method Write(l: Loc, v: nat)
      modifies this
      ensures loc == old(loc)[l := v]
      ensures vec == old(vec) && Flags() == old(Flags())
    {
      loc := loc[l := v];
    }

    /** Six flag assignments at once. */
    method SetFlags(f: FlagSet)
      modifies this
      ensures Flags() == f
      ensures loc == old(loc) && vec == old(vec)
    {
      cf, pf, af, zf, sf, of := f.cf, f.pf, f.af, f.zf, f.sf, f.of;
    }

    /** `W(dst) = v` for a vector destination. */
    method WriteVector(r: nat, ws: seq<nat>)
      modifies this
      ensures vec == old(vec)[r := ws]
      ensures loc == old(loc) && Flags() == old(Flags())
    {
      vec := vec[r := ws];
    }
  }

  /** A w-bit write through an accumulator selector (`W(state.gpr.rax.word)`
      and the like): the byte and word selectors keep the bits above them,
      while a 32-bit write goes to the qword selector in 64-bit builds
      (`IF_64BIT_ELSE(qword, dword)`) and, like a 64-bit write, replaces the
      whole register. */
  function WriteLow(reg: nat, w: Width, v: nat): (r: nat)
    requires v < Modulus(w)
    ensures Wrap(w, r) == v
    ensures w <= 16 ==> r / Modulus(w) == reg / Modulus(w)
    ensures w >= 32 ==> r == v
  {
    var m := Modulus(w);
    if w <= 16 then
      var q := reg / m;
      DivUnique(m * q + v, m, q, v);
      m * q + v
    else
      DivUnique(v, m, 0, v);
      v
  }

  /** A write to `rax.byte.high` (AH): bits 8 to 15 become v, all others stay. */
  function WriteHighByte(reg: nat, v: nat): (r: nat)
    requires v < 0x100
    ensures r % 0x100 == reg % 0x100
    ensures (r / 0x100) % 0x100 == v
    ensures r / 0x1_0000 == reg / 0x1_0000
  {
    (reg / 0x1_0000) * 0x1_0000 + v * 0x100 + reg % 0x100
  }
}
