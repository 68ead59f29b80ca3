/** The status-flag algebra: the six arithmetic flags as three-valued
    values, and the per-flag functions of an operation's inputs and result
    that the instruction semantics combine. Their definitions follow the
    "Status Flags" section (3.4.3.1) of volume 1 of the Intel 64 and IA-32
    Architectures Software Developer's Manual; the lemmas relate each
    result-based rule to the wide-arithmetic truth it stands for. */
module Flags {
  import opened Bits

  /** A flag is clear, set, or architecturally undefined (`__mcsema_undefined_bool`). */
  datatype Flag = F | T | Undef

  function FromBool(b: bool): Flag {
    if b then T else F
  }

  /** The arithmetic flags, in the order CF, PF, AF, ZF, SF, OF. */
  datatype FlagSet = FlagSet(cf: Flag, pf: Flag, af: Flag, zf: Flag, sf: Flag, of: Flag)

  /** Every flag undefined: what `CLEAR_AFLAGS` leaves after a divide. */
  const AllUndefined := FlagSet(Undef, Undef, Undef, Undef, Undef, Undef)

  /** The number of set bits of x. */
  function PopCount(x: nat): nat
  {
    if x == 0 then 0 else x % 2 + PopCount(x / 2)
  }

  /** PF: set when the least significant byte of the result has an even number of set bits. */
  function ParityFlag(res: nat): Flag {
    FromBool(PopCount(res % 0x100) % 2 == 0)
  }

  /** ZF: set when the result is zero. */
  function ZeroFlag(res: int): Flag {
    FromBool(res == 0)
  }

  function NotZeroFlag(x: int): Flag {
    FromBool(x != 0)
  }

  /** SF: the most significant bit of the w-bit result. */
  function SignFlag(w: Width, res: nat): Flag
    requires res < Modulus(w)
  {
    FromBool(SignBit(w, res))
  }

  /** AF: bit 4 of `lhs ^ rhs ^ res`, the carry or borrow out of bit 3. */
  function AuxCarryFlag(lhs: int, rhs: int, res: int): Flag {
    FromBool((Bit(lhs, 4) != Bit(rhs, 4)) != Bit(res, 4))
  }

  /** The C++ `tag_add` / `tag_sub` selectors of `Carry<Tag>` and `Overflow<Tag>`. */
  datatype ArithTag = AddTag | SubTag

  /** CF from the operands and the w-bit result: a sum that wrapped below
      its first operand carried; a difference whose subtrahend exceeds the
      minuend borrowed. */
  function Carry(tag: ArithTag, lhs: nat, rhs: nat, res: nat): Flag {
    match tag
    case AddTag => FromBool(res < lhs)
    case SubTag => FromBool(lhs < rhs)
  }

  /** OF from the sign bits of the operands and of the w-bit result. */
  function Overflow(tag: ArithTag, w: Width, lhs: nat, rhs: nat, res: nat): Flag
    requires lhs < Modulus(w) && rhs < Modulus(w) && res < Modulus(w)
  {
    var sl, sr, sres := SignBit(w, lhs), SignBit(w, rhs), SignBit(w, res);
    match tag
    case AddTag => FromBool(sl == sr && sres != sl)
    case SubTag => FromBool(sl != sr && sres != sl)
  }

  /** `Overflow<tag_mul>`: the double-width product does not survive
      truncation to w bits and re-extension under the same signedness. */
  function MulOverflow(s: Signedness, w: Width, product: int): Flag {
    FromBool(View(s, w, Wrap(w, product)) != product)
  }

  /** The add carry read off the truncated sum is the carry out of bit w-1. */
  lemma CarryOfAdd(w: Width, a: nat, b: nat)
    requires a < Modulus(w) && b < Modulus(w)
    ensures Carry(AddTag, a, b, Wrap(w, a + b)) == FromBool(a + b >= Modulus(w))
  {
  }

  /** OF of an add with carry-in c is signed overflow of the exact sum. */
  lemma OverflowOfAdd(w: Width, a: nat, b: nat, c: nat)
    requires a < Modulus(w) && b < Modulus(w) && c <= 1
    ensures Overflow(AddTag, w, a, b, Wrap(w, a + b + c))
         == FromBool(!InRange(SignedInt, w, ToSigned(w, a) + ToSigned(w, b) + c))
  {
    WrapNear(w, a + b + c);
    OverflowOfSum(w, a, b, c, Wrap(w, a + b + c));
  }

  lemma OverflowOfSum(w: Width, a: nat, b: nat, c: nat, r: nat)
    requires a < Modulus(w) && b < Modulus(w) && c <= 1
    requires r == if a + b + c < Modulus(w) then a + b + c else a + b + c - Modulus(w)
    ensures Overflow(AddTag, w, a, b, r)
         == FromBool(!InRange(SignedInt, w, ToSigned(w, a) + ToSigned(w, b) + c))
  {
    AddOverflowCore(Modulus(w), Half(w), a, b, c, r);
  }

  /** The sign-bit rule for add overflow, on plain integers. */
  lemma AddOverflowCore(m: int, h: int, a: int, b: int, c: int, r: int)
    requires m == 2 * h && h > 0 && 0 <= a < m && 0 <= b < m && 0 <= c <= 1
    requires r == if a + b + c < m then a + b + c else a + b + c - m
    ensures ((a >= h) == (b >= h) && (r >= h) != (a >= h))
         == !(-h <= (if a < h then a else a - m) + (if b < h then b else b - m) + c < h)
  {
  }

  /** OF of a subtract with borrow-in c is signed overflow of the exact difference. */
  lemma OverflowOfSub(w: Width, a: nat, b: nat, c: nat)
    requires a < Modulus(w) && b < Modulus(w) && c <= 1
    ensures Overflow(SubTag, w, a, b, Wrap(w, a - b - c))
         == FromBool(!InRange(SignedInt, w, ToSigned(w, a) - ToSigned(w, b) - c))
  {
    WrapNear(w, a - b - c);
    OverflowOfDifference(w, a, b, c, Wrap(w, a - b - c));
  }

  lemma OverflowOfDifference(w: Width, a: nat, b: nat, c: nat, r: nat)
    requires a < Modulus(w) && b < Modulus(w) && c <= 1
    requires r == if a - b - c >= 0 then a - b - c else a - b - c + Modulus(w)
    ensures Overflow(SubTag, w, a, b, r)
         == FromBool(!InRange(SignedInt, w, ToSigned(w, a) - ToSigned(w, b) - c))
  {
    SubOverflowCore(Modulus(w), Half(w), a, b, c, r);
  }

  /** The sign-bit rule for subtract overflow, on plain integers. */
  lemma SubOverflowCore(m: int, h: int, a: int, b: int, c: int, r: int)
    requires m == 2 * h && h > 0 && 0 <= a < m && 0 <= b < m && 0 <= c <= 1
    requires r == if a - b - c >= 0 then a - b - c else a - b - c + m
    ensures ((a >= h) != (b >= h) && (r >= h) != (a >= h))
         == !(-h <= (if a < h then a else a - m) - (if b < h then b else b - m) - c < h)
  {
  }

  lemma Bit4(x: int)
    ensures Bit(x, 4) == ((x / 16) % 2 == 1)
  {
    assert Pow2(4) == 16;
  }

  /** Adding a multiple of 32 does not change bit 4. */
  lemma Bit4Shift(x: int, m: int)
    requires m % 32 == 0
    ensures Bit(x + m, 4) == Bit(x, 4)
  {
    Bit4(x);
    Bit4(x + m);
    var k := m / 32;
    assert m == 32 * k;
    assert (x + m) / 16 == x / 16 + 2 * k;
  }

  lemma ModulusIs32Aligned(w: Width)
    ensures Modulus(w) % 32 == 0
  {
  }

  lemma ParityOfSum(x: int, y: int, k: int)
    ensures ((x % 2 == 1) != (y % 2 == 1)) != ((x + y + k) % 2 == 1) <==> k % 2 == 1
  {
  }

  /** AF of the exact sum a + b + c is the carry out of the low nibble. */
  lemma AuxCarryOfExactSum(a: nat, b: nat, c: nat)
    requires c <= 1
    ensures AuxCarryFlag(a, b, a + b + c) == FromBool(a % 16 + b % 16 + c >= 16)
  {
    var k := if a % 16 + b % 16 + c >= 16 then 1 else 0;
    assert (a + b + c) / 16 == a / 16 + b / 16 + k;
    Bit4(a);
    Bit4(b);
    Bit4(a + b + c);
    ParityOfSum(a / 16, b / 16, k);
  }

  /** AF of the exact difference a - b - c is the borrow into the low nibble. */
  lemma AuxCarryOfExactDiff(a: nat, b: nat, c: nat)
    requires c <= 1
    ensures AuxCarryFlag(a, b, a - b - c) == FromBool(a % 16 < b % 16 + c)
  {
    var k := if a % 16 < b % 16 + c then 1 else 0;
    assert (a - b - c) / 16 == a / 16 - b / 16 - k;
    Bit4(a);
    Bit4(b);
    Bit4(a - b - c);
    ParityOfSum(a / 16, -(b / 16), -k);
  }

  /** AF of an add with carry-in c is the carry out of the low nibble. */
  lemma AuxCarryOfAdd(w: Width, a: nat, b: nat, c: nat)
    requires a < Modulus(w) && b < Modulus(w) && c <= 1
    ensures AuxCarryFlag(a, b, Wrap(w, a + b + c)) == FromBool(a % 16 + b % 16 + c >= 16)
  {
    var s := a + b + c;
    var r := Wrap(w, s);
    WrapNear(w, s);
    ModulusIs32Aligned(w);
    if s >= Modulus(w) {
      Bit4Shift(r, Modulus(w));
    }
    assert Bit(r, 4) == Bit(s, 4);
    AuxCarryOfExactSum(a, b, c);
  }

  /** AF of a subtract with borrow-in c is the borrow into the low nibble. */
  lemma AuxCarryOfSub(w: Width, a: nat, b: nat, c: nat)
    requires a < Modulus(w) && b < Modulus(w) && c <= 1
    ensures AuxCarryFlag(a, b, Wrap(w, a - b - c)) == FromBool(a % 16 < b % 16 + c)
  {
    var d := a - b - c;
    var r := Wrap(w, d);
    WrapNear(w, d);
    ModulusIs32Aligned(w);
    if d < 0 {
      Bit4Shift(d, Modulus(w));
    }
    assert Bit(r, 4) == Bit(d, 4);
    AuxCarryOfExactDiff(a, b, c);
  }
}
