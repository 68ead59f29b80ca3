# mcsema x86 integer semantics in Dafny

This project models the integer instruction semantics of mcsema's x86
lifter, `mcsema/Arch/X86/Semantics/BINARY.h` and
`mcsema/Arch/X86/Semantics/LOGICAL.h`, and proves properties of the model.
Each `DEF_SEM` reads fixed-width operands, computes a wrap-around result,
writes it to a destination and then assigns the six arithmetic flags. A
flag may also be left architecturally undefined (`__mcsema_undefined_bool`).
The `DEF_ISEL` tables bind each instruction form to one instantiation of
these semantics.

The model is imperative where the headers are:

- The machine is a `State` class (`machine.dfy`). It holds the fields
  `cf, pf, af, zf, sf, of`, a map from abstract locations to values, and a
  map of vector registers.
- Every `DEF_SEM` is a method that reads, writes and assigns flags in the
  same order as the C++ code.
- Each method's contract gives the complete new state. A reference
  definition states the result and flags in terms of exact integers, and
  lemmas prove that reference correct against the rules of the Intel 64 and
  IA-32 Architectures Software Developer's Manual:
  - volume 1, section 3.4.3.1, "Status Flags";
  - volume 2, the instruction-reference entries for each mnemonic.

Values are `nat`s below `Modulus(w)` = 2^w, with w in {8, 16, 32, 64}:

- `ToSigned` gives the two's-complement view of a value.
- `Signedness` stands for the C++ `Converter` template parameter.
- C++ `/` and `%` truncate toward zero, so `Bits.TruncDiv` and
  `Bits.TruncMod` define that division explicitly.
- The bitwise operations are defined bit by bit on `nat`s.

Modules:

- `Bits`: widths, truncation, signed views, bit operations, truncating division.
- `Flags`: the three-valued flag, the flag helpers, and their meaning.
- `Machine`: locations, operands, the `State` class, accumulator sub-register writes.
- `Arith`: ADD, XADD, SUB, CMP, INC, DEC, NEG, ADC, SBB.
- `DivMul`: `DivMul<Converter>` (IMUL, MUL, MULX, DIV, IDIV).
- `Shift`: `ShiftRight<Converter>::DO` (SHR, SAR) and SHL.
- `Logical`: AND, OR, XOR, NOT, TEST, PAND, PANDN, POR, PXOR, PTEST.
- `Selection`: the `DEF_ISEL` bindings of both headers.

The flag helpers come from a file that is not part of this model. This
covers `ParityFlag`, `ZeroFlag`, `SignFlag`, `AuxCarryFlag`, `NotZeroFlag`,
`Carry<Tag>`, `Overflow<Tag>` and `CLEAR_AFLAGS`, and they are defined
from the manual's flag definitions.

`__mcsema_error` becomes a `fault` result of the divide methods. A fault
leaves the state unchanged.

## Model

| member | source | states |
|---|---|---|
| Arith.SetFlagsIncDec | mcsema/Arch/X86/Semantics/BINARY.h:5-12 | PF, AF, ZF, SF and OF are assigned from (lhs, rhs, res); CF keeps its previous value; no location or vector changes |
| Arith.SetFlagsAddSub | mcsema/Arch/X86/Semantics/BINARY.h:14-18 | CF from `Carry<Tag>`, then the five flags of SetFlagsIncDec |
| Arith.AddFlagsExact | mcsema/Arch/X86/Semantics/BINARY.h:14-18 | the flags read off a truncated sum are those of the exact sum: CF iff a + b >= 2^w, AF iff the low nibbles carry, OF iff the signed sum leaves the signed range |
| Arith.SubFlagsExact | mcsema/Arch/X86/Semantics/BINARY.h:14-18 | the flags read off a truncated difference are those of the exact difference: CF iff a < b, AF iff the low nibble borrows, OF iff the signed difference leaves the signed range |
| Flags.CarryOfAdd | mcsema/Arch/X86/Semantics/BINARY.h:16 | `Carry<tag_add>` on the truncated sum (res < lhs) is the carry out of bit w-1 |
| Flags.OverflowOfAdd | mcsema/Arch/X86/Semantics/BINARY.h:11 | `Overflow<tag_add>`'s sign-bit rule is signed overflow of the exact sum with carry-in |
| Flags.OverflowOfSub | mcsema/Arch/X86/Semantics/BINARY.h:11 | `Overflow<tag_sub>`'s sign-bit rule is signed overflow of the exact difference with borrow-in |
| Flags.AuxCarryOfAdd | mcsema/Arch/X86/Semantics/BINARY.h:8 | AF (bit 4 of lhs ^ rhs ^ res) of a sum is the carry out of the low nibble |
| Flags.AuxCarryOfSub | mcsema/Arch/X86/Semantics/BINARY.h:8 | AF of a difference is the borrow into the low nibble |
| Arith.Add | mcsema/Arch/X86/Semantics/BINARY.h:20-29 | dst becomes (a + b) mod 2^w, no other location or vector changes, and the flags are those of the exact sum |
| Arith.AddWrapExample | mcsema/Arch/X86/Semantics/BINARY.h:20-29 | at 8 bits 0xFF + 0x01 gives CF, PF, AF and ZF set and SF and OF clear |
| Arith.Xadd | mcsema/Arch/X86/Semantics/BINARY.h:31-51 | the memory destination gets a + b, then the register destination gets a, so if both are the same location it ends up holding a; the flags are ADD's |
| Arith.XaddIntended | mcsema/Arch/X86/Semantics/BINARY.h:31-51 | XADD in the manual's order: the register destination gets a, then the destination gets a + b, so an aliased location ends up holding the sum; the flags are ADD's |
| Arith.XaddOrdersAgree | mcsema/Arch/X86/Semantics/BINARY.h:46-48 | with distinct destinations both write orders give the same locations |
| Arith.XaddAliasedDestinations | mcsema/Arch/X86/Semantics/BINARY.h:46-48 | with one location as both destinations the source's order leaves a and the manual's 2a mod 2^w, and these differ iff a != 0 |
| Arith.Sub | mcsema/Arch/X86/Semantics/BINARY.h:53-62 | dst becomes (a - b) mod 2^w, and the flags are those of the exact difference |
| Arith.Cmp | mcsema/Arch/X86/Semantics/BINARY.h:64-72 | SUB's flags with no location written |
| Arith.SubOrdersUnsigned | mcsema/Arch/X86/Semantics/BINARY.h:64-72 | after CMP, CF is set iff a < b unsigned and ZF iff a == b |
| Arith.SubOrdersSigned | mcsema/Arch/X86/Semantics/BINARY.h:64-72 | after CMP, SF != OF iff a < b as signed values |
| Arith.Inc | mcsema/Arch/X86/Semantics/BINARY.h:386-395 | dst becomes (x + 1) mod 2^w; the flags are those of x + 1 except CF, which keeps its old value |
| Arith.Dec | mcsema/Arch/X86/Semantics/BINARY.h:397-406 | dst becomes (x - 1) mod 2^w; the flags are those of x - 1 except CF, which keeps its old value |
| Arith.IncDecOverflow | mcsema/Arch/X86/Semantics/BINARY.h:386-406 | INC overflows exactly at 2^(w-1) - 1 and DEC exactly at 2^(w-1) |
| Arith.Neg | mcsema/Arch/X86/Semantics/BINARY.h:408-418 | dst becomes (0 - x) mod 2^w, and the flags are those of 0 - x |
| Arith.NegExact | mcsema/Arch/X86/Semantics/BINARY.h:408-418 | negating the signed view truncates to 0 - x; setting CF to NotZeroFlag before SetFlagsIncDec gives the flags of 0 - x; CF iff x != 0; OF iff x = 2^(w-1) |
| Arith.AdcCarryExact | mcsema/Arch/X86/Semantics/BINARY.h:441-447 | the two-stage `CarryFlag` over a + b then + c is the carry of the exact sum a + b + c, and the double truncation equals one truncation |
| Arith.SbbBorrowExact | mcsema/Arch/X86/Semantics/BINARY.h:441-447 | the two-stage `CarryFlag<tag_sub>` is the borrow of the exact difference a - b - c |
| Arith.AdcFlagsExact | mcsema/Arch/X86/Semantics/BINARY.h:449-461 | the flags ADC assigns (CarryFlag, then SetFlagsIncDec on (src1, src2, res)) are those of the exact sum with carry-in |
| Arith.SbbFlagsExact | mcsema/Arch/X86/Semantics/BINARY.h:463-475 | the flags SBB assigns are those of the exact difference with borrow-in |
| Arith.SetFlagsWithCarry | mcsema/Arch/X86/Semantics/BINARY.h:459-460 | CF gets the combined carry; the other five flags are SetFlagsIncDec's |
| Arith.Adc | mcsema/Arch/X86/Semantics/BINARY.h:449-461 | the carry-in is what the old CF stands for; dst becomes (a + b + carry) mod 2^w, and the flags are those of the exact sum |
| Arith.AddCarry | mcsema/Arch/X86/Semantics/BINARY.h:455-460 | the body of ADC after the reads: the result and flags of a + b + carry |
| Arith.AdcCarryInAsIncrement | mcsema/Arch/X86/Semantics/BINARY.h:449-461 | a carry-in of one gives the same result, CF, PF, ZF and SF as adding one more to src2 |
| Arith.AdcCarryInOverflowDiffers | mcsema/Arch/X86/Semantics/BINARY.h:449-461 | OF and AF are the exceptions: at 8 bits 0 + 0x7F + 1 overflows and carries out of the low nibble, while 0 + 0x80 does neither |
| Arith.Sbb | mcsema/Arch/X86/Semantics/BINARY.h:463-475 | the borrow-in is what the old CF stands for; dst becomes (a - b - borrow) mod 2^w, and the flags are those of the exact difference |
| Arith.SubBorrow | mcsema/Arch/X86/Semantics/BINARY.h:469-474 | the body of SBB after the reads: the result and flags of a - b - borrow |
| DivMul.Product | mcsema/Arch/X86/Semantics/BINARY.h:106-108 | the exact product of the converted operands always fits the double-width type of the same signedness |
| DivMul.MulOverflowMeansNoFit | mcsema/Arch/X86/Semantics/BINARY.h:77 | `Overflow<tag_mul>` is set iff the product does not fit the w-bit type |
| DivMul.MulOverflowIffHighHalf | mcsema/Arch/X86/Semantics/BINARY.h:77 | the overflow is set iff the high half is not the zero or sign extension of the low half |
| DivMul.MulFlagsByFit | mcsema/Arch/X86/Semantics/BINARY.h:75-87 | CF = OF = the product does not fit; PF, AF and ZF are undefined; SF is the sign of the truncated product if signed, undefined if unsigned |
| DivMul.SetFlagsMul | mcsema/Arch/X86/Semantics/BINARY.h:75-87 | the six flag assignments of `SetFlagsMul` |
| DivMul.Mul | mcsema/Arch/X86/Semantics/BINARY.h:97-114 | dst becomes the product truncated to w bits, and the flags are the multiply flags |
| DivMul.MulA8 | mcsema/Arch/X86/Semantics/BINARY.h:132-151 | AX gets the 16-bit product of AL and the source, the rest of rAX is kept, rDX is untouched, and the flags are the multiply flags |
| DivMul.MulA8Exact | mcsema/Arch/X86/Semantics/BINARY.h:143-148 | AX read back at 16 bits with the converter's signedness is the exact product |
| DivMul.HighHalf | mcsema/Arch/X86/Semantics/BINARY.h:170 | `static_cast<T>(static_cast<WT>(res) >> size)` is bits w to 2w-1 of the product; together with the low half (high times 2^w plus low) it gives the 2w-bit pattern |
| DivMul.MulAD | mcsema/Arch/X86/Semantics/BINARY.h:154-177 | rAX gets the low half and rDX the high half of rAX times the source, each written at width w; the flags are the multiply flags |
| DivMul.ProductSplit | mcsema/Arch/X86/Semantics/BINARY.h:169-170 | rDX:rAX read back as one double-width value is the exact product |
| DivMul.Mulx | mcsema/Arch/X86/Semantics/BINARY.h:116-130 | dst1 gets the high half and then dst2 the low half of rDX times the source (unsigned); no flag changes |
| DivMul.MulxIntended | mcsema/Arch/X86/Semantics/BINARY.h:116-130 | the same writes in the manual's order, low half first, so that dst1 wins when the destinations alias |
| DivMul.MulxOrdersAgree | mcsema/Arch/X86/Semantics/BINARY.h:128-129 | with distinct destinations both orders give the same state, and high times 2^w plus low is the exact product |
| DivMul.MulxAliasedDestinations | mcsema/Arch/X86/Semantics/BINARY.h:128-129 | with aliased destinations the order decides: RDX = 2^63 and a source of 2 leave 0 in the source's order and 1 in the manual's |
| Bits.TruncDiv | mcsema/Arch/X86/Semantics/BINARY.h:199 | C++ `/`: adding one to the magnitude of the quotient would overshoot the dividend's magnitude; a non-zero quotient is negative iff the operand signs differ |
| Bits.TruncMod | mcsema/Arch/X86/Semantics/BINARY.h:200 | C++ `%`: dividend = divisor * quotient + remainder, the remainder's magnitude is below the divisor's, and a non-zero remainder has the dividend's sign |
| Bits.TruncDivOfNat | mcsema/Arch/X86/Semantics/BINARY.h:199-200 | on non-negative operands (DIV) truncating and Euclidean division agree |
| DivMul.QuotientAccepted | mcsema/Arch/X86/Semantics/BINARY.h:201-205 | the source's #DE test as written: a quotient it accepts lies in [-2^w, 2^w), and in [0, 2^w) for an unsigned divide |
| DivMul.QuotientFits | mcsema/Arch/X86/Semantics/BINARY.h:238-240 | the architectural test: the quotient is accepted iff truncating it to w bits and reading it back gives it again |
| DivMul.Accepts | mcsema/Arch/X86/Semantics/BINARY.h:238-240 | whichever test is chosen, it accepts only what the source's test accepts; the architectural one accepts exactly the quotients that read back |
| DivMul.QuotientAcceptedRange | mcsema/Arch/X86/Semantics/BINARY.h:201-205 | the source's high-half test accepts exactly [0, 2^w), plus [-2^w, 0) for a signed divide |
| DivMul.QuotientChecksCompared | mcsema/Arch/X86/Semantics/BINARY.h:238-240 | it agrees with the architectural fit test on unsigned divides; on signed divides it also accepts exactly [2^(w-1), 2^w) and [-2^w, -2^(w-1)) |
| DivMul.Idiv8Quotient128 | mcsema/Arch/X86/Semantics/BINARY.h:199-210 | IDIV of AX = 0x0080 by 1 passes the test with quotient 128, which AL then holds as -128 |
| DivMul.Concat | mcsema/Arch/X86/Semantics/BINARY.h:224-227 | `(src1_high << size) \| src1_low`: its high w bits are rDX and its low w bits are rAX |
| DivMul.DivisionExact | mcsema/Arch/X86/Semantics/BINARY.h:235-236 | dividend = divisor * quotient + remainder, with the remainder smaller than the divisor and signed like the dividend; the remainder always fits the destination; the quotient reads back iff it passes the architectural test |
| DivMul.DivA8 | mcsema/Arch/X86/Semantics/BINARY.h:181-213 | faults iff the divisor is zero or the chosen quotient test rejects; a fault changes nothing; otherwise AL gets the quotient, AH the remainder, and every flag becomes undefined |
| DivMul.WriteAlAh | mcsema/Arch/X86/Semantics/BINARY.h:209-210 | AL and then AH are written; all other bits of rAX are kept |
| DivMul.DivAD | mcsema/Arch/X86/Semantics/BINARY.h:215-252 | rDX:rAX divided by the source: faults iff the divisor is zero or the test rejects, and a fault changes nothing; otherwise rAX gets the quotient, rDX the remainder, and every flag becomes undefined |
| DivMul.ClearArithmeticFlags | mcsema/Arch/X86/Semantics/BINARY.h:246 | `CLEAR_AFLAGS` leaves all six flags undefined |
| Machine.WriteLow | mcsema/Arch/X86/Semantics/BINARY.h:169-170 | a byte or word write keeps the bits above it, a dword or qword write replaces the whole register, and the low w bits read back as the value written |
| Machine.WriteHighByte | mcsema/Arch/X86/Semantics/BINARY.h:210 | a write to AH changes bits 8 to 15 and keeps every other bit |
| Shift.MaskedCount | mcsema/Arch/X86/Semantics/BINARY.h:530-534 | `R(src2_) & kArchMask` is the count mod 64 at 64 bits and mod 32 otherwise, so the count is below w at 32 and 64 bits |
| Shift.ShiftRightValue | mcsema/Arch/X86/Semantics/BINARY.h:553-558 | `(val >> (shift-1)) >> 1` is floor division by 2^count; once the count reaches w only copies of the sign remain; the result fits the type |
| Shift.ShiftRightBranches | mcsema/Arch/X86/Semantics/BINARY.h:544-572 | each of the three branches computes val / 2^count, and CF is bit count-1 of the operand |
| Shift.ShiftRightFlagsOf | mcsema/Arch/X86/Semantics/BINARY.h:578-583 | the flags assigned (SF cleared for SHR) are the manual's right-shift flags |
| Shift.ShiftRight | mcsema/Arch/X86/Semantics/BINARY.h:519-585 | count 0 changes nothing; otherwise dst becomes the floor quotient truncated to w bits; CF is the last bit shifted out (undefined at count >= w); OF is the sign (SHR) or clear (SAR) at count 1 and undefined otherwise; AF is undefined |
| Shift.ShrSignClear | mcsema/Arch/X86/Semantics/BINARY.h:582 | SHR's result never has its top bit set, so clearing SF agrees with SF of the result |
| Shift.ShiftRightAllOut | mcsema/Arch/X86/Semantics/BINARY.h:560-571 | at count >= w, SAR of a negative value gives all ones, and every other case gives zero |
| Shift.SarRoundsDown | mcsema/Arch/X86/Semantics/BINARY.h:544-551 | SAR of 0xFF by one at 8 bits stays 0xFF with CF set |
| Shift.ShlCarry | mcsema/Arch/X86/Semantics/BINARY.h:618-623 | the top bit of `val << (shift-1)` is bit w-count of val |
| Shift.ShlStep | mcsema/Arch/X86/Semantics/BINARY.h:619-624 | `(val << (shift-1)) << 1` at w bits is val * 2^count mod 2^w |
| Shift.ShlAllOut | mcsema/Arch/X86/Semantics/BINARY.h:626-630 | a shift by w or more leaves zero |
| Shift.Shl | mcsema/Arch/X86/Semantics/BINARY.h:587-642 | count 0 changes nothing; otherwise dst becomes val * 2^count mod 2^w; CF is the last bit shifted out (undefined at count >= w); OF at count 1 is the new top bit XOR CF and undefined otherwise; AF is undefined |
| Shift.ShlOfTopBit | mcsema/Arch/X86/Semantics/BINARY.h:609-616 | SHL of 0x80 by one at 8 bits gives 0 with CF, ZF, PF and OF set |
| Logical.SetFlagsLogical | mcsema/Arch/X86/Semantics/LOGICAL.h:5-12 | CF and OF are cleared, PF, ZF and SF come from the result, and AF keeps its value |
| Logical.LogicBits | mcsema/Arch/X86/Semantics/LOGICAL.h:14-45 | every bit of `src1 & src2`, `src1 \| src2` and `src1 ^ src2` below w is the operation on the operands' bits, and no bit at or above w is set |
| Logical.LogicZeroIff | mcsema/Arch/X86/Semantics/LOGICAL.h:14-45 | the result is zero iff the operation yields no set bit below w |
| Logical.BinaryLogical | mcsema/Arch/X86/Semantics/LOGICAL.h:14-45 | dst becomes src1 op src2, no other location changes, and the flags are those of SetFlagsLogical |
| Logical.And | mcsema/Arch/X86/Semantics/LOGICAL.h:14-23 | AND through BinaryLogical |
| Logical.Or | mcsema/Arch/X86/Semantics/LOGICAL.h:25-34 | OR through BinaryLogical |
| Logical.OrZeroIffBothZero | mcsema/Arch/X86/Semantics/LOGICAL.h:25-34 | OR gives zero iff both operands are zero |
| Logical.Xor | mcsema/Arch/X86/Semantics/LOGICAL.h:36-45 | XOR through BinaryLogical |
| Logical.XorZeroIffEqual | mcsema/Arch/X86/Semantics/LOGICAL.h:36-45 | XOR gives zero iff its operands are equal; `xor r, r` leaves ZF and PF set and CF, SF and OF clear |
| Logical.NotOp | mcsema/Arch/X86/Semantics/LOGICAL.h:47-50 | dst becomes the w-bit complement of the source; no flag changes |
| Logical.NotMeaning | mcsema/Arch/X86/Semantics/LOGICAL.h:49 | NOT flips every bit below w, is -x - 1 in the signed view, and applied twice gives the operand back |
| Logical.Test | mcsema/Arch/X86/Semantics/LOGICAL.h:52-59 | no location is written, and the flags are exactly those AND would assign |
| Logical.TestZeroIffDisjoint | mcsema/Arch/X86/Semantics/LOGICAL.h:52-59 | after TEST, ZF is set iff the operands share no set bit |
| Logical.TestSignIffBothNegative | mcsema/Arch/X86/Semantics/LOGICAL.h:52-59 | after TEST, SF is set iff both operands have their sign bit set |
| Logical.LanesBits | mcsema/Arch/X86/Semantics/LOGICAL.h:142-174 | every bit of every 64-bit lane of a packed result is the operation on that lane's operand bits |
| Logical.Packed | mcsema/Arch/X86/Semantics/LOGICAL.h:142-174 | the destination vector becomes the lane-wise result of both sources read at the destination's width; no flag and no scalar location changes |
| Logical.Pand | mcsema/Arch/X86/Semantics/LOGICAL.h:142-149 | PAND through Packed |
| Logical.Pandn | mcsema/Arch/X86/Semantics/LOGICAL.h:151-158 | PANDN, `(~src1) & src2`, through Packed |
| Logical.PandnIsPandOfComplement | mcsema/Arch/X86/Semantics/LOGICAL.h:157 | PANDN is PAND of the complemented first source with the second |
| Logical.PandnOrderMatters | mcsema/Arch/X86/Semantics/LOGICAL.h:157 | swapping PANDN's sources gives the same result iff the sources are equal |
| Logical.Por | mcsema/Arch/X86/Semantics/LOGICAL.h:159-166 | POR through Packed |
| Logical.Pxor | mcsema/Arch/X86/Semantics/LOGICAL.h:167-174 | PXOR through Packed |
| Logical.PtestFlags | mcsema/Arch/X86/Semantics/LOGICAL.h:185-196 | the flag writes of PTEST as shipped: ZF and CF are the values from before, and PF, AF, SF and OF are clear |
| Logical.Ptest | mcsema/Arch/X86/Semantics/LOGICAL.h:176-199 | PTEST as shipped: PF, AF, SF and OF are cleared, CF and ZF keep their old values, and nothing is written |
| Logical.PtestKeepsStaleFlags | mcsema/Arch/X86/Semantics/LOGICAL.h:187-193 | with both sources zero and ZF = CF = 0 before, the shipped PTEST leaves ZF and CF clear where the manual sets both |
| Logical.PtestIntended | mcsema/Arch/X86/Semantics/LOGICAL.h:176-199 | PTEST with the two commented-out assignments restored: ZF from src1 AND src2, CF from (NOT src1) AND src2 |
| Logical.PtestIntendedMeaning | mcsema/Arch/X86/Semantics/LOGICAL.h:187-193 | the restored ZF is set iff the sources share no set bit in any lane; CF is set iff every set bit of src2 is set in src1 |
| Logical.LanesZeroIff | mcsema/Arch/X86/Semantics/LOGICAL.h:187-193 | a packed result is all zero iff the operation yields no set bit in any lane |
| Selection.Select | mcsema/Arch/X86/Semantics/BINARY.h:259-695 | the binding of a (mnemonic, width, build) when a `DEF_ISEL` names it, at the width asked for |
| Selection.SelectedWidths | mcsema/Arch/X86/Semantics/LOGICAL.h:203-296 | scalar bindings are at 8, 16, 32 or 64 bits; packed bindings are at 64, 128 or 256 bits, and 64 only for the MMX integer forms |
| Selection.FloatAliasesShareSemantics | mcsema/Arch/X86/Semantics/LOGICAL.h:203-289 | the floating-point AND/ANDN/OR/XOR encodings (and their VEX forms) select the same instantiation as the integer counterpart |
| Selection.MulDivWidths | mcsema/Arch/X86/Semantics/BINARY.h:302-363 | the AL/AX forms are exactly the 8-bit accumulator multiplies and divides, and the rDX:rAX, register-destination IMUL and MULX forms are at 16 bits or more |
| Selection.ConvertersBySignedness | mcsema/Arch/X86/Semantics/BINARY.h:302-363 | IMUL, IDIV and SAR select the signed converter, MUL, DIV, SHR and MULX the unsigned one, and no other mnemonic takes a converter |
| Selection.SixtyFourBitFormsNeedLongMode | mcsema/Arch/X86/Semantics/BINARY.h:307-363 | a 32-bit build binds no 64-bit scalar form; its only 64-bit bindings are the MMX packed forms |
| Selection.ShiftCountReachesWidthOnlyBelow32 | mcsema/Arch/X86/Semantics/BINARY.h:646-695 | shifts are bound at the four integer widths, and a masked count reaches the width only at 8 and 16 bits |

## Left out

- Compiler barriers and `__mcsema_defer_inlining` have no architectural effect, so they are not modelled.
- The atomicity and memory ordering of XADD on memory are not modelled: they are concurrency.
- Operand plumbing (`R()`, `W()`, the `M8W`/`R8W`/`I8` operand types) is not modelled. A scalar destination is an abstract location, and `State.Write` replaces the whole location with the w-bit result. That models the zero-extension of a 32-bit register write. It does not model the merge of 8- and 16-bit register writes: a scalar 8- or 16-bit destination loses its upper bits, where the processor keeps them. The register layer that does this merge is not part of this model. Only the accumulator writes of multiply and divide merge, through `Machine.WriteLow` and `Machine.WriteHighByte`.
- The `DEF_ISEL_..n..` macros are defined in a file that is not part of this model. They are assumed to bind 16 and 32 bits, plus 64 bits in a 64-bit build. Register, memory and immediate variants of one mnemonic select the same instantiation, including bindings that tag a register source as an immediate. So the table is kept per (mnemonic, width).
- The flag helpers and `CLEAR_AFLAGS` are defined from the manual, not from their C++ code, which is not part of this model. `CLEAR_AFLAGS` is taken to leave all six flags undefined.
- An undefined flag stays the value `Undef`, and the model does not choose a bit for it. When ADC or SBB reads an undefined CF, the carry-in may be 0 or 1.
- `DETECT_RUNTIME_ERRORS` is taken to be on, so the divide fault checks are present. With it off, C++ would divide by zero.
- Arith.Neg: negating 2^(w-1) at 32 or 64 bits (`-static_cast<ST>(val)` on the most negative int32 or int64) is signed overflow, which is undefined behaviour in C++. The model takes the architectural wrap, which leaves 2^(w-1).
- C++ undefined behaviour at the double-width type (for example the most negative 128-bit dividend divided by -1 in `DIVA_64`) is not modelled. With exact integers, such a quotient lands on the fault path.
- DivMul.Mulx: reads rDX at the operand width. The type of `state.gpr.rdx` and what `R()` returns for it are in a file that is not part of this model.
- Shift.ShiftRight: follows the source and leaves CF undefined for SAR at a count of w or more. The manual gives CF the sign bit there.
- Vectors are sequences of 64-bit words (`.iwords`). A destination vector register becomes exactly the lanes written. It does not model whether the bits above the written width are kept (legacy SSE) or zeroed (VEX).
- `IF_64BIT` and `IF_AVX` are the two fields of `Selection.Build`.
- XTEST appears only in a comment and is not modelled.

## Findings

| source | as written | input that shows it | evidently intended | confidence | as-written member | corrected member |
|---|---|---|---|---|---|---|
| mcsema/Arch/X86/Semantics/BINARY.h:201-206 | a non-zero quotient passes when its bits above w are all zero or, for IDIV, all one | 8-bit IDIV of AX = 0x0080 by 1: the quotient 128 passes, and AL becomes 0x80 (-128) instead of a #DE fault | a quotient outside the signed w-bit range raises #DE (IDIV entry, volume 2 of the Intel SDM) | not executed; high | DivMul.QuotientAccepted, DivMul.Idiv8Quotient128 | DivMul.QuotientFits, DivMul.QuotientChecksCompared, DivMul.DivisionExact |
| mcsema/Arch/X86/Semantics/BINARY.h:46-48 | XADD writes the sum to the destination and then the old destination value to the source register | `xadd al, al` with AL = 1: AL ends up 1 | the XADD entry of volume 2 of the Intel SDM stores the old value to the source first and the sum to the destination last, so AL ends up 2 | not executed; medium | Arith.Xadd, Arith.XaddAliasedDestinations | Arith.XaddIntended, Arith.XaddOrdersAgree |
| mcsema/Arch/X86/Semantics/BINARY.h:128-129 | MULX writes the high half to dst1 and then the low half to dst2 | 64-bit MULX with both destinations the same register, RDX = 2^63 and a source of 2: the register ends up 0 | with equal destinations the register holds the high half, here 1 (MULX entry, volume 2 of the Intel SDM) | not executed; medium | DivMul.Mulx, DivMul.MulxAliasedDestinations | DivMul.MulxIntended, DivMul.MulxOrdersAgree |
| mcsema/Arch/X86/Semantics/LOGICAL.h:187-193 | the ZF and CF assignments of PTEST are commented out, so both keep their old values | PTEST of two zero vectors with ZF = CF = 0 before: both stay 0 | ZF = (src1 AND src2 is zero) and CF = ((NOT src1) AND src2 is zero), both 1 here (PTEST entry, volume 2 of the Intel SDM) | not executed; high | Logical.Ptest, Logical.PtestKeepsStaleFlags | Logical.PtestIntended, Logical.PtestIntendedMeaning |

For the IDIV finding, `DivMul.DivA8` and `DivMul.DivAD` take the quotient
test as a `QuotientCheck` parameter. `AsWritten` is the source's test, and
`Architectural` is the corrected test that `DivMul.DivisionExact` is
proved for.
