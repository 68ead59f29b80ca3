/** The multiply and divide semantics of the `DivMul<Converter>` template:
    two- and three-operand IMUL, the one-operand MUL/IMUL forms through the
    accumulator, MULX, and the one-operand DIV/IDIV forms with their fault
    checks. The Converter parameter becomes a Signedness; every product and
    quotient is computed on the exact integers the double-width C++ type
    holds. */
module DivMul {
  import opened Bits
  import opened Flags
  import opened Machine

  /** 2^(2w): the modulus of the double-width `NextLargerIntegerType`. */
  function WideModulus(w: Width): (mm: int)
    ensures mm == Modulus(w) * Modulus(w)
  {
    if w == 8 then 0x1_0000
    else if w == 16 then 0x1_0000_0000
    else if w == 32 then 0x1_0000_0000_0000_0000
    else 0x1_0000_0000_0000_0000_0000_0000_0000_0000
  }

  /** 2^(2w-1): the weight of the sign bit of the double-width type. */
  function WideHalf(w: Width): (hh: int)
    ensures hh == Modulus(w) * Half(w) && 2 * hh == WideModulus(w)
  {
    if w == 8 then 0x8000
    else if w == 16 then 0x8000_0000
    else if w == 32 then 0x8000_0000_0000_0000
    else 0x8000_0000_0000_0000_0000_0000_0000_0000
  }

  /** Truncation to the double-width type. */
  function WideWrap(w: Width, x: int): (r: nat)
    ensures r < WideModulus(w)
  {
    x % WideModulus(w)
  }

  /** The value the double-width type of the given signedness gives a
      2w-bit pattern. */
  function WideView(s: Signedness, w: Width, x: nat): int
    requires x < WideModulus(w)
  {
    if s == SignedInt && x >= WideHalf(w) then x - WideModulus(w) else x
  }

  /** The integers the double-width type of the given signedness can hold. */
  predicate InWideRange(s: Signedness, w: Width, v: int) {
    if s == SignedInt then -WideHalf(w) <= v < WideHalf(w) else 0 <= v < WideModulus(w)
  }

  /** A double-width value survives truncation to 2w bits and re-reading. */
  lemma WideViewOfWrap(s: Signedness, w: Width, v: int)
    requires InWideRange(s, w, v)
    ensures WideView(s, w, WideWrap(w, v)) == v
  {
    var mm := WideModulus(w);
    if v < 0 {
      DivUnique(v, mm, -1, v + mm);
    } else {
      DivUnique(v, mm, 0, v);
    }
  }

  /** Truncating a Converter's reading of a w-bit pattern gives the pattern back. */
  lemma WrapOfView(s: Signedness, w: Width, x: nat)
    requires x < Modulus(w)
    ensures Wrap(w, View(s, w, x)) == x
  {
    WrapNear(w, View(s, w, x));
  }

  /** A w-bit value fits its type exactly when reading back its truncation
      returns it. */
  lemma FitsIffRoundTrip(s: Signedness, w: Width, v: int)
    ensures (View(s, w, Wrap(w, v)) == v) == InRange(s, w, v)
  {
    if InRange(s, w, v) {
      ViewOfWrap(s, w, v);
    }
  }

  /** The bounds behind Product's contract, on plain integers. */
  lemma ProductBoundCore(m: int, h: int, signed: bool, x: int, y: int)
    requires m == 2 * h && h > 0
    requires signed ==> -h <= x < h && -h <= y < h
    requires !signed ==> 0 <= x < m && 0 <= y < m
    ensures signed ==> -(m * h) <= x * y < m * h
    ensures !signed ==> 0 <= x * y < m * m
  {
    if signed {
      ProductSign(x, y);
      MulBoth(Abs(x), Abs(y), h, h);
      MulAtLeast(h, h);
      DoubleProduct(h, m);
    } else {
      MulMonotone(x, 0, y);
      MulBoth(x, y, m - 1, m);
      DecrementProduct(m);
    }
  }

  lemma MulBoth(a: int, b: int, c: int, d: int)
    requires 0 <= a <= c && 0 <= b <= d
    ensures a * b <= c * d
  {
    MulMonotone(a, b, d);
    MulMonotone(d, a, c);
    assert a * d == d * a && c * d == d * c;
  }

  lemma DoubleProduct(h: int, m: int)
    requires m == 2 * h
    ensures m * h == 2 * (h * h)
  {
  }

  lemma DecrementProduct(m: int)
    ensures (m - 1) * m == m * m - m
  {
  }

  /** `src1_wide * src2_wide`: the exact product of the operands as the
      converter reads them, which the double-width type always holds. */
  function Product(s: Signedness, w: Width, a: nat, b: nat): (p: int)
    requires a < Modulus(w) && b < Modulus(w)
    ensures InWideRange(s, w, p)
  {
    ProductBoundCore(Modulus(w), Half(w), s == SignedInt, View(s, w, a), View(s, w, b));
    View(s, w, a) * View(s, w, b)
  }

  /** Splitting a 2w-bit pattern at bit w, on plain integers. */
  lemma SplitCore(m: int, p: int)
    requires m > 0
    ensures 0 <= (p % (m * m)) / m < m
    ensures p % (m * m) == ((p % (m * m)) / m) * m + p % m
  {
    var mm := m * m;
    MulAtLeast(m, m);
    var x, k := p % mm, p / mm;
    var q, r := x / m, x % m;
    assert x == m * q + r;
    if q >= m {
      MulMonotone(m, m, q);
      assert false;
    }
    if q < 0 {
      MulMonotone(m, q, -1);
      assert false;
    }
    assert p == mm * k + x;
    RegroupSplit(m, mm, k, q, r, p);
    DivUnique(p, m, m * k + q, r);
  }

  lemma RegroupSplit(m: int, mm: int, k: int, q: int, r: int, p: int)
    requires mm == m * m && p == mm * k + (m * q + r)
    ensures p == m * (m * k + q) + r
  {
    assert mm * k == m * (m * k);
    assert m * (m * k + q) == m * (m * k) + m * q;
  }

  /** `static_cast<T>(static_cast<WT>(res) >> size)`: bits w to 2w-1 of the
      double-width pattern of p. Together with the low half it makes up
      that pattern. */
  function HighHalf(w: Width, p: int): (h: nat)
    ensures h < Modulus(w)
    ensures WideWrap(w, p) == h * Modulus(w) + Wrap(w, p)
  {
    SplitCore(Modulus(w), p);
    WideWrap(w, p) / Modulus(w)
  }

  /** The rDX:rAX pair a one-operand multiply writes, read back as one
      double-width value, is the exact product. */
  lemma ProductSplit(s: Signedness, w: Width, a: nat, b: nat)
    requires a < Modulus(w) && b < Modulus(w)
    ensures var p := Product(s, w, a, b);
      WideView(s, w, HighHalf(w, p) * Modulus(w) + Wrap(w, p)) == p
  {
    var p := Product(s, w, a, b);
    WideViewOfWrap(s, w, p);
  }

  /** The two flags an overflowing multiply sets mean that the product does
      not fit the operand width. */
  lemma MulOverflowMeansNoFit(s: Signedness, w: Width, p: int)
    ensures MulOverflow(s, w, p) == FromBool(!InRange(s, w, p))
  {
    FitsIffRoundTrip(s, w, p);
  }

  /** What the high half of a product holds when the product fits: zero,
      or for a signed product the copies of the low half's sign bit. */
  function Extension(s: Signedness, w: Width, lo: nat): nat
    requires lo < Modulus(w)
  {
    if s == SignedInt && SignBit(w, lo) then Modulus(w) - 1 else 0
  }

  /** The high-half rule on plain integers. */
  lemma HighHalfCore(m: int, h: int, signed: bool, hi: int, lo: int, p: int)
    requires m == 2 * h && h >= 2 && 0 <= hi < m && 0 <= lo < m
    requires p == if signed && hi * m + lo >= m * h then hi * m + lo - m * m else hi * m + lo
    ensures ((if signed && lo >= h then lo - m else lo) != p)
         == (hi != (if signed && lo >= h then m - 1 else 0))
  {
    if hi >= h {
      MulMonotone(m, h, hi);
      assert hi * m + lo >= m * h;
      if hi == m - 1 {
        assert hi * m == m * m - m;
      } else {
        MulMonotone(m, hi, m - 2);
        assert hi * m <= m * m - 2 * m;
      }
    } else {
      MulMonotone(m, hi, h - 1);
      assert hi * m + lo < m * h;
      if hi > 0 {
        MulMonotone(m, 1, hi);
      }
    }
  }

  /** CF and OF of a multiply are set exactly when the high half of the
      product is not the extension of its low half: the rule of the MUL and
      IMUL entries of the Intel 64 and IA-32 Architectures Software
      Developer's Manual, volume 2. */
  lemma MulOverflowIffHighHalf(s: Signedness, w: Width, a: nat, b: nat)
    requires a < Modulus(w) && b < Modulus(w)
    ensures var p := Product(s, w, a, b);
      MulOverflow(s, w, p) == FromBool(HighHalf(w, p) != Extension(s, w, Wrap(w, p)))
  {
    var p := Product(s, w, a, b);
    var hi, lo := HighHalf(w, p), Wrap(w, p);
    WideViewOfWrap(s, w, p);
    assert p == WideView(s, w, hi * Modulus(w) + lo);
    HighHalfCore(Modulus(w), Half(w), s == SignedInt, hi, lo, p);
  }

  /** `SetFlagsMul`: CF = OF = the multiply overflow, PF, AF and ZF
      undefined, and SF the sign of the truncated product when the
      converter is signed, undefined otherwise. */
  function MulFlags(s: Signedness, w: Width, p: int): FlagSet {
    var o := MulOverflow(s, w, p);
    FlagSet(o, Undef, Undef, Undef, if s == SignedInt then SignFlag(w, Wrap(w, p)) else Undef, o)
  }

  /** A product that fits leaves CF and OF clear; one that does not sets both. */
  lemma MulFlagsByFit(s: Signedness, w: Width, a: nat, b: nat)
    requires a < Modulus(w) && b < Modulus(w)
    ensures var f := MulFlags(s, w, Product(s, w, a, b));
      f.cf == f.of && (f.cf == T <==> !InRange(s, w, Product(s, w, a, b)))
      && f.pf == Undef && f.af == Undef && f.zf == Undef
      && (s == SignedInt ==> f.sf == FromBool(View(s, w, Wrap(w, Product(s, w, a, b))) < 0))
      && (s == UnsignedInt ==> f.sf == Undef)
  {
    MulOverflowMeansNoFit(s, w, Product(s, w, a, b));
  }

  method SetFlagsMul(st: State, s: Signedness, w: Width, p: int)
    modifies st
    ensures st.Flags() == MulFlags(s, w, p)
    ensures st.loc == old(st.loc) && st.vec == old(st.vec)
  {
    var o := MulOverflow(s, w, p);
    st.cf := o;
    st.pf := Undef;
    st.af := Undef;
    st.zf := Undef;
    st.sf := if s == SignedInt then SignFlag(w, Wrap(w, p)) else Undef;
    st.of := o;
  }

  /** Two- and three-operand multiply: the product truncated to w bits. */
  method Mul(st: State, s: Signedness, w: Width, dst: Loc, src1: Operand, src2: Operand)
    modifies st
    ensures var p := Product(s, w, old(st.Read(w, src1)), old(st.Read(w, src2)));
      st.loc == old(st.loc)[dst := Wrap(w, p)]
      && st.vec == old(st.vec)
      && st.Flags() == MulFlags(s, w, p)
  {
    var a := st.Read(w, src1);
    var b := st.Read(w, src2);
    var res := Product(s, w, a, b);
    var resTrunc := View(s, w, Wrap(w, res));
    WrapOfView(s, w, Wrap(w, res));
    st.Write(dst, Wrap(w, resTrunc));
    SetFlagsMul(st, s, w, res);
  }

  /** The 8-bit accumulator multiply: AX receives the whole 16-bit product
      of AL and the source; rDX is not written. */
  method MulA8(st: State, s: Signedness, src: Operand)
    modifies st
    ensures var p := Product(s, 8, old(st.Read(8, In(RAX))), old(st.Read(8, src)));
      st.loc == old(st.loc)[RAX := WriteLow(old(st.Cell(RAX)), 16, Wrap(16, p))]
      && st.vec == old(st.vec)
      && st.Flags() == MulFlags(s, 8, p)
  {
    var a := st.Read(8, In(RAX));
    var b := st.Read(8, src);
    var res := Product(s, 8, a, b);
    st.Write(RAX, WriteLow(st.Cell(RAX), 16, Wrap(16, res)));
    SetFlagsMul(st, s, 8, res);
  }

  /** AX after an 8-bit accumulator multiply, read at 16 bits under the
      converter's signedness, is the exact product. */
  lemma MulA8Exact(s: Signedness, a: nat, b: nat)
    requires a < 0x100 && b < 0x100
    ensures WideView(s, 8, Wrap(16, Product(s, 8, a, b))) == Product(s, 8, a, b)
  {
    WideViewOfWrap(s, 8, Product(s, 8, a, b));
  }

  /** `MULAD_16/32/64`: rAX at width w times the source; the low half goes
      to rAX and the high half to rDX. */
  method MulAD(st: State, s: Signedness, w: Width, src: Operand)
    requires w >= 16
    modifies st
    ensures var p := Product(s, w, old(st.Read(w, In(RAX))), old(st.Read(w, src)));
      st.loc == old(st.loc)[RAX := WriteLow(old(st.Cell(RAX)), w, Wrap(w, p))]
                           [RDX := WriteLow(old(st.Cell(RDX)), w, HighHalf(w, p))]
      && st.vec == old(st.vec)
      && st.Flags() == MulFlags(s, w, p)
  {
    var a := st.Read(w, In(RAX));
    var b := st.Read(w, src);
    var res := Product(s, w, a, b);
    var resTrunc := View(s, w, Wrap(w, res));
    WrapOfView(s, w, Wrap(w, res));
    var rdx := st.Cell(RDX);
    st.Write(RAX, WriteLow(st.Cell(RAX), w, Wrap(w, resTrunc)));
    assert st.Cell(RDX) == rdx;
    st.Write(RDX, WriteLow(st.Cell(RDX), w, HighHalf(w, res)));
    SetFlagsMul(st, s, w, res);
  }

  /** MULX as the source orders it: the high half of the unsigned product
      of rDX and the source is written to dst1 first, then the low half to
      dst2, and no flag changes. When dst1 and dst2 name the same register
      the low half is what remains. */
  method Mulx(st: State, w: Width, dst1: Loc, dst2: Loc, src: Operand)
    modifies st
    ensures var p := Product(UnsignedInt, w, old(st.Read(w, In(RDX))), old(st.Read(w, src)));
      st.loc == old(st.loc)[dst1 := HighHalf(w, p)][dst2 := Wrap(w, p)]
      && st.vec == old(st.vec)
      && st.Flags() == old(st.Flags())
  {
    var b := st.Read(w, src);
    var a := st.Read(w, In(RDX));
    var res := Product(UnsignedInt, w, a, b);
    st.Write(dst1, HighHalf(w, res));
    st.Write(dst2, Wrap(w, res));
  }

  /** MULX with the writes in the opposite order, so that when both
      destinations are the same register it holds the high half, as the
      MULX entry of volume 2 of the Intel 64 and IA-32 Architectures
      Software Developer's Manual requires. */
  method MulxIntended(st: State, w: Width, dst1: Loc, dst2: Loc, src: Operand)
    modifies st
    ensures var p := Product(UnsignedInt, w, old(st.Read(w, In(RDX))), old(st.Read(w, src)));
      st.loc == old(st.loc)[dst2 := Wrap(w, p)][dst1 := HighHalf(w, p)]
      && st.vec == old(st.vec)
      && st.Flags() == old(st.Flags())
  {
    var b := st.Read(w, src);
    var a := st.Read(w, In(RDX));
    var res := Product(UnsignedInt, w, a, b);
    st.Write(dst2, Wrap(w, res));
    st.Write(dst1, HighHalf(w, res));
  }

  /** With distinct destinations both MULX orders write the same map, and
      the pair dst1:dst2 is the exact product. */
  lemma MulxOrdersAgree(w: Width, m: map<Loc, nat>, dst1: Loc, dst2: Loc, a: nat, b: nat)
    requires a < Modulus(w) && b < Modulus(w) && dst1 != dst2
    ensures var p := Product(UnsignedInt, w, a, b);
      m[dst1 := HighHalf(w, p)][dst2 := Wrap(w, p)] == m[dst2 := Wrap(w, p)][dst1 := HighHalf(w, p)]
      && HighHalf(w, p) * Modulus(w) + Wrap(w, p) == a * b
  {
    ProductSplit(UnsignedInt, w, a, b);
  }

  /** When the two MULX destinations coincide, the source's order leaves
      the low half and the intended order the high half: at 64 bits, with
      rDX = 2^63 and a source of 2, the product 2^64 has low half 0 and
      high half 1. */
  lemma MulxAliasedDestinations(m: map<Loc, nat>, d: Loc)
    ensures var p := Product(UnsignedInt, 64, 0x8000_0000_0000_0000, 2);
      m[d := HighHalf(64, p)][d := Wrap(64, p)][d] == 0
      && m[d := Wrap(64, p)][d := HighHalf(64, p)][d] == 1
  {
    var p := Product(UnsignedInt, 64, 0x8000_0000_0000_0000, 2);
    assert p == 0x1_0000_0000_0000_0000;
    DivUnique(p, 0x1_0000_0000_0000_0000, 1, 0);
    assert Wrap(64, p) == 0;
    assert WideWrap(64, p) == p;
    DivUnique(p, Modulus(64), 1, 0);
  }

  /** The test the divide forms apply to a non-zero quotient q, with
      `high_half = quot >> w` an arithmetic shift: the bits above w must be
      all zero or, for a signed divide, all one. */
  function QuotientAccepted(s: Signedness, w: Width, q: int): (ok: bool)
    ensures ok ==> -Modulus(w) <= q < Modulus(w) && (s == UnsignedInt ==> 0 <= q)
  {
    FloorBandCore(Modulus(w), q);
    var high := q / Modulus(w);
    q == 0 || high == 0 || (s == SignedInt && high == -1)
  }

  /** The floor-division facts behind QuotientAcceptedRange. */
  lemma FloorBandCore(m: int, q: int)
    requires m > 0
    ensures q / m == 0 <==> 0 <= q < m
    ensures q / m == -1 <==> -m <= q < 0
  {
    if 0 <= q < m {
      DivUnique(q, m, 0, q);
    } else if -m <= q < 0 {
      DivUnique(q, m, -1, q + m);
    } else if q >= m {
      var k := q / m;
      assert q == m * k + q % m;
      if k <= 0 {
        MulMonotone(m, k, 0);
        assert false;
      }
    } else {
      var k := q / m;
      assert q == m * k + q % m;
      if k >= -1 {
        MulMonotone(m, -1, k);
        assert false;
      }
    }
  }

  /** The quotients the source's test lets through: all of [0, 2^w) and,
      for a signed divide, all of [-2^w, 0). */
  lemma QuotientAcceptedRange(s: Signedness, w: Width, q: int)
    ensures QuotientAccepted(s, w, q) <==> (0 <= q < Modulus(w) || (s == SignedInt && -Modulus(w) <= q < 0))
  {
    FloorBandCore(Modulus(w), q);
  }

  /** The architectural test: the quotient must fit the w-bit destination
      under the divide's signedness, or the divide raises #DE. */
  function QuotientFits(s: Signedness, w: Width, q: int): (ok: bool)
    ensures ok <==> View(s, w, Wrap(w, q)) == q
  {
    FitsIffRoundTrip(s, w, q);
    InRange(s, w, q)
  }

  /** The two tests agree on unsigned divides; on signed divides the
      source's test also accepts [2^(w-1), 2^w) and [-2^w, -2^(w-1)),
      quotients that do not fit. */
  lemma QuotientChecksCompared(s: Signedness, w: Width, q: int)
    ensures QuotientFits(s, w, q) ==> QuotientAccepted(s, w, q)
    ensures s == UnsignedInt ==> (QuotientAccepted(s, w, q) <==> QuotientFits(s, w, q))
    ensures (QuotientAccepted(s, w, q) && !QuotientFits(s, w, q))
        <==> (s == SignedInt && (Half(w) <= q < Modulus(w) || -Modulus(w) <= q < -Half(w)))
  {
    QuotientAcceptedRange(s, w, q);
  }

  /** IDIV of AX = 0x0080 by 1 at 8 bits: the quotient 128 passes the
      source's test, so AL becomes 0x80, which reads as -128, although the
      quotient does not fit a signed byte. */
  lemma Idiv8Quotient128()
    ensures var n, d := ToSigned(16, 0x0080), ToSigned(8, 0x01);
      TruncDiv(n, d) == 128
      && QuotientAccepted(SignedInt, 8, TruncDiv(n, d))
      && !QuotientFits(SignedInt, 8, TruncDiv(n, d))
      && ToSigned(8, Wrap(8, TruncDiv(n, d))) == -128
  {
    QuotientAcceptedRange(SignedInt, 8, 128);
    DivUnique(128, 0x100, 0, 128);
  }

  /** Which quotient test a divide applies: the one the source compiles, or
      the architectural one. */
  datatype QuotientCheck = AsWritten | Architectural

  function Accepts(check: QuotientCheck, s: Signedness, w: Width, q: int): (ok: bool)
    ensures ok ==> QuotientAccepted(s, w, q)
    ensures check == Architectural ==> (ok <==> View(s, w, Wrap(w, q)) == q)
  {
    QuotientChecksCompared(s, w, q);
    match check
    case AsWritten => QuotientAccepted(s, w, q)
    case Architectural => QuotientFits(s, w, q)
  }

  /** `(src1_high << size) | src1_low`: the double-width dividend pattern. */
  function Concat(w: Width, hi: nat, lo: nat): (x: nat)
    requires hi < Modulus(w) && lo < Modulus(w)
    ensures x < WideModulus(w)
    ensures x / Modulus(w) == hi && x % Modulus(w) == lo
  {
    MulMonotone(Modulus(w), hi, Modulus(w) - 1);
    DivUnique(hi * Modulus(w) + lo, Modulus(w), hi, lo);
    hi * Modulus(w) + lo
  }

  /** What a divide that does not fault computes: the dividend is divisor
      times quotient plus remainder, the remainder is smaller than the
      divisor and takes the dividend's sign, the remainder always fits the
      w-bit destination, and the quotient reads back exactly when it passes
      the architectural test. */
  lemma DivisionExact(s: Signedness, w: Width, n: int, d: int)
    requires InRange(s, w, d) && d != 0 && (s == UnsignedInt ==> n >= 0)
    ensures var q, r := TruncDiv(n, d), TruncMod(n, d);
      n == d * q + r && Abs(r) < Abs(d) && (r != 0 ==> ((r < 0) <==> (n < 0)))
      && View(s, w, Wrap(w, r)) == r
      && (View(s, w, Wrap(w, q)) == q <==> QuotientFits(s, w, q))
  {
    var q, r := TruncDiv(n, d), TruncMod(n, d);
    assert InRange(s, w, r);
    ViewOfWrap(s, w, r);
    FitsIffRoundTrip(s, w, q);
  }

  /** `DIVA_8`: AX divided by the 8-bit source. A zero divisor, or a
      quotient the chosen test rejects, faults (`__mcsema_error`) before
      anything is written. Otherwise AL receives the quotient, AH the
      remainder, and every arithmetic flag becomes undefined
      (`CLEAR_AFLAGS`). */
  method DivA8(st: State, s: Signedness, check: QuotientCheck, src: Operand) returns (fault: bool)
    modifies st
    ensures var n, d := View(s, 16, old(st.Read(16, In(RAX)))), View(s, 8, old(st.Read(8, src)));
      fault == (d == 0 || !Accepts(check, s, 8, TruncDiv(n, d)))
      && (!fault ==>
            st.loc == old(st.loc)[RAX := WriteHighByte(WriteLow(old(st.Cell(RAX)), 8, Wrap(8, TruncDiv(n, d))),
                                                       Wrap(8, TruncMod(n, d)))]
            && st.vec == old(st.vec)
            && st.Flags() == AllUndefined)
    ensures fault ==> unchanged(st)
  {
    var n := View(s, 16, st.Read(16, In(RAX)));
    var d := View(s, 8, st.Read(8, src));
    if d == 0 {
      return true;
    }
    var quot := TruncDiv(n, d);
    var rem := TruncMod(n, d);
    if !Accepts(check, s, 8, quot) {
      return true;
    }
    fault := false;
    WriteAlAh(st, Wrap(8, quot), Wrap(8, rem));
    ClearArithmeticFlags(st);
  }

  /** `W(rax.byte.low) = lo`, then `W(rax.byte.high) = hi`. */
  method WriteAlAh(st: State, lo: nat, hi: nat)
    requires lo < 0x100 && hi < 0x100
    modifies st
    ensures st.loc == old(st.loc)[RAX := WriteHighByte(WriteLow(old(st.Cell(RAX)), 8, lo), hi)]
    ensures st.vec == old(st.vec) && st.Flags() == old(st.Flags())
  {
    var withLow := WriteLow(st.Cell(RAX), 8, lo);
    var withHigh := WriteHighByte(withLow, hi);
    st.Write(RAX, withLow);
    st.Write(RAX, withHigh);
  }

  /** `DIVA_16/32/64`: rDX:rAX divided by the w-bit source; on success rAX
      receives the quotient and rDX the remainder. */
  method DivAD(st: State, s: Signedness, check: QuotientCheck, w: Width, src: Operand) returns (fault: bool)
    requires w >= 16
    modifies st
    ensures var n := WideView(s, w, Concat(w, old(st.Read(w, In(RDX))), old(st.Read(w, In(RAX)))));
      var d := View(s, w, old(st.Read(w, src)));
      fault == (d == 0 || !Accepts(check, s, w, TruncDiv(n, d)))
      && (!fault ==>
            st.loc == old(st.loc)[RAX := WriteLow(old(st.Cell(RAX)), w, Wrap(w, TruncDiv(n, d)))]
                                 [RDX := WriteLow(old(st.Cell(RDX)), w, Wrap(w, TruncMod(n, d)))]
            && st.vec == old(st.vec)
            && st.Flags() == AllUndefined)
    ensures fault ==> unchanged(st)
  {
    var low := st.Read(w, In(RAX));
    var high := st.Read(w, In(RDX));
    var n := WideView(s, w, Concat(w, high, low));
    var d := View(s, w, st.Read(w, src));
    if d == 0 {
      return true;
    }
    var quot := TruncDiv(n, d);
    var rem := TruncMod(n, d);
    if !Accepts(check, s, w, quot) {
      return true;
    }
    fault := false;
    var rdx := st.Cell(RDX);
    st.Write(RAX, WriteLow(st.Cell(RAX), w, Wrap(w, quot)));
    assert st.Cell(RDX) == rdx;
    st.Write(RDX, WriteLow(st.Cell(RDX), w, Wrap(w, rem)));
    ClearArithmeticFlags(st);
  }

  /** `CLEAR_AFLAGS`: every arithmetic flag becomes undefined. */
  method ClearArithmeticFlags(st: State)
    modifies st
    ensures st.Flags() == AllUndefined
    ensures st.loc == old(st.loc) && st.vec == old(st.vec)
  {
    st.cf, st.pf, st.af, st.zf, st.sf, st.of := Undef, Undef, Undef, Undef, Undef, Undef;
  }
}
