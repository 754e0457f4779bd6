/** mul_sf, div_sf and sqrt_sf: normalize the operands, use the word routines,
    keep a sticky bit, normalize and round. */
module Multiplication {
  import opened Bits
  import opened Ieee754
  import opened StickyBits
  import opened RoundPack
  import opened Normalize
  import opened Fields
  import opened WordArith

  // ----- dyadic comparisons do not depend on the common scale

  lemma Rebalance(x: nat, p: nat, y: nat, q: nat, p': nat, q': nat)
    requires p - q == p' - q'
    ensures Shl(x, p) <= Shl(y, q) <==> Shl(x, p') <= Shl(y, q')
    ensures Shl(x, p) < Shl(y, q) <==> Shl(x, p') < Shl(y, q')
    ensures Shl(x, p) == Shl(y, q) <==> Shl(x, p') == Shl(y, q')
  {
    hide Shl;
    if p <= p' {
      ShlShl(x, p, p' - p);
      ShlShl(y, q, p' - p);
      ShlCmp(Shl(x, p), Shl(y, q), p' - p);
    } else {
      ShlShl(x, p', p - p');
      ShlShl(y, q', p - p');
      ShlCmp(Shl(x, p'), Shl(y, q'), p - p');
    }
  }

  /** u == m * 2^e */
  predicate Scaled(u: nat, m: nat, e: int) { Shl(u, Pos(-e)) == Shl(m, Pos(e)) }

  /** Replace u by m * 2^e on the left of a comparison. */
  lemma ScaledLeft(u: nat, m: nat, e: int, p: nat, j: nat)
    requires Scaled(u, m, e)
    ensures Shl(j * u, p + Pos(-e)) == Shl(j * m, p + Pos(e))
  {
    hide Shl;
    var n, q := Pos(-e), Pos(e);
    ShlMulOne(u, n, j);
    ShlMulOne(m, q, j);
    Commute(u, j);
    Commute(m, j);
    ShlShl(j * u, n, p);
    ShlShl(j * m, q, p);
  }

  lemma Commute(a: nat, b: nat)
    ensures a * b == b * a
  {
  }

  /** Is a * 2^e a mantissa with its hidden bit at M? */
  predicate Operand(f: Fmt, a: nat, exp: int, m: nat)
  {
    P(f.M) <= m < P(f.M + 1) && Scaled(f.Units(a), m, exp - 1)
  }

  /** What each operation does first with a finite operand other than zero. */
  method NormalizeOperand(f: Fmt, a: nat) returns (exp: int, m: nat)
    requires f.IsFinite(a) && f.Units(a) != 0
    ensures Operand(f, a, exp, m)
  {
    hide Shl, Shr, Low, P;
    SignificandRange(f, a);
    MagnitudeFields(f, a);
    PStep(f.M);
    exp, m := f.Exp(a), f.Frac(a);
    if exp == 0 {
      exp, m := NormalizeSubnormal(f, m);
      ShlNone(f.Frac(a), 0);
      ShlNone(m, 0);
    } else {
      m := m + P(f.M);
      ShlNone(f.Units(a), 0);
    }
  }

  lemma OneIs(f: Fmt)
    ensures f.One() == P(f.E - 1) + f.M - 2 && P(f.E - 1) >= 16
    ensures P(f.E) == 2 * P(f.E - 1)
    ensures f.F % 2 == 0
  {
    PStep(f.E - 1);
    PMono(4, f.E - 1);
  }

  lemma FiniteZero(f: Fmt, a: nat)
    ensures f.Units(a) == 0 <==> f.Exp(a) == 0 && f.Frac(a) == 0
  {
    hide Shl, Shr, Low, P;
    SignificandRange(f, a);
  }

  // ----- multiplication

  /** The exact product of the operands is the product of their mantissas. */
  lemma ProductExact(f: Fmt, ua: nat, ma: nat, ea: int, ub: nat, mb: nat, eb: int)
    requires Scaled(ua, ma, ea) && Scaled(ub, mb, eb)
    ensures IsExactly(Quotient(Product(ua, ub), P(f.One())), Product(ma, mb), ea + eb - f.One())
  {
    hide Shl, P, IsExactly;
    var k := ea + eb - f.One();
    var x := Quotient(Product(ua, ub), P(f.One()));
    ShlMul(ua, Pos(-ea), ub, Pos(-eb));
    ShlMul(ma, Pos(ea), mb, Pos(eb));
    Rebalance(ua * ub, Pos(-ea) + Pos(-eb), ma * mb, Pos(ea) + Pos(eb), Pos(-k), Pos(k) + f.One());
    TimesP(Shl(ma * mb, Pos(k)), f.One());
    ShlShl(ma * mb, Pos(k), f.One());
    ExactCut(x, Product(ma, mb), k);
  }

  lemma TimesP(a: nat, n: nat)
    ensures a * P(n) == Shl(a, n)
  {
  }

  lemma MulRange(f: Fmt, ma: nat, mb: nat)
    requires P(f.M) <= ma < P(f.M + 1) && P(f.M) <= mb < P(f.M + 1)
    ensures P(2 * f.M) <= ma * mb < P(2 * f.M + 2)
  {
    hide P;
    PAdd(f.M, f.M);
    PAdd(f.M + 1, f.M + 1);
    ProductBound(ma, mb, P(f.M + 1));
    MulLe(P(f.M), ma, P(f.M));
    MulLe(P(f.M), mb, ma);
    Commute(ma, mb);
    Commute(P(f.M), ma);
  }

  /** The folded high word of the product stands for it. */
  lemma MulStands(f: Fmt, x: Exact, ma: nat, mb: nat, k: int, exp: int, hi: nat, lo: nat)
    requires P(f.M) <= ma < P(f.M + 1) && P(f.M) <= mb < P(f.M + 1)
    requires IsExactly(x, Product(ma, mb), k)
    requires exp == k + f.E - 2 * Rnd(f) - 1 + f.F
    requires Shl(hi, f.F) + lo == Shl(ma, Rnd(f)) * Shl(mb, Rnd(f) + 1) && lo < P(f.F)
    ensures OrBit(hi, lo != 0) < P(f.F - 1)
    ensures NormalizedStands(f, x, exp, OrBit(hi, lo != 0))
  {
    hide Shl, Shr, Low, P, IsExactly, StandsFor, NormalizedStands, Jam;
    var s := 2 * Rnd(f) + 1;
    var d := Shl(ma * mb, s);
    ShlMul(ma, Rnd(f), mb, Rnd(f) + 1);
    ExactShl(x, ma * mb, k, s);
    ExactStands(x, d, k - s, 0);
    ShiftRight(x, d, k - s, 0, f.F, 1);
    JamWords(f, hi, lo);
    MulRange(f, ma, mb);
    ShlCmp(P(2 * f.M), ma * mb, s);
    ShlCmp(ma * mb, P(2 * f.M + 2), s);
    ShlP(2 * f.M, s);
    ShlP(2 * f.M + 2, s);
    FoldedRange(f, hi, lo);
    var m := OrBit(hi, lo != 0);
    BitLenMin(m, f.F - 2);
    StickyNormalizes(f, x, exp, m, 1);
  }

  lemma JamWords(f: Fmt, hi: nat, lo: nat)
    requires lo < P(f.F)
    ensures Jam(Shl(hi, f.F) + lo, f.F) == OrBit(hi, lo != 0)
  {
    hide Shl, Shr, Low, P;
    SplitUnique(Shl(hi, f.F) + lo, f.F, hi, lo);
  }

  lemma FoldedRange(f: Fmt, hi: nat, lo: nat)
    requires lo < P(f.F) && P(2 * f.F - 3) <= Shl(hi, f.F) + lo < P(2 * f.F - 1)
    ensures P(f.F - 3) <= OrBit(hi, lo != 0) < P(f.F - 1)
  {
    hide Shl, Shr, Low, P;
    var d := Shl(hi, f.F) + lo;
    SplitUnique(d, f.F, hi, lo);
    ShlP(f.F - 3, f.F);
    ShlP(f.F - 1, f.F);
    ShrLt(d, f.F, P(f.F - 3));
    ShrLt(d, f.F, P(f.F - 1));
    PStep(f.F - 2);
  }

  /** A magnitude of zero rounds to zero, exactly, in every mode. */
  lemma ZeroRounds(f: Fmt, rm: Mode, sign: bool, d: nat, acc: Flags)
    requires d > 0
    ensures RoundsTo(f, rm, sign, Quotient(0, d), acc, f.Zero(sign), acc)
  {
    hide RoundsTo, P, Shl;
    ShlNone(0, 0);
    ShlNone(0, f.M);
    ExactRounds(f, rm, sign, Quotient(0, d), 0, 0, acc);
  }

  method MulSf(f: Fmt, a: nat, b: nat, rm: Mode, acc: Flags) returns (r: nat, fl: Flags)
    requires f.Word(a) && f.Word(b)
    ensures IsProduct(f, rm, a, b, acc, r, fl)
  {
    hide Shl, Shr, Low, P, RoundsTo, Product, PackSf;
    var sign := f.Sign(a) != f.Sign(b);
    var aZero, bZero := f.Exp(a) == 0 && f.Frac(a) == 0, f.Exp(b) == 0 && f.Frac(b) == 0;
    FiniteZero(f, a);
    FiniteZero(f, b);
    PackInfZero(f, sign);
    OneIs(f);
    fl := acc;
    if f.Exp(a) == f.ExpMask() || f.Exp(b) == f.ExpMask() {
      if f.IsNan(a) || f.IsNan(b) {
        if IsSignanSf(f, a) || IsSignanSf(f, b) {
          fl := fl.(invalid := true);
        }
        return f.QNan(), fl;
      } else if (f.Exp(a) == f.ExpMask() && bZero) || (f.Exp(b) == f.ExpMask() && aZero) {
        return f.QNan(), fl.(invalid := true);
      } else {
        return PackSf(f, sign, f.ExpMask(), 0), fl;
      }
    }
    if aZero || bZero {
      ZeroProduct(f.Units(a), f.Units(b));
      ZeroRounds(f, rm, sign, P(f.One()), acc);
      return PackSf(f, sign, 0, 0), fl;
    }
    r, fl := MulFinite(f, a, b, rm, acc);
  }

  lemma ZeroProduct(m: nat, n: nat)
    requires m == 0 || n == 0
    ensures Product(m, n) == 0
  {
  }

  lemma PackInfZero(f: Fmt, sign: bool)
    ensures PackSf(f, sign, f.ExpMask(), 0) == f.Inf(sign)
    ensures PackSf(f, sign, 0, 0) == f.Zero(sign)
  {
    hide Shl, Low, P;
    Small(0, f.M);
  }

  method MulFinite(f: Fmt, a: nat, b: nat, rm: Mode, acc: Flags) returns (r: nat, fl: Flags)
    requires f.IsFinite(a) && f.IsFinite(b) && f.Units(a) != 0 && f.Units(b) != 0
    ensures RoundsTo(f, rm, f.Sign(a) != f.Sign(b), Quotient(Product(f.Units(a), f.Units(b)), P(f.One())), acc, r, fl)
  {
    hide Shl, Shr, Low, P, RoundsTo, IsExactly, NormalizedStands, Scaled, Product;
    var aExp, aMant := NormalizeOperand(f, a);
    var bExp, bMant := NormalizeOperand(f, b);
    ghost var x := Quotient(Product(f.Units(a), f.Units(b)), P(f.One()));
    ProductExact(f, f.Units(a), aMant, aExp - 1, f.Units(b), bMant, bExp - 1);
    OneIs(f);
    var rExp := aExp + bExp - P(f.E - 1) + 2;
    MantissaFits(f, aMant, Rnd(f));
    MantissaFits(f, bMant, Rnd(f) + 1);
    var hi, lo := MulU(f.F / 2, Shl(aMant, Rnd(f)), Shl(bMant, Rnd(f) + 1));
    MulStands(f, x, aMant, bMant, aExp - 1 + (bExp - 1) - f.One(), rExp, hi, lo);
    r, fl := NormalizeSf(f, f.Sign(a) != f.Sign(b), rExp, OrBit(hi, lo != 0), rm, acc, x);
  }

  lemma MantissaFits(f: Fmt, m: nat, s: nat)
    requires m < P(f.M + 1) && s <= Rnd(f) + 1
    ensures Shl(m, s) < P(f.F)
  {
    hide Shl, P;
    ShlCmp(m, P(f.M + 1), s);
    ShlP(f.M + 1, s);
    PMono(f.M + 1 + s, f.F);
  }

  // ----- division

  /** Comparing the quotient with a dyadic number is comparing a multiple of the
      divisor's mantissa with the dividend's. */
  lemma QuotientCompare(f: Fmt, ua: nat, ma: nat, ea: int, ub: nat, mb: nat, eb: int, j: nat, e: int)
    requires Scaled(ua, ma, ea) && Scaled(ub, mb, eb) && ub > 0
    requires e == ea - eb + f.One() + 2 - f.F
    ensures var x := Quotient(Shl(ua, f.One()), ub);
            && (AtLeast(x, j, e) <==> Product(j, Shl(mb, 2)) <= Shl(ma, f.F))
            && (Above(x, j, e) <==> Product(j, Shl(mb, 2)) < Shl(ma, f.F))
  {
    hide Shl, P;
    var one := f.One();
    var pe, ne := Pos(e), Pos(-e);
    var pa, na, pb, nb := Pos(ea), Pos(-ea), Pos(eb), Pos(-eb);
    ShlMulOne(j, pe, ub);
    ShlShl(ua, one, ne);
    Rebalance(j * ub, pe, ua, one + ne, pe + na + nb, one + ne + na + nb);
    ScaledLeft(ub, mb, eb, pe + na, j);
    ScaledLeft(ua, ma, ea, one + ne + nb, 1);
    assert pe + na + nb == (pe + na) + nb && one + ne + na + nb == (one + ne + nb) + na;
    assert 1 * ua == ua && 1 * ma == ma;
    Rebalance(j * mb, pe + na + pb, ma, one + ne + nb + pa, 2, f.F);
    ShlMulOne(mb, 2, j);
    Commute(j, Shl(mb, 2));
    Commute(j, mb);
  }

  lemma DivStands(f: Fmt, ua: nat, ma: nat, ea: int, ub: nat, mb: nat, eb: int, q: nat, r: nat, exp: int)
    requires P(f.M) <= ma < P(f.M + 1) && P(f.M) <= mb < P(f.M + 1)
    requires Scaled(ua, ma, ea) && Scaled(ub, mb, eb) && ub > 0
    requires Shl(ma, f.F) == Product(q, Shl(mb, 2)) + r && r < Shl(mb, 2)
    requires exp - f.E == ea - eb + f.One() + 2 - f.F
    ensures OrBit(q, r != 0) < P(f.F - 1)
    ensures NormalizedStands(f, Quotient(Shl(ua, f.One()), ub), exp, OrBit(q, r != 0))
  {
    hide Shl, P, Scaled, StandsFor, NormalizedStands, AtLeast, Above, Product;
    var x := Quotient(Shl(ua, f.One()), ub);
    var e := exp - f.E;
    QuotientCompare(f, ua, ma, ea, ub, mb, eb, q, e);
    QuotientCompare(f, ua, ma, ea, ub, mb, eb, q + 1, e);
    ProductSucc(q, Shl(mb, 2));
    QuotientRange(f, ma, mb, q, r);
    CutNormalizes(f, x, exp, q, r != 0);
  }

  /** A magnitude cut to at least F_SIZE - 2 bits, with a sticky bit, may be rounded. */
  lemma CutNormalizes(f: Fmt, x: Exact, exp: int, q: nat, inexact: bool)
    requires Proper(x) && AtLeast(x, q, exp - f.E) && !AtLeast(x, q + 1, exp - f.E)
    requires inexact <==> Above(x, q, exp - f.E)
    requires P(f.F - 3) <= q < P(f.F - 1)
    ensures OrBit(q, inexact) < P(f.F - 1)
    ensures NormalizedStands(f, x, exp, OrBit(q, inexact))
  {
    hide P, StandsFor, NormalizedStands, AtLeast, Above, BitLen;
    CutStandsFor(x, q, exp - f.E);
    PStep(f.F - 2);
    BitLenMin(OrBit(q, inexact), f.F - 2);
    StickyNormalizes(f, x, exp, OrBit(q, inexact), 1);
  }

  lemma ProductSucc(q: nat, b: nat)
    ensures Product(q + 1, b) == Product(q, b) + b
  {
  }

  lemma ProductMonotone(q: nat, q': nat, b: nat, b': nat)
    requires q <= q' && b <= b'
    ensures Product(q, b) <= Product(q', b')
  {
    MulLe(q, q', b);
    MulLe(b, b', q');
  }

  lemma QuotientRange(f: Fmt, ma: nat, mb: nat, q: nat, r: nat)
    requires P(f.M) <= ma < P(f.M + 1) && P(f.M) <= mb < P(f.M + 1)
    requires Shl(ma, f.F) == Product(q, Shl(mb, 2)) + r && r < Shl(mb, 2)
    ensures P(f.F - 3) <= q < P(f.F - 1)
  {
    hide Shl, P, Product;
    var b := Shl(mb, 2);
    ShlCmp(mb, P(f.M + 1), 2);
    ShlCmp(P(f.M), mb, 2);
    ShlP(f.M + 1, 2);
    ShlP(f.M, 2);
    ShlCmp(P(f.M), ma, f.F);
    ShlCmp(ma, P(f.M + 1), f.F);
    ShlP(f.M, f.F);
    ShlP(f.M + 1, f.F);
    ProductP(f.F - 3, f.M + 3);
    ProductP(f.F - 1, f.M + 2);
    ProductSucc(q, b);
    if q < P(f.F - 3) {
      ProductMonotone(q + 1, P(f.F - 3), b, P(f.M + 3));
    }
    if q >= P(f.F - 1) {
      ProductMonotone(P(f.F - 1), q, P(f.M + 2), b);
    }
  }

  lemma ProductP(m: nat, n: nat)
    ensures Product(P(m), P(n)) == P(m + n)
  {
    PAdd(m, n);
  }

  method DivSf(f: Fmt, a: nat, b: nat, rm: Mode, acc: Flags) returns (r: nat, fl: Flags)
    requires f.Word(a) && f.Word(b)
    ensures IsQuotient(f, rm, a, b, acc, r, fl)
  {
    hide Shl, Shr, Low, P, RoundsTo;
    var sign := f.Sign(a) != f.Sign(b);
    FiniteZero(f, a);
    FiniteZero(f, b);
    PackInfZero(f, sign);
    OneIs(f);
    fl := acc;
    if f.Exp(a) == f.ExpMask() {
      if f.Frac(a) != 0 || f.IsNan(b) {
        if IsSignanSf(f, a) || IsSignanSf(f, b) {
          fl := fl.(invalid := true);
        }
        return f.QNan(), fl;
      } else if f.Exp(b) == f.ExpMask() {
        return f.QNan(), fl.(invalid := true);
      } else {
        return PackSf(f, sign, f.ExpMask(), 0), fl;
      }
    } else if f.Exp(b) == f.ExpMask() {
      if f.Frac(b) != 0 {
        if IsSignanSf(f, a) || IsSignanSf(f, b) {
          fl := fl.(invalid := true);
        }
        return f.QNan(), fl;
      } else {
        return PackSf(f, sign, 0, 0), fl;
      }
    }
    if f.Exp(b) == 0 && f.Frac(b) == 0 {
      if f.Exp(a) == 0 && f.Frac(a) == 0 {
        return f.QNan(), fl.(invalid := true);
      } else {
        return PackSf(f, sign, f.ExpMask(), 0), fl.(divByZero := true);
      }
    }
    if f.Exp(a) == 0 && f.Frac(a) == 0 {
      ShlNone(0, f.One());
      ZeroRounds(f, rm, sign, f.Units(b), acc);
      return PackSf(f, sign, 0, 0), fl;
    }
    r, fl := DivFinite(f, a, b, rm, acc);
  }

  method DivFinite(f: Fmt, a: nat, b: nat, rm: Mode, acc: Flags) returns (r: nat, fl: Flags)
    requires f.IsFinite(a) && f.IsFinite(b) && f.Units(a) != 0 && f.Units(b) != 0
    ensures RoundsTo(f, rm, f.Sign(a) != f.Sign(b), Quotient(Shl(f.Units(a), f.One()), f.Units(b)), acc, r, fl)
  {
    hide Shl, Shr, Low, P, RoundsTo, NormalizedStands, Scaled;
    var bExp, bMant := NormalizeOperand(f, b);
    var aExp, aMant := NormalizeOperand(f, a);
    ghost var x := Quotient(Shl(f.Units(a), f.One()), f.Units(b));
    OneIs(f);
    var rExp := aExp - bExp + P(f.E - 1) - 1;
    MantissaFits(f, bMant, 2);
    DivisorLarger(f, aMant, bMant);
    var q, rem := DivremU(f.F, aMant, 0, Shl(bMant, 2));
    DivStands(f, f.Units(a), aMant, aExp - 1, f.Units(b), bMant, bExp - 1, q, rem, rExp);
    r, fl := NormalizeSf(f, f.Sign(a) != f.Sign(b), rExp, OrBit(q, rem != 0), rm, acc, x);
  }

  lemma DivisorLarger(f: Fmt, ma: nat, mb: nat)
    requires ma < P(f.M + 1) && P(f.M) <= mb
    ensures ma < Shl(mb, 2)
  {
    hide Shl, P;
    ShlCmp(P(f.M), mb, 2);
    ShlP(f.M, 2);
    PMono(f.M + 1, f.M + 2);
  }

  // ----- square root

  /** Comparing the root with a dyadic number is comparing a square. */
  lemma RootCompare(f: Fmt, ua: nat, ma: nat, ea: int, j: nat, e: int, s: nat)
    requires Scaled(ua, ma, ea) && s + 2 * e == ea + f.One()
    ensures var x := Root(Shl(ua, f.One()));
            && (AtLeast(x, j, e) <==> Square(j) <= Shl(ma, s))
            && (Above(x, j, e) <==> Square(j) < Shl(ma, s))
  {
    hide Shl, P;
    var one := f.One();
    var pe, ne, pa, na := Pos(e), Pos(-e), Pos(ea), Pos(-ea);
    ShlMul(j, pe, j, pe);
    ShlShl(ua, one, 2 * ne);
    Rebalance(j * j, 2 * pe, ua, one + 2 * ne, 2 * pe + na, one + 2 * ne + na);
    ScaledLeft(ua, ma, ea, one + 2 * ne, 1);
    assert 1 * ua == ua && 1 * ma == ma;
    Rebalance(j * j, 2 * pe + na, ma, one + 2 * ne + pa, 0, s);
    ShlNone(j * j, 0);
  }

  lemma RootStands(f: Fmt, ua: nat, ma: nat, ea: int, s: nat, t: nat, inexact: bool, exp: int)
    requires Scaled(ua, ma, ea) && t + 2 * (exp - f.E) == ea + f.One()
    requires Square(s) <= Shl(ma, t) < Square(s + 1) && (inexact <==> Square(s) != Shl(ma, t))
    requires P(2 * f.F - 4) <= Shl(ma, t) && s < P(f.F - 1)
    ensures OrBit(s, inexact) < P(f.F - 1)
    ensures NormalizedStands(f, Root(Shl(ua, f.One())), exp, OrBit(s, inexact))
  {
    hide Shl, P, Scaled, StandsFor, NormalizedStands, AtLeast, Above, Square;
    var x := Root(Shl(ua, f.One()));
    RootCompare(f, ua, ma, ea, s, exp - f.E, t);
    RootCompare(f, ua, ma, ea, s + 1, exp - f.E, t);
    SquareP(f.F - 2);
    if s + 1 < P(f.F - 2) { SquareMono(s + 1, P(f.F - 2)); }
    PMono(f.F - 3, f.F - 2);
    CutNormalizes(f, x, exp, s, inexact);
  }

  method SqrtSf(f: Fmt, a: nat, rm: Mode, acc: Flags) returns (r: nat, fl: Flags)
    requires f.Word(a)
    ensures IsSquareRoot(f, rm, a, acc, r, fl)
  {
    hide Shl, Shr, Low, P, RoundsTo;
    FiniteZero(f, a);
    Unpack(f, a);
    OneIs(f);
    PackInfZero(f, false);
    fl := acc;
    if f.Exp(a) == f.ExpMask() {
      if f.Frac(a) != 0 {
        if IsSignanSf(f, a) {
          fl := fl.(invalid := true);
        }
        return f.QNan(), fl;
      } else if f.Sign(a) {
        return f.QNan(), fl.(invalid := true);
      } else {
        return a, fl;
      }
    }
    if f.Sign(a) {
      if f.Exp(a) == 0 && f.Frac(a) == 0 {
        return a, fl;
      }
      return f.QNan(), fl.(invalid := true);
    }
    if f.Exp(a) == 0 && f.Frac(a) == 0 {
      return PackSf(f, false, 0, 0), fl;
    }
    r, fl := SqrtFinite(f, a, rm, acc);
  }

  method SqrtFinite(f: Fmt, a: nat, rm: Mode, acc: Flags) returns (r: nat, fl: Flags)
    requires f.IsFinite(a) && f.Units(a) != 0
    ensures RoundsTo(f, rm, false, Root(Shl(f.Units(a), f.One())), acc, r, fl)
  {
    hide Shl, Shr, Low, P, RoundsTo, NormalizedStands, Scaled, Square;
    var exp, mant := NormalizeOperand(f, a);
    ghost var m, ea := mant, exp - 1;
    OneIs(f);
    var bias := (P(f.E) - 1) / 2;
    exp := exp - bias;
    var odd := exp % 2;
    if odd == 1 {
      exp := exp - 1;
      mant := Shl(mant, 1);
    } else {
      ShlNone(mant, 0);
    }
    exp := exp / 2 + bias;
    RootShift(f, m, odd);
    mant := Shl(mant, f.F - 4 - f.M);
    ShlNone(0, 0);
    OneWordCovers(f.F, mant, 0);
    HighWordOnly(f.F, mant);
    var s, inexact := SqrtremU(f.F / 2, mant, 0);
    RootStands(f, f.Units(a), m, ea, s, odd + (f.F - 4 - f.M) + f.F, inexact, exp);
    r, fl := NormalizeSf(f, false, exp, OrBit(s, inexact), rm, acc, Root(Shl(f.Units(a), f.One())));
  }

  lemma RootShift(f: Fmt, m: nat, odd: nat)
    requires P(f.M) <= m < P(f.M + 1) && odd <= 1
    ensures var t := f.F - 4 - f.M;
            var a1 := Shl(Shl(m, odd), t);
            a1 < P(f.F - 2) && Shl(a1, f.F) == Shl(m, odd + t + f.F) && P(2 * f.F - 4) <= Shl(a1, f.F)
  {
    hide Shl, P;
    var t := f.F - 4 - f.M;
    ShlShl(m, odd, t);
    ShlShl(m, odd + t, f.F);
    ShlCmp(m, P(f.M + 1), odd + t);
    ShlP(f.M + 1, odd + t);
    PMono(f.M + 1 + odd + t, f.F - 2);
    ShlCmp(P(f.M), m, odd + t + f.F);
    ShlP(f.M, odd + t + f.F);
    PMono(2 * f.F - 4, f.M + odd + t + f.F);
  }
}
