/** fma_sf: a * b + c with a single rounding. The product is kept in two words;
    the smaller term is shifted right under the larger one with a sticky bit. */
module Fma {
  import opened Bits
  import opened Ieee754
  import opened StickyBits
  import opened RoundPack
  import opened Normalize
  import opened Fields
  import opened WordArith
  import opened Addition
  import opened Multiplication

  /** A term u of the sum, in units scaled by 2^One, as the two-word mantissa m
      with its top bit at 2 * F_SIZE - 3. */
  predicate Term(f: Fmt, u: nat, exp: int, m: nat)
  {
    && Scaled(u, m, exp - f.E - f.F + f.One())
    && P(2 * f.F - 3) <= m < P(2 * f.F - 2) && m % 2 == 0
  }

  // ----- the exact sum

  lemma ScaledCombine(same: bool, u1: nat, m1: nat, e1: int, u2: nat, m2: nat, e2: int)
    requires Scaled(u1, m1, e1) && Scaled(u2, m2, e2) && e2 <= e1
    requires m2 <= Shl(m1, e1 - e2)
    ensures u2 <= u1
    ensures Scaled(Combine(same, u1, u2), Combine(same, Shl(m1, e1 - e2), m2), e2)
  {
    hide Shl;
    var d := e1 - e2;
    var n, p := Pos(-e2), Pos(e2);
    Rebalance(u1, Pos(-e1), m1, Pos(e1), n, d + p);
    ShlShl(m1, d, p);
    ShlCmp(m2, Shl(m1, d), p);
    ShlCmp(u2, u1, n);
    CombineShl(same, u1, u2, n);
    CombineShl(same, Shl(m1, d), m2, p);
  }

  lemma ScaledExact(f: Fmt, u: nat, m: nat, e: int)
    requires Scaled(u, m, e)
    ensures IsExactly(Quotient(u, P(f.One())), m, e - f.One())
  {
    hide Shl, P, IsExactly;
    var k := e - f.One();
    Rebalance(u, Pos(-e), m, Pos(e), Pos(-k), Pos(k) + f.One());
    TimesP(Shl(m, Pos(k)), f.One());
    ShlShl(m, Pos(k), f.One());
    ExactCut(Quotient(u, P(f.One())), m, k);
  }

  // ----- the shifted term

  /** c1:c0 shifted right by d. Between one and two words the code looks only at
      the high word; then the result is a positive low word, no more is known. */
  method ShiftRight2(f: Fmt, c1: nat, c0: nat, d: nat) returns (s1: nat, s0: nat)
    requires f.Word(c1) && f.Word(c0) && c1 > 0
    ensures f.Word(s1) && f.Word(s0)
    ensures d <= f.F || d >= 2 * f.F || c0 == 0 ==> Two(f, s1, s0) == Jam(Two(f, c1, c0), d)
    ensures d > f.F ==> s1 == 0 && s0 > 0
  {
    hide Shl, Shr, Low, P, Jam;
    s1, s0 := c1, c0;
    if d >= 2 * f.F {
      FarShift(f, c1, c0, d);
      s0 := OrBit(0, c0 != 0 || c1 != 0);
      s1 := 0;
    } else if d >= f.F + 1 {
      HighShift(f, c1, d);
      s0 := RshiftRnd(f, c1, d - f.F);
      s1 := 0;
    } else if d == f.F {
      JamWords(f, c1, c0);
      TwoLow(f, OrBit(c1, c0 != 0));
      PStep(f.F - 1);
      s0 := OrBit(c1, c0 != 0);
      s1 := 0;
    } else if d != 0 {
      NearShift(f, c1, c0, d);
      s0 := OrBit(Low(Shl(c1, f.F - d), f.F) + Shr(c0, d), Low(c0, d) != 0);
      s1 := Shr(c1, d);
    } else {
      JamNone(Two(f, c1, c0));
    }
  }

  lemma TwoLow(f: Fmt, lo: nat)
    ensures Two(f, 0, lo) == lo
  {
    ShlNone(0, f.F);
  }

  lemma JamNone(m: nat)
    ensures Jam(m, 0) == m
  {
    ShlNone(m, 0);
    SplitUnique(m, 0, m, 0);
  }

  lemma FarShift(f: Fmt, c1: nat, c0: nat, d: nat)
    requires f.Word(c1) && f.Word(c0) && c1 > 0 && d >= 2 * f.F
    ensures Jam(Two(f, c1, c0), d) == 1 == Two(f, 0, 1) && f.Word(1)
  {
    hide Shl, Shr, Low, P;
    TwoDigitsF(f, c1, c0);
    PMono(2 * f.F, d);
    ShlCmp(0, c1, f.F);
    ShlNone(0, f.F);
    Small(Two(f, c1, c0), d);
    PMono(1, f.F);
    PZero();
  }

  lemma TwoDigitsF(f: Fmt, hi: nat, lo: nat)
    requires f.Word(hi) && f.Word(lo)
    ensures Two(f, hi, lo) < P(2 * f.F)
  {
    TwoDigits(f.F, hi, lo);
  }

  lemma HighShift(f: Fmt, c1: nat, d: nat)
    requires f.Word(c1) && c1 > 0 && f.F < d < 2 * f.F
    ensures 0 < Jam(c1, d - f.F) && f.Word(Jam(c1, d - f.F))
    ensures Jam(Two(f, c1, 0), d) == Jam(c1, d - f.F) == Two(f, 0, Jam(c1, d - f.F))
  {
    hide Shl, Shr, Low, P;
    JamZero(c1, d - f.F);
    JamHalves(c1, d - f.F, f.F - 1);
    PStep(f.F - 1);
    TwoLow(f, Jam(c1, d - f.F));
    ShrShl(c1, f.F);
    ShrShr(Two(f, c1, 0), f.F, d - f.F);
    ShlNone(0, f.F);
    ShlCmp(0, Low(c1, d - f.F), f.F);
  }

  lemma NearShift(f: Fmt, c1: nat, c0: nat, d: nat)
    requires f.Word(c1) && f.Word(c0) && 0 < d < f.F
    ensures var s0 := OrBit(Low(Shl(c1, f.F - d), f.F) + Shr(c0, d), Low(c0, d) != 0);
            var s1 := Shr(c1, d);
            f.Word(s1) && f.Word(s0) && Two(f, s1, s0) == Jam(Two(f, c1, c0), d)
  {
    hide Shl, Shr, Low, P;
    var n := f.F - d;
    var h, l, k, m := Shr(c1, d), Low(c1, d), Shr(c0, d), Low(c0, d);
    Split(c1, d);
    Split(c0, d);
    // c1 << n is h words and l << n
    ShlAdd(Shl(h, d), l, n);
    ShlShl(h, d, n);
    ShlP(d, n);
    ShlCmp(l + 1, P(d), n);
    ShlSucc(l, n);
    SplitUnique(Shl(c1, n), f.F, h, Shl(l, n));
    ShlP(n, d);
    ShrLt(c0, d, P(n));
    var s := Shl(l, n) + k;
    assert s < P(f.F);
    // the whole, shifted
    ShlShl(c1, n, d);
    ShlAdd(Shl(c1, n), k, d);
    SplitUnique(Two(f, c1, c0), d, Shl(c1, n) + k, m);
    assert Shl(c1, n) + k == Shl(h, f.F) + s;
    ShlEven(h, f.F);
    PStep(f.F - 1);
    ShlP(f.F - d, d);
    ShrLt(c1, d, P(n));
    PMono(n, f.F);
  }

  // ----- the rounded sum

  lemma CellCompare(q: nat, n: nat, c: nat, j: nat)
    requires 0 < c < P(n)
    ensures Shl(j, n) <= Shl(q, n) + c <==> j <= q
    ensures Shl(j, n) < Shl(q, n) + c <==> j <= q
    ensures q > 0 ==> c < Shl(q, n) && (Shl(j, n) <= Shl(q, n) - c <==> j < q) && (Shl(j, n) < Shl(q, n) - c <==> j < q)
  {
    hide Shl, P;
    ShlCmp(j, q, n);
    ShlCmp(q + 1, j, n);
    ShlCmp(j + 1, q, n);
    ShlSucc(q, n);
    ShlSucc(j, n);
    ShlNone(0, n);
    ShlCmp(1, q, n);
    ShlSucc(0, n);
  }

  /** Two values strictly inside the same cell of the grid 2^F stand for each
      other: dropping the low word of the small term is harmless. */
  lemma SameCell(f: Fmt, x: Exact, same: bool, q: nat, c: nat, c': nat, e: int, d: nat)
    requires q > 0 && 0 < c < P(f.F + d) && 0 < c' < P(f.F)
    requires c <= Shl(q, f.F + d) && c' <= Shl(q, f.F)
    requires IsExactly(x, Combine(same, Shl(q, f.F + d), c), e)
    ensures StandsFor(x, Combine(same, Shl(q, f.F), c'), e + d, f.F)
  {
    hide AtLeast, Above, Shl, P, IsExactly, SameSide;
    var n, m := Combine(same, Shl(q, f.F + d), c), Combine(same, Shl(q, f.F), c');
    ExactStands(x, n, e, 0);
    var e' := e + d;
    forall j: nat
      ensures SameSide(x, m, e', f.F, j)
    {
      Compare(x, n, e, 0, j, f.F + d);
      SameCellAt(f, x, same, q, c, c', e, d, j);
    }
  }

  lemma SameCellAt(f: Fmt, x: Exact, same: bool, q: nat, c: nat, c': nat, e: int, d: nat, j: nat)
    requires q > 0 && 0 < c < P(f.F + d) && 0 < c' < P(f.F)
    requires c <= Shl(q, f.F + d) && c' <= Shl(q, f.F)
    requires SameSide(x, Combine(same, Shl(q, f.F + d), c), e, f.F + d, j)
    ensures SameSide(x, Combine(same, Shl(q, f.F), c'), e + d, f.F, j)
  {
    hide AtLeast, Above, Shl, P;
    assert e + (f.F + d) == e + d + f.F;
    CellCompare(q, f.F + d, c, j);
    CellCompare(q, f.F, c', j);
  }

  /** How the shifted term relates to the term. */
  predicate ShiftedTerm(f: Fmt, r: nat, c: nat, s: nat, d: nat)
  {
    s == Jam(c, d) || (f.F < d < 2 * f.F && 0 < s < P(f.F) && Low(r, f.F) == 0)
  }

  lemma ShiftedSmall(f: Fmt, r: nat, c: nat, s: nat, d: nat)
    requires P(2 * f.F - 3) <= r && c < P(2 * f.F - 2) && ShiftedTerm(f, r, c, s, d)
    ensures d >= 2 ==> s < P(2 * f.F - 4)
  {
    hide Jam, P, Shl, Low;
    if s == Jam(c, d) {
      if d >= 2 {
        ShlP(2 * f.F - 4, d);
        PMono(2 * f.F - 2, 2 * f.F - 4 + d);
        PStep(2 * f.F - 5);
        JamBound(c, d, P(2 * f.F - 4));
      }
    } else {
      PMono(f.F, 2 * f.F - 4);
    }
  }

  lemma FmaStands(f: Fmt, x: Exact, same: bool, r: nat, c: nat, s: nat, rExp: int, d: nat)
    requires P(2 * f.F - 3) <= r < P(2 * f.F - 2) && P(2 * f.F - 3) <= c < P(2 * f.F - 2)
    requires r % 2 == 0 && c % 2 == 0 && c <= Shl(r, d)
    requires ShiftedTerm(f, r, c, s, d)
    requires IsExactly(x, Combine(same, Shl(r, d), c), rExp - d - f.E - f.F)
    ensures s <= r && Combine(same, r, s) < P(2 * f.F - 1)
    ensures Normalized2Stands(f, x, rExp, Combine(same, r, s))
    ensures Combine(same, r, s) == 0 <==> Combine(same, Shl(r, d), c) == 0
  {
    hide P, Shl, Low, Jam, IsExactly, StandsFor, Normalized2Stands, BitLen;
    PStep(2 * f.F - 2);
    PStep(2 * f.F - 3);
    PStep(2 * f.F - 4);
    var e := rExp - f.E - f.F;
    ShiftedSmall(f, r, c, s, d);
    if d == 0 {
      JamNone(c);
      ShlNone(r, 0);
      ExactNormalizes2(f, x, rExp, Combine(same, r, s));
    } else if d == 1 {
      JamExactHalf(c);
      ShlOne(r);
      ExactHalf(x, Combine(same, r, s), e - 1);
      ExactNormalizes2(f, x, rExp, Combine(same, r, s));
    } else {
      ShlGrows(r, 2, d);
      ShlOne(r); ShlShl(r, 1, 1); ShlOne(2 * r);
      StickyTerm(f, x, same, r, c, s, e, d);
      var g := if s == Jam(c, d) then 1 else f.F;
      BitLenMin(Combine(same, r, s), 2 * f.F - 3);
      StickyNormalizes2(f, x, rExp, Combine(same, r, s), g);
    }
  }

  lemma JamExactHalf(c: nat)
    requires c % 2 == 0
    ensures 2 * Jam(c, 1) == c
  {
    ShlOne(c / 2);
    SplitUnique(c, 1, c / 2, 0);
  }

  lemma StickyTerm(f: Fmt, x: Exact, same: bool, r: nat, c: nat, s: nat, e: int, d: nat)
    requires r % 2 == 0 && P(2 * f.F - 3) <= r && 0 < c < P(2 * f.F - 2) && c <= Shl(r, d) && s <= r
    requires ShiftedTerm(f, r, c, s, d)
    requires IsExactly(x, Combine(same, Shl(r, d), c), e - d)
    ensures StandsFor(x, Combine(same, r, s), e, if s == Jam(c, d) then 1 else f.F)
  {
    hide P, Shl, Shr, Low, Jam, IsExactly, StandsFor;
    if s == Jam(c, d) {
      ExactStands(x, Combine(same, Shl(r, d), c), e - d, 0);
      ShiftRight(x, Combine(same, Shl(r, d), c), e - d, 0, d, 1);
      JamAdd(r, c, d);
      JamSub(r, c, d);
    } else {
      var q := Shr(r, f.F);
      Split(r, f.F);
      ShlShl(q, f.F, d);
      ShlNone(0, f.F);
      PMono(2 * f.F - 2, f.F + d);
      SameCell(f, x, same, q, c, s, e - d, d);
    }
  }

  // ----- two-word addition and subtraction with wrap-around

  lemma AddWords(f: Fmt, r1: nat, r0: nat, c1: nat, c0: nat)
    requires f.Word(r0) && f.Word(c0)
    ensures var s0 := Low(r0 + c0, f.F);
            Two(f, r1 + c1 + (if s0 < c0 then 1 else 0), s0) == Two(f, r1, r0) + Two(f, c1, c0)
  {
    hide Shl, Low, P, Shr;
    ShlAdd(r1, c1, f.F);
    ShlSucc(r1 + c1, f.F);
    ShlP(0, f.F);
    PZero();
    if r0 + c0 < P(f.F) {
      Small(r0 + c0, f.F);
    } else {
      SplitUnique(r0 + c0, f.F, 1, r0 + c0 - P(f.F));
    }
  }

  lemma SubWords(f: Fmt, r1: nat, r0: nat, c1: nat, c0: nat)
    requires f.Word(r0) && f.Word(c0) && Two(f, c1, c0) <= Two(f, r1, r0)
    ensures var s0 := Low(r0 + P(f.F) - c0, f.F);
            var borrow := if s0 > r0 then 1 else 0;
            c1 + borrow <= r1 && Two(f, r1 - c1 - borrow, s0) == Two(f, r1, r0) - Two(f, c1, c0)
  {
    hide Shl, Low, P, Shr;
    ShlP(0, f.F);
    PZero();
    ShlCmp(r1 + 1, c1, f.F);
    ShlSucc(r1, f.F);
    ShlCmp(c1, r1, f.F);
    if c0 <= r0 {
      SplitUnique(r0 + P(f.F) - c0, f.F, 1, r0 - c0);
      ShlSub(r1, c1, f.F);
    } else {
      Small(r0 + P(f.F) - c0, f.F);
      ShlCmp(c1 + 1, r1, f.F);
      ShlSucc(c1, f.F);
      ShlSub(r1, c1 + 1, f.F);
    }
  }

  // ----- the method

  /** The sum of two ordered terms. */
  method AddTerms(f: Fmt, rm: Mode, acc: Flags, rSign: bool, rExp: int, r1: nat, r0: nat,
                  cSign: bool, cExp: int, c1: nat, c0: nat, ghost ur: nat, ghost uc: nat)
    returns (r: nat, fl: Flags)
    requires f.Word(r1) && f.Word(r0) && f.Word(c1) && f.Word(c0)
    requires Term(f, ur, rExp, Two(f, r1, r0)) && Term(f, uc, cExp, Two(f, c1, c0))
    requires cExp <= rExp && (cExp == rExp ==> Two(f, c1, c0) <= Two(f, r1, r0))
    requires r0 == 0 || c0 == 0
    ensures var v := Signed(rSign, ur) + Signed(cSign, uc);
            RoundsTo(f, rm, SumSign(rm, rSign, cSign, v), Quotient(Abs(v), P(f.One())), acc, r, fl)
  {
    hide Shl, Shr, Low, P, RoundsTo, Scaled, IsExactly, Normalized2Stands, Jam;
    var d := rExp - cExp;
    var same := rSign == cSign;
    ghost var R, C := Two(f, r1, r0), Two(f, c1, c0);
    TermOrder(f, R, C, d);
    ScaledCombine(same, ur, R, rExp - f.E - f.F + f.One(), uc, C, cExp - f.E - f.F + f.One());
    ghost var u := Combine(same, ur, uc);
    ghost var x := Quotient(u, P(f.One()));
    ScaledExact(f, u, Combine(same, Shl(R, d), C), cExp - f.E - f.F + f.One());
    HighWord(f, c1, c0);
    var s1, s0 := ShiftRight2(f, c1, c0, d);
    ShiftedWords(f, r1, r0, C, s1, s0, d);
    FmaStands(f, x, same, R, C, Two(f, s1, s0), rExp, d);
    AddWords(f, r1, r0, s1, s0);
    SubWords(f, r1, r0, s1, s0);
    var m1, m0, sign := r1, r0, rSign;
    if same {
      m0 := Low(r0 + s0, f.F);
      m1 := r1 + s1 + (if m0 < s0 then 1 else 0);
    } else {
      m0 := Low(r0 + P(f.F) - s0, f.F);
      m1 := r1 - s1 - (if m0 > r0 then 1 else 0);
      if m0 == 0 && m1 == 0 {
        sign := rm == RDN;
      }
    }
    TwoRange(f, m1, m0);
    TermSign(f, rm, rSign, cSign, ur, uc, m1, m0, sign, Combine(same, Shl(R, d), C), cExp - f.E - f.F + f.One());
    r, fl := Normalize2Sf(f, sign, rExp, m1, m0, rm, acc, x);
  }

  lemma TermOrder(f: Fmt, R: nat, C: nat, d: nat)
    requires P(2 * f.F - 3) <= R && C < P(2 * f.F - 2) && (d == 0 ==> C <= R)
    ensures C <= Shl(R, d)
  {
    hide Shl, P;
    ShlNone(R, 0);
    if d > 0 {
      ShlGrows(R, 1, d);
      ShlOne(R);
      PStep(2 * f.F - 3);
    }
  }

  lemma HighWord(f: Fmt, c1: nat, c0: nat)
    requires f.Word(c0) && P(2 * f.F - 3) <= Two(f, c1, c0)
    ensures c1 > 0
  {
    ShlNone(0, f.F);
    PMono(f.F, 2 * f.F - 3);
  }

  lemma ShiftedWords(f: Fmt, r1: nat, r0: nat, C: nat, s1: nat, s0: nat, d: nat)
    requires f.Word(r0) && f.Word(s0)
    requires Two(f, s1, s0) == Jam(C, d) || (f.F < d < 2 * f.F && s1 == 0 && s0 > 0 && r0 == 0)
    ensures ShiftedTerm(f, Two(f, r1, r0), C, Two(f, s1, s0), d)
  {
    hide Shl, Low, P, Jam, Shr;
    TwoLow(f, s0);
    SplitUnique(Two(f, r1, r0), f.F, r1, r0);
  }

  lemma TwoRange(f: Fmt, m1: nat, m0: nat)
    requires f.Word(m0) && Two(f, m1, m0) < P(2 * f.F - 1)
    ensures m1 < P(f.F - 1)
    ensures m1 == 0 && m0 == 0 <==> Two(f, m1, m0) == 0
  {
    hide Shl, P, Shr, Low;
    SplitUnique(Two(f, m1, m0), f.F, m1, m0);
    ShlP(f.F - 1, f.F);
    ShrLt(Two(f, m1, m0), f.F, P(f.F - 1));
    ShlNone(0, f.F);
    ShlCmp(0, m1, f.F);
  }

  lemma TermSign(f: Fmt, rm: Mode, rSign: bool, cSign: bool, ur: nat, uc: nat, m1: nat, m0: nat, sign: bool, t: nat,
                 e: int)
    requires uc <= ur && Scaled(Combine(rSign == cSign, ur, uc), t, e)
    requires (m1 == 0 && m0 == 0) <==> t == 0
    requires sign == (if rSign != cSign && m1 == 0 && m0 == 0 then rm == RDN else rSign)
    ensures var v := Signed(rSign, ur) + Signed(cSign, uc);
            Abs(v) == Combine(rSign == cSign, ur, uc) && sign == SumSign(rm, rSign, cSign, v)
  {
    hide Shl;
    var u := Combine(rSign == cSign, ur, uc);
    ShlNone(0, Pos(e));
    ShlNone(0, Pos(-e));
    ShlCmp(0, u, Pos(-e));
    ShlCmp(0, t, Pos(e));
  }

  /** The product of two operands as a two-word term. */
  method ProductTerm(f: Fmt, a: nat, b: nat) returns (rExp: int, r1: nat, r0: nat)
    requires f.IsFinite(a) && f.IsFinite(b) && f.Units(a) != 0 && f.Units(b) != 0
    ensures f.Word(r1) && f.Word(r0)
    ensures Term(f, Product(f.Units(a), f.Units(b)), rExp, Two(f, r1, r0))
  {
    hide Shl, Shr, Low, P, Scaled, Product;
    var aExp, aMant := NormalizeOperand(f, a);
    var bExp, bMant := NormalizeOperand(f, b);
    OneIs(f);
    rExp := aExp + bExp - P(f.E - 1) + 3;
    MantissaFits(f, aMant, Rnd(f));
    MantissaFits(f, bMant, Rnd(f));
    r1, r0 := MulU(f.F / 2, Shl(aMant, Rnd(f)), Shl(bMant, Rnd(f)));
    ProductScaled(f, f.Units(a), aMant, aExp - 1, f.Units(b), bMant, bExp - 1, 2 * Rnd(f), r1, r0);
    if r1 < P(f.F - 3) {
      LowHalf(f, r1, r0);
      ScaledDouble(Product(f.Units(a), f.Units(b)), Two(f, r1, r0), rExp - f.E - f.F + f.One());
      r1 := Shl(r1, 1) + Shr(r0, f.F - 1);
      r0 := Low(Shl(r0, 1), f.F);
      rExp := rExp - 1;
    } else {
      HighHalf(f, r1, r0);
    }
  }

  lemma ScaledDouble(u: nat, m: nat, e: int)
    requires Scaled(u, m, e)
    ensures Scaled(u, Shl(m, 1), e - 1)
  {
    hide Shl;
    Rebalance(u, Pos(-e), m, Pos(e), Pos(1 - e), Pos(e - 1) + 1);
    ShlShl(m, 1, Pos(e - 1));
  }

  lemma ProductScaled(f: Fmt, ua: nat, ma: nat, ea: int, ub: nat, mb: nat, eb: int, s: nat, hi: nat, lo: nat)
    requires P(f.M) <= ma < P(f.M + 1) && P(f.M) <= mb < P(f.M + 1)
    requires Scaled(ua, ma, ea) && Scaled(ub, mb, eb) && s == 2 * Rnd(f)
    requires Two(f, hi, lo) == Shl(ma, Rnd(f)) * Shl(mb, Rnd(f))
    ensures Scaled(Product(ua, ub), Two(f, hi, lo), ea + eb - s)
    ensures P(2 * f.F - 4) <= Two(f, hi, lo) < P(2 * f.F - 2) && Two(f, hi, lo) % 2 == 0
  {
    hide Shl, P;
    var k := ea + eb - s;
    ShlMul(ma, Rnd(f), mb, Rnd(f));
    ShlMul(ua, Pos(-ea), ub, Pos(-eb));
    ShlMul(ma, Pos(ea), mb, Pos(eb));
    Rebalance(ua * ub, Pos(-ea) + Pos(-eb), ma * mb, Pos(ea) + Pos(eb), Pos(-k), Pos(k) + s);
    ShlShl(ma * mb, s, Pos(k));
    MulRange(f, ma, mb);
    ShlCmp(P(2 * f.M), ma * mb, s);
    ShlCmp(ma * mb, P(2 * f.M + 2), s);
    ShlP(2 * f.M, s);
    ShlP(2 * f.M + 2, s);
    ShlEven(ma * mb, s);
  }

  lemma LowHalf(f: Fmt, r1: nat, r0: nat)
    requires f.Word(r0) && r1 < P(f.F - 3) && P(2 * f.F - 4) <= Two(f, r1, r0)
    ensures var m1, m0 := Shl(r1, 1) + Shr(r0, f.F - 1), Low(Shl(r0, 1), f.F);
            && Two(f, m1, m0) == Shl(Two(f, r1, r0), 1) && f.Word(m1) && f.Word(m0)
            && P(2 * f.F - 3) <= Two(f, m1, m0) < P(2 * f.F - 2) && Two(f, m1, m0) % 2 == 0
  {
    hide Shl, P, Shr, Low;
    var d := Two(f, r1, r0);
    Shl2(f, r1, r0, 1);
    Split(Shl(d, 1), f.F);
    ShlOne(d);
    ShlP(f.F - 3, f.F);
    ShlCmp(r1 + 1, P(f.F - 3), f.F);
    ShlSucc(r1, f.F);
    PStep(2 * f.F - 4);
    PStep(2 * f.F - 3);
    ShlOne(r1);
    PStep(f.F - 3);
    PMono(f.F - 2, f.F);
    PZero();
  }

  lemma HighHalf(f: Fmt, r1: nat, r0: nat)
    requires f.Word(r0) && r1 >= P(f.F - 3)
    ensures P(2 * f.F - 3) <= Two(f, r1, r0)
  {
    hide Shl, P;
    ShlP(f.F - 3, f.F);
    ShlCmp(P(f.F - 3), r1, f.F);
  }

  /** Adding a zero: the product alone is rounded. */
  method RoundTerm(f: Fmt, rm: Mode, acc: Flags, sign: bool, rExp: int, r1: nat, r0: nat, ghost u: nat)
    returns (r: nat, fl: Flags)
    requires f.Word(r1) && f.Word(r0) && Term(f, u, rExp, Two(f, r1, r0))
    ensures RoundsTo(f, rm, sign, Quotient(u, P(f.One())), acc, r, fl)
  {
    hide Shl, P, RoundsTo, Scaled, IsExactly, NormalizedStands, StandsFor, Jam, BitLen;
    ghost var x := Quotient(u, P(f.One()));
    ScaledExact(f, u, Two(f, r1, r0), rExp - f.E - f.F + f.One());
    ExactStands(x, Two(f, r1, r0), rExp - f.E - f.F, 0);
    ShiftRight(x, Two(f, r1, r0), rExp - f.E - f.F, 0, f.F, 1);
    JamWords(f, r1, r0);
    PMono(2 * f.F - 2, 2 * f.F - 1);
    FoldedRange(f, r1, r0);
    var m := OrBit(r1, r0 != 0);
    BitLenMin(m, f.F - 2);
    StickyNormalizes(f, x, rExp, m, 1);
    r, fl := NormalizeSf(f, sign, rExp, m, rm, acc, x);
  }

  /** A normalized operand as a two-word term with an empty low word. */
  lemma AddendTerm(f: Fmt, u: nat, exp: int, m: nat)
    requires P(f.M) <= m < P(f.M + 1) && Scaled(u, m, exp - 1)
    ensures var c1 := Shl(m, Rnd(f) - 1);
            f.Word(c1) && Term(f, Shl(u, f.One()), exp + 1, Two(f, c1, 0))
  {
    hide Shl, P;
    var s, e := Rnd(f) - 1, exp - 1;
    var one := f.One();
    ShlCmp(P(f.M), m, s);
    ShlCmp(m, P(f.M + 1), s);
    ShlP(f.M, s);
    ShlP(f.M + 1, s);
    PMono(f.F - 2, f.F);
    ShlShl(m, s, f.F);
    ShlCmp(P(f.F - 3), Shl(m, s), f.F);
    ShlCmp(Shl(m, s), P(f.F - 2), f.F);
    ShlP(f.F - 3, f.F);
    ShlP(f.F - 2, f.F);
    ShlEven(m, s + f.F);
    var k := exp + 1 - f.E - f.F + one;
    Rebalance(u, Pos(-e), m, Pos(e), one + Pos(-k), s + f.F + Pos(k));
    ShlShl(u, one, Pos(-k));
    ShlShl(m, s + f.F, Pos(k));
  }

  method FmaFinite(f: Fmt, a: nat, b: nat, c: nat, rm: Mode, acc: Flags) returns (r: nat, fl: Flags)
    requires f.IsFinite(a) && f.IsFinite(b) && f.IsFinite(c) && f.Units(a) != 0 && f.Units(b) != 0
    ensures var sign := f.Sign(a) != f.Sign(b);
            var v := Signed(sign, Product(f.Units(a), f.Units(b))) + Signed(f.Sign(c), Shl(f.Units(c), f.One()));
            RoundsTo(f, rm, SumSign(rm, sign, f.Sign(c), v), Quotient(Abs(v), P(f.One())), acc, r, fl)
  {
    hide Shl, Shr, Low, P, RoundsTo, Scaled, Product, Term;
    var rSign := f.Sign(a) != f.Sign(b);
    var cSign := f.Sign(c);
    var rExp, r1, r0 := ProductTerm(f, a, b);
    ghost var ur, uc := Product(f.Units(a), f.Units(b)), Shl(f.Units(c), f.One());
    FiniteZero(f, c);
    if f.Exp(c) == 0 && f.Frac(c) == 0 {
      ShlNone(0, f.One());
      TermPositive(f, ur, rExp, Two(f, r1, r0));
      r, fl := RoundTerm(f, rm, acc, rSign, rExp, r1, r0, ur);
      return;
    }
    var cExp, cMant := NormalizeOperand(f, c);
    AddendTerm(f, f.Units(c), cExp, cMant);
    cExp := cExp + 1;
    var c1 := Shl(cMant, Rnd(f) - 1);
    TwoOrder(f, r1, r0, c1);
    if rExp > cExp || (rExp == cExp && r1 >= c1) {
      r, fl := AddTerms(f, rm, acc, rSign, rExp, r1, r0, cSign, cExp, c1, 0, ur, uc);
    } else {
      r, fl := AddTerms(f, rm, acc, cSign, cExp, c1, 0, rSign, rExp, r1, r0, uc, ur);
    }
  }

  lemma TermPositive(f: Fmt, u: nat, exp: int, m: nat)
    requires Term(f, u, exp, m)
    ensures u > 0
  {
    hide Shl, P;
    var e := exp - f.E - f.F + f.One();
    ShlNone(0, Pos(-e));
    ShlNone(0, Pos(e));
    ShlCmp(0, m, Pos(e));
  }

  lemma TwoOrder(f: Fmt, r1: nat, r0: nat, c1: nat)
    requires f.Word(r0)
    ensures r1 >= c1 ==> Two(f, c1, 0) <= Two(f, r1, r0)
    ensures r1 < c1 ==> Two(f, r1, r0) <= Two(f, c1, 0)
  {
    hide Shl, P;
    ShlCmp(c1, r1, f.F);
    ShlCmp(r1 + 1, c1, f.F);
    ShlSucc(r1, f.F);
  }

  /** A finite value, scaled by 2^One over 2^One, rounds to itself. */
  lemma SelfRounds(f: Fmt, rm: Mode, c: nat, acc: Flags)
    requires f.Word(c) && f.IsFinite(c)
    ensures RoundsTo(f, rm, f.Sign(c), Quotient(Shl(f.Units(c), f.One()), P(f.One())), acc, c, acc)
  {
    hide Shl, Shr, Low, P, RoundsTo;
    var x := Quotient(Shl(f.Units(c), f.One()), P(f.One()));
    var t, k := f.Significand(c), f.Scale(c) - 1;
    SignificandRange(f, c);
    MagnitudeFields(f, c);
    Unpack(f, c);
    TimesP(Shl(t, k), f.One());
    ShlNone(Shl(f.Units(c), f.One()), 0);
    NoOverflow(f, c);
    ExactRounds(f, rm, f.Sign(c), x, t, k, acc);
    if f.Exp(c) == 0 {
      ShlNone(0, f.M);
    } else {
      ShlSucc(k, f.M);
    }
  }

  lemma NoOverflow(f: Fmt, c: nat)
    requires f.IsFinite(c)
    ensures !Overflows(f, f.Significand(c), f.Scale(c) - 1)
  {
    hide Shl, Shr, Low, P;
    SignificandRange(f, c);
    MagnitudeFields(f, c);
    var t, k := f.Significand(c), f.Scale(c) - 1;
    ShlCmp(t, P(f.M + 1), k);
    ShlP(f.M + 1, k);
    OneIs(f);
    PMono(f.M + 1 + k, f.M + P(f.E) - 2);
  }

  method FmaSf(f: Fmt, a: nat, b: nat, c: nat, rm: Mode, acc: Flags) returns (r: nat, fl: Flags)
    requires f.Word(a) && f.Word(b) && f.Word(c)
    ensures IsFusedMultiplyAdd(f, rm, a, b, c, acc, r, fl)
  {
    hide Shl, Shr, Low, P, RoundsTo, Product, PackSf;
    var aInf, bInf, cInf := f.Exp(a) == f.ExpMask(), f.Exp(b) == f.ExpMask(), f.Exp(c) == f.ExpMask();
    var aZero, bZero := f.Exp(a) == 0 && f.Frac(a) == 0, f.Exp(b) == 0 && f.Frac(b) == 0;
    FiniteZero(f, a);
    FiniteZero(f, b);
    FiniteZero(f, c);
    OneIs(f);
    if aInf || bInf || cInf {
      r, fl := FmaSpecial(f, a, b, c, rm, acc);
      return;
    }
    if aZero || bZero {
      ZeroProduct(f.Units(a), f.Units(b));
      r := FmaZero(f, a, b, c, rm, acc);
      return r, acc;
    }
    r, fl := FmaFinite(f, a, b, c, rm, acc);
  }

  method FmaZero(f: Fmt, a: nat, b: nat, c: nat, rm: Mode, ghost acc: Flags) returns (r: nat)
    requires f.Word(c) && f.IsFinite(c)
    ensures var sign := f.Sign(a) != f.Sign(b);
            var v := Signed(sign, 0) + Signed(f.Sign(c), Shl(f.Units(c), f.One()));
            RoundsTo(f, rm, SumSign(rm, sign, f.Sign(c), v), Quotient(Abs(v), P(f.One())), acc, r, acc)
  {
    hide Shl, Shr, Low, P, RoundsTo, PackSf;
    var sign := f.Sign(a) != f.Sign(b);
    FiniteZero(f, c);
    ShlNone(0, f.One());
    ShlCmp(0, f.Units(c), f.One());
    if f.Exp(c) == 0 && f.Frac(c) == 0 {
      if f.Sign(c) != sign {
        sign := rm == RDN;
      }
      PackInfZero(f, sign);
      ZeroRounds(f, rm, sign, P(f.One()), acc);
      r := PackSf(f, sign, 0, 0);
    } else {
      SelfRounds(f, rm, c, acc);
      r := c;
    }
  }

  /** Some operand is an infinity or a NaN. */
  method FmaSpecial(f: Fmt, a: nat, b: nat, c: nat, rm: Mode, acc: Flags) returns (r: nat, fl: Flags)
    requires !f.IsFinite(a) || !f.IsFinite(b) || !f.IsFinite(c)
    ensures IsFusedMultiplyAdd(f, rm, a, b, c, acc, r, fl)
  {
    hide Shl, Shr, Low, P, RoundsTo, Product, PackSf, SumSign;
    var aInf, bInf := f.Exp(a) == f.ExpMask(), f.Exp(b) == f.ExpMask();
    var aZero, bZero := f.Exp(a) == 0 && f.Frac(a) == 0, f.Exp(b) == 0 && f.Frac(b) == 0;
    FiniteZero(f, a);
    FiniteZero(f, b);
    OneIs(f);
    fl := acc;
    if (aZero && bInf && f.Frac(b) == 0) || (bZero && aInf && f.Frac(a) == 0) {
      return f.QNan(), fl.(invalid := true);
    }
    if f.IsNan(a) || f.IsNan(b) || f.IsNan(c) {
      if IsSignanSf(f, a) || IsSignanSf(f, b) || IsSignanSf(f, c) {
        fl := fl.(invalid := true);
      }
      return f.QNan(), fl;
    }
    r, fl := FmaInfinite(f, a, b, c, rm, acc);
  }

  /** Some operand is an infinity and none is a NaN. */
  method FmaInfinite(f: Fmt, a: nat, b: nat, c: nat, rm: Mode, acc: Flags) returns (r: nat, fl: Flags)
    requires !f.IsNan(a) && !f.IsNan(b) && !f.IsNan(c)
    requires f.IsInf(a) || f.IsInf(b) || f.IsInf(c)
    ensures IsFusedMultiplyAdd(f, rm, a, b, c, acc, r, fl)
  {
    hide Shl, Shr, Low, P, RoundsTo, Product, PackSf, SumSign;
    var aInf, bInf, cInf := f.Exp(a) == f.ExpMask(), f.Exp(b) == f.ExpMask(), f.Exp(c) == f.ExpMask();
    var aZero, bZero := f.Exp(a) == 0 && f.Frac(a) == 0, f.Exp(b) == 0 && f.Frac(b) == 0;
    var sign := f.Sign(a) != f.Sign(b);
    FiniteZero(f, a);
    FiniteZero(f, b);
    OneIs(f);
    PackInfZero(f, sign);
    PackInfZero(f, f.Sign(c));
    if (aInf && bZero) || (bInf && aZero) || ((aInf || bInf) && cInf && sign != f.Sign(c)) {
      return f.QNan(), acc.(invalid := true);
    } else if cInf {
      return PackSf(f, f.Sign(c), f.ExpMask(), 0), acc;
    } else {
      return PackSf(f, sign, f.ExpMask(), 0), acc;
    }
  }
}
