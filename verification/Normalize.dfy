/** normalize_sf, normalize2_sf and normalize_subnormal_sf: shifting a mantissa,
    of one or two words, so that its top bit is where rounding expects it. */
module Normalize {
  import opened Bits
  import opened Ieee754
  import opened StickyBits
  import opened RoundPack

  /** The number of bits of a. */
  function BitLen(a: nat): (n: nat)
    ensures a < P(n)
    ensures n > 0 ==> P(n - 1) <= a
    ensures n == 0 <==> a == 0
  {
    if a == 0 then 0 else 1 + BitLen(a / 2)
  }

  lemma BitLenMax(a: nat, n: nat)
    requires a < P(n)
    ensures BitLen(a) <= n
  {
    hide P, BitLen;
    var l := BitLen(a);
    if l > n { PMono(n, l - 1); }
  }

  lemma BitLenMin(a: nat, n: nat)
    requires n > 0 && P(n - 1) <= a
    ensures BitLen(a) >= n
  {
    hide P, BitLen;
    var l := BitLen(a);
    if l < n { PMono(l, n - 1); }
  }

  lemma BitLenUnique(a: nat, n: nat)
    requires n > 0 && P(n - 1) <= a < P(n)
    ensures BitLen(a) == n
  {
    hide P, BitLen;
    BitLenMax(a, n);
    BitLenMin(a, n);
  }

  /** Count leading zeros; the word size for zero. */
  function Clz(f: Fmt, a: nat): nat
    requires f.Word(a)
  {
    BitLenMax(a, f.F);
    f.F - BitLen(a)
  }

  /** The distance a mantissa of n bits is moved up. */
  lemma NormalShl(m: nat, n: nat)
    requires 0 < BitLen(m) <= n
    ensures P(n - 1) <= Shl(m, n - BitLen(m)) < P(n)
  {
    hide Shl, P, BitLen;
    var l := BitLen(m);
    ShlCmp(P(l - 1), m, n - l);
    ShlCmp(m, P(l), n - l);
    ShlP(l - 1, n - l);
    ShlP(l, n - l);
  }

  /** The mantissa, moved up until its top bit is at F_SIZE - 2, stands for x. */
  ghost predicate NormalizedStands(f: Fmt, x: Exact, exp: int, m: nat)
  {
    BitLen(m) <= f.F - 1 &&
    var s := f.F - 1 - BitLen(m);
    StandsFor(x, Shl(m, s), exp - s - f.E, Rnd(f) - 1)
  }

  lemma ExactNormalizes(f: Fmt, x: Exact, exp: int, m: nat)
    requires m < P(f.F - 1) && IsExactly(x, m, exp - f.E)
    ensures NormalizedStands(f, x, exp, m)
  {
    hide IsExactly, StandsFor, Shl, P, BitLen;
    BitLenMax(m, f.F - 1);
    var s := f.F - 1 - BitLen(m);
    ExactShl(x, m, exp - f.E, s);
    assert exp - f.E - s == exp - s - f.E;
    ExactStands(x, Shl(m, s), exp - s - f.E, Rnd(f) - 1);
  }

  /** A sticky mantissa may move up as long as its grid stays below the rounding bit. */
  lemma StickyNormalizes(f: Fmt, x: Exact, exp: int, m: nat, g: nat)
    requires m < P(f.F - 1) && StandsFor(x, m, exp - f.E, g)
    requires g + f.F - 1 - BitLen(m) <= Rnd(f) - 1
    ensures NormalizedStands(f, x, exp, m)
  {
    hide StandsFor, Shl, P, BitLen;
    BitLenMax(m, f.F - 1);
    var s := f.F - 1 - BitLen(m);
    ShiftLeft(x, m, exp - f.E, g, s);
    assert exp - f.E - s == exp - s - f.E;
    Coarsen(x, Shl(m, s), exp - s - f.E, g + s, Rnd(f) - 1);
  }

  method NormalizeSf(f: Fmt, sign: bool, aExp: int, aMant: nat, rm: Mode, acc: Flags, ghost x: Exact)
    returns (r: nat, fl: Flags)
    requires Proper(x) && aMant < P(f.F - 1)
    requires NormalizedStands(f, x, aExp, aMant)
    ensures RoundsTo(f, rm, sign, x, acc, r, fl)
  {
    hide StandsFor, RoundsTo, Shl, P, BitLen;
    PMono(f.F - 1, f.F);
    var shift := Clz(f, aMant) - 1;
    assert shift == f.F - 1 - BitLen(aMant);
    if aMant > 0 { NormalShl(aMant, f.F - 1); } else { ShlNone(0, shift); }
    r, fl := RoundPackSf(f, sign, aExp - shift, Shl(aMant, shift), rm, acc, x);
  }

  // ----- two words

  function Two(f: Fmt, hi: nat, lo: nat): nat { Shl(hi, f.F) + lo }

  /** The two-word value, moved up until its top bit is at 2 * F_SIZE - 2, with
      the low word folded into a sticky bit, stands for x. */
  ghost predicate Normalized2Stands(f: Fmt, x: Exact, exp: int, d: nat)
  {
    BitLen(d) <= 2 * f.F - 1 &&
    var s := 2 * f.F - 1 - BitLen(d);
    StandsFor(x, Jam(Shl(d, s), f.F), exp - s - f.E, Rnd(f) - 1)
  }

  lemma ExactNormalizes2(f: Fmt, x: Exact, exp: int, d: nat)
    requires d < P(2 * f.F - 1) && IsExactly(x, d, exp - f.E - f.F)
    ensures Normalized2Stands(f, x, exp, d)
  {
    hide IsExactly, StandsFor, Shl, P, Jam, BitLen;
    BitLenMax(d, 2 * f.F - 1);
    var s := 2 * f.F - 1 - BitLen(d);
    ExactShl(x, d, exp - f.E - f.F, s);
    ExactStands(x, Shl(d, s), exp - f.E - f.F - s, 0);
    ShiftRight(x, Shl(d, s), exp - f.E - f.F - s, 0, f.F, Rnd(f) - 1);
    assert exp - f.E - f.F - s + f.F == exp - s - f.E;
  }

  lemma StickyNormalizes2(f: Fmt, x: Exact, exp: int, d: nat, g: nat)
    requires d < P(2 * f.F - 1) && StandsFor(x, d, exp - f.E - f.F, g)
    requires g + 2 * f.F - 1 - BitLen(d) <= f.F + Rnd(f) - 1
    ensures Normalized2Stands(f, x, exp, d)
  {
    hide StandsFor, Shl, P, Jam, BitLen;
    BitLenMax(d, 2 * f.F - 1);
    var s := 2 * f.F - 1 - BitLen(d);
    ShiftLeft(x, d, exp - f.E - f.F, g, s);
    ShiftRight(x, Shl(d, s), exp - f.E - f.F - s, g + s, f.F, Rnd(f) - 1);
    assert exp - f.E - f.F - s + f.F == exp - s - f.E;
  }

  lemma BitLenTwo(f: Fmt, hi: nat, lo: nat)
    requires f.Word(lo) && f.Word(hi)
    ensures BitLen(Two(f, hi, lo)) == if hi == 0 then BitLen(lo) else f.F + BitLen(hi)
  {
    hide Shl, P, BitLen;
    if hi == 0 {
      ShlNone(0, f.F);
    } else {
      var l := BitLen(hi);
      ShlP(l - 1, f.F);
      ShlP(l, f.F);
      ShlCmp(P(l - 1), hi, f.F);
      ShlCmp(hi + 1, P(l), f.F);
      ShlSucc(hi, f.F);
      BitLenUnique(Two(f, hi, lo), f.F + l);
    }
  }

  /** Shifting two words up by less than a word: the carry moves across. */
  lemma Shl2(f: Fmt, hi: nat, lo: nat, s: nat)
    requires f.Word(lo) && s < f.F
    ensures Shr(Shl(Two(f, hi, lo), s), f.F) == Shl(hi, s) + Shr(lo, f.F - s)
    ensures Low(Shl(Two(f, hi, lo), s), f.F) == Low(Shl(lo, s), f.F)
    ensures Shr(lo, f.F - s) < P(s)
  {
    hide Shl, Shr, Low, P;
    var a, b := Shr(lo, f.F - s), Low(lo, f.F - s);
    Split(lo, f.F - s);
    ShlAdd(Shl(a, f.F - s), b, s);
    ShlShl(a, f.F - s, s);
    ShlP(f.F - s, s);
    ShlCmp(b, P(f.F - s), s);
    SplitUnique(Shl(lo, s), f.F, a, Shl(b, s));
    ShlAdd(Shl(hi, f.F), lo, s);
    ShlShl(hi, f.F, s);
    ShlShl(hi, s, f.F);
    ShlAdd(Shl(hi, s), a, f.F);
    SplitUnique(Shl(Two(f, hi, lo), s), f.F, Shl(hi, s) + a, Shl(b, s));
    ShlP(s, f.F - s);
    ShrLt(lo, f.F - s, P(s));
  }

  lemma Shl2Far(f: Fmt, lo: nat, s: nat)
    requires s >= f.F
    ensures Jam(Shl(Two(f, 0, lo), s), f.F) == Shl(lo, s - f.F)
  {
    hide Shl, Shr, Low, P;
    ShlNone(0, f.F);
    ShlShl(lo, s - f.F, f.F);
    ShrShl(Shl(lo, s - f.F), f.F);
  }

  method Normalize2Sf(f: Fmt, sign: bool, aExp: int, aMant1: nat, aMant0: nat, rm: Mode, acc: Flags, ghost x: Exact)
    returns (r: nat, fl: Flags)
    requires Proper(x) && aMant1 < P(f.F - 1) && f.Word(aMant0)
    requires Normalized2Stands(f, x, aExp, Two(f, aMant1, aMant0))
    ensures RoundsTo(f, rm, sign, x, acc, r, fl)
  {
    hide StandsFor, RoundsTo, Shl, Shr, Low, P, Jam, BitLen, Normal;
    PMono(f.F - 1, f.F);
    var mant1, mant0 := aMant1, aMant0;
    var l := if mant1 == 0 then f.F + Clz(f, mant0) else Clz(f, mant1);
    var shift := l - 1;
    ghost var d := Two(f, mant1, mant0);
    BitLenTwo(f, mant1, mant0);
    BitLenMax(mant1, f.F - 1);
    assert shift == 2 * f.F - 1 - BitLen(d);
    Fold(f, d, shift);
    FoldWords(f, mant1, mant0, shift);
    if shift == 0 {
      mant1 := OrBit(mant1, mant0 != 0);
    } else if shift < f.F {
      mant1 := Shl(mant1, shift) + Shr(mant0, f.F - shift);
      mant0 := Low(Shl(mant0, shift), f.F);
      mant1 := OrBit(mant1, mant0 != 0);
    } else {
      mant1 := Shl(mant0, shift - f.F);
    }
    assert mant1 == Jam(Shl(d, shift), f.F);
    r, fl := RoundPackSf(f, sign, aExp - shift, mant1, rm, acc, x);
  }

  /** The three ways the words are combined all give the folded mantissa. */
  lemma FoldWords(f: Fmt, hi: nat, lo: nat, s: nat)
    requires f.Word(lo) && (s >= f.F ==> hi == 0)
    ensures Jam(Shl(Two(f, hi, lo), s), f.F) ==
            if s == 0 then OrBit(hi, lo != 0)
            else if s < f.F then OrBit(Shl(hi, s) + Shr(lo, f.F - s), Low(Shl(lo, s), f.F) != 0)
            else Shl(lo, s - f.F)
  {
    hide Shl, Shr, Low, P;
    if s < f.F { Shl2(f, hi, lo, s); } else { Shl2Far(f, lo, s); }
    if s == 0 { ZeroShift(f, hi, lo); }
  }

  lemma ZeroShift(f: Fmt, hi: nat, lo: nat)
    requires f.Word(lo)
    ensures Shl(hi, 0) + Shr(lo, f.F) == hi && Low(Shl(lo, 0), f.F) == lo
  {
    ShlNone(hi, 0);
    ShlNone(lo, 0);
    Small(lo, f.F);
  }

  /** The folded mantissa is normal. */
  lemma Fold(f: Fmt, d: nat, s: nat)
    requires BitLen(d) <= 2 * f.F - 1 && s == 2 * f.F - 1 - BitLen(d)
    ensures Normal(f, Jam(Shl(d, s), f.F))
  {
    hide Shl, Shr, Low, P, BitLen;
    if d == 0 {
      ShlNone(0, s);
      Small(0, f.F);
    } else {
      NormalShl(d, 2 * f.F - 1);
      var m := Shl(d, s);
      ShlP(f.F - 1, f.F);
      ShlP(f.F - 2, f.F);
      ShrLt(m, f.F, P(f.F - 1));
      ShrLt(m, f.F, P(f.F - 2));
      PStep(f.F - 2);
    }
  }

  // ----- subnormal operands

  /** normalize_subnormal_sf: the significand with its top bit at M, and the
      exponent that goes with it. */
  method NormalizeSubnormal(f: Fmt, mant: nat) returns (exp: int, m: nat)
    requires 0 < mant < P(f.M)
    ensures P(f.M) <= m < P(f.M + 1) && exp <= 0
    ensures m == Shl(mant, 1 - exp)
  {
    hide Shl, P, BitLen;
    PMono(f.M, f.F);
    BitLenMax(mant, f.M);
    var shift := f.M - (f.F - 1 - Clz(f, mant));
    assert shift == f.M + 1 - BitLen(mant);
    NormalShl(mant, f.M + 1);
    exp := 1 - shift;
    m := Shl(mant, shift);
  }
}
