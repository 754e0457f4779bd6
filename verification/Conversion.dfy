/** Conversions between floats and integers, and between float formats. */
module Conversion {
  import opened Bits
  import opened Ieee754
  import opened StickyBits
  import opened RoundPack
  import opened Normalize
  import opened Fields
  import opened FloatLaws
  import opened Addition
  import opened Multiplication
  import opened Fma

  // ----- float to integer

  /** The largest magnitude of the sign that an integer of n bits can hold. */
  function MaxMagnitude(n: nat, isUnsigned: bool, sign: bool): nat
    requires n > 0
  {
    if isUnsigned then (if sign then 0 else P(n) - 1)
    else if sign then P(n - 1) else P(n - 1) - 1
  }

  /** t is the integer part of the magnitude of a finite a: 1.0 is 2^One units. */
  predicate IntegerPart(f: Fmt, a: nat, t: nat)
  {
    var x := Quotient(f.Units(a), 1);
    AtLeast(x, t, f.One()) && !AtLeast(x, t + 1, f.One())
  }

  /** The integer result: rounded if it fits, otherwise the nearest bound with only
      the invalid flag (section 5.8 of IEEE 754-2008). A NaN is like +infinity. */
  ghost predicate IsIntegerOf(f: Fmt, n: nat, isUnsigned: bool, rm: Mode, a: nat, acc: Flags, r: int, fl: Flags)
    requires n > 0
  {
    var x := Quotient(f.Units(a), 1);
    var sign := f.Sign(a) && !f.IsNan(a);
    var saturated := r == Signed(sign, MaxMagnitude(n, isUnsigned, sign)) && fl == acc.Or(Invalid);
    if !f.IsFinite(a) then saturated
    else
      exists t: nat :: IntegerPart(f, a, t) &&
        var m := Rounded(rm, sign, x, t, f.One());
        if m > MaxMagnitude(n, isUnsigned, sign) then saturated
        else r == Signed(sign, m) && fl == acc.Or(Flags(false, false, false, false, Above(x, t, f.One())))
  }

  /** Is the format wide enough in exponent for integers of n bits? It is for every
      pair the library instantiates. */
  predicate Wide(f: Fmt, n: nat) { 0 < n <= P(f.E - 1) && f.M <= P(f.E - 1) }

  /** A value with exponent at least 0 is an integer. */
  lemma WholeNumber(f: Fmt, a: nat, k: nat)
    requires f.Scale(a) - 1 == k + f.One()
    ensures var t := Shl(f.Significand(a), k);
            && IntegerPart(f, a, t) && !Above(Quotient(f.Units(a), 1), t, f.One())
            && forall rm, sign :: Rounded(rm, sign, Quotient(f.Units(a), 1), t, f.One()) == t
  {
    hide Shl, P, Shr, Low;
    var x, t := Quotient(f.Units(a), 1), Shl(f.Significand(a), k);
    ShlShl(f.Significand(a), k, f.One());
    ShlNone(f.Units(a), 0);
    ShlSucc(t, f.One());
    assert AtLeast(x, t, f.One()) && !Above(x, t, f.One());
    forall rm, sign
      ensures Rounded(rm, sign, x, t, f.One()) == t
    {
      NoIncrement(rm, sign, x, t, f.One());
    }
  }

  /** Too large an exponent means too large a value, whatever the fraction. */
  lemma TooLarge(f: Fmt, n: nat, a: nat, k: int)
    requires Wide(f, n) && f.Exp(a) > 0 && f.Scale(a) - 1 == k + f.One() && k >= 0 && k > n - 1 - f.M
    ensures Shl(f.Significand(a), k) >= P(n)
  {
    hide Shl, P, Shr, Low;
    SignificandRange(f, a);
    ShlCmp(P(f.M), f.Significand(a), k);
    ShlP(f.M, k);
    PMono(n, f.M + k);
  }

  /** Rounding a value with a negative exponent on its mantissa. */
  lemma FractionRounds(f: Fmt, rm: Mode, sign: bool, a: nat, d: nat) returns (t: nat)
    requires f.Scale(a) - 1 + d == f.One()
    ensures var x := Quotient(f.Units(a), 1);
            var m := Jam(Shl(f.Significand(a), Rnd(f)), d);
            && IntegerPart(f, a, t)
            && RoundBits(rm, sign, m, Rnd(f)) == Rounded(rm, sign, x, t, f.One())
            && (Above(x, t, f.One()) <==> Low(m, Rnd(f)) != 0)
  {
    hide Shl, P, Shr, Low, AtLeast, Above, IsExactly, StandsFor, RoundBits, Jam, Rounded;
    var x := Quotient(f.Units(a), 1);
    var rnd, sig := Rnd(f), f.Significand(a);
    UnitsExact(sig, f.Scale(a) - 1, rnd);
    ExactStands(x, Shl(sig, rnd), f.Scale(a) - 1 - rnd, 0);
    ShiftRight(x, Shl(sig, rnd), f.Scale(a) - 1 - rnd, 0, d, rnd - 1);
    var m := Jam(Shl(sig, rnd), d);
    var e := f.Scale(a) - 1 - rnd + d;
    assert e + rnd == f.One();
    Split(m, rnd);
    t := Shr(m, rnd);
    RoundBitsCorrect(rm, sign, x, m, e, rnd - 1, rnd, t, Low(m, rnd));
  }

  lemma MaxSmall(n: nat, isUnsigned: bool, sign: bool)
    requires n > 0
    ensures MaxMagnitude(n, isUnsigned, sign) < P(n)
  {
    PStep(n - 1);
  }

  lemma IntegerDelivered(f: Fmt, n: nat, isUnsigned: bool, rm: Mode, a: nat, acc: Flags, r: int, fl: Flags, sign: bool,
                         t: nat, m: nat)
    requires n > 0 && f.IsFinite(a) && sign == f.Sign(a)
    requires IntegerPart(f, a, t) && m == Rounded(rm, sign, Quotient(f.Units(a), 1), t, f.One())
    requires if m > MaxMagnitude(n, isUnsigned, sign)
             then r == Signed(sign, MaxMagnitude(n, isUnsigned, sign)) && fl == acc.Or(Invalid)
             else && r == Signed(sign, m)
                  && fl == acc.Or(Flags(false, false, false, false, Above(Quotient(f.Units(a), 1), t, f.One())))
    ensures IsIntegerOf(f, n, isUnsigned, rm, a, acc, r, fl)
  {
    hide IntegerPart, Rounded, MaxMagnitude, Above;
  }

  lemma IntegerSaturated(f: Fmt, n: nat, isUnsigned: bool, rm: Mode, a: nat, acc: Flags, r: int, fl: Flags, sign: bool)
    requires n > 0 && !f.IsFinite(a) && sign == (f.Sign(a) && !f.IsNan(a))
    requires r == Signed(sign, MaxMagnitude(n, isUnsigned, sign)) && fl == acc.Or(Invalid)
    ensures IsIntegerOf(f, n, isUnsigned, rm, a, acc, r, fl)
  {
    hide MaxMagnitude;
  }

  /** The exponent of an infinity or a NaN is too large for any integer. */
  lemma NonFiniteIsLarge(f: Fmt, n: nat, a: nat)
    requires Wide(f, n) && !f.IsFinite(a)
    ensures f.Scale(a) - 1 - f.One() >= 0 && f.Scale(a) - 1 - f.One() > n - 1 - f.M
  {
    hide P, Shr, Low;
    OneIs(f);
  }

  /** internal_cvt_sf_i: float to integer of n bits, as the mathematical value of
      the word returned. */
  method CvtSfI(f: Fmt, n: nat, a: nat, rm: Mode, acc: Flags, isUnsigned: bool) returns (r: int, fl: Flags)
    requires Wide(f, n) && f.Word(a)
    ensures IsIntegerOf(f, n, isUnsigned, rm, a, acc, r, fl)
  {
    hide Shl, P, Shr, Low, AtLeast, Above, Rounded, IntegerPart, IsIntegerOf, MaxMagnitude;
    OneIs(f);
    var sign := f.Sign(a);
    if f.Exp(a) == f.ExpMask() && f.Frac(a) != 0 {
      sign := false;
    }
    var exp, mant := f.Exp(a), f.Frac(a);
    if exp == 0 { exp := 1; } else { mant := mant + P(f.M); }
    exp := exp - (P(f.E) - 1) / 2 - f.M;
    assert f.Scale(a) - 1 == exp + f.One();
    var rMax := MaxMagnitude(n, isUnsigned, sign);
    MaxSmall(n, isUnsigned, sign);
    if !f.IsFinite(a) {
      NonFiniteIsLarge(f, n, a);
    }
    if exp >= 0 {
      WholeNumber(f, a, exp);
      var m := Shl(mant, exp);
      if exp <= n - 1 - f.M {
        if m > rMax {
          r, fl := Signed(sign, rMax), acc.(invalid := true);
        } else {
          r, fl := Signed(sign, m), acc;
        }
      } else {
        SignificandRange(f, a);
        TooLarge(f, n, a, exp);
        r, fl := Signed(sign, rMax), acc.(invalid := true);
      }
      if f.IsFinite(a) {
        IntegerDelivered(f, n, isUnsigned, rm, a, acc, r, fl, sign, m, m);
      } else {
        IntegerSaturated(f, n, isUnsigned, rm, a, acc, r, fl, sign);
      }
    } else {
      r, fl := CvtFraction(f, n, a, rm, acc, isUnsigned, -exp);
    }
  }

  /** The branch for a negative exponent: shift, round, check the range. */
  method CvtFraction(f: Fmt, n: nat, a: nat, rm: Mode, acc: Flags, isUnsigned: bool, d: nat) returns (r: int, fl: Flags)
    requires n > 0 && f.IsFinite(a) && f.Scale(a) - 1 + d == f.One()
    ensures IsIntegerOf(f, n, isUnsigned, rm, a, acc, r, fl)
  {
    hide Shl, P, Shr, Low, AtLeast, Above, RoundBits, Rounded, Jam, IntegerPart, IsIntegerOf, MaxMagnitude;
    var sign, rnd := f.Sign(a), Rnd(f);
    var rMax := MaxMagnitude(n, isUnsigned, sign);
    SignificandRange(f, a);
    MantissaFits(f, f.Significand(a), rnd);
    ghost var t := FractionRounds(f, rm, sign, a, d);
    var mant := RshiftRnd(f, Shl(f.Significand(a), rnd), d);
    var rndBits := Low(mant, rnd);
    mant := RoundBits(rm, sign, mant, rnd);
    if mant > rMax {
      r, fl := Signed(sign, rMax), acc.(invalid := true);
    } else {
      r, fl := Signed(sign, mant), acc;
      if rndBits != 0 {
        fl := fl.(inexact := true);
      }
    }
    IntegerDelivered(f, n, isUnsigned, rm, a, acc, r, fl, sign, t, mant);
  }

  // ----- integer to float

  lemma IntegerStands(f: Fmt, m: nat)
    ensures var x := Quotient(Shl(m, f.One()), 1);
            var exp := (P(f.E) - 1) / 2 + f.F - 2;
            var l := BitLen(m) - (f.F - 1);
            if l > 0 then Jam(m, l) < P(f.F - 1) && NormalizedStands(f, x, exp + l, Jam(m, l))
            else m < P(f.F - 1) && NormalizedStands(f, x, exp, m)
  {
    hide Shl, P, Jam, IsExactly, StandsFor, NormalizedStands, BitLen;
    var x, l := Quotient(Shl(m, f.One()), 1), BitLen(m) - (f.F - 1);
    var exp := (P(f.E) - 1) / 2 + f.F - 2;
    OneIs(f);
    assert exp - f.E == f.One();
    UnitsExact(m, f.One(), 0);
    ShlNone(m, 0);
    if l > 0 {
      ExactStands(x, m, f.One(), 0);
      ShiftRight(x, m, f.One(), 0, l, 1);
      ShlP(f.F - 1, l);
      ShlP(f.F - 2, l);
      PStep(f.F - 2);
      JamBound(m, l, P(f.F - 1));
      JamLow(m, l, P(f.F - 2));
      BitLenMin(Jam(m, l), f.F - 1);
      StickyNormalizes(f, x, exp + l, Jam(m, l), 1);
    } else {
      PMono(BitLen(m), f.F - 1);
      ExactNormalizes(f, x, exp, m);
    }
  }

  lemma JamLow(m: nat, d: nat, b: nat)
    requires Shl(b, d) <= m
    ensures b <= Jam(m, d)
  {
    hide Shl, P, Shr, Low;
    ShrLt(m, d, b);
  }

  /** internal_cvt_i_sf: an integer of any width, rounded to the format. */
  method CvtISf(f: Fmt, a: int, rm: Mode, acc: Flags) returns (r: nat, fl: Flags)
    ensures RoundsTo(f, rm, a < 0, Quotient(Shl(Abs(a), f.One()), 1), acc, r, fl)
  {
    hide Shl, P, RoundsTo, NormalizedStands, Jam, BitLen, Shr, Low;
    var sign := a < 0;
    var m: nat := if a < 0 then -a else a;
    var exp := (P(f.E) - 1) / 2 + f.F - 2;
    var l := BitLen(m) - (f.F - 1);
    IntegerStands(f, m);
    JamIsOr(m, if l > 0 then l else 0);
    if l > 0 {
      m := OrBit(Shr(m, l), Low(m, l) != 0);
      exp := exp + l;
    }
    r, fl := NormalizeSf(f, sign, exp, m, rm, acc, Quotient(Shl(Abs(a), f.One()), 1));
  }

  lemma JamIsOr(m: nat, d: nat)
    ensures Jam(m, d) == OrBit(Shr(m, d), Low(m, d) != 0)
  {
  }

  // ----- integers survive the round trip

  /** m is a significand of at most M + 1 bits followed by zeros. */
  predicate Representable(f: Fmt, m: nat)
  {
    BitLen(m) <= f.M + 1 || Low(m, BitLen(m) - f.M - 1) == 0
  }

  lemma RepresentableForm(f: Fmt, n: nat, m: nat) returns (t: nat, k: nat)
    requires Wide(f, n) && 0 < m < P(n) && Representable(f, m)
    ensures P(f.M) <= t < P(f.M + 1) && Shl(t, k) == Shl(m, f.One()) && !Overflows(f, t, k)
  {
    hide Shl, P, Shr, Low, BitLen;
    OneIs(f);
    var l := BitLen(m);
    if l <= f.M + 1 {
      NormalShl(m, f.M + 1);
      t, k := Shl(m, f.M + 1 - l), f.One() - (f.M + 1 - l);
      ShlShl(m, f.M + 1 - l, k);
    } else {
      var s := l - f.M - 1;
      t, k := Shr(m, s), f.One() + s;
      Split(m, s);
      ShlP(f.M, s);
      ShlP(f.M + 1, s);
      ShrLt(m, s, P(f.M));
      ShrLt(m, s, P(f.M + 1));
      ShlShl(t, s, f.One());
    }
    BitLenMax(m, n);
    ShlCmp(m, P(n), f.One());
    ShlP(n, f.One());
    PMono(n + f.One(), f.M + P(f.E) - 2);
  }

  /** Every representable integer comes back unchanged, with no flag raised. */
  method IntegerRoundTrip(f: Fmt, n: nat, a: int, isUnsigned: bool, rm: Mode, rm': Mode, acc: Flags)
    returns (w: nat, r: int, fl: Flags)
    requires Wide(f, n) && Abs(a) <= MaxMagnitude(n, isUnsigned, a < 0) && Representable(f, Abs(a))
    ensures r == a && fl == acc
  {
    hide Shl, P, RoundsTo, RoundBits, BitLen, Representable, Low, Shr, IntegerPart, AtLeast, Above, Rounded;
    w, fl := CvtISf(f, a, rm, acc);
    MaxSmall(n, isUnsigned, a < 0);
    ghost var t, k := IntegerEncoding(f, n, a, rm, acc, w, fl);
    EncodeUnits(f, a < 0, t, k);
    r, fl := CvtSfI(f, n, w, rm', fl, isUnsigned);
    IntegerBack(f, w, Abs(a));
    ghost var x := Quotient(f.Units(w), 1);
    ghost var p: nat :| IntegerPart(f, w, p) &&
      var m := Rounded(rm', a < 0, x, p, f.One());
      if m > MaxMagnitude(n, isUnsigned, a < 0)
      then r == Signed(a < 0, MaxMagnitude(n, isUnsigned, a < 0)) && fl == acc.Or(Invalid)
      else r == Signed(a < 0, m) && fl == acc.Or(Flags(false, false, false, false, Above(x, p, f.One())));
    PartUnique(f, w, p, Abs(a));
    NoIncrement(rm', a < 0, x, p, f.One());
  }

  lemma PartUnique(f: Fmt, a: nat, t: nat, t': nat)
    requires IntegerPart(f, a, t) && IntegerPart(f, a, t')
    ensures t == t'
  {
    hide AtLeast, Above;
    CutUnique(Quotient(f.Units(a), 1), t, t', f.One());
  }

  lemma IntegerBack(f: Fmt, w: nat, m: nat)
    requires f.Units(w) == Shl(m, f.One())
    ensures IntegerPart(f, w, m) && !Above(Quotient(f.Units(w), 1), m, f.One())
  {
    hide Shl, P;
    ShlNone(f.Units(w), 0);
    ShlSucc(m, f.One());
  }

  /** The float of a representable integer is its exact encoding. */
  lemma IntegerEncoding(f: Fmt, n: nat, a: int, rm: Mode, acc: Flags, w: nat, fl: Flags) returns (t: nat, k: nat)
    requires Wide(f, n) && Abs(a) < P(n) && Representable(f, Abs(a))
    requires RoundsTo(f, rm, a < 0, Quotient(Shl(Abs(a), f.One()), 1), acc, w, fl)
    ensures t < P(f.M + 1) && (k > 0 ==> P(f.M) <= t) && !Overflows(f, t, k)
    ensures w == Encode(f, a < 0, t, k) && Shl(t, k) == Shl(Abs(a), f.One()) && fl == acc
  {
    hide Shl, P, RoundsTo, BitLen, Representable, Low, Shr;
    var x := Quotient(Shl(Abs(a), f.One()), 1);
    ShlNone(Shl(Abs(a), f.One()), 0);
    if a == 0 {
      t, k := 0, 0;
      ShlNone(0, f.One());
      ShlNone(0, 0);
    } else {
      t, k := RepresentableForm(f, n, Abs(a));
    }
    ExactRounds(f, rm, a < 0, x, t, k, acc);
    RoundsToUnique(f, rm, a < 0, x, acc, w, fl, Encode(f, a < 0, t, k), acc);
  }

  // ----- float to float

  /** Is every value of f, even normalized subnormal, a normal value of g, and g's
      significand at least as wide as f's working mantissa? */
  predicate Wider(f: Fmt, g: Fmt)
  {
    f.F - 2 <= g.M && P(f.E - 1) + f.M + 2 <= P(g.E - 1)
  }

  /** The value of a g word, in units of f. */
  function InUnitsOf(f: Fmt, g: Fmt, a: nat): Exact { Quotient(Shl(g.Units(a), f.One()), P(g.One())) }

  /** cvt_sf32_sf and cvt_sf64_sf: widening is exact and raises nothing but the
      invalid flag of a signalling NaN. */
  method WidenSf(f: Fmt, g: Fmt, a: nat, acc: Flags) returns (r: nat, fl: Flags)
    requires Wider(f, g) && f.Word(a)
    ensures g.Word(r)
    ensures f.IsNan(a) ==> NanResult(g, f.IsSignalling(a), acc, r, fl)
    ensures !f.IsNan(a) ==> fl == acc && g.Sign(r) == f.Sign(a) && (g.IsInf(r) <==> f.IsInf(a))
    ensures g.IsNan(r) <==> f.IsNan(a)
    ensures f.IsFinite(a) ==> Shl(g.Units(r), f.One()) == Shl(f.Units(a), g.One())
    ensures f.IsFinite(a) && f.Units(a) != 0 ==> g.Exp(r) > 0
  {
    hide Shl, P, Shr, Low, PackSf;
    OneIs(f); OneIs(g);
    FiniteZero(f, a);
    MagnitudeFields(f, a);
    QuietNan(g);
    PackWords(g, f.Sign(a));
    var exp: int, mant: nat := f.Exp(a), f.Frac(a);
    fl := acc;
    if exp == f.ExpMask() {
      if mant != 0 {
        if IsSignanSf(f, a) {
          fl := fl.(invalid := true);
        }
        return g.QNan(), fl;
      } else {
        return PackSf(g, f.Sign(a), g.ExpMask(), 0), fl;
      }
    }
    if exp == 0 && mant == 0 {
      ShlNone(0, f.One());
      ShlNone(0, g.One());
      return PackSf(g, f.Sign(a), 0, 0), fl;
    }
    ghost var m := mant + P(f.M);
    if exp == 0 {
      exp, mant := NormalizeSubnormal(f, mant);
      m := mant;
      ShlNone(f.Frac(a), 0);
      ShlNone(m, 0);
      SubnormalBound(f, f.Frac(a), exp);
    } else {
      ShlNone(f.Units(a), 0);
      PStep(f.M);
    }
    ghost var e := exp;
    assert Operand(f, a, e, m);
    exp := exp - (P(f.E) - 1) / 2 + (P(g.E) - 1) / 2;
    WidenFields(f, g, f.Sign(a), exp, mant, m);
    WidenUnits(f, g, a, e, m, exp);
    r := PackSf(g, f.Sign(a), exp, Shl(mant, g.M - f.M));
  }

  lemma SubnormalBound(f: Fmt, frac: nat, e: int)
    requires 0 < frac < P(f.M) && e <= 0 && Shl(frac, 1 - e) < P(f.M + 1)
    ensures e >= 1 - f.M
  {
    hide Shl, P;
    if e < 1 - f.M {
      ShlCmp(1, frac, 1 - e);
      ShlP(0, 1 - e);
      PZero();
      PMono(f.M + 1, 1 - e);
    }
  }

  lemma PackWords(f: Fmt, sign: bool)
    ensures var r := PackSf(f, sign, f.ExpMask(), 0); f.Word(r) && f.Sign(r) == sign && f.IsInf(r)
    ensures var r := PackSf(f, sign, 0, 0);
            f.Word(r) && f.Sign(r) == sign && f.Exp(r) == 0 && f.Frac(r) == 0 && f.Units(r) == 0
  {
    hide Shl, P, Shr, Low;
    PZeroE(f);
    Small(0, f.M);
    PackFields(f, sign, f.ExpMask(), 0);
    PackFields(f, sign, 0, 0);
    ShlNone(0, 0);
  }

  /** Masking drops the hidden bit whether or not it was set. */
  lemma WidenFields(f: Fmt, g: Fmt, sign: bool, exp: int, mant: nat, m: nat)
    requires f.M <= g.M && 0 < exp < P(g.E) - 1
    requires P(f.M) <= m < P(f.M + 1) && (mant == m || mant == m - P(f.M))
    ensures var r := PackSf(g, sign, exp, Shl(mant, g.M - f.M));
            g.Word(r) && g.Sign(r) == sign && g.Exp(r) == exp && g.Significand(r) == Shl(m, g.M - f.M)
  {
    hide Shl, P, Shr, Low;
    var s := g.M - f.M;
    var frac := Shl(m - P(f.M), s);
    PStep(f.M);
    ShlCmp(m - P(f.M), P(f.M), s);
    ShlP(f.M, s);
    ShlAdd(m - P(f.M), P(f.M), s);
    ShlP(0, g.M);
    PZero();
    ShlNone(0, g.M);
    if mant == m {
      SplitUnique(Shl(mant, s), g.M, 1, frac);
    } else {
      SplitUnique(Shl(mant, s), g.M, 0, frac);
    }
    PackFields(g, sign, exp, frac);
  }

  lemma WidenUnits(f: Fmt, g: Fmt, a: nat, e: int, m: nat, exp: int)
    requires Wider(f, g) && Scaled(f.Units(a), m, e - 1)
    requires exp == e + P(g.E - 1) - P(f.E - 1) && exp > 0
    ensures Shl(Shl(Shl(m, g.M - f.M), exp - 1), f.One()) == Shl(f.Units(a), g.One())
  {
    hide Shl, P;
    OneIs(f); OneIs(g);
    var s := g.M - f.M;
    ShlShl(m, s, exp - 1);
    ShlShl(m, s + exp - 1, f.One());
    Rebalance(f.Units(a), Pos(1 - e), m, Pos(e - 1), g.One(), s + (exp - 1) + f.One());
  }

  /** cvt_sf64_sf32 and its wider relatives: narrowing is correct rounding. */
  method NarrowSf(f: Fmt, g: Fmt, a: nat, rm: Mode, acc: Flags) returns (r: nat, fl: Flags)
    requires Wider(f, g) && g.Word(a)
    ensures g.IsNan(a) ==> NanResult(f, g.IsSignalling(a), acc, r, fl)
    ensures g.IsInf(a) ==> r == f.Inf(g.Sign(a)) && fl == acc
    ensures g.IsFinite(a) ==> RoundsTo(f, rm, g.Sign(a), InUnitsOf(f, g, a), acc, r, fl)
  {
    hide Shl, P, Shr, Low, PackSf, RoundsTo, NormalizedStands;
    var sign := g.Sign(a);
    OneIs(f); OneIs(g);
    FiniteZero(g, a);
    MagnitudeFields(g, a);
    PackInfZero(f, sign);
    fl := acc;
    if g.Exp(a) == g.ExpMask() {
      if g.Frac(a) != 0 {
        if IsSignanSf(g, a) {
          fl := fl.(invalid := true);
        }
        return f.QNan(), fl;
      } else {
        return PackSf(f, sign, f.ExpMask(), 0), fl;
      }
    }
    if g.Exp(a) == 0 && g.Frac(a) == 0 {
      ShlNone(0, f.One());
      ZeroRounds(f, rm, sign, P(g.One()), acc);
      return PackSf(f, sign, 0, 0), fl;
    }
    if g.Exp(a) == 0 {
      // the exponent of the normalized mantissa, but not the mantissa itself
      var exp, ignored := NormalizeSubnormal(g, g.Frac(a));
      r, fl := NarrowSubnormal(f, g, a, exp, rm, acc);
      return;
    }
    r, fl := NarrowNormal(f, g, a, rm, acc);
  }

  lemma NarrowStands(f: Fmt, g: Fmt, a: nat)
    requires Wider(f, g) && g.Exp(a) > 0
    ensures var exp := g.Exp(a) - (P(g.E) - 1) / 2 + (P(f.E) - 1) / 2;
            var m := Jam(g.Significand(a), g.M - (f.F - 2));
            m < P(f.F - 1) && NormalizedStands(f, InUnitsOf(f, g, a), exp, m)
  {
    hide Shl, P, Shr, Low, Jam, IsExactly, StandsFor, NormalizedStands, BitLen;
    OneIs(f); OneIs(g);
    SignificandRange(g, a);
    var d := g.M - (f.F - 2);
    var x, sig := InUnitsOf(f, g, a), g.Significand(a);
    var k := g.Scale(a) - 1 + f.One() - g.One();
    NarrowExact(f, g, a, k);
    ExactStands(x, sig, k, 0);
    ShiftRight(x, sig, k, 0, d, 1);
    ShlP(f.F - 1, d);
    ShlP(f.F - 2, d);
    PStep(f.F - 2);
    JamBound(sig, d, P(f.F - 1));
    JamLow(sig, d, P(f.F - 2));
    var m := Jam(sig, d);
    BitLenMin(m, f.F - 1);
    var exp := g.Exp(a) - (P(g.E) - 1) / 2 + (P(f.E) - 1) / 2;
    assert exp - f.E == k + d;
    StickyNormalizes(f, x, exp, m, 1);
  }

  lemma NarrowExact(f: Fmt, g: Fmt, a: nat, k: int)
    requires k == g.Scale(a) - 1 + f.One() - g.One()
    ensures IsExactly(InUnitsOf(f, g, a), g.Significand(a), k)
  {
    hide Shl, P, IsExactly;
    var x, sig := InUnitsOf(f, g, a), g.Significand(a);
    TimesP(Shl(sig, Pos(k)), g.One());
    ShlShl(sig, Pos(k), g.One());
    ShlShl(sig, g.Scale(a) - 1, f.One());
    ShlShl(sig, g.Scale(a) - 1 + f.One(), Pos(-k));
    ExactCut(x, sig, k);
  }

  method NarrowNormal(f: Fmt, g: Fmt, a: nat, rm: Mode, acc: Flags) returns (r: nat, fl: Flags)
    requires Wider(f, g) && g.IsFinite(a) && g.Exp(a) > 0
    ensures RoundsTo(f, rm, g.Sign(a), InUnitsOf(f, g, a), acc, r, fl)
  {
    hide Shl, P, Shr, Low, RoundsTo, NormalizedStands, Jam;
    NarrowStands(f, g, a);
    SignificandRange(g, a);
    PMono(g.M + 1, g.F);
    var exp := g.Exp(a) - (P(g.E) - 1) / 2 + (P(f.E) - 1) / 2;
    var mant := RshiftRnd(g, g.Frac(a) + P(g.M), g.M - (f.F - 2));
    r, fl := NormalizeSf(f, g.Sign(a), exp, mant, rm, acc, InUnitsOf(f, g, a));
  }

  // ----- a subnormal of the wide format

  /** A positive magnitude below half a unit. */
  ghost predicate Minute(f: Fmt, rm: Mode, sign: bool, x: Exact)
  {
    Proper(x) && Above(x, 0, 0) && !AtLeast(x, 1, -1) && Tiny(f, rm, sign, x)
  }

  /** All minute magnitudes round alike. */
  lemma MinuteAlike(f: Fmt, rm: Mode, sign: bool, x: Exact, y: Exact, acc: Flags, r: nat, fl: Flags)
    requires Minute(f, rm, sign, x) && Minute(f, rm, sign, y)
    requires RoundsTo(f, rm, sign, x, acc, r, fl)
    ensures RoundsTo(f, rm, sign, y, acc, r, fl)
  {
    hide AtLeast, Above, P, Overflows, Encode, Tiny, RoundsTo;
    MinuteFloor(f, rm, sign, x);
    MinuteFloor(f, rm, sign, y);
    var n := Rounded(rm, sign, x, 0, 0);
    NotBigYet(f, n);
    var fl' := acc.Or(Flags(false, false, false, true, true));
    DeliverFiniteAt(f, rm, sign, x, 0, 0, acc, Encode(f, sign, n, 0), fl');
    RoundsToUnique(f, rm, sign, x, acc, r, fl, Encode(f, sign, n, 0), fl');
    DeliverFiniteAt(f, rm, sign, y, 0, 0, acc, r, fl);
  }

  lemma MinuteFloor(f: Fmt, rm: Mode, sign: bool, x: Exact)
    requires Minute(f, rm, sign, x)
    ensures Floor(f, x, 0, 0)
    ensures Rounded(rm, sign, x, 0, 0) ==
              match rm case RDN => (if sign then 1 else 0) case RUP => (if sign then 0 else 1) case _ => 0
  {
    hide AtLeast, Above, P, Tiny;
    AtLeastZero(x, 0);
    Double(x, 1, -1);
    Monotone(x, 1, 2, -1);
    AboveIsAtLeast(x, 1, -1);
  }

  lemma NotBigYet(f: Fmt, n: nat)
    requires n <= 1
    ensures !Overflows(f, n, 0)
  {
    hide P, Shl;
    PZero();
    PMono(1, f.M);
    NotOverflowsSubnormal(f, n);
  }

  /** A normalized mantissa with a very negative exponent is minute. */
  lemma MinuteMantissa(f: Fmt, rm: Mode, sign: bool, x: Exact, exp: int, m: nat)
    requires Proper(x) && 0 < m < P(f.F - 1) && NormalizedStands(f, x, exp, m)
    requires exp + f.M + 1 <= 0
    ensures Minute(f, rm, sign, x)
  {
    hide AtLeast, Above, P, Tiny, StandsFor, BitLen, Shl, RoundBits, Shr, Low, Jam;
    var s := f.F - 1 - BitLen(m);
    NormalShl(m, f.F - 1);
    var n, e := Shl(m, s), exp - s;
    TinyIff(f, rm, sign, x, e, n);
    // compare with half a unit and with zero
    var g := Rnd(f) - 1;
    var k := -1 - (e - f.E) - g;
    Compare(x, n, e - f.E, g, 1, k);
    assert e - f.E + (g + k) == -1;
    ShlP(0, g + k);
    PZero();
    PMono(f.F - 1, g + k);
    Compare(x, n, e - f.E, g, 0, k + 1);
    assert e - f.E + (g + (k + 1)) == 0;
    ShlNone(0, g + (k + 1));
  }

  lemma SubnormalMinute(f: Fmt, g: Fmt, a: nat, rm: Mode, sign: bool)
    requires Wider(f, g) && g.IsFinite(a) && g.Exp(a) == 0 && g.Frac(a) > 0
    ensures Minute(f, rm, sign, InUnitsOf(f, g, a))
  {
    hide Shl, P, Shr, Low, Jam, IsExactly, StandsFor, NormalizedStands, BitLen, Minute;
    OneIs(f); OneIs(g);
    SignificandRange(g, a);
    var d := g.M - (f.F - 2);
    var x, sig := InUnitsOf(f, g, a), g.Significand(a);
    var k := f.One() - g.One();
    NarrowExact(f, g, a, k);
    // normalize the significand to M bits first, exactly
    var l := BitLen(sig);
    BitLenMax(sig, g.M);
    NormalShl(sig, g.M + 1);
    var s := g.M + 1 - l;
    ExactShl(x, sig, k, s);
    ExactStands(x, Shl(sig, s), k - s, 0);
    ShiftRight(x, Shl(sig, s), k - s, 0, d, 1);
    ShlP(f.F - 1, d);
    ShlP(f.F - 2, d);
    PStep(f.F - 2);
    JamBound(Shl(sig, s), d, P(f.F - 1));
    JamLow(Shl(sig, s), d, P(f.F - 2));
    var m := Jam(Shl(sig, s), d);
    BitLenMin(m, f.F - 1);
    var exp := k - s + d + f.E;
    StickyNormalizes(f, x, exp, m, 1);
    MinuteMantissa(f, rm, sign, x, exp, m);
  }

  /** The mantissa the code rounds for a subnormal of the wide format is that of a
      smaller value than the operand. Both are minute, so the result is right. */
  method NarrowSubnormal(f: Fmt, g: Fmt, a: nat, aExp: int, rm: Mode, acc: Flags) returns (r: nat, fl: Flags)
    requires Wider(f, g) && g.IsFinite(a) && g.Exp(a) == 0 && g.Frac(a) > 0 && aExp <= 0
    ensures RoundsTo(f, rm, g.Sign(a), InUnitsOf(f, g, a), acc, r, fl)
  {
    hide Shl, P, Shr, Low, RoundsTo, NormalizedStands, Jam, Minute, IsExactly, StandsFor;
    OneIs(f); OneIs(g);
    MagnitudeFields(g, a);
    PMono(g.M, g.F);
    var exp := aExp - (P(g.E) - 1) / 2 + (P(f.E) - 1) / 2;
    var d := g.M - (f.F - 2);
    var mant := RshiftRnd(g, g.Frac(a), d);
    JamZero(g.Frac(a), d);
    ShlP(f.F - 1, d);
    PMono(g.M, g.M + 1);
    PStep(f.F - 2);
    JamBound(g.Frac(a), d, P(f.F - 1));
    ghost var y := Quotient(Shl(mant, Pos(exp - f.E)), P(Pos(f.E - exp)));
    OwnValue(mant, exp - f.E);
    ExactNormalizes(f, y, exp, mant);
    MinuteMantissa(f, rm, g.Sign(a), y, exp, mant);
    SubnormalMinute(f, g, a, rm, g.Sign(a));
    r, fl := NormalizeSf(f, g.Sign(a), exp, mant, rm, acc, y);
    MinuteAlike(f, rm, g.Sign(a), y, InUnitsOf(f, g, a), acc, r, fl);
  }

  lemma OwnValue(m: nat, e: int)
    ensures IsExactly(Quotient(Shl(m, Pos(e)), P(Pos(-e))), m, e)
  {
    hide Shl, P, IsExactly;
    TimesP(Shl(m, Pos(e)), Pos(-e));
    if e < 0 { ShlNone(m, 0); } else { PZero(); ShlNone(Shl(m, Pos(e)), 0); }
    ExactCut(Quotient(Shl(m, Pos(e)), P(Pos(-e))), m, e);
  }

  /** Widening and narrowing back is the identity on everything but NaN, in every
      mode and with no flag raised. */
  method WidenNarrow(f: Fmt, g: Fmt, a: nat, rm: Mode, acc: Flags) returns (w: nat, r: nat, fl: Flags)
    requires Wider(f, g) && f.Word(a) && !f.IsNan(a)
    ensures r == a && fl == acc
  {
    hide Shl, P, Shr, Low, RoundsTo;
    w, fl := WidenSf(f, g, a, acc);
    r, fl := NarrowSf(f, g, w, rm, fl);
    Unpack(f, a);
    if f.IsFinite(a) {
      SameValue(f, g, a, w, rm, acc);
      RoundsToUnique(f, rm, f.Sign(a), InUnitsOf(f, g, w), acc, r, fl, a, acc);
    }
  }

  lemma SameValue(f: Fmt, g: Fmt, a: nat, w: nat, rm: Mode, acc: Flags)
    requires f.Word(a) && f.IsFinite(a)
    requires Shl(g.Units(w), f.One()) == Shl(f.Units(a), g.One())
    ensures RoundsTo(f, rm, f.Sign(a), InUnitsOf(f, g, w), acc, a, acc)
  {
    hide Shl, P, Shr, Low, RoundsTo;
    var x := InUnitsOf(f, g, w);
    var t, k := f.Significand(a), f.Scale(a) - 1;
    SignificandRange(f, a);
    MagnitudeFields(f, a);
    Unpack(f, a);
    TimesP(Shl(t, k), g.One());
    ShlNone(Shl(f.Units(a), g.One()), 0);
    NoOverflow(f, a);
    ExactRounds(f, rm, f.Sign(a), x, t, k, acc);
    if f.Exp(a) == 0 {
      ShlNone(0, f.M);
    } else {
      ShlSucc(k, f.M);
    }
  }

  /** Every instance of the templates meets these conditions: the three formats,
      32-, 64- and 128-bit integers, and each pair of a narrow and a wide format. */
  lemma Instances()
    ensures Wide(Binary32, 32) && Wide(Binary32, 64) && Wide(Binary32, 128)
    ensures Wide(Binary64, 32) && Wide(Binary64, 64) && Wide(Binary64, 128)
    ensures Wide(Binary128, 32) && Wide(Binary128, 64) && Wide(Binary128, 128)
    ensures Wider(Binary32, Binary64) && Wider(Binary32, Binary128) && Wider(Binary64, Binary128)
  {
    hide P;
    assert P(7) == 128 by { PZero(); PStep(3); PStep(4); PStep(5); PStep(6); }
    PStep(7); PStep(8); PStep(9);
    PMono(10, 14);
    PStep(10);
    PMono(11, 14);
  }
}
