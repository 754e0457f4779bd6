/** The fields of a word, and how the order of words follows the order of values. */
module Fields {
  import opened Bits
  import opened Ieee754
  import opened StickyBits

  /** The word without its sign bit. */
  function Magnitude(f: Fmt, a: nat): nat { Low(a, f.F - 1) }

  lemma MagnitudeFields(f: Fmt, a: nat)
    ensures Magnitude(f, a) == Shl(f.Exp(a), f.M) + f.Frac(a)
    ensures f.Exp(a) < P(f.E) && f.Frac(a) < P(f.M)
  {
    hide Shl, Shr, Low, P;
    ShrShr(a, f.M, f.E);
  }

  lemma PackFields(f: Fmt, sign: bool, exp: nat, frac: nat)
    requires exp < P(f.E) && frac < P(f.M)
    ensures var a := f.Pack(sign, exp, frac);
            f.Word(a) && f.Sign(a) == sign && f.Exp(a) == exp && f.Frac(a) == frac
  {
    hide Shl, Shr, Low, P;
    var a := f.Pack(sign, exp, frac);
    var s: nat := if sign then 1 else 0;
    var m := Shl(exp, f.M) + frac;
    assert m < P(f.F - 1) by {
      ShlCmp(exp + 1, P(f.E), f.M);
      ShlSucc(exp, f.M);
      ShlP(f.E, f.M);
    }
    PStep(f.F - 1);
    PZero();
    ShlP(0, f.F - 1);
    ShlNone(0, f.F - 1);
    SplitUnique(a, f.F - 1, s, m);
    ShlShl(s, f.E, f.M);
    ShlAdd(Shl(s, f.E), exp, f.M);
    SplitUnique(a, f.M, Shl(s, f.E) + exp, frac);
    SplitUnique(Shl(s, f.E) + exp, f.E, s, exp);
  }

  /** Every word is the packing of its fields. */
  lemma Unpack(f: Fmt, a: nat)
    requires f.Word(a)
    ensures a == f.Pack(f.Sign(a), f.Exp(a), f.Frac(a))
  {
    hide Shl, Shr, Low, P;
    MagnitudeFields(f, a);
    Split(a, f.F - 1);
    PStep(f.F - 1);
    ShlP(0, f.F - 1);
    PZero();
    ShlAdd(1, 1, f.F - 1);
    ShlNone(0, f.F - 1);
    ShrLt(a, f.F - 1, 2);
  }

  lemma SignificandRange(f: Fmt, a: nat)
    ensures f.Significand(a) < P(f.M + 1)
    ensures f.Exp(a) > 0 ==> P(f.M) <= f.Significand(a)
    ensures f.Exp(a) == 0 ==> f.Significand(a) < P(f.M)
    ensures f.Scale(a) >= 1
    ensures f.Units(a) == 0 <==> f.Significand(a) == 0
  {
    hide Shl, Shr, Low, P;
    MagnitudeFields(f, a);
    PStep(f.M);
    ShlCmp(0, f.Significand(a), f.Scale(a) - 1);
    ShlNone(0, f.Scale(a) - 1);
  }

  lemma MagnitudeOrder(f: Fmt, a: nat, b: nat)
    requires Magnitude(f, a) >= Magnitude(f, b)
    ensures f.Exp(a) > f.Exp(b) || (f.Exp(a) == f.Exp(b) && f.Frac(a) >= f.Frac(b))
  {
    hide Shl, Shr, Low, P;
    MagnitudeFields(f, a);
    MagnitudeFields(f, b);
    if f.Exp(a) < f.Exp(b) {
      ShlCmp(f.Exp(a) + 1, f.Exp(b), f.M);
      ShlSucc(f.Exp(a), f.M);
    }
  }

  /** A larger word has a larger significand once both are at one scale. */
  lemma AlignedOrder(f: Fmt, a: nat, b: nat)
    requires Magnitude(f, a) >= Magnitude(f, b)
    ensures f.Scale(a) >= f.Scale(b)
    ensures f.Significand(b) <= Shl(f.Significand(a), f.Scale(a) - f.Scale(b))
    ensures Magnitude(f, a) > Magnitude(f, b) ==> f.Significand(b) < Shl(f.Significand(a), f.Scale(a) - f.Scale(b))
  {
    hide Shl, Shr, Low, P;
    MagnitudeOrder(f, a, b);
    MagnitudeFields(f, a);
    MagnitudeFields(f, b);
    SignificandRange(f, a);
    SignificandRange(f, b);
    var d := f.Scale(a) - f.Scale(b);
    if d == 0 {
      ShlNone(f.Significand(a), 0);
    } else {
      ShlCmp(P(f.M), f.Significand(a), d);
      ShlP(f.M, d);
      PMono(f.M + 1, f.M + d);
    }
  }

  lemma AlignedUnits(f: Fmt, a: nat, b: nat)
    requires f.Scale(a) >= f.Scale(b)
    ensures f.Units(a) == Shl(Shl(f.Significand(a), f.Scale(a) - f.Scale(b)), f.Scale(b) - 1)
  {
    hide Shl;
    ShlShl(f.Significand(a), f.Scale(a) - f.Scale(b), f.Scale(b) - 1);
  }

  /** Ignoring signs, words are ordered as their values are. */
  lemma UnitsOrder(f: Fmt, a: nat, b: nat)
    ensures Magnitude(f, a) <= Magnitude(f, b) <==> f.Units(a) <= f.Units(b)
    ensures Magnitude(f, a) == Magnitude(f, b) <==> f.Units(a) == f.Units(b)
  {
    hide Shl, Shr, Low, P;
    if Magnitude(f, a) >= Magnitude(f, b) { UnitsOrder1(f, a, b); }
    if Magnitude(f, b) >= Magnitude(f, a) { UnitsOrder1(f, b, a); }
  }

  lemma UnitsOrder1(f: Fmt, a: nat, b: nat)
    requires Magnitude(f, a) >= Magnitude(f, b)
    ensures f.Units(a) >= f.Units(b)
    ensures Magnitude(f, a) > Magnitude(f, b) ==> f.Units(a) > f.Units(b)
  {
    hide Shl, Shr, Low, P;
    AlignedOrder(f, a, b);
    AlignedUnits(f, a, b);
    ShlCmp(f.Significand(b), Shl(f.Significand(a), f.Scale(a) - f.Scale(b)), f.Scale(b) - 1);
  }

  /** A whole number of units, at any finer exponent. */
  lemma UnitsExact(t: nat, k: nat, s: nat)
    ensures IsExactly(Quotient(Shl(t, k), 1), Shl(t, s), k - s)
  {
    hide IsExactly, Shl;
    var x := Quotient(Shl(t, k), 1);
    ShlNone(Shl(t, k), 0);
    ExactCut(x, t, k);
    ExactShl(x, t, k, s);
  }

  /** The units of a finite encoding. */
  lemma EncodeUnits(f: Fmt, sign: bool, t: nat, k: nat)
    requires t < P(f.M + 1) && (k > 0 ==> P(f.M) <= t) && !Overflows(f, t, k)
    ensures var a := Encode(f, sign, t, k);
            f.Word(a) && f.IsFinite(a) && f.Sign(a) == sign && f.Units(a) == Shl(t, k)
            && f.Significand(a) == t && f.Scale(a) - 1 == k
  {
    hide Shl, P, Shr, Low, Overflows;
    PStep(f.M);
    if t < P(f.M) {
      PZeroE(f);
      PackFields(f, sign, 0, t);
      ShlNone(0, f.M);
    } else {
      NotTooBig(f, t, k);
      ShlSucc(k, f.M);
      PackFields(f, sign, k + 1, t - P(f.M));
    }
  }

  lemma PZeroE(f: Fmt)
    ensures 0 < P(f.E) && 0 != f.ExpMask()
  {
    PMono(5, f.E);
  }

  lemma NotTooBig(f: Fmt, t: nat, k: nat)
    requires P(f.M) <= t && !Overflows(f, t, k)
    ensures k + 1 < f.ExpMask()
  {
    hide Shl, P;
    PZeroE(f);
    if k + 1 >= P(f.E) - 1 {
      ShlCmp(P(f.M), t, k);
      ShlP(f.M, k);
      PMono(f.M + P(f.E) - 2, f.M + k);
    }
  }

  /** issignan_sf: exponent all ones and top fraction bit clear, as one field. */
  predicate IsSignanSf(f: Fmt, a: nat)
    ensures IsSignanSf(f, a) == f.IsSignalling(a)
  {
    SignanFields(f, a);
    Low(Shr(a, f.M - 1), f.E + 1) == 2 * f.ExpMask() && Low(a, f.M) != 0
  }

  lemma SignanFields(f: Fmt, a: nat)
    ensures Low(Shr(a, f.M - 1), f.E + 1) == 2 * f.Exp(a) + (if f.Frac(a) < P(f.M - 1) then 0 else 1)
  {
    hide Shl, Shr, Low, P;
    var c := Shr(a, f.M - 1);
    ShrShr(c, 1, f.E);
    ShrShr(a, f.M - 1, 1);
    ShlOne(Low(Shr(c, 1), f.E));
    PZero();
    ShlP(0, f.M - 1);
    ShlNone(0, f.M - 1);
    assert Low(c, 1) == 0 || Low(c, 1) == 1;
  }
}
