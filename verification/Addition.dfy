/** add_sf and sub_sf: with three guard bits and a sticky bit, the result is the
    correctly rounded exact sum or difference. */
module Addition {
  import opened Bits
  import opened Ieee754
  import opened StickyBits
  import opened RoundPack
  import opened Normalize
  import opened Fields

  /** Adding an even number commutes with the sticky shift. */
  lemma JamAdd(a: nat, b: nat, d: nat)
    requires a % 2 == 0
    ensures Jam(Shl(a, d) + b, d) == a + Jam(b, d)
  {
    hide Shl, Shr, Low, P;
    Split(b, d);
    ShlAdd(a, Shr(b, d), d);
    SplitUnique(Shl(a, d) + b, d, a + Shr(b, d), Low(b, d));
  }

  /** So does subtracting from an even number. */
  lemma JamSub(a: nat, b: nat, d: nat)
    requires a % 2 == 0 && b <= Shl(a, d)
    ensures Jam(b, d) <= a && Jam(Shl(a, d) - b, d) == a - Jam(b, d)
  {
    hide Shl, Shr, Low, P;
    var q, r := Shr(b, d), Low(b, d);
    Split(b, d);
    ShrLt(b, d, a + 1);
    ShlSucc(a, d);
    if r == 0 {
      ShlSub(a, q, d);
      SplitUnique(Shl(a, d) - b, d, a - q, 0);
    } else {
      ShlCmp(q, a, d);
      ShlSub(a, q + 1, d);
      ShlSucc(q, d);
      SplitUnique(Shl(a, d) - b, d, a - q - 1, P(d) - r);
    }
  }

  lemma JamExact(t: nat, s: nat, d: nat)
    requires d <= s
    ensures Jam(Shl(t, s), d) == Shl(t, s - d)
  {
    hide Shl, Shr, Low, P;
    ShlShl(t, s - d, d);
    ShrShl(Shl(t, s - d), d);
  }

  /** The aligned sum or difference of two significands. */
  function Combine(same: bool, m: nat, n: nat): nat
    requires !same ==> n <= m
  { if same then m + n else m - n }

  predicate Alignable(f: Fmt, sigA: nat, scaleA: nat, sigB: nat, scaleB: nat)
  {
    && 1 <= scaleB <= scaleA && sigA < P(f.M + 1) && sigB < P(f.M + 1)
    && sigB <= Shl(sigA, scaleA - scaleB)
    && (scaleB < scaleA ==> P(f.M) <= sigA)
  }

  lemma CombineShl(same: bool, m: nat, n: nat, s: nat)
    requires !same ==> n <= m
    ensures !same ==> Shl(n, s) <= Shl(m, s)
    ensures Shl(Combine(same, m, n), s) == Combine(same, Shl(m, s), Shl(n, s))
  {
    hide Shl;
    ShlAdd(m, n, s);
    if n <= m { ShlSub(m, n, s); }
  }

  /** What the code computes is the exact sum, shifted right with a sticky bit. */
  lemma AlignedMantissa(f: Fmt, same: bool, sigA: nat, scaleA: nat, sigB: nat, scaleB: nat)
    requires Alignable(f, sigA, scaleA, sigB, scaleB)
    ensures var d := scaleA - scaleB;
            var b := Jam(Shl(sigB, 3), d);
            b <= Shl(sigA, 3) &&
            Combine(same, Shl(sigA, 3), b) == Jam(Shl(Combine(same, Shl(sigA, d), sigB), 3), d)
  {
    hide Shl, Jam, P;
    var d := scaleA - scaleB;
    CombineShl(same, Shl(sigA, d), sigB, 3);
    ShlShl(sigA, d, 3);
    ShlShl(sigA, 3, d);
    ShlEven(sigA, 3);
    ShlCmp(sigB, Shl(sigA, d), 3);
    JamAdd(Shl(sigA, 3), Shl(sigB, 3), d);
    JamSub(Shl(sigA, 3), Shl(sigB, 3), d);
  }

  lemma MantissaRange(f: Fmt, same: bool, sigA: nat, scaleA: nat, sigB: nat, scaleB: nat)
    requires Alignable(f, sigA, scaleA, sigB, scaleB)
    requires Jam(Shl(sigB, 3), scaleA - scaleB) <= Shl(sigA, 3)
    ensures var d := scaleA - scaleB;
            var m := Combine(same, Shl(sigA, 3), Jam(Shl(sigB, 3), d));
            m < P(f.F - 1) && (d >= 2 ==> P(f.M + 2) <= m)
  {
    hide Shl, Jam, P;
    var d := scaleA - scaleB;
    ShlP(f.M + 1, 3);
    ShlP(f.M, 3);
    ShlCmp(sigA, P(f.M + 1), 3);
    ShlCmp(sigB, P(f.M + 1), 3);
    ShlCmp(P(f.M), sigA, 3);
    PMono(f.M + 5, f.F - 1);
    PStep(f.M + 4);
    PStep(f.M + 2);
    PStep(f.M + 3);
    if d >= 2 {
      ShlP(f.M + 2, d);
      PMono(f.M + 4, f.M + 2 + d);
      PStep(f.M + 1);
      JamBound(Shl(sigB, 3), d, P(f.M + 2));
    }
  }

  lemma SumStands(f: Fmt, same: bool, sigA: nat, scaleA: nat, sigB: nat, scaleB: nat, m: nat)
    requires Alignable(f, sigA, scaleA, sigB, scaleB)
    requires Jam(Shl(sigB, 3), scaleA - scaleB) <= Shl(sigA, 3)
    requires m == Combine(same, Shl(sigA, 3), Jam(Shl(sigB, 3), scaleA - scaleB))
    ensures m < P(f.F - 1)
    ensures NormalizedStands(f, Quotient(Shl(Combine(same, Shl(sigA, scaleA - scaleB), sigB), scaleB - 1), 1),
                             scaleA + Rnd(f) - 3, m)
  {
    hide Shl, Jam, P, NormalizedStands, IsExactly, StandsFor, Combine;
    var d := scaleA - scaleB;
    var t := Combine(same, Shl(sigA, d), sigB);
    var x := Quotient(Shl(t, scaleB - 1), 1);
    var exp := scaleA + Rnd(f) - 3;
    AlignedMantissa(f, same, sigA, scaleA, sigB, scaleB);
    MantissaRange(f, same, sigA, scaleA, sigB, scaleB);
    assert exp - f.E == scaleA - 4;
    if d <= 3 {
      JamExact(t, 3, d);
      UnitsExact(t, scaleB - 1, 3 - d);
      assert scaleB - 1 - (3 - d) == scaleA - 4;
      ExactNormalizes(f, x, exp, m);
    } else {
      UnitsExact(t, scaleB - 1, 3);
      ExactStands(x, Shl(t, 3), scaleB - 4, 0);
      ShiftRight(x, Shl(t, 3), scaleB - 4, 0, d, 1);
      assert scaleB - 4 + d == scaleA - 4;
      BitLenMin(m, f.M + 3);
      StickyNormalizes(f, x, exp, m, 1);
    }
  }

  /** The operands put in order of magnitude. */
  lemma OrderedSum(f: Fmt, a: nat, b: nat)
    requires Magnitude(f, a) >= Magnitude(f, b)
    ensures Alignable(f, f.Significand(a), f.Scale(a), f.Significand(b), f.Scale(b))
    ensures var same := f.Sign(a) == f.Sign(b);
            var v := SignedUnits(f, a) + SignedUnits(f, b);
            && Abs(v) ==
                 Shl(Combine(same, Shl(f.Significand(a), f.Scale(a) - f.Scale(b)), f.Significand(b)), f.Scale(b) - 1)
            && (v != 0 ==> (v < 0 <==> f.Sign(a)))
  {
    hide Shl, Shr, Low, P;
    AlignedOrder(f, a, b);
    AlignedUnits(f, a, b);
    SignificandRange(f, a);
    SignificandRange(f, b);
    CombineShl(f.Sign(a) == f.Sign(b), Shl(f.Significand(a), f.Scale(a) - f.Scale(b)), f.Significand(b),
      f.Scale(b) - 1);
  }

  lemma SumIsZero(f: Fmt, sigA: nat, scaleA: nat, sigB: nat, scaleB: nat)
    requires Alignable(f, sigA, scaleA, sigB, scaleB)
    requires Jam(Shl(sigB, 3), scaleA - scaleB) <= Shl(sigA, 3)
    ensures Shl(sigA, 3) - Jam(Shl(sigB, 3), scaleA - scaleB) == 0 <==>
            Shl(Combine(false, Shl(sigA, scaleA - scaleB), sigB), scaleB - 1) == 0
  {
    hide Shl, Jam, P;
    var d := scaleA - scaleB;
    var t := Combine(false, Shl(sigA, d), sigB);
    AlignedMantissa(f, false, sigA, scaleA, sigB, scaleB);
    ShlNone(0, scaleB - 1);
    ShlNone(0, 3);
    ShlCmp(0, t, scaleB - 1);
    ShlCmp(0, t, 3);
    JamZero(Shl(t, 3), d);
  }

  lemma JamZero(m: nat, d: nat)
    ensures Jam(m, d) == 0 <==> m == 0
  {
    hide Shl, Shr, Low, P;
    Split(m, d);
    ShlNone(0, d);
    Small(0, d);
  }

  /** Symmetric in its operands. */
  lemma IsSumSymmetric(f: Fmt, rm: Mode, a: nat, b: nat, acc: Flags, r: nat, fl: Flags)
    requires IsSum(f, rm, a, b, acc, r, fl)
    ensures IsSum(f, rm, b, a, acc, r, fl)
  {
    hide RoundsTo;
  }

  method AddSf(f: Fmt, a0: nat, b0: nat, rm: Mode, acc: Flags) returns (r: nat, fl: Flags)
    requires f.Word(a0) && f.Word(b0)
    ensures IsSum(f, rm, a0, b0, acc, r, fl)
  {
    hide Shl, Shr, Low, P, RoundsTo, NormalizedStands;
    var a, b := a0, b0;
    if Low(a, f.F - 1) < Low(b, f.F - 1) {
      a, b := b, a;
    }
    r, fl := AddOrdered(f, a, b, rm, acc);
    if a != a0 {
      IsSumSymmetric(f, rm, a, b, acc, r, fl);
    }
  }

  /** The rest of add_sf, once abs(a) >= abs(b). */
  method AddOrdered(f: Fmt, a: nat, b: nat, rm: Mode, acc: Flags) returns (r: nat, fl: Flags)
    requires f.Word(a) && f.Word(b) && Magnitude(f, a) >= Magnitude(f, b)
    ensures IsSum(f, rm, a, b, acc, r, fl)
  {
    hide Shl, Shr, Low, P, RoundsTo;
    fl := acc;
    var aMant := Shl(f.Frac(a), 3);
    Guarded(f, a);
    MagnitudeOrder(f, a, b);
    MagnitudeFields(f, b);
    if f.Exp(a) == f.ExpMask() {
      if aMant != 0 {
        if Shr(aMant, f.M + 2) % 2 == 0 || IsSignanSf(f, b) {
          fl := fl.(invalid := true);
        }
        return f.QNan(), fl;
      } else if f.Exp(b) == f.ExpMask() && f.Sign(a) != f.Sign(b) {
        return f.QNan(), fl.(invalid := true);
      } else {
        Unpack(f, a);
        return a, fl;
      }
    }
    r, fl := AddFinite(f, a, b, rm, acc);
  }

  /** The finite case of add_sf: align, add or subtract, normalize. */
  method AddFinite(f: Fmt, a: nat, b: nat, rm: Mode, acc: Flags) returns (r: nat, fl: Flags)
    requires f.Word(a) && f.Word(b) && Magnitude(f, a) >= Magnitude(f, b)
    ensures var v := SignedUnits(f, a) + SignedUnits(f, b);
            RoundsTo(f, rm, SumSign(rm, f.Sign(a), f.Sign(b), v), Quotient(Abs(v), 1), acc, r, fl)
  {
    hide Shl, Shr, Low, P, RoundsTo, NormalizedStands, Jam;
    var aSign, bSign := f.Sign(a), f.Sign(b);
    var aExp, bExp := f.Exp(a), f.Exp(b);
    var aMant, bMant := Shl(f.Frac(a), 3), Shl(f.Frac(b), 3);
    Guarded(f, a);
    Guarded(f, b);
    OrderedSum(f, a, b);
    if aExp == 0 { aExp := 1; } else { aMant := aMant + P(f.M + 3); }
    if bExp == 0 { bExp := 1; } else { bMant := bMant + P(f.M + 3); }
    ghost var sigA, sigB := f.Significand(a), f.Significand(b);
    assert aMant == Shl(sigA, 3) && bMant == Shl(sigB, 3);
    assert aExp == f.Scale(a) && bExp == f.Scale(b);
    bMant := RshiftRnd(f, bMant, aExp - bExp);
    ghost var v := SignedUnits(f, a) + SignedUnits(f, b);
    AlignedMantissa(f, aSign == bSign, sigA, aExp, sigB, bExp);
    SumIsZero(f, sigA, aExp, sigB, bExp);
    if aSign == bSign {
      aMant := aMant + bMant;
    } else {
      aMant := aMant - bMant;
      if aMant == 0 {
        aSign := rm == RDN;
      }
    }
    SumStands(f, f.Sign(a) == bSign, sigA, aExp, sigB, bExp, aMant);
    SumSigns(f, rm, a, b, aMant, aSign);
    r, fl := NormalizeSf(f, aSign, aExp + Rnd(f) - 3, aMant, rm, acc, Quotient(Abs(v), 1));
  }

  lemma SumSigns(f: Fmt, rm: Mode, a: nat, b: nat, m: nat, sign: bool)
    requires Magnitude(f, a) >= Magnitude(f, b)
    requires var v := SignedUnits(f, a) + SignedUnits(f, b);
             if f.Sign(a) == f.Sign(b) then sign == f.Sign(a)
             else (m == 0 <==> v == 0) && sign == (if m == 0 then rm == RDN else f.Sign(a))
    ensures sign == SumSign(rm, f.Sign(a), f.Sign(b), SignedUnits(f, a) + SignedUnits(f, b))
  {
    hide Shl, Shr, Low, P;
    OrderedSum(f, a, b);
  }

  /** A fraction with three guard bits: word-sized, its quiet bit at M + 2, and the
      hidden bit above it. */
  lemma Guarded(f: Fmt, a: nat)
    ensures f.Frac(a) == 0 <==> Shl(f.Frac(a), 3) == 0
    ensures f.Frac(a) < P(f.M - 1) <==> Shr(Shl(f.Frac(a), 3), f.M + 2) % 2 == 0
    ensures Shl(f.Frac(a), 3) + P(f.M + 3) == Shl(f.Frac(a) + P(f.M), 3) < P(f.F)
  {
    hide Shl, Shr, Low, P;
    MagnitudeFields(f, a);
    var q := f.Frac(a);
    ShlNone(0, 3);
    ShlCmp(0, q, 3);
    ShlP(f.M, 3);
    ShlAdd(q, P(f.M), 3);
    ShlCmp(q, P(f.M), 3);
    PStep(f.M + 3);
    PMono(f.M + 4, f.F);
    var c := Shl(q, 3);
    ShlP(f.M - 1, 3);
    ShlCmp(q, P(f.M - 1), 3);
    PZero();
    ShlP(0, f.M + 2);
    ShlP(1, f.M + 2);
    ShrLt(c, f.M + 2, 1);
    ShrLt(c, f.M + 2, 2);
  }

  /** sub_sf flips the sign bit of its second operand. */
  lemma FlipSign(f: Fmt, b: nat) returns (c: nat)
    requires f.Word(b)
    ensures c == (if f.Sign(b) then b - P(f.F - 1) else b + P(f.F - 1))
    ensures f.Word(c) && f.Sign(c) == !f.Sign(b) && f.Exp(c) == f.Exp(b) && f.Frac(c) == f.Frac(b)
  {
    hide Shl, Shr, Low, P;
    Unpack(f, b);
    MagnitudeFields(f, b);
    PackFields(f, !f.Sign(b), f.Exp(b), f.Frac(b));
    c := f.Pack(!f.Sign(b), f.Exp(b), f.Frac(b));
  }

  method SubSf(f: Fmt, a: nat, b: nat, rm: Mode, acc: Flags) returns (r: nat, fl: Flags)
    requires f.Word(a) && f.Word(b)
    ensures IsDifference(f, rm, a, b, acc, r, fl)
  {
    hide Shl, Shr, Low, P, RoundsTo;
    ghost var c' := FlipSign(f, b);
    var c := if f.Sign(b) then b - P(f.F - 1) else b + P(f.F - 1);
    r, fl := AddSf(f, a, c, rm, acc);
  }

  /** Both orders of operands give the same word and the same flags. */
  method AddCommutes(f: Fmt, a: nat, b: nat, rm: Mode, acc: Flags) returns (r: nat, fl: Flags, r': nat, fl': Flags)
    requires f.Word(a) && f.Word(b)
    ensures IsSum(f, rm, a, b, acc, r, fl)
    ensures r == r' && fl == fl'
  {
    hide RoundsTo;
    r, fl := AddSf(f, a, b, rm, acc);
    r', fl' := AddSf(f, b, a, rm, acc);
    IsSumSymmetric(f, rm, b, a, acc, r', fl');
    var v := SignedUnits(f, a) + SignedUnits(f, b);
    if f.IsFinite(a) && f.IsFinite(b) {
      RoundsToUnique(f, rm, SumSign(rm, f.Sign(a), f.Sign(b), v), Quotient(Abs(v), 1), acc, r, fl, r', fl');
    }
  }
}
