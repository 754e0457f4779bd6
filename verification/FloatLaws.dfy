/** What the reference of rounding means, said without it: the result is the best
    value of the format in the sense of its mode, NaNs come from NaNs and invalid
    operations alone, and the well-known words are the well-known values. */
module FloatLaws {
  import opened Bits
  import opened Ieee754
  import opened StickyBits
  import opened RoundPack
  import opened Fields

  // ----- finite words

  /** 2^(emax + 1), in units. */
  function Limit(f: Fmt): nat { PowerOfTwo(f); P(f.M + P(f.E) - 2) }

  lemma PowerOfTwo(f: Fmt)
    ensures P(f.E) >= 32 && P(f.M) >= 16
  {
    PMono(5, f.E);
    PMono(4, f.M);
  }

  lemma FiniteScale(f: Fmt, a: nat)
    requires f.IsFinite(a)
    ensures f.Significand(a) < P(f.M + 1) && (f.Scale(a) > 1 ==> P(f.M) <= f.Significand(a))
    ensures f.Scale(a) <= P(f.E) - 2
  {
    hide Shl, Shr, Low, P;
    PowerOfTwo(f);
    SignificandRange(f, a);
    MagnitudeFields(f, a);
  }

  lemma FiniteBelowLimit(f: Fmt, a: nat)
    requires f.IsFinite(a)
    ensures f.Units(a) < Limit(f) && !Overflows(f, f.Significand(a), f.Scale(a) - 1)
  {
    hide Shl, Shr, Low, P;
    PowerOfTwo(f);
    FiniteScale(f, a);
    var s, k := f.Significand(a), f.Scale(a) - 1;
    ShlCmp(s, P(f.M + 1), k);
    ShlP(f.M + 1, k);
    PMono(f.M + 1 + k, f.M + P(f.E) - 2);
  }

  /** The word of a rounded magnitude, the carry into the next exponent included. */
  lemma EncodedValue(f: Fmt, sign: bool, n: nat, k: nat)
    requires n <= P(f.M + 1) && (k > 0 ==> P(f.M) <= n) && !Overflows(f, n, k)
    ensures var a := Encode(f, sign, n, k);
            f.Word(a) && f.IsFinite(a) && f.Sign(a) == sign && f.Units(a) == Shl(n, k) && f.Frac(a) % 2 == n % 2
  {
    hide Shl, Shr, Low, P, Overflows;
    PStep(f.M);
    PStep(f.M - 1);
    if n < P(f.M + 1) {
      EncodeUnits(f, sign, n, k);
    } else {
      ShlSucc(k, f.M);
      ShlShl(P(f.M), 1, k);
      ShlOne(P(f.M));
      CarryLimit(f, k);
      EncodeUnits(f, sign, P(f.M), k + 1);
    }
  }

  lemma CarryLimit(f: Fmt, k: nat)
    ensures Overflows(f, P(f.M + 1), k) == Overflows(f, P(f.M), k + 1)
    ensures Shl(P(f.M + 1), k) == Shl(P(f.M), k + 1)
  {
    hide Shl, P;
    ShlP(f.M + 1, k);
    ShlP(f.M, k + 1);
  }

  lemma LargestFinite(f: Fmt, sign: bool)
    ensures P(f.E) >= 32
    ensures var a := f.MaxFinite(sign);
            f.Word(a) && f.IsFinite(a) && f.Sign(a) == sign && f.Units(a) == Shl(P(f.M + 1) - 1, P(f.E) - 3)
  {
    hide Shl, Shr, Low, P;
    PowerOfTwo(f);
    PStep(f.M);
    PackFields(f, sign, P(f.E) - 2, P(f.M) - 1);
  }

  lemma Infinite(f: Fmt, sign: bool)
    ensures var a := f.Inf(sign); f.Word(a) && f.IsInf(a) && !f.IsNan(a) && !f.IsFinite(a) && f.Sign(a) == sign
  {
    hide Shl, Shr, Low, P;
    PowerOfTwo(f);
    PackFields(f, sign, f.ExpMask(), 0);
  }

  /** No finite value is above the largest one. */
  lemma BelowLargest(f: Fmt, sign: bool, w: nat)
    requires f.IsFinite(w)
    ensures f.Units(w) <= f.Units(f.MaxFinite(sign)) < Limit(f)
  {
    hide Shl, Shr, Low, P;
    PowerOfTwo(f);
    LargestFinite(f, sign);
    FiniteBelowLimit(f, f.MaxFinite(sign));
    FiniteScale(f, w);
    var s, e, top := f.Significand(w), f.Scale(w) - 1, P(f.E) - 3;
    ShlCmp(s, P(f.M + 1) - 1, e);
    ShlCmp(1, P(f.M + 1) - 1, 0);
    ShlShl(P(f.M + 1) - 1, top - e, e);
    PStep(f.M);
    ShlGrows(P(f.M + 1) - 1, e, top);
  }

  /** The quiet NaN is a positive NaN that is not signalling. */
  lemma QuietNan(f: Fmt)
    ensures var r := f.QNan();
            f.Word(r) && f.IsNan(r) && !f.IsSignalling(r) && !f.Sign(r) && !f.IsInf(r) && !f.IsFinite(r)
  {
    hide Shl, P, Shr, Low;
    PStep(f.M - 1);
    PackFields(f, false, f.ExpMask(), P(f.M - 1));
  }

  // ----- the grid around an exact value

  /** Between two neighbouring points of the grid there is no value of the format. */
  lemma GridGap(f: Fmt, t: nat, k: nat, w: nat)
    requires f.IsFinite(w) && (k > 0 ==> P(f.M) <= t)
    ensures f.Units(w) <= Shl(t, k) || Shl(t + 1, k) <= f.Units(w)
  {
    hide Shl, Shr, Low, P;
    FiniteScale(f, w);
    var s, e := f.Significand(w), f.Scale(w) - 1;
    if e >= k {
      ShlShl(s, e - k, k);
      ShlCmp(Shl(s, e - k), t, k);
      ShlCmp(t + 1, Shl(s, e - k), k);
    } else {
      ShlCmp(s, P(f.M + 1), e);
      ShlP(f.M + 1, e);
      ShlP(f.M, k);
      PMono(f.M + 1 + e, f.M + k);
      ShlCmp(P(f.M), t, k);
    }
  }

  lemma Ordered(x: Exact, m: nat, m': nat, k: int)
    requires Proper(x) && m <= m'
    ensures AtLeast(x, m', k) ==> AtLeast(x, m, k)
    ensures Above(x, m', k) ==> Above(x, m, k)
    ensures m < m' && AtLeast(x, m', k) ==> Above(x, m, k)
  {
    hide AtLeast, Above;
    if m < m' {
      Monotone(x, m, m', k);
      AboveIsAtLeast(x, m, k);
      AboveIsAtLeast(x, m', k);
    }
  }

  // ----- the best value in each mode

  /** r is the largest value of the format that is not above x. */
  ghost predicate Largest(f: Fmt, x: Exact, r: nat)
  {
    && AtLeast(x, f.Units(r), 0)
    && forall w: nat :: f.Word(w) && f.IsFinite(w) && AtLeast(x, f.Units(w), 0) ==> f.Units(w) <= f.Units(r)
  }

  /** r is the least value of the format that is not below x. */
  ghost predicate Least(f: Fmt, x: Exact, r: nat)
  {
    && !Above(x, f.Units(r), 0)
    && forall w: nat :: f.Word(w) && f.IsFinite(w) && !Above(x, f.Units(w), 0) ==> f.Units(r) <= f.Units(w)
  }

  /** x is not on the far side of the middle between r and w. */
  predicate NotCloser(x: Exact, r: nat, w: nat)
  {
    && (w < r ==> AtLeast(x, w + r, -1))
    && (r < w ==> !Above(x, w + r, -1))
  }

  /** x is the middle between r and w. */
  predicate Tied(x: Exact, r: nat, w: nat)
  {
    w != r && AtLeast(x, w + r, -1) && !Above(x, w + r, -1)
  }

  /** No value of the format is closer to x; a tie goes to the even fraction, or to
      the larger magnitude. */
  ghost predicate Nearest(f: Fmt, even: bool, x: Exact, r: nat)
  {
    forall w: nat :: f.Word(w) && f.IsFinite(w) ==>
      && NotCloser(x, f.Units(r), f.Units(w))
      && (Tied(x, f.Units(r), f.Units(w)) ==> if even then f.Frac(r) % 2 == 0 else f.Units(w) < f.Units(r))
  }

  /** What the five modes ask for, of magnitudes with the given sign. */
  ghost predicate Best(f: Fmt, rm: Mode, sign: bool, x: Exact, r: nat)
  {
    match rm
    case RTZ => Largest(f, x, r)
    case RDN => if sign then Least(f, x, r) else Largest(f, x, r)
    case RUP => if sign then Largest(f, x, r) else Least(f, x, r)
    case RNE => Nearest(f, true, x, r)
    case RMM => Nearest(f, false, x, r)
  }

  lemma AtGrid(x: Exact, t: nat, k: nat)
    ensures AtLeast(x, Shl(t, k), 0) == AtLeast(x, t, k) && Above(x, Shl(t, k), 0) == Above(x, t, k)
    ensures AtLeast(x, Shl(t, k), -1) == AtLeast(x, t, k - 1) && Above(x, Shl(t, k), -1) == Above(x, t, k - 1)
  {
    hide AtLeast, Above, Shl;
    Rescale(x, t, 0, k);
    Rescale(x, t, -1, k);
  }

  lemma FloorIsLargest(f: Fmt, x: Exact, t: nat, k: nat, r: nat)
    requires Proper(x) && Floor(f, x, t, k) && f.Units(r) == Shl(t, k)
    ensures Largest(f, x, r)
  {
    hide AtLeast, Above, Shl, Shr, Low, P;
    AtGrid(x, t, k);
    AtGrid(x, t + 1, k);
    forall w: nat | f.Word(w) && f.IsFinite(w) && AtLeast(x, f.Units(w), 0)
      ensures f.Units(w) <= f.Units(r)
    {
      GridGap(f, t, k, w);
      if Shl(t + 1, k) <= f.Units(w) {
        Ordered(x, Shl(t + 1, k), f.Units(w), 0);
      }
    }
  }

  lemma CeilingIsLeast(f: Fmt, x: Exact, t: nat, k: nat, r: nat)
    requires Proper(x) && Floor(f, x, t, k) && f.Units(r) == Shl(if Above(x, t, k) then t + 1 else t, k)
    ensures Least(f, x, r)
  {
    hide AtLeast, Above, Shl, Shr, Low, P;
    AtGrid(x, t, k);
    AtGrid(x, t + 1, k);
    AboveIsAtLeast(x, t + 1, k);
    forall w: nat | f.Word(w) && f.IsFinite(w) && !Above(x, f.Units(w), 0)
      ensures f.Units(r) <= f.Units(w)
    {
      GridGap(f, t, k, w);
      if f.Units(w) <= Shl(t, k) {
        Ordered(x, f.Units(w), Shl(t, k), 0);
      }
    }
  }

  /** Comparing with the middle of the cell decides between its two ends. */
  lemma CellEnds(x: Exact, t: nat, k: nat, w: nat)
    requires Proper(x) && AtLeast(x, t, k) && !AtLeast(x, t + 1, k) && (w <= Shl(t, k) || Shl(t + 1, k) <= w)
    ensures !Above(x, 2 * t + 1, k - 1) ==> NotCloser(x, Shl(t, k), w)
    ensures AtLeast(x, 2 * t + 1, k - 1) ==> NotCloser(x, Shl(t + 1, k), w)
    ensures !Above(x, 2 * t + 1, k - 1) && Tied(x, Shl(t, k), w) ==> Shl(t, k) < w && AtLeast(x, 2 * t + 1, k - 1)
    ensures AtLeast(x, 2 * t + 1, k - 1) && Tied(x, Shl(t + 1, k), w) ==>
              w < Shl(t + 1, k) && !Above(x, 2 * t + 1, k - 1)
  {
    hide AtLeast, Above, Shl;
    var lo, hi := Shl(t, k), Shl(t + 1, k);
    var mid := Shl(2 * t + 1, k);
    Middle(t, k);
    AtGrid(x, 2 * t + 1, k);
    AtGrid(x, 2 * t, k);
    AtGrid(x, 2 * t + 2, k);
    Double(x, t, k - 1);
    Double(x, t + 1, k - 1);
    if w <= lo {
      Ordered(x, w + lo, Shl(2 * t, k), -1);
      Ordered(x, w + hi, mid, -1);
    } else {
      Ordered(x, mid, w + lo, -1);
      Ordered(x, Shl(2 * t + 2, k), w + hi, -1);
      AboveIsAtLeast(x, w + hi, -1);
    }
  }

  lemma Middle(t: nat, k: nat)
    ensures Shl(2 * t, k) == 2 * Shl(t, k) && Shl(2 * t + 1, k) == Shl(t, k) + Shl(t + 1, k)
    ensures Shl(2 * t + 2, k) == 2 * Shl(t + 1, k) && Shl(t, k) < Shl(t + 1, k)
  {
    hide Shl;
    ShlAdd(t, t, k);
    ShlAdd(t, t + 1, k);
    ShlAdd(t + 1, t + 1, k);
    ShlCmp(t, t + 1, k);
  }

  lemma RoundedIsNearest(f: Fmt, rm: Mode, sign: bool, x: Exact, t: nat, k: nat, r: nat)
    requires Proper(x) && Floor(f, x, t, k) && (rm == RNE || rm == RMM)
    requires f.Units(r) == Shl(Rounded(rm, sign, x, t, k), k) && f.Frac(r) % 2 == Rounded(rm, sign, x, t, k) % 2
    ensures Nearest(f, rm == RNE, x, r)
  {
    hide AtLeast, Above, Shl, Shr, Low, P, NotCloser, Tied;
    AboveIsAtLeast(x, 2 * t + 1, k - 1);
    forall w: nat | f.Word(w) && f.IsFinite(w)
      ensures NotCloser(x, f.Units(r), f.Units(w))
      ensures Tied(x, f.Units(r), f.Units(w)) ==> if rm == RNE then f.Frac(r) % 2 == 0 else f.Units(w) < f.Units(r)
    {
      GridGap(f, t, k, w);
      CellEnds(x, t, k, f.Units(w));
    }
  }

  /** A rounded grid point is the best value in its mode. */
  lemma GridBest(f: Fmt, rm: Mode, sign: bool, x: Exact, t: nat, k: nat, r: nat)
    requires Proper(x) && Floor(f, x, t, k)
    requires f.Units(r) == Shl(Rounded(rm, sign, x, t, k), k) && f.Frac(r) % 2 == Rounded(rm, sign, x, t, k) % 2
    ensures Best(f, rm, sign, x, r)
  {
    hide AtLeast, Above, Shl, Shr, Low, P, Largest, Least, Nearest, Floor;
    match rm
    case RTZ => FloorIsLargest(f, x, t, k, r);
    case RDN => if sign { CeilingIsLeast(f, x, t, k, r); } else { FloorIsLargest(f, x, t, k, r); }
    case RUP => if sign { FloorIsLargest(f, x, t, k, r); } else { CeilingIsLeast(f, x, t, k, r); }
    case RNE => RoundedIsNearest(f, rm, sign, x, t, k, r);
    case RMM => RoundedIsNearest(f, rm, sign, x, t, k, r);
  }

  // ----- overflow

  /** Exactly when the rounded magnitude is infinite: away from zero, when x is above
      the largest finite value; to nearest, from the middle to the next power on. */
  predicate ToInfinity(f: Fmt, rm: Mode, sign: bool, x: Exact)
  {
    var top := f.Units(f.MaxFinite(false));
    match rm
    case RTZ => false
    case RDN => sign && Above(x, top, 0)
    case RUP => !sign && Above(x, top, 0)
    case RNE | RMM => AtLeast(x, top + Limit(f), -1)
  }

  lemma LimitIs(f: Fmt)
    ensures P(f.E) >= 32 && Limit(f) == Shl(P(f.M + 1), P(f.E) - 3)
    ensures f.Units(f.MaxFinite(false)) == f.Units(f.MaxFinite(true)) == Shl(P(f.M + 1) - 1, P(f.E) - 3)
    ensures (P(f.M + 1) - 1) % 2 == 1
  {
    hide Shl, Shr, Low, P;
    PowerOfTwo(f);
    LargestFinite(f, false);
    LargestFinite(f, true);
    ShlP(f.M + 1, P(f.E) - 3);
    PStep(f.M);
  }

  /** A value from the limit on has its floor there too. */
  lemma FloorOverLimit(f: Fmt, x: Exact, t: nat, k: nat)
    requires Proper(x) && Floor(f, x, t, k) && AtLeast(x, Limit(f), 0)
    ensures Limit(f) <= Shl(t, k)
  {
    hide AtLeast, Above, Shl, Shr, Low, P;
    LimitIs(f);
    var top := P(f.E) - 3;
    AtGrid(x, t + 1, k);
    if Shl(t + 1, k) <= Limit(f) {
      Ordered(x, Shl(t + 1, k), Limit(f), 0);
    } else if k <= top {
      ShlShl(P(f.M + 1), top - k, k);
      ShlCmp(Shl(P(f.M + 1), top - k), t + 1, k);
      ShlCmp(Shl(P(f.M + 1), top - k), t, k);
    } else {
      ShlCmp(P(f.M), t, k);
      ShlP(f.M, k);
      PMono(f.M + 1 + top, f.M + k);
      ShlP(f.M + 1, top);
    }
  }

  /** Above the largest finite value the floor is that value or over the limit. */
  lemma TopCell(f: Fmt, x: Exact, t: nat, k: nat)
    requires Proper(x) && Floor(f, x, t, k) && AtLeast(x, f.Units(f.MaxFinite(false)), 0) && !AtLeast(x, Limit(f), 0)
    ensures t == P(f.M + 1) - 1 && k == P(f.E) - 3
  {
    hide AtLeast, Above, Shl, Shr, Low, P;
    LimitIs(f);
    PStep(f.M);
    AtGrid(x, P(f.M + 1) - 1, P(f.E) - 3);
    AtGrid(x, P(f.M + 1), P(f.E) - 3);
    FloorUnique(f, x, t, k, P(f.M + 1) - 1, P(f.E) - 3);
  }

  lemma OverflowsAtLimit(f: Fmt, n: nat, k: nat)
    ensures Overflows(f, n, k) <==> Shl(n, k) >= Limit(f)
  {
  }

  /** Rounding up to the limit or over it takes more than the largest finite value;
      to nearest, the middle at least. */
  lemma OverflowNeeds(f: Fmt, rm: Mode, sign: bool, x: Exact, t: nat, k: nat)
    requires Proper(x) && Floor(f, x, t, k) && Overflows(f, Rounded(rm, sign, x, t, k), k)
    ensures Above(x, f.Units(f.MaxFinite(false)), 0)
    ensures rm == RNE || rm == RMM ==> AtLeast(x, f.Units(f.MaxFinite(false)) + Limit(f), -1)
  {
    hide AtLeast, Above, Shl, Shr, Low, P, Overflows;
    var max, n := f.Units(f.MaxFinite(false)), Rounded(rm, sign, x, t, k);
    LimitIs(f);
    LargestFinite(f, false);
    BelowLargest(f, false, f.MaxFinite(false));
    OverflowsAtLimit(f, n, k);
    AtGrid(x, t, k);
    AtGrid(x, 2 * t + 1, k);
    Middle(t, k);
    if Shl(t, k) >= Limit(f) {
      Ordered(x, max, Shl(t, k), 0);
      Double(x, Shl(t, k), -1);
      Ordered(x, max + Limit(f), 2 * Shl(t, k), -1);
    } else {
      GridGap(f, t, k, f.MaxFinite(false));
      AboveIsAtLeast(x, 2 * t + 1, k - 1);
      Double(x, t, k - 1);
      Ordered(x, 2 * t, 2 * t + 1, k - 1);
      Ordered(x, max, Shl(t, k), 0);
      Ordered(x, max + Limit(f), Shl(2 * t + 1, k), -1);
    }
  }

  /** To nearest, from the middle on rounding overflows. */
  lemma MiddleOverflows(f: Fmt, rm: Mode, sign: bool, x: Exact, t: nat, k: nat)
    requires Proper(x) && Floor(f, x, t, k) && (rm == RNE || rm == RMM)
    requires AtLeast(x, f.Units(f.MaxFinite(false)) + Limit(f), -1)
    ensures Overflows(f, Rounded(rm, sign, x, t, k), k)
  {
    hide AtLeast, Above, Shl, Shr, Low, P, Overflows;
    var max, top := f.Units(f.MaxFinite(false)), P(f.E) - 3;
    LimitIs(f);
    Middle(P(f.M + 1) - 1, top);
    OverflowsAtLimit(f, Rounded(rm, sign, x, t, k), k);
    RoundedRange(rm, sign, x, t, k);
    ShlCmp(t, Rounded(rm, sign, x, t, k), k);
    if AtLeast(x, Limit(f), 0) {
      FloorOverLimit(f, x, t, k);
    } else {
      Ordered(x, 2 * max, max + Limit(f), -1);
      Double(x, max, -1);
      TopCell(f, x, t, k);
      AtGrid(x, 2 * t + 1, k);
    }
  }

  // ----- the rounding theorem

  /** An exact value is not moved. */
  lemma NoIncrement(rm: Mode, sign: bool, x: Exact, t: nat, k: int)
    requires Proper(x) && !Above(x, t, k)
    ensures Rounded(rm, sign, x, t, k) == t
  {
    hide AtLeast, Above;
    Double(x, t, k - 1);
    Monotone(x, 2 * t, 2 * t + 1, k - 1);
    AboveIsAtLeast(x, 2 * t + 1, k - 1);
  }

  predicate Equals(x: Exact, m: nat) { AtLeast(x, m, 0) && !Above(x, m, 0) }

  lemma FiniteNotInfinite(f: Fmt, rm: Mode, sign: bool, x: Exact, t: nat, k: nat, r: nat)
    requires Proper(x) && Floor(f, x, t, k) && !Overflows(f, Rounded(rm, sign, x, t, k), k)
    requires f.IsFinite(r) && Best(f, rm, sign, x, r)
    ensures !ToInfinity(f, rm, sign, x)
  {
    hide AtLeast, Above, Shl, Shr, Low, P, Overflows, Floor, Rounded, Nearest;
    BelowLargest(f, false, r);
    if rm == RNE || rm == RMM {
      if ToInfinity(f, rm, sign, x) {
        MiddleOverflows(f, rm, sign, x, t, k);
      }
    } else {
      Ordered(x, f.Units(r), f.Units(f.MaxFinite(false)), 0);
    }
  }

  /** A rounding that does not overflow. */
  lemma DeliveredFacts(f: Fmt, rm: Mode, sign: bool, x: Exact, t: nat, k: nat, acc: Flags, r: nat, fl: Flags)
    requires Proper(x) && Floor(f, x, t, k) && Delivers(f, rm, sign, x, t, k, acc, r, fl)
    requires !Overflows(f, Rounded(rm, sign, x, t, k), k)
    ensures f.Word(r) && f.IsFinite(r) && f.Sign(r) == sign && Best(f, rm, sign, x, r) && !ToInfinity(f, rm, sign, x)
    ensures fl.invalid == acc.invalid && fl.divByZero == acc.divByZero && fl.overflow == acc.overflow
    ensures fl.inexact <==> acc.inexact || !Equals(x, f.Units(r))
  {
    hide AtLeast, Above, Shl, Shr, Low, P, Best, Overflows, Tiny;
    var n := Rounded(rm, sign, x, t, k);
    RoundedRange(rm, sign, x, t, k);
    EncodedValue(f, sign, n, k);
    GridBest(f, rm, sign, x, t, k, r);
    FiniteNotInfinite(f, rm, sign, x, t, k, r);
    AtGrid(x, n, k);
    if !Above(x, t, k) {
      NoIncrement(rm, sign, x, t, k);
    }
    AboveIsAtLeast(x, t + 1, k);
  }

  /** A rounding that overflows. */
  lemma OverflowFacts(f: Fmt, rm: Mode, sign: bool, x: Exact, t: nat, k: nat, acc: Flags, r: nat, fl: Flags)
    requires Proper(x) && Floor(f, x, t, k) && Delivers(f, rm, sign, x, t, k, acc, r, fl)
    requires Overflows(f, Rounded(rm, sign, x, t, k), k)
    ensures f.Word(r) && !f.IsNan(r) && f.Sign(r) == sign && (f.IsInf(r) <==> ToInfinity(f, rm, sign, x))
    ensures f.IsFinite(r) ==> Best(f, rm, sign, x, r) && !Equals(x, f.Units(r))
    ensures fl == acc.Or(Flags(false, false, true, false, true)) && Above(x, f.Units(f.MaxFinite(false)), 0)
  {
    hide AtLeast, Above, Shl, Shr, Low, P, Overflows, Floor, Nearest;
    OverflowNeeds(f, rm, sign, x, t, k);
    LimitIs(f);
    Infinite(f, sign);
    LargestFinite(f, sign);
    if r == f.MaxFinite(sign) {
      AboveIsAtLeast(x, f.Units(r), 0);
      forall w: nat | f.Word(w) && f.IsFinite(w)
        ensures f.Units(w) <= f.Units(r)
      {
        BelowLargest(f, sign, w);
      }
      assert Largest(f, x, r);
    }
  }

  /** The rounding theorem. Whatever the reference delivers for an exact magnitude is
      a word of that sign, never a NaN; it is infinite exactly as the mode asks, else
      the best value of the format in the mode; inexact says whether it was met, and
      invalid and division by zero are not touched. */
  lemma RoundsToBest(f: Fmt, rm: Mode, sign: bool, x: Exact, acc: Flags, r: nat, fl: Flags)
    requires Proper(x) && RoundsTo(f, rm, sign, x, acc, r, fl)
    ensures f.Word(r) && !f.IsNan(r) && f.Sign(r) == sign
    ensures f.IsInf(r) <==> ToInfinity(f, rm, sign, x)
    ensures f.IsFinite(r) ==> Best(f, rm, sign, x, r)
    ensures fl.invalid == acc.invalid && fl.divByZero == acc.divByZero
    ensures fl.inexact <==> acc.inexact || f.IsInf(r) || !Equals(x, f.Units(r))
  {
    hide AtLeast, Above, Shl, Shr, Low, P, Overflows, Floor, Best, Delivers, ToInfinity, Equals;
    var t: nat, k: nat :| Floor(f, x, t, k) && Delivers(f, rm, sign, x, t, k, acc, r, fl);
    if Overflows(f, Rounded(rm, sign, x, t, k), k) {
      OverflowFacts(f, rm, sign, x, t, k, acc, r, fl);
    } else {
      DeliveredFacts(f, rm, sign, x, t, k, acc, r, fl);
    }
  }
}
