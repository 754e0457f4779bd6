/** Rounding and packing (rshift_rnd, round_pack_sf, normalize_sf,
    normalize2_sf), proved to be the correct rounding of the exact magnitude
    their mantissa stands for. Shifts and masks are written as division, product
    and remainder by powers of two. */
module RoundPack {
  import opened Bits
  import opened Ieee754
  import opened StickyBits

  /** RND_SIZE == IMANT_SIZE - MANT_SIZE */
  function Rnd(f: Fmt): nat { f.F - 2 - f.M }

  /** Set the lowest bit when c holds: a | c. */
  function OrBit(a: nat, c: bool): nat { if c && a % 2 == 0 then a + 1 else a }

  /** Right shift by d keeping a sticky bit; any d, even beyond the word. */
  function RshiftRnd(f: Fmt, a: nat, d: nat): (r: nat)
    requires f.Word(a)
    ensures r == Jam(a, d)
  {
    if d == 0 then
      Small(0, 0); SplitUnique(a, 0, a, 0);
      a
    else if d >= f.F then
      PMono(f.F, d); Small(a, d);
      if a != 0 then 1 else 0
    else
      OrBit(Shr(a, d), Low(a, d) != 0)
  }

  // ----- uniqueness: the reference is a function of the exact value

  lemma LeadingBelow(f: Fmt, x: Exact, t: nat, k: int, t': nat, k': int)
    requires Proper(x) && t + 1 <= P(f.M + 1) && P(f.M) <= t' && k < k'
    requires AtLeast(x, t', k')
    ensures AtLeast(x, t + 1, k)
  {
    hide AtLeast, Above, Shl, P;
    var d: nat := k' - k;
    Rescale(x, t', k, d);
    ShlCmp(P(f.M), t', d);
    ShlP(f.M, d);
    PMono(f.M + 1, f.M + d);
    if t + 1 < Shl(t', d) {
      Monotone(x, t + 1, Shl(t', d), k);
      AboveIsAtLeast(x, t + 1, k);
    }
  }

  lemma LeadingUnique(f: Fmt, x: Exact, t: nat, k: int, t': nat, k': int)
    requires Proper(x) && Leading(f, x, t, k) && Leading(f, x, t', k')
    ensures t == t' && k == k'
  {
    hide AtLeast, Above, P;
    if k < k' { LeadingBelow(f, x, t, k, t', k'); }
    if k' < k { LeadingBelow(f, x, t', k', t, k); }
    CutUnique(x, t, t', k);
  }

  lemma CutUnique(x: Exact, t: nat, t': nat, k: int)
    requires Proper(x)
    requires AtLeast(x, t, k) && !AtLeast(x, t + 1, k)
    requires AtLeast(x, t', k) && !AtLeast(x, t' + 1, k)
    ensures t == t'
  {
    hide AtLeast, Above;
    CutCompare(x, t, k, t');
    CutCompare(x, t', k, t);
  }

  lemma FloorUnique(f: Fmt, x: Exact, t: nat, k: nat, t': nat, k': nat)
    requires Proper(x) && Floor(f, x, t, k) && Floor(f, x, t', k')
    ensures t == t' && k == k'
  {
    hide AtLeast, Above, P;
    if k < k' { LeadingBelow(f, x, t, k, t', k'); }
    if k' < k { LeadingBelow(f, x, t', k', t, k); }
    CutUnique(x, t, t', k);
  }

  lemma DeliversUnique(f: Fmt, rm: Mode, sign: bool, x: Exact, t: nat, k: nat, acc: Flags, r: nat, fl: Flags, r': nat,
                       fl': Flags)
    requires Delivers(f, rm, sign, x, t, k, acc, r, fl) && Delivers(f, rm, sign, x, t, k, acc, r', fl')
    ensures r == r' && fl == fl'
  {
    hide Rounded, Tiny, Overflows, Encode, Above;
  }

  /** The reference determines the pattern and the flags. */
  lemma RoundsToUnique(f: Fmt, rm: Mode, sign: bool, x: Exact, acc: Flags, r: nat, fl: Flags, r': nat, fl': Flags)
    requires Proper(x)
    requires RoundsTo(f, rm, sign, x, acc, r, fl) && RoundsTo(f, rm, sign, x, acc, r', fl')
    ensures r == r' && fl == fl'
  {
    hide Floor, Delivers;
    var t: nat, k: nat :| Floor(f, x, t, k) && Delivers(f, rm, sign, x, t, k, acc, r, fl);
    var t': nat, k': nat :| Floor(f, x, t', k') && Delivers(f, rm, sign, x, t', k', acc, r', fl');
    FloorUnique(f, x, t, k, t', k');
    DeliversUnique(f, rm, sign, x, t, k, acc, r, fl, r', fl');
  }

  // ----- the rounding step shared by round_pack_sf and the integer conversions

  /** What is added before the low k bits are cut off. */
  function Addend(rm: Mode, sign: bool, k: nat): nat
    requires k > 0
  {
    match rm
    case RNE | RMM => P(k - 1)
    case RTZ => 0
    case RDN => if sign then P(k) - 1 else 0
    case RUP => if !sign then P(k) - 1 else 0
  }

  /** Add, cut the low k bits off, and clear the lowest bit of a tie. */
  function RoundBits(rm: Mode, sign: bool, m: nat, k: nat): nat
    requires k > 0
  {
    var n := Shr(m + Addend(rm, sign, k), k);
    if rm == RNE && Low(m, k) == P(k - 1) then n - n % 2 else n
  }

  lemma RoundBitsCases(rm: Mode, sign: bool, m: nat, k: nat, t: nat, r: nat)
    requires k > 0 && r < P(k) && m == Shl(t, k) + r
    ensures RoundBits(rm, sign, m, k) ==
            match rm
            case RTZ => t
            case RDN => if sign && r != 0 then t + 1 else t
            case RUP => if !sign && r != 0 then t + 1 else t
            case RMM => if P(k - 1) <= r then t + 1 else t
            case RNE => if P(k - 1) < r || (P(k - 1) == r && t % 2 == 1) then t + 1 else t
  {
    hide Shl, Shr, Low, P;
    PStep(k - 1);
    var p, add := P(k), Addend(rm, sign, k);
    SplitUnique(m, k, t, r);
    if r + add < p {
      SplitUnique(m + add, k, t, r + add);
    } else {
      ShlSucc(t, k);
      SplitUnique(m + add, k, t + 1, r + add - p);
    }
  }

  /** Rounding the mantissa is rounding the exact value. */
  lemma RoundBitsCorrect(rm: Mode, sign: bool, x: Exact, m: nat, e: int, g: nat, k: nat, t: nat, r: nat)
    requires StandsFor(x, m, e, g) && g < k
    requires r < P(k) && m == Shl(t, k) + r
    ensures RoundBits(rm, sign, m, k) == Rounded(rm, sign, x, t, e + k)
    ensures AtLeast(x, t, e + k) && !AtLeast(x, t + 1, e + k)
    ensures Above(x, t, e + k) <==> r != 0
  {
    hide AtLeast, Above, StandsFor, RoundBits, Shl, P;
    Bracket(x, m, e, g, k, t, r);
    RoundBitsCases(rm, sign, m, k, t, r);
  }

  // ----- round_pack_sf

  lemma Sizes(f: Fmt)
    ensures P(f.E) >= 32 && Rnd(f) == f.E - 1
    ensures P(f.F - 1) == Shl(P(f.M + 1), Rnd(f))
    ensures P(f.F - 2) == Shl(P(f.M), Rnd(f))
    ensures P(f.M + 1) == 2 * P(f.M)
    ensures 2 * P(f.F - 2) == P(f.F - 1)
    ensures 2 * P(f.F - 1) == P(f.F)
  {
    PMono(5, f.E);
    ShlP(f.M + 1, Rnd(f));
    ShlP(f.M, Rnd(f));
    PStep(f.F - 2);
    PStep(f.F - 1);
  }

  /** A mantissa with its top bit at F_SIZE - 2, or zero. */
  predicate Normal(f: Fmt, m: nat) { m == 0 || P(f.F - 2) <= m < P(f.F - 1) }

  /** The unbounded-exponent rounding of x, read off a normal mantissa. */
  lemma LeadingBits(f: Fmt, rm: Mode, sign: bool, x: Exact, exp: int, m: nat)
    requires Proper(x) && P(f.F - 2) <= m < P(f.F - 1)
    requires StandsFor(x, m, exp - f.E, Rnd(f) - 1)
    ensures Leading(f, x, Shr(m, Rnd(f)), exp - 1)
    ensures RoundBits(rm, sign, m, Rnd(f)) == Rounded(rm, sign, x, Shr(m, Rnd(f)), exp - 1)
    ensures P(f.M) <= RoundBits(rm, sign, m, Rnd(f)) <= P(f.M + 1)
  {
    hide AtLeast, Above, StandsFor, RoundBits, Rounded, Shl, Shr, Low, P;
    Sizes(f);
    var rnd := Rnd(f);
    var t := Shr(m, rnd);
    Split(m, rnd);
    ShrLt(m, rnd, P(f.M + 1));
    ShrLt(m, rnd, P(f.M));
    assert exp - f.E + rnd == exp - 1;
    RoundBitsCorrect(rm, sign, x, m, exp - f.E, rnd - 1, rnd, t, Low(m, rnd));
    RoundedRange(rm, sign, x, t, exp - 1);
  }

  lemma RoundedRange(rm: Mode, sign: bool, x: Exact, t: nat, k: int)
    ensures t <= Rounded(rm, sign, x, t, k) <= t + 1
  {
    hide AtLeast, Above;
  }

  lemma BelowLeastNormal(M: nat, n: nat, exp: int)
    requires P(M) <= n <= 2 * P(M)
    ensures Shl(n, Pos(exp - 1)) < Shl(P(M), Pos(1 - exp)) <==> exp < 0 || (exp == 0 && n < 2 * P(M))
  {
    hide Shl, P;
    ShlNone(n, 0);
    ShlNone(P(M), 0);
    if exp >= 1 {
      ShlGrows(n, 0, exp - 1);
    } else {
      ShlP(M, 1 - exp);
      PStep(M);
      if exp < 0 {
        PStep(M + 1);
        PMono(M + 2, M + 1 - exp);
      }
    }
  }

  /** Tininess can be decided on the mantissa. */
  lemma TinyIff(f: Fmt, rm: Mode, sign: bool, x: Exact, exp: int, m: nat)
    requires Proper(x) && P(f.F - 2) <= m < P(f.F - 1)
    requires StandsFor(x, m, exp - f.E, Rnd(f) - 1)
    ensures Tiny(f, rm, sign, x) <==> exp < 0 || (exp == 0 && RoundBits(rm, sign, m, Rnd(f)) < P(f.M + 1))
  {
    hide AtLeast, Above, StandsFor, RoundBits, Leading, Rounded, Shl, Shr, P;
    LeadingBits(f, rm, sign, x, exp, m);
    var t, n := Shr(m, Rnd(f)), RoundBits(rm, sign, m, Rnd(f));
    PStep(f.M);
    BelowLeastNormal(f.M, n, exp);
    if Tiny(f, rm, sign, x) {
      var t': nat, k': int :| Leading(f, x, t', k')
        && Shl(Rounded(rm, sign, x, t', k'), Pos(k')) < Shl(P(f.M), Pos(-k'));
      LeadingUnique(f, x, t, exp - 1, t', k');
    } else {
      assert Leading(f, x, t, exp - 1);
    }
  }

  /** pack_sf: the fraction field keeps only the low M bits of the mantissa. */
  function PackSf(f: Fmt, sign: bool, exp: nat, mant: nat): nat { f.Pack(sign, exp, Low(mant, f.M)) }

  lemma CarryOut(f: Fmt, n: nat)
    requires P(f.M) <= n <= P(f.M + 1)
    ensures Shr(n, f.M + 1) == (if n == P(f.M + 1) then 1 else 0)
    ensures Low(n, f.M) == (if n == P(f.M + 1) then 0 else n - P(f.M))
  {
    hide Shl, Shr, Low, P;
    PStep(f.M);
    ShlP(0, f.M);
    ShlP(0, f.M + 1);
    PZero();
    ShlAdd(1, 1, f.M);
    if n == P(f.M + 1) {
      SplitUnique(n, f.M + 1, 1, 0);
      SplitUnique(n, f.M, 2, 0);
    } else {
      Small(n, f.M + 1);
      SplitUnique(n, f.M, 1, n - P(f.M));
    }
  }

  /** A carry out of the rounding bumps the exponent field by itself. */
  lemma PackRounded(f: Fmt, sign: bool, exp: nat, n: nat)
    requires exp >= 1 && P(f.M) <= n <= P(f.M + 1)
    ensures PackSf(f, sign, exp + Shr(n, f.M + 1), n) == Encode(f, sign, n, exp - 1)
  {
    hide Shl, Shr, Low, P;
    CarryOut(f, n);
    PStep(f.M);
    ShlSucc(exp - 1, f.M);
    ShlSucc(exp, f.M);
  }

  lemma PackSubnormal(f: Fmt, sign: bool, n: nat)
    requires n < P(f.M)
    ensures PackSf(f, sign, 0, n) == Encode(f, sign, n, 0)
  {
    hide Shl, Shr, Low, P;
    Small(n, f.M);
  }

  lemma OverflowIff(f: Fmt, exp: nat, n: nat)
    requires exp >= 1 && P(f.M) <= n <= P(f.M + 1)
    ensures Overflows(f, n, exp - 1) <==> exp + Shr(n, f.M + 1) >= f.ExpMask()
  {
    hide Shl, Shr, Low, P;
    Sizes(f);
    CarryOut(f, n);
    var top := P(f.E) - 2;
    ShlP(f.M, exp - 1);
    ShlP(f.M + 1, exp - 1);
    ShlCmp(P(f.M), n, exp - 1);
    ShlCmp(n, P(f.M + 1), exp - 1);
    if exp >= top + 1 {
      PMono(f.M + top, f.M + exp - 1);
    } else if exp == top {
    } else {
      PStrict(f.M + exp, f.M + top);
    }
  }

  lemma NotOverflowsSubnormal(f: Fmt, n: nat)
    requires n < P(f.M)
    ensures !Overflows(f, n, 0)
  {
    hide Shl, P;
    Sizes(f);
    PMono(f.M, f.M + P(f.E) - 2);
    ShlNone(n, 0);
  }

  lemma JamBound(m: nat, d: nat, b: nat)
    requires b % 2 == 0 && m < Shl(b, d)
    ensures Jam(m, d) < b
  {
    hide Shl, Shr, Low, P;
    ShrLt(m, d, b);
  }

  lemma JamHalves(m: nat, d: nat, n: nat)
    requires d >= 1 && n >= 1 && m < P(n + 1)
    ensures Jam(m, d) < P(n)
  {
    hide Shl, Jam, P;
    ShlP(n, d);
    PMono(n + 1, n + d);
    PStep(n - 1);
    JamBound(m, d, P(n));
  }

  /** The subnormal path: shift the mantissa down to exponent 1. */
  lemma Subnormal(f: Fmt, x: Exact, exp: int, m: nat)
    requires exp <= 0 && Normal(f, m)
    requires StandsFor(x, m, exp - f.E, Rnd(f) - 1)
    ensures StandsFor(x, Jam(m, 1 - exp), 1 - f.E, Rnd(f) - 1)
    ensures Jam(m, 1 - exp) < P(f.F - 2)
  {
    hide StandsFor, Jam, P;
    JamHalves(m, 1 - exp, f.F - 2);
    ShiftRight(x, m, exp - f.E, Rnd(f) - 1, 1 - exp, Rnd(f) - 1);
  }

  /** What both paths end with: exp >= 1, and a mantissa whose low RND_SIZE bits
      are still to be rounded away. */
  ghost predicate Shifted(f: Fmt, rm: Mode, sign: bool, x: Exact, exp: nat, m: nat, tiny: bool)
  {
    && exp >= 1 && m < P(f.F - 1) && (exp > 1 ==> P(f.F - 2) <= m)
    && StandsFor(x, m, exp - f.E, Rnd(f) - 1)
    && (Low(m, Rnd(f)) != 0 ==> (tiny <==> Tiny(f, rm, sign, x)))
  }

  lemma ShiftedFloor(f: Fmt, rm: Mode, sign: bool, x: Exact, exp: nat, m: nat, tiny: bool)
    returns (t: nat)
    requires Shifted(f, rm, sign, x, exp, m, tiny)
    ensures exp >= 1 && Floor(f, x, t, exp - 1)
    ensures RoundBits(rm, sign, m, Rnd(f)) == Rounded(rm, sign, x, t, exp - 1) <= P(f.M + 1)
    ensures exp > 1 ==> P(f.M) <= Rounded(rm, sign, x, t, exp - 1)
    ensures Above(x, t, exp - 1) <==> Low(m, Rnd(f)) != 0
    ensures Above(x, t, exp - 1) ==> (tiny <==> Tiny(f, rm, sign, x))
  {
    hide AtLeast, Above, StandsFor, RoundBits, Rounded, Tiny, Shl, Shr, Low, P;
    Sizes(f);
    var rnd := Rnd(f);
    t := Shr(m, rnd);
    Split(m, rnd);
    ShrLt(m, rnd, P(f.M + 1));
    ShrLt(m, rnd, P(f.M));
    assert exp - f.E + rnd == exp - 1;
    RoundBitsCorrect(rm, sign, x, m, exp - f.E, rnd - 1, rnd, t, Low(m, rnd));
    RoundedRange(rm, sign, x, t, exp - 1);
  }

  lemma Delivered(f: Fmt, rm: Mode, sign: bool, x: Exact, t: nat, k: nat, acc: Flags, r: nat, fl: Flags)
    requires Floor(f, x, t, k)
    requires Delivers(f, rm, sign, x, t, k, acc, r, fl)
    ensures RoundsTo(f, rm, sign, x, acc, r, fl)
  {
    hide Floor, Delivers;
  }

  lemma DeliverFiniteAt(f: Fmt, rm: Mode, sign: bool, x: Exact, t: nat, k: nat, acc: Flags, r: nat, fl: Flags)
    requires Floor(f, x, t, k)
    requires var n := Rounded(rm, sign, x, t, k); !Overflows(f, n, k) && r == Encode(f, sign, n, k)
    requires fl == acc.Or(Flags(false, false, false, Above(x, t, k) && Tiny(f, rm, sign, x), Above(x, t, k)))
    ensures RoundsTo(f, rm, sign, x, acc, r, fl)
  {
    hide Floor, Rounded, Tiny, Overflows, Encode, Above;
    assert Delivers(f, rm, sign, x, t, k, acc, r, fl);
  }

  /** A value of the format rounds to itself, exactly, in every mode. */
  lemma ExactRounds(f: Fmt, rm: Mode, sign: bool, x: Exact, t: nat, k: nat, acc: Flags)
    requires Proper(x) && AtLeast(x, t, k) && !Above(x, t, k)
    requires t < P(f.M + 1) && (k > 0 ==> P(f.M) <= t) && !Overflows(f, t, k)
    ensures RoundsTo(f, rm, sign, x, acc, Encode(f, sign, t, k), acc)
  {
    hide AtLeast, Above, P, Overflows, Encode, RoundsTo, Tiny;
    Monotone(x, t, t + 1, k);
    Double(x, t, k - 1);
    Monotone(x, 2 * t, 2 * t + 1, k - 1);
    AboveIsAtLeast(x, 2 * t + 1, k - 1);
    assert Rounded(rm, sign, x, t, k) == t;
    DeliverFiniteAt(f, rm, sign, x, t, k, acc, Encode(f, sign, t, k), acc);
  }

  lemma DeliverFinite(f: Fmt, rm: Mode, sign: bool, x: Exact, exp: nat, m: nat, tiny: bool, acc: Flags, fl: Flags)
    requires Shifted(f, rm, sign, x, exp, m, tiny)
    requires var inexact := Low(m, Rnd(f)) != 0;
             fl == acc.Or(Flags(false, false, false, inexact && tiny, inexact))
    ensures var n := RoundBits(rm, sign, m, Rnd(f));
            if n < P(f.M) then
              RoundsTo(f, rm, sign, x, acc, PackSf(f, sign, 0, n), fl)
            else
              exp + Shr(n, f.M + 1) < f.ExpMask() ==>
                RoundsTo(f, rm, sign, x, acc, PackSf(f, sign, exp + Shr(n, f.M + 1), n), fl)
  {
    hide AtLeast, Above, RoundBits, PackSf, Encode, Rounded, Tiny, Overflows, P, Floor, Shifted, RoundsTo, Shl, Shr,
         Low;
    var t := ShiftedFloor(f, rm, sign, x, exp, m, tiny);
    var n := RoundBits(rm, sign, m, Rnd(f));
    if n < P(f.M) {
      PackSubnormal(f, sign, n);
      NotOverflowsSubnormal(f, n);
      DeliverFiniteAt(f, rm, sign, x, t, exp - 1, acc, PackSf(f, sign, 0, n), fl);
    } else if exp + Shr(n, f.M + 1) < f.ExpMask() {
      PackRounded(f, sign, exp, n);
      OverflowIff(f, exp, n);
      DeliverFiniteAt(f, rm, sign, x, t, exp - 1, acc, PackSf(f, sign, exp + Shr(n, f.M + 1), n), fl);
    }
  }

  lemma DeliverOverflow(f: Fmt, rm: Mode, sign: bool, x: Exact, exp: nat, m: nat, tiny: bool, acc: Flags)
    requires Shifted(f, rm, sign, x, exp, m, tiny)
    requires P(f.M) <= RoundBits(rm, sign, m, Rnd(f))
    requires exp + Shr(RoundBits(rm, sign, m, Rnd(f)), f.M + 1) >= f.ExpMask()
    ensures RoundsTo(f, rm, sign, x, acc, if OverflowToInf(rm, sign) then f.Inf(sign) else f.MaxFinite(sign),
                     acc.Or(Flags(false, false, true, false, true)))
    ensures exp > 1
  {
    hide AtLeast, Above, RoundBits, Rounded, Tiny, Overflows, P, Floor, Shifted, RoundsTo, Shl, Shr, Low;
    var t := ShiftedFloor(f, rm, sign, x, exp, m, tiny);
    var n := RoundBits(rm, sign, m, Rnd(f));
    OverflowIff(f, exp, n);
    CarryOut(f, n);
    Sizes(f);
    Delivered(f, rm, sign, x, t, exp - 1, acc, if OverflowToInf(rm, sign) then f.Inf(sign) else f.MaxFinite(sign),
              acc.Or(Flags(false, false, true, false, true)));
  }

  lemma NotAboveZero(x: Exact, k: int, k': int)
    requires !Above(x, 0, k)
    ensures !Above(x, 0, k')
  {
    hide AtLeast, Above, Shl;
    if k <= k' {
      Rescale(x, 0, k, k' - k);
      ShlNone(0, k' - k);
    } else {
      Rescale(x, 0, k', k - k');
      ShlNone(0, k - k');
    }
  }

  /** A zero mantissa stands for zero, whatever its exponent. */
  lemma ZeroAnyExponent(x: Exact, e: int, e': int, g: nat)
    requires Proper(x) && StandsFor(x, 0, e, g)
    ensures StandsFor(x, 0, e', g)
  {
    hide SameSide;
    assert SameSide(x, 0, e, g, 0);
    forall j: nat
      ensures SameSide(x, 0, e', g, j)
    {
      ZeroAt(x, e, e', g, j);
    }
  }

  lemma ZeroAt(x: Exact, e: int, e': int, g: nat, j: nat)
    requires Proper(x) && SameSide(x, 0, e, g, 0)
    ensures SameSide(x, 0, e', g, j)
  {
    hide AtLeast, Above, Shl;
    NotAboveZero(x, e + g, e' + g);
    AtLeastZero(x, e' + g);
    AboveIsAtLeast(x, j, e' + g);
    ShlNone(0, g);
    ShlCmp(0, j, g);
    if j > 0 {
      Monotone(x, 0, j, e' + g);
    }
  }

  /** The test made before the shift decides tininess after rounding. */
  lemma SubnormalTest(f: Fmt, rm: Mode, sign: bool, x: Exact, exp: int, m: nat)
    requires Proper(x) && exp <= 0 && P(f.F - 2) <= m < P(f.F - 1)
    requires StandsFor(x, m, exp - f.E, Rnd(f) - 1)
    ensures Tiny(f, rm, sign, x) <==> exp < 0 || m + Addend(rm, sign, Rnd(f)) < P(f.F - 1)
  {
    hide AtLeast, Above, StandsFor, Tiny, Addend, Shl, Shr, Low, P;
    TinyIff(f, rm, sign, x, exp, m);
    LeadingBits(f, rm, sign, x, exp, m);
    Sizes(f);
    ShrLt(m + Addend(rm, sign, Rnd(f)), Rnd(f), P(f.M + 1));
  }

  lemma PackSpecial(f: Fmt, sign: bool)
    ensures PackSf(f, sign, f.ExpMask() - 1, P(f.M) - 1) == f.MaxFinite(sign)
    ensures PackSf(f, sign, f.ExpMask(), 0) == f.Inf(sign)
  {
    hide Shl, Low, P;
    Small(P(f.M) - 1, f.M);
    Small(0, f.M);
  }

  lemma AddendCases(rm: Mode, sign: bool, k: nat)
    requires k > 0
    ensures Addend(rm, sign, k) < P(k)
    ensures k > 1 ==> (Addend(rm, sign, k) == 0 <==> !OverflowToInf(rm, sign))
  {
    hide P;
    PStep(k - 1);
  }

  lemma NoWrap(f: Fmt, m: nat, a: nat)
    requires m < P(f.F - 1) && a < P(Rnd(f))
    ensures m + a < P(f.F) && m < P(f.F)
  {
    PMono(Rnd(f), f.F - 1);
    PStrict(f.F - 1, f.F);
  }

  lemma SubnormalPath(f: Fmt, rm: Mode, sign: bool, x: Exact, exp: int, m: nat)
    requires Proper(x) && exp <= 0 && Normal(f, m)
    requires StandsFor(x, m, exp - f.E, Rnd(f) - 1)
    ensures Shifted(f, rm, sign, x, 1, Jam(m, 1 - exp), exp < 0 || m + Addend(rm, sign, Rnd(f)) < P(f.F - 1))
  {
    hide AtLeast, Above, StandsFor, Tiny, Addend, Shl, Shr, Low, P;
    Subnormal(f, x, exp, m);
    PStrict(f.F - 2, f.F - 1);
    if m == 0 {
      Small(0, 1 - exp);
      Small(0, Rnd(f));
    } else {
      SubnormalTest(f, rm, sign, x, exp, m);
    }
  }

  lemma NormalPath(f: Fmt, rm: Mode, sign: bool, x: Exact, exp: nat, m: nat)
    requires Proper(x) && exp >= 1 && Normal(f, m)
    requires StandsFor(x, m, exp - f.E, Rnd(f) - 1)
    ensures Shifted(f, rm, sign, x, if m == 0 then 1 else exp, m, false)
  {
    hide AtLeast, Above, StandsFor, Tiny, Shl, Shr, Low, P;
    if m == 0 {
      Small(0, Rnd(f));
      ZeroAnyExponent(x, exp - f.E, 1 - f.E, Rnd(f) - 1);
    } else {
      TinyIff(f, rm, sign, x, exp, m);
    }
  }

  lemma RoundsZero(f: Fmt, rm: Mode, sign: bool, m: nat)
    ensures m == 0 ==> RoundBits(rm, sign, m, Rnd(f)) == 0 && Shr(0, f.M + 1) == 0
  {
    hide RoundBits, Shr, P, Shl;
    if m == 0 {
      Small(0, f.M + 1);
      ShlNone(0, Rnd(f));
      RoundBitsCases(rm, sign, 0, Rnd(f), 0, 0);
    }
  }

  /** The second half of round_pack_sf: round, renormalize, detect overflow, pack. */
  method PackRounding(f: Fmt, sign: bool, aExp: int, aMant: nat, rm: Mode, addend: nat, aFl: Flags,
                      ghost x: Exact, ghost tiny: bool, ghost acc: Flags)
    returns (r: nat, fl: Flags)
    requires addend == Addend(rm, sign, Rnd(f)) && aExp >= 1
    requires Shifted(f, rm, sign, x, if aMant == 0 then 1 else aExp, aMant, tiny) && (tiny ==> aExp == 1)
    requires aFl == acc.Or(Flags(false, false, false, Low(aMant, Rnd(f)) != 0 && tiny, false))
    ensures RoundsTo(f, rm, sign, x, acc, r, fl)
  {
    hide AtLeast, Above, RoundsTo, Tiny, P, PackSf, Addend, Shifted, Shl, Shr, Low;
    Sizes(f);
    AddendCases(rm, sign, Rnd(f));
    var rnd := Rnd(f);
    var rndBits := Low(aMant, rnd);
    fl := aFl;
    if rndBits != 0 {
      fl := fl.(inexact := true);
    }
    ghost var e: nat := if aMant == 0 then 1 else aExp;
    DeliverFinite(f, rm, sign, x, e, aMant, tiny, acc, fl);
    var mant := Shr(aMant + addend, rnd);
    if rm == RNE && rndBits == P(rnd - 1) {
      mant := mant - mant % 2;
    }
    assert mant == RoundBits(rm, sign, aMant, rnd);
    RoundsZero(f, rm, sign, aMant);
    var exp := aExp + Shr(mant, f.M + 1);
    if mant <= P(f.M) - 1 {
      exp := 0;
    } else if exp >= f.ExpMask() {
      DeliverOverflow(f, rm, sign, x, e, aMant, tiny, acc);
      PackSpecial(f, sign);
      if addend == 0 {
        exp, mant := f.ExpMask() - 1, P(f.M) - 1;
      } else {
        exp, mant := f.ExpMask(), 0;
      }
      fl := fl.(overflow := true, inexact := true);
    }
    r := PackSf(f, sign, exp, mant);
  }

  /** round_pack_sf: if the mantissa stands for x, the packed word and the flags
      are the correct rounding of x. */
  method RoundPackSf(f: Fmt, sign: bool, aExp: int, aMant: nat, rm: Mode, acc: Flags, ghost x: Exact)
    returns (r: nat, fl: Flags)
    requires Proper(x) && Normal(f, aMant)
    requires StandsFor(x, aMant, aExp - f.E, Rnd(f) - 1)
    ensures RoundsTo(f, rm, sign, x, acc, r, fl)
  {
    hide AtLeast, Above, StandsFor, RoundsTo, Jam, Tiny, P, Addend, Shifted, Shl, Shr, Low;
    AddendCases(rm, sign, Rnd(f));
    fl := acc;
    var rnd := Rnd(f);
    var exp, mant := aExp, aMant;
    var addend := Addend(rm, sign, rnd);
    NoWrap(f, mant, addend);
    assert mant + addend < P(f.F);
    ghost var tiny := false;
    if exp <= 0 {
      var isSubnormal := exp < 0 || mant + addend < P(f.F - 1);
      SubnormalPath(f, rm, sign, x, exp, mant);
      tiny := isSubnormal;
      mant := RshiftRnd(f, mant, 1 - exp);
      if isSubnormal && Low(mant, rnd) != 0 {
        fl := fl.(underflow := true);
      }
      exp := 1;
    } else {
      NormalPath(f, rm, sign, x, exp, mant);
    }
    r, fl := PackRounding(f, sign, exp, mant, rm, addend, fl, x, tiny, acc);
  }
}
