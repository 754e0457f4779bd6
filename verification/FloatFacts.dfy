/** Facts about the arithmetic operations that do not lean on how their results are
    described: when a NaN comes out, what 1 and 0 do, and the words of the formats. */
module FloatFacts {
  import opened Bits
  import opened Ieee754
  import opened StickyBits
  import opened RoundPack
  import opened Fields
  import opened FloatLaws
  import opened Comparison
  import opened Conversion

  // ----- NaNs

  lemma NanIsQuiet(f: Fmt, signalling: bool, acc: Flags, r: nat, fl: Flags)
    requires NanResult(f, signalling, acc, r, fl)
    ensures f.Word(r) && f.IsNan(r) && !f.IsSignalling(r) && !f.Sign(r)
    ensures fl.invalid <==> acc.invalid || signalling
  {
    hide Format.IsNan, Format.IsSignalling, Format.Sign, Format.Word, Format.QNan;
    QuietNan(f);
  }

  lemma PlainWords(f: Fmt, sign: bool)
    ensures f.Word(f.Inf(sign)) && f.IsInf(f.Inf(sign)) && !f.IsNan(f.Inf(sign)) && f.Sign(f.Inf(sign)) == sign
    ensures f.Word(f.Zero(sign)) && IsZero(f, f.Zero(sign)) && !f.IsNan(f.Zero(sign)) && f.Sign(f.Zero(sign)) == sign
  {
    hide Shl, P, Shr, Low;
    Infinite(f, sign);
    PowerOfTwo(f);
    PackFields(f, sign, 0, 0);
    SignificandRange(f, f.Zero(sign));
  }

  lemma OnePositive(f: Fmt)
    ensures P(f.One()) > 0
  {
  }

  /** A word is a NaN, infinite or finite; a signalling one is a NaN, a zero finite. */
  lemma Classes(f: Fmt, a: nat)
    ensures f.IsFinite(a) <==> !f.IsNan(a) && !f.IsInf(a)
    ensures !(f.IsNan(a) && f.IsInf(a)) && (f.IsSignalling(a) ==> f.IsNan(a))
    ensures IsZero(f, a) <==> f.IsFinite(a) && f.Units(a) == 0
  {
  }

  /** A signalling operand, or a NaN out of operands that are none. */
  predicate Complains(f: Fmt, a: nat, b: nat, r: nat)
  {
    f.IsSignalling(a) || f.IsSignalling(b) || (f.IsNan(r) && !f.IsNan(a) && !f.IsNan(b))
  }

  /** A sum is a NaN exactly for a NaN operand or infinities of opposite signs, and
      then a quiet one. */
  lemma SumNan(f: Fmt, rm: Mode, a: nat, b: nat, acc: Flags, r: nat, fl: Flags)
    requires IsSum(f, rm, a, b, acc, r, fl)
    ensures f.Word(r) && (f.IsNan(r) ==> !f.IsSignalling(r) && !f.Sign(r))
    ensures f.IsNan(r) <==> f.IsNan(a) || f.IsNan(b) || (f.IsInf(a) && f.IsInf(b) && f.Sign(a) != f.Sign(b))
    ensures fl.invalid <==> acc.invalid || Complains(f, a, b, r)
  {
    hide Format.IsNan, Format.IsInf, Format.IsFinite, Format.IsSignalling, Format.Sign, Format.Word, Format.Units,
         Format.QNan,
         Format.Inf,
         RoundsTo;
    Classes(f, a);
    Classes(f, b);
    QuietNan(f);
    PlainWords(f, false);
    PlainWords(f, true);
    if !f.IsNan(a) && !f.IsNan(b) && !f.IsInf(a) && !f.IsInf(b) {
      var v := SignedUnits(f, a) + SignedUnits(f, b);
      RoundsToBest(f, rm, SumSign(rm, f.Sign(a), f.Sign(b), v), Quotient(Abs(v), 1), acc, r, fl);
    }
  }

  lemma DifferenceNan(f: Fmt, rm: Mode, a: nat, b: nat, acc: Flags, r: nat, fl: Flags)
    requires IsDifference(f, rm, a, b, acc, r, fl)
    ensures f.Word(r) && (f.IsNan(r) ==> !f.IsSignalling(r) && !f.Sign(r))
    ensures f.IsNan(r) <==> f.IsNan(a) || f.IsNan(b) || (f.IsInf(a) && f.IsInf(b) && f.Sign(a) == f.Sign(b))
    ensures fl.invalid <==> acc.invalid || Complains(f, a, b, r)
  {
    hide Format.IsNan, Format.IsInf, Format.IsFinite, Format.IsSignalling, Format.Sign, Format.Word, Format.Units,
         Format.QNan,
         Format.Inf,
         RoundsTo;
    Classes(f, a);
    Classes(f, b);
    QuietNan(f);
    PlainWords(f, false);
    PlainWords(f, true);
    if !f.IsNan(a) && !f.IsNan(b) && !f.IsInf(a) && !f.IsInf(b) {
      var v := SignedUnits(f, a) - SignedUnits(f, b);
      RoundsToBest(f, rm, SumSign(rm, f.Sign(a), !f.Sign(b), v), Quotient(Abs(v), 1), acc, r, fl);
    }
  }

  /** A product is a NaN exactly for a NaN operand or zero times infinity. */
  lemma ProductNan(f: Fmt, rm: Mode, a: nat, b: nat, acc: Flags, r: nat, fl: Flags)
    requires IsProduct(f, rm, a, b, acc, r, fl)
    ensures f.Word(r) && (f.IsNan(r) ==> !f.IsSignalling(r) && !f.Sign(r))
    ensures f.IsNan(r) <==>
              f.IsNan(a) || f.IsNan(b) || (f.IsInf(a) && IsZero(f, b)) || (IsZero(f, a) && f.IsInf(b))
    ensures fl.invalid <==> acc.invalid || Complains(f, a, b, r)
  {
    hide Format.IsNan, Format.IsInf, Format.IsFinite, Format.IsSignalling, Format.Sign, Format.Word, Format.Units,
         Format.QNan,
         Format.Inf,
         RoundsTo, IsZero, P;
    Classes(f, a);
    Classes(f, b);
    QuietNan(f);
    PlainWords(f, false);
    PlainWords(f, true);
    OnePositive(f);
    if !f.IsNan(a) && !f.IsNan(b) && !f.IsInf(a) && !f.IsInf(b) {
      var x := Quotient(Product(f.Units(a), f.Units(b)), P(f.One()));
      RoundsToBest(f, rm, f.Sign(a) != f.Sign(b), x, acc, r, fl);
    }
  }

  /** A quotient is a NaN exactly for a NaN operand, two zeros or two infinities. */
  lemma QuotientNan(f: Fmt, rm: Mode, a: nat, b: nat, acc: Flags, r: nat, fl: Flags)
    requires IsQuotient(f, rm, a, b, acc, r, fl)
    ensures f.Word(r) && (f.IsNan(r) ==> !f.IsSignalling(r) && !f.Sign(r))
    ensures f.IsNan(r) <==>
              f.IsNan(a) || f.IsNan(b) || (f.IsInf(a) && f.IsInf(b)) || (IsZero(f, a) && IsZero(f, b))
    ensures fl.invalid <==> acc.invalid || Complains(f, a, b, r)
    ensures fl.divByZero <==> acc.divByZero || (f.IsFinite(a) && !IsZero(f, a) && IsZero(f, b))
  {
    hide Format.IsNan, Format.IsInf, Format.IsFinite, Format.IsSignalling, Format.Sign, Format.Word, Format.Units,
         Format.QNan,
         Format.Inf,
         Format.Zero, RoundsTo, IsZero, Shl;
    Classes(f, a);
    Classes(f, b);
    QuietNan(f);
    PlainWords(f, false);
    PlainWords(f, true);
    if !f.IsNan(a) && !f.IsNan(b) && !f.IsInf(a) && !f.IsInf(b) && f.Units(b) != 0 {
      NotZero(f, b);
      var x := Quotient(Shl(f.Units(a), f.One()), f.Units(b));
      RoundsToBest(f, rm, f.Sign(a) != f.Sign(b), x, acc, r, fl);
    }
  }

  lemma NotZero(f: Fmt, b: nat)
    requires f.Units(b) != 0
    ensures !IsZero(f, b)
  {
  }

  /** A square root is a NaN exactly for a NaN or a negative operand other than -0. */
  lemma RootNan(f: Fmt, rm: Mode, a: nat, acc: Flags, r: nat, fl: Flags)
    requires IsSquareRoot(f, rm, a, acc, r, fl)
    ensures f.Word(r) && (f.IsNan(r) ==> !f.IsSignalling(r) && !f.Sign(r))
    ensures f.IsNan(r) <==> f.IsNan(a) || (f.Sign(a) && !IsZero(f, a))
    ensures fl.invalid <==> acc.invalid || f.IsSignalling(a) || (f.IsNan(r) && !f.IsNan(a))
  {
    hide Format.IsNan, Format.IsInf, Format.IsFinite, Format.IsSignalling, Format.Sign, Format.Word, Format.Units,
         Format.QNan,
         Format.Inf,
         Format.Zero, RoundsTo, IsZero, Shl;
    Classes(f, a);
    QuietNan(f);
    PlainWords(f, false);
    PlainWords(f, true);
    if !f.IsNan(a) && !IsZero(f, a) && !f.Sign(a) && !f.IsInf(a) {
      RoundsToBest(f, rm, false, Root(Shl(f.Units(a), f.One())), acc, r, fl);
    }
  }

  /** A fused multiply-add is a NaN exactly for a NaN operand, zero times infinity, or
      an infinite product and an addend of the opposite infinity. */
  lemma FusedNan(f: Fmt, rm: Mode, a: nat, b: nat, c: nat, acc: Flags, r: nat, fl: Flags)
    requires IsFusedMultiplyAdd(f, rm, a, b, c, acc, r, fl)
    ensures f.Word(r) && (f.IsNan(r) ==> !f.IsSignalling(r) && !f.Sign(r))
    ensures f.IsNan(r) <==>
              || f.IsNan(a) || f.IsNan(b) || f.IsNan(c) || (f.IsInf(a) && IsZero(f, b)) || (IsZero(f, a) && f.IsInf(b))
              || ((f.IsInf(a) || f.IsInf(b)) && f.IsInf(c) && (f.Sign(a) != f.Sign(b)) != f.Sign(c))
    ensures f.IsNan(r) && !f.IsNan(a) && !f.IsNan(b) && !f.IsNan(c) ==> fl.invalid
  {
    hide Format.IsNan, Format.IsInf, Format.IsFinite, Format.IsSignalling, Format.Sign, Format.Word, Format.Units,
         Format.QNan,
         Format.Inf,
         RoundsTo, IsZero, Shl, P;
    Classes(f, a);
    Classes(f, b);
    Classes(f, c);
    QuietNan(f);
    PlainWords(f, false);
    PlainWords(f, true);
    OnePositive(f);
    if !f.IsNan(a) && !f.IsNan(b) && !f.IsNan(c) && !f.IsInf(a) && !f.IsInf(b) && !f.IsInf(c) {
      var sign := f.Sign(a) != f.Sign(b);
      var v := Signed(sign, Product(f.Units(a), f.Units(b))) + Signed(f.Sign(c), Shl(f.Units(c), f.One()));
      RoundsToBest(f, rm, SumSign(rm, sign, f.Sign(c), v), Quotient(Abs(v), P(f.One())), acc, r, fl);
    }
  }

  /** Infinity absorbs: a sum with a finite value, a product with a value that is not
      zero, a dividend; and a finite value over zero or infinity. */
  lemma InfinityAbsorbs(f: Fmt, rm: Mode, a: nat, b: nat, acc: Flags, r: nat, fl: Flags)
    requires f.Word(a) && f.IsInf(a) && f.IsFinite(b)
    ensures IsSum(f, rm, a, b, acc, r, fl) ==> r == a && fl == acc
    ensures IsProduct(f, rm, a, b, acc, r, fl) && !IsZero(f, b) ==> r == f.Inf(f.Sign(a) != f.Sign(b)) && fl == acc
    ensures IsQuotient(f, rm, a, b, acc, r, fl) ==> r == f.Inf(f.Sign(a) != f.Sign(b)) && fl == acc
    ensures IsQuotient(f, rm, b, a, acc, r, fl) ==> r == f.Zero(f.Sign(a) != f.Sign(b)) && fl == acc
  {
    hide Format.Sign, Format.Word, Format.Units, Format.Exp, Format.Frac, RoundsTo, P;
    Unpack(f, a);
  }

  // ----- one and zero

  /** A finite word is the encoding of its significand and scale. */
  lemma WordIsEncoded(f: Fmt, a: nat)
    requires f.Word(a) && f.IsFinite(a)
    ensures a == Encode(f, f.Sign(a), f.Significand(a), f.Scale(a) - 1)
  {
    hide Shl, Shr, Low, P;
    Unpack(f, a);
    ShlNone(0, f.M);
    if f.Exp(a) != 0 {
      ShlSucc(f.Exp(a) - 1, f.M);
    }
  }

  /** A value of the format rounds to its own word in every mode and raises nothing. */
  lemma SelfRounds(f: Fmt, rm: Mode, a: nat, x: Exact, acc: Flags)
    requires f.Word(a) && f.IsFinite(a) && Proper(x) && Equals(x, f.Units(a))
    ensures RoundsTo(f, rm, f.Sign(a), x, acc, a, acc)
  {
    hide AtLeast, Above, Shl, Shr, Low, P, Overflows, Encode, RoundsTo;
    WordIsEncoded(f, a);
    FiniteScale(f, a);
    FiniteBelowLimit(f, a);
    AtGrid(x, f.Significand(a), f.Scale(a) - 1);
    ExactRounds(f, rm, f.Sign(a), x, f.Significand(a), f.Scale(a) - 1, acc);
  }

  lemma WholeQuotient(n: nat, d: nat)
    requires d > 0
    ensures Equals(Quotient(n * d, d), n)
  {
    hide Shl;
    ShlNone(n, 0);
    ShlNone(n * d, 0);
  }

  /** The word of 1.0. */
  function OneWord(f: Fmt): nat { PMono(0, f.E - 1); f.Pack(false, P(f.E - 1) - 1, 0) }

  lemma OneUnits(f: Fmt)
    ensures var w := OneWord(f); f.Word(w) && f.IsFinite(w) && !f.Sign(w) && f.Units(w) == P(f.One()) && !IsZero(f, w)
  {
    hide Shl, Shr, Low, P;
    PowerOfTwo(f);
    PStep(f.E - 1);
    PackFields(f, false, P(f.E - 1) - 1, 0);
    ShlP(f.M, P(f.E - 1) - 2);
    PMono(0, f.One());
    PZero();
  }

  lemma FiniteIs(f: Fmt, a: nat)
    requires f.IsFinite(a)
    ensures !f.IsNan(a) && !f.IsInf(a) && !f.IsSignalling(a)
  {
  }

  /** a * 1 == a */
  lemma TimesOne(f: Fmt, rm: Mode, a: nat, acc: Flags, r: nat, fl: Flags)
    requires f.Word(a) && f.IsFinite(a) && IsProduct(f, rm, a, OneWord(f), acc, r, fl)
    ensures r == a && fl == acc
  {
    hide Format.IsNan, Format.IsInf, Format.IsFinite, Format.Sign, Format.Word, Format.Units, IsZero, RoundsTo, P,
         OneWord,
         Equals, Format.IsSignalling;
    OneUnits(f);
    FiniteIs(f, a);
    FiniteIs(f, OneWord(f));
    var x := Quotient(Product(f.Units(a), P(f.One())), P(f.One()));
    WholeQuotient(f.Units(a), P(f.One()));
    SelfRounds(f, rm, a, x, acc);
    RoundsToUnique(f, rm, f.Sign(a), x, acc, r, fl, a, acc);
  }

  /** The word with the other sign. */
  function Negated(f: Fmt, a: nat): nat { f.Pack(!f.Sign(a), f.Exp(a), f.Frac(a)) }

  lemma NegatedIs(f: Fmt, a: nat)
    ensures var b := Negated(f, a);
            f.Word(b) && f.Sign(b) == !f.Sign(a) && f.Exp(b) == f.Exp(a) && f.Frac(b) == f.Frac(a)
  {
    hide Shl, Shr, Low, P;
    MagnitudeFields(f, a);
    PackFields(f, !f.Sign(a), f.Exp(a), f.Frac(a));
  }

  lemma SameMagnitude(f: Fmt, a: nat)
    ensures f.Units(Negated(f, a)) == f.Units(a) && f.IsFinite(Negated(f, a)) == f.IsFinite(a)
    ensures IsZero(f, Negated(f, a)) == IsZero(f, a)
  {
    hide Format.Exp, Format.Frac, Format.Sign, P, Negated;
    NegatedIs(f, a);
  }

  /** a * -1 == -a */
  lemma TimesMinusOne(f: Fmt, rm: Mode, a: nat, acc: Flags, r: nat, fl: Flags)
    requires f.Word(a) && f.IsFinite(a) && IsProduct(f, rm, a, Negated(f, OneWord(f)), acc, r, fl)
    ensures r == Negated(f, a) && fl == acc
  {
    hide Format.IsNan, Format.IsInf, Format.IsFinite, Format.Sign, Format.Word, Format.Units, IsZero, RoundsTo, P,
         OneWord,
         Equals, Format.IsSignalling, Negated, Format.Exp, Format.Frac;
    var one := OneWord(f);
    OneUnits(f);
    NegatedIs(f, one);
    SameMagnitude(f, one);
    NegatedIs(f, a);
    SameMagnitude(f, a);
    FiniteIs(f, a);
    FiniteIs(f, Negated(f, one));
    var x := Quotient(Product(f.Units(a), P(f.One())), P(f.One()));
    WholeQuotient(f.Units(a), P(f.One()));
    SelfRounds(f, rm, Negated(f, a), x, acc);
    RoundsToUnique(f, rm, !f.Sign(a), x, acc, r, fl, Negated(f, a), acc);
  }

  /** a - b is a + -b, for finite operands. */
  lemma MinusIsPlusNegated(f: Fmt, rm: Mode, a: nat, b: nat, acc: Flags, r: nat, fl: Flags)
    requires f.IsFinite(a) && f.IsFinite(b) && IsDifference(f, rm, a, b, acc, r, fl)
    ensures IsSum(f, rm, a, Negated(f, b), acc, r, fl)
  {
    hide Format.IsNan, Format.IsInf, Format.IsFinite, Format.Sign, Format.Word, Format.Units, RoundsTo, P,
         Format.IsSignalling, Negated, Format.Exp, Format.Frac;
    NegatedIs(f, b);
    SameMagnitude(f, b);
    FiniteIs(f, a);
    FiniteIs(f, b);
    FiniteIs(f, Negated(f, b));
  }

  /** a / 1 == a */
  lemma OverOne(f: Fmt, rm: Mode, a: nat, acc: Flags, r: nat, fl: Flags)
    requires f.Word(a) && f.IsFinite(a) && IsQuotient(f, rm, a, OneWord(f), acc, r, fl)
    ensures r == a && fl == acc
  {
    hide Format.IsNan, Format.IsInf, Format.IsFinite, Format.Sign, Format.Word, Format.Units, RoundsTo, OneWord,
         Equals, Format.IsSignalling;
    OneUnits(f);
    FiniteIs(f, a);
    FiniteIs(f, OneWord(f));
    var x := Quotient(Shl(f.Units(a), f.One()), P(f.One()));
    WholeQuotient(f.Units(a), P(f.One()));
    SelfRounds(f, rm, a, x, acc);
    RoundsToUnique(f, rm, f.Sign(a), x, acc, r, fl, a, acc);
  }

  /** a / a == 1 */
  lemma OverItself(f: Fmt, rm: Mode, a: nat, acc: Flags, r: nat, fl: Flags)
    requires f.Word(a) && f.IsFinite(a) && !IsZero(f, a) && IsQuotient(f, rm, a, a, acc, r, fl)
    ensures r == OneWord(f) && fl == acc
  {
    hide Format.IsNan, Format.IsInf, Format.Sign, Format.Word, Format.Units, RoundsTo, P, OneWord, Equals,
         Format.IsSignalling;
    OneUnits(f);
    FiniteIs(f, a);
    var x := Quotient(Shl(f.Units(a), f.One()), f.Units(a));
    WholeQuotient(P(f.One()), f.Units(a));
    SelfRounds(f, rm, OneWord(f), x, acc);
    RoundsToUnique(f, rm, false, x, acc, r, fl, OneWord(f), acc);
  }

  /** a + 0 == a, with either zero, for a that is not zero. */
  lemma PlusZero(f: Fmt, rm: Mode, a: nat, s: bool, acc: Flags, r: nat, fl: Flags)
    requires f.Word(a) && f.IsFinite(a) && !IsZero(f, a) && IsSum(f, rm, a, f.Zero(s), acc, r, fl)
    ensures r == a && fl == acc
  {
    hide Format.IsNan, Format.IsInf, Format.Sign, Format.Word, Format.Units, RoundsTo, P, Equals, Format.Zero,
         Format.IsSignalling;
    PlainWords(f, s);
    FiniteIs(f, a);
    FiniteIs(f, f.Zero(s));
    var x := Quotient(f.Units(a), 1);
    WholeQuotient(f.Units(a), 1);
    SelfRounds(f, rm, a, x, acc);
    RoundsToUnique(f, rm, f.Sign(a), x, acc, r, fl, a, acc);
  }

  /** a - a == 0, which is -0 when rounding down and +0 otherwise. */
  lemma MinusItself(f: Fmt, rm: Mode, a: nat, acc: Flags, r: nat, fl: Flags)
    requires f.Word(a) && f.IsFinite(a) && IsDifference(f, rm, a, a, acc, r, fl)
    ensures r == f.Zero(rm == RDN) && fl == acc
  {
    hide Format.IsNan, Format.IsInf, Format.Sign, Format.Word, Format.Units, RoundsTo, P, Equals, Format.Zero,
         Format.IsSignalling;
    PlainWords(f, rm == RDN);
    FiniteIs(f, a);
    var x := Quotient(0, 1);
    WholeQuotient(0, 1);
    SelfRounds(f, rm, f.Zero(rm == RDN), x, acc);
    RoundsToUnique(f, rm, rm == RDN, x, acc, r, fl, f.Zero(rm == RDN), acc);
  }

  /** The square root of 1 is 1. */
  lemma RootOfOne(f: Fmt, rm: Mode, acc: Flags, r: nat, fl: Flags)
    requires IsSquareRoot(f, rm, OneWord(f), acc, r, fl)
    ensures r == OneWord(f) && fl == acc
  {
    hide Format.IsNan, Format.IsInf, Format.IsFinite, Format.Sign, Format.Word, Format.Units, IsZero, RoundsTo, P,
         OneWord,
         Equals, Shl, Format.IsSignalling;
    OneUnits(f);
    FiniteIs(f, OneWord(f));
    var x := Root(Shl(P(f.One()), f.One()));
    ShlP(f.One(), f.One());
    ExactRoot(f.One());
    SelfRounds(f, rm, OneWord(f), x, acc);
    RoundsToUnique(f, rm, false, x, acc, r, fl, OneWord(f), acc);
  }

  lemma ExactRoot(n: nat)
    ensures Equals(Root(P(2 * n)), P(n))
  {
    hide Shl, P;
    PAdd(n, n);
    ShlNone(P(n), 0);
    ShlNone(P(2 * n), 0);
  }

  lemma SameQuotient(n: nat, d: nat, m: nat, k: int)
    requires d > 0
    ensures AtLeast(Quotient(n * d, d), m, k) == AtLeast(Quotient(n, 1), m, k)
    ensures Above(Quotient(n * d, d), m, k) == Above(Quotient(n, 1), m, k)
  {
    hide Shl;
    ScaledShl(n, d, Pos(-k));
    MulCmp(Shl(m, Pos(k)), Shl(n, Pos(-k)), d);
  }

  lemma ScaledShl(n: nat, d: nat, k: nat)
    ensures Shl(n * d, k) == Shl(n, k) * d
  {
    MulAssoc(n, d, P(k));
    MulAssoc(n, P(k), d);
  }

  /** Two descriptions of one magnitude. */
  ghost predicate Alike(x: Exact, y: Exact)
  {
    forall m: nat, k: int :: (AtLeast(x, m, k) <==> AtLeast(y, m, k)) && (Above(x, m, k) <==> Above(y, m, k))
  }

  lemma AlikeRounds(f: Fmt, rm: Mode, sign: bool, x: Exact, y: Exact, acc: Flags, r: nat, fl: Flags)
    requires Alike(x, y) && RoundsTo(f, rm, sign, x, acc, r, fl)
    ensures RoundsTo(f, rm, sign, y, acc, r, fl)
  {
    hide AtLeast, Above, Shl, P, Overflows, Encode, Format.Inf, Format.MaxFinite;
    var t: nat, k: nat :| Floor(f, x, t, k) && Delivers(f, rm, sign, x, t, k, acc, r, fl);
    AlikeTiny(f, rm, sign, x, y);
    assert Floor(f, y, t, k);
    assert Rounded(rm, sign, x, t, k) == Rounded(rm, sign, y, t, k);
    assert Delivers(f, rm, sign, y, t, k, acc, r, fl);
  }

  lemma AlikeTiny(f: Fmt, rm: Mode, sign: bool, x: Exact, y: Exact)
    requires Alike(x, y)
    ensures Tiny(f, rm, sign, x) <==> Tiny(f, rm, sign, y)
  {
    hide AtLeast, Above, Shl, P;
    assert forall t: nat, k: int :: Leading(f, x, t, k) <==> Leading(f, y, t, k);
    assert forall t: nat, k: int :: Rounded(rm, sign, x, t, k) == Rounded(rm, sign, y, t, k);
  }

  /** a * 1 + c is a + c. */
  lemma FusedWithOne(f: Fmt, rm: Mode, a: nat, c: nat, acc: Flags, r: nat, fl: Flags, r': nat, fl': Flags)
    requires f.IsFinite(a) && f.IsFinite(c)
    requires IsFusedMultiplyAdd(f, rm, a, OneWord(f), c, acc, r, fl) && IsSum(f, rm, a, c, acc, r', fl')
    ensures r == r' && fl == fl'
  {
    hide Format.IsNan, Format.IsInf, Format.IsFinite, Format.Sign, Format.Word, Format.Units, IsZero, RoundsTo, P,
         OneWord,
         Alike, Format.IsSignalling;
    OneUnits(f);
    FiniteIs(f, a);
    FiniteIs(f, c);
    FiniteIs(f, OneWord(f));
    var v, d := SignedUnits(f, a) + SignedUnits(f, c), P(f.One());
    var sign := SumSign(rm, f.Sign(a), f.Sign(c), v);
    ScaledSum(f.Sign(a), f.Units(a), f.Sign(c), f.Units(c), d);
    assert Alike(Quotient(Abs(v) * d, d), Quotient(Abs(v), 1)) by { WholeAlike(Abs(v), d); }
    AlikeRounds(f, rm, sign, Quotient(Abs(v) * d, d), Quotient(Abs(v), 1), acc, r, fl);
    RoundsToUnique(f, rm, sign, Quotient(Abs(v), 1), acc, r, fl, r', fl');
  }

  lemma WholeAlike(n: nat, d: nat)
    requires d > 0
    ensures Alike(Quotient(n * d, d), Quotient(n, 1))
  {
    hide AtLeast, Above;
    forall m: nat, k: int
      ensures AtLeast(Quotient(n * d, d), m, k) <==> AtLeast(Quotient(n, 1), m, k)
      ensures Above(Quotient(n * d, d), m, k) <==> Above(Quotient(n, 1), m, k)
    {
      SameQuotient(n, d, m, k);
    }
  }

  lemma ScaledSum(s: bool, m: nat, t: bool, n: nat, d: nat)
    requires d > 0
    ensures var v := Signed(s, m) + Signed(t, n);
            var w := Signed(s, m * d) + Signed(t, n * d);
            Abs(w) == Abs(v) * d && (w < 0 <==> v < 0) && (w == 0 <==> v == 0)
  {
    hide Abs;
    var x, y := Signed(s, m), Signed(t, n);
    ScaledSigned(s, m, d);
    ScaledSigned(t, n, d);
    assert x * d + y * d == (x + y) * d;
    ScaledAbs(x + y, d);
  }

  lemma ScaledSigned(s: bool, m: nat, d: nat)
    ensures Signed(s, m * d) == Signed(s, m) * d
  {
  }

  lemma ScaledAbs(v: int, d: nat)
    requires d > 0
    ensures Abs(v * d) == Abs(v) * d && (v * d < 0 <==> v < 0) && (v * d == 0 <==> v == 0)
  {
    MulCmp(v, 0, d);
    MulCmp(0, v, d);
    if v < 0 {
      assert (-v) * d == -(v * d);
    }
  }

  /** a * b + 0 is a * b, unless that is zero. */
  lemma FusedWithZero(f: Fmt, rm: Mode, a: nat, b: nat, s: bool, acc: Flags, r: nat, fl: Flags, r': nat, fl': Flags)
    requires f.IsFinite(a) && f.IsFinite(b) && Product(f.Units(a), f.Units(b)) != 0
    requires IsFusedMultiplyAdd(f, rm, a, b, f.Zero(s), acc, r, fl) && IsProduct(f, rm, a, b, acc, r', fl')
    ensures r == r' && fl == fl'
  {
    hide Format.IsNan, Format.IsInf, Format.Sign, Format.Word, Format.Units, RoundsTo, P, Shl, Product, Format.Zero,
         Format.IsSignalling;
    PlainWords(f, s);
    FiniteIs(f, a);
    FiniteIs(f, b);
    FiniteIs(f, f.Zero(s));
    OnePositive(f);
    ShlNone(0, f.One());
    var sign, x := f.Sign(a) != f.Sign(b), Quotient(Product(f.Units(a), f.Units(b)), P(f.One()));
    RoundsToUnique(f, rm, sign, x, acc, r, fl, r', fl');
  }

  // ----- the words of the formats

  /** Binary32: 1, -0, the infinities, the largest finite values and the quiet NaN. */
  lemma Words32(f: Fmt)
    requires f == Binary32
    ensures f.F == 32 && OneWord(f) == 0x3F80_0000 && f.Zero(true) == 0x8000_0000 && f.Zero(false) == 0
    ensures f.Inf(false) == 0x7F80_0000 && f.Inf(true) == 0xFF80_0000
    ensures f.MaxFinite(false) == 0x7F7F_FFFF && f.MaxFinite(true) == 0xFF7F_FFFF && f.QNan() == 0x7FC0_0000
  {
    hide P;
    SmallPowers();
    WordPowers();
  }

  lemma Words64(f: Fmt)
    requires f == Binary64
    ensures f.F == 64 && OneWord(f) == 0x3FF0_0000_0000_0000 && f.Zero(true) == 0x8000_0000_0000_0000
    ensures f.Inf(false) == 0x7FF0_0000_0000_0000 && f.Inf(true) == 0xFFF0_0000_0000_0000
    ensures f.MaxFinite(false) == 0x7FEF_FFFF_FFFF_FFFF && f.MaxFinite(true) == 0xFFEF_FFFF_FFFF_FFFF
    ensures f.QNan() == 0x7FF8_0000_0000_0000 && f.Zero(false) == 0
  {
    hide P;
    SmallPowers();
    DoublePowers();
  }

  lemma Words128(f: Fmt)
    requires f == Binary128
    ensures f.F == 128 && OneWord(f) == 0x3FFF_0000_0000_0000_0000_0000_0000_0000
    ensures f.Inf(false) == 0x7FFF_0000_0000_0000_0000_0000_0000_0000
    ensures f.MaxFinite(false) == 0x7FFE_FFFF_FFFF_FFFF_FFFF_FFFF_FFFF_FFFF
    ensures f.QNan() == 0x7FFF_8000_0000_0000_0000_0000_0000_0000
    ensures f.Zero(true) == 0x8000_0000_0000_0000_0000_0000_0000_0000 && f.Zero(false) == 0
  {
    hide P;
    SmallPowers();
    QuadPowers();
  }

  /** Of the words after infinity the lower half is signalling, the upper half quiet,
      with either sign; the word 1 is the unit. */
  lemma NanWords(f: Fmt, sign: bool, d: nat)
    requires 0 < d < P(f.M)
    ensures var a := f.Inf(sign) + d; f.Word(a) && f.IsNan(a) && (f.IsSignalling(a) <==> d < P(f.M - 1))
    ensures f.Units(1) == 1
  {
    hide P, Shl, Shr, Low;
    PowerOfTwo(f);
    PackFields(f, sign, f.ExpMask(), d);
    ShlNone(0, f.M);
    ShlNone(1, 0);
    assert f.Pack(false, 0, 1) == 1;
    PackFields(f, false, 0, 1);
  }

  // ----- minimum, maximum and conversions

  /** Minimum and maximum are a NaN exactly for two NaN operands, and then quiet. */
  lemma MinMaxNan(f: Fmt, a: nat, b: nat, acc: Flags)
    requires f.Word(a) && f.Word(b)
    ensures var r := MinSf(f, a, b, acc).0; (f.IsNan(r) <==> f.IsNan(a) && f.IsNan(b)) && !f.IsSignalling(r)
    ensures var r := MaxSf(f, a, b, acc).0; (f.IsNan(r) <==> f.IsNan(a) && f.IsNan(b)) && !f.IsSignalling(r)
  {
    hide Format.Sign, Format.Units, Format.QNan, Format.Word, MinSf, MaxSf, P;
    QuietNan(f);
  }

  /** Narrowing gives a NaN exactly for a NaN. */
  lemma NarrowNan(f: Fmt, g: Fmt, a: nat, rm: Mode, acc: Flags, r: nat, fl: Flags)
    requires g.IsNan(a) ==> NanResult(f, g.IsSignalling(a), acc, r, fl)
    requires g.IsInf(a) ==> r == f.Inf(g.Sign(a)) && fl == acc
    requires g.IsFinite(a) ==> RoundsTo(f, rm, g.Sign(a), InUnitsOf(f, g, a), acc, r, fl)
    ensures f.Word(r) && (f.IsNan(r) <==> g.IsNan(a)) && (f.IsNan(r) ==> !f.IsSignalling(r) && !f.Sign(r))
  {
    hide Format.IsSignalling, Format.Sign, Format.Units, Format.QNan, Format.Word, Format.Inf, RoundsTo, Shl, P,
         Format.Exp,
         Format.Frac;
    QuietNan(f);
    PlainWords(f, g.Sign(a));
    OnePositive(g);
    if g.IsFinite(a) {
      RoundsToBest(f, rm, g.Sign(a), InUnitsOf(f, g, a), acc, r, fl);
    }
  }

  /** The integers of n bits: from 0 to 2^n - 1, or from -2^(n-1) to 2^(n-1) - 1. */
  predicate InRange(n: nat, isUnsigned: bool, v: int)
    requires n > 0
  {
    if isUnsigned then 0 <= v < P(n) else 0 <= v + P(n - 1) < 2 * P(n - 1)
  }

  /** The value of a finite word is the integer v. */
  predicate IsInteger(f: Fmt, a: nat, v: int) { SignedUnits(f, a) == v * P(f.One()) }

  /** The range of the integer results, and what lies outside it. */
  lemma IntegerRange(f: Fmt, n: nat, isUnsigned: bool, rm: Mode, a: nat, acc: Flags, r: int, fl: Flags)
    requires n > 0 && IsIntegerOf(f, n, isUnsigned, rm, a, acc, r, fl)
    ensures InRange(n, isUnsigned, r)
    ensures f.IsNan(a) || (f.IsInf(a) && !f.Sign(a)) ==> r == (if isUnsigned then P(n) else P(n - 1)) - 1
    ensures f.IsInf(a) && f.Sign(a) ==> r == if isUnsigned then 0 else 0 - P(n - 1)
    ensures !f.IsFinite(a) ==> fl == acc.(invalid := true)
  {
    hide AtLeast, Above, Format.Units, Format.Sign, Format.Exp, Format.Frac;
    PMono(n - 1, n);
  }

  /** Every integer in the range is converted to itself and raises nothing. */
  lemma IntegerExact(f: Fmt, n: nat, isUnsigned: bool, rm: Mode, a: nat, acc: Flags, r: int, fl: Flags, v: int)
    requires n > 0 && IsIntegerOf(f, n, isUnsigned, rm, a, acc, r, fl)
    requires f.IsFinite(a) && IsInteger(f, a, v) && InRange(n, isUnsigned, v)
    ensures r == v && fl == acc
  {
    hide Format.IsFinite, Format.IsNan, Format.Units, Format.Sign, Format.Word, Shl, P, Rounded, MaxMagnitude;
    var x, m, d := Quotient(f.Units(a), 1), Abs(v), P(f.One());
    OnePositive(f);
    FiniteIs(f, a);
    UnitsAre(f.Sign(a), f.Units(a), v, d);
    WholeCell(m, f.One());
    Fits(n, isUnsigned, f.Sign(a), v);
    NoIncrement(rm, f.Sign(a), x, m, f.One());
    forall t: nat | IntegerPart(f, a, t)
      ensures t == m
    {
      CutUnique(x, t, m, f.One());
    }
  }

  lemma UnitsAre(s: bool, u: nat, v: int, d: nat)
    requires d > 0 && Signed(s, u) == v * d
    ensures u == Abs(v) * d && (v < 0 ==> s) && (v > 0 ==> !s)
  {
    MulCmp(v, 0, d);
    MulCmp(0, v, d);
  }

  lemma WholeCell(m: nat, k: nat)
    ensures var x := Quotient(m * P(k), 1); AtLeast(x, m, k) && !AtLeast(x, m + 1, k) && !Above(x, m, k)
  {
    hide P;
    ShlNone(Shl(m, k), 0);
    ShlSucc(m, k);
  }

  lemma Fits(n: nat, isUnsigned: bool, sign: bool, v: int)
    requires n > 0 && (v < 0 ==> sign) && (v > 0 ==> !sign)
    requires InRange(n, isUnsigned, v)
    ensures Abs(v) <= MaxMagnitude(n, isUnsigned, sign) && Signed(sign, Abs(v)) == v
  {
    hide P;
  }
}
