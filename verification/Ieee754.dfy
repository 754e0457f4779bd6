/** The reference meaning of binary floating point: which bit pattern and which
    flags IEEE 754-2008 asks for when an exact, non-negative magnitude is
    rounded (sections 4.3, 7.4, 7.5 and 7.6).

    Magnitudes are measured in units of the least positive subnormal of the
    format. In that unit every finite value is a natural number. */
module Ieee754 {
  import opened Bits

  /** mantSize and expSize; the word has mantSize + expSize + 1 bits. */
  datatype Format = Format(M: nat, E: nat) {
    predicate Valid() { M >= 4 && E >= 5 && (M + E) % 2 == 1 }

    /** F_SIZE */
    const F: nat := M + E + 1

    /** EXP_MASK */
    function ExpMask(): (r: nat)
      ensures r == P(E) - 1
    { P(E) - 1 }

    /** The exponent, in units, of the value 1.0. */
    function One(): nat
      requires Valid()
    { P(E - 1) + M - 2 }

    predicate Word(a: nat) { a < P(F) }

    function Sign(a: nat): bool { Shr(a, F - 1) != 0 }
    function Exp(a: nat): nat { Low(Shr(a, M), E) }
    function Frac(a: nat): nat { Low(a, M) }

    predicate IsNan(a: nat) { Exp(a) == ExpMask() && Frac(a) != 0 }
    predicate IsSignalling(a: nat)
      requires Valid()
    { IsNan(a) && Frac(a) < P(M - 1) }
    predicate IsInf(a: nat) { Exp(a) == ExpMask() && Frac(a) == 0 }
    predicate IsFinite(a: nat) { Exp(a) != ExpMask() }

    /** The significand with its hidden bit. */
    function Significand(a: nat): nat { if Exp(a) == 0 then Frac(a) else Frac(a) + P(M) }

    /** The exponent with subnormals moved to exponent 1. */
    function Scale(a: nat): nat { if Exp(a) == 0 then 1 else Exp(a) }

    /** The magnitude of a finite value, in units. */
    function Units(a: nat): nat { Shl(Significand(a), Scale(a) - 1) }

    function Pack(sign: bool, exp: nat, frac: nat): nat
    { (if sign then P(F - 1) else 0) + Shl(exp, M) + frac }

    function Inf(sign: bool): nat { Pack(sign, ExpMask(), 0) }
    function Zero(sign: bool): nat { Pack(sign, 0, 0) }
    function QNan(): nat
      requires Valid()
    { Pack(false, ExpMask(), P(M - 1)) }
    function MaxFinite(sign: bool): nat
      requires Valid()
    { Pack(sign, P(E) - 2, P(M) - 1) }
  }

  const Binary32 := Format(23, 8)
  const Binary64 := Format(52, 11)
  const Binary128 := Format(112, 15)

  type Fmt = f: Format | f.Valid() witness Format(23, 8)

  datatype Mode = RNE | RTZ | RDN | RUP | RMM

  /** The sticky exception flags; an operation ORs what it raises into the ones
      it is given. */
  datatype Flags = Flags(invalid: bool, divByZero: bool, overflow: bool, underflow: bool, inexact: bool) {
    function Or(o: Flags): Flags
    {
      Flags(invalid || o.invalid, divByZero || o.divByZero, overflow || o.overflow,
            underflow || o.underflow, inexact || o.inexact)
    }
  }

  const NoFlags := Flags(false, false, false, false, false)
  const Invalid := Flags(true, false, false, false, false)

  /** A non-negative exact result: a quotient of naturals or a square root of one. */
  datatype Exact = Quotient(n: nat, d: nat) | Root(n: nat)

  function Pos(k: int): nat { if k > 0 then k else 0 }

  predicate Proper(x: Exact) { x.Quotient? ==> x.d > 0 }

  function Square(a: nat): nat { a * a }

  /** m * 2^k <= x */
  predicate AtLeast(x: Exact, m: nat, k: int)
  {
    match x
    case Quotient(n, d) => Shl(m, Pos(k)) * d <= Shl(n, Pos(-k))
    case Root(n) => Square(Shl(m, Pos(k))) <= Shl(n, 2 * Pos(-k))
  }

  /** m * 2^k < x */
  predicate Above(x: Exact, m: nat, k: int)
  {
    match x
    case Quotient(n, d) => Shl(m, Pos(k)) * d < Shl(n, Pos(-k))
    case Root(n) => Square(Shl(m, Pos(k))) < Shl(n, 2 * Pos(-k))
  }

  /** t * 2^k is x cut to M + 1 significant bits, with no limit on the exponent. */
  predicate Leading(f: Fmt, x: Exact, t: nat, k: int)
  {
    P(f.M) <= t < P(f.M + 1) && AtLeast(x, t, k) && !AtLeast(x, t + 1, k)
  }

  /** t * 2^k is the largest value of the format, ignoring overflow, not above x. */
  predicate Floor(f: Fmt, x: Exact, t: nat, k: nat)
  {
    t < P(f.M + 1) && (k > 0 ==> P(f.M) <= t) && AtLeast(x, t, k) && !AtLeast(x, t + 1, k)
  }

  /** Does the mode choose t + 1 rather than t for x with t * 2^k <= x < (t + 1) * 2^k? */
  predicate Increment(rm: Mode, sign: bool, x: Exact, t: nat, k: int)
  {
    match rm
    case RTZ => false
    case RDN => sign && Above(x, t, k)
    case RUP => !sign && Above(x, t, k)
    case RMM => AtLeast(x, 2 * t + 1, k - 1)
    case RNE => Above(x, 2 * t + 1, k - 1) || (t % 2 == 1 && AtLeast(x, 2 * t + 1, k - 1))
  }

  function Rounded(rm: Mode, sign: bool, x: Exact, t: nat, k: int): nat
  { if Increment(rm, sign, x, t, k) then t + 1 else t }

  /** Tininess after rounding: rounded with an unbounded exponent, x is below the
      least normal value, which is 2^M units. */
  ghost predicate Tiny(f: Fmt, rm: Mode, sign: bool, x: Exact)
  {
    exists t: nat, k: int ::
      Leading(f, x, t, k) && Shl(Rounded(rm, sign, x, t, k), Pos(k)) < Shl(P(f.M), Pos(-k))
  }

  /** Does overflow in this mode give infinity rather than the largest finite value? */
  predicate OverflowToInf(rm: Mode, sign: bool)
  { rm == RNE || rm == RMM || (rm == RDN && sign) || (rm == RUP && !sign) }

  /** n * 2^k is at least 2^(emax + 1). */
  predicate Overflows(f: Fmt, n: nat, k: nat)
  { Shl(n, k) >= P(f.M + P(f.E) - 2) }

  /** The finite pattern whose magnitude is n * 2^k. */
  function Encode(f: Fmt, sign: bool, n: nat, k: nat): nat
  { (if sign then P(f.F - 1) else 0) + Shl(k, f.M) + n }

  ghost predicate Delivers(f: Fmt, rm: Mode, sign: bool, x: Exact, t: nat, k: nat, acc: Flags, r: nat, fl: Flags)
  {
    var n := Rounded(rm, sign, x, t, k);
    if Overflows(f, n, k) then
      && r == (if OverflowToInf(rm, sign) then f.Inf(sign) else f.MaxFinite(sign))
      && fl == acc.Or(Flags(false, false, true, false, true))
    else
      && r == Encode(f, sign, n, k)
      && fl == acc.Or(Flags(false, false, false, Above(x, t, k) && Tiny(f, rm, sign, x), Above(x, t, k)))
  }

  /** Starting from the flags acc, r and fl are what IEEE 754 asks for when x,
      with the given sign, is rounded to the format. */
  ghost predicate RoundsTo(f: Fmt, rm: Mode, sign: bool, x: Exact, acc: Flags, r: nat, fl: Flags)
  {
    exists t: nat, k: nat :: Floor(f, x, t, k) && Delivers(f, rm, sign, x, t, k, acc, r, fl)
  }

  // ----- the arithmetic operations (sections 5.4.1, 6.2, 6.3 and 7.2)

  function Signed(sign: bool, n: nat): int { if sign then 0 - n else n }

  function Product(m: nat, n: nat): nat { m * n }

  function SignedUnits(f: Fmt, a: nat): int { Signed(f.Sign(a), f.Units(a)) }

  function Abs(v: int): nat { if v < 0 then -v else v }

  /** The sign of a sum v of terms with the signs s and t (section 6.3). */
  predicate SumSign(rm: Mode, s: bool, t: bool, v: int)
  { if v != 0 then v < 0 else if s == t then s else rm == RDN }

  /** Any NaN operand gives the quiet NaN, and a signalling one raises invalid. */
  predicate NanResult(f: Fmt, signalling: bool, acc: Flags, r: nat, fl: Flags)
  { r == f.QNan() && fl == (if signalling then acc.Or(Invalid) else acc) }

  ghost predicate IsSum(f: Fmt, rm: Mode, a: nat, b: nat, acc: Flags, r: nat, fl: Flags)
  {
    if f.IsNan(a) || f.IsNan(b) then NanResult(f, f.IsSignalling(a) || f.IsSignalling(b), acc, r, fl)
    else if f.IsInf(a) && f.IsInf(b) && f.Sign(a) != f.Sign(b) then NanResult(f, true, acc, r, fl)
    else if f.IsInf(a) then r == f.Inf(f.Sign(a)) && fl == acc
    else if f.IsInf(b) then r == f.Inf(f.Sign(b)) && fl == acc
    else
      var v := SignedUnits(f, a) + SignedUnits(f, b);
      RoundsTo(f, rm, SumSign(rm, f.Sign(a), f.Sign(b), v), Quotient(Abs(v), 1), acc, r, fl)
  }

  ghost predicate IsDifference(f: Fmt, rm: Mode, a: nat, b: nat, acc: Flags, r: nat, fl: Flags)
  {
    if f.IsNan(a) || f.IsNan(b) then NanResult(f, f.IsSignalling(a) || f.IsSignalling(b), acc, r, fl)
    else if f.IsInf(a) && f.IsInf(b) && f.Sign(a) == f.Sign(b) then NanResult(f, true, acc, r, fl)
    else if f.IsInf(a) then r == f.Inf(f.Sign(a)) && fl == acc
    else if f.IsInf(b) then r == f.Inf(!f.Sign(b)) && fl == acc
    else
      var v := SignedUnits(f, a) - SignedUnits(f, b);
      RoundsTo(f, rm, SumSign(rm, f.Sign(a), !f.Sign(b), v), Quotient(Abs(v), 1), acc, r, fl)
  }

  predicate IsZero(f: Fmt, a: nat) { f.IsFinite(a) && f.Units(a) == 0 }

  ghost predicate IsProduct(f: Fmt, rm: Mode, a: nat, b: nat, acc: Flags, r: nat, fl: Flags)
  {
    var sign := f.Sign(a) != f.Sign(b);
    if f.IsNan(a) || f.IsNan(b) then NanResult(f, f.IsSignalling(a) || f.IsSignalling(b), acc, r, fl)
    else if (f.IsInf(a) && IsZero(f, b)) || (IsZero(f, a) && f.IsInf(b)) then NanResult(f, true, acc, r, fl)
    else if f.IsInf(a) || f.IsInf(b) then r == f.Inf(sign) && fl == acc
    else RoundsTo(f, rm, sign, Quotient(Product(f.Units(a), f.Units(b)), P(f.One())), acc, r, fl)
  }

  ghost predicate IsQuotient(f: Fmt, rm: Mode, a: nat, b: nat, acc: Flags, r: nat, fl: Flags)
  {
    var sign := f.Sign(a) != f.Sign(b);
    if f.IsNan(a) || f.IsNan(b) then NanResult(f, f.IsSignalling(a) || f.IsSignalling(b), acc, r, fl)
    else if (f.IsInf(a) && f.IsInf(b)) || (IsZero(f, a) && IsZero(f, b)) then NanResult(f, true, acc, r, fl)
    else if f.IsInf(a) then r == f.Inf(sign) && fl == acc
    else if f.IsInf(b) then r == f.Zero(sign) && fl == acc
    else if f.Units(b) == 0 then r == f.Inf(sign) && fl == acc.Or(Flags(false, true, false, false, false))
    else RoundsTo(f, rm, sign, Quotient(Shl(f.Units(a), f.One()), f.Units(b)), acc, r, fl)
  }

  ghost predicate IsSquareRoot(f: Fmt, rm: Mode, a: nat, acc: Flags, r: nat, fl: Flags)
  {
    if f.IsNan(a) then NanResult(f, f.IsSignalling(a), acc, r, fl)
    else if IsZero(f, a) then r == f.Zero(f.Sign(a)) && fl == acc
    else if f.Sign(a) then NanResult(f, true, acc, r, fl)
    else if f.IsInf(a) then r == f.Inf(false) && fl == acc
    else RoundsTo(f, rm, false, Root(Shl(f.Units(a), f.One())), acc, r, fl)
  }

  /** One rounding of a * b + c. A product of zero and infinity is invalid even
      when c is a quiet NaN, a choice section 7.2 leaves open. */
  ghost predicate IsFusedMultiplyAdd(f: Fmt, rm: Mode, a: nat, b: nat, c: nat, acc: Flags, r: nat, fl: Flags)
  {
    var sign := f.Sign(a) != f.Sign(b);
    if (f.IsInf(a) && IsZero(f, b)) || (IsZero(f, a) && f.IsInf(b)) then NanResult(f, true, acc, r, fl)
    else if f.IsNan(a) || f.IsNan(b) || f.IsNan(c) then
      NanResult(f, f.IsSignalling(a) || f.IsSignalling(b) || f.IsSignalling(c), acc, r, fl)
    else if (f.IsInf(a) || f.IsInf(b)) && f.IsInf(c) && sign != f.Sign(c) then NanResult(f, true, acc, r, fl)
    else if f.IsInf(c) then r == f.Inf(f.Sign(c)) && fl == acc
    else if f.IsInf(a) || f.IsInf(b) then r == f.Inf(sign) && fl == acc
    else
      var v := Signed(sign, Product(f.Units(a), f.Units(b))) + Signed(f.Sign(c), Shl(f.Units(c), f.One()));
      RoundsTo(f, rm, SumSign(rm, sign, f.Sign(c), v), Quotient(Abs(v), P(f.One())), acc, r, fl)
  }
}
