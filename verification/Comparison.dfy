/** Comparisons, minimum and maximum on bit patterns, against the order of the
    values (section 5.11 of IEEE 754-2008). SignedUnits orders infinities too:
    an infinity has more units than any finite value. */
module Comparison {
  import opened Bits
  import opened Ieee754
  import opened Fields

  /** The infinity pattern counts as more units than any finite value. */
  lemma InfinityIsLargest(f: Fmt, a: nat, b: nat)
    requires f.IsFinite(a) && f.IsInf(b)
    ensures f.Units(a) < f.Units(b)
  {
    hide Shl, Shr, Low, P;
    MagnitudeFields(f, a);
    MagnitudeFields(f, b);
    ShlCmp(f.Exp(a) + 1, f.Exp(b), f.M);
    ShlSucc(f.Exp(a), f.M);
    UnitsOrder(f, b, a);
  }

  /** A word is its sign bit and its magnitude. */
  lemma WordOrder(f: Fmt, a: nat)
    requires f.Word(a)
    ensures a == (if f.Sign(a) then P(f.F - 1) else 0) + Magnitude(f, a)
    ensures Magnitude(f, a) < P(f.F - 1)
    ensures f.Units(a) == 0 <==> Magnitude(f, a) == 0
  {
    hide Shl, Shr, Low, P;
    Unpack(f, a);
    MagnitudeFields(f, a);
    ZeroMagnitude(f);
    UnitsOrder(f, a, 0);
  }

  lemma ZeroMagnitude(f: Fmt)
    ensures Magnitude(f, 0) == 0 && f.Units(0) == 0
  {
    hide Shl, Shr, Low, P;
    Small(0, f.F - 1);
    Small(0, f.M);
    Small(0, f.E);
    ShlNone(0, 0);
  }

  function NanFlags(f: Fmt, a: nat, b: nat, acc: Flags): Flags
  { if IsSignanSf(f, a) || IsSignanSf(f, b) then acc.Or(Invalid) else acc }

  /** Is (a | b) << 1 zero in the word? */
  predicate BothZero(f: Fmt, a: nat, b: nat) { Magnitude(f, a) == 0 && Magnitude(f, b) == 0 }

  function EqQuietSf(f: Fmt, a: nat, b: nat, acc: Flags): (r: (bool, Flags))
    requires f.Word(a) && f.Word(b)
    ensures r.0 <==> !f.IsNan(a) && !f.IsNan(b) && SignedUnits(f, a) == SignedUnits(f, b)
    ensures r.1 == (if f.IsSignalling(a) || f.IsSignalling(b) then acc.Or(Invalid) else acc)
  {
    SignedOrder(f, a, b);
    if f.IsNan(a) || f.IsNan(b) then (false, NanFlags(f, a, b, acc))
    else if BothZero(f, a, b) then (true, acc)
    else (a == b, acc)
  }

  function LeSf(f: Fmt, a: nat, b: nat, acc: Flags): (r: (bool, Flags))
    requires f.Word(a) && f.Word(b)
    ensures r.0 <==> !f.IsNan(a) && !f.IsNan(b) && SignedUnits(f, a) <= SignedUnits(f, b)
    ensures r.1 == (if f.IsNan(a) || f.IsNan(b) then acc.Or(Invalid) else acc)
  {
    SignedOrder(f, a, b);
    if f.IsNan(a) || f.IsNan(b) then (false, acc.Or(Invalid))
    else if f.Sign(a) != f.Sign(b) then (f.Sign(a) || BothZero(f, a, b), acc)
    else if f.Sign(a) then (a >= b, acc)
    else (a <= b, acc)
  }

  function LtSf(f: Fmt, a: nat, b: nat, acc: Flags): (r: (bool, Flags))
    requires f.Word(a) && f.Word(b)
    ensures r.0 <==> !f.IsNan(a) && !f.IsNan(b) && SignedUnits(f, a) < SignedUnits(f, b)
    ensures r.1 == (if f.IsNan(a) || f.IsNan(b) then acc.Or(Invalid) else acc)
  {
    SignedOrder(f, a, b);
    if f.IsNan(a) || f.IsNan(b) then (false, acc.Or(Invalid))
    else if f.Sign(a) != f.Sign(b) then (f.Sign(a) && !BothZero(f, a, b), acc)
    else if f.Sign(a) then (a > b, acc)
    else (a < b, acc)
  }

  /** How the bit tests of the comparisons order the values. */
  lemma SignedOrder(f: Fmt, a: nat, b: nat)
    requires f.Word(a) && f.Word(b)
    ensures BothZero(f, a, b) <==> f.Units(a) == 0 && f.Units(b) == 0
    ensures f.Sign(a) == f.Sign(b) ==>
              (SignedUnits(f, a) <= SignedUnits(f, b) <==> if f.Sign(a) then a >= b else a <= b)
    ensures f.Sign(a) == f.Sign(b) ==> (SignedUnits(f, a) == SignedUnits(f, b) <==> a == b)
    ensures f.Sign(a) != f.Sign(b) ==>
              (SignedUnits(f, a) <= SignedUnits(f, b) <==> f.Sign(a) || BothZero(f, a, b))
    ensures f.Sign(a) != f.Sign(b) ==> a != b && (SignedUnits(f, a) == SignedUnits(f, b) <==> BothZero(f, a, b))
  {
    hide Shl, Shr, Low, P;
    WordOrder(f, a);
    WordOrder(f, b);
    UnitsOrder(f, a, b);
    UnitsOrder(f, b, a);
  }

  /** The order with -0 strictly below +0: the sign bit decides between zeros. */
  predicate Before(f: Fmt, a: nat, b: nat)
  {
    SignedUnits(f, a) < SignedUnits(f, b)
    || (SignedUnits(f, a) == SignedUnits(f, b) && (f.Sign(a) || !f.Sign(b)))
  }

  /** What minimum and maximum do with a NaN: the other operand wins. */
  predicate NanChoice(f: Fmt, a: nat, b: nat, acc: Flags, r: nat, fl: Flags)
  {
    && fl == (if f.IsSignalling(a) || f.IsSignalling(b) then acc.Or(Invalid) else acc)
    && r == (if !f.IsNan(a) then a else if !f.IsNan(b) then b else f.QNan())
  }

  function MinSf(f: Fmt, a: nat, b: nat, acc: Flags): (r: (nat, Flags))
    requires f.Word(a) && f.Word(b)
    ensures if f.IsNan(a) || f.IsNan(b) then NanChoice(f, a, b, acc, r.0, r.1)
            else (r.0 == a || r.0 == b) && Before(f, r.0, a) && Before(f, r.0, b) && r.1 == acc
  {
    SignedOrder(f, a, b);
    SignedOrder(f, b, a);
    if f.IsNan(a) || f.IsNan(b) then
      (if f.IsNan(a) then if f.IsNan(b) then f.QNan() else b else a, NanFlags(f, a, b, acc))
    else if f.Sign(a) != f.Sign(b) then (if f.Sign(a) then a else b, acc)
    else (if (a < b) != f.Sign(a) then a else b, acc)
  }

  function MaxSf(f: Fmt, a: nat, b: nat, acc: Flags): (r: (nat, Flags))
    requires f.Word(a) && f.Word(b)
    ensures if f.IsNan(a) || f.IsNan(b) then NanChoice(f, a, b, acc, r.0, r.1)
            else (r.0 == a || r.0 == b) && Before(f, a, r.0) && Before(f, b, r.0) && r.1 == acc
  {
    SignedOrder(f, a, b);
    SignedOrder(f, b, a);
    if f.IsNan(a) || f.IsNan(b) then
      (if f.IsNan(a) then if f.IsNan(b) then f.QNan() else b else a, NanFlags(f, a, b, acc))
    else if f.Sign(a) != f.Sign(b) then (if f.Sign(a) then b else a, acc)
    else (if (a < b) != f.Sign(a) then b else a, acc)
  }
}
