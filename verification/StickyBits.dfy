/** A machine mantissa with a sticky bit stands for an exact magnitude: the two
    compare alike with every point of a grid. The shifting, adding and rounding
    steps of the library keep that relation, and rounding needs no more. */
module StickyBits {
  import opened Bits
  import opened Ieee754

  // ----- an exact magnitude as a cut of the dyadic numbers

  lemma SquareDouble(a: nat)
    ensures Square(2 * a) == 4 * Square(a)
  {
  }

  lemma Double(x: Exact, m: nat, k: int)
    ensures AtLeast(x, 2 * m, k) == AtLeast(x, m, k + 1)
    ensures Above(x, 2 * m, k) == Above(x, m, k + 1)
  {
    hide Shl, Square;
    ShlOne(m);
    if k >= 0 {
      ShlShl(m, 1, k);
    } else {
      ShlNone(m, 0);
      ShlNone(2 * m, 0);
      match x
      case Quotient(n, d) =>
        ShlShl(n, -k - 1, 1);
        ShlOne(Shl(n, -k - 1));
        MulAssoc(2, m, d);
      case Root(n) =>
        ShlShl(n, 2 * (-k - 1), 1);
        ShlOne(Shl(n, 2 * (-k - 1)));
        ShlShl(n, 2 * (-k - 1) + 1, 1);
        ShlOne(Shl(n, 2 * (-k - 1) + 1));
        SquareDouble(m);
    }
  }

  lemma {:induction false} Rescale(x: Exact, m: nat, k: int, s: nat)
    ensures AtLeast(x, Shl(m, s), k) == AtLeast(x, m, k + s)
    ensures Above(x, Shl(m, s), k) == Above(x, m, k + s)
    decreases s
  {
    hide AtLeast, Above, Shl;
    if s == 0 {
      ShlNone(m, 0);
    } else {
      ShlShl(m, s - 1, 1);
      ShlOne(Shl(m, s - 1));
      Double(x, Shl(m, s - 1), k);
      Rescale(x, m, k + 1, s - 1);
    }
  }

  lemma SquareMono(a: nat, b: nat)
    requires a < b
    ensures Square(a) < Square(b)
  {
    MulLe(a, b, a);
    MulLt(a, b, b);
  }

  lemma Monotone(x: Exact, m: nat, m': nat, k: int)
    requires Proper(x) && m < m'
    ensures AtLeast(x, m', k) ==> Above(x, m, k)
  {
    hide Shl, Square;
    ShlCmp(m, m', Pos(k));
    match x
    case Quotient(n, d) => MulLt(Shl(m, Pos(k)), Shl(m', Pos(k)), d);
    case Root(n) => SquareMono(Shl(m, Pos(k)), Shl(m', Pos(k)));
  }

  lemma AboveIsAtLeast(x: Exact, m: nat, k: int)
    ensures Above(x, m, k) ==> AtLeast(x, m, k)
  {
    hide Shl, Square;
  }

  lemma AtLeastZero(x: Exact, k: int)
    ensures AtLeast(x, 0, k)
  {
    ShlNone(0, Pos(k));
  }

  // ----- sticky mantissas

  /** x and m * 2^e compare alike with j * 2^(e + g). */
  predicate SameSide(x: Exact, m: nat, e: int, g: nat, j: nat)
  {
    (AtLeast(x, j, e + g) <==> Shl(j, g) <= m) && (Above(x, j, e + g) <==> Shl(j, g) < m)
  }

  /** m * 2^e stands for x: they compare alike with every multiple of 2^(e + g). */
  ghost predicate StandsFor(x: Exact, m: nat, e: int, g: nat)
  {
    forall j: nat :: SameSide(x, m, e, g, j)
  }

  /** m * 2^e is x. */
  ghost predicate IsExactly(x: Exact, m: nat, e: int)
  {
    forall s: nat :: StandsFor(x, Shl(m, s), e - s, 0)
  }

  /** A point of a coarser grid is a point of the finer one. */
  lemma Compare(x: Exact, m: nat, e: int, g: nat, j: nat, s: nat)
    requires StandsFor(x, m, e, g)
    ensures SameSide(x, m, e, g + s, j)
  {
    hide AtLeast, Above, Shl;
    Rescale(x, j, e + g, s);
    ShlShl(j, s, g);
    assert SameSide(x, m, e, g, Shl(j, s));
  }

  lemma Coarsen(x: Exact, m: nat, e: int, g: nat, g': nat)
    requires StandsFor(x, m, e, g) && g <= g'
    ensures StandsFor(x, m, e, g')
  {
    hide SameSide;
    forall j: nat
      ensures SameSide(x, m, e, g', j)
    {
      Compare(x, m, e, g, j, g' - g);
    }
  }

  lemma ShiftLeftAt(x: Exact, m: nat, e: int, g: nat, s: nat, j: nat)
    requires SameSide(x, m, e, g, j)
    ensures SameSide(x, Shl(m, s), e - s, g + s, j)
  {
    hide AtLeast, Above, Shl;
    ShlShl(j, g, s);
    ShlCmp(Shl(j, g), m, s);
  }

  lemma ShiftLeft(x: Exact, m: nat, e: int, g: nat, s: nat)
    requires StandsFor(x, m, e, g)
    ensures StandsFor(x, Shl(m, s), e - s, g + s)
  {
    hide SameSide, Shl;
    var m', e', g' := Shl(m, s), e - s, g + s;
    forall j: nat
      ensures SameSide(x, m', e', g', j)
    {
      assert SameSide(x, m, e, g, j);
      ShiftLeftAt(x, m, e, g, s, j);
    }
  }

  /** The sticky right shift on values: the quotient, with its low bit forced to
      one when anything was shifted out. */
  function Jam(m: nat, d: nat): nat
  {
    var q := Shr(m, d);
    if Low(m, d) != 0 && q % 2 == 0 then q + 1 else q
  }

  lemma JamCompare(m: nat, d: nat, t: nat)
    requires t % 2 == 0
    ensures Shl(t, d) <= m <==> t <= Jam(m, d)
    ensures Shl(t, d) < m <==> t < Jam(m, d)
  {
    hide Shl, Shr, Low;
    var q := Shr(m, d);
    Split(m, d);
    ShrLt(m, d, t);
    ShlCmp(t, q, d);
  }

  lemma ShiftRightAt(x: Exact, m: nat, e: int, d: nat, g: nat, j: nat)
    requires g >= 1 && SameSide(x, m, e, g + d, j)
    ensures SameSide(x, Jam(m, d), e + d, g, j)
  {
    hide AtLeast, Above, Jam, Shl;
    ShlShl(j, g, d);
    ShlEven(j, g);
    JamCompare(m, d, Shl(j, g));
  }

  lemma ShiftRight(x: Exact, m: nat, e: int, g: nat, d: nat, g': nat)
    requires StandsFor(x, m, e, g) && g' >= 1 && g <= g' + d
    ensures StandsFor(x, Jam(m, d), e + d, g')
  {
    hide SameSide, Jam;
    var m', e' := Jam(m, d), e + d;
    forall j: nat
      ensures SameSide(x, m', e', g', j)
    {
      Compare(x, m, e, g, j, g' + d - g);
      ShiftRightAt(x, m, e, d, g', j);
    }
  }

  // ----- where mantissas come from

  /** x cut down to q * 2^e, with a sticky bit for what was cut. */
  lemma CutStandsFor(x: Exact, q: nat, e: int)
    requires Proper(x) && AtLeast(x, q, e) && !AtLeast(x, q + 1, e)
    ensures StandsFor(x, if Above(x, q, e) && q % 2 == 0 then q + 1 else q, e, 1)
  {
    hide AtLeast, Above, SameSide;
    var m := if Above(x, q, e) && q % 2 == 0 then q + 1 else q;
    forall j: nat
      ensures SameSide(x, m, e, 1, j)
    {
      CutAt(x, q, e, j);
    }
  }

  lemma CutAt(x: Exact, q: nat, e: int, j: nat)
    requires Proper(x) && AtLeast(x, q, e) && !AtLeast(x, q + 1, e)
    ensures SameSide(x, if Above(x, q, e) && q % 2 == 0 then q + 1 else q, e, 1, j)
  {
    hide AtLeast, Above, Shl;
    Double(x, j, e);
    ShlOne(j);
    CutCompare(x, q, e, 2 * j);
  }

  lemma CutCompare(x: Exact, q: nat, e: int, i: nat)
    requires Proper(x) && AtLeast(x, q, e) && !AtLeast(x, q + 1, e)
    ensures AtLeast(x, i, e) <==> i <= q
    ensures Above(x, i, e) <==> i < q || (i == q && Above(x, q, e))
  {
    hide AtLeast, Above;
    AboveIsAtLeast(x, i, e);
    if i < q {
      Monotone(x, i, q, e);
    } else if i > q + 1 {
      Monotone(x, q + 1, i, e);
      AboveIsAtLeast(x, q + 1, e);
    }
  }

  /** An exact value is its own mantissa at any finer exponent. */
  lemma ExactCut(x: Exact, m: nat, e: int)
    requires Proper(x) && AtLeast(x, m, e) && !Above(x, m, e)
    ensures IsExactly(x, m, e)
  {
    hide AtLeast, Above, SameSide, Shl;
    forall s: nat
      ensures StandsFor(x, Shl(m, s), e - s, 0)
    {
      Rescale(x, m, e - s, s);
      ExactCutHere(x, Shl(m, s), e - s);
    }
  }

  lemma ExactCutHere(x: Exact, m: nat, e: int)
    requires Proper(x) && AtLeast(x, m, e) && !Above(x, m, e)
    ensures StandsFor(x, m, e, 0)
  {
    hide AtLeast, Above, Shl;
    Monotone(x, m, m + 1, e);
    forall j: nat
      ensures SameSide(x, m, e, 0, j)
    {
      ShlNone(j, 0);
      CutCompare(x, m, e, j);
    }
  }

  lemma ExactShl(x: Exact, m: nat, e: int, s: nat)
    requires IsExactly(x, m, e)
    ensures IsExactly(x, Shl(m, s), e - s)
  {
    hide StandsFor, Shl;
    forall s': nat
      ensures StandsFor(x, Shl(Shl(m, s), s'), e - s - s', 0)
    {
      ShlShl(m, s, s');
      assert e - s - s' == e - (s + s');
      assert StandsFor(x, Shl(m, s + s'), e - (s + s'), 0);
    }
  }

  /** ... and at a coarser one that still divides it. */
  lemma ExactHalf(x: Exact, m: nat, e: int)
    requires IsExactly(x, 2 * m, e)
    ensures IsExactly(x, m, e + 1)
  {
    hide AtLeast, Above, SameSide, Shl;
    ShlOne(m);
    forall s: nat
      ensures StandsFor(x, Shl(m, s), e + 1 - s, 0)
    {
      if s == 0 {
        ExactStands(x, 2 * m, e, 0);
        HalfStands(x, m, e);
        ShlNone(m, 0);
      } else {
        assert StandsFor(x, Shl(2 * m, s - 1), e - (s - 1), 0);
        ShlShl(m, 1, s - 1);
      }
    }
  }

  lemma HalfStands(x: Exact, m: nat, e: int)
    requires StandsFor(x, 2 * m, e, 0)
    ensures StandsFor(x, m, e + 1, 0)
  {
    hide SameSide;
    var e' := e + 1;
    forall j: nat
      ensures SameSide(x, m, e', 0, j)
    {
      Compare(x, 2 * m, e, 0, j, 1);
      HalfAt(x, m, e, j);
    }
  }

  lemma HalfAt(x: Exact, m: nat, e: int, j: nat)
    requires SameSide(x, 2 * m, e, 1, j)
    ensures SameSide(x, m, e + 1, 0, j)
  {
    hide AtLeast, Above, Shl;
    ShlOne(j);
    ShlNone(j, 0);
  }

  lemma ExactStands(x: Exact, m: nat, e: int, g: nat)
    requires IsExactly(x, m, e)
    ensures StandsFor(x, m, e, g)
  {
    hide SameSide, Shl;
    assert StandsFor(x, Shl(m, 0), e - 0, 0);
    ShlNone(m, 0);
    Coarsen(x, m, e, 0, g);
  }

  // ----- what rounding reads off a mantissa

  /** Where a mantissa m == t * 2^k + r lies in its cell. */
  lemma Cells(m: nat, k: nat, t: nat, r: nat)
    requires k > 0 && r < P(k) && m == Shl(t, k) + r
    ensures Shl(t, k) <= m < Shl(t + 1, k)
    ensures Shl(t, k) < m <==> r != 0
    ensures Shl(2 * t + 1, k - 1) <= m <==> P(k - 1) <= r
    ensures Shl(2 * t + 1, k - 1) < m <==> P(k - 1) < r
  {
    hide Shl;
    ShlSucc(t, k);
    ShlSucc(2 * t, k - 1);
    ShlShl(t, 1, k - 1);
    ShlOne(t);
  }

  /** Where x lies between t * 2^(e+k) and (t+1) * 2^(e+k) can be read off the
      low k bits of its mantissa. */
  lemma Bracket(x: Exact, m: nat, e: int, g: nat, k: nat, t: nat, r: nat)
    requires StandsFor(x, m, e, g) && g < k
    requires r < P(k) && m == Shl(t, k) + r
    ensures AtLeast(x, t, e + k) && !AtLeast(x, t + 1, e + k)
    ensures Above(x, t, e + k) <==> r != 0
    ensures AtLeast(x, 2 * t + 1, e + k - 1) <==> P(k - 1) <= r
    ensures Above(x, 2 * t + 1, e + k - 1) <==> P(k - 1) < r
  {
    hide AtLeast, Above, StandsFor, Shl, P;
    Cells(m, k, t, r);
    Compare(x, m, e, g, t, k - g);
    Compare(x, m, e, g, t + 1, k - g);
    Compare(x, m, e, g, 2 * t + 1, k - 1 - g);
    assert e + (k - 1) == e + k - 1;
  }
}
