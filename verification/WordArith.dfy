/** The double-width integer routines under multiplication, division and square
    root, in the form used when no double-width type exists: half-word products,
    shift-and-subtract division and Newton's iteration on words of w bits. */
module WordArith {
  import opened Bits
  import opened Ieee754
  import opened StickyBits
  import opened Normalize

  // ----- mul_u

  /** The product of two two-digit numbers in base 2^h. */
  lemma Expand(h: nat, a0: nat, a1: nat, b0: nat, b1: nat)
    ensures (Shl(a1, h) + a0) * (Shl(b1, h) + b0) == a0 * b0 + Shl(a0 * b1 + a1 * b0, h) + Shl(a1 * b1, 2 * h)
  {
    hide Shl;
    var x, y := Shl(a1, h), Shl(b1, h);
    Foil(x, a0, y, b0);
    ShlMul(a1, h, b1, h);
    ShlMulOne(a1, h, b0);
    ShlMulOne(b1, h, a0);
    assert y * a0 == a0 * y && b1 * a0 == a0 * b1;
    ShlAdd(a0 * b1, a1 * b0, h);
  }

  lemma Foil(x: nat, a: nat, y: nat, b: nat)
    ensures (x + a) * (y + b) == x * y + x * b + a * y + a * b
  {
  }

  /** Column sums with carries. */
  lemma Columns(h: nat, r00: nat, r01: nat, r10: nat, r11: nat, k1: nat, r1: nat, k2: nat, r2: nat)
    requires Shr(r00, h) + Low(r01, h) + Low(r10, h) == Shl(k1, h) + r1
    requires k1 + Shr(r01, h) + Shr(r10, h) + Low(r11, h) == Shl(k2, h) + r2
    ensures r00 + Shl(r01 + r10, h) + Shl(r11, 2 * h) ==
            Shl(Shl(k2 + Shr(r11, h), h) + r2, 2 * h) + (Shl(r1, h) + Low(r00, h))
  {
    hide Shl, Shr, Low, P;
    var q00, q01, q10, q11 := Shr(r00, h), Shr(r01, h), Shr(r10, h), Shr(r11, h);
    var s01, s10, s11 := Low(r01, h), Low(r10, h), Low(r11, h);
    Split(r00, h); Split(r01, h); Split(r10, h); Split(r11, h);
    ShlAdd(Shl(q01, h) + s01, Shl(q10, h) + s10, h);
    ShlAdd(Shl(q01, h), s01, h);
    ShlAdd(Shl(q10, h), s10, h);
    ShlShl(q01, h, h);
    ShlShl(q10, h, h);
    ShlAdd(Shl(q11, h), s11, 2 * h);
    ShlShl(q11, h, 2 * h);
    // first column
    ShlAdd(q00 + s01, s10, h);
    ShlAdd(q00, s01, h);
    ShlAdd(Shl(k1, h), r1, h);
    ShlShl(k1, h, h);
    // second column
    ShlAdd(k1 + q01 + q10, s11, 2 * h);
    ShlAdd(k1 + q01, q10, 2 * h);
    ShlAdd(k1, q01, 2 * h);
    ShlAdd(Shl(k2, h), r2, 2 * h);
    ShlShl(k2, h, 2 * h);
    // the top two digits
    ShlAdd(Shl(k2 + q11, h), r2, 2 * h);
    ShlShl(k2 + q11, h, 2 * h);
    ShlAdd(k2, q11, h + 2 * h);
  }

  lemma ProductBound(a: nat, b: nat, n: nat)
    requires a < n && b < n
    ensures a * b < n * n
  {
    MulLe(a, n, b);
    MulLt(b, n, n);
  }

  /** The double-width product of two words of 2h bits, in half words. */
  method MulU(h: nat, a: nat, b: nat) returns (hi: nat, lo: nat)
    requires a < P(2 * h) && b < P(2 * h)
    ensures Shl(hi, 2 * h) + lo == a * b
    ensures hi < P(2 * h) && lo < P(2 * h)
  {
    hide P, Shr, Low;
    var a0, a1, b0, b1 := Low(a, h), Shr(a, h), Low(b, h), Shr(b, h);
    var r00, r01, r10, r11 := a0 * b0, a0 * b1, a1 * b0, a1 * b1;
    var r0 := Low(r00, h);
    var c := Shr(r00, h) + Low(r01, h) + Low(r10, h);
    var r1 := Low(c, h);
    ghost var k1 := Shr(c, h);
    c := Shr(c, h) + Shr(r01, h) + Shr(r10, h) + Low(r11, h);
    var r2 := Low(c, h);
    ghost var k2 := Shr(c, h);
    var r3 := Low(Shr(c, h) + Shr(r11, h), h);
    MulWords(h, a, b, r0, r1, r2, k1, k2);
    lo := Shl(r1, h) + r0;
    hi := Shl(r3, h) + r2;
  }

  lemma MulWords(h: nat, a: nat, b: nat, r0: nat, r1: nat, r2: nat, k1: nat, k2: nat)
    requires a < P(2 * h) && b < P(2 * h)
    requires var a0, a1, b0, b1 := Low(a, h), Shr(a, h), Low(b, h), Shr(b, h);
             var r00, r01, r10, r11 := a0 * b0, a0 * b1, a1 * b0, a1 * b1;
             var c := Shr(r00, h) + Low(r01, h) + Low(r10, h);
             var c' := k1 + Shr(r01, h) + Shr(r10, h) + Low(r11, h);
             r0 == Low(r00, h) && r1 == Low(c, h) && k1 == Shr(c, h) && r2 == Low(c', h) && k2 == Shr(c', h)
    ensures var r3 := k2 + Shr(Shr(a, h) * Shr(b, h), h);
            && Low(r3, h) == r3
            && Shl(Shl(r3, h) + r2, 2 * h) + (Shl(r1, h) + r0) == a * b
            && Shl(r3, h) + r2 < P(2 * h) && Shl(r1, h) + r0 < P(2 * h)
  {
    hide P, Shr, Low, Shl;
    var a0, a1, b0, b1 := Low(a, h), Shr(a, h), Low(b, h), Shr(b, h);
    var r00, r01, r10, r11 := a0 * b0, a0 * b1, a1 * b0, a1 * b1;
    Split(a, h); Split(b, h);
    Split(Shr(r00, h) + Low(r01, h) + Low(r10, h), h);
    Split(k1 + Shr(r01, h) + Shr(r10, h) + Low(r11, h), h);
    Expand(h, a0, a1, b0, b1);
    Columns(h, r00, r01, r10, r11, k1, r1, k2, r2);
    var r3 := k2 + Shr(r11, h);
    var H, L := Shl(r3, h) + r2, Shl(r1, h) + r0;
    assert Shl(H, 2 * h) + L == a * b;
    TwoDigits(h, r1, r0);
    ProductBound(a, b, P(2 * h));
    HighDigit(h, H, L, a * b);
    ShlP(h, h);
    ShlCmp(r3, P(h), h);
    Small(r3, h);
  }

  lemma TwoDigits(h: nat, x: nat, y: nat)
    requires x < P(h) && y < P(h)
    ensures Shl(x, h) + y < P(2 * h)
  {
    hide Shl, P;
    ShlCmp(x + 1, P(h), h);
    ShlSucc(x, h);
    ShlP(h, h);
  }

  lemma HighDigit(h: nat, H: nat, L: nat, n: nat)
    requires n == Shl(H, 2 * h) + L && n < P(2 * h) * P(2 * h)
    ensures H < P(2 * h)
  {
    if H >= P(2 * h) {
      MulLe(P(2 * h), H, P(2 * h));
    }
  }

  // ----- divrem_u

  lemma TopBit(a0: nat, n: nat)
    ensures var t := Shr(Low(a0, n + 1), n);
            && t < 2
            && Shr(a0, n) == 2 * Shr(a0, n + 1) + t
            && Low(a0, n + 1) == Shl(t, n) + Low(a0, n)
  {
    hide Shl, Shr, Low, P;
    var c, q := Low(a0, n + 1), Shr(a0, n + 1);
    var t := Shr(c, n);
    Split(a0, n + 1);
    Split(c, n);
    ShlP(1, n);
    PZero();
    ShrLt(c, n, 2);
    ShlAdd(1, 1, n);
    ShlP(0, n);
    PStep(n);
    ShlShl(q, 1, n);
    ShlOne(q);
    ShlAdd(2 * q, t, n);
    SplitUnique(a0, n, 2 * q + t, Low(c, n));
  }

  lemma NextBit(w: nat, a0: nat, i: nat, q: nat, cur: nat)
    requires i < w && q < P(i) && cur == Shl(Low(a0, w - i), i) + q
    ensures var t := Shr(cur, w - 1);
            && t < 2
            && Shr(a0, w - i - 1) == 2 * Shr(a0, w - i) + t
            && Low(2 * cur, w) == Shl(Low(a0, w - i - 1), i + 1) + 2 * q
  {
    hide Shl, Shr, Low, P;
    var n := w - i - 1;
    TopBit(a0, n);
    var t, d := Shr(Low(a0, n + 1), n), Low(a0, n);
    ShlAdd(Shl(t, n), d, i);
    ShlShl(t, n, i);
    assert n + i == w - 1;
    ShlCmp(d + 1, P(n), i);
    ShlSucc(d, i);
    ShlP(n, i);
    SplitUnique(cur, w - 1, t, Shl(d, i) + q);
    ShlShl(t, w - 1, 1);
    ShlOne(Shl(t, w - 1));
    ShlShl(d, i, 1);
    ShlOne(Shl(d, i));
    PStep(w - 1);
    SplitUnique(2 * cur, w, t, Shl(d, i + 1) + 2 * q);
  }

  /** The wrapped doubling, compare and subtract of the loop body. */
  lemma WrappedStep(w: nat, rem: nat, t: nat, b: nat)
    requires w > 0 && rem < b < P(w) && t < 2
    ensures var v := 2 * rem + t;
            var a1 := Low(v, w);
            && (Shr(rem, w - 1) != 0 || a1 >= b <==> v >= b)
            && (v >= b ==> Low(a1 + P(w) - b, w) == v - b)
            && (v < b ==> a1 == v)
  {
    hide Shl, Shr, Low, P;
    var v := 2 * rem + t;
    PStep(w - 1);
    ShlP(0, w - 1);
    ShlP(0, w);
    PZero();
    ShrLt(rem, w - 1, 1);
    if v < P(w) {
      Small(v, w);
      if v >= b {
        SplitUnique(v + P(w) - b, w, 1, v - b);
      }
    } else {
      SplitUnique(v, w, 1, v - P(w));
      Small(v - b, w);
    }
  }

  /** Divide the double word a1:a0 by b, one quotient bit at a time. */
  method DivremU(w: nat, a1: nat, a0: nat, b: nat) returns (q: nat, r: nat)
    requires w > 0 && a1 < b < P(w) && a0 < P(w)
    ensures Shl(a1, w) + a0 == q * b + r && r < b && q < P(w)
  {
    hide Shl, Shr, Low, P;
    var hi: nat, lo: nat := a1, a0;
    ghost var quo: nat := 0;
    DivInit(w, a1, a0, b);
    var i := 0;
    while i < w
      invariant 0 <= i <= w
      invariant quo < P(i) && lo == Shl(Low(a0, w - i), i) + quo
      invariant hi < b && Shl(a1, i) + Shr(a0, w - i) == quo * b + hi
    {
      var ab := Shr(hi, w - 1);
      ghost var rem := hi;
      NextBit(w, a0, i, quo, lo);
      var t := Shr(lo, w - 1);
      hi := Low(2 * hi + t, w);
      WrappedStep(w, rem, t, b);
      var qb;
      if ab != 0 || hi >= b {
        hi := Low(hi + P(w) - b, w);
        qb := 1;
      } else {
        qb := 0;
      }
      lo := Low(2 * lo, w) + qb;
      DivAdvance(w, a1, a0, b, i, quo, rem, t, hi, qb);
      quo := 2 * quo + qb;
      i := i + 1;
    }
    DivDone(w, a1, a0, lo, quo);
    q, r := lo, hi;
  }

  lemma DivInit(w: nat, a1: nat, a0: nat, b: nat)
    requires a0 < P(w)
    ensures 0 < P(0) && a0 == Shl(Low(a0, w), 0) + 0 && Shl(a1, 0) + Shr(a0, w) == 0 * b + a1
  {
    Small(a0, w);
    ShlNone(a0, 0);
    ShlNone(a1, 0);
  }

  lemma DivDone(w: nat, a1: nat, a0: nat, lo: nat, quo: nat)
    requires lo == Shl(Low(a0, 0), w) + quo
    ensures lo == quo && Shl(a1, w) + Shr(a0, 0) == Shl(a1, w) + a0
  {
    ShlNone(a0, 0);
    SplitUnique(a0, 0, a0, 0);
    ShlNone(0, w);
  }

  lemma DivAdvance(w: nat, a1: nat, a0: nat, b: nat, i: nat, q: nat, rem: nat, t: nat, hi: nat, qb: nat)
    requires i < w && q < P(i) && t < 2
    requires Shl(a1, i) + Shr(a0, w - i) == q * b + rem
    requires Shr(a0, w - i - 1) == 2 * Shr(a0, w - i) + t
    requires if 2 * rem + t >= b then qb == 1 && hi == 2 * rem + t - b else qb == 0 && hi == 2 * rem + t
    ensures 2 * q + qb < P(i + 1)
    ensures Shl(a1, i + 1) + Shr(a0, w - i - 1) == (2 * q + qb) * b + hi
  {
    hide Shl, Shr, P;
    PStep(i);
    ShlShl(a1, i, 1);
    ShlOne(Shl(a1, i));
    assert (2 * q + qb) * b == 2 * (q * b) + qb * b;
  }

  // ----- sqrtrem_u

  lemma SquareSum(a: int, b: int)
    ensures (a + b) * (a + b) == a * a + 2 * (a * b) + b * b
  {
  }

  lemma AmGm(x: int, y: int)
    ensures 4 * (x * y) <= (x + y) * (x + y)
  {
    SquareSum(x, y);
    SquareSum(x, -y);
    assert x * (-y) == -(x * y) && (-y) * (-y) == y * y;
    var d := x + -y;
    assert d * d >= 0;
  }

  /** One Newton step from any positive s stays at or above the square root. */
  lemma NewtonStep(A: nat, s: nat, q: nat, u: nat)
    requires s > 0 && q * s <= A < (q + 1) * s && u == (q + s) / 2
    ensures A < Square(u + 1)
    ensures u >= s ==> Square(s) <= A
  {
    AmGm(q + 1, s);
    var v := q + 1 + s;
    assert v <= 2 * (u + 1);
    ProductMono(v, 2 * (u + 1));
    SquareDouble(u + 1);
    if u >= s {
      MulLe(s, q, s);
    }
  }

  lemma ProductMono(a: nat, b: nat)
    requires a <= b
    ensures a * a <= b * b
  {
    MulLe(a, b, a);
    MulLe(a, b, b);
  }

  lemma SquareP(n: nat)
    ensures Square(P(n)) == P(2 * n)
  {
    hide P;
    PAdd(n, n);
  }

  /** Above the root, the quotient is no larger than s; at the root, by at most 2. */
  lemma QuotientBound(A: nat, s: nat, q: nat)
    requires s > 0 && q * s <= A < Square(s + 1)
    ensures q <= s + 2
    ensures A <= Square(s) ==> q <= s
  {
    SquareSum(s, 1);
    assert (s + 3) * s == s * s + 3 * s;
    assert (s + 1) * s == s * s + s;
    if q > s + 2 {
      MulLe(s + 3, q, s);
    } else if q > s {
      MulLe(s + 1, q, s);
    }
  }

  lemma Fits(w: nat, a1: nat, a0: nat, s: nat)
    requires w >= 4 && a1 < P(w - 2) && a0 < P(w)
    requires s > 0 && Shl(a1, w) + a0 < Square(s + 1)
    ensures a1 < s
  {
    hide Shl, P, Square;
    var A, p := Shl(a1, w) + a0, P(w - 2);
    PStep(w - 2); PStep(w - 1);
    PZero();
    PMono(2, w - 2);
    SmallRoot(w, p, A, s, a1);
  }

  /** A sum that reaches 4p needs an operand of 4p^2 - 1 at least. */
  lemma SumFits(p: nat, A: nat, s: nat, q: nat)
    requires p > 0 && 0 < s <= 2 * p && q <= s + 2 && q * s <= A && A + 1 < Square(2 * p)
    ensures q + s < 4 * p
  {
    var d := 2 * p;
    assert Square(d) == d * d;
    assert (d + 1) * (d - 1) == d * d - 1;
    if q + s >= 4 * p {
      if s == d {
        MulLe(d, q, d);
      } else {
        MulLe(d + 1, q, d - 1);
      }
    }
  }

  lemma SmallRoot(w: nat, p: nat, A: nat, s: nat, a1: nat)
    requires p >= 4 && a1 < p && s > 0 && A < Square(s + 1)
    requires P(w) == 4 * p && Shl(a1, w) <= A
    ensures a1 < s
  {
    hide P;
    SquareSum(a1, 1);
    MulLe(a1, p, a1);
    assert a1 * (4 * p) == 4 * (p * a1);
    if a1 >= s {
      ProductMono(s + 1, a1 + 1);
      if a1 > 0 {
        MulLe(4, p, a1);
      }
    }
  }

  /** The coded exponent for the start value. */
  function StartBits(w: nat, a1: nat, a0: nat): nat
    requires a1 != 0 || a0 != 0
  {
    if a1 != 0 then w + BitLen(a1 - 1) else BitLen(a0 - 1)
  }

  function Start(w: nat, a1: nat, a0: nat): nat
    requires a1 != 0 || a0 != 0
  {
    P((StartBits(w, a1, a0) + 1) / 2)
  }

  /** The start value is not below the square root. */
  predicate StartCovers(w: nat, a1: nat, a0: nat)
  {
    (a1 != 0 || a0 != 0) ==> Shl(a1, w) + a0 < Square(Start(w, a1, a0) + 1)
  }

  lemma StartSmall(w: nat, a1: nat, a0: nat)
    requires w >= 4 && a1 < P(w - 2) && a0 < P(w) && (a1 != 0 || a0 != 0)
    ensures StartBits(w, a1, a0) <= 2 * w - 2 && 0 < Start(w, a1, a0) <= P(w - 1)
    ensures a1 != 0 ==> a1 <= P(BitLen(a1 - 1)) && BitLen(a1 - 1) <= w - 2
    ensures a1 == 0 ==> a0 <= P(BitLen(a0 - 1))
  {
    hide P, BitLen;
    if a1 != 0 {
      BitLenMax(a1 - 1, w - 2);
    } else {
      BitLenMax(a0 - 1, w);
    }
    PMono((StartBits(w, a1, a0) + 1) / 2, w - 1);
  }

  /** With one of the two words zero, as its caller passes them, it is not. */
  lemma OneWordCovers(w: nat, a1: nat, a0: nat)
    requires w >= 4 && a1 < P(w - 2) && a0 < P(w) && (a1 == 0 || a0 == 0)
    ensures StartCovers(w, a1, a0)
  {
    hide Shl, P, BitLen, Square;
    if a1 != 0 || a0 != 0 {
      var l := StartBits(w, a1, a0);
      StartSmall(w, a1, a0);
      ShlNone(0, w);
      if a1 != 0 {
        ShlP(BitLen(a1 - 1), w);
        ShlCmp(a1, P(BitLen(a1 - 1)), w);
      }
      SquareP((l + 1) / 2);
      PMono(l, 2 * ((l + 1) / 2));
      SquareNext(Start(w, a1, a0));
    }
  }

  lemma HighWordOnly(w: nat, a1: nat)
    requires w >= 4 && a1 < P(w - 2)
    ensures Shl(a1, w) + 1 < P(2 * w - 2)
  {
    hide Shl, P;
    ShlP(w - 2, w);
    ShlCmp(a1 + 1, P(w - 2), w);
    ShlSucc(a1, w);
    PZero();
    PMono(1, w);
  }

  lemma SquareNext(u: nat)
    ensures Square(u) < Square(u + 1)
  {
    SquareSum(u, 1);
  }

  /** It is for two words of the form 1 : 2^w - 1. */
  lemma StartMisses(h: nat)
    requires h >= 2
    ensures !StartCovers(2 * h, 1, P(2 * h) - 1)
  {
    hide Shl, P, Square;
    var w := 2 * h;
    assert StartBits(w, 1, P(w) - 1) == w;
    assert Shl(1, w) == P(w) by { ShlNone(1, 0); PZero(); ShlP(0, w); }
    PAdd(h, h);
    PZero();
    PMono(2, h);
    SquareIs(P(h) + 1);
    SquareSum(P(h), 1);
    MulLe(4, P(h), P(h));
  }

  /** From a start below the root the first step does not go down. */
  lemma BadStart(w: nat, a1: nat, a0: nat, q: nat, r: nat)
    requires w >= 4 && a1 < P(w - 2) && a0 < P(w) && !StartCovers(w, a1, a0)
    requires var u := Start(w, a1, a0); r < u && Shl(a1, w) + a0 == q * u + r
    ensures var u := Start(w, a1, a0); q >= u && q + u < P(w)
  {
    hide Shl, P, Square, BitLen;
    var u, l := Start(w, a1, a0), StartBits(w, a1, a0);
    StartSmall(w, a1, a0);
    if a1 == 0 {
      OneWordCovers(w, a1, a0);
    }
    BadTop(w, a1, a0);
    SquareIs(u + 1);
    SquareSum(u, 1);
    assert (q + 1) * u == q * u + u;
    if q < u {
      MulLe(q + 1, u, u);
    }
    WordSized(w, u);
    if q + u >= P(w) {
      var p := P(w - 1);
      MulLe(p, q, u);
      PAdd(w - 1, (l + 1) / 2);
      PMono(l + 1, w - 1 + (l + 1) / 2);
    }
  }

  /** The start is below the root only for a high word that is a power of two,
      and then the operand has at most 2w - 2 bits. */
  lemma BadTop(w: nat, a1: nat, a0: nat)
    requires w >= 4 && a1 < P(w - 2) && a0 < P(w) && a1 != 0 && !StartCovers(w, a1, a0)
    ensures StartBits(w, a1, a0) <= 2 * w - 3 && Shl(a1, w) + a0 < P(StartBits(w, a1, a0) + 1)
    ensures a1 < Start(w, a1, a0)
  {
    hide Shl, P, Square, BitLen;
    var k, l := BitLen(a1 - 1), StartBits(w, a1, a0);
    StartSmall(w, a1, a0);
    ShlP(k, w);
    ShlCmp(a1, P(k), w);
    ShlCmp(a1 + 1, P(k), w);
    ShlSucc(a1, w);
    PMono(w, l);
    PStep(l);
    SquareP((l + 1) / 2);
    PMono(l, 2 * ((l + 1) / 2));
    SquareNext(Start(w, a1, a0));
    assert a1 == P(k);
    if k == w - 2 {
      assert false;
    }
    PStrict(k, (l + 1) / 2);
  }

  /** sqrtrem_u: Newton's iteration. It ends at floor(sqrt(a1:a0)) exactly when it
      does not start below it, and always reports whether the square is exact. */
  method SqrtremU(h: nat, a1: nat, a0: nat) returns (s: nat, inexact: bool)
    requires h >= 2 && a1 < P(2 * h - 2) && a0 < P(2 * h) && Shl(a1, 2 * h) + a0 + 1 < P(4 * h - 2)
    ensures Square(s) <= Shl(a1, 2 * h) + a0 < Square(s + 1) <==> StartCovers(2 * h, a1, a0)
    ensures inexact <==> Square(s) != Shl(a1, 2 * h) + a0
    ensures StartCovers(2 * h, a1, a0) ==> s < P(2 * h - 1)
  {
    hide Shl, P, Square, BitLen;
    var w := 2 * h;
    ghost var A := Shl(a1, w) + a0;
    var l;
    ShlNone(0, w);
    if a1 != 0 {
      PMono(w - 2, w);
      ShlCmp(0, a1, w);
      BitLenMax(a1 - 1, w);
      l := 2 * w - (w - BitLen(a1 - 1));
    } else {
      if a0 == 0 {
        SquareOne();
        return 0, false;
      }
      BitLenMax(a0 - 1, w);
      l := w - (w - BitLen(a0 - 1));
    }
    StartSmall(w, a1, a0);
    var u := P((l + 1) / 2);
    s := Newton(w, a1, a0, u);
    RootRange(w, A, s);
    WordSized(w, s);
    var sq1, sq0 := MulU(h, s, s);
    TwoWordsEqual(w, sq1, sq0, a1, a0);
    SquareIs(s);
    inexact := sq0 != a0 || sq1 != a1;
  }

  lemma RootRange(w: nat, A: nat, s: nat)
    requires w >= 4 && A < P(2 * w - 2)
    ensures Square(s) <= A ==> s < P(w - 1)
  {
    hide P;
    SquareP(w - 1);
    if s >= P(w - 1) {
      ProductMono(P(w - 1), s);
    }
  }

  /** The sum of quotient and estimate in the second round from estimate s. */
  function SecondSum(a: nat, s: nat): nat
  {
    if s == 0 then 0
    else
      var u := (a / s + s) / 2;
      if u <= 0 then 0 else a / u + u
  }

  /** The bound on the operands is tight: at 2^(2w - 2) - 1 the second sum is 2^w,
      which a word does not hold. */
  lemma SumWraps(w: nat)
    requires w >= 4
    ensures P(w - 2) >= 4 && Shl(P(w - 2) - 1, w) + P(w) - 1 == P(2 * w - 2) - 1
    ensures SecondSum(P(2 * w - 2) - 1, Start(w, P(w - 2) - 1, P(w) - 1)) == P(w)
  {
    hide P, Shl, Square, Start, SecondSum;
    TopOperand(w);
    SquareP(w - 1);
    SquareBelow(P(w - 1));
    PStep(w - 1);
  }

  lemma TopOperand(w: nat)
    requires w >= 4
    ensures P(w - 2) >= 4 && P(w - 1) >= 8
    ensures Shl(P(w - 2) - 1, w) + P(w) - 1 == P(2 * w - 2) - 1
    ensures Start(w, P(w - 2) - 1, P(w) - 1) == P(w - 1)
  {
    hide P, Shl, BitLen;
    PStep(w - 2);
    PStep(w - 3);
    PMono(1, w - 3);
    PStep(0);
    PZero();
    var a1 := P(w - 2) - 1;
    BitLenUnique(a1 - 1, w - 2);
    assert StartBits(w, a1, P(w) - 1) == 2 * w - 2;
    ShlP(w - 2, w);
    ShlSucc(a1, w);
  }

  lemma SquareBelow(p: nat)
    requires p >= 2
    ensures Square(p) > 0 && SecondSum(Square(p) - 1, p) == 2 * p
  {
    DivUnique(p * p - 1, p, p - 1, p - 1);
    DivUnique(p * p - 1, p - 1, p + 1, 0);
  }

  /** The loop of sqrtrem_u. */
  method Newton(w: nat, a1: nat, a0: nat, start: nat) returns (s: nat)
    requires w >= 4 && a1 < P(w - 2) && a0 < P(w) && (a1 != 0 || a0 != 0) && 0 < Shl(a1, w) + a0
    requires Shl(a1, w) + a0 + 1 < P(2 * w - 2)
    requires start == Start(w, a1, a0) <= P(w - 1)
    ensures 0 < s <= P(w - 1)
    ensures Square(s) <= Shl(a1, w) + a0 < Square(s + 1) <==> StartCovers(w, a1, a0)
  {
    hide Shl, P, Square, BitLen, Start;
    ghost var A, covers := Shl(a1, w) + a0, StartCovers(w, a1, a0);
    StartSmall(w, a1, a0);
    var u := start;
    while true
      invariant 0 < u <= P(w - 1) && (covers ==> A < Square(u + 1)) && (!covers ==> u == start)
      decreases u
    {
      s := u;
      if covers {
        Fits(w, a1, a0, s);
      } else {
        NotCovered(w, a1, a0);
      }
      WordSized(w, s);
      var q, r := DivremU(w, a1, a0, s);
      if covers {
        NewtonBounds(w, A, s, q, r);
      } else {
        BadStart(w, a1, a0, q, r);
      }
      assert q + s < P(w);
      u := (q + s) / 2;
      if u >= s {
        break;
      }
      Positive(A, u);
    }
  }

  lemma NotCovered(w: nat, a1: nat, a0: nat)
    requires w >= 4 && a1 < P(w - 2) && a0 < P(w) && !StartCovers(w, a1, a0)
    ensures a1 < Start(w, a1, a0)
  {
    hide Shl, P, Square, BitLen;
    if a1 == 0 {
      OneWordCovers(w, a1, a0);
    } else {
      BadTop(w, a1, a0);
    }
  }

  lemma SquareIs(s: nat)
    ensures Square(s) == s * s
  {
  }

  lemma SquareOne()
    ensures Square(0) == 0 && Square(1) == 1
  {
  }

  lemma Positive(A: nat, u: nat)
    requires 0 < A < Square(u + 1)
    ensures u > 0
  {
  }

  lemma WordSized(w: nat, s: nat)
    requires w > 0 && s <= P(w - 1)
    ensures s < P(w) && P(w) == 2 * P(w - 1)
  {
    PStep(w - 1);
  }

  lemma NewtonBounds(w: nat, A: nat, s: nat, q: nat, r: nat)
    requires w >= 4 && 0 < s <= P(w - 1) && A == q * s + r && r < s && A < Square(s + 1)
    requires A + 1 < P(2 * w - 2)
    ensures q + s < P(w)
    ensures A < Square((q + s) / 2 + 1)
    ensures (q + s) / 2 >= s ==> Square(s) <= A
  {
    hide P, Square;
    assert (q + 1) * s == q * s + s;
    NewtonStep(A, s, q, (q + s) / 2);
    QuotientBound(A, s, q);
    SquareP(w - 1);
    PStep(w - 2);
    PStep(w - 1);
    SumFits(P(w - 2), A, s, q);
  }

  lemma TwoWordsEqual(w: nat, x1: nat, x0: nat, y1: nat, y0: nat)
    requires x0 < P(w) && y0 < P(w)
    ensures Shl(x1, w) + x0 == Shl(y1, w) + y0 <==> x1 == y1 && x0 == y0
  {
    hide Shl, P, Shr, Low;
    SplitUnique(Shl(x1, w) + x0, w, x1, x0);
    SplitUnique(Shl(y1, w) + y0, w, y1, y0);
  }
}
