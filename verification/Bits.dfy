/** Shifts and masks on naturals. Every C shift or mask of the modelled code is
    one of these, and the proofs use only the laws below. */
module Bits {

  /** 2^n */
  function P(n: nat): (r: nat)
    ensures r > 0
  {
    if n == 0 then 1 else 2 * P(n - 1)
  }

  /** a << n, without a word limit */
  function Shl(a: nat, n: nat): nat { a * P(n) }

  lemma DivNat(a: nat, d: nat)
    requires d > 0
    ensures a / d >= 0
  {
  }

  /** a >> n */
  function Shr(a: nat, n: nat): nat
  {
    DivNat(a, P(n));
    a / P(n)
  }

  /** a & ((1 << n) - 1) */
  function Low(a: nat, n: nat): (r: nat)
    ensures r < P(n)
  {
    a % P(n)
  }

  lemma PStep(n: nat)
    ensures P(n + 1) == 2 * P(n)
  {
  }

  lemma PZero()
    ensures P(0) == 1 && P(1) == 2 && P(2) == 4 && P(3) == 8
  {
  }

  lemma MulLe(a: int, b: int, d: int)
    requires a <= b && 0 <= d
    ensures a * d <= b * d
  {
    assert b * d - a * d == (b - a) * d;
    assert (b - a) * d >= 0;
  }

  lemma MulLt(a: int, b: int, d: int)
    requires a < b && 0 < d
    ensures a * d < b * d
  {
    assert b * d - a * d == (b - a) * d;
    assert (b - a) * d > 0;
  }

  lemma MulCmp(a: int, b: int, d: int)
    requires d > 0
    ensures a <= b <==> a * d <= b * d
    ensures a < b <==> a * d < b * d
  {
    if a < b { MulLt(a, b, d); } else if b < a { MulLt(b, a, d); }
  }

  lemma MulAssoc(a: int, b: int, c: int)
    ensures (a * b) * c == a * (b * c)
  {
  }

  lemma {:induction false} PAdd(a: nat, b: nat)
    ensures P(a + b) == P(a) * P(b)
  {
    if a > 0 {
      PAdd(a - 1, b);
      MulAssoc(2, P(a - 1), P(b));
      PStep(a - 1 + b);
    }
  }

  lemma {:induction false} PMono(a: nat, b: nat)
    requires a <= b
    ensures P(a) <= P(b)
  {
    if a < b {
      PMono(a, b - 1);
    }
  }

  lemma PStrict(a: nat, b: nat)
    requires a < b
    ensures 2 * P(a) <= P(b)
  {
    PMono(a + 1, b);
  }

  /** The quotient and the remainder are determined by a == q*d + r. */
  lemma DivUnique(a: int, d: int, q: int, r: int)
    requires 0 < d && 0 <= r < d
    requires a == q * d + r
    ensures a / d == q && a % d == r
  {
    var q' := a / d;
    var k := q - q';
    assert k * d == a % d - r;
    if k >= 1 {
      MulLe(1, k, d);
    } else if k <= -1 {
      MulLe(k, -1, d);
    }
  }

  // ----- the laws of Shl, Shr and Low

  lemma ShlNone(a: nat, n: nat)
    ensures Shl(a, 0) == a && Shl(0, n) == 0
  {
  }

  lemma ShlOne(a: nat)
    ensures Shl(a, 1) == 2 * a
  {
    PZero();
  }

  lemma ShlShl(a: nat, m: nat, n: nat)
    ensures Shl(Shl(a, m), n) == Shl(a, m + n)
  {
    PAdd(m, n);
    MulAssoc(a, P(m), P(n));
  }

  lemma ShlP(m: nat, n: nat)
    ensures Shl(P(m), n) == P(m + n)
  {
    PAdd(m, n);
  }

  lemma ShlAdd(a: nat, b: nat, n: nat)
    ensures Shl(a + b, n) == Shl(a, n) + Shl(b, n)
  {
  }

  lemma ShlSub(a: nat, b: nat, n: nat)
    requires b <= a
    ensures Shl(b, n) <= Shl(a, n) && Shl(a - b, n) == Shl(a, n) - Shl(b, n)
  {
    ShlAdd(a - b, b, n);
  }

  lemma ShlSucc(a: nat, n: nat)
    ensures Shl(a + 1, n) == Shl(a, n) + P(n)
  {
  }

  lemma ShlCmp(a: nat, b: nat, n: nat)
    ensures a <= b <==> Shl(a, n) <= Shl(b, n)
    ensures a < b <==> Shl(a, n) < Shl(b, n)
  {
    MulCmp(a, b, P(n));
  }

  lemma ShlGrows(a: nat, m: nat, n: nat)
    requires m <= n
    ensures Shl(a, m) <= Shl(a, n)
  {
    PMono(m, n);
    MulLe(P(m), P(n), a);
  }

  lemma ShlEven(a: nat, n: nat)
    requires n >= 1
    ensures Shl(a, n) % 2 == 0
  {
    ShlShl(a, n - 1, 1);
    ShlOne(Shl(a, n - 1));
  }

  lemma ShlMul(a: nat, m: nat, b: nat, n: nat)
    ensures Shl(a, m) * Shl(b, n) == Shl(a * b, m + n)
  {
    PAdd(m, n);
    var p, q := P(m), P(n);
    assert (a * p) * (b * q) == (a * b) * (p * q) by {
      MulAssoc(a, p, b * q);
      MulAssoc(p, b, q);
      MulAssoc(b, p, q);
      MulAssoc(a, b, p * q);
      assert p * b == b * p;
    }
  }

  lemma ShlMulOne(a: nat, n: nat, b: nat)
    ensures Shl(a, n) * b == Shl(a * b, n)
  {
    ShlMul(a, n, b, 0);
    ShlNone(b, 0);
  }

  lemma Split(a: nat, n: nat)
    ensures a == Shl(Shr(a, n), n) + Low(a, n)
    ensures Low(a, n) <= a
  {
  }

  lemma SplitUnique(a: nat, n: nat, q: nat, r: nat)
    requires a == Shl(q, n) + r && r < P(n)
    ensures Shr(a, n) == q && Low(a, n) == r
  {
    DivUnique(a, P(n), q, r);
  }

  lemma ShrShl(a: nat, n: nat)
    ensures Shr(Shl(a, n), n) == a && Low(Shl(a, n), n) == 0
  {
    SplitUnique(Shl(a, n), n, a, 0);
  }

  lemma ShrNone(a: nat)
    ensures Shr(a, 0) == a && Low(a, 0) == 0
  {
  }

  lemma Small(a: nat, n: nat)
    requires a < P(n)
    ensures Shr(a, n) == 0 && Low(a, n) == a
  {
    SplitUnique(a, n, 0, a);
  }

  lemma ShrLt(a: nat, n: nat, k: nat)
    ensures Shr(a, n) < k <==> a < Shl(k, n)
    ensures k <= Shr(a, n) <==> Shl(k, n) <= a
  {
    Split(a, n);
    ShlCmp(k, Shr(a, n), n);
    ShlCmp(Shr(a, n) + 1, k, n);
    ShlSucc(Shr(a, n), n);
  }

  /** The bits from position m up to m + n. */
  lemma ShrShr(a: nat, m: nat, n: nat)
    ensures Shr(Shr(a, m), n) == Shr(a, m + n)
    ensures Low(a, m + n) == Shl(Low(Shr(a, m), n), m) + Low(a, m)
  {
    var q, r := Shr(a, m), Low(a, m);
    var q', r' := Shr(q, n), Low(q, n);
    Split(a, m);
    Split(q, n);
    ShlAdd(Shl(q', n), r', m);
    ShlShl(q', n, m);
    ShlCmp(r' + 1, P(n), m);
    ShlSucc(r', m);
    ShlP(n, m);
    SplitUnique(a, m + n, q', Shl(r', m) + r);
  }

  /** a & b */
  function And(a: nat, b: nat): (r: nat)
    ensures r <= a && r <= b
    decreases a
  {
    if a == 0 || b == 0 then 0
    else (if a % 2 == 1 && b % 2 == 1 then 1 else 0) + 2 * And(a / 2, b / 2)
  }

  lemma {:induction false} AndIdem(a: nat, m: nat)
    ensures And(And(a, m), m) == And(a, m)
    decreases a
  {
    if a != 0 && m != 0 {
      AndIdem(a / 2, m / 2);
      var r := And(a, m);
      assert r / 2 == And(a / 2, m / 2);
    }
  }

  lemma LowStep(a: nat, n: nat)
    ensures Low(a, n + 1) == a % 2 + 2 * Low(a / 2, n)
  {
    hide Shl, Low, Shr;
    PZero();
    PStep(0);
    ShlOne(a / 2);
    SplitUnique(a, 1, a / 2, a % 2);
    ShrShr(a, 1, n);
    ShlOne(Low(a / 2, n));
  }

  /** A mask of ones keeps the low bits. */
  lemma {:induction false} AndMask(a: nat, n: nat)
    ensures And(a, P(n) - 1) == Low(a, n)
  {
    hide Shl, Low, Shr, P;
    if n == 0 {
      PZero();
    } else {
      PStep(n - 1);
      var m := P(n) - 1;
      assert m == 2 * (P(n - 1) - 1) + 1;
      AndMask(a / 2, n - 1);
      LowStep(a, n - 1);
      if a == 0 {
        Small(a, n);
      }
    }
  }

  lemma {:induction false} AndSelf(a: nat)
    ensures And(a, a) == a
  {
    if a != 0 {
      AndSelf(a / 2);
    }
  }

  /** The bits from position n up and the bits below it are masked apart. */
  lemma {:induction false} AndSplit(p: nat, q: nat, n: nat, x: nat, y: nat)
    requires x < P(n) && y < P(n)
    ensures And(Shl(p, n) + x, Shl(q, n) + y) == Shl(And(p, q), n) + And(x, y)
  {
    hide Shl, P, And;
    if n == 0 {
      PZero();
      ShlNone(p, 0);
      ShlNone(q, 0);
      ShlNone(And(p, q), 0);
      AndStep(0, 0);
    } else {
      PStep(n - 1);
      HalfShl(p, n, x);
      HalfShl(q, n, y);
      AndSplit(p, q, n - 1, x / 2, y / 2);
      AndStep(Shl(p, n) + x, Shl(q, n) + y);
      AndStep(x, y);
      HalfShl(And(p, q), n, 0);
    }
  }

  lemma AndStep(a: nat, b: nat)
    ensures And(a, b) == (if a % 2 == 1 && b % 2 == 1 then 1 else 0) + 2 * And(a / 2, b / 2)
  {
  }

  lemma HalfShl(p: nat, n: nat, x: nat)
    requires n > 0
    ensures (Shl(p, n) + x) / 2 == Shl(p, n - 1) + x / 2 && (Shl(p, n) + x) % 2 == x % 2
  {
    hide Shl, P;
    ShlShl(p, n - 1, 1);
    ShlOne(Shl(p, n - 1));
  }

  /** One bit of a word. */
  lemma AndPower(a: nat, k: nat)
    ensures And(a, P(k)) == if a / P(k) % 2 == 1 then P(k) else 0
  {
    hide Shl, P, And;
    Split(a, k);
    ShlP(0, k);
    PZero();
    PStep(0);
    ShlNone(0, k);
    AndSplit(Shr(a, k), 1, k, Low(a, k), 0);
    AndMask(Shr(a, k), 1);
    AndStep(Low(a, k), 0);
    AndNone(Low(a, k) / 2);
  }

  lemma AndNone(a: nat)
    ensures And(a, 0) == 0 && And(0, a) == 0
  {
  }

  /** The n bits from position k on. */
  lemma AndField(a: nat, k: nat, n: nat)
    ensures And(a, Shl(P(n) - 1, k)) == Shl(Low(Shr(a, k), n), k)
  {
    hide Shl, P, And, Low, Shr;
    Split(a, k);
    AndSplit(Shr(a, k), P(n) - 1, k, Low(a, k), 0);
    AndMask(Shr(a, k), n);
    AndNone(Low(a, k));
  }

  // ----- powers of two

  lemma SmallPowers()
    ensures P(0) == 1 && P(1) == 2 && P(2) == 4 && P(3) == 8 && P(4) == 0x10 && P(5) == 0x20 && P(6) == 0x40
    ensures P(7) == 0x80 && P(8) == 0x100 && P(9) == 0x200 && P(10) == 0x400 && P(11) == 0x800 && P(12) == 0x1000
    ensures P(14) == 0x4000 && P(15) == 0x8000 && P(16) == 0x1_0000
  {
    hide P;
    PZero();
    PStep(0); PStep(1); PStep(2); PStep(3); PStep(4); PStep(5); PStep(6); PStep(7);
    PStep(8); PStep(9); PStep(10); PStep(11); PStep(12); PStep(13); PStep(14); PStep(15);
  }

  lemma WordPowers()
    ensures P(18) == 0x4_0000 && P(22) == 0x40_0000 && P(23) == 0x80_0000 && P(28) == 0x1000_0000
    ensures P(29) == 0x2000_0000 && P(31) == 0x8000_0000 && P(32) == 0x1_0000_0000 && P(38) == 0x40_0000_0000
  {
    hide P;
    SmallPowers();
    PAdd(14, 4);
    PAdd(11, 11);
    PStep(22);
    PAdd(14, 14);
    PStep(28);
    PAdd(16, 15);
    PStep(31);
    PAdd(32, 6);
  }

  lemma DoublePowers()
    ensures P(44) == 0x1000_0000_0000 && P(48) == 0x1_0000_0000_0000 && P(51) == 0x8_0000_0000_0000
    ensures P(52) == 0x10_0000_0000_0000 && P(60) == 0x1000_0000_0000_0000 && P(63) == 0x8000_0000_0000_0000
    ensures P(64) == 0x1_0000_0000_0000_0000
  {
    hide P;
    SmallPowers();
    WordPowers();
    PAdd(32, 12);
    PAdd(32, 16);
    PAdd(44, 7);
    PAdd(48, 4);
    PAdd(48, 12);
    PAdd(48, 15);
    PAdd(48, 16);
  }

  lemma QuadPowers()
    ensures P(111) == 0x8000_0000_0000_0000_0000_0000_0000 && P(112) == 0x1_0000_0000_0000_0000_0000_0000_0000
    ensures P(127) == 0x8000_0000_0000_0000_0000_0000_0000_0000
  {
    hide P;
    SmallPowers();
    DoublePowers();
    PAdd(63, 48);
    PStep(111);
    PAdd(64, 63);
  }
}
