/** Carry-less multiplication: the three loops against one double-width product. */
module Clmul {
  import opened Bits

  /** a ^ b */
  function Xor(a: nat, b: nat): nat
    decreases a + b
  {
    if a == 0 then b else if b == 0 then a else (a + b) % 2 + 2 * Xor(a / 2, b / 2)
  }

  function Bit(a: nat, i: nat): nat { Low(Shr(a, i), 1) }

  /** The whole carry-less product. */
  function Product(a: nat, b: nat): nat
    decreases b
  {
    if b == 0 then 0 else Xor(if b % 2 == 1 then a else 0, 2 * Product(a, b / 2))
  }

  // ----- exclusive or

  lemma XorStep(a: nat, b: nat)
    ensures Xor(a, b) == (a + b) % 2 + 2 * Xor(a / 2, b / 2)
  {
  }

  lemma XorHalves(a: nat, b: nat)
    ensures Xor(a, b) % 2 == (a + b) % 2 && Xor(a, b) / 2 == Xor(a / 2, b / 2)
  {
    hide Xor;
    XorStep(a, b);
  }

  lemma XorDouble(a: nat, b: nat)
    ensures Xor(2 * a, 2 * b) == 2 * Xor(a, b)
  {
    hide Xor;
    XorStep(2 * a, 2 * b);
  }

  lemma XorZero(a: nat)
    ensures Xor(a, 0) == a && Xor(0, a) == a
  {
  }

  lemma {:induction false} XorComm(a: nat, b: nat)
    ensures Xor(a, b) == Xor(b, a)
    decreases a + b
  {
    if a != 0 && b != 0 {
      XorComm(a / 2, b / 2);
    }
  }

  lemma {:induction false} XorAssoc(a: nat, b: nat, c: nat)
    ensures Xor(Xor(a, b), c) == Xor(a, Xor(b, c))
    decreases a + b + c
  {
    hide Xor;
    if a == 0 || b == 0 || c == 0 {
      XorZero(a);
      XorZero(b);
      XorZero(c);
      XorZero(Xor(a, b));
      XorZero(Xor(b, c));
    } else {
      XorAssoc(a / 2, b / 2, c / 2);
      XorHalves(a, b);
      XorHalves(b, c);
      XorStep(Xor(a, b), c);
      XorStep(a, Xor(b, c));
      Parity(a, b, c, Xor(a, b), Xor(b, c));
    }
  }

  lemma Parity(a: nat, b: nat, c: nat, ab: nat, bc: nat)
    requires ab % 2 == (a + b) % 2 && bc % 2 == (b + c) % 2
    ensures (ab + c) % 2 == (a + bc) % 2
  {
  }

  lemma {:induction false} XorShr(a: nat, b: nat, n: nat)
    ensures Shr(Xor(a, b), n) == Xor(Shr(a, n), Shr(b, n))
    decreases n
  {
    hide Xor, Shr, P;
    if n == 0 {
      ShrNone(a);
      ShrNone(b);
      ShrNone(Xor(a, b));
    } else {
      XorHalves(a, b);
      XorShr(a / 2, b / 2, n - 1);
      ShrHalf(a, n);
      ShrHalf(b, n);
      ShrHalf(Xor(a, b), n);
    }
  }

  lemma ShrHalf(a: nat, n: nat)
    requires n > 0
    ensures Shr(a, n) == Shr(a / 2, n - 1) && Low(a, n) == 2 * Low(a / 2, n - 1) + a % 2
  {
    hide Shr, Low, P, Shl;
    PZero();
    ShlOne(a / 2);
    SplitUnique(a, 1, a / 2, a % 2);
    ShrShr(a, 1, n - 1);
    ShlOne(Low(a / 2, n - 1));
  }

  lemma {:induction false} XorLow(a: nat, b: nat, n: nat)
    ensures Low(Xor(a, b), n) == Xor(Low(a, n), Low(b, n))
    decreases n
  {
    hide Xor, Shr, Low, P;
    if n == 0 {
      ShrNone(a);
      ShrNone(b);
      ShrNone(Xor(a, b));
      XorZero(0);
    } else {
      XorHalves(a, b);
      XorLow(a / 2, b / 2, n - 1);
      ShrHalf(a, n);
      ShrHalf(b, n);
      ShrHalf(Xor(a, b), n);
      XorStep(Low(a, n), Low(b, n));
      LowHalves(a, b, Low(a / 2, n - 1), Low(b / 2, n - 1));
    }
  }

  lemma LowHalves(a: nat, b: nat, x: nat, y: nat)
    ensures (2 * x + a % 2) / 2 == x && (2 * y + b % 2) / 2 == y
    ensures (2 * x + a % 2 + (2 * y + b % 2)) % 2 == (a + b) % 2
  {
  }

  // ----- the product

  /** One more bit of the multiplier. */
  lemma {:induction false} ProductTopBit(a: nat, x: nat, n: nat)
    requires x < P(n)
    ensures Product(a, x + P(n)) == Xor(Product(a, x), Shl(a, n))
    decreases n
  {
    hide Xor;
    if n == 0 {
      ShlNone(a, 0);
      XorZero(a);
      XorZero(0);
      assert Product(a, 1) == Xor(a, 2 * Product(a, 0));
    } else {
      PStep(n - 1);
      ProductTopBit(a, x / 2, n - 1);
      var y := x + P(n);
      assert y % 2 == x % 2 && y / 2 == x / 2 + P(n - 1);
      var first := if x % 2 == 1 then a else 0;
      XorDouble(Product(a, x / 2), Shl(a, n - 1));
      ShlShl(a, n - 1, 1);
      ShlOne(Shl(a, n - 1));
      XorAssoc(first, 2 * Product(a, x / 2), Shl(a, n));
      ProductStep(a, x);
    }
  }

  lemma ProductStep(a: nat, b: nat)
    ensures Product(a, b) == Xor(if b % 2 == 1 then a else 0, 2 * Product(a, b / 2))
  {
  }

  /** The product with the low n + 1 bits of b, from that with the low n. */
  lemma NextBit(a: nat, b: nat, n: nat)
    ensures Product(a, Low(b, n + 1)) ==
              if Bit(b, n) == 1 then Xor(Product(a, Low(b, n)), Shl(a, n)) else Product(a, Low(b, n))
    ensures Bit(b, n) <= 1
  {
    hide Xor, Product, Shr, Low, Shl, P;
    ShrShr(b, n, 1);
    PZero();
    var bit := Bit(b, n);
    ShlNone(0, n);
    assert Shl(1, n) == P(n) by { ShlNone(1, 0); ShlP(0, n); }
    if bit == 1 {
      ProductTopBit(a, Low(b, n), n);
    }
  }

  lemma NoBits(a: nat, b: nat)
    ensures Product(a, Low(b, 0)) == 0
  {
    ShrNone(b);
  }

  /** clmul: the low word of the product. */
  method ClmulLow(v1: nat, v2: nat, w: nat) returns (val: nat)
    requires v1 < P(w) && v2 < P(w)
    ensures val == Low(Product(v1, v2), w)
  {
    hide Xor, Product, Shr, Low, Shl, P, Bit;
    val := 0;
    NoBits(v1, v2);
    LowNone(w);
    for i := 0 to w
      invariant val == Low(Product(v1, Low(v2, i)), w)
    {
      NextBit(v1, v2, i);
      if Bit(v2, i) == 1 {
        XorLow(Product(v1, Low(v2, i)), Shl(v1, i), w);
        val := Xor(val, Low(Shl(v1, i), w));
      }
    }
    Small(v2, w);
  }

  lemma LowNone(w: nat)
    ensures Low(0, w) == 0 && Shr(0, w) == 0
  {
    Small(0, w);
  }

  /** clmulh: the high word of the product. Bit 0 of v2 adds nothing to it. */
  method ClmulHigh(v1: nat, v2: nat, w: nat) returns (val: nat)
    requires v1 < P(w) && v2 < P(w) && w > 0
    ensures val == Shr(Product(v1, v2), w)
  {
    hide Xor, Product, Shr, Low, Shl, P, Bit;
    val := 0;
    NoBits(v1, v2);
    LowNone(w);
    FirstBit(v1, v2, w);
    for i := 1 to w
      invariant val == Shr(Product(v1, Low(v2, i)), w)
    {
      NextBit(v1, v2, i);
      if Bit(v2, i) == 1 {
        XorShr(Product(v1, Low(v2, i)), Shl(v1, i), w);
        ShlThenShr(v1, i, w);
        val := Xor(val, Shr(v1, w - i));
      }
    }
    Small(v2, w);
  }

  lemma FirstBit(v1: nat, v2: nat, w: nat)
    requires v1 < P(w)
    ensures Shr(Product(v1, Low(v2, 1)), w) == 0
  {
    hide Xor, Product, Shr, Low, Shl, P, Bit;
    NextBit(v1, v2, 0);
    NoBits(v1, v2);
    LowNone(w);
    ShlNone(v1, 0);
    XorZero(v1);
    Small(v1, w);
  }

  lemma ShlThenShr(a: nat, i: nat, n: nat)
    requires i <= n
    ensures Shr(Shl(a, i), n) == Shr(a, n - i)
  {
    hide Shr, Shl, Low, P;
    ShrShr(Shl(a, i), i, n - i);
    ShrShl(a, i);
  }

  /** clmulr: the product shifted right by one bit less than a word. */
  method ClmulReversed(v1: nat, v2: nat, w: nat) returns (val: nat)
    requires v1 < P(w) && v2 < P(w) && w > 0
    ensures val == Shr(Product(v1, v2), w - 1)
  {
    hide Xor, Product, Shr, Low, Shl, P, Bit;
    val := 0;
    NoBits(v1, v2);
    LowNone(w - 1);
    for i := 0 to w
      invariant val == Shr(Product(v1, Low(v2, i)), w - 1)
    {
      NextBit(v1, v2, i);
      if Bit(v2, i) == 1 {
        XorShr(Product(v1, Low(v2, i)), Shl(v1, i), w - 1);
        ShlThenShr(v1, i, w - 1);
        val := Xor(val, Shr(v1, w - i - 1));
      }
    }
    Small(v2, w);
  }

  // ----- the size of the product

  lemma {:induction false} XorBound(a: nat, b: nat, k: nat)
    requires a < P(k) && b < P(k)
    ensures Xor(a, b) < P(k)
  {
    hide Xor, P;
    if k == 0 {
      PZero();
      XorZero(0);
    } else {
      PStep(k - 1);
      XorStep(a, b);
      XorBound(a / 2, b / 2, k - 1);
    }
  }

  lemma {:induction false} ProductBound(a: nat, b: nat, m: nat, n: nat)
    requires m > 0 && n > 0 && a < P(m) && b < P(n)
    ensures Product(a, b) < P(m + n - 1)
    decreases b
  {
    hide Xor, P;
    PMono(m, m + n - 1);
    PStep(n - 1);
    PZero();
    if b == 1 {
      XorZero(a);
    } else if b > 1 {
      PStep(m + n - 2);
      ProductBound(a, b / 2, m, n - 1);
      XorBound(if b % 2 == 1 then a else 0, 2 * Product(a, b / 2), m + n - 1);
    }
  }

  /** The product of two words has at most 2w - 1 bits. So clmul and clmulh give all
      of it, the top bit of clmulh is zero, and clmulr loses no bit at the top. */
  lemma TwoWords(a: nat, b: nat, w: nat)
    requires w > 0 && a < P(w) && b < P(w)
    ensures Product(a, b) < P(2 * w - 1)
    ensures Product(a, b) == Shl(Shr(Product(a, b), w), w) + Low(Product(a, b), w)
    ensures Shr(Product(a, b), w) < P(w - 1) && Shr(Product(a, b), w - 1) < P(w)
  {
    hide Product, Shl, Shr, Low, P;
    var p := Product(a, b);
    ProductBound(a, b, w, w);
    Split(p, w);
    ShlP(w - 1, w);
    ShrLt(p, w, P(w - 1));
    ShlP(w, w - 1);
    ShrLt(p, w - 1, P(w));
  }

  // ----- commutativity

  lemma {:induction false} ProductDouble(a: nat, b: nat)
    ensures Product(2 * a, b) == 2 * Product(a, b)
    decreases b
  {
    if b != 0 {
      ProductDouble(a, b / 2);
      XorDouble(if b % 2 == 1 then a else 0, 2 * Product(a, b / 2));
    }
  }

  lemma {:induction false} ProductOne(b: nat)
    ensures Product(1, b) == b && Product(0, b) == 0
    decreases b
  {
    hide Xor;
    if b != 0 {
      ProductOne(b / 2);
      LowBit(b);
      XorZero(0);
    }
  }

  lemma LowBit(b: nat)
    ensures Xor(b % 2, 2 * (b / 2)) == b
  {
    hide Xor;
    XorStep(b % 2, 2 * (b / 2));
    XorZero(b / 2);
  }

  lemma {:induction false} ProductXor(a: nat, c: nat, b: nat)
    ensures Product(Xor(a, c), b) == Xor(Product(a, b), Product(c, b))
    decreases b
  {
    hide Xor;
    if b == 0 {
      XorZero(0);
    } else {
      ProductXor(a, c, b / 2);
      var x, y := 2 * Product(a, b / 2), 2 * Product(c, b / 2);
      XorDouble(Product(a, b / 2), Product(c, b / 2));
      if b % 2 == 1 {
        XorSwap(a, c, x, y);
      } else {
        XorZero(x);
        XorZero(y);
        XorZero(Xor(x, y));
      }
    }
  }

  lemma XorSwap(a: nat, c: nat, x: nat, y: nat)
    ensures Xor(Xor(a, c), Xor(x, y)) == Xor(Xor(a, x), Xor(c, y))
  {
    hide Xor;
    XorAssoc(a, c, Xor(x, y));
    XorAssoc(c, x, y);
    XorComm(c, x);
    XorAssoc(x, c, y);
    XorAssoc(a, x, Xor(c, y));
  }

  lemma {:induction false} ProductCommutes(a: nat, b: nat)
    ensures Product(a, b) == Product(b, a)
    decreases a
  {
    hide Xor;
    if a == 0 {
      ProductOne(b);
    } else {
      var lo, hi := a % 2, a / 2;
      ProductCommutes(hi, b);
      LowBit(a);
      ProductXor(lo, 2 * hi, b);
      ProductDouble(hi, b);
      ProductOne(b);
      ProductStep(b, a);
    }
  }

  // ----- coefficients

  /** The sum of a's bit k - i times b's bit i, over the first n values of i. */
  function Convolution(a: nat, b: nat, k: nat, n: nat): nat
    requires n <= k + 1
  {
    if n == 0 then 0 else Convolution(a, b, k, n - 1) + Bit(a, k - (n - 1)) * Bit(b, n - 1)
  }

  lemma BitHalf(a: nat, i: nat)
    requires i > 0
    ensures Bit(a, i) == Bit(a / 2, i - 1)
  {
    hide Low, Shr;
    ShrHalf(a, i);
  }

  lemma BitZero(a: nat)
    ensures Bit(a, 0) == a % 2
  {
    PZero();
  }

  lemma {:induction false} ConvolutionShift(a: nat, b: nat, k: nat, n: nat)
    requires 0 < n <= k + 1 && k > 0
    ensures Convolution(a, b, k, n) == Bit(a, k) * Bit(b, 0) + Convolution(a, b / 2, k - 1, n - 1)
    decreases n
  {
    hide Bit;
    if n == 1 {
      assert Convolution(a, b, k, 0) == 0;
    } else {
      ConvolutionShift(a, b, k, n - 1);
      BitHalf(b, n - 1);
    }
  }

  lemma XorBit(a: nat, b: nat, k: nat)
    ensures Bit(Xor(a, b), k) == (Bit(a, k) + Bit(b, k)) % 2
  {
    hide Xor, Shr, Low;
    XorShr(a, b, k);
    XorHalves(Shr(a, k), Shr(b, k));
    LowOne(Shr(a, k));
    LowOne(Shr(b, k));
    LowOne(Xor(Shr(a, k), Shr(b, k)));
  }

  lemma LowOne(a: nat)
    ensures Low(a, 1) == a % 2
  {
    PZero();
  }

  /** Each bit of the product is the parity of its partial products. */
  lemma {:induction false} ProductBits(a: nat, b: nat, k: nat)
    ensures Bit(Product(a, b), k) == Convolution(a, b, k, k + 1) % 2
    decreases b, k
  {
    hide Xor, Bit;
    BitZero(b);
    if b == 0 {
      ZeroBits(a, k, k + 1);
      BitOfZero(k);
    } else {
      var first, rest := if b % 2 == 1 then a else 0, Product(a, b / 2);
      XorBit(first, 2 * rest, k);
      BitOfZero(k);
      if k == 0 {
        BitZero(2 * rest);
        assert Convolution(a, b, 0, 1) == Convolution(a, b, 0, 0) + Bit(a, 0) * Bit(b, 0);
        BitZero(a);
      } else {
        BitHalf(2 * rest, k);
        ProductBits(a, b / 2, k - 1);
        ConvolutionShift(a, b, k, k + 1);
        SumParity(Bit(a, k) * Bit(b, 0), Convolution(a, b / 2, k - 1, k));
      }
    }
  }

  lemma SumParity(x: nat, y: nat)
    ensures (x + y % 2) % 2 == (x + y) % 2
  {
  }

  lemma BitOfZero(k: nat)
    ensures Bit(0, k) == 0
  {
    LowNone(k);
    LowNone(1);
  }

  lemma {:induction false} ZeroBits(a: nat, k: nat, n: nat)
    requires n <= k + 1
    ensures Convolution(a, 0, k, n) == 0
    decreases n
  {
    hide Bit;
    if n > 0 {
      ZeroBits(a, k, n - 1);
      BitOfZero(n - 1);
    }
  }
}
