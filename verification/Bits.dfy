// Bit operations of the source on natural numbers. A mask of consecutive ones
// is a division and a remainder; only the bitwise OR needs its own definition.
module Bits {
  function Pow2(k: nat): (r: nat)
    ensures r > 0
  {
    if k == 0 then 1 else 2 * Pow2(k - 1)
  }

  // a | b
  function Or(a: nat, b: nat): nat
    decreases a
  {
    if a == 0 then b
    else if b == 0 then a
    else 2 * Or(a / 2, b / 2) + if a % 2 == 1 || b % 2 == 1 then 1 else 0
  }

  // a ^ b
  function Xor(a: nat, b: nat): nat
    decreases a
  {
    if a == 0 then b
    else if b == 0 then a
    else 2 * Xor(a / 2, b / 2) + (a % 2 + b % 2) % 2
  }

  lemma {:induction false} OrHalves(a: nat, b: nat)
    ensures Or(a, b) / 2 == Or(a / 2, b / 2)
    ensures Or(a, b) % 2 == if a % 2 == 1 || b % 2 == 1 then 1 else 0
  {
  }

  lemma OrZero(a: nat)
    ensures Or(a, 0) == a
    ensures Or(0, a) == a
  {
  }

  lemma Distribute(d: int, a: int, b: int)
    ensures d * (a - b) == d * a - d * b
  {
  }

  lemma AtLeast(d: nat, n: nat)
    requires n > 0
    ensures d * n >= d
  {
  }

  lemma DivModUnique(x: nat, d: nat, q: nat, r: nat)
    requires r < d && x == d * q + r
    ensures x / d == q && x % d == r
  {
    var q', r' := x / d, x % d;
    assert x == d * q' + r' && r' < d;
    Distribute(d, q, q');
    Distribute(d, q', q);
    if q > q' {
      AtLeast(d, q - q');
    } else if q < q' {
      AtLeast(d, q' - q);
    }
  }

  lemma Regroup(c: nat, p: nat, q: nat, r: nat)
    ensures c * (p * q + r) == (c * p) * q + c * r
  {
    assert c * (p * q + r) == c * (p * q) + c * r;
    assert c * (p * q) == (c * p) * q;
  }

  lemma DigitBound(c: nat, p: nat, r: nat, l: nat)
    requires l < c && r < p
    ensures c * r + l < c * p
  {
    Distribute(c, p, r);
    AtLeast(c, p - r);
  }

  lemma SplitNumber(c: nat, p: nat, q: nat, r: nat, l: nat)
    requires c > 0 && p > 0 && l < c && r < p
    ensures var a := c * (p * q + r) + l;
      c * p > 0 && a / (c * p) == q && a % (c * p) == c * r + l
  {
    AtLeast(c, p);
    Regroup(c, p, q, r);
    DigitBound(c, p, r, l);
    DivModUnique(c * (p * q + r) + l, c * p, q, c * r + l);
  }

  lemma QuotientRemainder(a: nat, d: nat)
    requires d > 0
    ensures a == d * (a / d) + a % d && 0 <= a % d < d && a / d >= 0
  {
  }

  // Dividing by c and then by p is dividing by their product.
  lemma SplitDivision(a: nat, c: nat, p: nat)
    requires c > 0 && p > 0
    ensures c * p > 0
    ensures (a / c) / p == a / (c * p)
    ensures a % (c * p) == a % c + c * ((a / c) % p)
  {
    QuotientRemainder(a, c);
    QuotientRemainder(a / c, p);
    SplitNumber(c, p, (a / c) / p, (a / c) % p, a % c);
  }

  lemma DoubleProduct(a: nat, b: nat)
    ensures 2 * (a * b) == (2 * a) * b == b * (2 * a) == 2 * (b * a)
  {
  }

  lemma HalveThenDivide(a: nat, p: nat)
    requires p > 0
    ensures (a / 2) / p == a / (2 * p)
    ensures a % (2 * p) == a % 2 + 2 * ((a / 2) % p)
  {
    SplitDivision(a, 2, p);
  }

  lemma {:induction false} Pow2Add(j: nat, k: nat)
    ensures Pow2(j + k) == Pow2(j) * Pow2(k)
  {
    if j > 0 {
      Pow2Add(j - 1, k);
      DoubleProduct(Pow2(j - 1), Pow2(k));
    }
  }

  // a >> k
  function Shr(a: nat, k: nat): nat {
    if k == 0 then a else Shr(a / 2, k - 1)
  }

  lemma {:induction false} ShrIsDivision(a: nat, k: nat)
    ensures Shr(a, k) == a / Pow2(k)
  {
    if k > 0 {
      ShrIsDivision(a / 2, k - 1);
      HalveThenDivide(a, Pow2(k - 1));
    }
  }

  // Shifting right and masking low bits both distribute over OR.
  lemma {:induction false} OrShift(a: nat, b: nat, k: nat)
    ensures Shr(Or(a, b), k) == Or(Shr(a, k), Shr(b, k))
  {
    if k > 0 {
      OrHalves(a, b);
      OrShift(a / 2, b / 2, k - 1);
    }
  }

  lemma {:induction false} OrLowBits(a: nat, b: nat, k: nat)
    ensures Or(a, b) % Pow2(k) == Or(a % Pow2(k), b % Pow2(k))
  {
    if k > 0 {
      var p := Pow2(k - 1);
      HalveThenDivide(a, p);
      HalveThenDivide(b, p);
      HalveThenDivide(Or(a, b), p);
      OrHalves(a, b);
      OrLowBits(a / 2, b / 2, k - 1);
      OrHalves(a % Pow2(k), b % Pow2(k));
      assert (a % Pow2(k)) / 2 == (a / 2) % p;
      assert (b % Pow2(k)) / 2 == (b / 2) % p;
    }
  }

  // An OR of numbers with no bit in common is a sum.
  lemma {:induction false} OrDisjoint(hi: nat, lo: nat, k: nat)
    requires lo < Pow2(k)
    ensures Or(hi * Pow2(k), lo) == hi * Pow2(k) + lo
  {
    if k == 0 {
      OrZero(hi);
    } else {
      var p := Pow2(k - 1);
      var a := hi * Pow2(k);
      assert a == 2 * (hi * p);
      OrHalves(a, lo);
      OrDisjoint(hi, lo / 2, k - 1);
      assert Or(a, lo) == 2 * (Or(a, lo) / 2) + Or(a, lo) % 2;
    }
  }

  // ----- single bits

  predicate Bit(a: nat, k: nat) {
    a / Pow2(k) % 2 == 1
  }

  lemma HalfBit(a: nat, k: nat)
    requires k > 0
    ensures Bit(a, k) <==> Bit(a / 2, k - 1)
  {
    HalveThenDivide(a, Pow2(k - 1));
  }

  lemma LowestBit(a: nat)
    ensures Bit(a, 0) <==> a % 2 == 1
  {
  }

  lemma {:induction false} OrBit(a: nat, b: nat, k: nat)
    ensures Bit(Or(a, b), k) <==> Bit(a, k) || Bit(b, k)
    decreases k
  {
    OrHalves(a, b);
    if k == 0 {
      LowestBit(a);
      LowestBit(b);
      LowestBit(Or(a, b));
    } else {
      OrBit(a / 2, b / 2, k - 1);
      HalfBit(a, k);
      HalfBit(b, k);
      HalfBit(Or(a, b), k);
    }
  }

  lemma {:induction false} XorHalves(a: nat, b: nat)
    ensures Xor(a, b) == 2 * Xor(a / 2, b / 2) + (a % 2 + b % 2) % 2
  {
  }

  lemma XorParts(a: nat, b: nat)
    ensures Xor(a, b) / 2 == Xor(a / 2, b / 2)
    ensures Xor(a, b) % 2 == 1 <==> (a % 2 == 1) != (b % 2 == 1)
  {
    XorHalves(a, b);
    hide Xor;
  }

  lemma {:induction false} XorBit(a: nat, b: nat, k: nat)
    ensures Bit(Xor(a, b), k) <==> Bit(a, k) != Bit(b, k)
    decreases k
  {
    XorParts(a, b);
    hide Xor, Pow2, Bit;
    if k == 0 {
      LowestBit(a);
      LowestBit(b);
      LowestBit(Xor(a, b));
    } else {
      XorBit(a / 2, b / 2, k - 1);
      HalfBit(a, k);
      HalfBit(b, k);
      HalfBit(Xor(a, b), k);
    }
  }

  // a << n
  function Shl(a: nat, n: nat): nat {
    if n == 0 then a else 2 * Shl(a, n - 1)
  }

  lemma ShlByte(a: nat)
    ensures Shl(a, 8) == 256 * a
  {
    assert Shl(a, 1) == 2 * a;
    assert Shl(a, 2) == 4 * a;
    assert Shl(a, 3) == 8 * a;
    assert Shl(a, 4) == 16 * a;
    assert Shl(a, 5) == 32 * a;
    assert Shl(a, 6) == 64 * a;
    assert Shl(a, 7) == 128 * a;
  }

  lemma DoubleAndRest(x: nat, r: nat)
    ensures (2 * x + r) / 2 == x + r / 2 && (2 * x + r) % 2 == r % 2
  {
  }

  // Higher digits do not take part in an XOR with a small number.
  lemma {:induction false} XorLow(q: nat, r: nat, b: nat, n: nat)
    requires r < Pow2(n) && b < Pow2(n)
    ensures Xor(Shl(q, n) + r, b) == Shl(q, n) + Xor(r, b)
    decreases n
  {
    if n > 0 {
      var x := Shl(q, n - 1);
      XorLow(q, r / 2, b / 2, n - 1);
      XorHalves(2 * x + r, b);
      XorHalves(r, b);
      DoubleAndRest(x, r);
      hide Xor, Pow2;
    }
  }

  // Of a power of two only one bit is set.
  lemma {:induction false} Pow2Bit(j: nat, k: nat)
    ensures Bit(Pow2(j), k) <==> j == k
    decreases j + k
  {
    if j == 0 || k == 0 {
      LowestBit(Pow2(j));
      if k > 0 {
        NoHighBit(1, k);
      }
    } else {
      HalfBit(Pow2(j), k);
      Pow2Bit(j - 1, k - 1);
    }
  }

  lemma NoHighBit(a: nat, k: nat)
    requires a < Pow2(k)
    ensures !Bit(a, k)
  {
    DivModUnique(a, Pow2(k), 0, a);
  }

  // Numbers with the same bits are equal.
  lemma {:induction false} SameBits(a: nat, b: nat)
    requires forall k: nat :: Bit(a, k) <==> Bit(b, k)
    ensures a == b
    decreases a + b
  {
    if a + b > 0 {
      LowestBit(a);
      LowestBit(b);
      assert Bit(a, 0) <==> Bit(b, 0);
      forall k: nat
        ensures Bit(a / 2, k) <==> Bit(b / 2, k)
      {
        HalfBit(a, k + 1);
        HalfBit(b, k + 1);
        assert Bit(a, k + 1) <==> Bit(b, k + 1);
      }
      SameBits(a / 2, b / 2);
    }
  }

  lemma CutHalf(a: nat, n: nat, c: nat)
    requires n > 0 && c == a % Pow2(n)
    ensures c % 2 == a % 2 && c / 2 == (a / 2) % Pow2(n - 1)
  {
    HalveThenDivide(a, Pow2(n - 1));
  }

  // A number cut to n bits.
  lemma {:induction false} CutBit(a: nat, n: nat, c: nat, k: nat)
    requires c == a % Pow2(n)
    ensures Bit(c, k) <==> k < n && Bit(a, k)
    decreases k
  {
    if n == 0 {
      NoHighBit(0, k);
    } else {
      CutHalf(a, n, c);
      hide Pow2;
      if k == 0 {
        LowestBit(a);
        LowestBit(c);
      } else {
        HalfBit(a, k);
        HalfBit(c, k);
        CutBit(a / 2, n - 1, c / 2, k - 1);
      }
    }
  }

  lemma {:induction false} DownBit(a: nat, n: nat, k: nat)
    ensures Bit(Shr(a, n), k) <==> Bit(a, n + k)
  {
    if n > 0 {
      DownBit(a / 2, n - 1, k);
      HalfBit(a, n + k);
    }
  }

  lemma {:induction false} UpBit(a: nat, n: nat, k: nat)
    ensures Bit(a * Pow2(n), k) <==> k >= n && Bit(a, k - n)
    decreases n
  {
    if n > 0 {
      var h := a * Pow2(n - 1);
      assert a * Pow2(n) == 2 * h;
      if k == 0 {
        LowestBit(2 * h);
      } else {
        HalfBit(2 * h, k);
        UpBit(a, n - 1, k - 1);
      }
    }
  }
}
