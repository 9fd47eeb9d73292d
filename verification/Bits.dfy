/** Bits of unbounded naturals: powers of two, single bits and exclusive or.  A byte is a
    natural below 256, and a polynomial over GF(2) is the natural whose bits are its
    coefficients, so `Xor` is both Go's `^` on bytes and the addition of such polynomials. */
module Bits {

  type Byte = x: nat | x < 256

  type Bytes = seq<Byte>

  function Pow2(k: nat): (r: nat)
    ensures r >= 1
  {
    if k == 0 then 1 else 2 * Pow2(k - 1)
  }

  /** Bit k of x, as Go's `x & (1 << k) != 0`. */
  predicate Bit(x: nat, k: nat)
  {
    if k == 0 then x % 2 == 1 else Bit(x / 2, k - 1)
  }

  function Xor(a: nat, b: nat): nat
    decreases a
  {
    if a == 0 then b
    else if b == 0 then a
    else 2 * Xor(a / 2, b / 2) + (a + b) % 2
  }

  /** The exclusive or of two numbers, split into their halves and lowest bits. */
  lemma XorParts(h: nat, p: nat, k: nat, q: nat)
    requires p < 2 && q < 2
    ensures Xor(2 * h + p, 2 * k + q) == 2 * Xor(h, k) + (if p == q then 0 else 1)
  {
    hide *;
    XorUnfolds(2 * h + p, 2 * k + q);
    Halved(h, p);
    Halved(k, q);
    ParityOfSum(h, p, k, q);
    XorUnit(h);
    XorUnit(k);
  }

  lemma XorUnfolds(a: nat, b: nat)
    ensures Xor(a, b) == if a == 0 then b else if b == 0 then a else 2 * Xor(a / 2, b / 2) + (a + b) % 2
  {
  }

  lemma ParityOfSum(h: nat, p: nat, k: nat, q: nat)
    requires p < 2 && q < 2
    ensures (2 * h + p + (2 * k + q)) % 2 == if p == q then 0 else 1
  {
  }

  lemma XorHalf(a: nat, b: nat)
    ensures Xor(a, b) / 2 == Xor(a / 2, b / 2)
    ensures Xor(a, b) % 2 == if a % 2 == b % 2 then 0 else 1
  {
    hide *;
    XorParts(a / 2, a % 2, b / 2, b % 2);
    Halved(Xor(a / 2, b / 2), if a % 2 == b % 2 then 0 else 1);
  }

  lemma Halved(h: nat, p: nat)
    requires p < 2
    ensures (2 * h + p) / 2 == h && (2 * h + p) % 2 == p
  {
  }

  lemma {:induction false} XorComm(a: nat, b: nat)
    ensures Xor(a, b) == Xor(b, a)
    decreases a
  {
    if a != 0 && b != 0 {
      XorComm(a / 2, b / 2);
    }
  }

  lemma XorUnit(a: nat)
    ensures Xor(0, a) == Xor(a, 0) == a
  {
  }

  lemma {:induction false} XorSelf(a: nat)
    ensures Xor(a, a) == 0
  {
    if a != 0 {
      XorSelf(a / 2);
    }
  }

  lemma {:induction false} XorAssoc(a: nat, b: nat, c: nat)
    ensures Xor(Xor(a, b), c) == Xor(a, Xor(b, c))
    decreases a
  {
    if a != 0 && b != 0 && c != 0 {
      hide *;
      XorAssoc(a / 2, b / 2, c / 2);
      XorHalf(a, b);
      XorHalf(b, c);
      XorHalf(Xor(a, b), c);
      XorHalf(a, Xor(b, c));
      SameHalves(Xor(Xor(a, b), c), Xor(a, Xor(b, c)));
    }
  }

  lemma SameHalves(a: nat, b: nat)
    requires a / 2 == b / 2 && a % 2 == b % 2
    ensures a == b
  {
  }

  lemma XorSwap(a: nat, b: nat, c: nat, d: nat)
    ensures Xor(Xor(a, b), Xor(c, d)) == Xor(Xor(a, c), Xor(b, d))
  {
    XorAssoc(a, b, Xor(c, d));
    XorAssoc(b, c, d);
    XorComm(b, c);
    XorAssoc(c, b, d);
    XorAssoc(a, c, Xor(b, d));
  }

  /** Adding the same value twice changes nothing. */
  lemma XorCancel(a: nat, b: nat)
    ensures Xor(Xor(a, b), b) == a
    ensures Xor(b, Xor(b, a)) == a
  {
    XorAssoc(a, b, b);
    XorSelf(b);
    XorComm(a, 0);
    XorAssoc(b, b, a);
  }

  lemma XorZero(a: nat, b: nat)
    ensures Xor(a, b) == 0 <==> a == b
  {
    XorSelf(a);
    XorCancel(a, b);
  }

  lemma XorDouble(a: nat, b: nat)
    ensures Xor(2 * a, 2 * b) == 2 * Xor(a, b)
  {
    XorParts(a, 0, b, 0);
  }

  lemma XorLowBit(a: nat, p: nat)
    requires p < 2
    ensures Xor(2 * a, p) == Xor(p, 2 * a) == 2 * a + p
  {
    if p == 1 {
      assert (2 * a) / 2 == a;
      assert (2 * a + p) % 2 == 1;
      assert Xor(a, 0) == a;
    }
  }

  /** The top bit of an exclusive or is the exclusive or of the top bits. */
  lemma {:induction false} XorTop(a: nat, b: nat, k: nat)
    requires a < Pow2(k + 1) && b < Pow2(k + 1)
    ensures Xor(a, b) < Pow2(k + 1)
    ensures Xor(a, b) >= Pow2(k) <==> (a >= Pow2(k)) != (b >= Pow2(k))
  {
    if k > 0 && a != 0 && b != 0 {
      XorTop(a / 2, b / 2, k - 1);
    }
  }

  lemma XorByte(a: Byte, b: Byte)
    ensures Xor(a, b) < 256
  {
    assert Pow2(8) == 256;
    XorTop(a, b, 7);
  }

  lemma {:induction false} BitTop(x: nat, k: nat)
    requires x < Pow2(k + 1)
    ensures Bit(x, k) <==> x >= Pow2(k)
  {
    if k > 0 {
      BitTop(x / 2, k - 1);
    }
  }

  // ---- bit strings, most significant bit first

  /** The n lowest bits of v, as `bitBuffer.append` writes them. */
  function BitsOf(v: nat, n: nat): (bs: seq<bool>)
    ensures |bs| == n
  {
    if n == 0 then [] else BitsOf(v / 2, n - 1) + [v % 2 == 1]
  }

  function NumOf(bs: seq<bool>): nat
  {
    if bs == [] then 0 else 2 * NumOf(bs[..|bs| - 1]) + Bit01(bs[|bs| - 1])
  }

  function Bit01(b: bool): nat { if b then 1 else 0 }

  lemma {:induction false} BitsOfAt(v: nat, n: nat, k: nat)
    requires k < n
    ensures BitsOf(v, n)[k] == Bit(v, n - 1 - k)
    decreases n
  {
    if k < n - 1 { BitsOfAt(v / 2, n - 1, k); }
  }

  lemma NumOfSnoc(bs: seq<bool>, b: bool)
    ensures NumOf(bs + [b]) == 2 * NumOf(bs) + Bit01(b)
  {
    assert (bs + [b])[..|bs|] == bs;
  }

  lemma {:induction false} NumOfBitsOf(v: nat, n: nat)
    requires v < Pow2(n)
    ensures NumOf(BitsOf(v, n)) == v
  {
    BitsOfUnfolds(v, n);
    hide *;
    if n > 0 {
      NumOfBitsOf(v / 2, n - 1);
      NumOfSnoc(BitsOf(v / 2, n - 1), v % 2 == 1);
    }
  }

  lemma BitsOfUnfolds(v: nat, n: nat)
    ensures n == 0 ==> NumOf(BitsOf(v, n)) == 0 && Pow2(n) == 1
    ensures n > 0 ==> BitsOf(v, n) == BitsOf(v / 2, n - 1) + [v % 2 == 1] && Pow2(n) == 2 * Pow2(n - 1)
    ensures Bit01(v % 2 == 1) == v % 2
  {
  }

  lemma {:induction false} BitsOfNumOf(bs: seq<bool>)
    ensures NumOf(bs) < Pow2(|bs|)
    ensures BitsOf(NumOf(bs), |bs|) == bs
    decreases |bs|
  {
    if bs != [] {
      var h, b := bs[..|bs| - 1], bs[|bs| - 1];
      BitsOfNumOf(h);
      Halved(NumOf(h), Bit01(b));
      assert bs == h + [b];
    }
  }

  /** Sets bit k, as Go's `x |= 1 << k`. */
  function SetBit(x: nat, k: nat): nat
  {
    if Bit(x, k) then x else x + Pow2(k)
  }

  function Zeros(n: nat): (bs: seq<bool>)
    ensures |bs| == n
  {
    seq(n, _ => false)
  }

  lemma {:induction false} NumOfZeros(bs: seq<bool>, n: nat)
    ensures NumOf(bs + Zeros(n)) == NumOf(bs) * Pow2(n)
    decreases n
  {
    if n == 0 {
      assert bs + Zeros(0) == bs;
    } else {
      var v, w := NumOf(bs), Pow2(n - 1);
      assert Pow2(n) == 2 * w;
      assert bs + Zeros(n) == (bs + Zeros(n - 1)) + [false];
      hide *;
      NumOfZeros(bs, n - 1);
      NumOfSnoc(bs + Zeros(n - 1), false);
      DoubledProduct(v, w);
      NoBit();
    }
  }

  lemma NoBit()
    ensures Bit01(false) == 0
  {
  }

  lemma DoubledProduct(v: nat, w: nat)
    ensures v * (2 * w) == 2 * (v * w)
  {
  }

  /** A bit of the number that a bit string stands for. */
  lemma BitOfNumOf(bs: seq<bool>, k: nat)
    requires k < |bs|
    ensures Bit(NumOf(bs), |bs| - 1 - k) == bs[k]
  {
    hide *;
    BitsOfNumOf(bs);
    BitsOfAt(NumOf(bs), |bs|, k);
  }
}
