module GaloisField {
  import opened Bits

  /** Carry-less product of two polynomials over GF(2). */
  function ClMul(a: nat, b: nat): nat
    decreases b
  {
    if b == 0 then 0 else Xor(Pick(b, a), 2 * ClMul(a, b / 2))
  }

  function Pick(b: nat, a: nat): nat { if b % 2 == 1 then a else 0 }

  /** One doubling in the field, as the loop body of `init` does it. */
  function Xtime(a: Byte): (r: Byte)
    ensures a > 0 ==> r > 0
  {
    if 2 * a < 256 then 2 * a else XtimeFolds(a); Xor(2 * a, 0x11d)
  }

  lemma XtimeFolds(a: Byte)
    requires a >= 128
    ensures 0 < Xor(2 * a, 0x11d) < 256
  {
    assert Pow2(9) == 512 && Pow2(8) == 256;
    XorTop(2 * a, 0x11d, 8);
    XorZero(2 * a, 0x11d);
  }

  /** Remainder of a polynomial by x^8 + x^4 + x^3 + x^2 + 1. */
  function Reduce(p: nat): Byte
  {
    if p < 256 then p else Add(Xtime(Reduce(p / 2)), p % 2)
  }

  function Add(a: Byte, b: Byte): Byte
  {
    XorByte(a, b);
    Xor(a, b)
  }

  /** The product in GF(256). */
  function Mul(a: nat, b: nat): Byte { Reduce(ClMul(a, b)) }

  // ---- GF(2)[x]

  lemma {:induction false} ClMulZero(b: nat)
    ensures ClMul(0, b) == 0
  {
    if b != 0 { ClMulZero(b / 2); }
  }

  lemma {:induction false} ClMulOne(b: nat)
    ensures ClMul(1, b) == b
  {
    if b != 0 { ClMulOne(b / 2); XorLowBit(b / 2, Pick(b, 1)); }
  }

  lemma {:induction false} ClMulDouble(a: nat, b: nat)
    ensures ClMul(2 * a, b) == 2 * ClMul(a, b)
    decreases b
  {
    if b != 0 { ClMulDouble(a, b / 2); XorDouble(Pick(b, a), 2 * ClMul(a, b / 2)); }
  }

  lemma {:induction false} ClMulDistRight(a: nat, b: nat, c: nat)
    ensures ClMul(a, Xor(b, c)) == Xor(ClMul(a, b), ClMul(a, c))
    decreases b
  {
    if b != 0 && c != 0 {
      ClMulDistRight(a, b / 2, c / 2);
      XorHalf(b, c);
      XorSwap(Pick(b, a), 2 * ClMul(a, b / 2), Pick(c, a), 2 * ClMul(a, c / 2));
      XorDouble(ClMul(a, b / 2), ClMul(a, c / 2));
      XorSelf(a);
      XorComm(a, 0);
    } else {
      XorComm(ClMul(a, b), 0);
    }
  }

  lemma {:induction false} ClMulDistLeft(a: nat, b: nat, c: nat)
    ensures ClMul(Xor(a, b), c) == Xor(ClMul(a, c), ClMul(b, c))
    decreases c
  {
    if c != 0 {
      ClMulDistLeft(a, b, c / 2);
      XorSwap(Pick(c, a), 2 * ClMul(a, c / 2), Pick(c, b), 2 * ClMul(b, c / 2));
      XorDouble(ClMul(a, c / 2), ClMul(b, c / 2));
    }
  }

  lemma {:induction false} ClMulComm(a: nat, b: nat)
    ensures ClMul(a, b) == ClMul(b, a)
    decreases b
  {
    if b == 0 {
      ClMulZero(a);
    } else {
      var h, p := b / 2, b % 2;
      assert b == 2 * h + p;
      ClMulUnfolds(a, h, p);
      hide *;
      ClMulComm(a, h);
      ClMulDigits(a, h, p);
    }
  }

  lemma ClMulDigits(a: nat, h: nat, p: nat)
    requires p < 2
    ensures ClMul(2 * h + p, a) == Xor(if p == 1 then a else 0, 2 * ClMul(h, a))
  {
    hide *;
    XorLowBit(h, p);
    ClMulDistLeft(p, 2 * h, a);
    ClMulDouble(h, a);
    ClMulByBit(p, a);
  }

  lemma ClMulUnfolds(a: nat, h: nat, p: nat)
    requires p < 2 && 2 * h + p > 0
    ensures ClMul(a, 2 * h + p) == Xor(if p == 1 then a else 0, 2 * ClMul(a, h))
  {
    hide Xor;
    Halved(h, p);
  }

  lemma ClMulByBit(p: nat, a: nat)
    requires p < 2
    ensures ClMul(p, a) == if p == 1 then a else 0
  {
    ClMulZero(a);
    ClMulOne(a);
    hide *;
  }

  // ---- reduction

  lemma ReduceStep(p: nat)
    ensures Reduce(p) == Xor(Xtime(Reduce(p / 2)), p % 2)
  {
    if p < 256 { XorLowBit(p / 2, p % 2); }
  }

  lemma XtimeLinear(a: Byte, b: Byte)
    ensures Xtime(Add(a, b)) == Xor(Xtime(a), Xtime(b))
  {
    assert Pow2(8) == 256 && Pow2(7) == 128;
    XorTop(a, b, 7);
    XorDouble(a, b);
    if a >= 128 && b >= 128 {
      XorSwap(2 * a, 0x11d, 2 * b, 0x11d);
      XorSelf(0x11d);
      XorComm(Xor(2 * a, 2 * b), 0);
    } else if a >= 128 {
      XorAssoc(2 * a, 0x11d, 2 * b);
      XorComm(0x11d, 2 * b);
      XorAssoc(2 * a, 2 * b, 0x11d);
    } else {
      XorAssoc(2 * a, 2 * b, 0x11d);
    }
  }

  lemma {:induction false} ReduceLinear(p: nat, q: nat)
    ensures Reduce(Xor(p, q)) == Xor(Reduce(p), Reduce(q))
    decreases p
  {
    if p == 0 || q == 0 {
      XorComm(Reduce(p), Reduce(q));
    } else {
      ReduceLinear(p / 2, q / 2);
      XorHalf(p, q);
      ReduceStep(p);
      ReduceStep(q);
      ReduceStep(Xor(p, q));
      XtimeLinear(Reduce(p / 2), Reduce(q / 2));
      XorSwap(Xtime(Reduce(p / 2)), p % 2, Xtime(Reduce(q / 2)), q % 2);
      assert Xor(p % 2, q % 2) == (p + q) % 2;
    }
  }

  lemma ClMulNext(m: nat, q: nat)
    ensures ClMul(m, 2 * q) == 2 * ClMul(m, q)
    ensures ClMul(m, 2 * q + 1) == Xor(m, 2 * ClMul(m, q))
  {
    assert (2 * q) / 2 == q && (2 * q + 1) / 2 == q;
    assert (2 * q) % 2 == 0 && (2 * q + 1) % 2 == 1;
  }

  lemma ReduceUnfolds(p: nat)
    ensures p < 256 ==> p == Xor(ClMul(0x11d, 0), Reduce(p))
    ensures p >= 256 ==>
              var r := 2 * Reduce(p / 2);
              Reduce(p) == Xor(if r < 256 then r else Xor(r, 0x11d), p % 2)
  {
    if p >= 256 { hide Xor; }
  }

  /** Reduce is the remainder of a division: it differs from p by a multiple of the modulus. */
  lemma {:induction false} ReduceIsRemainder(p: nat) returns (q: nat)
    ensures p == Xor(ClMul(0x11d, q), Reduce(p))
    decreases p
  {
    hide *;
    ReduceUnfolds(p);
    if p < 256 {
      q := 0;
    } else {
      var h := ReduceIsRemainder(p / 2);
      var m, b := ClMul(0x11d, h), p % 2;
      var r: nat := Reduce(p / 2);
      XorDouble(m, r);
      XorLowBit(p / 2, b);
      ClMulNext(0x11d, h);
      if 2 * r < 256 {
        q := 2 * h;
        XorAssoc(2 * m, 2 * r, b);
      } else {
        q := 2 * h + 1;
        FoldCancels(0x11d, 2 * m, 2 * r, b);
      }
    }
  }

  lemma FoldCancels(m: nat, a: nat, c: nat, b: nat)
    ensures Xor(Xor(m, a), Xor(Xor(c, m), b)) == Xor(Xor(a, c), b)
  {
    hide *;
    XorComm(m, a);
    XorComm(c, m);
    XorAssoc(m, c, b);
    XorAssoc(a, m, Xor(m, Xor(c, b)));
    XorCancel(Xor(c, b), m);
    XorAssoc(a, c, b);
  }

  // ---- the product in the field

  lemma MulComm(a: nat, b: nat)
    ensures Mul(a, b) == Mul(b, a)
  {
    ClMulComm(a, b);
  }

  lemma MulDist(a: nat, b: nat, c: nat)
    ensures Mul(a, Xor(b, c)) == Xor(Mul(a, b), Mul(a, c))
    ensures Mul(Xor(b, c), a) == Xor(Mul(b, a), Mul(c, a))
  {
    ClMulDistRight(a, b, c);
    ReduceLinear(ClMul(a, b), ClMul(a, c));
    MulComm(a, Xor(b, c));
    MulComm(a, b);
    MulComm(a, c);
  }

  lemma MulUnit(a: Byte)
    ensures Mul(a, 0) == Mul(0, a) == 0
    ensures Mul(a, 1) == Mul(1, a) == a
  {
    ClMulZero(a);
    ClMulOne(a);
    ClMulComm(1, a);
  }

  lemma MulStep(a: Byte, b: nat)
    ensures Mul(a, b) == Xor(Pick(b, a), Xtime(Mul(a, b / 2)))
  {
    if b != 0 {
      var p := ClMul(a, b / 2);
      ReduceLinear(Pick(b, a), 2 * p);
      ReduceStep(2 * p);
      assert (2 * p) / 2 == p && (2 * p) % 2 == 0;
      XorComm(Xtime(Reduce(p)), 0);
    }
  }

  lemma ReduceModulus()
    ensures Reduce(0x11d) == 0
  {
    hide *;
    ReduceUnfolds(142);
    ReduceUnfolds(0x11d);
    ClMulByZero(0x11d);
    XorUnit(Reduce(142));
    XorParts(142, 0, 142, 1);
    XorSelf(142);
    XorSelf(1);
  }

  lemma ClMulByZero(m: nat)
    ensures ClMul(m, 0) == 0
  {
  }

  lemma {:induction false} ModulusVanishes(a: nat)
    ensures Mul(0x11d, a) == Mul(a, 0x11d) == 0
  {
    if a != 0 {
      ModulusVanishes(a / 2);
      var p := ClMul(0x11d, a / 2);
      ReduceLinear(Pick(a, 0x11d), 2 * p);
      ReduceStep(2 * p);
      assert (2 * p) / 2 == p && (2 * p) % 2 == 0;
      ReduceModulus();
    }
    MulComm(0x11d, a);
  }

  /** Multiplication commutes with doubling, so doubling is multiplication by x. */
  lemma MulXtime(a: Byte, y: Byte)
    ensures Mul(a, Xtime(y)) == Xtime(Mul(a, y))
  {
    MulStep(a, 2 * y);
    assert (2 * y) / 2 == y && (2 * y) % 2 == 0;
    if y >= 128 {
      MulDist(a, 2 * y, 0x11d);
      ModulusVanishes(a);
      XorComm(Mul(a, 2 * y), 0);
    }
  }

  lemma {:induction false} MulAssoc(a: Byte, b: Byte, c: Byte)
    ensures Mul(Mul(a, b), c) == Mul(a, Mul(b, c))
    decreases c
  {
    if c == 0 {
      MulUnit(Mul(a, b));
      MulUnit(a);
      MulUnit(b);
    } else {
      MulAssoc(a, b, c / 2);
      MulStep(Mul(a, b), c);
      MulStep(b, c);
      MulXtime(a, Mul(b, c / 2));
      MulDist(a, Pick(c, b), Xtime(Mul(b, c / 2)));
      MulUnit(a);
    }
  }

  // ---- the field laws, in terms of Add

  lemma AddLaws(a: Byte, b: Byte, c: Byte)
    ensures Add(a, b) == Add(b, a)
    ensures Add(Add(a, b), c) == Add(a, Add(b, c))
    ensures Add(a, 0) == Add(0, a) == a
    ensures Add(a, b) == 0 <==> a == b
  {
    XorComm(a, b);
    XorAssoc(a, b, c);
    XorZero(a, b);
    XorUnit(a);
  }

  lemma AddSwap(a: Byte, b: Byte, c: Byte, d: Byte)
    ensures Add(Add(a, b), Add(c, d)) == Add(Add(a, c), Add(b, d))
  {
    XorSwap(a, b, c, d);
  }

  lemma MulAdd(a: Byte, b: Byte, c: Byte)
    ensures Mul(a, Add(b, c)) == Add(Mul(a, b), Mul(a, c))
    ensures Mul(Add(b, c), a) == Add(Mul(b, a), Mul(c, a))
  {
    MulDist(a, b, c);
  }

  /** Raising a byte to a power. */
  function Raise(x: Byte, j: nat): Byte
  {
    if j == 0 then 1 else Mul(x, Raise(x, j - 1))
  }

  lemma RaiseStep(x: Byte, j: nat)
    ensures Raise(x, 0) == 1
    ensures Raise(x, j + 1) == Mul(x, Raise(x, j))
  {
  }

  lemma {:induction false} RaisePow(i: nat, j: nat)
    ensures Raise(Pow(i), j) == Pow(i * j)
    decreases j
  {
    hide *;
    if j == 0 {
      RaiseStep(Pow(i), 0);
      PowZero();
    } else {
      RaisePow(i, j - 1);
      RaiseStep(Pow(i), j - 1);
      PowAdd(i, i * (j - 1));
      assert i + i * (j - 1) == i * j;
    }
  }

  // ---- powers of the generator x

  function Pow(i: nat): (r: Byte)
    ensures r > 0
  {
    if i == 0 then 1 else Xtime(Pow(i - 1))
  }

  lemma {:induction false} PowAdd(i: nat, j: nat)
    ensures Mul(Pow(i), Pow(j)) == Pow(i + j)
    decreases j
  {
    hide *;
    if j == 0 {
      PowZero();
      MulUnit(Pow(i));
    } else {
      PowAdd(i, j - 1);
      MulXtime(Pow(i), Pow(j - 1));
      PowNext(j - 1);
      PowNext(i + j - 1);
    }
  }

  lemma PowNext(i: nat)
    ensures Pow(i + 1) == Xtime(Pow(i))
  {
  }

  // ---- the order of x is exactly 255

  /** Doubling as plain arithmetic: folding subtracts twice the bits shared with 0x1d. */
  function XtimeArith(a: Byte): int
  {
    if a < 128 then 2 * a
    else 2 * a - 227 - 8 * (a / 2 % 2) - 16 * (a / 2 / 2 % 2) - 32 * (a / 2 / 2 / 2 % 2)
  }

  lemma XtimeIsArith(a: Byte)
    ensures Xtime(a) == XtimeArith(a)
  {
    if a >= 128 {
      var a1 := a / 2;
      var a2 := a1 / 2;
      var a3 := a2 / 2;
      FoldByBits(a, a1, a2, a3, a3 / 2, a % 2, a1 % 2, a2 % 2, a3 % 2);
    }
  }

  lemma FoldByBits(a: nat, a1: nat, a2: nat, a3: nat, h: nat, b0: nat, b1: nat, b2: nat, b3: nat)
    requires a == 2 * a1 + b0 && a1 == 2 * a2 + b1 && a2 == 2 * a3 + b2 && a3 == 2 * h + b3
    requires 128 <= a < 256 && b0 < 2 && b1 < 2 && b2 < 2 && b3 < 2
    ensures Xor(2 * a, 0x11d) == 2 * a - 227 - 8 * b1 - 16 * b2 - 32 * b3
  {
    hide *;
    XorEight(h);
    XorParts(h, b3, 8, 1);
    XorParts(a3, b2, 17, 1);
    XorParts(a2, b1, 35, 1);
    XorParts(a1, b0, 71, 0);
    XorParts(a, 0, 142, 1);
  }

  lemma XorEight(h: nat)
    requires 8 <= h < 16
    ensures Xor(h, 8) == h - 8
  {
    hide *;
    EightDigits(h % 2, h / 2 % 2, h / 4 % 2);
  }

  lemma EightDigits(p: nat, q: nat, r: nat)
    requires p < 2 && q < 2 && r < 2
    ensures Xor(8 + 4 * r + 2 * q + p, 8) == 4 * r + 2 * q + p
  {
    hide *;
    XorSelf(1);
    XorParts(1, r, 1, 0);
    XorParts(2 + r, q, 2, 0);
    XorParts(4 + 2 * r + q, p, 4, 0);
  }

  lemma PowStep(i: nat, v: Byte, w: Byte)
    requires Pow(i) == v && XtimeArith(v) == w
    ensures Pow(i + 1) == w
  {
    XtimeIsArith(v);
  }

  lemma PowZero()
    ensures Pow(0) == 1
  {
  }

  lemma PowTo15()
    ensures Pow(0) == 1 && Pow(1) == 2 && Pow(2) == 4 && Pow(3) == 8 && Pow(5) == 32 && Pow(7) == 128
    ensures Pow(10) == 116 && Pow(11) == 232 && Pow(12) == 205 && Pow(13) == 135 && Pow(15) == 38
  {
    hide Pow, Xtime, Xor;
    PowZero();
    PowStep(0, 1, 2); PowStep(1, 2, 4); PowStep(2, 4, 8); PowStep(3, 8, 16);
    PowStep(4, 16, 32); PowStep(5, 32, 64); PowStep(6, 64, 128); PowStep(7, 128, 29);
    PowStep(8, 29, 58); PowStep(9, 58, 116); PowStep(10, 116, 232); PowStep(11, 232, 205);
    PowStep(12, 205, 135); PowStep(13, 135, 19); PowStep(14, 19, 38);
  }

  lemma Pow25()
    ensures Pow(25) == 3
  {
    PowTo15();
    hide Pow;
    PowStep(15, 38, 76); PowStep(16, 76, 152); PowStep(17, 152, 45); PowStep(18, 45, 90);
    PowStep(19, 90, 180); PowStep(20, 180, 117); PowStep(21, 117, 234); PowStep(22, 234, 201);
    PowStep(23, 201, 143); PowStep(24, 143, 3);
  }

  /** x^25 = 1 + x, so twenty-five steps add two neighbouring powers. */
  lemma Jump25(e: nat)
    ensures Pow(e + 25) == Xor(Pow(e), Pow(e + 1))
  {
    hide *;
    Pow25();
    PowTo15();
    XorLowBit(1, 1);
    PowAdd(e, 25);
    MulDist(Pow(e), 1, 2);
    MulUnit(Pow(e));
    PowAdd(e, 1);
  }

  /** Squaring x^25 = 1 + x. */
  lemma Jump50(e: nat)
    ensures Pow(e + 50) == Xor(Pow(e), Pow(e + 2))
  {
    hide *;
    Jump25(e);
    Jump25(e + 1);
    Jump25(e + 25);
    XorComm(Pow(e + 1), Pow(e + 2));
    XorAssoc(Pow(e), Pow(e + 1), Xor(Pow(e + 1), Pow(e + 2)));
    XorCancel(Pow(e + 2), Pow(e + 1));
  }

  lemma Jump100(e: nat)
    ensures Pow(e + 100) == Xor(Pow(e), Pow(e + 4))
  {
    hide *;
    Jump50(e);
    Jump50(e + 2);
    Jump50(e + 50);
    XorAssoc(Pow(e), Pow(e + 2), Xor(Pow(e + 2), Pow(e + 4)));
    XorCancel(Pow(e + 4), Pow(e + 2));
  }

  lemma Jump200(e: nat)
    ensures Pow(e + 200) == Xor(Pow(e), Pow(e + 8))
  {
    hide *;
    Jump100(e);
    Jump100(e + 4);
    Jump100(e + 100);
    XorAssoc(Pow(e), Pow(e + 4), Xor(Pow(e + 4), Pow(e + 8)));
    XorCancel(Pow(e + 8), Pow(e + 4));
  }

  lemma Pow255()
    ensures Pow(255) == 1
  {
    hide *;
    PowTo15();
    Jump200(55);
    Jump50(5);
    Jump50(13);
    XorSwap(32, 128, 135, 38);
    XorValues();
  }

  lemma XorValues()
    ensures Xor(Xor(32, 128), Xor(135, 38)) == 1
  {
    hide *;
    XorUnit(2);
    XorParts(0, 1, 2, 0); XorParts(1, 0, 4, 0); XorParts(2, 0, 8, 0);
    XorParts(4, 0, 16, 0); XorParts(8, 0, 32, 0); XorParts(16, 0, 64, 0);
    assert Xor(32, 128) == 160;
    XorParts(2, 0, 0, 1); XorParts(4, 0, 1, 0); XorParts(8, 0, 2, 0);
    XorParts(16, 1, 4, 1); XorParts(33, 1, 9, 1); XorParts(67, 1, 19, 0);
    assert Xor(135, 38) == 161;
    XorLowBit(80, 1);
    XorCancel(1, 160);
  }

  lemma PowDivisors()
    ensures Pow(15) != 1 && Pow(51) != 1 && Pow(85) != 1
  {
    hide *;
    PowTo15();
    Jump50(1);
    XorHalf(2, 8);
    Jump50(35);
    Jump25(10);
    Jump25(12);
    XorHalf(116, 232);
    XorHalf(205, 135);
    XorHalf(Pow(35), Pow(37));
  }

  lemma {:induction false} PowMultiple(d: nat, k: nat)
    requires Pow(d) == 1
    ensures Pow(k * d) == 1
    decreases k
  {
    hide *;
    if k == 0 {
      PowZero();
    } else {
      PowMultiple(d, k - 1);
      PowAdd((k - 1) * d, d);
      MulUnit(1);
      assert (k - 1) * d + d == k * d;
    }
  }

  /** If two powers of x are 1, so is the power of their remainder. */
  lemma PowRemainder(n: nat, d: nat)
    requires d > 0 && Pow(n) == 1 && Pow(d) == 1
    ensures Pow(n % d) == 1
  {
    hide *;
    PowMultiple(d, n / d);
    PowAdd(n / d * d, n % d);
    MulUnit(Pow(n % d));
    assert n / d * d + n % d == n;
  }

  /** No power of x below 255 is 1, apart from x^0. */
  lemma {:induction false} OrderIs255(d: nat)
    requires 0 < d < 255
    ensures Pow(d) != 1
    decreases d
  {
    hide *;
    if Pow(d) == 1 {
      Pow255();
      PowRemainder(255, d);
      if 255 % d != 0 {
        OrderIs255(255 % d);
      } else {
        PowDivisors();
        var m, k := ProperDivisor(255 / d, d);
        PowMultiple(d, k);
      }
    }
  }

  /** A proper divisor of 255 divides 15, 51 or 85. */
  lemma ProperDivisor(q: nat, d: nat) returns (m: nat, k: nat)
    requires q * d == 255 && 0 < d < 255
    ensures (m == 15 || m == 51 || m == 85) && k * d == m
  {
    if d < 16 {
      SmallFactor(q, d);
      m, k := 15, 15 / d;
    } else {
      assert q < 16;
      SmallFactor(d, q);
      m := if q == 3 then 85 else if q == 5 then 51 else 17 * 3;
      k := if q == 15 then 3 else 1;
    }
  }

  lemma SmallFactor(q: nat, d: nat)
    requires q * d == 255 && d < 16
    ensures d == 1 || d == 3 || d == 5 || d == 15
  {
  }

  lemma PowPeriod(i: nat)
    ensures Pow(i + 255) == Pow(i)
  {
    hide *;
    Pow255();
    PowAdd(i, 255);
    MulUnit(Pow(i));
  }

  lemma PowDistinct(i: nat, j: nat)
    requires i < j < 255
    ensures Pow(i) != Pow(j)
  {
    hide *;
    if Pow(i) == Pow(j) {
      PowAdd(255 - i, i);
      PowAdd(255 - i, j);
      PowPeriod(j - i);
      Pow255();
      OrderIs255(j - i);
    }
  }

  // ---- every nonzero byte is a power of x

  ghost function Powers(n: nat): set<nat>
  {
    set i: nat | i < n :: Pow(i) as nat
  }

  ghost function Upto(n: nat): set<nat>
  {
    if n == 0 then {} else Upto(n - 1) + {n}
  }

  lemma {:induction false} UptoHas(n: nat, k: nat)
    ensures k in Upto(n) <==> 0 < k <= n
  {
    if n > 0 { UptoHas(n - 1, k); }
  }

  lemma {:induction false} PowersCount(n: nat)
    requires n <= 255
    ensures |Powers(n)| == n
  {
    hide Pow;
    if n > 0 {
      PowersCount(n - 1);
      forall i: nat | i < n - 1 ensures Pow(i) != Pow(n - 1) { PowDistinct(i, n - 1); }
      assert Powers(n) == Powers(n - 1) + {Pow(n - 1) as nat};
    }
  }

  lemma OneMore(s: set<nat>, n: nat)
    requires n !in s
    ensures |s + {n}| == |s| + 1
  {
  }

  lemma {:induction false} UptoCount(n: nat)
    ensures |Upto(n)| == n
  {
    if n > 0 {
      UptoCount(n - 1);
      UptoHas(n - 1, n);
      OneMore(Upto(n - 1), n);
    }
  }

  lemma SubsetOfSameSize<T>(s: set<T>, t: set<T>)
    requires s <= t && |s| == |t|
    ensures s == t
  {
    assert |t - s| == |t| - |s|;
  }

  lemma PowOnto(a: Byte)
    requires a > 0
    ensures exists i: nat :: i < 255 && Pow(i) == a
  {
    hide Pow;
    PowersCount(255);
    UptoCount(255);
    forall k: nat ensures k in Upto(255) <==> 0 < k <= 255 { UptoHas(255, k); }
    hide Upto;
    SubsetOfSameSize(Powers(255), Upto(255));
    assert a as nat in Upto(255);
  }

  ghost function Log(a: Byte): (i: nat)
    requires a > 0
    ensures i < 255 && Pow(i) == a
  {
    PowOnto(a);
    var i: nat :| i < 255 && Pow(i) == a;
    i
  }

  lemma NoZeroDivisors(a: Byte, b: Byte)
    ensures Mul(a, b) == 0 <==> a == 0 || b == 0
  {
    hide *;
    MulUnit(a);
    MulUnit(b);
    if a > 0 && b > 0 {
      PowAdd(Log(a), Log(b));
    }
  }

  lemma Inverse(a: Byte) returns (b: Byte)
    requires a > 0
    ensures b > 0 && Mul(a, b) == 1
  {
    hide *;
    b := Pow(255 - Log(a));
    PowAdd(Log(a), 255 - Log(a));
    Pow255();
  }

  // ---- the tables

  /** The first n powers and the logarithms of the first m powers are in place. */
  ghost predicate Filled(exp: array<Byte>, log: array<Byte>, n: nat, m: nat)
    reads exp, log
  {
    && exp.Length == 512 && log.Length == 256 && n <= 512
    && (forall i :: 0 <= i < n ==> exp[i] == Pow(i))
    && (forall i :: 0 <= i < m ==> log[Pow(i)] == i)
  }

  /** The tables `gfExp` and `gfLog`, filled when the program starts. */
  class Tables {
    const exp: array<Byte>
    const log: array<Byte>

    ghost predicate Valid()
      reads exp, log
    {
      Filled(exp, log, 512, 255)
    }

    constructor ()
      ensures Valid() && fresh(exp) && fresh(log)
    {
      hide Pow;
      var e := new Byte[512](_ => 0);
      var l := new Byte[256](_ => 0);
      FillPeriod(e, l);
      RepeatPeriod(e, l);
      exp, log := e, l;
    }

    /** The first loop: the powers below 255 and their logarithms. */
    static method FillPeriod(e: array<Byte>, l: array<Byte>)
      requires e.Length == 512 && l.Length == 256 && e != l
      modifies e, l
      ensures Filled(e, l, 255, 255)
    {
      hide Pow, Xtime, Xor, Bit;
      var x: nat := 1;
      PowZero();
      for i := 0 to 255
        invariant x == Pow(i)
        invariant Filled(e, l, i, i)
      {
        PowDistinctFrom(i);
        e[i] := x;
        l[x] := i;
        PowDoubled(i);
        x := 2 * x;
        if Bit(x, 8) {
          x := Xor(x, 0x11d);
        }
      }
    }

    /** The second loop: the powers from 255 on. */
    static method RepeatPeriod(e: array<Byte>, l: array<Byte>)
      requires Filled(e, l, 255, 255) && e != l
      modifies e
      ensures Filled(e, l, 512, 255)
    {
      hide Pow;
      for i := 255 to 512
        invariant Filled(e, l, i, 255)
      {
        PowPeriod(i - 255);
        e[i] := e[i - 255];
      }
    }

    function GfMul(a: Byte, b: Byte): (r: Byte)
      requires Valid()
      reads exp, log
      ensures r == Mul(a, b)
    {
      NoZeroDivisors(a, b);
      if a == 0 || b == 0 then 0
      else
        PowAdd(Log(a), Log(b));
        exp[log[a] as nat + log[b] as nat]
    }
  }

  lemma PowDistinctFrom(i: nat)
    requires i < 255
    ensures forall k: nat :: k < i ==> Pow(k) != Pow(i)
  {
    forall k: nat | k < i ensures Pow(k) != Pow(i) { PowDistinct(k, i); }
  }

  lemma PowDoubled(i: nat)
    ensures Pow(i + 1) == if Bit(2 * Pow(i), 8) then Xor(2 * Pow(i), 0x11d) else 2 * Pow(i)
  {
    assert Pow2(9) == 512 && Pow2(8) == 256;
    BitTop(2 * Pow(i), 8);
  }
}
