/** Polynomials over GF(256), highest coefficient first, and the Vandermonde argument behind
    the distance of a Reed-Solomon code. */
module Polynomials {
  import opened Bits
  import opened GaloisField

  type Poly = seq<Byte>

  /** Horner's rule. */
  function Eval(p: Poly, x: Byte): Byte
  {
    if p == [] then 0 else Add(Mul(Eval(p[..|p| - 1], x), x), p[|p| - 1])
  }

  function Plus(p: Poly, q: Poly): (r: Poly)
    requires |p| == |q|
    ensures |r| == |p|
  {
    seq(|p|, i requires 0 <= i < |p| => Add(p[i], q[i]))
  }

  function Scale(p: Poly, a: Byte): (r: Poly)
    ensures |r| == |p|
  {
    seq(|p|, i requires 0 <= i < |p| => Mul(p[i], a))
  }

  lemma EvalSnoc(p: Poly, c: Byte, x: Byte)
    ensures Eval(p + [c], x) == Add(Mul(Eval(p, x), x), c)
  {
    hide Add, Mul;
    assert (p + [c])[..|p|] == p;
  }

  lemma EvalEmpty(x: Byte)
    ensures Eval([], x) == 0
  {
  }

  lemma Snoc(p: Poly) returns (q: Poly, c: Byte)
    requires p != []
    ensures p == q + [c] && |q| == |p| - 1 && q == p[..|p| - 1] && c == p[|p| - 1]
  {
    q, c := p[..|p| - 1], p[|p| - 1];
  }

  lemma {:induction false} EvalConcat(p: Poly, q: Poly, x: Byte)
    ensures Eval(p + q, x) == Add(Mul(Eval(p, x), Raise(x, |q|)), Eval(q, x))
    decreases |q|
  {
    hide *;
    if q == [] {
      assert p + q == p;
      EvalEmpty(x);
      RaiseStep(x, 0);
      MulUnit(Eval(p, x));
      AddLaws(Eval(p, x), 0, 0);
    } else {
      var r, c := Snoc(q);
      assert p + q == (p + r) + [c];
      EvalConcat(p, r, x);
      EvalSnoc(p + r, c, x);
      EvalSnoc(r, c, x);
      var a, b, w := Eval(p, x), Eval(r, x), Raise(x, |r|);
      MulAdd(x, Mul(a, w), b);
      MulAssoc(a, w, x);
      MulComm(w, x);
      RaiseStep(x, |r|);
      AddLaws(Mul(a, Mul(x, w)), Mul(b, x), c);
    }
  }

  lemma EvalSingle(c: Byte, x: Byte)
    ensures Eval([c], x) == c
  {
    hide *;
    EvalSnoc([], c, x);
    EvalEmpty(x);
    MulUnit(x);
    AddLaws(c, 0, 0);
    assert [] + [c] == [c];
  }

  lemma PlusSnoc(p: Poly, q: Poly, c: Byte, d: Byte)
    requires |p| == |q|
    ensures Plus(p + [c], q + [d]) == Plus(p, q) + [Add(c, d)]
  {
    hide Add;
  }

  lemma {:induction false} EvalPlus(p: Poly, q: Poly, x: Byte)
    requires |p| == |q|
    ensures Eval(Plus(p, q), x) == Add(Eval(p, x), Eval(q, x))
    decreases |p|
  {
    if p == [] {
      EvalEmpty(x);
      AddLaws(0, 0, 0);
    } else {
      hide *;
      var p', c := Snoc(p);
      var q', d := Snoc(q);
      PlusSnoc(p', q', c, d);
      EvalPlus(p', q', x);
      EvalSnoc(Plus(p', q'), Add(c, d), x);
      EvalSnoc(p', c, x);
      EvalSnoc(q', d, x);
      MulAdd(x, Eval(p', x), Eval(q', x));
      AddSwap(Mul(Eval(p', x), x), Mul(Eval(q', x), x), c, d);
    }
  }

  lemma ScaleSnoc(p: Poly, c: Byte, a: Byte)
    ensures Scale(p + [c], a) == Scale(p, a) + [Mul(c, a)]
  {
    hide Mul;
  }

  lemma {:induction false} EvalScale(p: Poly, a: Byte, x: Byte)
    ensures Eval(Scale(p, a), x) == Mul(Eval(p, x), a)
    decreases |p|
  {
    if p == [] {
      EvalEmpty(x);
      MulUnit(a);
    } else {
      hide *;
      var q, c := Snoc(p);
      ScaleSnoc(q, c, a);
      EvalScale(q, a, x);
      EvalSnoc(Scale(q, a), Mul(c, a), x);
      EvalSnoc(q, c, x);
      var e := Eval(q, x);
      MulAdd(a, Mul(e, x), c);
      MulAssoc(e, a, x);
      MulComm(a, x);
      MulAssoc(e, x, a);
    }
  }

  // ---- weights and the Vandermonde argument

  function Weight(c: Poly): nat
  {
    if c == [] then 0 else (if c[0] != 0 then 1 else 0) + Weight(c[1..])
  }

  /** In how many places two words differ. */
  function Distance<T(==)>(u: seq<T>, v: seq<T>): nat
    requires |u| == |v|
  {
    if u == [] then 0 else (if u[0] != v[0] then 1 else 0) + Distance(u[1..], v[1..])
  }

  /** The j-th power sum of c at the locators xs. */
  function PowerSum(c: Poly, xs: Poly, j: nat): Byte
    requires |c| == |xs|
  {
    if c == [] then 0 else Add(Mul(c[0], Raise(xs[0], j)), PowerSum(c[1..], xs[1..], j))
  }

  predicate Distinct(xs: Poly)
  {
    forall i, j :: 0 <= i < j < |xs| ==> xs[i] != xs[j]
  }

  /** Cancels the locator y: the coefficient at x is multiplied by x - y. */
  function Eliminate(c: Poly, xs: Poly, y: Byte): (r: Poly)
    requires |c| == |xs|
    ensures |r| == |c|
  {
    if c == [] then [] else [Mul(c[0], Add(xs[0], y))] + Eliminate(c[1..], xs[1..], y)
  }

  lemma TermEliminated(c: Byte, x: Byte, y: Byte, j: nat)
    ensures Mul(Mul(c, Add(x, y)), Raise(x, j)) == Add(Mul(c, Raise(x, j + 1)), Mul(y, Mul(c, Raise(x, j))))
  {
    hide *;
    var w := Raise(x, j);
    RaiseStep(x, j);
    MulAssoc(c, Add(x, y), w);
    MulAdd(w, x, y);
    MulAdd(c, Mul(x, w), Mul(y, w));
    MulAssoc(c, y, w);
    MulComm(c, y);
    MulAssoc(y, c, w);
  }

  lemma {:induction false} EliminatedSum(c: Poly, xs: Poly, y: Byte, j: nat)
    requires |c| == |xs|
    ensures PowerSum(Eliminate(c, xs, y), xs, j) == Add(PowerSum(c, xs, j + 1), Mul(y, PowerSum(c, xs, j)))
  {
    hide Add, Mul, Raise;
    if c == [] {
      MulUnit(y);
      AddLaws(0, 0, 0);
    } else {
      var e := Eliminate(c, xs, y);
      assert e[1..] == Eliminate(c[1..], xs[1..], y);
      EliminatedSum(c[1..], xs[1..], y, j);
      TermEliminated(c[0], xs[0], y, j);
      var a, b := Mul(c[0], Raise(xs[0], j + 1)), Mul(c[0], Raise(xs[0], j));
      var s, t := PowerSum(c[1..], xs[1..], j + 1), PowerSum(c[1..], xs[1..], j);
      AddSwap(a, Mul(y, b), s, Mul(y, t));
      MulAdd(y, b, t);
    }
  }

  lemma {:induction false} EliminatedAt(c: Poly, xs: Poly, y: Byte, k: nat)
    requires |c| == |xs| && k < |c|
    ensures Eliminate(c, xs, y)[k] == Mul(c[k], Add(xs[k], y))
  {
    hide Add, Mul;
    if k > 0 { EliminatedAt(c[1..], xs[1..], y, k - 1); }
  }

  /** Two words of which one is zero wherever the other is, and at p as well. */
  lemma {:induction false} WeightDrops(c: Poly, d: Poly, p: nat)
    requires |c| == |d| && p < |c| && c[p] != 0 && d[p] == 0
    requires forall k :: 0 <= k < |c| && k != p ==> (d[k] == 0 <==> c[k] == 0)
    ensures Weight(d) + 1 == Weight(c)
  {
    if p == 0 {
      SameSupport(c[1..], d[1..]);
    } else {
      assert c[1..][p - 1] == c[p] && d[1..][p - 1] == d[p];
      WeightDrops(c[1..], d[1..], p - 1);
    }
  }

  lemma {:induction false} SameSupport(c: Poly, d: Poly)
    requires |c| == |d|
    requires forall k :: 0 <= k < |c| ==> (d[k] == 0 <==> c[k] == 0)
    ensures Weight(d) == Weight(c)
  {
    if c != [] { SameSupport(c[1..], d[1..]); }
  }

  lemma {:induction false} WeightZero(c: Poly)
    ensures Weight(c) == 0 <==> forall k :: 0 <= k < |c| ==> c[k] == 0
  {
    if c != [] {
      WeightZero(c[1..]);
      assert forall k :: 0 < k < |c| ==> c[k] == c[1..][k - 1];
    }
  }

  lemma {:induction false} ZeroSum(c: Poly, xs: Poly, j: nat)
    requires |c| == |xs| && Weight(c) == 0
    ensures PowerSum(c, xs, j) == 0
  {
    hide Add, Mul, Raise;
    if c != [] {
      ZeroSum(c[1..], xs[1..], j);
      MulUnit(Raise(xs[0], j));
      AddLaws(0, 0, 0);
    }
  }

  /** A word of weight one has a nonzero plain sum. */
  lemma {:induction false} SingleSum(c: Poly, xs: Poly)
    requires |c| == |xs| && Weight(c) == 1
    ensures PowerSum(c, xs, 0) != 0
  {
    hide Add, Mul, Raise;
    RaiseStep(xs[0], 0);
    MulUnit(c[0]);
    if c[0] != 0 {
      ZeroSum(c[1..], xs[1..], 0);
      AddLaws(c[0], 0, 0);
    } else {
      SingleSum(c[1..], xs[1..]);
      AddLaws(PowerSum(c[1..], xs[1..], 0), 0, 0);
    }
  }

  /** A word of weight at most n whose first n power sums vanish is zero. */
  lemma {:induction false} Vandermonde(c: Poly, xs: Poly, n: nat)
    requires |c| == |xs| && Distinct(xs) && Weight(c) <= n
    requires forall j: nat :: j < n ==> PowerSum(c, xs, j) == 0
    ensures Weight(c) == 0
    decreases n
  {
    if Weight(c) > 0 {
      WeightZero(c);
      var p: nat :| p < |c| && c[p] != 0;
      var d := Eliminate(c, xs, xs[p]);
      EliminatedWeight(c, xs, p);
      forall j: nat | j < n - 1 ensures PowerSum(d, xs, j) == 0 {
        hide *;
        EliminatedSum(c, xs, xs[p], j);
        MulUnit(xs[p]);
        AddLaws(0, 0, 0);
      }
      hide *;
      Vandermonde(d, xs, n - 1);
      SingleSum(c, xs);
    }
  }

  lemma EliminatedWeight(c: Poly, xs: Poly, p: nat)
    requires |c| == |xs| && Distinct(xs) && p < |c| && c[p] != 0
    ensures Weight(Eliminate(c, xs, xs[p])) + 1 == Weight(c)
  {
    hide Add, Mul, Eliminate, Weight;
    var d := Eliminate(c, xs, xs[p]);
    forall k | 0 <= k < |c| ensures d[k] == 0 <==> c[k] == 0 || k == p {
      EliminatedAt(c, xs, xs[p], k);
      AddLaws(xs[k], xs[p], 0);
      NoZeroDivisors(c[k], Add(xs[k], xs[p]));
    }
    WeightDrops(c, d, p);
  }

  // ---- a codeword as a word of power sums

  /** Position k of a word of length n carries the power x^(n-1-k). */
  function Locators(n: nat): (xs: Poly)
    ensures |xs| == n
  {
    seq(n, k requires 0 <= k < n => Pow(n - 1 - k))
  }

  lemma LocatorsDistinct(n: nat)
    requires n <= 255
    ensures Distinct(Locators(n))
  {
    hide Pow;
    forall i, j | 0 <= i < j < n ensures Locators(n)[i] != Locators(n)[j] {
      PowDistinct(n - 1 - j, n - 1 - i);
    }
  }

  lemma {:induction false} EvalIsPowerSum(c: Poly, j: nat)
    ensures Eval(c, Pow(j)) == PowerSum(c, Locators(|c|), j)
  {
    hide Add, Mul, Raise, Pow, Eval;
    if c == [] {
      EvalEmpty(Pow(j));
    } else {
      var m := |c| - 1;
      assert Locators(|c|)[1..] == Locators(m);
      EvalIsPowerSum(c[1..], j);
      assert c == [c[0]] + c[1..];
      EvalConcat([c[0]], c[1..], Pow(j));
      EvalSingle(c[0], Pow(j));
      RaisePow(j, m);
      RaisePow(m, j);
      assert j * m == m * j;
    }
  }

  /** A word of at most 255 bytes with n vanishing syndromes is zero or has weight above n. */
  lemma NonzeroWeight(c: Poly, n: nat)
    requires |c| <= 255
    requires forall j: nat :: j < n ==> Eval(c, Pow(j)) == 0
    ensures Weight(c) == 0 || Weight(c) > n
  {
    hide *;
    if Weight(c) <= n {
      LocatorsDistinct(|c|);
      forall j: nat | j < n ensures PowerSum(c, Locators(|c|), j) == 0 { EvalIsPowerSum(c, j); }
      Vandermonde(c, Locators(|c|), n);
    }
  }

  lemma {:induction false} DistanceIsWeight(u: Poly, v: Poly)
    requires |u| == |v|
    ensures Distance(u, v) == Weight(Plus(u, v))
    ensures Distance(u, v) == 0 <==> u == v
  {
    hide Add;
    if u != [] {
      DistanceIsWeight(u[1..], v[1..]);
      assert Plus(u, v)[1..] == Plus(u[1..], v[1..]);
      AddLaws(u[0], v[0], 0);
      assert u == [u[0]] + u[1..] && v == [v[0]] + v[1..];
    }
  }

  lemma {:induction false} DistanceTriangle<T>(u: seq<T>, w: seq<T>, v: seq<T>)
    requires |u| == |w| == |v|
    ensures Distance(u, v) <= Distance(u, w) + Distance(w, v)
  {
    if u != [] { DistanceTriangle(u[1..], w[1..], v[1..]); }
  }

  lemma {:induction false} DistanceSnoc<T>(u: seq<T>, v: seq<T>, x: T, y: T)
    requires |u| == |v|
    ensures Distance(u + [x], v + [y]) == Distance(u, v) + if x == y then 0 else 1
    decreases |u|
  {
    if u != [] {
      DistanceSnoc(u[1..], v[1..], x, y);
      assert (u + [x])[1..] == u[1..] + [x] && (v + [y])[1..] == v[1..] + [y];
    }
  }

  lemma {:induction false} DistanceSymmetric<T>(u: seq<T>, v: seq<T>)
    requires |u| == |v|
    ensures Distance(u, v) == Distance(v, u)
  {
    if u != [] { DistanceSymmetric(u[1..], v[1..]); }
  }
}
