/** The Reed-Solomon encoder: generator polynomial, remainder, and the distance of the code. */
module ReedSolomon {
  import opened Bits
  import opened GaloisField
  import opened Polynomials

  // ---- specification

  /** Multiplies a polynomial by (x - a). */
  function TimesRoot(g: Poly, a: Byte): (r: Poly)
    ensures |r| == |g| + 1
  {
    Plus(g + [0], [0] + Scale(g, a))
  }

  function Generator(n: nat): (g: Poly)
    ensures |g| == n + 1
  {
    if n == 0 then [1] else TimesRoot(Generator(n - 1), Pow(n - 1))
  }

  /** The product of (x - a^i) for i below n, evaluated. */
  function RootProduct(n: nat, x: Byte): Byte
  {
    if n == 0 then 1 else Mul(RootProduct(n - 1, x), Add(x, Pow(n - 1)))
  }

  /** One step of the long division: bring down d, subtract a multiple of the generator. */
  function Divide(rem: Poly, d: Byte, g: Poly): (r: Poly)
    requires |rem| > 0 && |g| == |rem| + 1
    ensures |r| == |rem|
  {
    Plus(rem[1..] + [0], Scale(g[1..], Add(d, rem[0])))
  }

  function Remainder(data: Poly, n: nat): (r: Poly)
    requires n > 0
    ensures |r| == n
  {
    if data == [] then seq(n, _ => 0)
    else Divide(Remainder(data[..|data| - 1], n), data[|data| - 1], Generator(n))
  }

  /** The quotient that the same division builds, one coefficient a byte. */
  function Quotient(data: Poly, n: nat): (q: Poly)
    requires n > 0
    ensures |q| == |data|
  {
    if data == [] then []
    else
      var d := data[..|data| - 1];
      Quotient(d, n) + [Add(data[|data| - 1], Remainder(d, n)[0])]
  }

  function Codeword(data: Poly, n: nat): (c: Poly)
    requires n > 0
    ensures |c| == |data| + n
  {
    data + Remainder(data, n)
  }

  ghost predicate ZeroSyndromes(c: Poly, n: nat)
  {
    forall j: nat :: j < n ==> Eval(c, Pow(j)) == 0
  }

  // ---- the generator is the product of its roots

  lemma ShiftedEval(g: Poly, a: Byte, x: Byte)
    ensures Eval(TimesRoot(g, a), x) == Mul(Eval(g, x), Add(x, a))
  {
    hide Add, Mul, Eval, Scale, Plus;
    EvalPlus(g + [0], [0] + Scale(g, a), x);
    EvalSnoc(g, 0, x);
    EvalConcat([0], Scale(g, a), x);
    EvalSingle(0, x);
    MulUnit(Raise(x, |g|));
    EvalScale(g, a, x);
    AddLaws(Mul(Eval(g, x), x), 0, 0);
    AddLaws(Mul(Eval(g, x), a), 0, 0);
    MulAdd(Eval(g, x), x, a);
  }

  lemma {:induction false} GeneratorIsProduct(n: nat, x: Byte)
    ensures Eval(Generator(n), x) == RootProduct(n, x)
  {
    hide Add, Mul, Eval, TimesRoot;
    if n == 0 {
      EvalSingle(1, x);
    } else {
      GeneratorIsProduct(n - 1, x);
      ShiftedEval(Generator(n - 1), Pow(n - 1), x);
    }
  }

  lemma TimesRootAt(g: Poly, a: Byte, k: nat)
    requires k <= |g|
    ensures TimesRoot(g, a)[k] == Add(if k == 0 then 0 else Mul(g[k - 1], a), if k == |g| then 0 else g[k])
  {
    hide Mul, Add;
    AddLaws(if k == 0 then 0 else Mul(g[k - 1], a), if k == |g| then 0 else g[k], 0);
  }

  lemma {:induction false} GeneratorMonic(n: nat)
    ensures Generator(n)[0] == 1
  {
    if n > 0 {
      hide Mul, Add, TimesRoot;
      GeneratorMonic(n - 1);
      TimesRootAt(Generator(n - 1), Pow(n - 1), 0);
      AddLaws(1, 0, 0);
    }
  }

  /** Exactly a^0, ..., a^(n-1) are roots. */
  lemma {:induction false} GeneratorRoots(n: nat, x: Byte)
    ensures Eval(Generator(n), x) == 0 <==> exists i: nat :: i < n && x == Pow(i)
  {
    hide Add, Mul, Eval, Generator, Pow;
    GeneratorIsProduct(n, x);
    if n > 0 {
      var last := n - 1;
      GeneratorRoots(last, x);
      GeneratorIsProduct(last, x);
      NoZeroDivisors(RootProduct(last, x), Add(x, Pow(last)));
      AddLaws(x, Pow(last), 0);
      if i: nat :| i < n && x == Pow(i) {
        assert i < last || i == last;
      }
      assert RootProduct(n, x) == 0 <==> RootProduct(last, x) == 0 || x == Pow(last);
    }
  }

  // ---- the encoder is polynomial division

  lemma {:induction false} ZerosEval(n: nat, x: Byte)
    ensures Eval(seq(n, _ => 0), x) == 0
  {
    hide Add, Mul, Eval;
    if n == 0 {
      EvalEmpty(x);
    } else {
      ZerosEval(n - 1, x);
      assert seq(n, _ => 0) == seq(n - 1, _ => 0) + [0];
      EvalSnoc(seq(n - 1, _ => 0), 0, x);
      MulUnit(x);
      AddLaws(0, 0, 0);
    }
  }

  /** A polynomial split into its leading term and the rest. */
  lemma EvalLead(p: Poly, x: Byte)
    requires p != []
    ensures Eval(p, x) == Add(Mul(p[0], Raise(x, |p| - 1)), Eval(p[1..], x))
  {
    hide *;
    assert p == [p[0]] + p[1..];
    EvalConcat([p[0]], p[1..], x);
    EvalSingle(p[0], x);
  }

  /** One division step, as an identity of values: the new remainder is the old one shifted,
      plus d x^n, plus a multiple of the generator. */
  lemma DivideStep(rem: Poly, d: Byte, g: Poly, x: Byte)
    requires |rem| > 0 && |g| == |rem| + 1 && g[0] == 1
    ensures var f := Add(d, rem[0]);
            Add(Mul(Eval(rem, x), x), Mul(d, Raise(x, |rem|)))
              == Add(Mul(f, Eval(g, x)), Eval(Divide(rem, d, g), x))
  {
    var n, f := |rem|, Add(d, rem[0]);
    var w, u := Raise(x, n), Raise(x, n - 1);
    var r, h := Eval(rem[1..], x), Eval(g[1..], x);
    calc {
      Eval(Divide(rem, d, g), x);
      { EvalPlus(rem[1..] + [0], Scale(g[1..], f), x); }
      Add(Eval(rem[1..] + [0], x), Eval(Scale(g[1..], f), x));
      { hide *; EvalSnoc(rem[1..], 0, x); EvalScale(g[1..], f, x); AddLaws(Mul(r, x), 0, 0); }
      Add(Mul(r, x), Mul(h, f));
    }
    hide *;
    EvalLead(rem, x);
    EvalLead(g, x);
    MulUnit(w);
    RaiseStep(x, n - 1);
    LeadingTerms(r, h, d, rem[0], x, u);
  }

  /** The field identity behind DivideStep. */
  lemma LeadingTerms(r: Byte, h: Byte, d: Byte, a: Byte, x: Byte, u: Byte)
    ensures var f, w := Add(d, a), Mul(x, u);
            Add(Mul(Add(Mul(a, u), r), x), Mul(d, w)) == Add(Mul(f, Add(w, h)), Add(Mul(r, x), Mul(h, f)))
  {
    hide *;
    var f, w := Add(d, a), Mul(x, u);
    MulAdd(x, Mul(a, u), r);
    MulAssoc(a, u, x);
    MulComm(u, x);
    var aw, dw, rx, fh := Mul(a, w), Mul(d, w), Mul(r, x), Mul(f, h);
    assert Mul(Add(Mul(a, u), r), x) == Add(aw, rx);
    MulAdd(f, w, h);
    MulAdd(w, d, a);
    MulComm(f, h);
    AddSwap(Add(dw, aw), fh, rx, fh);
    AddLaws(fh, fh, 0);
    AddLaws(Add(Add(dw, aw), rx), 0, 0);
    AddLaws(aw, rx, dw);
    AddLaws(rx, dw, 0);
    AddLaws(dw, aw, rx);
    AddLaws(aw, Add(rx, dw), 0);
    AddLaws(Add(aw, rx), dw, 0);
  }

  /** data x^n = quotient g + remainder, at every point. */
  lemma {:induction false} DivisionIdentity(data: Poly, n: nat, x: Byte)
    requires n > 0
    ensures Mul(Eval(data, x), Raise(x, n))
         == Add(Mul(Eval(Quotient(data, n), x), Eval(Generator(n), x)), Eval(Remainder(data, n), x))
    decreases |data|
  {
    var g, w := Generator(n), Raise(x, n);
    if data == [] {
      hide Add, Mul, Eval, Generator;
      EvalEmpty(x);
      ZerosEval(n, x);
      MulUnit(w);
      MulUnit(Eval(g, x));
      AddLaws(0, 0, 0);
    } else {
      var p, d := Snoc(data);
      var rem := Remainder(p, n);
      var f := Add(d, rem[0]);
      assert Remainder(data, n) == Divide(rem, d, g);
      assert Quotient(data, n) == Quotient(p, n) + [f];
      hide *;
      GeneratorMonic(n);
      DivisionIdentity(p, n, x);
      EvalSnoc(p, d, x);
      EvalSnoc(Quotient(p, n), f, x);
      DivideStep(rem, d, g, x);
      DivisionGlue(Eval(p, x), Eval(Quotient(p, n), x), Eval(g, x), Eval(rem, x), d, f, x, w,
                   Eval(Divide(rem, d, g), x));
    }
  }

  lemma DivisionGlue(p: Byte, q: Byte, g: Byte, r: Byte, d: Byte, f: Byte, x: Byte, w: Byte, r': Byte)
    requires Mul(p, w) == Add(Mul(q, g), r)
    requires Add(Mul(r, x), Mul(d, w)) == Add(Mul(f, g), r')
    ensures Mul(Add(Mul(p, x), d), w) == Add(Mul(Add(Mul(q, x), f), g), r')
  {
    hide *;
    MulAdd(w, Mul(p, x), d);
    MulAssoc(p, x, w);
    MulComm(x, w);
    MulAssoc(p, w, x);
    MulAdd(x, Mul(q, g), r);
    MulAssoc(q, g, x);
    MulComm(g, x);
    MulAssoc(q, x, g);
    var a, b := Mul(Mul(q, x), g), Mul(r, x);
    assert Mul(Add(Mul(p, x), d), w) == Add(Add(a, b), Mul(d, w));
    AddLaws(a, b, Mul(d, w));
    AddLaws(a, Mul(f, g), r');
    MulAdd(g, Mul(q, x), f);
  }

  /** Every codeword vanishes at a^0, ..., a^(n-1). */
  lemma CodewordHasZeroSyndromes(data: Poly, n: nat)
    requires n > 0
    ensures ZeroSyndromes(Codeword(data, n), n)
  {
    hide Eval, Mul, Add, Pow, Remainder, Generator;
    forall j: nat | j < n ensures Eval(Codeword(data, n), Pow(j)) == 0 {
      var x := Pow(j);
      EvalConcat(data, Remainder(data, n), x);
      DivisionIdentity(data, n, x);
      GeneratorRoots(n, x);
      MulUnit(Eval(Quotient(data, n), x));
      AddLaws(Eval(Remainder(data, n), x), Eval(Remainder(data, n), x), 0);
    }
  }

  // ---- distance

  lemma DifferenceSyndromes(u: Poly, v: Poly, n: nat)
    requires |u| == |v| && ZeroSyndromes(u, n) && ZeroSyndromes(v, n)
    ensures ZeroSyndromes(Plus(u, v), n)
  {
    hide Eval, Pow, Add, Plus;
    forall j: nat | j < n ensures Eval(Plus(u, v), Pow(j)) == 0 {
      EvalPlus(u, v, Pow(j));
      AddLaws(0, 0, 0);
    }
  }

  /** Two different words of at most 255 bytes with n zero syndromes differ in more than n places. */
  lemma ZeroSyndromesFarApart(u: Poly, v: Poly, n: nat)
    requires |u| == |v| <= 255 && u != v && ZeroSyndromes(u, n) && ZeroSyndromes(v, n)
    ensures Distance(u, v) > n
  {
    hide Eval, Pow, Plus, Weight, Distance;
    DifferenceSyndromes(u, v, n);
    DistanceIsWeight(u, v);
    NonzeroWeight(Plus(u, v), n);
  }

  /** The remainder is the only check block of n bytes that makes every syndrome vanish. */
  lemma RemainderIsUnique(data: Poly, n: nat, r: Poly)
    requires 0 < n <= 255 && |r| == n
    ensures ZeroSyndromes(data + r, n) <==> r == Remainder(data, n)
  {
    CodewordHasZeroSyndromes(data, n);
    var e := Remainder(data, n);
    if ZeroSyndromes(data + r, n) && r != e {
      hide Eval, Pow, Plus, Weight, Distance, Remainder;
      forall j: nat | j < n ensures Eval(Plus(r, e), Pow(j)) == 0 {
        var x := Pow(j);
        assert Eval(data + r, x) == 0 && Eval(data + e, x) == 0;
        EvalConcat(data, r, x);
        EvalConcat(data, e, x);
        EvalPlus(r, e, x);
        var a := Mul(Eval(data, x), Raise(x, n));
        AddLaws(a, Eval(r, x), 0);
        AddLaws(a, Eval(e, x), 0);
        AddLaws(Eval(r, x), Eval(e, x), 0);
      }
      NonzeroWeight(Plus(r, e), n);
      DistanceIsWeight(r, e);
      DistanceAtMost(r, e);
    }
  }

  lemma {:induction false} DistanceAtMost(u: Poly, v: Poly)
    requires |u| == |v|
    ensures Distance(u, v) <= |u|
  {
    if u != [] { DistanceAtMost(u[1..], v[1..]); }
  }

  /** Codewords of different data differ in at least n + 1 of their k + n bytes. */
  lemma CodeDistance(a: Poly, b: Poly, n: nat)
    requires n > 0 && |a| == |b| && |a| + n <= 255 && a != b
    ensures Distance(Codeword(a, n), Codeword(b, n)) >= n + 1
  {
    CodewordHasZeroSyndromes(a, n);
    CodewordHasZeroSyndromes(b, n);
    assert Codeword(a, n)[..|a|] == a && Codeword(b, n)[..|b|] == b;
    hide *;
    ZeroSyndromesFarApart(Codeword(a, n), Codeword(b, n), n);
  }

  /** A word with at most n/2 damaged bytes is closer to its own codeword than to any other. */
  lemma DamageIsCorrectable(data: Poly, other: Poly, word: Poly, n: nat)
    requires n > 0 && |data| == |other| && |data| + n <= 255 && |word| == |data| + n
    requires 2 * Distance(Codeword(data, n), word) <= n && other != data
    ensures Distance(Codeword(data, n), word) < Distance(Codeword(other, n), word)
  {
    hide *;
    CodeDistance(data, other, n);
    DistanceTriangle(Codeword(data, n), word, Codeword(other, n));
    DistanceSymmetric(word, Codeword(other, n));
  }

  // ---- the methods

  method RsGenerator(t: Tables, n: nat) returns (g: array<Byte>)
    requires t.Valid() && n <= 512
    ensures g[..] == Generator(n)
    ensures fresh(g)
  {
    hide Mul, Add, Pow, TimesRoot;
    g := new Byte[1](_ => 1);
    for i := 0 to n
      invariant fresh(g) && g[..] == Generator(i)
    {
      g := NextGenerator(t, g, i);
    }
  }

  /** The body of the generator's loop: `next` gains c at j and c a^i at j + 1, for every c at j. */
  method NextGenerator(t: Tables, g: array<Byte>, i: nat) returns (next: array<Byte>)
    requires t.Valid() && i < 512 && g.Length > 0
    ensures next[..] == TimesRoot(g[..], Pow(i))
    ensures fresh(next)
  {
    hide Mul, Add, Pow, TimesRoot;
    var root := t.exp[i];
    next := new Byte[g.Length + 1](_ => 0);
    for j := 0 to g.Length
      invariant forall k :: 0 <= k < j ==> next[k] == TimesRoot(g[..], root)[k]
      invariant next[j] == if j == 0 then 0 else Mul(g[j - 1], root)
      invariant forall k :: j < k < next.Length ==> next[k] == 0
    {
      var c := g[j];
      TimesRootAt(g[..], root, j);
      next[j] := Add(next[j], c);
      AddLaws(Mul(c, root), 0, 0);
      next[j + 1] := Add(next[j + 1], t.GfMul(c, root));
    }
    TimesRootAt(g[..], root, g.Length);
    AddLaws(next[g.Length], 0, 0);
    assert next[..] == TimesRoot(g[..], root);
  }

  method RsEncode(t: Tables, data: seq<Byte>, n: nat) returns (rem: array<Byte>)
    requires t.Valid() && 0 < n <= 512
    ensures rem[..] == Remainder(data, n)
    ensures fresh(rem)
  {
    hide Mul, Add, Pow, Generator, Divide;
    var g := RsGenerator(t, n);
    rem := new Byte[n](_ => 0);
    assert rem[..] == Remainder([], n);
    for i := 0 to |data|
      invariant g[..] == Generator(n)
      invariant rem[..] == Remainder(data[..i], n)
    {
      DivideInPlace(t, rem, g, data[i]);
      assert data[..i + 1][..i] == data[..i];
    }
    assert data[..|data|] == data;
  }

  /** The body of the encoder's loop: shift the remainder and subtract a multiple of the generator. */
  method DivideInPlace(t: Tables, rem: array<Byte>, g: array<Byte>, d: Byte)
    requires t.Valid() && rem.Length > 0 && g.Length == rem.Length + 1
    requires rem != g && rem != t.exp && rem != t.log
    modifies rem
    ensures rem[..] == Divide(old(rem[..]), d, g[..])
  {
    hide Mul, Add, Pow, Divide;
    var factor := Add(d, rem[0]);
    forall k | 0 <= k < rem.Length - 1 {
      rem[k] := rem[k + 1];
    }
    rem[rem.Length - 1] := 0;
    ghost var shifted := rem[..];
    assert shifted == old(rem[..])[1..] + [0];
    for k := 0 to rem.Length
      invariant forall m :: 0 <= m < k ==> rem[m] == Add(shifted[m], Mul(g[m + 1], factor))
      invariant forall m :: k <= m < rem.Length ==> rem[m] == shifted[m]
    {
      rem[k] := Add(rem[k], t.GfMul(g[k + 1], factor));
    }
    forall k | 0 <= k < rem.Length ensures rem[k] == Divide(old(rem[..]), d, g[..])[k] {
      DivideAt(old(rem[..]), d, g[..], k);
    }
    assert rem[..] == Divide(old(rem[..]), d, g[..]);
  }

  lemma DivideAt(rem: Poly, d: Byte, g: Poly, k: nat)
    requires |g| == |rem| + 1 && k < |rem|
    ensures Divide(rem, d, g)[k] == Add((rem[1..] + [0])[k], Mul(g[k + 1], Add(d, rem[0])))
  {
    hide Mul, Add;
  }
}
