/** The anti-replay window of a guest session: a high-water mark and 64 bits behind it, which
    together stand for the set of all counters accepted so far. */
module ReplayWindow {
  import opened Bits

  const WIDTH := 64
  const MAX_SEQ: nat := 0xFFFF_FFFF_FFFF_FFFF

  // ---- shifts and bits of a machine word

  /** The n lowest bits of x: what a word of n bits keeps. */
  function Low(x: nat, n: nat): (r: nat)
    ensures r < Pow2(n)
  {
    if n == 0 then 0 else 2 * Low(x / 2, n - 1) + x % 2
  }

  /** A left shift on 64 bits. */
  function ShiftLeft(x: nat, s: nat): nat { Low(x * Pow2(s), WIDTH) }

  lemma {:induction false} LowBit(x: nat, n: nat, k: nat)
    ensures Bit(Low(x, n), k) <==> k < n && Bit(x, k)
    decreases n
  {
    if n == 0 {
      ZeroBits(k);
    } else {
      Halved(Low(x / 2, n - 1), x % 2);
      if k > 0 { LowBit(x / 2, n - 1, k - 1); }
    }
  }

  lemma {:induction false} ZeroBits(k: nat)
    ensures !Bit(0, k)
  {
    if k > 0 { ZeroBits(k - 1); }
  }

  lemma {:induction false} TimesPowerBit(x: nat, s: nat, k: nat)
    ensures Bit(x * Pow2(s), k) <==> k >= s && Bit(x, k - s)
    decreases s
  {
    if s == 0 {
      assert x * Pow2(0) == x;
    } else {
      var y := x * Pow2(s - 1);
      assert x * Pow2(s) == 2 * y;
      Halved(y, 0);
      if k > 0 { TimesPowerBit(x, s - 1, k - 1); }
    }
  }

  lemma ShiftBit(x: nat, s: nat, k: nat)
    requires k < WIDTH
    ensures Bit(ShiftLeft(x, s), k) <==> k >= s && Bit(x, k - s)
  {
    hide *;
    LowBit(x * Pow2(s), WIDTH, k);
    TimesPowerBit(x, s, k);
    assert ShiftLeft(x, s) == Low(x * Pow2(s), WIDTH) by { ShiftIs(x, s); }
  }

  lemma ShiftIs(x: nat, s: nat)
    ensures ShiftLeft(x, s) == Low(x * Pow2(s), WIDTH)
  {
  }

  lemma {:induction false} SetBitBit(x: nat, j: nat, k: nat)
    ensures Bit(SetBit(x, j), k) <==> k == j || Bit(x, k)
    decreases j
  {
    if !Bit(x, j) {
      if j == 0 {
        assert (x + 1) / 2 == x / 2 && (x + 1) % 2 == 1;
      } else {
        assert (x + Pow2(j)) / 2 == x / 2 + Pow2(j - 1) && (x + Pow2(j)) % 2 == x % 2;
        if k > 0 { SetBitBit(x / 2, j - 1, k - 1); }
      }
    }
  }

  lemma {:induction false} SetBitFits(x: nat, j: nat, n: nat)
    requires x < Pow2(n) && j < n
    ensures SetBit(x, j) < Pow2(n)
    decreases j
  {
    hide *;
    SetBitUnfolds(x, j);
    PowUnfolds(n);
    if !Bit(x, j) {
      if j == 0 {
        EvenFits(x, Pow2(n - 1));
      } else {
        PowUnfolds(j);
        HalfBelow(x, Pow2(n - 1));
        SetBitFits(x / 2, j - 1, n - 1);
        SetBitUnfolds(x / 2, j - 1);
        DoubleFits(x, Pow2(j - 1), Pow2(n - 1));
      }
    }
  }

  lemma PowUnfolds(n: nat)
    ensures n > 0 ==> Pow2(n) == 2 * Pow2(n - 1)
  {
  }

  lemma EvenFits(x: nat, p: nat)
    requires x < 2 * p && x % 2 == 0
    ensures x + 1 < 2 * p
  {
  }

  lemma HalfBelow(x: nat, p: nat)
    requires x < 2 * p
    ensures x / 2 < p
  {
  }

  lemma DoubleFits(x: nat, w: nat, p: nat)
    requires x / 2 + w < p
    ensures x + 2 * w < 2 * p
  {
  }

  lemma SetBitUnfolds(x: nat, j: nat)
    ensures SetBit(x, j) == if Bit(x, j) then x else x + Pow2(j)
    ensures j == 0 ==> Pow2(j) == 1 && (Bit(x, j) || x % 2 == 0)
    ensures j > 0 ==> (Bit(x, j) <==> Bit(x / 2, j - 1))
  {
  }

  /** Bit k after the window has moved by `shift` and its newest bit is set. */
  lemma ShiftedBit(bits: nat, shift: nat, k: nat)
    requires 0 < shift && k < WIDTH
    ensures Bit(SetBit(if shift >= WIDTH then 0 else ShiftLeft(bits, shift), 0), k)
       <==> k == 0 || (k >= shift && Bit(bits, k - shift))
  {
    hide Bit, SetBit, ShiftLeft, Low;
    SetBitBit(if shift >= WIDTH then 0 else ShiftLeft(bits, shift), 0, k);
    if shift >= WIDTH { ZeroBits(k); } else { ShiftBit(bits, shift, k); }
  }

  // ---- the specification: a set of accepted counters

  /** A counter is fresh if it is not zero, was not accepted before, and trails no accepted
      counter by 64 or more. */
  ghost predicate Fresh(seen: set<nat>, n: nat)
  {
    n != 0 && n !in seen && forall q :: q in seen ==> q < n + WIDTH
  }

  ghost function Accepted(seqs: seq<nat>): set<nat>
  {
    if seqs == [] then {}
    else
      var seen, n := Accepted(seqs[..|seqs| - 1]), seqs[|seqs| - 1];
      if Fresh(seen, n) then seen + {n} else seen
  }

  /** Whether the i-th counter of a run is accepted. */
  ghost predicate AcceptedAt(seqs: seq<nat>, i: nat)
    requires i < |seqs|
  {
    Fresh(Accepted(seqs[..i]), seqs[i])
  }

  lemma {:induction false} AcceptedMembers(seqs: seq<nat>, n: nat)
    ensures n in Accepted(seqs) <==> exists i :: 0 <= i < |seqs| && seqs[i] == n && AcceptedAt(seqs, i)
    decreases |seqs|
  {
    if seqs != [] {
      var h, last := seqs[..|seqs| - 1], |seqs| - 1;
      AcceptedMembers(h, n);
      forall i | 0 <= i < last ensures AcceptedAt(h, i) <==> AcceptedAt(seqs, i) {
        assert h[..i] == seqs[..i];
      }
      if n in Accepted(h) {
        var i :| 0 <= i < |h| && h[i] == n && AcceptedAt(h, i);
        assert seqs[i] == n && AcceptedAt(seqs, i);
      }
      if i :| 0 <= i < |seqs| && seqs[i] == n && AcceptedAt(seqs, i) {
        if i < last { assert h[i] == n && AcceptedAt(h, i); }
      }
    }
  }

  /** No counter is ever accepted twice. */
  lemma NeverTwice(seqs: seq<nat>, i: nat, j: nat)
    requires i < j < |seqs| && seqs[i] == seqs[j] && AcceptedAt(seqs, i)
    ensures !AcceptedAt(seqs, j)
  {
    assert seqs[..j][..i] == seqs[..i];
    assert AcceptedAt(seqs[..j], i);
    AcceptedMembers(seqs[..j], seqs[j]);
  }

  /** If no counter trails an earlier one by 64 or more, exactly the first copies of nonzero
      counters are accepted, however the run is ordered. */
  lemma MildReordering(seqs: seq<nat>, j: nat)
    requires forall a, b :: 0 <= a < b < |seqs| ==> seqs[a] < seqs[b] + WIDTH
    requires j < |seqs|
    ensures AcceptedAt(seqs, j) <==> seqs[j] != 0 && seqs[j] !in seqs[..j]
    decreases j
  {
    var before, n := seqs[..j], seqs[j];
    forall q | q in Accepted(before) ensures q < n + WIDTH && q in before {
      AcceptedMembers(before, q);
    }
    if n in before && n != 0 {
      var i := FirstCopy(before, n);
      assert before[..i] == seqs[..i] && seqs[i] == n;
      MildReordering(seqs, i);
      NeverTwice(seqs, i, j);
    }
  }

  lemma {:induction false} FirstCopy(s: seq<nat>, n: nat) returns (i: nat)
    requires n in s
    ensures i < |s| && s[i] == n && n !in s[..i]
  {
    i := 0;
    while s[i] != n
      invariant i < |s| && n !in s[..i] && n in s[i..]
      decreases |s| - i
    {
      assert s[i..] == [s[i]] + s[i + 1..];
      assert s[..i + 1] == s[..i] + [s[i]];
      i := i + 1;
    }
  }

  lemma AcceptedSnoc(seqs: seq<nat>, n: nat)
    ensures AcceptedAt(seqs + [n], |seqs|) <==> Fresh(Accepted(seqs), n)
    ensures Accepted(seqs + [n]) == if Fresh(Accepted(seqs), n) then Accepted(seqs) + {n} else Accepted(seqs)
  {
    assert (seqs + [n])[..|seqs|] == seqs;
  }

  // ---- the window

  class Window {
    var max: nat
    var bits: nat
    ghost var history: seq<nat>
    ghost var seen: set<nat>

    /** `history` lists every counter presented and `seen` holds those accepted. The mark is the
        largest of them, and bit k tells about the counter k behind it. */
    ghost predicate Valid()
      reads this
    {
      && max <= MAX_SEQ && bits < Pow2(WIDTH)
      && seen == Accepted(history)
      && (forall q :: q in seen ==> 0 < q <= max)
      && (max > 0 ==> max in seen)
      && (forall k: nat :: k < WIDTH ==> (Bit(bits, k) <==> k <= max && max - k in seen))
    }

    constructor ()
      ensures Valid() && history == [] && seen == {}
    {
      max, bits, history, seen := 0, 0, [], {};
      new;
      forall k: nat ensures !Bit(0, k) { ZeroBits(k); }
    }

    method Accept(n: nat) returns (ok: bool)
      requires Valid() && n <= MAX_SEQ
      modifies this
      ensures Valid()
      ensures history == old(history) + [n]
      ensures ok <==> AcceptedAt(history, |old(history)|)
      ensures ok <==> Fresh(old(seen), n)
      ensures seen == if ok then old(seen) + {n} else old(seen)
    {
      hide Bit, SetBit, Low, Pow2;
      AcceptedSnoc(history, n);
      history := history + [n];
      if n == 0 {
        return false;
      }
      if n > max {
        var shift := n - max;
        if shift >= WIDTH {
          bits := 0;
        } else {
          bits := ShiftLeft(bits, shift);
        }
        SetBitFits(bits, 0, WIDTH);
        bits := SetBit(bits, 0);
        forall k: nat | k < WIDTH
          ensures Bit(bits, k) <==> k == 0 || (k >= shift && Bit(old(bits), k - shift))
        {
          ShiftedBit(old(bits), shift, k);
        }
        max := n;
        seen := seen + {n};
        return true;
      }
      var behind := max - n;
      if behind >= WIDTH {
        return false;
      }
      if Bit(bits, behind) {
        return false;
      }
      forall k: nat ensures Bit(SetBit(bits, behind), k) <==> k == behind || Bit(bits, k) {
        SetBitBit(bits, behind, k);
      }
      SetBitFits(bits, behind, WIDTH);
      bits := SetBit(bits, behind);
      seen := seen + {n};
      return true;
    }
  }
}
