/** The function patterns: which area each module of a symbol belongs to, and how they are laid. */
module QrLayout {
  import opened Bits
  import opened QrVersions

  datatype Area = Finder | Timing | Alignment | DarkModule | Format | VersionInfo | Data

  // ---- the areas, section 6.3 of ISO/IEC 18004:2015

  function Abs(x: int): nat { if x < 0 then -x else x }

  /** Chebyshev distance: the number of the square ring around a centre. */
  function Ring(dr: int, dc: int): nat { if Abs(dr) > Abs(dc) then Abs(dr) else Abs(dc) }

  predicate InFinder(s: nat, r: nat, c: nat)
  {
    (r <= 7 && c <= 7) || (r <= 7 && c + 8 >= s) || (r + 8 >= s && c <= 7)
  }

  /** Which alignment coordinate beyond the first lies within two modules of x; 0 if none. */
  function CentreIndex(al: seq<nat>, x: nat): (k: nat)
    ensures k > 0 ==> k < |al|
  {
    if |al| > 1 && Abs(x - al[1]) <= 2 then 1
    else if |al| > 2 && Abs(x - al[2]) <= 2 then 2
    else 0
  }

  predicate InFormat(s: nat, r: nat, c: nat)
  {
    (r == 8 && (c <= 8 || c + 8 >= s)) || (c == 8 && (r <= 8 || r + 8 >= s))
  }

  predicate InVersionInfo(s: nat, r: nat, c: nat)
  {
    r < 6 && s <= c + 11 && c + 9 <= s
  }

  function AreaOf(v: VersionNumber, r: nat, c: nat): Area
  {
    var s, al := Size(v), Spec(v).alignment;
    if InFinder(s, r, c) then Finder
    else if r == 6 || c == 6 then Timing
    else if CentreIndex(al, r) > 0 && CentreIndex(al, c) > 0 then Alignment
    else if r + 8 == s && c == 8 then DarkModule
    else if InFormat(s, r, c) then Format
    else if v >= 7 && (InVersionInfo(s, r, c) || InVersionInfo(s, c, r)) then VersionInfo
    else Data
  }

  predicate Reserved(v: VersionNumber, r: nat, c: nat) { AreaOf(v, r, c) != Data }

  function VersionInfoWord(v: VersionNumber): nat
  {
    if v == 7 then 0x07C94 else if v == 8 then 0x085BC else if v == 9 then 0x09A99 else 0x0A4D3
  }

  /** The colour of a function module; format modules are light until a mask is chosen. */
  predicate Dark(v: VersionNumber, r: nat, c: nat)
  {
    var s, al := Size(v), Spec(v).alignment;
    match AreaOf(v, r, c)
    case Finder =>
      var d := Ring(r - (if r <= 7 then 3 else s - 4), c - (if c <= 7 then 3 else s - 4));
      d != 2 && d != 4
    case Timing => (r + c) % 2 == 0
    case Alignment => Ring(r - al[CentreIndex(al, r)], c - al[CentreIndex(al, c)]) != 1
    case DarkModule => true
    case VersionInfo =>
      Bit(VersionInfoWord(v), InfoIndex(s, r, c))
    case _ => false
  }

  /** The order in which the areas are laid. */
  function Rank(a: Area): nat
  {
    match a
    case Finder => 1
    case Timing => 2
    case Alignment => 3
    case DarkModule => 4
    case Format => 5
    case VersionInfo => 6
    case Data => 7
  }

  function RankOf(v: VersionNumber, r: nat, c: nat): nat { Rank(AreaOf(v, r, c)) }

  ghost predicate GoodCentres(v: VersionNumber)
  {
    var s, al := Size(v), Spec(v).alignment;
    && |al| <= 3 && |al| != 1
    && (|al| > 0 ==> al[0] == 6 && al[|al| - 1] == s - 7)
    && (|al| > 1 ==> 16 <= al[1])
    && (|al| > 2 ==> al[1] + 16 <= al[2])
    && (v >= 7 ==> |al| == 3)
    && (v > 1 ==> |al| >= 2)
  }

  lemma CentresGood(v: VersionNumber)
    ensures GoodCentres(v)
  {
  }

  // ---- laying the patterns

  class Canvas {
    const size: nat
    const modules: array2<bool>
    const reserved: array2<bool>

    ghost predicate Valid()
    {
      && modules.Length0 == modules.Length1 == reserved.Length0 == reserved.Length1 == size
      && modules != reserved
    }

    constructor (n: nat)
      ensures Valid() && size == n && fresh(modules) && fresh(reserved)
      ensures forall r, c :: 0 <= r < size && 0 <= c < size ==> !modules[r, c]
      ensures forall r, c :: 0 <= r < size && 0 <= c < size ==> !reserved[r, c]
    {
      size := n;
      modules := new bool[n, n]((_, _) => false);
      reserved := new bool[n, n]((_, _) => false);
    }

    method Set(r: nat, c: nat, dark: bool)
      requires Valid() && r < size && c < size
      modifies modules, reserved
      ensures forall i, j :: 0 <= i < size && 0 <= j < size ==>
                modules[i, j] == if i == r && j == c then dark else old(modules[i, j])
      ensures forall i, j :: 0 <= i < size && 0 <= j < size ==>
                reserved[i, j] == ((i == r && j == c) || old(reserved[i, j]))
    {
      modules[r, c] := dark;
      reserved[r, c] := true;
    }

    /** Exactly the areas up to rank k are laid, in their final colours. */
    ghost predicate Laid(v: VersionNumber, k: nat)
      requires Valid()
      reads modules, reserved
    {
      && (forall r, c :: 0 <= r < size && 0 <= c < size ==> (reserved[r, c] <==> RankOf(v, r, c) <= k))
      && (forall r, c :: 0 <= r < size && 0 <= c < size ==>
            (modules[r, c] <==> RankOf(v, r, c) <= k && Dark(v, r, c)))
    }

    /** One finder pattern with its separator, clipped at the edges. */
    method PlaceFinder(pr: nat, pc: nat)
      requires Valid() && pr + 7 <= size && pc + 7 <= size
      modifies modules, reserved
      ensures forall r, c :: 0 <= r < size && 0 <= c < size ==>
                modules[r, c] == if -1 <= r - pr <= 7 && -1 <= c - pc <= 7 then FinderDark(r - pr, c - pc)
                                 else old(modules[r, c])
      ensures forall r, c :: 0 <= r < size && 0 <= c < size ==>
                reserved[r, c] == ((-1 <= r - pr <= 7 && -1 <= c - pc <= 7) || old(reserved[r, c]))
    {
      for dr := -1 to 8
        invariant forall r, c :: 0 <= r < size && 0 <= c < size ==>
                    modules[r, c] == if -1 <= r - pr < dr && -1 <= c - pc <= 7 then FinderDark(r - pr, c - pc)
                                     else old(modules[r, c])
        invariant forall r, c :: 0 <= r < size && 0 <= c < size ==>
                    reserved[r, c] == ((-1 <= r - pr < dr && -1 <= c - pc <= 7) || old(reserved[r, c]))
      {
        PlaceFinderRow(pr, pc, dr);
      }
    }

    method PlaceFinderRow(pr: nat, pc: nat, dr: int)
      requires Valid() && pr + 7 <= size && pc + 7 <= size && -1 <= dr <= 7
      modifies modules, reserved
      ensures forall r, c :: 0 <= r < size && 0 <= c < size ==>
                modules[r, c] == if r - pr == dr && -1 <= c - pc <= 7 then FinderDark(dr, c - pc)
                                 else old(modules[r, c])
      ensures forall r, c :: 0 <= r < size && 0 <= c < size ==>
                reserved[r, c] == ((r - pr == dr && -1 <= c - pc <= 7) || old(reserved[r, c]))
    {
      for dc := -1 to 8
        invariant forall r, c :: 0 <= r < size && 0 <= c < size ==>
                    modules[r, c] == if r - pr == dr && -1 <= c - pc < dc then FinderDark(dr, c - pc)
                                     else old(modules[r, c])
        invariant forall r, c :: 0 <= r < size && 0 <= c < size ==>
                    reserved[r, c] == ((r - pr == dr && -1 <= c - pc < dc) || old(reserved[r, c]))
      {
        var r, c := pr + dr, pc + dc;
        if r < 0 || r >= size || c < 0 || c >= size {
          continue;
        }
        Set(r, c, FinderDark(dr, dc));
      }
    }

    method PlaceFinders(v: VersionNumber)
      requires Valid() && size == Size(v) && Laid(v, 0)
      modifies modules, reserved
      ensures Laid(v, 1)
    {
      hide RankOf, Dark, Rank, AreaOf, FinderDark;
      PlaceFinder(0, 0);
      PlaceFinder(0, size - 7);
      PlaceFinder(size - 7, 0);
      forall r, c | 0 <= r < size && 0 <= c < size
        ensures reserved[r, c] <==> RankOf(v, r, c) <= 1
        ensures modules[r, c] <==> RankOf(v, r, c) <= 1 && Dark(v, r, c)
      {
        FinderAt(v, r, c);
      }
    }

    method PlaceTiming(v: VersionNumber)
      requires Valid() && size == Size(v) && Laid(v, 1)
      modifies modules, reserved
      ensures Laid(v, 2)
    {
      hide CentreIndex, Spec;
      for i := 8 to size - 8
        invariant forall r, c :: 0 <= r < size && 0 <= c < size ==>
                    (reserved[r, c] <==> RankOf(v, r, c) <= (if (r == 6 && c < i) || (c == 6 && r < i) then 2 else 1))
        invariant forall r, c :: 0 <= r < size && 0 <= c < size ==> (modules[r, c] <==> reserved[r, c] && Dark(v, r, c))
      {
        if !reserved[6, i] {
          Set(6, i, i % 2 == 0);
        }
        if !reserved[i, 6] {
          Set(i, 6, i % 2 == 0);
        }
      }
    }

    /** One alignment pattern. */
    method PlaceSquare(ar: nat, ac: nat)
      requires Valid() && 2 <= ar && ar + 3 <= size && 2 <= ac && ac + 3 <= size
      modifies modules, reserved
      ensures forall r, c :: 0 <= r < size && 0 <= c < size ==>
                modules[r, c] == if Abs(r - ar) <= 2 && Abs(c - ac) <= 2 then SquareDark(r - ar, c - ac)
                                 else old(modules[r, c])
      ensures forall r, c :: 0 <= r < size && 0 <= c < size ==>
                reserved[r, c] == ((Abs(r - ar) <= 2 && Abs(c - ac) <= 2) || old(reserved[r, c]))
    {
      for dr := -2 to 3
        invariant forall r, c :: 0 <= r < size && 0 <= c < size ==>
                    modules[r, c] == if -2 <= r - ar < dr && -2 <= c - ac <= 2 then SquareDark(r - ar, c - ac)
                                     else old(modules[r, c])
        invariant forall r, c :: 0 <= r < size && 0 <= c < size ==>
                    reserved[r, c] == ((-2 <= r - ar < dr && -2 <= c - ac <= 2) || old(reserved[r, c]))
      {
        PlaceSquareRow(ar, ac, dr);
      }
    }

    method PlaceSquareRow(ar: nat, ac: nat, dr: int)
      requires Valid() && 2 <= ar && ar + 3 <= size && 2 <= ac && ac + 3 <= size && -2 <= dr <= 2
      modifies modules, reserved
      ensures forall r, c :: 0 <= r < size && 0 <= c < size ==>
                modules[r, c] == if r - ar == dr && -2 <= c - ac <= 2 then SquareDark(dr, c - ac)
                                 else old(modules[r, c])
      ensures forall r, c :: 0 <= r < size && 0 <= c < size ==>
                reserved[r, c] == ((r - ar == dr && -2 <= c - ac <= 2) || old(reserved[r, c]))
    {
      for dc := -2 to 3
        invariant forall r, c :: 0 <= r < size && 0 <= c < size ==>
                    modules[r, c] == if r - ar == dr && -2 <= c - ac < dc then SquareDark(dr, c - ac)
                                     else old(modules[r, c])
        invariant forall r, c :: 0 <= r < size && 0 <= c < size ==>
                    reserved[r, c] == ((r - ar == dr && -2 <= c - ac < dc) || old(reserved[r, c]))
      {
        Set(ar + dr, ac + dc, SquareDark(dr, dc));
      }
    }

    /** Laid up to the timing patterns, and the alignment patterns of the pairs before (i, j). */
    ghost predicate Aligned(v: VersionNumber, i: nat, j: nat)
      requires Valid()
      reads modules, reserved
    {
      && (forall r, c :: 0 <= r < size && 0 <= c < size ==>
            (reserved[r, c] <==> RankOf(v, r, c) <= (if PairBefore(v, r, c, i, j) then 3 else 2)))
      && (forall r, c :: 0 <= r < size && 0 <= c < size ==> (modules[r, c] <==> reserved[r, c] && Dark(v, r, c)))
    }

    method PlaceAlignment(v: VersionNumber)
      requires Valid() && size == Size(v) && Laid(v, 2)
      modifies modules, reserved
      ensures Laid(v, 3)
    {
      hide Spec, Dark, AreaOf;
      CentresGood(v);
      var al := Spec(v).alignment;
      for i := 0 to |al|
        invariant Aligned(v, i, 0)
      {
        for j := 0 to |al|
          invariant Aligned(v, i, j)
        {
          PlacePair(v, i, j);
        }
        RowOfPairs(v, i);
      }
      LastPair(v);
    }

    method PlaceDarkModule(v: VersionNumber)
      requires Valid() && size == Size(v) && Laid(v, 3)
      modifies modules, reserved
      ensures Laid(v, 4)
    {
      CentresGood(v);
      hide Spec;
      Set(size - 8, 8, true);
    }

    /** The format areas, whose modules stay light here; those already claimed are skipped. */
    method ReserveFormat(v: VersionNumber)
      requires Valid() && size == Size(v) && Laid(v, 4)
      modifies modules, reserved
      ensures Laid(v, 5)
    {
      hide Spec, AreaOf, Dark, Rank;
      FormatModules(v);
      for i := 0 to 9
        invariant Formatted(v, i, 0)
      {
        ClaimFormat(8, i);
        ClaimFormat(i, 8);
        assert Formatted(v, i + 1, 0);
      }
      for i := 0 to 8
        invariant Formatted(v, 9, i)
      {
        ClaimFormat(8, size - 1 - i);
        ClaimFormat(size - 1 - i, 8);
        assert Formatted(v, 9, i + 1);
      }
    }

    method ClaimFormat(r: nat, c: nat)
      requires Valid() && r < size && c < size
      modifies modules, reserved
      ensures forall i, j :: 0 <= i < size && 0 <= j < size ==>
                modules[i, j] == (old(modules[i, j]) && !(i == r && j == c && !old(reserved[i, j])))
      ensures forall i, j :: 0 <= i < size && 0 <= j < size ==>
                reserved[i, j] == ((i == r && j == c) || old(reserved[i, j]))
    {
      if !reserved[r, c] {
        Set(r, c, false);
      }
    }

    /** Laid up to the dark module, plus the format modules among the first `near` of the lines
        through the corner and the last `far` of the other two. */
    ghost predicate Formatted(v: VersionNumber, near: nat, far: nat)
      requires Valid()
      reads modules, reserved
    {
      && (forall r, c :: 0 <= r < size && 0 <= c < size ==>
            (reserved[r, c] <==> RankOf(v, r, c) <= (if FormatDone(size, r, c, near, far) then 5 else 4)))
      && (forall r, c :: 0 <= r < size && 0 <= c < size ==> (modules[r, c] <==> reserved[r, c] && Dark(v, r, c)))
    }

    method PlaceVersionInfo(v: VersionNumber)
      requires Valid() && size == Size(v) && Laid(v, 5)
      modifies modules, reserved
      ensures Laid(v, 6)
    {
      hide Spec;
      if v < 7 {
        return;
      }
      var info := VersionInfoWord(v);
      for i := 0 to 18
        invariant Informed(v, i)
      {
        PlaceInfoBit(v, i, Bit(info, i));
      }
    }

    /** Laid up to the format areas, plus the first i version modules of each block. */
    ghost predicate Informed(v: VersionNumber, i: nat)
      requires Valid()
      reads modules, reserved
    {
      && (forall r, c :: 0 <= r < size && 0 <= c < size ==>
            (reserved[r, c] <==> RankOf(v, r, c) <= (if InfoIndex(size, r, c) < i then 6 else 5)))
      && (forall r, c :: 0 <= r < size && 0 <= c < size ==> (modules[r, c] <==> reserved[r, c] && Dark(v, r, c)))
    }

    method PlaceInfoBit(v: VersionNumber, i: nat, dark: bool)
      requires Valid() && size == Size(v) && v >= 7 && i < 18
      requires Informed(v, i) && dark == Bit(VersionInfoWord(v), i)
      modifies modules, reserved
      ensures Informed(v, i + 1)
    {
      var r, c := i / 3, size - 11 + i % 3;
      InfoModules(v, i);
      hide Spec, Bit, AreaOf, Dark, Rank, RankOf, InfoIndex, Size, VersionInfoWord, InfoAdded;
      forall x: nat, y: nat | x < size && y < size ensures InfoAdded(v, i, r, c, x, y) { InfoStep(v, i, x, y); }
      ClaimInfo(v, i, r, c, dark);
    }

    method ClaimInfo(v: VersionNumber, i: nat, r: nat, c: nat, dark: bool)
      requires Valid() && size == Size(v) && r < size && c < size && Informed(v, i)
      requires dark == Dark(v, r, c) == Dark(v, c, r)
      requires forall x: nat, y: nat :: x < size && y < size ==> InfoAdded(v, i, r, c, x, y)
      modifies modules, reserved
      ensures Informed(v, i + 1)
    {
      hide Dark, RankOf, InfoIndex, Size, InfoAdded;
      SetMirrored(r, c, dark);
      forall x, y | 0 <= x < size && 0 <= y < size
        ensures reserved[x, y] <==> RankOf(v, x, y) <= (if InfoIndex(size, x, y) < i + 1 then 6 else 5)
        ensures modules[x, y] <==> reserved[x, y] && Dark(v, x, y)
      {
        InfoAddedIs(v, i, r, c, x, y);
      }
    }

    method SetMirrored(r: nat, c: nat, dark: bool)
      requires Valid() && r < size && c < size
      modifies modules, reserved
      ensures forall i, j :: 0 <= i < size && 0 <= j < size ==>
                modules[i, j] == if (i == r && j == c) || (i == c && j == r) then dark else old(modules[i, j])
      ensures forall i, j :: 0 <= i < size && 0 <= j < size ==>
                reserved[i, j] == ((i == r && j == c) || (i == c && j == r) || old(reserved[i, j]))
    {
      Set(r, c, dark);
      Set(c, r, dark);
    }

    method PlacePair(v: VersionNumber, i: nat, j: nat)
      requires Valid() && size == Size(v)
      requires i < |Spec(v).alignment| && j < |Spec(v).alignment| && Aligned(v, i, j)
      modifies modules, reserved
      ensures Aligned(v, i, j + 1)
    {
      hide Spec, Dark, AreaOf, CentreIndex, SquareDark, Abs, Rank, Ring;
      var al := Spec(v).alignment;
      TimingAtCentre(v, i, j);
      NextPair(v, i, j);
      if reserved[al[i], al[j]] {
        return;
      }
      SquareColours(v, i, j);
      PlaceSquare(al[i], al[j]);
    }
  }

  predicate FormatDone(s: nat, r: nat, c: nat, near: nat, far: nat)
  {
    (r == 8 && (c < near || c + far >= s)) || (c == 8 && (r < near || r + far >= s))
  }

  /** Format modules are light, and everything in the format lines has been claimed by rank 5. */
  lemma FormatModules(v: VersionNumber)
    ensures forall r: nat, c: nat :: r < Size(v) && c < Size(v) ==>
              && (RankOf(v, r, c) == 5 ==> InFormat(Size(v), r, c) && !Dark(v, r, c))
              && (InFormat(Size(v), r, c) ==> RankOf(v, r, c) <= 5)
  {
    CentresGood(v);
    hide Spec;
  }

  /** The bit of the version word that a version module carries. */
  function InfoIndex(s: nat, r: nat, c: nat): int
  {
    if r < 6 then 3 * r + (c + 11 - s) else 3 * c + (r + 11 - s)
  }

  /** The two modules of bit i, and only they, carry it. */
  lemma InfoModules(v: VersionNumber, i: nat)
    requires v >= 7 && i < 18
    ensures var s, r, c := Size(v), i / 3, Size(v) - 11 + i % 3;
            && r < 6 && 6 < c < s - 8
            && RankOf(v, r, c) == RankOf(v, c, r) == 6
            && (Dark(v, r, c) <==> Bit(VersionInfoWord(v), i)) && (Dark(v, c, r) <==> Bit(VersionInfoWord(v), i))
    ensures var s, r, c := Size(v), i / 3, Size(v) - 11 + i % 3;
            forall x: nat, y: nat :: x < s && y < s && RankOf(v, x, y) == 6 && InfoIndex(s, x, y) == i ==>
              (x == r && y == c) || (x == c && y == r)
    ensures var s, r, c := Size(v), i / 3, Size(v) - 11 + i % 3;
            InfoIndex(s, r, c) == InfoIndex(s, c, r) == i
  {
    CentresGood(v);
    hide Spec, Bit;
  }

  /** If (x, y) is added by the i-th step, it is (r, c) or its mirror image. */
  predicate InfoAdded(v: VersionNumber, i: nat, r: nat, c: nat, x: nat, y: nat)
  {
    RankOf(v, x, y) <= (if InfoIndex(Size(v), x, y) < i + 1 then 6 else 5)
    <==> (x == r && y == c) || (x == c && y == r)
         || RankOf(v, x, y) <= (if InfoIndex(Size(v), x, y) < i then 6 else 5)
  }

  lemma InfoAddedIs(v: VersionNumber, i: nat, r: nat, c: nat, x: nat, y: nat)
    requires InfoAdded(v, i, r, c, x, y)
    ensures RankOf(v, x, y) <= (if InfoIndex(Size(v), x, y) < i + 1 then 6 else 5)
       <==> (x == r && y == c) || (x == c && y == r)
            || RankOf(v, x, y) <= (if InfoIndex(Size(v), x, y) < i then 6 else 5)
  {
    hide RankOf, InfoIndex, Size;
  }

  /** The i-th modules of the two blocks, and they alone, are added by the i-th step. */
  lemma InfoStep(v: VersionNumber, i: nat, x: nat, y: nat)
    requires v >= 7 && i < 18 && x < Size(v) && y < Size(v)
    ensures InfoAdded(v, i, i / 3, Size(v) - 11 + i % 3, x, y)
  {
    InfoModules(v, i);
    hide *;
  }

  /** The pair of alignment coordinates around (r, c) comes before (i, j). */
  predicate PairBefore(v: VersionNumber, r: nat, c: nat, i: nat, j: nat)
  {
    var al := Spec(v).alignment;
    CentreIndex(al, r) < i || (CentreIndex(al, r) == i && CentreIndex(al, c) < j)
  }

  predicate SquareDark(dr: int, dc: int)
  {
    dr == -2 || dr == 2 || dc == -2 || dc == 2 || (dr == 0 && dc == 0)
  }

  /** A centre on the timing row or column is already reserved; the others are not yet. */
  lemma TimingAtCentre(v: VersionNumber, i: nat, j: nat)
    requires i < |Spec(v).alignment| && j < |Spec(v).alignment|
    ensures var al := Spec(v).alignment;
            && al[i] < Size(v) && al[j] < Size(v)
            && !PairBefore(v, al[i], al[j], i, j)
            && (RankOf(v, al[i], al[j]) <= 2 <==> i == 0 || j == 0)
            && (i > 0 ==> 2 <= al[i] && al[i] + 3 <= Size(v))
            && (j > 0 ==> 2 <= al[j] && al[j] + 3 <= Size(v))
  {
    CentresGood(v);
    hide Spec;
  }

  predicate InSquare(v: VersionNumber, r: nat, c: nat, i: nat, j: nat)
    requires i < |Spec(v).alignment| && j < |Spec(v).alignment|
  {
    var al := Spec(v).alignment;
    i > 0 && j > 0 && Abs(r - al[i]) <= 2 && Abs(c - al[j]) <= 2
  }

  /** The alignment modules of pair (i, j) are its 5x5 square, and there are none on timing. */
  lemma NextPair(v: VersionNumber, i: nat, j: nat)
    requires i < |Spec(v).alignment| && j < |Spec(v).alignment|
    ensures forall r: nat, c: nat :: r < Size(v) && c < Size(v) ==>
              (RankOf(v, r, c) <= (if PairBefore(v, r, c, i, j + 1) then 3 else 2) <==>
               RankOf(v, r, c) <= (if PairBefore(v, r, c, i, j) then 3 else 2) || InSquare(v, r, c, i, j))
  {
    CentresGood(v);
    hide Spec;
  }

  lemma SquareColours(v: VersionNumber, i: nat, j: nat)
    requires 0 < i < |Spec(v).alignment| && 0 < j < |Spec(v).alignment|
    ensures var al := Spec(v).alignment;
            forall r: nat, c: nat :: r < Size(v) && c < Size(v) && InSquare(v, r, c, i, j) ==>
              Dark(v, r, c) == SquareDark(r - al[i], c - al[j])
  {
    hide Dark, SquareDark, InSquare, Spec;
    forall r: nat, c: nat | r < Size(v) && c < Size(v) && InSquare(v, r, c, i, j)
      ensures Dark(v, r, c) == SquareDark(r - Spec(v).alignment[i], c - Spec(v).alignment[j])
    {
      SquareColour(v, i, j, r, c);
    }
  }

  lemma SquareColour(v: VersionNumber, i: nat, j: nat, r: nat, c: nat)
    requires 0 < i < |Spec(v).alignment| && 0 < j < |Spec(v).alignment|
    requires r < Size(v) && c < Size(v) && InSquare(v, r, c, i, j)
    ensures Dark(v, r, c) == SquareDark(r - Spec(v).alignment[i], c - Spec(v).alignment[j])
  {
    SquareArea(v, i, j, r, c);
    hide Spec, AreaOf, CentreIndex;
  }

  lemma SquareArea(v: VersionNumber, i: nat, j: nat, r: nat, c: nat)
    requires 0 < i < |Spec(v).alignment| && 0 < j < |Spec(v).alignment|
    requires r < Size(v) && c < Size(v) && InSquare(v, r, c, i, j)
    ensures AreaOf(v, r, c) == Alignment
    ensures CentreIndex(Spec(v).alignment, r) == i && CentreIndex(Spec(v).alignment, c) == j
  {
    CentresGood(v);
    hide Spec;
  }

  lemma RowOfPairs(v: VersionNumber, i: nat)
    requires i < |Spec(v).alignment|
    ensures forall r, c :: PairBefore(v, r, c, i, |Spec(v).alignment|) <==> PairBefore(v, r, c, i + 1, 0)
  {
  }

  lemma LastPair(v: VersionNumber)
    ensures forall r, c :: RankOf(v, r, c) == 3 ==> PairBefore(v, r, c, |Spec(v).alignment|, 0)
  {
    hide Spec;
  }

  /** A finder module, as the nested loops decide it from the offsets to the corner. */
  predicate FinderDark(dr: int, dc: int)
  {
    var inRing := 0 <= dr <= 6 && 0 <= dc <= 6 && (dr == 0 || dr == 6 || dc == 0 || dc == 6);
    var inCore := 2 <= dr <= 4 && 2 <= dc <= 4;
    inRing || inCore
  }

  /** The finder that a module belongs to. */
  lemma FinderAt(v: VersionNumber, r: nat, c: nat)
    requires r < Size(v) && c < Size(v)
    ensures var far := Size(v) - 7;
            && RankOf(v, r, c) >= 1
            && (RankOf(v, r, c) <= 1 <==> (r <= 7 && c <= 7) || (r <= 7 && c >= far - 1) || (r >= far - 1 && c <= 7))
            && (r <= 7 && c <= 7 ==> Dark(v, r, c) == FinderDark(r, c))
            && (r <= 7 && c >= far - 1 ==> Dark(v, r, c) == FinderDark(r, c - far))
            && (r >= far - 1 && c <= 7 ==> Dark(v, r, c) == FinderDark(r - far, c))
  {
    FinderRings();
    hide CentreIndex, Spec, FinderDark;
  }

  lemma FinderRings()
    ensures forall dr, dc :: -1 <= dr <= 7 && -1 <= dc <= 7 ==>
              (FinderDark(dr, dc) <==> Ring(dr - 3, dc - 3) != 2 && Ring(dr - 3, dc - 3) != 4)
  {
  }

  /** Lays every function pattern and reports the claimed modules. */
  method FunctionPatterns(v: VersionNumber) returns (canvas: Canvas)
    ensures canvas.Valid() && canvas.size == Size(v)
    ensures forall r, c :: 0 <= r < Size(v) && 0 <= c < Size(v) ==>
              (canvas.reserved[r, c] <==> Reserved(v, r, c))
    ensures forall r, c :: 0 <= r < Size(v) && 0 <= c < Size(v) ==>
              (canvas.modules[r, c] <==> Dark(v, r, c))
    ensures fresh(canvas) && fresh(canvas.modules) && fresh(canvas.reserved)
  {
    canvas := new Canvas(Size(v));
    NothingLaid();
    LastRank(v);
    hide Spec, AreaOf, Dark, Rank;
    canvas.PlaceFinders(v);
    canvas.PlaceTiming(v);
    canvas.PlaceAlignment(v);
    canvas.PlaceDarkModule(v);
    canvas.ReserveFormat(v);
    canvas.PlaceVersionInfo(v);
  }

  lemma NothingLaid()
    ensures forall v: VersionNumber, r: nat, c: nat :: RankOf(v, r, c) > 0
  {
    hide AreaOf;
  }

  lemma LastRank(v: VersionNumber)
    ensures forall r: nat, c: nat ::
              (RankOf(v, r, c) <= 6 <==> Reserved(v, r, c)) && (Dark(v, r, c) ==> Reserved(v, r, c))
  {
    hide Spec;
  }

  // ---- what the patterns look like

  lemma FinderColour(v: VersionNumber, r: nat, c: nat)
    requires r < 8 && c < 8
    ensures AreaOf(v, r, c) == Finder
    ensures Dark(v, r, c) <==> r < 7 && c < 7 && (r == 0 || r == 6 || c == 0 || c == 6 || (2 <= r <= 4 && 2 <= c <= 4))
  {
    hide Spec, CentreIndex;
  }

  lemma FinderMirrored(v: VersionNumber, r: nat, c: nat)
    requires r < 8 && c < 8
    ensures Size(v) >= 21
    ensures AreaOf(v, r, Size(v) - 1 - c) == AreaOf(v, Size(v) - 1 - r, c) == Finder
    ensures Dark(v, r, Size(v) - 1 - c) == Dark(v, Size(v) - 1 - r, c) == Dark(v, r, c)
  {
    hide Spec, CentreIndex, Ring;
    RingMirrored(r - 3, c - 3);
  }

  lemma RingMirrored(dr: int, dc: int)
    ensures Ring(-dr, dc) == Ring(dr, -dc) == Ring(dr, dc)
  {
  }

  /** A finder pattern is a dark frame of seven modules to a side, a light frame inside it and a dark square of
      three, with a light border around; the other two are its mirror images. */
  lemma FinderPicture(v: VersionNumber, r: nat, c: nat)
    requires r < 8 && c < 8
    ensures var s := Size(v);
            && s >= 21
            && AreaOf(v, r, c) == AreaOf(v, r, s - 1 - c) == AreaOf(v, s - 1 - r, c) == Finder
            && (Dark(v, r, c) <==>
                  r < 7 && c < 7 && (r == 0 || r == 6 || c == 0 || c == 6 || (2 <= r <= 4 && 2 <= c <= 4)))
            && (Dark(v, r, s - 1 - c) <==> Dark(v, r, c))
            && (Dark(v, s - 1 - r, c) <==> Dark(v, r, c))
  {
    hide *;
    FinderColour(v, r, c);
    FinderMirrored(v, r, c);
  }

  /** Between the finders row 6 and column 6 alternate, dark next to a finder. */
  lemma TimingPicture(v: VersionNumber, k: nat)
    requires 8 <= k && k + 8 < Size(v)
    ensures AreaOf(v, 6, k) == AreaOf(v, k, 6) == Timing
    ensures Dark(v, 6, 8) && Dark(v, 8, 6) && Dark(v, 6, Size(v) - 9) && Dark(v, Size(v) - 9, 6)
    ensures k + 9 < Size(v) ==> (Dark(v, 6, k + 1) <==> !Dark(v, 6, k))
    ensures Dark(v, k, 6) <==> Dark(v, 6, k)
  {
    hide Spec, CentreIndex, Ring;
  }

  /** One module beside the lower finder is always dark. */
  lemma DarkModulePicture(v: VersionNumber)
    ensures Size(v) >= 21 && AreaOf(v, Size(v) - 8, 8) == DarkModule && Dark(v, Size(v) - 8, 8)
  {
    CentresGood(v);
    hide Spec;
  }

  /** An alignment pattern is a dark frame of five modules to a side around a light one, and a dark centre. */
  lemma AlignmentPicture(v: VersionNumber, i: nat, j: nat, dr: int, dc: int)
    requires 0 < i < |Spec(v).alignment| && 0 < j < |Spec(v).alignment| && -2 <= dr <= 2 && -2 <= dc <= 2
    ensures var r, c := Spec(v).alignment[i] + dr, Spec(v).alignment[j] + dc;
            && 0 <= r < Size(v) && 0 <= c < Size(v)
            && AreaOf(v, r, c) == Alignment
            && (Dark(v, r, c) <==> dr == -2 || dr == 2 || dc == -2 || dc == 2 || (dr == 0 && dc == 0))
  {
    CentresGood(v);
    hide Spec, AreaOf, Dark, CentreIndex, SquareDark;
    var r, c := Spec(v).alignment[i] + dr, Spec(v).alignment[j] + dc;
    CentreInside(v, i);
    CentreInside(v, j);
    SquareArea(v, i, j, r, c);
    SquareColour(v, i, j, r, c);
    SquareDarkIs(dr, dc);
  }

  lemma CentreInside(v: VersionNumber, i: nat)
    requires 0 < i < |Spec(v).alignment|
    ensures 16 <= Spec(v).alignment[i] <= Size(v) - 7
  {
    CentresGood(v);
    hide Spec;
  }

  lemma SquareDarkIs(dr: int, dc: int)
    ensures SquareDark(dr, dc) <==> dr == -2 || dr == 2 || dc == -2 || dc == 2 || (dr == 0 && dc == 0)
  {
  }

  /** Alignment coordinates go from 6 to the seventh module from the far edge, evenly spaced. */
  lemma AlignmentSpacing(v: VersionNumber)
    ensures var al := Spec(v).alignment;
            && |al| == (if v == 1 then 0 else v / 7 + 2)
            && (v > 1 ==> al[0] == 6 && al[|al| - 1] == Size(v) - 7)
            && (v >= 7 ==> al[1] - al[0] == al[2] - al[1])
  {
  }
}
