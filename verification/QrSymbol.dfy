/** From codewords to a finished symbol: data placement, masking, format bits, mask choice; and
    the reader that takes a symbol apart again. */
module QrSymbol {
  import opened Bits
  import opened Wrappers
  import opened QrVersions
  import opened QrLayout
  import opened QrZigzag
  import opened QrGrid
  import opened QrPenalty

  type MaskNumber = m: nat | m < 8

  // ---- masks and format bits

  /** Whether mask inverts the module at (r, c), section 7.8.2 of ISO/IEC 18004:2015. */
  predicate MaskAt(mask: MaskNumber, r: nat, c: nat)
  {
    match mask
    case 0 => (r + c) % 2 == 0
    case 1 => r % 2 == 0
    case 2 => c % 3 == 0
    case 3 => (r + c) % 3 == 0
    case 4 => (r / 2 + c / 3) % 2 == 0
    case 5 => (r * c) % 2 + (r * c) % 3 == 0
    case 6 => ((r * c) % 2 + (r * c) % 3) % 2 == 0
    case 7 => ((r + c) % 2 + (r * c) % 3) % 2 == 0
  }

  /** The shapes behind the formulas: a chequerboard, diagonals and bricks. */
  lemma MaskShapes(r: nat, c: nat)
    ensures MaskAt(0, r, c) <==> r % 2 == c % 2
    ensures MaskAt(3, r, c) <==> (r % 3 == 0 && c % 3 == 0) || r % 3 + c % 3 == 3
    ensures MaskAt(4, r, c) <==> r / 2 % 2 == c / 3 % 2
  {
    SameParity(r, c);
    SameParity(r / 2, c / 3);
    SumByThree(r, c);
  }

  /** Masks 1 and 2 are stripes: every second row, every third column, from the first on. */
  lemma MaskStripes(r: nat, c: nat)
    ensures MaskAt(1, 0, c) && (MaskAt(1, r + 1, c) <==> !MaskAt(1, r, c))
    ensures MaskAt(2, r, 0) && !MaskAt(2, r, 1) && !MaskAt(2, r, 2) && (MaskAt(2, r, c + 3) <==> MaskAt(2, r, c))
  {
  }

  /** The last three masks go by the residues of the product of row and column. */
  lemma ProductMasks(r: nat, c: nat, product: nat)
    requires product == r * c
    ensures MaskAt(5, r, c) <==> product % 6 == 0
    ensures MaskAt(6, r, c) <==> product % 6 < 3
    ensures MaskAt(7, r, c) <==> (product % 3 == 1 <==> r % 2 != c % 2)
  {
    ProductMaskFormulas(r, c, product);
    hide *;
    Residues(product);
    MixedParity(r + c, product);
    SameParity(r, c);
  }

  lemma ProductMaskFormulas(r: nat, c: nat, k: nat)
    requires k == r * c
    ensures MaskAt(5, r, c) <==> k % 2 + k % 3 == 0
    ensures MaskAt(6, r, c) <==> (k % 2 + k % 3) % 2 == 0
    ensures MaskAt(7, r, c) <==> ((r + c) % 2 + k % 3) % 2 == 0
  {
  }

  lemma SameParity(a: nat, b: nat)
    ensures (a + b) % 2 == 0 <==> a % 2 == b % 2
  {
  }

  lemma SumByThree(a: nat, b: nat)
    ensures (a + b) % 3 == 0 <==> (a % 3 == 0 && b % 3 == 0) || a % 3 + b % 3 == 3
  {
  }

  lemma MixedParity(a: nat, k: nat)
    ensures (a % 2 + k % 3) % 2 == 0 <==> (k % 3 == 1 <==> a % 2 != 0)
  {
  }

  lemma Residues(k: nat)
    ensures k % 2 + k % 3 == 0 <==> k % 6 == 0
    ensures (k % 2 + k % 3) % 2 == 0 <==> k % 6 < 3
  {
    var q, r := k / 6, k % 6;
    TwoShift(3 * q, r);
    ThreeShift(2 * q, r);
    assert r == 0 || r == 1 || r == 2 || r == 3 || r == 4 || r == 5;
  }

  lemma TwoShift(q: nat, r: nat)
    ensures (2 * q + r) % 2 == r % 2
  {
  }

  lemma ThreeShift(q: nat, r: nat)
    ensures (3 * q + r) % 3 == r % 3
  {
  }

  function FormatWord(mask: MaskNumber): nat
  {
    match mask
    case 0 => 0x5412
    case 1 => 0x5125
    case 2 => 0x5E7C
    case 3 => 0x5B4B
    case 4 => 0x45F9
    case 5 => 0x40CE
    case 6 => 0x4F97
    case 7 => 0x4AA0
  }

  /** The fifteen bits of the format word, highest first, from the three bits of the mask number. */
  function FormatShape(mask: MaskNumber): (bits: seq<bool>)
    ensures |bits| == 15
  {
    ShapeOf(mask / 4 == 1, mask / 2 % 2 == 1, mask % 2 == 1)
  }

  function ShapeOf(x: bool, y: bool, z: bool): (bits: seq<bool>)
    ensures |bits| == 15
  {
    [true, false, !x, y, !z, y, x != z, x, x != y, (x != y) != z, !z, x != y, y != z, (x != y) == z, x != z]
  }

  function NumUpTo(b: seq<bool>, k: nat): nat
    requires k <= |b|
  {
    NumOf(b[..k])
  }

  lemma NumOfUpTo(b: seq<bool>, k: nat)
    requires k < |b|
    ensures NumUpTo(b, k + 1) == 2 * NumUpTo(b, k) + Bit01(b[k])
  {
    assert b[..k + 1][..k] == b[..k];
  }

  lemma NumOfEnds(b: seq<bool>)
    ensures NumUpTo(b, 0) == 0 && NumUpTo(b, |b|) == NumOf(b)
  {
    assert b[..|b|] == b;
  }

  /** The number that five bits stand for. */
  function Five(b: seq<bool>, k: nat): nat
    requires k + 5 <= |b|
  {
    16 * Bit01(b[k]) + 8 * Bit01(b[k + 1]) + 4 * Bit01(b[k + 2]) + 2 * Bit01(b[k + 3]) + Bit01(b[k + 4])
  }

  lemma NumOfFive(b: seq<bool>, k: nat)
    requires k + 5 <= |b|
    ensures NumUpTo(b, k + 5) == 32 * NumUpTo(b, k) + Five(b, k)
  {
    hide NumUpTo, Bit01;
    NumOfUpTo(b, k);
    NumOfUpTo(b, k + 1);
    NumOfUpTo(b, k + 2);
    NumOfUpTo(b, k + 3);
    NumOfUpTo(b, k + 4);
  }

  lemma NumOfFifteen(b: seq<bool>)
    requires |b| == 15
    ensures NumOf(b) == 1024 * Five(b, 0) + 32 * Five(b, 5) + Five(b, 10)
  {
    hide *;
    NumOfEnds(b);
    NumOfFive(b, 0);
    NumOfFive(b, 5);
    NumOfFive(b, 10);
  }

  lemma ShapeIs(mask: MaskNumber)
    ensures FormatShape(mask) == ShapeOf(mask / 4 == 1, mask / 2 % 2 == 1, mask % 2 == 1)
    ensures (mask / 4 == 1 || mask / 4 == 0) && mask == 4 * (mask / 4) + 2 * (mask / 2 % 2) + mask % 2
  {
    hide ShapeOf;
  }

  lemma ShapesWithout4(y: bool, z: bool)
    ensures NumOf(ShapeOf(false, y, z))
         == if y then (if z then 0x5B4B else 0x5E7C) else if z then 0x5125 else 0x5412
  {
    hide NumOf;
    NumOfFifteen(ShapeOf(false, y, z));
  }

  lemma ShapesWith4(y: bool, z: bool)
    ensures NumOf(ShapeOf(true, y, z))
         == if y then (if z then 0x4AA0 else 0x4F97) else if z then 0x40CE else 0x45F9
  {
    hide NumOf;
    NumOfFifteen(ShapeOf(true, y, z));
  }

  lemma ShapeNumber(mask: MaskNumber)
    ensures NumOf(FormatShape(mask)) == FormatWord(mask)
  {
    hide NumOf, ShapeOf;
    ShapesWithout4(mask / 2 % 2 == 1, mask % 2 == 1);
    ShapesWith4(mask / 2 % 2 == 1, mask % 2 == 1);
  }

  lemma WordHasShape(mask: MaskNumber)
    ensures BitsOf(FormatWord(mask), 15) == FormatShape(mask)
  {
    hide *;
    ShapeNumber(mask);
    BitsOfNumOf(FormatShape(mask));
  }

  /** Which format bit the module at (r, c) carries; -1 for modules outside the format areas. */
  function FormatBitOf(s: nat, r: nat, c: nat): int
  {
    if r == 8 && c < 6 then c
    else if r == 8 && c == 7 then 6
    else if r == 8 && c == 8 then 7
    else if r == 7 && c == 8 then 8
    else if c == 8 && r < 6 then 14 - r
    else if r == 8 && c + 8 >= s then s - 1 - c
    else if c == 8 && r + 7 >= s then r + 15 - s
    else -1
  }

  /** The module of bit i around the top-left finder, and its duplicate by the other two. */
  function FirstCopy(i: nat): Cell
    requires i < 15
  {
    if i < 6 then Cell(8, i) else if i == 6 then Cell(8, 7) else if i == 7 then Cell(8, 8)
    else if i == 8 then Cell(7, 8) else Cell(14 - i, 8)
  }

  function SecondCopy(s: nat, i: nat): Cell
    requires i < 15 && s >= 21
  {
    if i < 8 then Cell(8, s - 1 - i) else Cell(s + i - 15, 8)
  }

  /** The format areas are exactly the two copies: 30 distinct modules, two for each bit. */
  lemma FormatModulesExact(v: VersionNumber, r: nat, c: nat)
    requires r < Size(v) && c < Size(v)
    ensures AreaOf(v, r, c) == Format <==> FormatBitOf(Size(v), r, c) >= 0
    ensures FormatBitOf(Size(v), r, c) < 15
    ensures forall i :: 0 <= i < 15 ==>
              (FormatBitOf(Size(v), r, c) == i <==> Cell(r, c) == FirstCopy(i) || Cell(r, c) == SecondCopy(Size(v), i))
    ensures forall i, j :: 0 <= i < 15 && 0 <= j < 15 ==> FirstCopy(i) != SecondCopy(Size(v), j)
    ensures Cell(r, c) == Cell(Size(v) - 8, 8) ==> AreaOf(v, r, c) == DarkModule
  {
    CentresGood(v);
    hide Spec;
  }

  // ---- the finished symbol, module by module

  /** Bit i of the codeword sequence; the modules left over are light. */
  predicate DataBit(cw: Bytes, i: nat)
  {
    i / 8 < |cw| && Bit(cw[i / 8], 7 - i % 8)
  }

  function IndexOf(cells: seq<Cell>, x: Cell): nat
  {
    if cells == [] then 0
    else if cells[|cells| - 1] == x then |cells| - 1
    else IndexOf(cells[..|cells| - 1], x)
  }

  lemma {:induction false} IndexOfAt(cells: seq<Cell>, j: nat)
    requires Distinct(cells) && j < |cells|
    ensures IndexOf(cells, cells[j]) == j
    decreases |cells|
  {
    if j < |cells| - 1 { IndexOfAt(cells[..|cells| - 1], j); }
  }

  lemma IndexOfSnoc(cells: seq<Cell>, x: Cell, y: Cell)
    ensures IndexOf(cells + [x], y) == if x == y then |cells| else IndexOf(cells, y)
  {
    assert (cells + [x])[..|cells|] == cells;
  }

  predicate Unmasked(v: VersionNumber, cw: Bytes, r: nat, c: nat)
  {
    if Reserved(v, r, c) then Dark(v, r, c) else DataBit(cw, IndexOf(DataCells(v), Cell(r, c)))
  }

  predicate Masked(v: VersionNumber, cw: Bytes, mask: MaskNumber, r: nat, c: nat)
  {
    Unmasked(v, cw, r, c) != (!Reserved(v, r, c) && MaskAt(mask, r, c))
  }

  predicate SymbolAt(v: VersionNumber, cw: Bytes, mask: MaskNumber, r: nat, c: nat)
  {
    var i := FormatBitOf(Size(v), r, c);
    if i >= 0 then Bit(FormatWord(mask), i) else Masked(v, cw, mask, r, c)
  }

  function Symbol(v: VersionNumber, cw: Bytes, mask: MaskNumber): (g: Grid)
    ensures IsSquare(g, Size(v))
    ensures forall r, c :: 0 <= r < Size(v) && 0 <= c < Size(v) ==> g[r][c] == SymbolAt(v, cw, mask, r, c)
  {
    hide SymbolAt;
    seq(Size(v), r requires 0 <= r < Size(v) =>
      seq(Size(v), c requires 0 <= c < Size(v) => SymbolAt(v, cw, mask, r, c)))
  }

  /** Before masking, the j-th free module carries bit j of the codewords, highest bit of each byte first;
      the modules left over are light. */
  lemma DataModules(v: VersionNumber, cw: Bytes, j: nat)
    requires j < |DataCells(v)|
    ensures var x := DataCells(v)[j];
            Unmasked(v, cw, x.r, x.c) <==> j < 8 * |cw| && Bit(cw[j / 8], 7 - j % 8)
  {
    DataCellsExact(v);
    var cells := DataCells(v);
    assert cells[j] in cells;
    IndexOfAt(cells, j);
    hide DataCells, Bit, Dark, Reserved, IndexOf;
  }

  /** The first codeword starts in the bottom right corner and goes left before it goes up. */
  lemma FirstBits(v: VersionNumber, cw: Bytes)
    requires cw != []
    ensures var s := Size(v);
            && s >= 21
            && (Unmasked(v, cw, s - 1, s - 1) <==> Bit(cw[0], 7)) && (Unmasked(v, cw, s - 1, s - 2) <==> Bit(cw[0], 6))
            && (Unmasked(v, cw, s - 2, s - 1) <==> Bit(cw[0], 5)) && (Unmasked(v, cw, s - 2, s - 2) <==> Bit(cw[0], 4))
  {
    DataStartsInCorner(v);
    hide DataCells, Bit, Unmasked, Size;
    DataModules(v, cw, 0);
    DataModules(v, cw, 1);
    DataModules(v, cw, 2);
    DataModules(v, cw, 3);
    var cells, s := DataCells(v), Size(v);
    assert cells[..4] == Corner(s);
    assert cells[0] == Corner(s)[0] && cells[1] == Corner(s)[1] && cells[2] == Corner(s)[2] && cells[3] == Corner(s)[3];
  }

  /** Every function module outside the format areas shows its fixed colour under every mask. */
  lemma FunctionPatternsSurvive(v: VersionNumber, cw: Bytes, mask: MaskNumber, r: nat, c: nat)
    requires r < Size(v) && c < Size(v) && Reserved(v, r, c) && AreaOf(v, r, c) != Format
    ensures Symbol(v, cw, mask)[r][c] == Dark(v, r, c)
  {
    FormatModulesExact(v, r, c);
    hide AreaOf, Dark, FormatBitOf;
  }

  // ---- choosing a mask

  function Score(v: VersionNumber, cw: Bytes, mask: MaskNumber): nat { Penalty(Symbol(v, cw, mask)) }

  /** The first of the best masks below n. */
  function BestMask(v: VersionNumber, cw: Bytes, n: nat): (mask: MaskNumber)
    requires 0 < n <= 8
    ensures mask < n
  {
    if n == 1 then 0
    else
      var b := BestMask(v, cw, n - 1);
      if Score(v, cw, n - 1) < Score(v, cw, b) then n - 1 else b
  }

  /** It has the least penalty, and every lower-numbered mask scores strictly worse. */
  lemma {:induction false} BestMaskIsLowestMinimum(v: VersionNumber, cw: Bytes, n: nat)
    requires 0 < n <= 8
    ensures var b := BestMask(v, cw, n);
            forall m: MaskNumber :: m < n ==>
              Score(v, cw, b) <= Score(v, cw, m) && (m < b ==> Score(v, cw, b) < Score(v, cw, m))
  {
    hide Score;
    if n > 1 { BestMaskIsLowestMinimum(v, cw, n - 1); }
  }

  // ---- the methods

  /** Modules after the zigzag has visited `done` and placed the bits that fit. */
  ghost predicate Placed(m: array2<bool>, v: VersionNumber, cw: Bytes, done: seq<Cell>)
    requires m.Length0 == m.Length1 == Size(v)
    reads m
  {
    forall r, c :: 0 <= r < Size(v) && 0 <= c < Size(v) ==>
      (m[r, c] <==>
        if Reserved(v, r, c) then Dark(v, r, c)
        else Cell(r, c) in done && DataBit(cw, IndexOf(Free(v, done), Cell(r, c))))
  }

  /** The reserved grid holds exactly the function modules. */
  ghost predicate ReservedKnown(reserved: array2<bool>, v: VersionNumber)
    reads reserved
  {
    && reserved.Length0 == reserved.Length1 == Size(v)
    && forall r, c :: 0 <= r < Size(v) && 0 <= c < Size(v) ==> (reserved[r, c] <==> Reserved(v, r, c))
  }

  method VisitModule(canvas: Canvas, v: VersionNumber, cw: Bytes, row: nat, col: nat, bitIndex: nat,
                     ghost done: seq<Cell>)
    returns (next: nat)
    requires canvas.Valid() && canvas.size == Size(v) && row < Size(v) && col < Size(v)
    requires ReservedKnown(canvas.reserved, v)
    requires Placed(canvas.modules, v, cw, done) && bitIndex == |Free(v, done)| && Cell(row, col) !in done
    modifies canvas.modules
    ensures Placed(canvas.modules, v, cw, done + [Cell(row, col)]) && next == |Free(v, done + [Cell(row, col)])|
  {
    hide Reserved, Dark, Free, IndexOf, Bit;
    var x := Cell(row, col);
    FreeSnoc(v, done, x);
    next := bitIndex;
    if canvas.reserved[row, col] {
      return;
    }
    var dark := false;
    if bitIndex < |cw| * 8 {
      dark := Bit(cw[bitIndex / 8], 7 - bitIndex % 8);
    }
    canvas.modules[row, col] := dark;
    next := bitIndex + 1;
    forall y: Cell ensures IndexOf(Free(v, done) + [x], y) == if x == y then bitIndex else IndexOf(Free(v, done), y) {
      IndexOfSnoc(Free(v, done), x, y);
    }
  }

  /** The walk up to module q of pair p. */
  ghost function SoFar(s: nat, p: nat, q: nat): seq<Cell>
    requires GoodSize(s) && p < Pairs(s) && q <= 2 * s
  {
    Walk(s, p) + PairCells(s, p, q)
  }

  lemma NextVisit(s: nat, p: nat, q: nat)
    requires GoodSize(s) && p < Pairs(s) && q < 2 * s
    ensures SoFar(s, p, q + 1) == SoFar(s, p, q) + [Visit(s, p, q)]
    ensures Visit(s, p, q) !in SoFar(s, p, q)
  {
    hide Visit;
    var all := Walk(s, p + 1);
    assert all == Walk(s, p) + PairCells(s, p, 2 * s);
    WalkDistinct(s, p + 1);
    hide Walk;
    assert all[|Walk(s, p)| + q] == Visit(s, p, q);
    assert SoFar(s, p, q) == all[..|Walk(s, p)| + q];
  }

  lemma PairEnds(s: nat, p: nat)
    requires GoodSize(s) && p < Pairs(s)
    ensures SoFar(s, p, 0) == Walk(s, p) && SoFar(s, p, 2 * s) == Walk(s, p + 1)
  {
    hide Visit;
  }

  method PlaceData(canvas: Canvas, v: VersionNumber, cw: Bytes)
    requires canvas.Valid() && canvas.size == Size(v)
    requires ReservedKnown(canvas.reserved, v)
    requires Placed(canvas.modules, v, cw, [])
    modifies canvas.modules
    ensures forall r, c :: 0 <= r < Size(v) && 0 <= c < Size(v) ==> (canvas.modules[r, c] <==> Unmasked(v, cw, r, c))
  {
    hide Reserved, Dark, Free, Walk, Placed, Visit, Right, Pairs, Unmasked, ReservedKnown, Size, GoodSize, Row;
    SizeGood(v);
    var size := canvas.size;
    var bitIndex, upward, right := 0, true, size - 1;
    ghost var p := 0;
    WalkStarts(v, size);
    while right >= 1
      invariant 0 <= p <= Pairs(size) && upward == (p % 2 == 0)
      invariant right == if p == 0 then size - 1 else Right(size, p - 1) - 2
      invariant right < 1 <==> p == Pairs(size)
      invariant Placed(canvas.modules, v, cw, Walk(size, p)) && bitIndex == |Free(v, Walk(size, p))|
      decreases Pairs(size) - p
    {
      if right == 6 {
        right := right - 1;
      }
      RightColumn(size, p, right);
      bitIndex := PlacePairOfColumns(canvas, v, cw, right, upward, bitIndex, p);
      assert !upward == ((p + 1) % 2 == 0);
      upward := !upward;
      right := right - 2;
      p := p + 1;
    }
    AllPlaced(canvas.modules, v, cw);
  }

  lemma WalkStarts(v: VersionNumber, s: nat)
    requires GoodSize(s)
    ensures Walk(s, 0) == [] && Free(v, []) == [] && Pairs(s) > 0 && s > 1
  {
  }

  lemma RightColumn(s: nat, p: nat, right: int)
    requires GoodSize(s) && p < Pairs(s)
    requires var raw := if p == 0 then s - 1 else Right(s, p - 1) - 2; right == if raw == 6 then 5 else raw
    ensures right == Right(s, p) && 1 <= right < s
    ensures right - 2 < 1 <==> p + 1 == Pairs(s)
  {
  }

  lemma AllPlaced(m: array2<bool>, v: VersionNumber, cw: Bytes)
    requires m.Length0 == m.Length1 == Size(v) && GoodSize(Size(v))
    requires Placed(m, v, cw, Walk(Size(v), Pairs(Size(v))))
    ensures forall r, c :: 0 <= r < Size(v) && 0 <= c < Size(v) ==> (m[r, c] <==> Unmasked(v, cw, r, c))
  {
    hide Reserved, Dark, Free, Walk, DataBit, IndexOf;
    WalkComplete(Size(v));
    forall r: nat ensures Reserved(v, r, 6) { Column6(v, r); }
    forall r, c | 0 <= r < Size(v) && 0 <= c < Size(v) ensures m[r, c] <==> Unmasked(v, cw, r, c) {
      assert Cell(r, c) in Walk(Size(v), Pairs(Size(v))) <==> c != 6;
    }
  }

  /** Both columns of pair p, row by row. */
  method PlacePairOfColumns(canvas: Canvas, v: VersionNumber, cw: Bytes, right: int, upward: bool, start: nat,
                            ghost p: nat)
    returns (bitIndex: nat)
    requires canvas.Valid() && canvas.size == Size(v) && GoodSize(Size(v))
    requires ReservedKnown(canvas.reserved, v)
    requires p < Pairs(Size(v)) && right == Right(Size(v), p) && 1 <= right < Size(v) && upward == (p % 2 == 0)
    requires Placed(canvas.modules, v, cw, Walk(Size(v), p)) && start == |Free(v, Walk(Size(v), p))|
    modifies canvas.modules
    ensures Placed(canvas.modules, v, cw, Walk(Size(v), p + 1)) && bitIndex == |Free(v, Walk(Size(v), p + 1))|
  {
    hide Reserved, Dark, Free, Walk, Placed, Visit, SoFar, Right, ReservedKnown;
    var size := canvas.size;
    PairEnds(size, p);
    bitIndex := start;
    for i := 0 to size
      invariant Placed(canvas.modules, v, cw, SoFar(size, p, 2 * i))
      invariant bitIndex == |Free(v, SoFar(size, p, 2 * i))|
    {
      var row := i;
      if upward {
        row := size - 1 - i;
      }
      for k := 0 to 2
        invariant Placed(canvas.modules, v, cw, SoFar(size, p, 2 * i + k))
        invariant bitIndex == |Free(v, SoFar(size, p, 2 * i + k))|
      {
        VisitIs(size, p, i, k);
        NextVisit(size, p, 2 * i + k);
        bitIndex := VisitModule(canvas, v, cw, row, right - k, bitIndex, SoFar(size, p, 2 * i + k));
      }
    }
  }

  lemma VisitIs(s: nat, p: nat, i: nat, k: nat)
    requires GoodSize(s) && p < Pairs(s) && i < s && k < 2
    ensures Right(s, p) - k >= 0 && Visit(s, p, 2 * i + k) == Cell(Row(s, p, i), Right(s, p) - k)
  {
  }

  method ApplyMask(src: array2<bool>, reserved: array2<bool>, mask: MaskNumber, size: nat) returns (out: array2<bool>)
    requires src.Length0 == src.Length1 == reserved.Length0 == reserved.Length1 == size
    ensures out.Length0 == out.Length1 == size && fresh(out)
    ensures forall r, c :: 0 <= r < size && 0 <= c < size ==>
              out[r, c] == (src[r, c] != (!reserved[r, c] && MaskAt(mask, r, c)))
  {
    hide MaskAt;
    out := new bool[size, size]((_, _) => false);
    for r := 0 to size
      invariant forall i, c :: 0 <= i < r && 0 <= c < size ==>
                  out[i, c] == (src[i, c] != (!reserved[i, c] && MaskAt(mask, i, c)))
    {
      forall c | 0 <= c < size {
        out[r, c] := src[r, c];
      }
      for c := 0 to size
        invariant forall i, j :: 0 <= i < r && 0 <= j < size ==>
                    out[i, j] == (src[i, j] != (!reserved[i, j] && MaskAt(mask, i, j)))
        invariant forall j :: 0 <= j < c ==> out[r, j] == (src[r, j] != (!reserved[r, j] && MaskAt(mask, r, j)))
        invariant forall j :: c <= j < size ==> out[r, j] == src[r, j]
      {
        if !reserved[r, c] && MaskAt(mask, r, c) {
          out[r, c] := !out[r, c];
        }
      }
    }
  }

  /** Writes both copies of the format bits, and the dark module once more. */
  method PlaceFormat(m: array2<bool>, mask: MaskNumber, size: nat)
    requires m.Length0 == m.Length1 == size && size >= 21
    modifies m
    ensures forall r, c :: 0 <= r < size && 0 <= c < size ==>
              m[r, c] == if FormatBitOf(size, r, c) >= 0 then Bit(FormatWord(mask), FormatBitOf(size, r, c))
                         else if r + 8 == size && c == 8 then true
                         else old(m[r, c])
  {
    hide Bit, FormatWord;
    var bits := FormatWord(mask);
    for i := 0 to 15
      invariant forall r, c :: 0 <= r < size && 0 <= c < size ==>
                  m[r, c] == if 0 <= FormatBitOf(size, r, c) < i then Bit(bits, FormatBitOf(size, r, c))
                             else old(m[r, c])
    {
      var dark := Bit(bits, i);
      if i < 6 {
        m[8, i] := dark;
      } else if i == 6 {
        m[8, 7] := dark;
      } else if i == 7 {
        m[8, 8] := dark;
      } else if i == 8 {
        m[7, 8] := dark;
      } else {
        m[14 - i, 8] := dark;
      }
      if i < 8 {
        m[8, size - 1 - i] := dark;
      } else {
        m[size - 15 + i, 8] := dark;
      }
    }
    m[size - 8, 8] := true;
  }

  /** One turn of the mask loop: mask, then format bits. */
  method MakeCandidate(canvas: Canvas, v: VersionNumber, cw: Bytes, mask: MaskNumber) returns (candidate: array2<bool>)
    requires canvas.Valid() && canvas.size == Size(v)
    requires forall r, c :: 0 <= r < Size(v) && 0 <= c < Size(v) ==> (canvas.reserved[r, c] <==> Reserved(v, r, c))
    requires forall r, c :: 0 <= r < Size(v) && 0 <= c < Size(v) ==> (canvas.modules[r, c] <==> Unmasked(v, cw, r, c))
    ensures candidate.Length0 == candidate.Length1 == Size(v)
    ensures Snap(candidate) == Symbol(v, cw, mask) && fresh(candidate)
  {
    hide Reserved, Unmasked, MaskAt, FormatBitOf, FormatWord, Bit, Snap, Symbol;
    candidate := ApplyMask(canvas.modules, canvas.reserved, mask, canvas.size);
    PlaceFormat(candidate, mask, canvas.size);
    DarkModuleStays(v, cw, mask);
    forall r, c | 0 <= r < Size(v) && 0 <= c < Size(v)
      ensures Snap(candidate)[r][c] == Symbol(v, cw, mask)[r][c]
    {
      assert Snap(candidate)[r][c] == candidate[r, c];
    }
    SameGrid(Snap(candidate), Symbol(v, cw, mask), Size(v));
  }

  lemma SameGrid(g: Grid, h: Grid, n: nat)
    requires IsSquare(g, n) && IsSquare(h, n)
    requires forall r, c :: 0 <= r < n && 0 <= c < n ==> g[r][c] == h[r][c]
    ensures g == h
  {
    forall r | 0 <= r < n ensures g[r] == h[r] { }
  }

  /** The dark module is dark already. */
  lemma DarkModuleStays(v: VersionNumber, cw: Bytes, mask: MaskNumber)
    ensures Masked(v, cw, mask, Size(v) - 8, 8)
  {
    FormatModulesExact(v, Size(v) - 8, 8);
  }

  lemma StartPlaced(m: array2<bool>, v: VersionNumber, cw: Bytes)
    requires m.Length0 == m.Length1 == Size(v)
    requires forall r, c :: 0 <= r < Size(v) && 0 <= c < Size(v) ==> (m[r, c] <==> Dark(v, r, c))
    ensures Placed(m, v, cw, [])
  {
    hide Dark, Free;
    LastRank(v);
  }

  /** Builds the symbol; the mask loop always leaves a matrix behind. */
  method BuildMatrix(v: VersionNumber, cw: Bytes) returns (r: Option<array2<bool>>)
    ensures r.Some? && Snap(r.value) == Symbol(v, cw, BestMask(v, cw, 8))
  {
    hide Reserved, Dark, Unmasked, Free, Placed, Symbol, Penalty, MaskAt, Snap;
    var canvas := FunctionPatterns(v);
    StartPlaced(canvas.modules, v, cw);
    PlaceData(canvas, v, cw);
    var best: int := -1;
    var bestMatrix: array2?<bool> := null;
    for mask := 0 to 8
      invariant canvas.Valid() && canvas.size == Size(v)
      invariant forall r, c :: 0 <= r < Size(v) && 0 <= c < Size(v) ==> (canvas.reserved[r, c] <==> Reserved(v, r, c))
      invariant forall r, c :: 0 <= r < Size(v) && 0 <= c < Size(v) ==>
                  (canvas.modules[r, c] <==> Unmasked(v, cw, r, c))
      invariant mask == 0 ==> best == -1
      invariant mask > 0 ==> bestMatrix != null && Snap(bestMatrix) == Symbol(v, cw, BestMask(v, cw, mask))
      invariant mask > 0 ==> best == Score(v, cw, BestMask(v, cw, mask))
    {
      var candidate := MakeCandidate(canvas, v, cw, mask);
      var score := ScorePenalty(candidate, canvas.size);
      if best == -1 || score < best {
        best, bestMatrix := score, candidate;
      }
    }
    return Some(bestMatrix);
  }
}
