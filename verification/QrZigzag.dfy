/** The zigzag walk over a symbol and the modules it finds free for data. */
module QrZigzag {
  import opened QrVersions
  import opened QrLayout

  datatype Cell = Cell(r: nat, c: nat)

  predicate GoodSize(s: nat) { s % 2 == 1 && s >= 21 }

  lemma SizeGood(v: VersionNumber)
    ensures GoodSize(Size(v))
  {
  }

  // ---- the walk, section 7.7.3 of ISO/IEC 18004:2015

  /** The right column of pair p: two columns at a time from the right edge, skipping column 6. */
  function Right(s: nat, p: nat): int
  {
    if s - 1 - 2 * p > 6 then s - 1 - 2 * p else s - 2 - 2 * p
  }

  function Pairs(s: nat): nat { if s == 0 then 0 else (s - 1) / 2 }

  function Row(s: nat, p: nat, i: nat): int { if p % 2 == 0 then s - 1 - i else i }

  /** The q-th module of pair p: upwards in even pairs, right column first. */
  function Visit(s: nat, p: nat, q: nat): Cell
    requires GoodSize(s) && p < Pairs(s) && q < 2 * s
  {
    Cell(Row(s, p, q / 2), Right(s, p) - q % 2)
  }

  function PairCells(s: nat, p: nat, n: nat): (cells: seq<Cell>)
    requires GoodSize(s) && p < Pairs(s) && n <= 2 * s
    ensures |cells| == n
  {
    seq(n, q requires 0 <= q < n => Visit(s, p, q))
  }

  function Walk(s: nat, p: nat): (cells: seq<Cell>)
    requires GoodSize(s) && p <= Pairs(s)
    ensures |cells| == 2 * s * p
  {
    if p == 0 then [] else Walk(s, p - 1) + PairCells(s, p - 1, 2 * s)
  }

  /** Which pair a column other than 6 belongs to. */
  function PairOf(s: nat, c: nat): int
  {
    if c > 6 then (s - 1 - c) / 2 else (s - 2 - c) / 2
  }

  ghost predicate Distinct(cells: seq<Cell>)
  {
    forall i, j :: 0 <= i < j < |cells| ==> cells[i] != cells[j]
  }

  lemma ColumnPair(s: nat, p: nat, c: nat)
    requires GoodSize(s) && p < Pairs(s) && c < s && c != 6
    ensures PairOf(s, c) == p <==> c == Right(s, p) || c == Right(s, p) - 1
  {
  }

  lemma PairDistinct(s: nat, p: nat, n: nat)
    requires GoodSize(s) && p < Pairs(s) && n <= 2 * s
    ensures Distinct(PairCells(s, p, n))
  {
    forall i, j | 0 <= i < j < n ensures Visit(s, p, i) != Visit(s, p, j) {
      if i / 2 == j / 2 { assert i % 2 != j % 2; }
    }
  }

  lemma PairMembers(s: nat, p: nat, r: nat, c: nat)
    requires GoodSize(s) && p < Pairs(s)
    ensures Cell(r, c) in PairCells(s, p, 2 * s) <==> r < s && c < s && c != 6 && PairOf(s, c) == p
  {
    var cells := PairCells(s, p, 2 * s);
    if r < s && c < s && c != 6 && PairOf(s, c) == p {
      ColumnPair(s, p, c);
      var q := 2 * (if p % 2 == 0 then s - 1 - r else r) + (Right(s, p) - c);
      assert Visit(s, p, q) == Cell(r, c);
      assert cells[q] == Cell(r, c);
    }
    if Cell(r, c) in cells {
      var q :| 0 <= q < 2 * s && cells[q] == Cell(r, c);
      assert c != 6 && c < s;
      ColumnPair(s, p, c);
    }
  }

  /** The walk visits each module of the pairs behind it exactly once, and no other. */
  lemma {:induction false} WalkVisits(s: nat, p: nat, r: nat, c: nat)
    requires GoodSize(s) && p <= Pairs(s)
    ensures Cell(r, c) in Walk(s, p) <==> r < s && c < s && c != 6 && PairOf(s, c) < p
    decreases p
  {
    if p == 0 {
      if r < s && c < s && c != 6 { assert PairOf(s, c) >= 0; }
    } else {
      WalkVisits(s, p - 1, r, c);
      PairMembers(s, p - 1, r, c);
    }
  }

  lemma DistinctConcat(a: seq<Cell>, b: seq<Cell>)
    requires Distinct(a) && Distinct(b)
    requires forall x :: x in a ==> x !in b
    ensures Distinct(a + b)
  {
    forall i, j | 0 <= i < j < |a + b| ensures (a + b)[i] != (a + b)[j] {
      if i < |a| <= j { assert a[i] in a && b[j - |a|] in b; }
    }
  }

  lemma {:induction false} WalkDistinct(s: nat, p: nat)
    requires GoodSize(s) && p <= Pairs(s)
    ensures Distinct(Walk(s, p))
    decreases p
  {
    hide Visit, PairOf, PairCells;
    if p > 0 {
      WalkDistinct(s, p - 1);
      PairDistinct(s, p - 1, 2 * s);
      var behind, next := Walk(s, p - 1), PairCells(s, p - 1, 2 * s);
      forall x | x in behind ensures x !in next {
        WalkVisits(s, p - 1, x.r, x.c);
        PairMembers(s, p - 1, x.r, x.c);
      }
      DistinctConcat(behind, next);
    }
  }

  /** The whole walk: every module outside column 6 exactly once. */
  lemma WalkComplete(s: nat)
    requires GoodSize(s)
    ensures Distinct(Walk(s, Pairs(s)))
    ensures forall x: Cell :: x in Walk(s, Pairs(s)) <==> x.r < s && x.c < s && x.c != 6
  {
    hide Walk;
    WalkDistinct(s, Pairs(s));
    forall x: Cell ensures x in Walk(s, Pairs(s)) <==> x.r < s && x.c < s && x.c != 6 {
      WalkVisits(s, Pairs(s), x.r, x.c);
    }
  }

  // ---- the course of the walk

  lemma WalkLongEnough(s: nat, p: nat, q: nat)
    requires GoodSize(s) && p < Pairs(s) && q < 2 * s
    ensures 2 * s * p + q < 2 * s * Pairs(s)
    ensures p > 0 ==> 2 * s * p >= 2 * s
  {
    assert 2 * s * p + 2 * s == 2 * s * (p + 1);
    MoreIsMore(2 * s, p + 1, Pairs(s));
    if p > 0 { MoreIsMore(2 * s, 1, p); }
  }

  lemma MoreIsMore(x: nat, a: nat, b: nat)
    requires a <= b
    ensures x * a <= x * b
  {
  }

  lemma {:induction false} WalkAt(s: nat, n: nat, p: nat, q: nat)
    requires GoodSize(s) && p < n <= Pairs(s) && q < 2 * s
    ensures 2 * s * p + q < |Walk(s, n)| && Walk(s, n)[2 * s * p + q] == Visit(s, p, q)
    decreases n
  {
    hide Visit;
    assert 2 * s * n == 2 * s * (n - 1) + 2 * s;
    if p < n - 1 {
      WalkAt(s, n - 1, p, q);
    }
  }

  /** How the walk goes, without reference to rows and pairs: from the bottom right corner, to the left
      neighbour at every second step, otherwise one row on in the same two columns, and at the end of these
      to the next two columns in the same row, skipping column 6. */
  lemma WalkCourse(s: nat, p: nat, q: nat)
    requires GoodSize(s) && p < Pairs(s) && q < 2 * s
    ensures var walk, k := Walk(s, Pairs(s)), 2 * s * p + q;
            && k < |walk| && (p > 0 ==> k >= 2)
            && (k == 0 ==> walk[k] == Cell(s - 1, s - 1))
            && (q % 2 == 1 ==> walk[k].r == walk[k - 1].r && walk[k].c + 1 == walk[k - 1].c)
            && (q % 2 == 0 && q > 0 ==> walk[k].c == walk[k - 2].c && Abs(walk[k].r - walk[k - 2].r) == 1)
            && (q == 0 && p > 0 ==>
                  walk[k].r == walk[k - 2].r && walk[k].c == walk[k - 2].c - if walk[k - 2].c == 8 then 3 else 2)
  {
    hide *;
    WalkLongEnough(s, p, q);
    WalkAt(s, Pairs(s), p, q);
    VisitCourse(s, p, q);
    if q == 0 {
      if p > 0 {
        assert 2 * s * (p - 1) + (2 * s - 2) == 2 * s * p - 2;
        WalkAt(s, Pairs(s), p - 1, 2 * s - 2);
      }
    } else if q % 2 == 1 {
      WalkAt(s, Pairs(s), p, q - 1);
    } else {
      WalkAt(s, Pairs(s), p, q - 2);
    }
  }

  lemma LeftStep(s: nat, p: nat, q: nat)
    requires GoodSize(s) && p < Pairs(s) && q < 2 * s && q % 2 == 1
    ensures Visit(s, p, q).r == Visit(s, p, q - 1).r && Visit(s, p, q).c + 1 == Visit(s, p, q - 1).c
  {
    var k := q / 2;
    assert q == 2 * k + 1 && (q - 1) / 2 == k && (q - 1) % 2 == 0;
    hide Right, Row, Pairs;
  }

  lemma RowStep(s: nat, p: nat, q: nat)
    requires GoodSize(s) && p < Pairs(s) && 0 < q < 2 * s && q % 2 == 0
    ensures Visit(s, p, q).c == Visit(s, p, q - 2).c && Abs(Visit(s, p, q).r - Visit(s, p, q - 2).r) == 1
  {
    var k := q / 2;
    assert q == 2 * k && (q - 2) / 2 == k - 1 && (q - 2) % 2 == 0;
    hide Right, Pairs;
  }

  lemma PairStep(s: nat, p: nat)
    requires GoodSize(s) && 0 < p < Pairs(s)
    ensures var last := Visit(s, p - 1, 2 * s - 2);
            Visit(s, p, 0).r == last.r && Visit(s, p, 0).c == last.c - if last.c == 8 then 3 else 2
  {
    assert (2 * s - 2) / 2 == s - 1 && (2 * s - 2) % 2 == 0;
  }

  lemma VisitCourse(s: nat, p: nat, q: nat)
    requires GoodSize(s) && p < Pairs(s) && q < 2 * s
    ensures Visit(s, 0, 0) == Cell(s - 1, s - 1)
    ensures q % 2 == 1 ==> Visit(s, p, q).r == Visit(s, p, q - 1).r && Visit(s, p, q).c + 1 == Visit(s, p, q - 1).c
    ensures q % 2 == 0 && q > 0 ==>
              Visit(s, p, q).c == Visit(s, p, q - 2).c && Abs(Visit(s, p, q).r - Visit(s, p, q - 2).r) == 1
    ensures q == 0 && p > 0 ==>
              var last := Visit(s, p - 1, 2 * s - 2);
              Visit(s, p, q).r == last.r && Visit(s, p, q).c == last.c - if last.c == 8 then 3 else 2
  {
    FirstVisit(s);
    hide *;
    if q % 2 == 1 { LeftStep(s, p, q); }
    else if q > 0 { RowStep(s, p, q); }
    else if p > 0 { PairStep(s, p); }
  }

  lemma FirstVisit(s: nat)
    requires GoodSize(s)
    ensures Pairs(s) > 0 && Visit(s, 0, 0) == Cell(s - 1, s - 1)
  {
  }

  // ---- the free modules along the walk

  function Free(v: VersionNumber, cells: seq<Cell>): seq<Cell>
  {
    if cells == [] then []
    else
      var x := cells[|cells| - 1];
      Free(v, cells[..|cells| - 1]) + if Reserved(v, x.r, x.c) then [] else [x]
  }

  lemma FreeSnoc(v: VersionNumber, cells: seq<Cell>, x: Cell)
    ensures Free(v, cells + [x]) == if Reserved(v, x.r, x.c) then Free(v, cells) else Free(v, cells) + [x]
  {
    hide Reserved;
    assert (cells + [x])[..|cells|] == cells;
  }

  lemma {:induction false} FreeMembers(v: VersionNumber, cells: seq<Cell>, x: Cell)
    ensures x in Free(v, cells) <==> x in cells && !Reserved(v, x.r, x.c)
    decreases |cells|
  {
    hide Reserved;
    if cells != [] {
      var h, y := cells[..|cells| - 1], cells[|cells| - 1];
      assert cells == h + [y];
      FreeMembers(v, h, x);
    }
  }

  lemma {:induction false} FreeDistinct(v: VersionNumber, cells: seq<Cell>)
    requires Distinct(cells)
    ensures Distinct(Free(v, cells))
    decreases |cells|
  {
    hide Reserved;
    if cells != [] {
      var h, y := cells[..|cells| - 1], cells[|cells| - 1];
      FreeDistinct(v, h);
      if y in Free(v, h) { FreeMembers(v, h, y); }
    }
  }

  lemma {:induction false} FreeConcat(v: VersionNumber, a: seq<Cell>, b: seq<Cell>)
    ensures Free(v, a + b) == Free(v, a) + Free(v, b)
    decreases |b|
  {
    hide Reserved;
    if b == [] {
      assert a + b == a;
    } else {
      var h, x := b[..|b| - 1], b[|b| - 1];
      assert a + b == (a + h) + [x] && b == h + [x];
      FreeConcat(v, a, h);
      FreeSnoc(v, a + h, x);
      FreeSnoc(v, h, x);
    }
  }

  /** The four modules in the bottom right corner, from right to left and from bottom to top. */
  function Corner(s: nat): seq<Cell>
    requires s >= 21
  {
    [Cell(s - 1, s - 1), Cell(s - 1, s - 2), Cell(s - 2, s - 1), Cell(s - 2, s - 2)]
  }

  lemma WalkStartsInCorner(s: nat)
    requires GoodSize(s)
    ensures Corner(s) <= Walk(s, Pairs(s))
  {
    forall q: nat | q < 4 ensures q < |Walk(s, Pairs(s))| && Walk(s, Pairs(s))[q] == Visit(s, 0, q) {
      WalkAt(s, Pairs(s), 0, q);
    }
    hide Walk;
  }

  lemma {:induction false} AllFree(v: VersionNumber, cells: seq<Cell>)
    requires forall i :: 0 <= i < |cells| ==> !Reserved(v, cells[i].r, cells[i].c)
    ensures Free(v, cells) == cells
    decreases |cells|
  {
    hide Reserved;
    if cells != [] {
      AllFree(v, cells[..|cells| - 1]);
    }
  }

  lemma CornerModule(v: VersionNumber, r: nat, c: nat)
    requires Size(v) <= r + 2 && r < Size(v) && Size(v) <= c + 2 && c < Size(v)
    ensures !Reserved(v, r, c)
  {
    CentresGood(v);
    hide Spec;
  }

  lemma CornerIsFree(v: VersionNumber)
    ensures Size(v) >= 21 && Free(v, Corner(Size(v))) == Corner(Size(v))
  {
    hide Reserved, Free;
    var cells := Corner(Size(v));
    forall i | 0 <= i < |cells| ensures !Reserved(v, cells[i].r, cells[i].c) {
      CornerModule(v, cells[i].r, cells[i].c);
    }
    AllFree(v, cells);
  }

  /** The modules that carry data, in the order they are filled. */
  function DataCells(v: VersionNumber): seq<Cell>
  {
    SizeGood(v);
    Free(v, Walk(Size(v), Pairs(Size(v))))
  }

  /** Every free module is filled exactly once. */
  lemma DataCellsExact(v: VersionNumber)
    ensures Distinct(DataCells(v))
    ensures forall x: Cell :: x in DataCells(v) <==> x.r < Size(v) && x.c < Size(v) && !Reserved(v, x.r, x.c)
  {
    SizeGood(v);
    hide Free, Walk;
    var walk := Walk(Size(v), Pairs(Size(v)));
    WalkComplete(Size(v));
    FreeDistinct(v, walk);
    forall x: Cell
      ensures x in DataCells(v) <==> x.r < Size(v) && x.c < Size(v) && !Reserved(v, x.r, x.c)
    {
      FreeMembers(v, walk, x);
      Column6(v, x.r);
    }
  }

  /** Data starts in the bottom right corner. */
  lemma DataStartsInCorner(v: VersionNumber)
    ensures Size(v) >= 21 && Corner(Size(v)) <= DataCells(v)
  {
    SizeGood(v);
    CornerIsFree(v);
    WalkStartsInCorner(Size(v));
    var walk := Walk(Size(v), Pairs(Size(v)));
    assert DataCells(v) == Free(v, walk);
    hide Free, Walk, DataCells;
    assert walk == Corner(Size(v)) + walk[4..];
    FreeConcat(v, Corner(Size(v)), walk[4..]);
  }

  /** Column 6 is wholly claimed, by finders and timing. */
  lemma Column6(v: VersionNumber, r: nat)
    ensures Reserved(v, r, 6)
  {
  }

  // ---- how many there are

  ghost function RowSet(r: nat, c0: nat, w: nat): set<Cell>
  {
    if w == 0 then {} else RowSet(r, c0, w - 1) + {Cell(r, c0 + w - 1)}
  }

  ghost function Rect(r0: nat, h: nat, c0: nat, w: nat): set<Cell>
  {
    if h == 0 then {} else Rect(r0, h - 1, c0, w) + RowSet(r0 + h - 1, c0, w)
  }

  predicate InRect(x: Cell, r0: nat, h: nat, c0: nat, w: nat)
  {
    r0 <= x.r < r0 + h && c0 <= x.c < c0 + w
  }

  lemma {:induction false} RowMembers(r: nat, c0: nat, w: nat)
    ensures forall x: Cell :: x in RowSet(r, c0, w) <==> InRect(x, r, 1, c0, w)
  {
    if w > 0 { RowMembers(r, c0, w - 1); }
  }

  lemma {:induction false} RectMembers(r0: nat, h: nat, c0: nat, w: nat)
    ensures forall x: Cell :: x in Rect(r0, h, c0, w) <==> InRect(x, r0, h, c0, w)
  {
    if h > 0 {
      RectMembers(r0, h - 1, c0, w);
      RowMembers(r0 + h - 1, c0, w);
    }
  }

  lemma {:induction false} RowCount(r: nat, c0: nat, w: nat)
    ensures |RowSet(r, c0, w)| == w
  {
    if w > 0 {
      RowCount(r, c0, w - 1);
      RowMembers(r, c0, w - 1);
    }
  }

  function Product(h: nat, w: nat): nat { if h == 0 then 0 else Product(h - 1, w) + w }

  lemma {:induction false} ProductIs(h: nat, w: nat)
    ensures Product(h, w) == h * w
  {
    if h > 0 {
      ProductIs(h - 1, w);
      assert h * w == (h - 1) * w + w;
    }
  }

  lemma UnionCount<T>(a: set<T>, b: set<T>)
    requires a !! b
    ensures |a + b| == |a| + |b|
  {
  }

  lemma LastRow(r0: nat, h: nat, c0: nat, w: nat)
    ensures Rect(r0, h, c0, w) !! RowSet(r0 + h, c0, w)
  {
    hide Rect, RowSet;
    RectMembers(r0, h, c0, w);
    RowMembers(r0 + h, c0, w);
  }

  lemma RectUnfolds(r0: nat, h: nat, c0: nat, w: nat)
    ensures h == 0 ==> Rect(r0, h, c0, w) == {} && Product(h, w) == 0
    ensures h > 0 ==> Rect(r0, h, c0, w) == Rect(r0, h - 1, c0, w) + RowSet(r0 + h - 1, c0, w)
    ensures h > 0 ==> Product(h, w) == Product(h - 1, w) + w
  {
    hide RowSet;
  }

  lemma {:induction false} RectCount(r0: nat, h: nat, c0: nat, w: nat)
    ensures |Rect(r0, h, c0, w)| == Product(h, w)
    decreases h
  {
    RectUnfolds(r0, h, c0, w);
    hide *;
    if h > 0 {
      RectCount(r0, h - 1, c0, w);
      RowCount(r0 + h - 1, c0, w);
      LastRow(r0, h - 1, c0, w);
      UnionCount(Rect(r0, h - 1, c0, w), RowSet(r0 + h - 1, c0, w));
    }
  }

  /** A set made of finitely many rectangles, no two of which meet. */
  datatype Box = Box(r0: nat, h: nat, c0: nat, w: nat)
  {
    predicate Has(x: Cell) { InRect(x, r0, h, c0, w) }
  }

  ghost predicate Covers(boxes: seq<Box>, x: Cell) { exists i :: 0 <= i < |boxes| && boxes[i].Has(x) }

  ghost function BoxUnion(boxes: seq<Box>): set<Cell>
  {
    if boxes == [] then {} else
      var b := boxes[|boxes| - 1];
      BoxUnion(boxes[..|boxes| - 1]) + Rect(b.r0, b.h, b.c0, b.w)
  }

  function BoxSum(boxes: seq<Box>): nat
  {
    if boxes == [] then 0 else BoxSum(boxes[..|boxes| - 1]) + boxes[|boxes| - 1].h * boxes[|boxes| - 1].w
  }

  predicate Apart(a: Box, b: Box)
  {
    a.r0 + a.h <= b.r0 || b.r0 + b.h <= a.r0 || a.c0 + a.w <= b.c0 || b.c0 + b.w <= a.c0
  }

  ghost predicate AllApart(boxes: seq<Box>)
  {
    forall i, j :: 0 <= i < j < |boxes| ==> Apart(boxes[i], boxes[j])
  }

  lemma {:induction false} BoxMembers(boxes: seq<Box>, x: Cell)
    ensures x in BoxUnion(boxes) <==> Covers(boxes, x)
    decreases |boxes|
  {
    hide Rect;
    if boxes != [] {
      var n := |boxes| - 1;
      var b := boxes[n];
      BoxMembers(boxes[..n], x);
      RectMembers(b.r0, b.h, b.c0, b.w);
      assert Covers(boxes, x) <==> Covers(boxes[..n], x) || b.Has(x) by {
        if Covers(boxes[..n], x) {
          var i :| 0 <= i < n && boxes[..n][i].Has(x);
          assert boxes[i].Has(x);
        }
        if i :| 0 <= i < |boxes| && boxes[i].Has(x) && i < n {
          assert boxes[..n][i].Has(x);
        }
      }
    }
  }

  lemma {:induction false} BoxCount(boxes: seq<Box>)
    requires AllApart(boxes)
    ensures |BoxUnion(boxes)| == BoxSum(boxes)
    decreases |boxes|
  {
    hide Rect, Covers;
    if boxes != [] {
      var n := |boxes| - 1;
      var b := boxes[n];
      BoxCount(boxes[..n]);
      RectCount(b.r0, b.h, b.c0, b.w);
      ProductIs(b.h, b.w);
      NewBoxApart(boxes[..n], b);
      UnionCount(BoxUnion(boxes[..n]), Rect(b.r0, b.h, b.c0, b.w));
    }
  }

  lemma NewBoxApart(boxes: seq<Box>, b: Box)
    requires forall i :: 0 <= i < |boxes| ==> Apart(boxes[i], b)
    ensures BoxUnion(boxes) !! Rect(b.r0, b.h, b.c0, b.w)
  {
    hide Rect, BoxUnion;
    RectMembers(b.r0, b.h, b.c0, b.w);
    forall x | x in BoxUnion(boxes) ensures x !in Rect(b.r0, b.h, b.c0, b.w) {
      BoxMembers(boxes, x);
    }
  }

  // ---- the boxes that make up each area

  function AreaBoxes(v: VersionNumber, k: nat): seq<Box>
  {
    var s := Size(v);
    if k == 1 then [Box(0, 8, 0, 8)] + [Box(0, 8, s - 8, 8)] + [Box(s - 8, 8, 0, 8)]
    else if k == 2 then [Box(6, 1, 8, s - 16)] + [Box(8, s - 16, 6, 1)]
    else if k == 3 then AlignmentBoxes(v)
    else if k == 4 then [Box(s - 8, 1, 8, 1)]
    else if k == 5 then FormatBoxes(s)
    else if k == 6 && v >= 7 then [Box(0, 6, s - 11, 3)] + [Box(s - 11, 3, 0, 6)]
    else []
  }

  function Square(a: nat, b: nat): Box { Box(if a < 2 then 0 else a - 2, 5, if b < 2 then 0 else b - 2, 5) }

  function AlignmentBoxes(v: VersionNumber): seq<Box>
  {
    var al := Spec(v).alignment;
    if |al| < 2 then []
    else if |al| == 2 then [Square(al[1], al[1])]
    else [Square(al[1], al[1])] + [Square(al[1], al[2])] + [Square(al[2], al[1])] + [Square(al[2], al[2])]
  }

  function FormatBoxes(s: nat): seq<Box>
    requires s >= 21
  {
    [Box(8, 1, 0, 6)] + [Box(8, 1, 7, 2)] + [Box(8, 1, s - 8, 8)]
    + [Box(0, 6, 8, 1)] + [Box(7, 1, 8, 1)] + [Box(s - 7, 7, 8, 1)]
  }

  lemma CoversOne(x: Cell, b: Box)
    ensures Covers([b], x) <==> b.Has(x)
  {
    assert [b][0] == b;
  }

  lemma CoversConcat(a: seq<Box>, b: seq<Box>, x: Cell)
    ensures Covers(a + b, x) <==> Covers(a, x) || Covers(b, x)
  {
    if i :| 0 <= i < |a| && a[i].Has(x) { assert (a + b)[i].Has(x); }
    if i :| 0 <= i < |b| && b[i].Has(x) { assert (a + b)[|a| + i].Has(x); }
    if i :| 0 <= i < |a + b| && (a + b)[i].Has(x) {
      if i < |a| { assert a[i].Has(x); } else { assert b[i - |a|].Has(x); }
    }
  }

  lemma CoversSnoc(a: seq<Box>, b: Box, x: Cell)
    ensures Covers(a + [b], x) <==> Covers(a, x) || b.Has(x)
  {
    hide Covers;
    CoversConcat(a, [b], x);
    CoversOne(x, b);
  }

  /** The boxes of an area cover exactly its modules. */
  lemma AreaCovered(v: VersionNumber, k: nat, x: Cell)
    requires 1 <= k <= 6 && x.r < Size(v) && x.c < Size(v)
    ensures Covers(AreaBoxes(v, k), x) <==> RankOf(v, x.r, x.c) == k
  {
    CentresGood(v);
    if k == 1 { FinderCovered(v, x); }
    else if k == 2 { TimingCovered(v, x); }
    else if k == 3 { AlignmentCovered(v, x); }
    else if k == 4 {
      hide Spec, Covers;
      CoversOne(x, Box(Size(v) - 8, 1, 8, 1));
    }
    else if k == 5 { FormatCovered(v, x); }
    else { VersionInfoCovered(v, x); }
  }

  lemma FinderCovered(v: VersionNumber, x: Cell)
    requires x.r < Size(v) && x.c < Size(v)
    ensures Covers(AreaBoxes(v, 1), x) <==> RankOf(v, x.r, x.c) == 1
  {
    hide Spec, Covers, CentreIndex;
    var s := Size(v);
    CoversOne(x, Box(0, 8, 0, 8));
    CoversSnoc([Box(0, 8, 0, 8)], Box(0, 8, s - 8, 8), x);
    CoversSnoc([Box(0, 8, 0, 8)] + [Box(0, 8, s - 8, 8)], Box(s - 8, 8, 0, 8), x);
  }

  lemma TimingCovered(v: VersionNumber, x: Cell)
    requires x.r < Size(v) && x.c < Size(v)
    ensures Covers(AreaBoxes(v, 2), x) <==> RankOf(v, x.r, x.c) == 2
  {
    hide Spec, Covers, CentreIndex;
    var s := Size(v);
    CoversOne(x, Box(6, 1, 8, s - 16));
    CoversSnoc([Box(6, 1, 8, s - 16)], Box(8, s - 16, 6, 1), x);
  }

  lemma AlignmentCovered(v: VersionNumber, x: Cell)
    requires x.r < Size(v) && x.c < Size(v)
    ensures Covers(AreaBoxes(v, 3), x) <==> RankOf(v, x.r, x.c) == 3
  {
    CentresGood(v);
    hide Spec, Covers, InFormat, InVersionInfo;
    var al := Spec(v).alignment;
    if |al| < 2 {
      NothingCovered(x);
    } else if |al| == 2 {
      CoversOne(x, Square(al[1], al[1]));
    } else {
      var one := [Square(al[1], al[1])];
      CoversOne(x, Square(al[1], al[1]));
      CoversSnoc(one, Square(al[1], al[2]), x);
      CoversSnoc(one + [Square(al[1], al[2])], Square(al[2], al[1]), x);
      CoversSnoc(one + [Square(al[1], al[2])] + [Square(al[2], al[1])], Square(al[2], al[2]), x);
    }
  }

  lemma NothingCovered(x: Cell)
    ensures !Covers([], x)
  {
  }

  lemma FormatCovered(v: VersionNumber, x: Cell)
    requires x.r < Size(v) && x.c < Size(v)
    ensures Covers(AreaBoxes(v, 5), x) <==> RankOf(v, x.r, x.c) == 5
  {
    CentresGood(v);
    hide Spec, Covers, InVersionInfo;
    var s := Size(v);
    var b := [Box(8, 1, 0, 6)];
    CoversOne(x, Box(8, 1, 0, 6));
    CoversSnoc(b, Box(8, 1, 7, 2), x);
    CoversSnoc(b + [Box(8, 1, 7, 2)], Box(8, 1, s - 8, 8), x);
    CoversSnoc(b + [Box(8, 1, 7, 2)] + [Box(8, 1, s - 8, 8)], Box(0, 6, 8, 1), x);
    CoversSnoc(b + [Box(8, 1, 7, 2)] + [Box(8, 1, s - 8, 8)] + [Box(0, 6, 8, 1)], Box(7, 1, 8, 1), x);
    CoversSnoc(b + [Box(8, 1, 7, 2)] + [Box(8, 1, s - 8, 8)] + [Box(0, 6, 8, 1)] + [Box(7, 1, 8, 1)],
               Box(s - 7, 7, 8, 1), x);
  }

  lemma VersionInfoCovered(v: VersionNumber, x: Cell)
    requires x.r < Size(v) && x.c < Size(v)
    ensures Covers(AreaBoxes(v, 6), x) <==> RankOf(v, x.r, x.c) == 6
  {
    CentresGood(v);
    hide Spec, Covers;
    var s := Size(v);
    if v >= 7 {
      CoversOne(x, Box(0, 6, s - 11, 3));
      CoversSnoc([Box(0, 6, s - 11, 3)], Box(s - 11, 3, 0, 6), x);
    } else {
      NothingCovered(x);
    }
  }

  /** How many modules each area has. */
  function AreaCount(v: VersionNumber, k: nat): nat
  {
    match k
    case 1 => 192
    case 2 => 2 * Size(v) - 32
    case 3 => if v == 1 then 0 else if v < 7 then 25 else 100
    case 4 => 1
    case 5 => 30
    case 6 => if v >= 7 then 36 else 0
    case _ => 0
  }

  lemma {:induction false} BoxSumConcat(a: seq<Box>, b: seq<Box>)
    ensures BoxSum(a + b) == BoxSum(a) + BoxSum(b)
    decreases |b|
  {
    if b == [] {
      assert a + b == a;
    } else {
      assert (a + b)[..|a + b| - 1] == a + b[..|b| - 1];
      BoxSumConcat(a, b[..|b| - 1]);
    }
  }

  lemma BoxSumOne(b: Box)
    ensures BoxSum([b]) == b.h * b.w
  {
  }

  lemma AreaSum(v: VersionNumber, k: nat)
    requires 1 <= k <= 6
    ensures BoxSum(AreaBoxes(v, k)) == AreaCount(v, k)
  {
    CentresGood(v);
    var s := Size(v);
    if k == 3 {
      AlignmentSum(v);
    } else if k == 5 {
      FormatSum(s);
    } else {
      hide Spec, BoxSum;
      if k == 1 {
        BoxSumOne(Box(0, 8, 0, 8)); BoxSumOne(Box(0, 8, s - 8, 8)); BoxSumOne(Box(s - 8, 8, 0, 8));
        BoxSumConcat([Box(0, 8, 0, 8)] + [Box(0, 8, s - 8, 8)], [Box(s - 8, 8, 0, 8)]);
        BoxSumConcat([Box(0, 8, 0, 8)], [Box(0, 8, s - 8, 8)]);
      } else if k == 2 {
        BoxSumOne(Box(6, 1, 8, s - 16)); BoxSumOne(Box(8, s - 16, 6, 1));
        BoxSumConcat([Box(6, 1, 8, s - 16)], [Box(8, s - 16, 6, 1)]);
      } else if k == 4 {
        BoxSumOne(Box(s - 8, 1, 8, 1));
      } else if v >= 7 {
        BoxSumOne(Box(0, 6, s - 11, 3)); BoxSumOne(Box(s - 11, 3, 0, 6));
        BoxSumConcat([Box(0, 6, s - 11, 3)], [Box(s - 11, 3, 0, 6)]);
      } else {
        EmptySum();
      }
    }
  }

  lemma EmptySum()
    ensures BoxSum([]) == 0
  {
  }

  lemma AlignmentSum(v: VersionNumber)
    ensures BoxSum(AlignmentBoxes(v)) == AreaCount(v, 3)
  {
    CentresGood(v);
    var al := Spec(v).alignment;
    assert |al| == if v == 1 then 0 else if v < 7 then 2 else 3;
    hide Spec, BoxSum;
    if |al| < 2 {
      EmptySum();
    } else if |al| == 2 {
      BoxSumOne(Square(al[1], al[1]));
    } else {
      var a, b, c, d := Square(al[1], al[1]), Square(al[1], al[2]), Square(al[2], al[1]), Square(al[2], al[2]);
      BoxSumOne(a); BoxSumOne(b); BoxSumOne(c); BoxSumOne(d);
      BoxSumConcat([a], [b]);
      BoxSumConcat([a] + [b], [c]);
      BoxSumConcat([a] + [b] + [c], [d]);
    }
  }

  lemma FormatSum(s: nat)
    requires s >= 21
    ensures BoxSum(FormatBoxes(s)) == 30
  {
    hide BoxSum;
    var a, b, c := Box(8, 1, 0, 6), Box(8, 1, 7, 2), Box(8, 1, s - 8, 8);
    var d, e, f := Box(0, 6, 8, 1), Box(7, 1, 8, 1), Box(s - 7, 7, 8, 1);
    BoxSumOne(a); BoxSumOne(b); BoxSumOne(c); BoxSumOne(d); BoxSumOne(e); BoxSumOne(f);
    BoxSumConcat([a], [b]);
    BoxSumConcat([a] + [b], [c]);
    BoxSumConcat([a] + [b] + [c], [d]);
    BoxSumConcat([a] + [b] + [c] + [d], [e]);
    BoxSumConcat([a] + [b] + [c] + [d] + [e], [f]);
  }

  lemma AreaApart(v: VersionNumber, k: nat)
    requires 1 <= k <= 6
    ensures AllApart(AreaBoxes(v, k))
  {
    CentresGood(v);
    hide Spec;
  }

  lemma AreaSize(v: VersionNumber, k: nat)
    requires 1 <= k <= 6
    ensures |BoxUnion(AreaBoxes(v, k))| == AreaCount(v, k)
  {
    hide *;
    AreaApart(v, k);
    BoxCount(AreaBoxes(v, k));
    AreaSum(v, k);
  }

  // ---- all the claimed modules, and the free ones

  /** The modules of the areas up to rank k. */
  ghost function Claimed(v: VersionNumber, k: nat): set<Cell>
  {
    if k == 0 then {} else Claimed(v, k - 1) + BoxUnion(AreaBoxes(v, k))
  }

  function ClaimedCount(v: VersionNumber, k: nat): nat
  {
    if k == 0 then 0 else ClaimedCount(v, k - 1) + AreaCount(v, k)
  }

  lemma {:induction false} ClaimedMembers(v: VersionNumber, k: nat, x: Cell)
    requires k <= 6 && x.r < Size(v) && x.c < Size(v)
    ensures x in Claimed(v, k) <==> RankOf(v, x.r, x.c) <= k
  {
    hide AreaBoxes, BoxUnion, AreaOf, Rank;
    NothingLaid();
    if k > 0 {
      ClaimedMembers(v, k - 1, x);
      BoxMembers(AreaBoxes(v, k), x);
      AreaCovered(v, k, x);
    }
  }

  /** The boxes stay inside the symbol. */
  lemma BoxesInside(v: VersionNumber, k: nat)
    requires 1 <= k <= 6
    ensures forall i :: 0 <= i < |AreaBoxes(v, k)| ==>
              var b := AreaBoxes(v, k)[i]; b.r0 + b.h <= Size(v) && b.c0 + b.w <= Size(v)
  {
    CentresGood(v);
    hide Spec;
  }

  lemma {:induction false} ClaimedInside(v: VersionNumber, k: nat, x: Cell)
    requires k <= 6 && x in Claimed(v, k)
    ensures x.r < Size(v) && x.c < Size(v)
  {
    hide AreaBoxes, BoxUnion;
    if x in Claimed(v, k - 1) {
      ClaimedInside(v, k - 1, x);
    } else {
      BoxMembers(AreaBoxes(v, k), x);
      BoxesInside(v, k);
    }
  }

  lemma {:induction false} ClaimedSize(v: VersionNumber, k: nat)
    requires k <= 6
    ensures |Claimed(v, k)| == ClaimedCount(v, k)
  {
    hide AreaBoxes, BoxUnion, AreaCount, RankOf, Covers;
    if k > 0 {
      ClaimedSize(v, k - 1);
      AreaSize(v, k);
      var added := BoxUnion(AreaBoxes(v, k));
      forall x | x in Claimed(v, k - 1) ensures x !in added {
        ClaimedInside(v, k - 1, x);
        ClaimedMembers(v, k - 1, x);
        AreaCovered(v, k, x);
        BoxMembers(AreaBoxes(v, k), x);
      }
      UnionCount(Claimed(v, k - 1), added);
    }
  }

  function Elements(cells: seq<Cell>): set<Cell> { set x | x in cells }

  lemma {:induction false} DistinctCount(cells: seq<Cell>)
    requires Distinct(cells)
    ensures |Elements(cells)| == |cells|
    decreases |cells|
  {
    if cells != [] {
      var h, x := cells[..|cells| - 1], cells[|cells| - 1];
      DistinctCount(h);
      assert Elements(cells) == Elements(h) + {x};
    }
  }

  /** The free modules are the symbol's area less the claimed modules. */
  lemma FreeCount(v: VersionNumber)
    ensures |DataCells(v)| == Size(v) * Size(v) - ClaimedCount(v, 6)
  {
    hide *;
    DataCellsExact(v);
    DistinctCount(DataCells(v));
    ClaimedSize(v, 6);
    RectCount(0, Size(v), 0, Size(v));
    ProductIs(Size(v), Size(v));
    FreeIsRest(v);
    UnionCount(Elements(DataCells(v)), Claimed(v, 6));
  }

  lemma FreeIsRest(v: VersionNumber)
    ensures Elements(DataCells(v)) !! Claimed(v, 6)
    ensures Elements(DataCells(v)) + Claimed(v, 6) == Rect(0, Size(v), 0, Size(v))
  {
    DataCellsExact(v);
    RectMembers(0, Size(v), 0, Size(v));
    hide DataCells, Claimed, Rect, RankOf, Reserved;
    forall x: Cell
      ensures x in Claimed(v, 6) ==> InRect(x, 0, Size(v), 0, Size(v)) && x !in DataCells(v)
      ensures InRect(x, 0, Size(v), 0, Size(v)) ==> x in Claimed(v, 6) || x in DataCells(v)
    {
      LastRank(v);
      if x in Claimed(v, 6) { ClaimedInside(v, 6, x); }
      if InRect(x, 0, Size(v), 0, Size(v)) { ClaimedMembers(v, 6, x); }
    }
  }

  /** Free modules left over after the last codeword bit. */
  function Leftover(v: VersionNumber): nat { if v == 1 then 0 else if v < 7 then 7 else 40 }

  /** Every codeword bit has a module: exactly the standard's count for versions 1 to 6, and 40
      more for versions 7 to 10, whose alignment patterns on the timing lines are not laid. */
  lemma Capacity(v: VersionNumber)
    ensures |DataCells(v)| == 8 * Spec(v).totalCodewords + Leftover(v)
  {
    hide DataCells;
    FreeCount(v);
    CapacityTable(v);
  }

  predicate CapacityHolds(v: VersionNumber)
  {
    Size(v) * Size(v) - ClaimedCount(v, 6) == 8 * Spec(v).totalCodewords + Leftover(v)
  }

  lemma CapacityTable(v: VersionNumber)
    ensures CapacityHolds(v)
  {
    hide CapacityHolds;
    CapacityLow();
    CapacityMiddle();
    CapacityHigh();
    CapacityTop();
  }

  lemma CapacityLow()
    ensures CapacityHolds(1) && CapacityHolds(2) && CapacityHolds(3)
  {
  }

  lemma CapacityMiddle()
    ensures CapacityHolds(4) && CapacityHolds(5) && CapacityHolds(6)
  {
  }

  lemma CapacityHigh()
    ensures CapacityHolds(7) && CapacityHolds(8)
  {
  }

  lemma CapacityTop()
    ensures CapacityHolds(9) && CapacityHolds(10)
  {
  }
}
