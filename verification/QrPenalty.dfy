/** The penalty of a masked symbol, section 7.8.3 of ISO/IEC 18004:2015, and its one-pass scan. */
module QrPenalty {
  import opened QrGrid

  // ---- rule 1: runs

  /** Positions a to b-1 are one run, and it cannot be extended on either side. */
  predicate MaximalRun(l: seq<bool>, a: nat, b: nat)
  {
    && a < b <= |l|
    && (forall k :: a <= k < b ==> l[k] == l[a])
    && (a > 0 ==> l[a - 1] != l[a])
    && (b < |l| ==> l[b] != l[a])
  }

  function Points(len: nat): nat { if len >= 5 then len - 2 else 0 }

  /** The points of the maximal runs that end at b and start before a. */
  function RunsEndingAt(l: seq<bool>, b: nat, a: nat): nat
    requires a <= b
  {
    if a == 0 then 0
    else RunsEndingAt(l, b, a - 1) + if MaximalRun(l, a - 1, b) then Points(b - (a - 1)) else 0
  }

  /** The points of all maximal runs that end at n or before. */
  function RunScore(l: seq<bool>, n: nat): nat
  {
    if n == 0 then 0 else RunScore(l, n - 1) + RunsEndingAt(l, n, n)
  }

  /** How many equal modules end just before b. */
  function RunBack(l: seq<bool>, b: nat): (n: nat)
    requires 0 < b <= |l|
    ensures 0 < n <= b
  {
    if b > 1 && l[b - 2] == l[b - 1] then RunBack(l, b - 1) + 1 else 1
  }

  lemma {:induction false} RunBackSpan(l: seq<bool>, b: nat)
    requires 0 < b <= |l|
    ensures var a := b - RunBack(l, b);
            (forall k :: a <= k < b ==> l[k] == l[b - 1]) && (a > 0 ==> l[a - 1] != l[b - 1])
  {
    if b > 1 && l[b - 2] == l[b - 1] { RunBackSpan(l, b - 1); }
  }

  /** At most one maximal run ends at b, and RunBack tells where it starts. */
  lemma OnlyRun(l: seq<bool>, a: nat, b: nat)
    requires 0 < b <= |l|
    ensures MaximalRun(l, a, b) <==> a == b - RunBack(l, b) && (b < |l| ==> l[b] != l[b - 1])
  {
    RunBackSpan(l, b);
    hide RunBack;
  }

  lemma {:induction false} RunsUpTo(l: seq<bool>, b: nat, a: nat)
    requires 0 < b <= |l| && a <= b
    ensures RunsEndingAt(l, b, a)
         == if b - RunBack(l, b) < a && (b < |l| ==> l[b] != l[b - 1]) then Points(RunBack(l, b)) else 0
    decreases a
  {
    hide RunBack, MaximalRun, Points;
    if a > 0 {
      RunsUpTo(l, b, a - 1);
      OnlyRun(l, a - 1, b);
    }
  }

  /** One step of the scan: a run is scored when the next module differs, or the line ends. */
  lemma ScanStep(l: seq<bool>, b: nat)
    requires 0 < b <= |l|
    ensures RunScore(l, b)
         == RunScore(l, b - 1) + if b == |l| || l[b] != l[b - 1] then Points(RunBack(l, b)) else 0
  {
    hide RunBack, RunsEndingAt;
    RunsUpTo(l, b, b);
  }

  /** The runs of the first i rows and columns. */
  function RunsOfLines(g: Grid, i: nat): nat
    requires IsSquare(g, |g|) && i <= |g|
  {
    if i == 0 then 0
    else RunsOfLines(g, i - 1) + RunScore(Line(g, i - 1, true), |g|) + RunScore(Line(g, i - 1, false), |g|)
  }

  // ---- rule 2: solid blocks

  predicate SolidBlock(g: Grid, r: nat, c: nat)
    requires IsSquare(g, |g|) && r + 1 < |g| && c + 1 < |g|
  {
    g[r][c] == g[r][c + 1] == g[r + 1][c] == g[r + 1][c + 1]
  }

  function BlocksInRow(g: Grid, r: nat, c: nat): nat
    requires IsSquare(g, |g|) && r + 1 < |g| && c < |g|
  {
    if c == 0 then 0 else BlocksInRow(g, r, c - 1) + if SolidBlock(g, r, c - 1) then 3 else 0
  }

  function Blocks(g: Grid, r: nat): nat
    requires IsSquare(g, |g|) && r < |g|
  {
    if r == 0 then 0 else Blocks(g, r - 1) + BlocksInRow(g, r - 1, |g| - 1)
  }

  // ---- rule 3: finder-like sequences

  const PATTERN_A := [true, false, true, true, true, false, true, false, false, false, false]
  const PATTERN_B := [false, false, false, false, true, false, true, true, true, false, true]

  predicate MatchesAt(l: seq<bool>, start: nat, want: seq<bool>)
  {
    start + |want| <= |l| && l[start..start + |want|] == want
  }

  function FinderLike(l: seq<bool>, j: nat): nat
  {
    if MatchesAt(l, j, PATTERN_A) || MatchesAt(l, j, PATTERN_B) then 40 else 0
  }

  function LookalikesInLine(g: Grid, i: nat, j: nat): nat
    requires IsSquare(g, |g|) && i < |g|
  {
    if j == 0 then 0
    else LookalikesInLine(g, i, j - 1) + FinderLike(Line(g, i, true), j - 1) + FinderLike(Line(g, i, false), j - 1)
  }

  function Lookalikes(g: Grid, i: nat): nat
    requires IsSquare(g, |g|) && i <= |g|
  {
    if i == 0 then 0 else Lookalikes(g, i - 1) + LookalikesInLine(g, i - 1, |g|)
  }

  // ---- rule 4: balance

  function DarkInRow(l: seq<bool>, c: nat): nat
    requires c <= |l|
  {
    if c == 0 then 0 else DarkInRow(l, c - 1) + if l[c - 1] then 1 else 0
  }

  function DarkCount(g: Grid, r: nat): nat
    requires r <= |g|
  {
    if r == 0 then 0 else DarkCount(g, r - 1) + DarkInRow(g[r - 1], |g[r - 1]|)
  }

  /** Ten points for every full five percent away from half dark. */
  function Balance(dark: nat, n: nat): nat
    requires n > 0
  {
    var percent := dark * 100 / (n * n);
    var deviation := if percent < 50 then 50 - percent else percent - 50;
    deviation / 5 * 10
  }

  function Penalty(g: Grid): nat
    requires IsSquare(g, |g|) && |g| > 0
  {
    RunsOfLines(g, |g|) + Blocks(g, |g| - 1) + Lookalikes(g, |g|) + Balance(DarkCount(g, |g|), |g|)
  }

  // ---- the scan

  method ScorePenalty(m: array2<bool>, size: nat) returns (score: nat)
    requires m.Length0 == m.Length1 == size > 0
    ensures score == Penalty(Snap(m))
  {
    hide Snap, Penalty, RunsOfLines, Blocks, Lookalikes, Balance, DarkCount;
    PenaltyParts(Snap(m));
    var runs := ScoreRuns(m, size);
    var blocks := ScoreBlocks(m, size);
    var lookalikes := ScoreLookalikes(m, size);
    var dark := CountDark(m, size);
    var balance := ScoreBalance(dark, size);
    score := runs + blocks + lookalikes + balance;
  }

  lemma PenaltyParts(g: Grid)
    requires IsSquare(g, |g|) && |g| > 0
    ensures Penalty(g)
         == RunsOfLines(g, |g|) + Blocks(g, |g| - 1) + Lookalikes(g, |g|) + Balance(DarkCount(g, |g|), |g|)
  {
    hide RunsOfLines, Blocks, Lookalikes, Balance, DarkCount;
  }

  /** Rule 4. */
  method ScoreBalance(dark: nat, size: nat) returns (points: nat)
    requires size > 0
    ensures points == Balance(dark, size)
  {
    var percent := dark * 100 / (size * size);
    var deviation := percent - 50;
    if deviation < 0 {
      deviation := -deviation;
    }
    return deviation / 5 * 10;
  }

  /** Rule 1: row i and column i are scanned side by side. */
  method ScoreRuns(m: array2<bool>, size: nat) returns (score: nat)
    requires m.Length0 == m.Length1 == size > 0
    ensures score == RunsOfLines(Snap(m), size)
  {
    hide RunScore, RunBack, Snap;
    ghost var g := Snap(m);
    score := 0;
    for i := 0 to size
      invariant score == RunsOfLines(g, i)
    {
      ghost var row, col := Line(g, i, true), Line(g, i, false);
      ghost var base := score;
      var runRow, runCol := 1, 1;
      RunStart(row);
      RunStart(col);
      for j := 1 to size
        invariant runRow == RunBack(row, j) && runCol == RunBack(col, j)
        invariant score == base + RunScore(row, j - 1) + RunScore(col, j - 1)
      {
        ScanStep(row, j);
        ScanStep(col, j);
        RunGrows(row, j);
        RunGrows(col, j);
        if m[i, j] == m[i, j - 1] {
          runRow := runRow + 1;
        } else {
          if runRow >= 5 {
            score := score + runRow - 2;
          }
          runRow := 1;
        }
        if m[j, i] == m[j - 1, i] {
          runCol := runCol + 1;
        } else {
          if runCol >= 5 {
            score := score + runCol - 2;
          }
          runCol := 1;
        }
      }
      ScanStep(row, size);
      ScanStep(col, size);
      if runRow >= 5 {
        score := score + runRow - 2;
      }
      if runCol >= 5 {
        score := score + runCol - 2;
      }
    }
  }

  lemma RunStart(l: seq<bool>)
    requires |l| > 0
    ensures RunBack(l, 1) == 1 && RunScore(l, 0) == 0
  {
  }

  lemma RunGrows(l: seq<bool>, b: nat)
    requires 0 < b < |l|
    ensures RunBack(l, b + 1) == if l[b] == l[b - 1] then RunBack(l, b) + 1 else 1
  {
  }

  method ScoreBlocks(m: array2<bool>, size: nat) returns (score: nat)
    requires m.Length0 == m.Length1 == size > 0
    ensures score == Blocks(Snap(m), size - 1)
  {
    hide Snap;
    ghost var g := Snap(m);
    score := 0;
    for r := 0 to size - 1
      invariant score == Blocks(g, r)
    {
      for c := 0 to size - 1
        invariant score == Blocks(g, r) + BlocksInRow(g, r, c)
      {
        if m[r, c] == m[r, c + 1] && m[r, c] == m[r + 1, c] && m[r, c] == m[r + 1, c + 1] {
          score := score + 3;
        }
      }
    }
  }

  method Matches(m: array2<bool>, size: nat, i: nat, isRow: bool, start: nat, want: seq<bool>) returns (ok: bool)
    requires m.Length0 == m.Length1 == size && i < size && start + |want| <= size
    ensures ok == MatchesAt(Line(Snap(m), i, isRow), start, want)
  {
    hide Snap;
    ghost var l := Line(Snap(m), i, isRow);
    for k := 0 to |want|
      invariant forall x :: 0 <= x < k ==> l[start + x] == want[x]
    {
      var here := if isRow then m[i, start + k] else m[start + k, i];
      if here != want[k] {
        assert l[start..start + |want|][k] != want[k];
        return false;
      }
    }
    return true;
  }

  method ScoreLookalikes(m: array2<bool>, size: nat) returns (score: nat)
    requires m.Length0 == m.Length1 == size > 0
    ensures score == Lookalikes(Snap(m), size)
  {
    hide Snap, MatchesAt;
    ghost var g := Snap(m);
    score := 0;
    for i := 0 to size
      invariant score == Lookalikes(g, i)
    {
      var j := 0;
      while j + 11 <= size
        invariant 0 <= j <= size
        invariant j == 0 || j + 10 <= size
        invariant score == Lookalikes(g, i) + LookalikesInLine(g, i, j)
      {
        var a := Matches(m, size, i, true, j, PATTERN_A);
        var b := Matches(m, size, i, true, j, PATTERN_B);
        if a || b {
          score := score + 40;
        }
        a := Matches(m, size, i, false, j, PATTERN_A);
        b := Matches(m, size, i, false, j, PATTERN_B);
        if a || b {
          score := score + 40;
        }
        j := j + 1;
      }
      NoRoom(g, i, j, size);
    }
  }

  /** Too close to the end nothing matches. */
  lemma {:induction false} NoRoom(g: Grid, i: nat, j: nat, n: nat)
    requires IsSquare(g, |g|) && i < |g| && j <= n && j + 11 > |g|
    ensures LookalikesInLine(g, i, n) == LookalikesInLine(g, i, j)
    decreases n
  {
    if j < n { NoRoom(g, i, j, n - 1); }
  }

  method CountDark(m: array2<bool>, size: nat) returns (dark: nat)
    requires m.Length0 == m.Length1 == size
    ensures dark == DarkCount(Snap(m), size)
  {
    hide Snap;
    ghost var g := Snap(m);
    dark := 0;
    for r := 0 to size
      invariant dark == DarkCount(g, r)
    {
      for c := 0 to size
        invariant dark == DarkCount(g, r) + DarkInRow(g[r], c)
      {
        if m[r, c] {
          dark := dark + 1;
        }
      }
    }
  }

  // ---- what the rules mean

  /** A run of five costs three points, and each further module one more. */
  lemma PointsOfRun(n: nat)
    ensures n < 5 ==> Points(n) == 0
    ensures Points(5) == 3
    ensures n >= 5 ==> Points(n + 1) == Points(n) + 1
  {
  }

  /** A line of one colour is one run. */
  lemma OneColour(l: seq<bool>)
    requires forall k :: 0 <= k < |l| ==> l[k] == l[0]
    ensures RunScore(l, |l|) == if |l| >= 5 then |l| - 2 else 0
  {
    if l == [] {
      assert RunScore(l, 0) == 0;
    } else {
      NoEndWithin(l, |l| - 1);
      ScanStep(l, |l|);
      WholeRun(l, |l|);
      hide RunScore, RunBack;
    }
  }

  lemma {:induction false} NoEndWithin(l: seq<bool>, b: nat)
    requires b < |l| && forall k :: 0 <= k < |l| ==> l[k] == l[0]
    ensures RunScore(l, b) == 0
    decreases b
  {
    if b > 0 {
      NoEndWithin(l, b - 1);
      ScanStep(l, b);
      hide RunScore, RunBack;
    } else {
      assert RunScore(l, 0) == 0;
    }
  }

  lemma {:induction false} WholeRun(l: seq<bool>, b: nat)
    requires 0 < b <= |l| && forall k :: 0 <= k < |l| ==> l[k] == l[0]
    ensures RunBack(l, b) == b
    decreases b
  {
    if b > 1 { WholeRun(l, b - 1); }
  }

  lemma {:induction false} RunBackOfPart(l: seq<bool>, m: nat, b: nat)
    requires m <= |l| && 0 < b <= |l|
    ensures b <= m ==> RunBack(l[..m], b) == RunBack(l, b)
    ensures m < b && (m > 0 ==> l[m - 1] != l[m]) ==> RunBack(l[m..], b - m) == RunBack(l, b)
    decreases b
  {
    if b > 1 { RunBackOfPart(l, m, b - 1); }
  }

  lemma {:induction false} ScoreOfFront(l: seq<bool>, m: nat, b: nat)
    requires 0 < m < |l| && l[m - 1] != l[m] && b <= m
    ensures RunScore(l[..m], b) == RunScore(l, b)
    decreases b
  {
    if b > 0 {
      ScoreOfFront(l, m, b - 1);
      ScanStep(l, b);
      ScanStep(l[..m], b);
      RunBackOfPart(l, m, b);
      hide RunScore, RunBack;
    } else {
      assert RunScore(l[..m], 0) == 0 && RunScore(l, 0) == 0;
    }
  }

  lemma {:induction false} ScoreOfBack(l: seq<bool>, m: nat, b: nat)
    requires 0 < m < |l| && l[m - 1] != l[m] && m <= b <= |l|
    ensures RunScore(l, b) == RunScore(l, m) + RunScore(l[m..], b - m)
    decreases b
  {
    if b > m {
      ScoreOfBack(l, m, b - 1);
      ScanStep(l, b);
      ScanStep(l[m..], b - m);
      RunBackOfPart(l, m, b);
      hide RunScore, RunBack;
    } else {
      assert RunScore(l[m..], 0) == 0;
    }
  }

  /** Where the colour changes a line falls into two that are scored on their own. */
  lemma ScoreSplits(l: seq<bool>, m: nat)
    requires 0 < m < |l| && l[m - 1] != l[m]
    ensures RunScore(l, |l|) == RunScore(l[..m], m) + RunScore(l[m..], |l| - m)
  {
    hide *;
    ScoreOfFront(l, m, m);
    ScoreOfBack(l, m, |l|);
  }

  /** A sequence as it is drawn. */
  function Drawn(picture: string): seq<bool> { seq(|picture|, i requires 0 <= i < |picture| => picture[i] == '#') }

  /** The two sequences of rule 3 are the profile of a finder beside four light modules. */
  lemma PatternPictures()
    ensures PATTERN_A == Drawn("#.###.#....") && PATTERN_B == Drawn("....#.###.#")
  {
  }

  /** Rule 4 takes the whole number of percent that are dark, and ten points for every five between it and
      fifty. */
  lemma BalanceMeans(dark: nat, n: nat, percent: nat, fives: nat)
    requires n > 0 && percent * (n * n) <= 100 * dark < (percent + 1) * (n * n)
    requires 5 * fives <= (if percent < 50 then 50 - percent else percent - 50) < 5 * fives + 5
    ensures Balance(dark, n) == 10 * fives
  {
    hide *;
    QuotientBetween(100 * dark, n * n, percent);
    BalanceOfPercent(dark, n, percent);
    FivesIn(if percent < 50 then 50 - percent else percent - 50, fives);
  }

  lemma BalanceOfPercent(dark: nat, n: nat, percent: nat)
    requires n > 0 && n * n > 0 && 100 * dark / (n * n) == percent
    ensures Balance(dark, n) == (if percent < 50 then 50 - percent else percent - 50) / 5 * 10
  {
    assert dark * 100 == 100 * dark;
  }

  lemma FivesIn(x: nat, fives: nat)
    requires 5 * fives <= x < 5 * fives + 5
    ensures x / 5 == fives
  {
  }

  lemma QuotientBetween(x: nat, m: nat, q: nat)
    requires m > 0 && q * m <= x < (q + 1) * m
    ensures x / m == q
  {
    var r := x - q * m;
    assert (q + 1) * m == q * m + m;
    assert x == q * m + r && 0 <= r < m;
    var d := x / m;
    assert x == d * m + x % m;
    if d < q { Grow(d + 1, q, m); } else if d > q { Grow(q + 1, d, m); }
  }

  lemma Grow(a: nat, b: nat, m: nat)
    requires a <= b
    ensures a * m <= b * m
    ensures a > 0 ==> a * m == (a - 1) * m + m
  {
  }

  // ---- the sums as counts

  type Place = (nat, nat)

  ghost function InRow(f: (nat, nat) -> bool, r: nat, cols: nat): set<Place>
  {
    set c: nat | c < cols && f(r, c) :: (r, c)
  }

  /** The places of a grid where f holds. */
  ghost function Where(f: (nat, nat) -> bool, rows: nat, cols: nat): set<Place>
  {
    set r: nat, c: nat | r < rows && c < cols && f(r, c) :: (r, c)
  }

  function CountRow(f: (nat, nat) -> bool, r: nat, cols: nat): nat
  {
    if cols == 0 then 0 else CountRow(f, r, cols - 1) + if f(r, cols - 1) then 1 else 0
  }

  function CountGrid(f: (nat, nat) -> bool, rows: nat, cols: nat): nat
  {
    if rows == 0 then 0 else CountGrid(f, rows - 1, cols) + CountRow(f, rows - 1, cols)
  }

  lemma RowUnfolds(f: (nat, nat) -> bool, r: nat, cols: nat)
    ensures InRow(f, r, cols + 1) == InRow(f, r, cols) + if f(r, cols) then {(r, cols)} else {}
    ensures (r, cols) !in InRow(f, r, cols) && InRow(f, r, 0) == {}
  {
  }

  lemma AddPlace(s: set<Place>, x: Place)
    requires x !in s
    ensures |s + {x}| == |s| + 1 && s + {} == s
  {
  }

  lemma {:induction false} RowIsCount(f: (nat, nat) -> bool, r: nat, cols: nat)
    ensures CountRow(f, r, cols) == |InRow(f, r, cols)|
    decreases cols
  {
    if cols == 0 {
      RowUnfolds(f, r, 0);
    } else {
      var before := InRow(f, r, cols - 1);
      RowIsCount(f, r, cols - 1);
      RowUnfolds(f, r, cols - 1);
      hide InRow;
      AddPlace(before, (r, cols - 1));
    }
  }

  lemma GridUnfolds(f: (nat, nat) -> bool, rows: nat, cols: nat)
    ensures Where(f, rows + 1, cols) == Where(f, rows, cols) + InRow(f, rows, cols)
    ensures Where(f, rows, cols) !! InRow(f, rows, cols)
    ensures Where(f, 0, cols) == {}
  {
  }

  lemma JoinPlaces(s: set<Place>, t: set<Place>)
    requires s !! t
    ensures |s + t| == |s| + |t|
  {
  }

  lemma {:induction false} GridIsCount(f: (nat, nat) -> bool, rows: nat, cols: nat)
    ensures CountGrid(f, rows, cols) == |Where(f, rows, cols)|
    decreases rows
  {
    if rows == 0 {
      GridUnfolds(f, 0, cols);
    } else {
      var above, row := Where(f, rows - 1, cols), InRow(f, rows - 1, cols);
      GridIsCount(f, rows - 1, cols);
      RowIsCount(f, rows - 1, cols);
      GridUnfolds(f, rows - 1, cols);
      hide InRow, Where;
      JoinPlaces(above, row);
    }
  }

  predicate SolidAt(g: Grid, r: nat, c: nat)
  {
    IsSquare(g, |g|) && r + 1 < |g| && c + 1 < |g| && g[r][c] == g[r][c + 1] == g[r + 1][c] == g[r + 1][c + 1]
  }

  predicate DarkAt(g: Grid, r: nat, c: nat) { IsSquare(g, |g|) && r < |g| && c < |g| && g[r][c] }

  /** One of the two sequences starts at position j of row or column i. */
  predicate LookalikeAt(g: Grid, isRow: bool, i: nat, j: nat)
  {
    && IsSquare(g, |g|) && i < |g| && j + 11 <= |g|
    && var part := Line(g, i, isRow)[j..j + 11]; part == Drawn("#.###.#....") || part == Drawn("....#.###.#")
  }

  function Solid(g: Grid): (nat, nat) -> bool { (r: nat, c: nat) => SolidAt(g, r, c) }

  function Darkness(g: Grid): (nat, nat) -> bool { (r: nat, c: nat) => DarkAt(g, r, c) }

  function Lookalike(g: Grid, isRow: bool): (nat, nat) -> bool { (i: nat, j: nat) => LookalikeAt(g, isRow, i, j) }

  lemma {:induction false} BlocksInRowSum(g: Grid, r: nat, c: nat)
    requires IsSquare(g, |g|) && r + 1 < |g| && c < |g|
    ensures BlocksInRow(g, r, c) == 3 * CountRow(Solid(g), r, c)
    decreases c
  {
    if c > 0 { BlocksInRowSum(g, r, c - 1); }
  }

  lemma {:induction false} BlocksSum(g: Grid, r: nat)
    requires IsSquare(g, |g|) && r < |g|
    ensures Blocks(g, r) == 3 * CountGrid(Solid(g), r, |g| - 1)
    decreases r
  {
    hide SolidAt, CountRow, BlocksInRow;
    if r > 0 {
      BlocksSum(g, r - 1);
      BlocksInRowSum(g, r - 1, |g| - 1);
    }
  }

  lemma {:induction false} DarkInRowSum(g: Grid, r: nat, c: nat)
    requires IsSquare(g, |g|) && r < |g| && c <= |g|
    ensures DarkInRow(g[r], c) == CountRow(Darkness(g), r, c)
    decreases c
  {
    if c > 0 { DarkInRowSum(g, r, c - 1); }
  }

  lemma {:induction false} DarkSum(g: Grid, r: nat)
    requires IsSquare(g, |g|) && r <= |g|
    ensures DarkCount(g, r) == CountGrid(Darkness(g), r, |g|)
    decreases r
  {
    hide DarkAt, CountRow, DarkInRow;
    if r > 0 {
      DarkSum(g, r - 1);
      DarkInRowSum(g, r - 1, |g|);
    }
  }

  lemma FinderLikeIs(g: Grid, isRow: bool, i: nat, j: nat)
    requires IsSquare(g, |g|) && i < |g|
    ensures FinderLike(Line(g, i, isRow), j) == if LookalikeAt(g, isRow, i, j) then 40 else 0
  {
    PatternPictures();
    hide Drawn;
  }

  lemma {:induction false} LookalikesInLineSum(g: Grid, i: nat, j: nat)
    requires IsSquare(g, |g|) && i < |g|
    ensures LookalikesInLine(g, i, j) == 40 * CountRow(Lookalike(g, true), i, j)
                                      + 40 * CountRow(Lookalike(g, false), i, j)
    decreases j
  {
    hide LookalikeAt, FinderLike;
    if j > 0 {
      LookalikesInLineSum(g, i, j - 1);
      FinderLikeIs(g, true, i, j - 1);
      FinderLikeIs(g, false, i, j - 1);
    }
  }

  lemma {:induction false} LookalikesSum(g: Grid, i: nat)
    requires IsSquare(g, |g|) && i <= |g|
    ensures Lookalikes(g, i) == 40 * CountGrid(Lookalike(g, true), i, |g|)
                             + 40 * CountGrid(Lookalike(g, false), i, |g|)
    decreases i
  {
    hide LookalikeAt, CountRow, LookalikesInLine;
    if i > 0 {
      LookalikesSum(g, i - 1);
      LookalikesInLineSum(g, i - 1, |g|);
    }
  }

  /** The solid blocks by their upper left modules, the finder-like sequences by their lines and starts, and the
      dark modules of a symbol. */
  ghost function SolidBlocks(g: Grid): set<Place>
    requires |g| > 0
  {
    Where(Solid(g), |g| - 1, |g| - 1)
  }

  ghost function FinderLikes(g: Grid, isRow: bool): set<Place> { Where(Lookalike(g, isRow), |g|, |g|) }

  ghost function DarkModules(g: Grid): set<Place> { Where(Darkness(g), |g|, |g|) }

  lemma BlocksCounted(g: Grid)
    requires IsSquare(g, |g|) && |g| > 0
    ensures Blocks(g, |g| - 1) == 3 * |SolidBlocks(g)|
  {
    BlocksSum(g, |g| - 1);
    GridIsCount(Solid(g), |g| - 1, |g| - 1);
    hide Blocks, Where, CountGrid, Solid;
  }

  lemma LookalikesCounted(g: Grid)
    requires IsSquare(g, |g|)
    ensures Lookalikes(g, |g|) == 40 * (|FinderLikes(g, true)| + |FinderLikes(g, false)|)
  {
    LookalikesSum(g, |g|);
    GridIsCount(Lookalike(g, true), |g|, |g|);
    GridIsCount(Lookalike(g, false), |g|, |g|);
    hide Lookalikes, Where, CountGrid, Lookalike;
  }

  lemma DarkCounted(g: Grid)
    requires IsSquare(g, |g|)
    ensures DarkCount(g, |g|) == |DarkModules(g)|
  {
    DarkSum(g, |g|);
    GridIsCount(Darkness(g), |g|, |g|);
    hide DarkCount, Where, CountGrid, Darkness;
  }

  /** Rules 2 to 4 count things: three points for each solid two by two block, forty for each finder-like
      sequence in a row or a column, and the balance of the number of dark modules. */
  lemma PenaltyCounts(g: Grid)
    requires IsSquare(g, |g|) && |g| > 0
    ensures Penalty(g) == RunsOfLines(g, |g|) + 3 * |SolidBlocks(g)|
                        + 40 * (|FinderLikes(g, true)| + |FinderLikes(g, false)|)
                        + Balance(|DarkModules(g)|, |g|)
  {
    hide *;
    PenaltyParts(g);
    BlocksCounted(g);
    LookalikesCounted(g);
    DarkCounted(g);
  }

  /** Columns count as rows do: turning the symbol over changes no run. */
  lemma {:induction false} RunsOfTranspose(g: Grid, t: Grid, i: nat)
    requires IsSquare(g, |g|) && IsSquare(t, |t|) && |t| == |g| && i <= |g|
    requires forall r, c :: 0 <= r < |g| && 0 <= c < |g| ==> t[r][c] == g[c][r]
    ensures RunsOfLines(t, i) == RunsOfLines(g, i)
    decreases i
  {
    hide RunScore;
    if i > 0 {
      RunsOfTranspose(g, t, i - 1);
      assert Line(t, i - 1, true) == Line(g, i - 1, false);
      assert Line(t, i - 1, false) == Line(g, i - 1, true);
    }
  }

  /** A symbol of one colour is scored once along every row and once along every column. */
  lemma {:induction false} RunsOfOneColour(g: Grid, dark: bool, i: nat)
    requires IsSquare(g, |g|) && i <= |g| && |g| >= 5
    requires forall r, c :: 0 <= r < |g| && 0 <= c < |g| ==> g[r][c] == dark
    ensures RunsOfLines(g, i) == i * (2 * (|g| - 2))
    decreases i
  {
    hide RunScore;
    if i > 0 {
      RunsOfOneColour(g, dark, i - 1);
      OneColour(Line(g, i - 1, true));
      OneColour(Line(g, i - 1, false));
      Grow(i, i, 2 * (|g| - 2));
    }
  }
}
