/** What error correction level M promises: a symbol with damaged modules still reads as the encoded
    text, as long as no block has more damaged bytes than half its check bytes and no more than three
    modules of the format bits are wrong. */
module QrDamage {
  import opened Bits
  import opened Wrappers
  import opened Polynomials
  import opened ReedSolomon
  import opened QrVersions
  import opened QrPayload
  import opened QrBlocks
  import opened QrZigzag
  import opened QrGrid
  import opened QrSymbol
  import opened QrCode

  /** The data whose codeword lies within n/2 bytes of the given word, if there is one. */
  ghost function Correct(word: Bytes, k: nat, n: nat): Option<Bytes>
    requires n > 0 && |word| == k + n
  {
    if exists d: Bytes :: |d| == k && 2 * Distance(Codeword(d, n), word) <= n then
      var d: Bytes :| |d| == k && 2 * Distance(Codeword(d, n), word) <= n;
      Some(d)
    else None
  }

  lemma CorrectionIsUnique(data: Bytes, word: Bytes, n: nat)
    requires n > 0 && |data| + n <= 255 && |word| == |data| + n
    requires 2 * Distance(Codeword(data, n), word) <= n
    ensures Correct(word, |data|, n) == Some(data)
  {
    hide Codeword, Distance;
    var d := Correct(word, |data|, n).value;
    if d != data {
      DamageIsCorrectable(data, d, word, n);
      DamageIsCorrectable(d, data, word, n);
    }
  }

  /** Block b as received: its data bytes, then its check bytes. */
  function BlockWord(w: Bytes, s: Version, b: nat): (word: Bytes)
    requires b < s.Blocks()
    ensures |word| == BlockLength(s, b) + s.ecPerBlock
  {
    ReadBlock(w, DataLengths(s), b) + ReadBlock(CheckPart(w, s), CheckLengths(s), b)
  }

  /** The corrected data of the first b blocks. */
  ghost function CorrectedData(w: Bytes, s: Version, b: nat): Option<Bytes>
    requires b <= s.Blocks() && s.ecPerBlock > 0
  {
    if b == 0 then Some([])
    else
      match (CorrectedData(w, s, b - 1), Correct(BlockWord(w, s, b - 1), BlockLength(s, b - 1), s.ecPerBlock))
      case (Some(front), Some(d)) => Some(front + d)
      case (_, _) => None
  }

  // ---- the format bits

  /** The mask below n whose format word differs from the bits in at most three places. */
  function NearestMask(bits: seq<bool>, n: nat): Option<MaskNumber>
    requires |bits| == 15 && n <= 8
  {
    if n == 0 then None
    else if Distance(BitsOf(FormatWord(n - 1), 15), bits) <= 3 then Some(n - 1)
    else NearestMask(bits, n - 1)
  }

  function Gap(x: bool, y: bool): nat { if x == y then 0 else 1 }

  function DistanceFrom(u: seq<bool>, v: seq<bool>, k: nat): nat
    requires |u| == |v| && k <= |u|
  {
    Distance(u[k..], v[k..])
  }

  lemma DistanceStep(u: seq<bool>, v: seq<bool>, k: nat)
    requires |u| == |v| && k < |u|
    ensures DistanceFrom(u, v, k) == Gap(u[k], v[k]) + DistanceFrom(u, v, k + 1)
  {
    assert u[k..][1..] == u[k + 1..] && v[k..][1..] == v[k + 1..];
  }

  lemma DistanceEnds(u: seq<bool>, v: seq<bool>)
    requires |u| == |v|
    ensures DistanceFrom(u, v, 0) == Distance(u, v) && DistanceFrom(u, v, |u|) == 0
  {
    assert u[0..] == u && v[0..] == v;
  }

  lemma DistanceOfFive(u: seq<bool>, v: seq<bool>, k: nat)
    requires |u| == |v| && k + 5 <= |u|
    ensures DistanceFrom(u, v, k) == Gap(u[k], v[k]) + Gap(u[k + 1], v[k + 1]) + Gap(u[k + 2], v[k + 2])
                                   + Gap(u[k + 3], v[k + 3]) + Gap(u[k + 4], v[k + 4]) + DistanceFrom(u, v, k + 5)
  {
    hide *;
    DistanceStep(u, v, k);
    DistanceStep(u, v, k + 1);
    DistanceStep(u, v, k + 2);
    DistanceStep(u, v, k + 3);
    DistanceStep(u, v, k + 4);
  }

  lemma DistanceOfFifteen(u: seq<bool>, v: seq<bool>)
    requires |u| == |v| == 15
    ensures Distance(u, v) == Gap(u[0], v[0]) + Gap(u[1], v[1]) + Gap(u[2], v[2]) + Gap(u[3], v[3])
                            + Gap(u[4], v[4]) + Gap(u[5], v[5]) + Gap(u[6], v[6]) + Gap(u[7], v[7])
                            + Gap(u[8], v[8]) + Gap(u[9], v[9]) + Gap(u[10], v[10]) + Gap(u[11], v[11])
                            + Gap(u[12], v[12]) + Gap(u[13], v[13]) + Gap(u[14], v[14])
  {
    DistanceEnds(u, v);
    hide *;
    DistanceOfFive(u, v, 0);
    DistanceOfFive(u, v, 5);
    DistanceOfFive(u, v, 10);
  }

  lemma ShapesDiffer(x: bool, y: bool, z: bool, x': bool, y': bool, z': bool)
    requires x != x' || y != y' || z != z'
    ensures Distance(ShapeOf(x, y, z), ShapeOf(x', y', z')) >= 7
  {
    hide Distance;
    DistanceOfFifteen(ShapeOf(x, y, z), ShapeOf(x', y', z'));
  }

  /** Two format words differ in at least seven bits. */
  lemma FormatDistance(a: MaskNumber, b: MaskNumber)
    requires a != b
    ensures Distance(BitsOf(FormatWord(a), 15), BitsOf(FormatWord(b), 15)) >= 7
  {
    hide *;
    WordHasShape(a);
    WordHasShape(b);
    assert a / 4 != b / 4 || a / 2 % 2 != b / 2 % 2 || a % 2 != b % 2;
    ShapeIs(a);
    ShapeIs(b);
    ShapesDiffer(a / 4 == 1, a / 2 % 2 == 1, a % 2 == 1, b / 4 == 1, b / 2 % 2 == 1, b % 2 == 1);
  }

  lemma {:induction false} NearestIsFound(bits: seq<bool>, mask: MaskNumber, n: nat)
    requires |bits| == 15 && mask < n <= 8 && Distance(BitsOf(FormatWord(mask), 15), bits) <= 3
    ensures NearestMask(bits, n) == Some(mask)
    decreases n
  {
    hide Distance, FormatWord, BitsOf;
    if mask < n - 1 {
      var m: MaskNumber := n - 1;
      FormatDistance(m, mask);
      DistanceTriangle(BitsOf(FormatWord(m), 15), bits, BitsOf(FormatWord(mask), 15));
      DistanceSymmetric(bits, BitsOf(FormatWord(mask), 15));
      NearestIsFound(bits, mask, n - 1);
    }
  }

  // ---- the first copy of the format bits, read with correction

  /** The five data bits of a format word: two for the level, three for the mask. */
  datatype FormatData = FormatData(a: bool, b: bool, x: bool, y: bool, z: bool)

  /** The format word of every level and mask, highest bit first, section 7.9.2 of ISO/IEC 18004:2015. */
  function StandardShape(d: FormatData): (bits: seq<bool>)
    ensures |bits| == 15
  {
    var (a, b, x, y, z) := (d.a, d.b, d.x, d.y, d.z);
    [!a, b, !x, y, !z, (y != b) != a, (z != x) != b, (x != b) != a, (y != x) != b, (z != y) != x,
     (z != b) == a, (y != x) != a, (z != y) != b, (((z != y) != x) != b) == a, (z != x) != a]
  }

  /** A mask at level M, whose level bits are 00. */
  function LevelM(mask: MaskNumber): FormatData
  {
    FormatData(false, false, mask / 4 == 1, mask / 2 % 2 == 1, mask % 2 == 1)
  }

  lemma LevelMShape(mask: MaskNumber)
    ensures StandardShape(LevelM(mask)) == FormatShape(mask)
  {
  }

  /** What the reversed word of a mask is taken for. */
  function Misread(mask: MaskNumber): FormatData
  {
    match mask
    case 0 => FormatData(true, true, true, false, false)
    case 1 => FormatData(true, false, true, false, true)
    case 2 => FormatData(true, true, false, true, false)
    case 3 => FormatData(true, true, true, true, true)
    case 4 => FormatData(false, false, true, true, false)
    case 5 => FormatData(true, true, true, false, true)
    case 6 => FormatData(false, false, true, false, false)
    case 7 => FormatData(true, false, false, false, false)
  }

  function Backwards(bits: seq<bool>): (r: seq<bool>)
    requires |bits| == 15
    ensures |r| == 15
  {
    seq(15, k requires 0 <= k < 15 => bits[14 - k])
  }

  lemma LowBackwards(mask: MaskNumber, d: FormatData)
    requires mask < 2
    ensures var n := Distance(StandardShape(d), Backwards(FormatShape(mask)));
            if d == Misread(mask) then n == 3 else n >= 4
  {
    hide Distance;
    DistanceOfFifteen(StandardShape(d), Backwards(FormatShape(mask)));
  }

  lemma MiddleBackwards(mask: MaskNumber, d: FormatData)
    requires 2 <= mask < 4
    ensures var n := Distance(StandardShape(d), Backwards(FormatShape(mask)));
            if d == Misread(mask) then n == 3 else n >= 4
  {
    hide Distance;
    DistanceOfFifteen(StandardShape(d), Backwards(FormatShape(mask)));
  }

  lemma HighBackwards(mask: MaskNumber, d: FormatData)
    requires 4 <= mask < 6
    ensures var n := Distance(StandardShape(d), Backwards(FormatShape(mask)));
            if d == Misread(mask) then n == 3 else n >= 4
  {
    hide Distance;
    DistanceOfFifteen(StandardShape(d), Backwards(FormatShape(mask)));
  }

  lemma TopBackwards(mask: MaskNumber, d: FormatData)
    requires mask >= 6
    ensures var n := Distance(StandardShape(d), Backwards(FormatShape(mask)));
            if d == Misread(mask) then n == 3 else n >= 4
  {
    hide Distance;
    DistanceOfFifteen(StandardShape(d), Backwards(FormatShape(mask)));
  }

  lemma BackwardsDistance(mask: MaskNumber, d: FormatData)
    ensures var n := Distance(StandardShape(d), Backwards(FormatShape(mask)));
            if d == Misread(mask) then n == 3 else n >= 4
  {
    hide *;
    if mask < 2 { LowBackwards(mask, d); }
    else if mask < 4 { MiddleBackwards(mask, d); }
    else if mask < 6 { HighBackwards(mask, d); }
    else { TopBackwards(mask, d); }
  }

  lemma BackwardsAt(bits: seq<bool>, k: nat)
    requires |bits| == 15 && k < 15
    ensures Backwards(bits)[k] == bits[14 - k]
  {
  }

  lemma ReversedBits(bits: seq<bool>, mask: MaskNumber)
    requires |bits| == 15 && forall k :: 0 <= k < 15 ==> bits[k] == Bit(FormatWord(mask), k)
    ensures bits == Backwards(FormatShape(mask))
  {
    hide *;
    WordHasShape(mask);
    forall k | 0 <= k < 15 ensures bits[k] == Backwards(FormatShape(mask))[k] {
      BitsOfAt(FormatWord(mask), 15, 14 - k);
      BackwardsAt(FormatShape(mask), k);
    }
  }

  lemma FirstCopyIsBackwards(v: VersionNumber, cw: Bytes, mask: MaskNumber)
    ensures var g := Symbol(v, cw, mask);
            IsSquare(g, |g|) && |g| >= 21 && StandardFormatBits(g) == Backwards(FormatShape(mask))
  {
    StandardBitsAreReversed(v, cw, mask, 0);
    var bits := StandardFormatBits(Symbol(v, cw, mask));
    hide *;
    forall k | 0 <= k < 15 ensures bits[k] == Bit(FormatWord(mask), k) { StandardBitsAreReversed(v, cw, mask, k); }
    ReversedBits(bits, mask);
  }

  /** A reader that corrects the standard's first copy always takes it for the same wrong level or mask:
      three bits away from that word, and at least four from every other, the right one included. */
  lemma FirstCopyIsMisread(v: VersionNumber, cw: Bytes, mask: MaskNumber, d: FormatData)
    ensures Misread(mask) != LevelM(mask)
    ensures var g := Symbol(v, cw, mask);
            && IsSquare(g, |g|) && |g| >= 21
            && var n := Distance(StandardShape(d), StandardFormatBits(g)); if d == Misread(mask) then n == 3 else n >= 4
  {
    FirstCopyIsBackwards(v, cw, mask);
    hide Distance, StandardShape, FormatShape, Backwards, Symbol, StandardFormatBits;
    BackwardsDistance(mask, d);
  }

  lemma MisreadAtLevelM(mask: MaskNumber, m: MaskNumber)
    ensures LevelM(m) == Misread(mask) <==> (mask == 4 || mask == 6) && m == 10 - mask
  {
  }

  lemma {:induction false} NoneIsNear(bits: seq<bool>, n: nat)
    requires |bits| == 15 && n <= 8
    requires forall m: MaskNumber :: m < n ==> Distance(BitsOf(FormatWord(m), 15), bits) > 3
    ensures NearestMask(bits, n) == None
  {
    hide Distance, FormatWord, BitsOf;
    if n > 0 { NoneIsNear(bits, n - 1); }
  }

  lemma NearBackwards(mask: MaskNumber, m: MaskNumber)
    ensures Distance(BitsOf(FormatWord(m), 15), Backwards(FormatShape(mask))) <= 3
       <==> (mask == 4 || mask == 6) && m == 10 - mask
  {
    hide *;
    WordHasShape(m);
    LevelMShape(m);
    MisreadAtLevelM(mask, m);
    BackwardsDistance(mask, LevelM(m));
  }

  /** At level M alone, masks 4 and 6 are taken for each other, and the others for none. */
  lemma NearestOfFirstCopy(v: VersionNumber, cw: Bytes, mask: MaskNumber)
    ensures var g := Symbol(v, cw, mask);
            && IsSquare(g, |g|) && |g| >= 21
            && NearestMask(StandardFormatBits(g), 8) == if mask == 4 || mask == 6 then Some(10 - mask) else None
  {
    FirstCopyIsBackwards(v, cw, mask);
    var bits := Backwards(FormatShape(mask));
    hide *;
    forall m: MaskNumber { NearBackwards(mask, m); }
    if mask == 4 || mask == 6 { NearestIsFound(bits, 10 - mask, 8); } else { NoneIsNear(bits, 8); }
  }

  // ---- correction

  /** Reads a symbol with error correction. */
  ghost function ReadCorrected(g: Grid): Option<Bytes>
    requires IsSquare(g, |g|)
  {
    match VersionOfSize(|g|)
    case None => None
    case Some(v) =>
      match NearestMask(FormatBits(g), 8)
      case None => None
      case Some(mask) =>
        TableConsistent(v);
        match CorrectedData(ReadCodewords(g, v, mask), Spec(v), Spec(v).Blocks())
        case None => None
        case Some(p) => ReadPayload(p, v)
  }

  /** Every block is damaged in at most half as many bytes as it has check bytes. */
  ghost predicate WithinReach(sent: Bytes, received: Bytes, s: Version)
  {
    forall b :: 0 <= b < s.Blocks() ==> 2 * Distance(BlockWord(sent, s, b), BlockWord(received, s, b)) <= s.ecPerBlock
  }

  lemma SentBlock(p: Bytes, s: Version, b: nat)
    requires |p| == s.DataCodewords() && s.ecPerBlock > 0 && b < s.Blocks()
    ensures BlockWord(Codewords(p, s), s, b) == Codeword(DataBlock(p, s, b), s.ecPerBlock)
  {
    hide Codewords, ReadBlock, Remainder, DataBlock;
    DataBlockReadsBack(p, s, Codewords(p, s), b);
    CheckBlockReadsBack(p, s, b);
  }

  lemma {:induction false} BlocksCorrected(p: Bytes, s: Version, w: Bytes, b: nat)
    requires |p| == s.DataCodewords() && s.ecPerBlock > 0 && b <= s.Blocks()
    requires s.group1Data + s.ecPerBlock <= 255 && s.group2Data + s.ecPerBlock <= 255
    requires WithinReach(Codewords(p, s), w, s)
    ensures BlockStart(s, b) <= |p| && CorrectedData(w, s, b) == Some(p[..BlockStart(s, b)])
    decreases b
  {
    hide Codewords, Correct, BlockWord, Distance, Codeword, DataBlock, BlockStart;
    StartOfFirst(s);
    if b > 0 {
      var c := b - 1;
      BlocksCorrected(p, s, w, c);
      SentBlock(p, s, c);
      NextBlock(p, s, c);
      CorrectionIsUnique(DataBlock(p, s, c), BlockWord(w, s, c), s.ecPerBlock);
    }
  }

  lemma CorrectedUnfolds(g: Grid, v: VersionNumber, mask: MaskNumber)
    requires IsSquare(g, |g|) && IsSquare(g, Size(v)) && NearestMask(FormatBits(g), 8) == Some(mask)
    ensures Spec(v).ecPerBlock > 0
    ensures var s := Spec(v);
            ReadCorrected(g) == match CorrectedData(ReadCodewords(g, v, mask), s, s.Blocks())
                                case None => None
                                case Some(p) => ReadPayload(p, v)
  {
    SizeReadsBack(v);
    TableConsistent(v);
    hide ReadPayload, ReadCodewords, Spec, FormatBits, NearestMask, CorrectedData;
  }

  /** Damaged codewords within reach of the sent ones are read as the text. */
  lemma DamagedCodewordsRead(text: Bytes, v: VersionNumber, g: Grid, mask: MaskNumber)
    requires |text| <= ByteCapacity(v)
    requires IsSquare(g, |g|) && IsSquare(g, Size(v)) && NearestMask(FormatBits(g), 8) == Some(mask)
    requires WithinReach(EncodedCodewords(text, v), ReadCodewords(g, v, mask), Spec(v))
    ensures ReadCorrected(g) == Some(text)
  {
    hide *;
    CorrectedUnfolds(g, v, mask);
    AllCorrected(text, v, ReadCodewords(g, v, mask));
    ReadsBack(text, v);
  }

  lemma AllCorrected(text: Bytes, v: VersionNumber, w: Bytes)
    requires |text| <= ByteCapacity(v) && Spec(v).ecPerBlock > 0
    requires WithinReach(EncodedCodewords(text, v), w, Spec(v))
    ensures CorrectedData(w, Spec(v), Spec(v).Blocks()) == Some(Payload(text, v))
  {
    TableConsistent(v);
    hide Payload, Codewords, WithinReach, Spec, ByteCapacity, CorrectedData, BlockStart;
    var p, s := Payload(text, v), Spec(v);
    BlocksCorrected(p, s, w, s.Blocks());
    TotalStart(s);
    assert p[..|p|] == p;
  }

  // ---- damaged modules

  /** Where byte j of block b is among the codewords: its data bytes, then its check bytes. */
  function CodewordOf(s: Version, b: nat, j: nat): nat
    requires b < s.Blocks()
  {
    if j < BlockLength(s, b) then Position(DataLengths(s), j, b)
    else s.DataCodewords() + Position(CheckLengths(s), j - BlockLength(s, b), b)
  }

  lemma BlockWordAt(w: Bytes, s: Version, b: nat, j: nat)
    requires b < s.Blocks() && j < BlockLength(s, b) + s.ecPerBlock
    ensures BlockWord(w, s, b)[j] == if CodewordOf(s, b, j) < |w| then w[CodewordOf(s, b, j)] else 0
  {
    hide Position;
  }

  /** Some module of codeword k has changed. */
  predicate Hit(sent: Grid, g: Grid, v: VersionNumber, k: nat)
    requires IsSquare(sent, Size(v)) && IsSquare(g, Size(v))
  {
    DataCellsExact(v);
    var cells := DataCells(v);
    exists i :: 8 * k <= i < 8 * k + 8 && i < |cells| && sent[cells[i].r][cells[i].c] != g[cells[i].r][cells[i].c]
  }

  lemma UnhitIsIntact(sent: Grid, g: Grid, v: VersionNumber, mask: MaskNumber, k: nat)
    requires IsSquare(sent, Size(v)) && IsSquare(g, Size(v)) && k < Spec(v).totalCodewords
    requires !Hit(sent, g, v, k)
    ensures ReadCodewords(sent, v, mask)[k] == ReadCodewords(g, v, mask)[k]
  {
    Capacity(v);
    DataCellsExact(v);
    hide DataCells, Spec, MaskAt, NumOf;
    var x, y := ReadBits(sent, v, mask), ReadBits(g, v, mask);
    assert x[8 * k..8 * k + 8] == y[8 * k..8 * k + 8];
  }

  /** The bytes of block b of which some module has changed. */
  function Hits(sent: Grid, g: Grid, v: VersionNumber, b: nat): set<nat>
    requires IsSquare(sent, Size(v)) && IsSquare(g, Size(v)) && b < Spec(v).Blocks()
  {
    set j: nat | j < BlockLength(Spec(v), b) + Spec(v).ecPerBlock && Hit(sent, g, v, CodewordOf(Spec(v), b, j))
  }

  lemma {:induction false} DistanceWithin<T>(x: seq<T>, y: seq<T>, k: nat, places: set<nat>)
    requires |x| == |y| && forall j :: 0 <= j < |x| && x[j] != y[j] ==> j + k in places
    ensures Distance(x, y) <= |places|
    decreases |x|
  {
    if x != [] {
      assert x[0] != y[0] ==> 0 + k in places;
      assert forall j :: 0 <= j < |x[1..]| ==> x[1..][j] == x[j + 1] && y[1..][j] == y[j + 1];
      var rest := places - {k};
      assert k in places ==> |rest| == |places| - 1;
      DistanceWithin(x[1..], y[1..], k + 1, rest);
    }
  }

  lemma HitsAre(sent: Grid, g: Grid, v: VersionNumber, b: nat, j: nat)
    requires IsSquare(sent, Size(v)) && IsSquare(g, Size(v)) && b < Spec(v).Blocks()
    requires j < BlockLength(Spec(v), b) + Spec(v).ecPerBlock
    ensures j in Hits(sent, g, v, b) <==> Hit(sent, g, v, CodewordOf(Spec(v), b, j))
  {
    hide Spec, Hit, CodewordOf, BlockLength;
  }

  lemma ChangedByteIsHit(sent: Grid, g: Grid, v: VersionNumber, mask: MaskNumber, b: nat, j: nat)
    requires IsSquare(sent, Size(v)) && IsSquare(g, Size(v)) && b < Spec(v).Blocks()
    requires j < BlockLength(Spec(v), b) + Spec(v).ecPerBlock
    requires BlockWord(ReadCodewords(sent, v, mask), Spec(v), b)[j]
          != BlockWord(ReadCodewords(g, v, mask), Spec(v), b)[j]
    ensures j in Hits(sent, g, v, b)
  {
    hide *;
    BlockWordAt(ReadCodewords(sent, v, mask), Spec(v), b, j);
    BlockWordAt(ReadCodewords(g, v, mask), Spec(v), b, j);
    HitsAre(sent, g, v, b, j);
    if !Hit(sent, g, v, CodewordOf(Spec(v), b, j)) { UnhitIsIntact(sent, g, v, mask, CodewordOf(Spec(v), b, j)); }
  }

  lemma BlockWithinReach(sent: Grid, g: Grid, v: VersionNumber, mask: MaskNumber, b: nat)
    requires IsSquare(sent, Size(v)) && IsSquare(g, Size(v)) && b < Spec(v).Blocks()
    ensures Distance(BlockWord(ReadCodewords(sent, v, mask), Spec(v), b),
                     BlockWord(ReadCodewords(g, v, mask), Spec(v), b)) <= |Hits(sent, g, v, b)|
  {
    hide *;
    var x, y := BlockWord(ReadCodewords(sent, v, mask), Spec(v), b), BlockWord(ReadCodewords(g, v, mask), Spec(v), b);
    forall j | 0 <= j < |x| && x[j] != y[j] ensures j + 0 in Hits(sent, g, v, b) {
      ChangedByteIsHit(sent, g, v, mask, b, j);
    }
    DistanceWithin(x, y, 0, Hits(sent, g, v, b));
  }

  /** No more damage than level M corrects: at most three wrong modules among the second copy of the
      format bits, and in each block at most half as many damaged bytes as it has check bytes.
      Modules of the function patterns and of the first copy may change freely. */
  predicate Correctable(sent: Grid, g: Grid, v: VersionNumber)
    requires IsSquare(sent, Size(v)) && IsSquare(g, Size(v))
  {
    SizeGood(v);
    && Distance(FormatBits(sent), FormatBits(g)) <= 3
    && forall b :: 0 <= b < Spec(v).Blocks() ==> 2 * |Hits(sent, g, v, b)| <= Spec(v).ecPerBlock
  }

  /** A correctably damaged symbol reads as the text. */
  lemma DamagedSymbolReads(text: Bytes, v: VersionNumber, g: Grid)
    requires |text| <= ByteCapacity(v) && IsSquare(g, Size(v))
    requires Correctable(SymbolFor(text, v), g, v)
    ensures IsSquare(g, |g|) && ReadCorrected(g) == Some(text)
  {
    var w := EncodedCodewords(text, v);
    var mask := BestMask(v, w, 8);
    CorrectableParts(SymbolFor(text, v), g, v);
    hide *;
    SymbolForIs(text, v);
    FormatReadsBack(v, w, mask);
    NearestIsFound(FormatBits(g), mask, 8);
    SymbolReadsBack(v, w, mask);
    ReachFromHits(SymbolFor(text, v), g, v, mask);
    DamagedCodewordsRead(text, v, g, mask);
  }

  lemma CorrectableParts(sent: Grid, g: Grid, v: VersionNumber)
    requires IsSquare(sent, Size(v)) && IsSquare(g, Size(v)) && Correctable(sent, g, v)
    ensures |g| >= 21 && IsSquare(g, |g|) && IsSquare(sent, |sent|)
    ensures Distance(FormatBits(sent), FormatBits(g)) <= 3
  {
    SizeGood(v);
    hide Distance, FormatBits, Hits, Spec;
  }

  lemma ReachFromHits(sent: Grid, g: Grid, v: VersionNumber, mask: MaskNumber)
    requires IsSquare(sent, Size(v)) && IsSquare(g, Size(v)) && Correctable(sent, g, v)
    ensures WithinReach(ReadCodewords(sent, v, mask), ReadCodewords(g, v, mask), Spec(v))
  {
    hide Spec, BlockWord, ReadCodewords, Hits, Distance, FormatBits;
    forall b | 0 <= b < Spec(v).Blocks()
      ensures 2 * Distance(BlockWord(ReadCodewords(sent, v, mask), Spec(v), b),
                           BlockWord(ReadCodewords(g, v, mask), Spec(v), b)) <= Spec(v).ecPerBlock
    {
      BlockWithinReach(sent, g, v, mask, b);
    }
  }

  lemma UndamagedIsCorrectable(g: Grid, v: VersionNumber)
    requires IsSquare(g, Size(v))
    ensures Correctable(g, g, v)
  {
    SizeGood(v);
    forall b | 0 <= b < Spec(v).Blocks() ensures Hits(g, g, v, b) == {} { }
    hide Spec, Hits, Distance, FormatBits;
    DistanceWithin(FormatBits(g), FormatBits(g), 0, {});
  }

  /** On an undamaged symbol correction changes nothing. */
  lemma CorrectionAgrees(text: Bytes, v: VersionNumber)
    requires |text| <= ByteCapacity(v)
    ensures var g := SymbolFor(text, v); IsSquare(g, |g|) && ReadCorrected(g) == Read(g) == Some(text)
  {
    hide *;
    UndamagedIsCorrectable(SymbolFor(text, v), v);
    DamagedSymbolReads(text, v, SymbolFor(text, v));
    RoundTrip(text, v);
  }
}
