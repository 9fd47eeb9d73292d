/** Splitting the payload into blocks, adding check bytes, and interleaving the columns. */
module QrBlocks {
  import opened Bits
  import opened GaloisField
  import opened ReedSolomon
  import opened QrVersions

  // ---- blocks of the payload

  function BlockLength(s: Version, b: nat): nat
  {
    if b < s.group1Blocks then s.group1Data else s.group2Data
  }

  /** Where block b starts in the payload. */
  function BlockStart(s: Version, b: nat): nat
  {
    if b == 0 then 0 else BlockStart(s, b - 1) + BlockLength(s, b - 1)
  }

  lemma {:induction false} BlockStartClosed(s: Version, b: nat)
    requires b <= s.Blocks()
    ensures BlockStart(s, b)
         == if b <= s.group1Blocks then b * s.group1Data
            else s.group1Blocks * s.group1Data + (b - s.group1Blocks) * s.group2Data
  {
    if b > 0 {
      BlockStartClosed(s, b - 1);
      assert b * s.group1Data == (b - 1) * s.group1Data + s.group1Data;
      var k := b - s.group1Blocks;
      assert k * s.group2Data == (k - 1) * s.group2Data + s.group2Data;
    }
  }

  lemma {:induction false} BlockStartsGrow(s: Version, b: nat, c: nat)
    requires b <= c
    ensures BlockStart(s, b) <= BlockStart(s, c)
    decreases c
  {
    if b < c { BlockStartsGrow(s, b, c - 1); }
  }

  lemma TotalStart(s: Version)
    ensures BlockStart(s, s.Blocks()) == s.DataCodewords()
  {
    BlockStartClosed(s, s.Blocks());
    hide BlockStart;
    if s.group2Blocks == 0 { assert s.group2Blocks * s.group2Data == 0; }
  }

  lemma BlockFits(s: Version, b: nat)
    requires b < s.Blocks()
    ensures BlockStart(s, b) + BlockLength(s, b) == BlockStart(s, b + 1) <= s.DataCodewords()
  {
    BlockStartsGrow(s, b + 1, s.Blocks());
    TotalStart(s);
  }

  function DataBlock(p: Bytes, s: Version, b: nat): (d: Bytes)
    requires |p| == s.DataCodewords() && b < s.Blocks()
    ensures |d| == BlockLength(s, b)
  {
    BlockFits(s, b);
    p[BlockStart(s, b)..BlockStart(s, b) + BlockLength(s, b)]
  }

  lemma StartOfFirst(s: Version)
    ensures BlockStart(s, 0) == 0
  {
  }

  lemma NextBlock(p: Bytes, s: Version, b: nat)
    requires |p| == s.DataCodewords() && b < s.Blocks()
    ensures BlockStart(s, b) <= BlockStart(s, b + 1) <= |p|
    ensures p[..BlockStart(s, b)] + DataBlock(p, s, b) == p[..BlockStart(s, b + 1)]
    ensures BlockLength(s, b) == s.group1Data || BlockLength(s, b) == s.group2Data
  {
    BlockFits(s, b);
    hide BlockStart;
  }

  function DataBlocks(p: Bytes, s: Version): (ds: seq<Bytes>)
    requires |p| == s.DataCodewords()
    ensures |ds| == s.Blocks()
  {
    seq(s.Blocks(), b requires 0 <= b < s.Blocks() => DataBlock(p, s, b))
  }

  function CheckBlocks(p: Bytes, s: Version): (es: seq<Bytes>)
    requires |p| == s.DataCodewords() && s.ecPerBlock > 0
    ensures |es| == s.Blocks()
  {
    seq(s.Blocks(), b requires 0 <= b < s.Blocks() => Remainder(DataBlock(p, s, b), s.ecPerBlock))
  }

  // ---- interleaving

  /** The i-th byte of every block that has one. */
  function Column(blocks: seq<Bytes>, i: nat): Bytes
  {
    if blocks == [] then []
    else
      var n := |blocks| - 1;
      Column(blocks[..n], i) + if i < |blocks[n]| then [blocks[n][i]] else []
  }

  /** The first m columns, one after the other. */
  function Interleave(blocks: seq<Bytes>, m: nat): Bytes
  {
    if m == 0 then [] else Interleave(blocks, m - 1) + Column(blocks, m - 1)
  }

  function MaxData(s: Version): nat
  {
    if s.group2Data > s.group1Data then s.group2Data else s.group1Data
  }

  /** The final codeword sequence, section 7.6 of ISO/IEC 18004:2015. */
  function Codewords(p: Bytes, s: Version): (w: Bytes)
    requires |p| == s.DataCodewords() && s.ecPerBlock > 0
    ensures |w| == s.DataCodewords() + s.Blocks() * s.ecPerBlock
  {
    DataPartLength(p, s);
    CheckPartLength(p, s);
    Interleave(DataBlocks(p, s), MaxData(s)) + Interleave(CheckBlocks(p, s), s.ecPerBlock)
  }

  // ---- where a byte lands

  function Lengths(blocks: seq<Bytes>): (ns: seq<nat>)
    ensures |ns| == |blocks|
  {
    seq(|blocks|, b requires 0 <= b < |blocks| => |blocks[b]|)
  }

  function Min(a: nat, b: nat): nat { if a < b then a else b }

  /** How many bytes the first i columns hold. */
  function Before(lens: seq<nat>, i: nat): nat
  {
    if lens == [] then 0 else Before(lens[..|lens| - 1], i) + Min(lens[|lens| - 1], i)
  }

  /** How many of the blocks reach column i. */
  function Reaching(lens: seq<nat>, i: nat): nat
  {
    if lens == [] then 0
    else Reaching(lens[..|lens| - 1], i) + if i < lens[|lens| - 1] then 1 else 0
  }

  /** The place of byte i of block b, computed from the block lengths alone. */
  function Position(lens: seq<nat>, i: nat, b: nat): nat
    requires b < |lens|
  {
    Before(lens, i) + Reaching(lens[..b], i)
  }

  lemma {:induction false} NextColumn(lens: seq<nat>, i: nat)
    ensures Before(lens, i + 1) == Before(lens, i) + Reaching(lens, i)
    ensures Before(lens, 0) == 0
    decreases |lens|
  {
    if lens != [] { NextColumn(lens[..|lens| - 1], i); }
  }

  lemma {:induction false} ColumnLength(blocks: seq<Bytes>, i: nat)
    ensures |Column(blocks, i)| == Reaching(Lengths(blocks), i)
    decreases |blocks|
  {
    if blocks != [] {
      var n := |blocks| - 1;
      ColumnLength(blocks[..n], i);
      assert Lengths(blocks)[..n] == Lengths(blocks[..n]);
    }
  }

  lemma {:induction false} ColumnAt(blocks: seq<Bytes>, i: nat, b: nat)
    requires b < |blocks| && i < |blocks[b]|
    ensures Reaching(Lengths(blocks)[..b], i) < |Column(blocks, i)|
    ensures Column(blocks, i)[Reaching(Lengths(blocks)[..b], i)] == blocks[b][i]
    decreases |blocks|
  {
    var n := |blocks| - 1;
    assert Lengths(blocks)[..n] == Lengths(blocks[..n]);
    if b < n {
      ColumnAt(blocks[..n], i, b);
      assert Lengths(blocks)[..b] == Lengths(blocks[..n])[..b];
    } else {
      ColumnLength(blocks[..n], i);
    }
  }

  lemma {:induction false} InterleaveLength(blocks: seq<Bytes>, m: nat)
    ensures |Interleave(blocks, m)| == Before(Lengths(blocks), m)
    decreases m
  {
    hide Lengths, Column;
    if m == 0 {
      NextColumn(Lengths(blocks), 0);
    } else {
      InterleaveLength(blocks, m - 1);
      ColumnLength(blocks, m - 1);
      NextColumn(Lengths(blocks), m - 1);
    }
  }

  /** The interleaved sequence holds byte i of block b at its position. */
  lemma {:induction false} InterleaveAt(blocks: seq<Bytes>, m: nat, i: nat, b: nat)
    requires b < |blocks| && i < |blocks[b]| && i < m
    ensures Position(Lengths(blocks), i, b) < |Interleave(blocks, m)|
    ensures Interleave(blocks, m)[Position(Lengths(blocks), i, b)] == blocks[b][i]
    decreases m
  {
    hide Lengths, Column;
    if i < m - 1 {
      InterleaveAt(blocks, m - 1, i, b);
    } else {
      InterleaveLength(blocks, i);
      ColumnAt(blocks, i, b);
    }
  }

  function Sum(lens: seq<nat>): nat
  {
    if lens == [] then 0 else Sum(lens[..|lens| - 1]) + lens[|lens| - 1]
  }

  lemma {:induction false} AllColumns(lens: seq<nat>, m: nat)
    requires forall b :: 0 <= b < |lens| ==> lens[b] <= m
    ensures Before(lens, m) == Sum(lens)
  {
    if lens != [] { AllColumns(lens[..|lens| - 1], m); }
  }

  // ---- the reader

  /** The lengths of the data blocks, as the version tells them. */
  function DataLengths(s: Version): (lens: seq<nat>)
    ensures |lens| == s.Blocks()
  {
    seq(s.Blocks(), b requires 0 <= b => BlockLength(s, b))
  }

  function CheckLengths(s: Version): (lens: seq<nat>)
    ensures |lens| == s.Blocks()
  {
    seq(s.Blocks(), _ => s.ecPerBlock)
  }

  /** Collects block b from its places; places outside the sequence read as zero. */
  function ReadBlock(w: Bytes, lens: seq<nat>, b: nat): Bytes
    requires b < |lens|
  {
    seq(lens[b], i requires 0 <= i => var k := Position(lens, i, b); if k < |w| then w[k] else 0)
  }

  function ReadData(w: Bytes, s: Version, b: nat): Bytes
    requires b <= s.Blocks()
  {
    if b == 0 then [] else ReadData(w, s, b - 1) + ReadBlock(w, DataLengths(s), b - 1)
  }

  /** The codewords after the data. */
  function CheckPart(w: Bytes, s: Version): Bytes
  {
    if |w| <= s.DataCodewords() then [] else w[s.DataCodewords()..]
  }

  lemma DataBlockLengths(p: Bytes, s: Version)
    requires |p| == s.DataCodewords()
    ensures Lengths(DataBlocks(p, s)) == DataLengths(s)
  {
  }

  lemma CheckBlockLengths(p: Bytes, s: Version)
    requires |p| == s.DataCodewords() && s.ecPerBlock > 0
    ensures Lengths(CheckBlocks(p, s)) == CheckLengths(s)
  {
    hide Remainder;
  }

  lemma {:induction false} StartIsSum(s: Version, b: nat)
    requires b <= s.Blocks()
    ensures Sum(DataLengths(s)[..b]) == BlockStart(s, b)
  {
    if b > 0 {
      StartIsSum(s, b - 1);
      assert DataLengths(s)[..b][..b - 1] == DataLengths(s)[..b - 1];
    }
  }

  /** The interleaved data takes exactly the space of the payload. */
  lemma DataPartLength(p: Bytes, s: Version)
    requires |p| == s.DataCodewords()
    ensures |Interleave(DataBlocks(p, s), MaxData(s))| == s.DataCodewords()
  {
    hide DataBlocks, Sum, Before, Lengths;
    InterleaveLength(DataBlocks(p, s), MaxData(s));
    DataBlockLengths(p, s);
    AllColumns(DataLengths(s), MaxData(s));
    StartIsSum(s, s.Blocks());
    TotalStart(s);
    assert DataLengths(s)[..s.Blocks()] == DataLengths(s);
  }

  lemma {:induction false} SumConstant(n: nat, k: nat)
    ensures Sum(seq(n, _ => k)) == n * k
    decreases n
  {
    if n > 0 {
      SumConstant(n - 1, k);
      assert seq(n, _ => k)[..n - 1] == seq(n - 1, _ => k);
      assert n * k == (n - 1) * k + k;
    }
  }

  lemma CheckPartLength(p: Bytes, s: Version)
    requires |p| == s.DataCodewords() && s.ecPerBlock > 0
    ensures |Interleave(CheckBlocks(p, s), s.ecPerBlock)| == s.Blocks() * s.ecPerBlock
  {
    hide CheckBlocks, Before, Lengths, Sum;
    InterleaveLength(CheckBlocks(p, s), s.ecPerBlock);
    CheckBlockLengths(p, s);
    AllColumns(CheckLengths(s), s.ecPerBlock);
    SumConstant(s.Blocks(), s.ecPerBlock);
    assert CheckLengths(s) == seq(s.Blocks(), _ => s.ecPerBlock);
  }

  /** De-interleaving recovers every data block. */
  lemma DataBlockReadsBack(p: Bytes, s: Version, w: Bytes, b: nat)
    requires |p| == s.DataCodewords() && s.ecPerBlock > 0 && b < s.Blocks()
    requires Codewords(p, s) <= w
    ensures ReadBlock(w, DataLengths(s), b) == DataBlock(p, s, b)
  {
    hide Interleave, Remainder, BlockStart, Position, Lengths;
    DataBlockLengths(p, s);
    var blocks, m := DataBlocks(p, s), MaxData(s);
    forall i | 0 <= i < |blocks[b]|
      ensures ReadBlock(w, DataLengths(s), b)[i] == DataBlock(p, s, b)[i]
    {
      InterleaveAt(blocks, m, i, b);
    }
  }

  /** De-interleaving recovers every block of check bytes. */
  lemma CheckBlockReadsBack(p: Bytes, s: Version, b: nat)
    requires |p| == s.DataCodewords() && s.ecPerBlock > 0 && b < s.Blocks()
    ensures ReadBlock(CheckPart(Codewords(p, s), s), CheckLengths(s), b)
         == Remainder(DataBlock(p, s, b), s.ecPerBlock)
  {
    hide Interleave, Remainder, BlockStart, Position, Lengths;
    DataPartLength(p, s);
    CheckPartLength(p, s);
    CheckBlockLengths(p, s);
    var blocks, w := CheckBlocks(p, s), Interleave(CheckBlocks(p, s), s.ecPerBlock);
    assert CheckPart(Codewords(p, s), s) == w;
    forall i | 0 <= i < s.ecPerBlock
      ensures ReadBlock(w, CheckLengths(s), b)[i] == blocks[b][i]
    {
      InterleaveAt(blocks, s.ecPerBlock, i, b);
    }
  }

  lemma NothingRead(w: Bytes, s: Version)
    ensures ReadData(w, s, 0) == []
  {
  }

  lemma ReadNext(w: Bytes, s: Version, b: nat)
    requires b < s.Blocks()
    ensures ReadData(w, s, b + 1) == ReadData(w, s, b) + ReadBlock(w, DataLengths(s), b)
  {
    hide ReadBlock;
  }

  lemma {:induction false} DataReadsBack(p: Bytes, s: Version, w: Bytes, b: nat)
    requires |p| == s.DataCodewords() && s.ecPerBlock > 0 && b <= s.Blocks()
    requires Codewords(p, s) <= w
    ensures BlockStart(s, b) <= |p| && ReadData(w, s, b) == p[..BlockStart(s, b)]
    decreases b
  {
    hide *;
    if b == 0 {
      NothingRead(w, s);
      StartOfFirst(s);
    } else {
      DataReadsBack(p, s, w, b - 1);
      DataBlockReadsBack(p, s, w, b - 1);
      NextBlock(p, s, b - 1);
      ReadNext(w, s, b - 1);
    }
  }

  lemma CodewordsReadBack(p: Bytes, s: Version, w: Bytes)
    requires |p| == s.DataCodewords() && s.ecPerBlock > 0
    requires Codewords(p, s) <= w
    ensures ReadData(w, s, s.Blocks()) == p
  {
    hide Codewords, ReadData, BlockStart;
    DataReadsBack(p, s, w, s.Blocks());
    TotalStart(s);
  }

  // ---- the encoder

  datatype Block = Block(data: Bytes, ec: Bytes)

  /** Block b of the payload with its check bytes. */
  ghost function EncodedBlock(p: Bytes, s: Version, b: nat): Block
    requires |p| == s.DataCodewords() && s.ecPerBlock > 0 && b < s.Blocks()
  {
    Block(DataBlock(p, s, b), Remainder(DataBlock(p, s, b), s.ecPerBlock))
  }

  ghost predicate Encoded(blocks: seq<Block>, p: Bytes, s: Version)
    requires |p| == s.DataCodewords() && s.ecPerBlock > 0
  {
    && |blocks| <= s.Blocks()
    && (forall b :: 0 <= b < |blocks| ==> blocks[b] == EncodedBlock(p, s, b))
  }

  method EncodeBlocks(t: Tables, padded: Bytes, s: Version) returns (final: Bytes)
    requires t.Valid() && |padded| == s.DataCodewords() && 0 < s.ecPerBlock <= 512
    ensures final == Codewords(padded, s)
  {
    hide Remainder, Interleave, BlockStart, EncodedBlock;
    var blocks, offset := [], 0;
    StartOfFirst(s);
    blocks, offset := AppendBlocks(t, padded, s, blocks, offset, s.group1Blocks, s.group1Data);
    blocks, offset := AppendBlocks(t, padded, s, blocks, offset, s.group2Blocks, s.group2Data);
    var maxData := s.group1Data;
    if s.group2Data > maxData {
      maxData := s.group2Data;
    }
    EncodedParts(blocks, padded, s);
    final := InterleaveBlocks(blocks, maxData, s.ecPerBlock);
  }

  lemma EncodedParts(blocks: seq<Block>, p: Bytes, s: Version)
    requires |p| == s.DataCodewords() && s.ecPerBlock > 0
    requires Encoded(blocks, p, s) && |blocks| == s.Blocks()
    ensures Datas(blocks) == DataBlocks(p, s) && Checks(blocks) == CheckBlocks(p, s)
    ensures forall b :: 0 <= b < |blocks| ==> |blocks[b].ec| == s.ecPerBlock
  {
    hide Remainder, DataBlock;
  }

  /** Cuts the next count blocks of the given length off the payload. */
  method AppendBlocks(t: Tables, padded: Bytes, s: Version, before: seq<Block>, start: nat, count: nat, length: nat)
    returns (blocks: seq<Block>, offset: nat)
    requires t.Valid() && |padded| == s.DataCodewords() && 0 < s.ecPerBlock <= 512
    requires Encoded(before, padded, s) && start == BlockStart(s, |before|)
    requires |before| + count <= s.Blocks()
    requires forall b :: |before| <= b < |before| + count ==> BlockLength(s, b) == length
    ensures Encoded(blocks, padded, s) && |blocks| == |before| + count && offset == BlockStart(s, |blocks|)
  {
    hide Remainder, BlockStart, BlockLength;
    blocks, offset := before, start;
    for i := 0 to count
      invariant |blocks| == |before| + i && offset == BlockStart(s, |blocks|)
      invariant Encoded(blocks, padded, s)
    {
      BlockFits(s, |blocks|);
      var d := padded[offset..offset + length];
      offset := offset + length;
      var ec := RsEncode(t, d, s.ecPerBlock);
      assert Block(d, ec[..]) == EncodedBlock(padded, s, |blocks|);
      blocks := blocks + [Block(d, ec[..])];
    }
  }

  ghost function Datas(blocks: seq<Block>): seq<Bytes>
  {
    seq(|blocks|, b requires 0 <= b < |blocks| => blocks[b].data)
  }

  ghost function Checks(blocks: seq<Block>): seq<Bytes>
  {
    seq(|blocks|, b requires 0 <= b < |blocks| => blocks[b].ec)
  }

  lemma ColumnSnoc(blocks: seq<Bytes>, k: nat, i: nat)
    requires k < |blocks|
    ensures Column(blocks[..k + 1], i) == Column(blocks[..k], i) + if i < |blocks[k]| then [blocks[k][i]] else []
  {
    assert blocks[..k + 1][..k] == blocks[..k];
  }

  method InterleaveBlocks(blocks: seq<Block>, maxData: nat, ecPerBlock: nat) returns (final: Bytes)
    requires forall b :: 0 <= b < |blocks| ==> |blocks[b].ec| == ecPerBlock
    ensures final == Interleave(Datas(blocks), maxData) + Interleave(Checks(blocks), ecPerBlock)
  {
    hide Column;
    ghost var ds, es := Datas(blocks), Checks(blocks);
    EmptyColumn();
    final := [];
    for i := 0 to maxData
      invariant final == Interleave(ds, i)
    {
      for b := 0 to |blocks|
        invariant final == Interleave(ds, i) + Column(ds[..b], i)
      {
        ColumnSnoc(ds, b, i);
        if i < |blocks[b].data| {
          final := final + [blocks[b].data[i]];
        }
      }
      assert ds[..|blocks|] == ds;
    }
    ghost var front := final;
    for i := 0 to ecPerBlock
      invariant final == front + Interleave(es, i)
    {
      for b := 0 to |blocks|
        invariant final == front + Interleave(es, i) + Column(es[..b], i)
      {
        ColumnSnoc(es, b, i);
        final := final + [blocks[b].ec[i]];
      }
      assert es[..|blocks|] == es;
    }
  }

  lemma EmptyColumn()
    ensures forall i: nat :: Column([], i) == []
  {
  }

  // ---- the interleaved sequence by plain arithmetic

  lemma {:induction false} FullColumns(lens: seq<nat>, i: nat)
    requires forall b :: 0 <= b < |lens| ==> lens[b] >= i
    ensures Before(lens, i) == i * |lens|
    decreases |lens|
  {
    if lens != [] {
      FullColumns(lens[..|lens| - 1], i);
      OneMoreTime(i, |lens| - 1);
    }
  }

  lemma OneMoreTime(i: nat, n: nat)
    ensures i * (n + 1) == i * n + i
  {
  }

  lemma {:induction false} AllReach(lens: seq<nat>, i: nat)
    requires forall b :: 0 <= b < |lens| ==> lens[b] > i
    ensures Reaching(lens, i) == |lens|
    decreases |lens|
  {
    if lens != [] { AllReach(lens[..|lens| - 1], i); }
  }

  lemma {:induction false} LastReach(lens: seq<nat>, i: nat, n: nat)
    requires n <= |lens| && forall b :: 0 <= b < |lens| ==> (lens[b] > i <==> b >= n)
    ensures Reaching(lens, i) == |lens| - n
    decreases |lens|
  {
    if |lens| > n {
      LastReach(lens[..|lens| - 1], i, n);
    } else {
      NoneReach(lens, i);
    }
  }

  lemma {:induction false} NoneReach(lens: seq<nat>, i: nat)
    requires forall b :: 0 <= b < |lens| ==> lens[b] <= i
    ensures Reaching(lens, i) == 0
    decreases |lens|
  {
    if lens != [] { NoneReach(lens[..|lens| - 1], i); }
  }

  /** Blocks of the second group, if there are any, are one byte longer. */
  predicate Ragged(s: Version) { s.group2Blocks == 0 || s.group2Data == s.group1Data + 1 }

  /** Byte i of every block comes before byte i + 1 of any, in the order of the blocks; the extra bytes of the
      longer blocks come last. */
  function DataPlace(s: Version, i: nat, b: nat): int
  {
    if i < s.group1Data then i * s.Blocks() + b else s.group1Data * s.Blocks() + (b - s.group1Blocks)
  }

  /** Check bytes follow all data, interleaved in the same way. */
  function CheckPlace(s: Version, i: nat, b: nat): nat { s.DataCodewords() + (i * s.Blocks() + b) }

  lemma DataPosition(s: Version, i: nat, b: nat)
    requires Ragged(s) && b < s.Blocks() && i < BlockLength(s, b)
    ensures Position(DataLengths(s), i, b) == DataPlace(s, i, b)
  {
    var lens := DataLengths(s);
    FullColumns(lens, i);
    hide Before, Reaching;
    if i < s.group1Data {
      AllReach(lens[..b], i);
    } else {
      LastReach(lens[..b], i, s.group1Blocks);
    }
  }

  lemma CheckPosition(s: Version, i: nat, b: nat)
    requires b < s.Blocks() && i < s.ecPerBlock
    ensures s.DataCodewords() + Position(CheckLengths(s), i, b) == CheckPlace(s, i, b)
  {
    var lens := CheckLengths(s);
    FullColumns(lens, i);
    AllReach(lens[..b], i);
    hide Before, Reaching;
  }

  /** The interleaved sequence holds every data byte and every check byte at its place. */
  lemma InterleavedPlaces(p: Bytes, s: Version, i: nat, b: nat)
    requires |p| == s.DataCodewords() && s.ecPerBlock > 0 && Ragged(s) && b < s.Blocks()
    ensures i < BlockLength(s, b) ==>
              && 0 <= DataPlace(s, i, b) < |Codewords(p, s)|
              && Codewords(p, s)[DataPlace(s, i, b)] == DataBlock(p, s, b)[i]
    ensures i < s.ecPerBlock ==>
              && CheckPlace(s, i, b) < |Codewords(p, s)|
              && Codewords(p, s)[CheckPlace(s, i, b)] == Remainder(DataBlock(p, s, b), s.ecPerBlock)[i]
  {
    hide *;
    if i < BlockLength(s, b) {
      DataPosition(s, i, b);
      DataByteAt(p, s, i, b);
    }
    if i < s.ecPerBlock {
      CheckPosition(s, i, b);
      CheckByteAt(p, s, i, b);
    }
  }

  lemma DataByteAt(p: Bytes, s: Version, i: nat, b: nat)
    requires |p| == s.DataCodewords() && s.ecPerBlock > 0 && b < s.Blocks() && i < BlockLength(s, b)
    ensures var k := Position(DataLengths(s), i, b);
            k < |Codewords(p, s)| && Codewords(p, s)[k] == DataBlock(p, s, b)[i]
  {
    hide Interleave, Remainder, BlockStart, Position, Lengths;
    DataBlockLengths(p, s);
    InterleaveAt(DataBlocks(p, s), MaxData(s), i, b);
  }

  lemma CheckByteAt(p: Bytes, s: Version, i: nat, b: nat)
    requires |p| == s.DataCodewords() && s.ecPerBlock > 0 && b < s.Blocks() && i < s.ecPerBlock
    ensures var k := s.DataCodewords() + Position(CheckLengths(s), i, b);
            k < |Codewords(p, s)| && Codewords(p, s)[k] == Remainder(DataBlock(p, s, b), s.ecPerBlock)[i]
  {
    hide Interleave, Remainder, BlockStart, Position, Lengths;
    DataPartLength(p, s);
    CheckBlockLengths(p, s);
    InterleaveAt(CheckBlocks(p, s), s.ecPerBlock, i, b);
  }

  /** The blocks of the first group come first. */
  function CutStart(s: Version, b: nat): int
  {
    if b < s.group1Blocks then b * s.group1Data
    else s.group1Blocks * s.group1Data + (b - s.group1Blocks) * s.group2Data
  }

  lemma CutStartIs(s: Version, b: nat)
    requires b < s.Blocks()
    ensures BlockStart(s, b) == CutStart(s, b)
  {
    BlockStartClosed(s, b);
    hide BlockStart;
  }

  /** Block b is cut out of the payload there. */
  lemma BlockCuts(p: Bytes, s: Version, b: nat)
    requires |p| == s.DataCodewords() && b < s.Blocks()
    ensures var start, n := CutStart(s, b), if b < s.group1Blocks then s.group1Data else s.group2Data;
            0 <= start && start + n <= |p| && DataBlock(p, s, b) == p[start..start + n]
  {
    CutStartIs(s, b);
    BlockFits(s, b);
    hide BlockStart, CutStart;
  }

  /** Every version of the table is of that kind. */
  lemma TableIsRagged(v: VersionNumber)
    ensures Ragged(Spec(v))
  {
  }
}
