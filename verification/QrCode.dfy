/** The whole encoder, a reader for its symbols, and the round trip between the two. */
module QrCode {
  import opened Bits
  import opened Wrappers
  import opened GaloisField
  import opened QrVersions
  import opened QrPayload
  import opened QrBlocks
  import opened QrLayout
  import opened QrZigzag
  import opened QrGrid
  import opened QrSymbol

  // ---- the reader

  /** The format word of a symbol, from the copy by the top-right and bottom-left finders. */
  function ReadFormat(g: Grid): nat
    requires IsSquare(g, |g|) && |g| >= 21
  {
    NumOf(FormatBits(g))
  }

  function FormatBits(g: Grid): (bits: seq<bool>)
    requires IsSquare(g, |g|) && |g| >= 21
    ensures |bits| == 15
  {
    seq(15, k requires 0 <= k < 15 => var x := SecondCopy(|g|, 14 - k); g[x.r][x.c])
  }

  /** The mask below n whose format word is the given one. */
  function FindMask(word: nat, n: nat): Option<MaskNumber>
    requires n <= 8
  {
    if n == 0 then None
    else if FormatWord(n - 1) == word then Some(n - 1)
    else FindMask(word, n - 1)
  }

  /** The data bits in zigzag order, with the mask taken off. */
  function ReadBits(g: Grid, v: VersionNumber, mask: MaskNumber): (bits: seq<bool>)
    requires IsSquare(g, Size(v))
    ensures |bits| == |DataCells(v)|
  {
    DataCellsExact(v);
    var cells := DataCells(v);
    seq(|cells|, j requires 0 <= j < |cells| => g[cells[j].r][cells[j].c] != MaskAt(mask, cells[j].r, cells[j].c))
  }

  function ReadCodewords(g: Grid, v: VersionNumber, mask: MaskNumber): (w: Bytes)
    requires IsSquare(g, Size(v))
    ensures |w| == Spec(v).totalCodewords
  {
    Capacity(v);
    var bits := ReadBits(g, v, mask);
    seq(Spec(v).totalCodewords, k requires 0 <= k < Spec(v).totalCodewords => ReadByte(bits, 8 * k))
  }

  /** The version a symbol of n modules to a side has. */
  function VersionOfSize(n: nat): Option<VersionNumber>
  {
    if n < 21 || n > 57 || (n - 17) % 4 != 0 then None else Some((n - 17) / 4)
  }

  /** Reads a symbol without correcting errors. */
  function Read(g: Grid): Option<Bytes>
    requires IsSquare(g, |g|)
  {
    match VersionOfSize(|g|)
    case None => None
    case Some(v) =>
      match FindMask(ReadFormat(g), 8)
      case None => None
      case Some(mask) =>
        var s := Spec(v);
        ReadPayload(ReadData(ReadCodewords(g, v, mask), s, s.Blocks()), v)
  }

  // ---- reading the format back

  lemma FormatWordRange(mask: MaskNumber)
    ensures FormatWord(mask) < Pow2(15)
  {
    assert Pow2(15) == 32768;
  }

  lemma MaskFound(mask: MaskNumber)
    ensures FindMask(FormatWord(mask), 8) == Some(mask)
  {
    FindMaskSkips(mask, 8);
  }

  lemma {:induction false} FindMaskSkips(mask: MaskNumber, n: nat)
    requires mask < n <= 8
    ensures FindMask(FormatWord(mask), n) == Some(mask)
  {
    if mask < n - 1 {
      assert FormatWord(n - 1) != FormatWord(mask);
      FindMaskSkips(mask, n - 1);
    }
  }

  lemma FormatBitShown(v: VersionNumber, cw: Bytes, mask: MaskNumber, i: nat)
    requires i < 15
    ensures Size(v) >= 21
    ensures var x := SecondCopy(Size(v), i);
            x.r < Size(v) && x.c < Size(v) && SymbolAt(v, cw, mask, x.r, x.c) == Bit(FormatWord(mask), i)
  {
    SizeGood(v);
    hide FormatWord, Bit, Masked;
  }

  /** The second copy, by coordinates: bits 0 to 7 go left along row 8 from the right edge, bits 8 to 14 go down
      column 8 to the bottom edge. */
  lemma SecondCopyPlaces(v: VersionNumber, cw: Bytes, mask: MaskNumber, i: nat)
    requires i < 15
    ensures var s := Size(v);
            && s >= 21
            && (i < 8 ==> (SymbolAt(v, cw, mask, 8, s - 1 - i) <==> Bit(FormatWord(mask), i)))
            && (i >= 8 ==> (SymbolAt(v, cw, mask, s - 15 + i, 8) <==> Bit(FormatWord(mask), i)))
  {
    SizeGood(v);
    FormatBitShown(v, cw, mask, i);
    hide FormatWord, Bit, SymbolAt;
  }

  lemma FormatBitRead(v: VersionNumber, cw: Bytes, mask: MaskNumber, k: nat)
    requires k < 15
    ensures var g := Symbol(v, cw, mask);
            IsSquare(g, |g|) && |g| >= 21 && FormatBits(g)[k] == Bit(FormatWord(mask), 14 - k)
  {
    FormatBitShown(v, cw, mask, 14 - k);
    hide FormatWord, Bit, SymbolAt;
  }

  lemma BitsOfWord(bits: seq<bool>, word: nat)
    requires |bits| == 15 && word < Pow2(15) && forall k :: 0 <= k < 15 ==> bits[k] == Bit(word, 14 - k)
    ensures bits == BitsOf(word, 15) && NumOf(bits) == word
  {
    hide *;
    forall k | 0 <= k < 15 ensures bits[k] == BitsOf(word, 15)[k] { BitsOfAt(word, 15, k); }
    NumOfBitsOf(word, 15);
  }

  lemma FormatReadsBack(v: VersionNumber, cw: Bytes, mask: MaskNumber)
    ensures var g := Symbol(v, cw, mask);
            && IsSquare(g, |g|) && |g| >= 21
            && FormatBits(g) == BitsOf(FormatWord(mask), 15)
            && ReadFormat(g) == FormatWord(mask)
  {
    FormatBitRead(v, cw, mask, 0);
    FormatWordRange(mask);
    var bits := FormatBits(Symbol(v, cw, mask));
    hide FormatWord, Bit, Pow2, NumOf, BitsOf, Symbol, FormatBits;
    forall k | 0 <= k < 15 ensures bits[k] == Bit(FormatWord(mask), 14 - k) { FormatBitRead(v, cw, mask, k); }
    BitsOfWord(bits, FormatWord(mask));
  }

  // ---- the first copy of the format bits

  /** The module of bit i in the copy by the top-left finder, section 7.9 of ISO/IEC 18004:2015. */
  function StandardCopy(i: nat): Cell
    requires i < 15
  {
    if i < 6 then Cell(i, 8) else if i == 6 then Cell(7, 8) else if i == 7 then Cell(8, 8)
    else if i == 8 then Cell(8, 7) else Cell(8, 14 - i)
  }

  /** What a reader finds that looks for the first copy where the standard has it. */
  function StandardFormatBits(g: Grid): (bits: seq<bool>)
    requires IsSquare(g, |g|) && |g| >= 21
    ensures |bits| == 15
  {
    seq(15, k requires 0 <= k < 15 => var x := StandardCopy(14 - k); g[x.r][x.c])
  }

  /** The code lays the first copy the other way round: the place of bit i shows bit 14 - i. */
  lemma FirstCopyIsReversed(v: VersionNumber, cw: Bytes, mask: MaskNumber, i: nat)
    requires i < 15
    ensures Size(v) >= 21
    ensures var x := StandardCopy(i); SymbolAt(v, cw, mask, x.r, x.c) == Bit(FormatWord(mask), 14 - i)
  {
    SizeGood(v);
    hide FormatWord, Bit, Masked;
  }

  lemma StandardBitsAreReversed(v: VersionNumber, cw: Bytes, mask: MaskNumber, k: nat)
    requires k < 15
    ensures var g := Symbol(v, cw, mask);
            IsSquare(g, |g|) && |g| >= 21 && StandardFormatBits(g)[k] == Bit(FormatWord(mask), k)
  {
    FirstCopyIsReversed(v, cw, mask, 14 - k);
    hide FormatWord, Bit, SymbolAt;
  }

  lemma {:induction false} FoundIsEqual(word: nat, n: nat)
    requires n <= 8
    ensures FindMask(word, n).Some? ==> word == FormatWord(FindMask(word, n).value)
  {
    if n > 0 { FoundIsEqual(word, n - 1); }
  }

  /** So no format word reads as one backwards: three bits of every word have even parity, and the
      three opposite ones odd parity. */
  lemma ReversedIsNoWord(bits: seq<bool>, mask: MaskNumber)
    requires |bits| == 15 && forall k :: 0 <= k < 15 ==> bits[k] == Bit(FormatWord(mask), k)
    ensures FindMask(NumOf(bits), 8) == None
  {
    hide *;
    var found := FindMask(NumOf(bits), 8);
    if found.Some? {
      FoundIsEqual(NumOf(bits), 8);
      BitsOfNumOf(bits);
      WordHasShape(found.value);
      WordHasShape(mask);
      BitsOfAt(FormatWord(mask), 15, 12);
      BitsOfAt(FormatWord(mask), 15, 11);
      BitsOfAt(FormatWord(mask), 15, 6);
      ParityOfShape(found.value);
      ParityOfShape(mask);
    }
  }

  lemma ParityOfShape(mask: MaskNumber)
    ensures var b := FormatShape(mask); (b[12] != b[11]) == b[6] && (b[2] != b[3]) != b[8]
  {
  }

  /** What a reader finds who looks for the first copy where the standard has it is not the format word
      of any mask, in any symbol. */
  lemma FirstCopyIsNoWord(v: VersionNumber, cw: Bytes, mask: MaskNumber)
    ensures var g := Symbol(v, cw, mask);
            IsSquare(g, |g|) && |g| >= 21 && FindMask(NumOf(StandardFormatBits(g)), 8) == None
  {
    StandardBitsAreReversed(v, cw, mask, 0);
    var bits := StandardFormatBits(Symbol(v, cw, mask));
    hide *;
    forall k | 0 <= k < 15 ensures bits[k] == Bit(FormatWord(mask), k) {
      StandardBitsAreReversed(v, cw, mask, k);
    }
    ReversedIsNoWord(bits, mask);
  }

  // ---- reading the codewords back

  lemma DataBitReadsBack(v: VersionNumber, cw: Bytes, mask: MaskNumber, j: nat)
    requires j < |DataCells(v)|
    ensures ReadBits(Symbol(v, cw, mask), v, mask)[j] == DataBit(cw, j)
  {
    DataCellsExact(v);
    var cells := DataCells(v);
    var x := cells[j];
    assert x in cells;
    IndexOfAt(cells, j);
    FormatModulesExact(v, x.r, x.c);
    hide DataCells, DataBit, AreaOf, Dark, MaskAt, IndexOf, FormatBitOf, FormatWord;
  }

  lemma CodewordReadsBack(v: VersionNumber, cw: Bytes, mask: MaskNumber, k: nat)
    requires |cw| == Spec(v).totalCodewords && k < |cw|
    ensures ReadCodewords(Symbol(v, cw, mask), v, mask)[k] == cw[k]
  {
    Capacity(v);
    hide Symbol, DataCells, Spec, Bit, BitsOf, NumOf;
    var bits := ReadBits(Symbol(v, cw, mask), v, mask);
    forall i | 0 <= i < 8 ensures bits[8 * k + i] == BitsOf(cw[k], 8)[i] {
      DataBitReadsBack(v, cw, mask, 8 * k + i);
      BitsOfAt(cw[k], 8, i);
    }
    assert bits[8 * k..8 * k + 8] == BitsOf(cw[k], 8);
    assert Pow2(8) == 256;
    NumOfBitsOf(cw[k], 8);
  }

  lemma SymbolReadsBack(v: VersionNumber, cw: Bytes, mask: MaskNumber)
    requires |cw| == Spec(v).totalCodewords
    ensures ReadCodewords(Symbol(v, cw, mask), v, mask) == cw
  {
    hide Symbol, ReadCodewords, Spec;
    forall k | 0 <= k < |cw| ensures ReadCodewords(Symbol(v, cw, mask), v, mask)[k] == cw[k] {
      CodewordReadsBack(v, cw, mask, k);
    }
  }

  // ---- the encoder

  /** The smallest version that carries n bytes, at or after v. */
  function ChooseVersion(n: nat, v: VersionNumber): Option<VersionNumber>
    decreases 10 - v
  {
    if n <= ByteCapacity(v) then Some(v)
    else if v == 10 then None
    else ChooseVersion(n, v + 1)
  }

  function EncodedCodewords(text: Bytes, v: VersionNumber): (w: Bytes)
    requires |text| <= ByteCapacity(v)
    ensures |w| == Spec(v).totalCodewords
  {
    TableConsistent(v);
    Codewords(Payload(text, v), Spec(v))
  }

  /** The symbol of a text in a version that carries it, under the best mask. */
  function SymbolFor(text: Bytes, v: VersionNumber): (g: Grid)
    requires |text| <= ByteCapacity(v)
    ensures IsSquare(g, Size(v))
  {
    var w := EncodedCodewords(text, v);
    Symbol(v, w, BestMask(v, w, 8))
  }

  lemma {:induction false} SmallestVersion(n: nat, v: VersionNumber)
    ensures match ChooseVersion(n, v)
            case Some(c) =>
              v <= c && n <= ByteCapacity(c) && forall u: VersionNumber :: v <= u < c ==> n > ByteCapacity(u)
            case None => forall u: VersionNumber :: v <= u ==> n > ByteCapacity(u)
    decreases 10 - v
  {
    hide ByteCapacity;
    if n > ByteCapacity(v) && v < 10 { SmallestVersion(n, v + 1); }
  }

  lemma LargestCapacity(n: nat)
    ensures ChooseVersion(n, 1).Some? <==> n <= 213
  {
    hide *;
    CapacityOfLevelM(10);
    SmallestVersion(n, 1);
    forall u: VersionNumber ensures ByteCapacity(u) <= 213 {
      TableConsistent(u);
      CapacityIsBounded(u);
    }
  }

  lemma CapacityIsBounded(v: VersionNumber)
    requires Consistent(v)
    ensures ByteCapacity(v) < 214
  {
    hide ByteCapacity, Spec;
  }

  /** Reading an encoded symbol returns the text. */
  lemma RoundTrip(text: Bytes, v: VersionNumber)
    requires |text| <= ByteCapacity(v)
    ensures Read(SymbolFor(text, v)) == Some(text)
  {
    var w := EncodedCodewords(text, v);
    var mask := BestMask(v, w, 8);
    TableConsistent(v);
    hide *;
    SymbolForIs(text, v);
    SizeReadsBack(v);
    FormatReadsBack(v, w, mask);
    MaskFound(mask);
    SymbolReadsBack(v, w, mask);
    DataOfSymbol(text, v);
    ReadsBack(text, v);
    ReadUnfolds(Symbol(v, w, mask), v, mask);
  }

  lemma SymbolForIs(text: Bytes, v: VersionNumber)
    requires |text| <= ByteCapacity(v)
    ensures var w := EncodedCodewords(text, v); SymbolFor(text, v) == Symbol(v, w, BestMask(v, w, 8))
    ensures |SymbolFor(text, v)| == Size(v) && IsSquare(SymbolFor(text, v), |SymbolFor(text, v)|)
  {
  }

  lemma SizeReadsBack(v: VersionNumber)
    ensures VersionOfSize(Size(v)) == Some(v)
  {
  }

  lemma DataOfSymbol(text: Bytes, v: VersionNumber)
    requires |text| <= ByteCapacity(v)
    ensures ReadData(EncodedCodewords(text, v), Spec(v), Spec(v).Blocks()) == Payload(text, v)
  {
    TableConsistent(v);
    hide Payload, Spec, Codewords, ReadData, ByteCapacity;
    CodewordsReadBack(Payload(text, v), Spec(v), EncodedCodewords(text, v));
  }

  lemma ReadUnfolds(g: Grid, v: VersionNumber, mask: MaskNumber)
    requires IsSquare(g, |g|) && IsSquare(g, Size(v)) && FindMask(ReadFormat(g), 8) == Some(mask)
    ensures Read(g) == ReadPayload(ReadData(ReadCodewords(g, v, mask), Spec(v), Spec(v).Blocks()), v)
  {
    SizeReadsBack(v);
    hide ReadPayload, ReadData, ReadCodewords, Spec, ReadFormat, FindMask;
  }

  /** The version loop; 0 stands for no version. */
  method PickVersion(n: nat) returns (version: nat)
    ensures version <= 10
    ensures ChooseVersion(n, 1) == if version == 0 then None else Some(version)
  {
    hide ByteCapacity;
    version := 0;
    for v := 1 to 11
      invariant ChooseVersion(n, 1) == if v == 11 then None else ChooseVersion(n, v)
    {
      if n <= ByteCapacity(v) {
        version := v;
        break;
      }
    }
  }

  /** Encodes a text. The symbol reads back as the text, in the smallest version that carries it;
      texts of more than 213 bytes are refused. */
  method QrEncode(t: Tables, text: Bytes) returns (r: Option<array2<bool>>)
    requires t.Valid()
    ensures r.Some? <==> |text| <= 213
    ensures r.Some? ==> IsSquare(Snap(r.value), |Snap(r.value)|) && Read(Snap(r.value)) == Some(text)
    ensures match ChooseVersion(|text|, 1)
            case Some(v) => r.Some? && |text| <= ByteCapacity(v) && Snap(r.value) == SymbolFor(text, v)
            case None => r.None?
    ensures r.Some? ==> VersionOfSize(|Snap(r.value)|) == ChooseVersion(|text|, 1)
  {
    hide *;
    LargestCapacity(|text|);
    SmallestVersion(|text|, 1);
    var version := PickVersion(|text|);
    if version == 0 {
      return None;
    }
    TableConsistent(version);
    var final := EncodeText(t, text, version);
    r := BuildMatrix(version, final);
    RoundTrip(text, version);
    SymbolForIs(text, version);
    SizeReadsBack(version);
  }

  method EncodeText(t: Tables, text: Bytes, v: VersionNumber) returns (final: Bytes)
    requires t.Valid() && |text| <= ByteCapacity(v)
    ensures final == EncodedCodewords(text, v)
  {
    TableConsistent(v);
    hide ByteCapacity, Payload, Codewords, Spec;
    var padded := BuildPayload(text, v);
    final := EncodeBlocks(t, padded, Spec(v));
  }
}
