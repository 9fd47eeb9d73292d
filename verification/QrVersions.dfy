/** Versions 1 to 10 at error correction level M. */
module QrVersions {

  datatype Version = Version(
    totalCodewords: nat, ecPerBlock: nat,
    group1Blocks: nat, group1Data: nat,
    group2Blocks: nat, group2Data: nat,
    alignment: seq<nat>)
  {
    function DataCodewords(): nat { group1Blocks * group1Data + group2Blocks * group2Data }

    function Blocks(): nat { group1Blocks + group2Blocks }
  }

  type VersionNumber = v: nat | 1 <= v <= 10 witness 1

  function Spec(v: VersionNumber): Version
  {
    match v
    case 1 => Version(26, 10, 1, 16, 0, 0, [])
    case 2 => Version(44, 16, 1, 28, 0, 0, [6, 18])
    case 3 => Version(70, 26, 1, 44, 0, 0, [6, 22])
    case 4 => Version(100, 18, 2, 32, 0, 0, [6, 26])
    case 5 => Version(134, 24, 2, 43, 0, 0, [6, 30])
    case 6 => Version(172, 16, 4, 27, 0, 0, [6, 34])
    case 7 => Version(196, 18, 4, 31, 0, 0, [6, 22, 38])
    case 8 => Version(242, 22, 2, 38, 2, 39, [6, 24, 42])
    case 9 => Version(292, 22, 3, 36, 2, 37, [6, 26, 46])
    case 10 => Version(346, 26, 4, 43, 1, 44, [6, 28, 50])
  }

  function CountBits(v: VersionNumber): nat { if v >= 10 then 16 else 8 }

  /** How many raw bytes fit after the mode nibble and the character count. */
  function ByteCapacity(v: VersionNumber): nat
  {
    (Spec(v).DataCodewords() * 8 - 4 - CountBits(v)) / 8
  }

  function Size(v: VersionNumber): nat { 4 * v + 17 }

  /** Blocks and check bytes add up, every block is a Reed-Solomon word of at most 255 bytes,
      and the payload header fits in front of as many bytes as the capacity promises. */
  predicate Consistent(v: VersionNumber)
  {
    var s, d := Spec(v), Spec(v).DataCodewords();
    && s.totalCodewords == d + s.Blocks() * s.ecPerBlock
    && 0 < s.group1Data && 0 < s.ecPerBlock && 0 < s.group1Blocks
    && s.group1Data + s.ecPerBlock <= 255 && s.group2Data + s.ecPerBlock <= 255
    && 4 + CountBits(v) + 8 * ByteCapacity(v) <= 8 * d
    && ByteCapacity(v) < (if v < 10 then 181 else 214)
    && 0 < d < 217
  }

  lemma TableConsistent(v: VersionNumber)
    ensures Consistent(v)
  {
    hide *;
    LowVersions();
    HighVersions();
    assert v == 1 || v == 2 || v == 3 || v == 4 || v == 5 || v == 6 || v == 7 || v == 8 || v == 9 || v == 10;
  }

  lemma LowVersions()
    ensures Consistent(1) && Consistent(2) && Consistent(3) && Consistent(4) && Consistent(5)
  {
  }

  lemma HighVersions()
    ensures Consistent(6) && Consistent(7) && Consistent(8) && Consistent(9) && Consistent(10)
  {
  }

  /** The byte capacities of level M, Table 7 of ISO/IEC 18004:2015. */
  lemma CapacityOfLevelM(v: VersionNumber)
    ensures ByteCapacity(v) == [14, 26, 42, 62, 84, 106, 122, 152, 180, 213][v - 1]
  {
    hide *;
    LowCapacities();
    HighCapacities();
    assert v == 1 || v == 2 || v == 3 || v == 4 || v == 5 || v == 6 || v == 7 || v == 8 || v == 9 || v == 10;
  }

  lemma LowCapacities()
    ensures ByteCapacity(1) == 14 && ByteCapacity(2) == 26 && ByteCapacity(3) == 42
    ensures ByteCapacity(4) == 62 && ByteCapacity(5) == 84
  {
  }

  lemma HighCapacities()
    ensures ByteCapacity(6) == 106 && ByteCapacity(7) == 122 && ByteCapacity(8) == 152
    ensures ByteCapacity(9) == 180 && ByteCapacity(10) == 213
  {
  }

  /** Some blocks of one kind: how many, and how many codewords and data codewords each has. */
  datatype Kind = Kind(blocks: nat, codewords: nat, data: nat)

  /** The blocks of level M, Table 9 of ISO/IEC 18004:2015. */
  function Kinds(v: VersionNumber): seq<Kind>
  {
    [[Kind(1, 26, 16)], [Kind(1, 44, 28)], [Kind(1, 70, 44)], [Kind(2, 50, 32)], [Kind(2, 67, 43)],
     [Kind(4, 43, 27)], [Kind(4, 49, 31)], [Kind(2, 60, 38), Kind(2, 61, 39)], [Kind(3, 58, 36), Kind(2, 59, 37)],
     [Kind(4, 69, 43), Kind(1, 70, 44)]][v - 1]
  }

  /** The table cuts the payload into those blocks. */
  lemma BlocksOfLevelM(v: VersionNumber)
    ensures var s, kinds := Spec(v), Kinds(v);
            && 1 <= |kinds| <= 2
            && kinds[0] == Kind(s.group1Blocks, s.group1Data + s.ecPerBlock, s.group1Data)
            && (if |kinds| == 1 then s.group2Blocks == 0
                else kinds[1] == Kind(s.group2Blocks, s.group2Data + s.ecPerBlock, s.group2Data))
  {
  }
}
