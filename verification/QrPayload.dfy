/** The payload of a symbol: header, text, terminator and padding, and the reader that undoes it. */
module QrPayload {
  import opened Bits
  import opened QrVersions
  import opened Wrappers

  // ---- bits and bytes

  /** At most eight bits as one byte, filled up with zeros on the right. */
  function PackByte(bits: seq<bool>): Byte
    requires |bits| <= 8
  {
    assert Pow2(8) == 256;
    BitsOfNumOf(bits + Zeros(8 - |bits|));
    NumOf(bits + Zeros(8 - |bits|))
  }

  /** The bits of byte k. */
  function Chunk(bits: seq<bool>, k: nat): (c: seq<bool>)
    ensures |c| <= 8
  {
    if |bits| <= 8 * k then [] else if |bits| <= 8 * k + 8 then bits[8 * k..] else bits[8 * k..8 * k + 8]
  }

  function Packed(bits: seq<bool>): (bs: Bytes)
    ensures |bs| == (|bits| + 7) / 8
  {
    seq((|bits| + 7) / 8, k requires 0 <= k => PackByte(Chunk(bits, k)))
  }

  function Unpacked(bs: Bytes): (bits: seq<bool>)
    ensures |bits| == 8 * |bs|
  {
    seq(8 * |bs|, i requires 0 <= i < 8 * |bs| => Bit(bs[i / 8], 7 - i % 8))
  }

  lemma PackedBit(bits: seq<bool>, i: nat)
    requires i < |bits|
    ensures Unpacked(Packed(bits))[i] == bits[i]
  {
    var q, r := i / 8, i % 8;
    var c := Chunk(bits, q);
    assert c[r] == bits[i];
    hide NumOf, Bit;
    BitOfNumOf(c + Zeros(8 - |c|), r);
    assert Packed(bits)[q] == PackByte(c);
  }

  lemma UnpackedSnoc(bs: Bytes, b: Byte)
    ensures Unpacked(bs + [b]) == Unpacked(bs) + BitsOf(b, 8)
  {
    hide Bit, BitsOf;
    forall i | 0 <= i < 8 * |bs| + 8
      ensures Unpacked(bs + [b])[i] == (Unpacked(bs) + BitsOf(b, 8))[i]
    {
      if i >= 8 * |bs| { BitsOfAt(b, 8, i - 8 * |bs|); }
    }
  }

  /** What one more bit does to the byte being filled. */
  lemma PackSnoc(c: seq<bool>, b: bool)
    requires |c| < 8
    ensures PackByte(c + [b]) == if b then SetBit(PackByte(c), 7 - |c|) else PackByte(c)
  {
    var m := 7 - |c|;
    assert PackByte(c) == NumOf(c + Zeros(m + 1)) && PackByte(c + [b]) == NumOf(c + [b] + Zeros(m));
    assert !(c + Zeros(m + 1))[|c|] && Pow2(m + 1) == 2 * Pow2(m);
    hide NumOf, Bit, Pow2, Zeros, PackByte;
    NumOfZeros(c, m + 1);
    NumOfZeros(c + [b], m);
    NumOfSnoc(c, b);
    BitOfNumOf(c + Zeros(m + 1), |c|);
    NextPlace(NumOf(c), Pow2(m), Bit01(b));
  }

  lemma NextPlace(x: nat, w: nat, p: nat)
    ensures (2 * x + p) * w == x * (2 * w) + p * w
    ensures 0 * w == 0 && 1 * w == w
  {
  }

  class BitBuffer {
    var bits: seq<bool>

    constructor ()
      ensures bits == []
    {
      bits := [];
    }

    /** Appends the n lowest bits of value, most significant first. */
    method Append(value: nat, n: nat)
      modifies this
      ensures bits == old(bits) + BitsOf(value, n)
    {
      hide Bit, BitsOf;
      for i := n downto 0
        invariant bits == old(bits) + BitsOf(value, n)[..n - i]
      {
        BitsOfAt(value, n, n - 1 - i);
        bits := bits + [Bit(value, i)];
      }
    }

    method Bytes() returns (out: array<Byte>)
      ensures out[..] == Packed(bits)
      ensures fresh(out)
    {
      hide Bit, SetBit, PackByte, Chunk, Packed;
      PackedFrom(bits);
      var n := (|bits| + 7) / 8;
      out := new Byte[n](_ => 0);
      EmptyBytes(bits);
      for i := 0 to |bits|
        invariant out.Length == n
        invariant forall k :: 0 <= k < n ==> out[k] == PackByte(Chunk(bits[..i], k))
      {
        NextBit(bits, i);
        if bits[i] {
          out[i / 8] := SetBit(out[i / 8], 7 - i % 8);
        }
      }
      assert bits[..|bits|] == bits;
    }
  }

  lemma EmptyByte()
    ensures PackByte([]) == 0
  {
    NumOfZeros([], 8);
  }

  lemma EmptyBytes(bits: seq<bool>)
    ensures forall k :: 0 <= k ==> PackByte(Chunk(bits[..0], k)) == 0
  {
    EmptyByte();
    hide PackByte;
    forall k: nat ensures Chunk(bits[..0], k) == [] { }
  }

  lemma PackedFrom(bits: seq<bool>)
    ensures forall k :: 0 <= k < |Packed(bits)| ==> Packed(bits)[k] == PackByte(Chunk(bits, k))
  {
    hide PackByte, Chunk;
  }

  /** The bytes of the first i + 1 bits, from those of the first i. */
  lemma NextBit(bits: seq<bool>, i: nat)
    requires i < |bits|
    ensures forall k :: 0 <= k ==>
              PackByte(Chunk(bits[..i + 1], k))
              == if k == i / 8 && bits[i] then SetBit(PackByte(Chunk(bits[..i], k)), 7 - i % 8)
                 else PackByte(Chunk(bits[..i], k))
  {
    hide *;
    assert bits[..i + 1] == bits[..i] + [bits[i]];
    ChunkSnoc(bits[..i], bits[i]);
    PackSnoc(Chunk(bits[..i], i / 8), bits[i]);
  }

  lemma ChunkSnoc(bits: seq<bool>, b: bool)
    ensures |Chunk(bits, |bits| / 8)| == |bits| % 8
    ensures Chunk(bits + [b], |bits| / 8) == Chunk(bits, |bits| / 8) + [b]
    ensures forall k: nat :: k != |bits| / 8 ==> Chunk(bits + [b], k) == Chunk(bits, k)
  {
  }

  // ---- the payload, section 7.4 of ISO/IEC 18004:2015

  function Header(text: Bytes, v: VersionNumber): (h: seq<bool>)
    ensures |h| == 4 + CountBits(v) + 8 * |text|
  {
    BitsOf(4, 4) + BitsOf(|text|, CountBits(v)) + Unpacked(text)
  }

  /** Zeros after the header: a terminator of at most four bits, then up to a whole byte. */
  function Trailer(n: nat, capacity: nat): nat
    requires n <= capacity
  {
    var t := if capacity - n < 4 then capacity - n else 4;
    t + (8 - (n + t) % 8) % 8
  }

  lemma TrailerTotal(n: nat, capacity: nat) returns (m: nat)
    requires n <= capacity
    ensures n <= m <= capacity && n + Trailer(n, capacity) == m + (8 - m % 8) % 8
  {
    m := n + if capacity - n < 4 then capacity - n else 4;
  }

  lemma TrailerFits(n: nat, d: nat)
    requires n <= 8 * d
    ensures (n + Trailer(n, 8 * d)) % 8 == 0
    ensures n + Trailer(n, 8 * d) <= 8 * d
  {
    hide *;
    var m := TrailerTotal(n, 8 * d);
    var q, r := m / 8, m % 8;
    GoalOf(q, r);
    assert m == 8 * q + r;
    assert r > 0 ==> q + 1 <= d;
  }

  function PadBytes(n: nat): (bs: Bytes)
    ensures |bs| == n
  {
    seq(n, i => if i % 2 == 0 then 0xEC else 0x11)
  }

  function Payload(text: Bytes, v: VersionNumber): (p: Bytes)
    requires |text| <= ByteCapacity(v)
    ensures |p| == Spec(v).DataCodewords()
  {
    TableConsistent(v);
    var d := Spec(v).DataCodewords();
    var h := Header(text, v);
    TrailerFits(|h|, d);
    var packed := Packed(h + Zeros(Trailer(|h|, 8 * d)));
    packed + PadBytes(d - |packed|)
  }

  method BuildPayload(text: Bytes, v: VersionNumber) returns (padded: Bytes)
    requires |text| <= ByteCapacity(v)
    ensures padded == Payload(text, v)
  {
    TableConsistent(v);
    hide BitsOf, Packed, Unpacked, Spec, ByteCapacity, Header, Trailer;
    var d := Spec(v).DataCodewords();
    var buf := new BitBuffer();
    AppendHeader(buf, text, v);
    TrailerFits(|buf.bits|, d);
    Terminate(buf, 8 * d);
    var out := buf.Bytes();
    padded := PadTo(out[..], d);
  }

  method AppendHeader(buf: BitBuffer, text: Bytes, v: VersionNumber)
    requires buf.bits == []
    modifies buf
    ensures buf.bits == Header(text, v)
  {
    hide BitsOf, Unpacked;
    buf.Append(4, 4);
    buf.Append(|text|, CountBits(v));
    ghost var front := buf.bits;
    for i := 0 to |text|
      invariant buf.bits == front + Unpacked(text[..i])
    {
      buf.Append(text[i], 8);
      UnpackedSnoc(text[..i], text[i]);
      assert text[..i + 1] == text[..i] + [text[i]];
    }
    assert text[..|text|] == text;
  }

  method Terminate(buf: BitBuffer, capacity: nat)
    requires |buf.bits| <= capacity
    modifies buf
    ensures buf.bits == old(buf.bits) + Zeros(Trailer(|old(buf.bits)|, capacity))
  {
    hide Trailer;
    ghost var h := buf.bits;
    var i := 0;
    while i < 4 && |buf.bits| < capacity
      invariant 0 <= i <= 4 && |h| + i <= capacity
      invariant buf.bits == h + Zeros(i)
    {
      buf.bits := buf.bits + [false];
      i := i + 1;
    }
    hide Zeros;
    ghost var n, t := |h|, if capacity - |h| < 4 then capacity - |h| else 4;
    AlignToByte(buf);
    TrailerParts(n, capacity, t);
    assert h + Zeros(t) + Zeros((8 - (n + t) % 8) % 8) == h + (Zeros(t) + Zeros((8 - (n + t) % 8) % 8));
  }

  lemma TrailerParts(n: nat, capacity: nat, t: nat)
    requires n <= capacity && t == if capacity - n < 4 then capacity - n else 4
    ensures Zeros(Trailer(n, capacity)) == Zeros(t) + Zeros((8 - (n + t) % 8) % 8)
  {
    ZerosAdd(t, (8 - (n + t) % 8) % 8);
    hide Zeros;
  }

  lemma ZerosAdd(a: nat, b: nat)
    ensures Zeros(a + b) == Zeros(a) + Zeros(b)
  {
  }

  method AlignToByte(buf: BitBuffer)
    modifies buf
    ensures buf.bits == old(buf.bits) + Zeros((8 - |old(buf.bits)| % 8) % 8)
  {
    ghost var h := buf.bits;
    ghost var goal := |h| + (8 - |h| % 8) % 8;
    ByteGoal(|h|);
    while |buf.bits| % 8 != 0
      invariant |h| <= |buf.bits| <= goal
      invariant buf.bits == h + Zeros(|buf.bits| - |h|)
      decreases goal - |buf.bits|
    {
      buf.bits := buf.bits + [false];
    }
  }

  /** The next multiple of eight. */
  lemma ByteGoal(n: nat)
    ensures var goal := n + (8 - n % 8) % 8;
            goal % 8 == 0 && forall m: nat :: n <= m <= goal && m % 8 == 0 ==> m == goal
  {
    hide *;
    var q, r := n / 8, n % 8;
    GoalOf(q, r);
    forall m: nat | n <= m <= n + (8 - r) % 8 && m % 8 == 0 ensures m == n + (8 - r) % 8 {
      OnlyMultiple(q, r, m / 8);
    }
  }

  lemma GoalOf(q: nat, r: nat)
    requires r < 8
    ensures 8 * q + r + (8 - r) % 8 == if r == 0 then 8 * q else 8 * (q + 1)
    ensures (8 * q + r + (8 - r) % 8) % 8 == 0
  {
  }

  lemma OnlyMultiple(q: nat, r: nat, k: nat)
    requires r < 8 && 8 * q + r <= 8 * k <= if r == 0 then 8 * q else 8 * (q + 1)
    ensures 8 * k == if r == 0 then 8 * q else 8 * (q + 1)
  {
  }

  method PadTo(packed: Bytes, d: nat) returns (padded: Bytes)
    requires |packed| <= d
    ensures padded == packed + PadBytes(d - |packed|)
  {
    padded := packed;
    var i := 0;
    while |padded| < d
      invariant 0 <= i && |padded| == |packed| + i <= d
      invariant padded == packed + PadBytes(i)
    {
      padded := padded + [if i % 2 == 0 then 0xEC else 0x11];
      i := i + 1;
    }
  }

  // ---- the reader

  function ReadByte(bits: seq<bool>, at: nat): Byte
    requires at + 8 <= |bits|
  {
    assert Pow2(8) == 256;
    BitsOfNumOf(bits[at..at + 8]);
    NumOf(bits[at..at + 8])
  }

  /** Parses one byte-mode segment. */
  function ReadPayload(bs: Bytes, v: VersionNumber): Option<Bytes>
  {
    var bits, start := Unpacked(bs), 4 + CountBits(v);
    if |bits| < start || NumOf(bits[..4]) != 4 then None
    else
      var n := NumOf(bits[4..start]);
      if start + 8 * n > |bits| then None
      else Some(seq(n, i requires 0 <= i < n => ReadByte(bits, start + 8 * i)))
  }

  lemma PayloadStartsWithHeader(text: Bytes, v: VersionNumber)
    requires |text| <= ByteCapacity(v)
    ensures Header(text, v) <= Unpacked(Payload(text, v))
  {
    TableConsistent(v);
    hide Bit, Spec, ByteCapacity, Header;
    var d := Spec(v).DataCodewords();
    var h := Header(text, v);
    TrailerFits(|h|, d);
    var all := h + Zeros(Trailer(|h|, 8 * d));
    forall i | 0 <= i < |h| ensures Unpacked(Payload(text, v))[i] == h[i] {
      PackedBit(all, i);
      assert Payload(text, v)[i / 8] == Packed(all)[i / 8];
    }
  }

  lemma ReadsBack(text: Bytes, v: VersionNumber)
    requires |text| <= ByteCapacity(v)
    ensures ReadPayload(Payload(text, v), v) == Some(text)
  {
    TableConsistent(v);
    hide Payload, Spec, ByteCapacity, NumOf, Bit, BitsOf, Unpacked, Header, ReadByte;
    PayloadStartsWithHeader(text, v);
    var bits, start := Unpacked(Payload(text, v)), 4 + CountBits(v);
    HeaderFields(bits, text, v);
    forall i | 0 <= i < |text| ensures ReadByte(bits, start + 8 * i) == text[i] {
      HeaderText(bits, text, v, i);
    }
    var read := ReadPayload(Payload(text, v), v);
    assert read.Some? && |read.value| == |text|;
    assert read.value == text;
  }

  lemma HeaderFields(bits: seq<bool>, text: Bytes, v: VersionNumber)
    requires Header(text, v) <= bits && |text| < 214 && (v < 10 ==> |text| < 256)
    ensures |bits| >= 4 + CountBits(v) + 8 * |text|
    ensures NumOf(bits[..4]) == 4 && NumOf(bits[4..4 + CountBits(v)]) == |text|
  {
    hide NumOf, BitsOf, Unpacked;
    assert bits[..4] == BitsOf(4, 4);
    assert bits[4..4 + CountBits(v)] == BitsOf(|text|, CountBits(v));
    assert Pow2(4) == 16 && Pow2(8) == 256 && Pow2(16) == 65536;
    NumOfBitsOf(4, 4);
    NumOfBitsOf(|text|, CountBits(v));
  }

  lemma HeaderText(bits: seq<bool>, text: Bytes, v: VersionNumber, i: nat)
    requires Header(text, v) <= bits && i < |text|
    ensures ReadByte(bits, 4 + CountBits(v) + 8 * i) == text[i]
  {
    hide NumOf, BitsOf, Unpacked;
    var at := 4 + CountBits(v) + 8 * i;
    assert bits[at..at + 8] == Unpacked(text)[8 * i..8 * i + 8];
    TextByte(text, i);
    assert Pow2(8) == 256;
    NumOfBitsOf(text[i], 8);
  }

  lemma TextByte(text: Bytes, i: nat)
    requires i < |text|
    ensures Unpacked(text)[8 * i..8 * i + 8] == BitsOf(text[i], 8)
  {
    hide Bit, BitsOf;
    forall k | 0 <= k < 8 ensures Unpacked(text)[8 * i + k] == BitsOf(text[i], 8)[k] {
      BitsOfAt(text[i], 8, k);
    }
  }

  // ---- the payload byte by byte

  /** The count field in whole bytes, and the text. */
  function Stream(text: Bytes, v: VersionNumber): Bytes
    requires |text| < 256
  {
    (if v < 10 then [|text|] else [0, |text|]) + text
  }

  lemma {:induction false} NumOfConcat(a: seq<bool>, b: seq<bool>)
    ensures NumOf(a + b) == NumOf(a) * Pow2(|b|) + NumOf(b)
    decreases |b|
  {
    if b == [] {
      assert a + b == a;
    } else {
      var h, x := b[..|b| - 1], b[|b| - 1];
      assert a + b == (a + h) + [x] && b == h + [x];
      assert Pow2(|b|) == 2 * Pow2(|h|);
      hide *;
      NumOfConcat(a, h);
      NumOfSnoc(a + h, x);
      NumOfSnoc(h, x);
      AppendBit(NumOf(a), Pow2(|h|), NumOf(h), Bit01(x));
    }
  }

  lemma AppendBit(a: nat, w: nat, h: nat, x: nat)
    ensures 2 * (a * w + h) + x == a * (2 * w) + (2 * h + x)
  {
  }

  lemma Nibbles(a: seq<bool>, b: seq<bool>)
    requires |a| == |b| == 4
    ensures NumOf(a + b) == 16 * NumOf(a) + NumOf(b) && NumOf(a) < 16 && NumOf(b) < 16
  {
    assert Pow2(4) == 16;
    hide NumOf, Pow2, BitsOf;
    NumOfConcat(a, b);
    BitsOfNumOf(a);
    BitsOfNumOf(b);
  }

  lemma NibblesOfByte(x: Byte)
    ensures NumOf(BitsOf(x, 8)[..4]) == x / 16 && NumOf(BitsOf(x, 8)[4..]) == x % 16
  {
    assert Pow2(8) == 256;
    hide NumOf, Pow2, BitsOf;
    var bits := BitsOf(x, 8);
    NumOfBitsOf(x, 8);
    assert bits == bits[..4] + bits[4..];
    Nibbles(bits[..4], bits[4..]);
  }

  lemma UnpackedByte(bs: Bytes, k: nat)
    requires k < |bs|
    ensures Unpacked(bs)[8 * k..8 * k + 8] == BitsOf(bs[k], 8)
  {
    hide Bit, BitsOf;
    forall i | 0 <= i < 8 ensures Unpacked(bs)[8 * k + i] == BitsOf(bs[k], 8)[i] { BitsOfAt(bs[k], 8, i); }
  }

  lemma NibblesOfStream(bs: Bytes, k: nat)
    requires k < |bs|
    ensures NumOf(Unpacked(bs)[8 * k..8 * k + 4]) == bs[k] / 16
    ensures NumOf(Unpacked(bs)[8 * k + 4..8 * k + 8]) == bs[k] % 16
  {
    hide NumOf, BitsOf, Unpacked;
    UnpackedByte(bs, k);
    NibblesOfByte(bs[k]);
    var bits := Unpacked(bs)[8 * k..8 * k + 8];
    assert bits[..4] == Unpacked(bs)[8 * k..8 * k + 4] && bits[4..] == Unpacked(bs)[8 * k + 4..8 * k + 8];
  }

  lemma FullChunk(all: seq<bool>, k: nat)
    requires 8 * k + 8 <= |all|
    ensures Chunk(all, k) == all[8 * k..8 * k + 8]
  {
  }

  lemma HalvesOfChunk(lead: seq<bool>, bits: seq<bool>, tail: seq<bool>, k: nat, n: nat)
    requires |lead| == |tail| == 4 && |bits| == 8 * n && k <= n
    ensures var all := lead + bits + tail;
            && |all| == 8 * n + 8
            && all[8 * k..8 * k + 4] == (if k == 0 then lead else bits[8 * k - 4..8 * k])
            && all[8 * k + 4..8 * k + 8] == (if k == n then tail else bits[8 * k..8 * k + 4])
  {
  }

  lemma PackedAt(bits: seq<bool>, k: nat, n: nat)
    requires |bits| == 8 * n && k < n
    ensures |Packed(bits)| == n && Packed(bits)[k] == NumOf(bits[8 * k..8 * k + 8])
  {
    hide NumOf, Chunk;
    FullChunk(bits, k);
    assert bits[8 * k..8 * k + 8] + Zeros(0) == bits[8 * k..8 * k + 8];
  }

  lemma PackedByte(lead: seq<bool>, bits: seq<bool>, k: nat, n: nat)
    requires |lead| == 4 && |bits| == 8 * n && k <= n
    ensures var all := lead + bits + Zeros(4);
            && |Packed(all)| == n + 1
            && var left := if k == 0 then lead else bits[8 * k - 4..8 * k];
               var right := if k == n then Zeros(4) else bits[8 * k..8 * k + 4];
               |left| == |right| == 4 && Packed(all)[k] == 16 * NumOf(left) + NumOf(right)
  {
    hide *;
    var all := lead + bits + Zeros(4);
    HalvesOfChunk(lead, bits, Zeros(4), k, n);
    PackedAt(all, k, n + 1);
    assert all[8 * k..8 * k + 8] == all[8 * k..8 * k + 4] + all[8 * k + 4..8 * k + 8];
    Nibbles(all[8 * k..8 * k + 4], all[8 * k + 4..8 * k + 8]);
  }

  lemma CountFieldBytes(n: nat)
    requires n < 256
    ensures BitsOf(n, 8) == Unpacked([n]) && BitsOf(n, 16) == Unpacked([0, n])
  {
    hide Bit, BitsOf;
    forall k | 0 <= k < 8 ensures BitsOf(n, 8)[k] == Unpacked([n])[k] { BitsOfAt(n, 8, k); }
    forall k | 0 <= k < 16 ensures BitsOf(n, 16)[k] == Unpacked([0, n])[k] {
      BitsOfAt(n, 16, k);
      HighBit(n, 15 - k);
      HighBit(0, 7 - k % 8);
    }
  }

  lemma HighBit(n: nat, k: nat)
    requires n < 256
    ensures k >= 8 || n == 0 ==> !Bit(n, k)
  {
    if k >= 8 {
      assert Pow2(8) == 256;
      SmallHasNoBit(n, 8, k);
    } else if n == 0 {
      SmallHasNoBit(0, 0, k);
    }
  }

  lemma {:induction false} SmallHasNoBit(n: nat, m: nat, k: nat)
    requires n < Pow2(m) && m <= k
    ensures !Bit(n, k)
    decreases k
  {
    if k > 0 { SmallHasNoBit(n / 2, if m > 0 then m - 1 else 0, k - 1); }
  }

  lemma HeaderIsStream(text: Bytes, v: VersionNumber)
    requires |text| < 256
    ensures Header(text, v) == BitsOf(4, 4) + Unpacked(Stream(text, v))
  {
    CountFieldBytes(|text|);
    hide BitsOf, Unpacked;
    UnpackedConcat(if v < 10 then [|text|] else [0, |text|], text);
    var count := BitsOf(|text|, CountBits(v));
    assert BitsOf(4, 4) + count + Unpacked(text) == BitsOf(4, 4) + (count + Unpacked(text));
  }

  lemma UnpackedConcat(a: Bytes, b: Bytes)
    ensures Unpacked(a + b) == Unpacked(a) + Unpacked(b)
  {
    hide Bit;
  }

  lemma WholeBytes(q: nat)
    ensures 8 * q % 8 == 0
  {
  }

  lemma TrailerOf(n: nat, capacity: nat)
    requires n + 4 <= capacity && (n + 4) % 8 == 0
    ensures Trailer(n, capacity) == 4
  {
  }

  lemma TrailerIsNibble(m: nat, d: nat)
    requires 8 * m + 4 <= 8 * d
    ensures Trailer(8 * m + 4, 8 * d) == 4
  {
    hide *;
    assert m + 1 <= d;
    WholeBytes(m + 1);
    assert 8 * m + 4 + 4 == 8 * (m + 1);
    TrailerOf(8 * m + 4, 8 * d);
  }

  /** Byte k of the payload of a stream. */
  function PayloadByte(b: Bytes, k: nat): nat
    requires b != []
  {
    if k == 0 then 64 + b[0] / 16
    else if k < |b| then b[k - 1] % 16 * 16 + b[k] / 16
    else if k == |b| then b[k - 1] % 16 * 16
    else if (k - |b|) % 2 == 1 then 236
    else 17
  }

  lemma ModeNibble()
    ensures NumOf(BitsOf(4, 4)) == 4 && NumOf(Zeros(4)) == 0
  {
    assert Pow2(4) == 16;
    NumOfBitsOf(4, 4);
    NumOfZeros([], 4);
    assert [] + Zeros(4) == Zeros(4);
    hide Pow2, BitsOf;
  }

  lemma BytesOfStream(b: Bytes, k: nat)
    requires b != [] && k <= |b|
    ensures var packed := Packed(BitsOf(4, 4) + Unpacked(b) + Zeros(4));
            |packed| == |b| + 1 && packed[k] == PayloadByte(b, k)
  {
    hide NumOf, BitsOf, Packed, Unpacked, Zeros;
    PackedByte(BitsOf(4, 4), Unpacked(b), k, |b|);
    ModeNibble();
    if k < |b| { NibblesOfStream(b, k); }
    if k > 0 { NibblesOfStream(b, k - 1); }
  }

  lemma PadByte(n: nat, i: nat)
    requires i < n
    ensures PadBytes(n)[i] == if i % 2 == 0 then 236 else 17
  {
  }

  lemma PadOfStream(b: Bytes, k: nat, n: nat)
    requires b != [] && |b| < k < |b| + 1 + n
    ensures PadBytes(n)[k - (|b| + 1)] == PayloadByte(b, k)
  {
    PadByte(n, k - (|b| + 1));
    hide PadBytes;
  }

  lemma PayloadOfStream(text: Bytes, v: VersionNumber)
    requires |text| <= ByteCapacity(v)
    ensures |text| < 214
    ensures var b, d := Stream(text, v), Spec(v).DataCodewords();
            && |b| < d
            && |Packed(BitsOf(4, 4) + Unpacked(b) + Zeros(4))| <= d
            && Payload(text, v) == Packed(BitsOf(4, 4) + Unpacked(b) + Zeros(4))
                                 + PadBytes(d - |Packed(BitsOf(4, 4) + Unpacked(b) + Zeros(4))|)
  {
    TableConsistent(v);
    hide Spec, ByteCapacity, BitsOf, Unpacked, Packed, Zeros, Header, Trailer, PadBytes;
    var b, d := Stream(text, v), Spec(v).DataCodewords();
    HeaderIsStream(text, v);
    TrailerIsNibble(|b|, d);
    TrailerFits(|Header(text, v)|, d);
  }

  /** The mode nibble 0100 shifts everything by half a byte: each codeword joins two halves of neighbouring bytes
      of the count field and the text, a zero nibble ends them, and 236 and 17 alternate from there on. */
  lemma PayloadBytes(text: Bytes, v: VersionNumber, k: nat)
    requires |text| <= ByteCapacity(v) && k < Spec(v).DataCodewords()
    ensures |text| < 214
    ensures var b, p := Stream(text, v), Payload(text, v);
            b != [] && |b| < |p| && p[k] == PayloadByte(b, k)
  {
    hide *;
    PayloadOfStream(text, v);
    StreamNotEmpty(text, v);
    ByteOfPayload(Stream(text, v), Spec(v).DataCodewords(), Payload(text, v), k);
  }

  lemma StreamNotEmpty(text: Bytes, v: VersionNumber)
    requires |text| < 256
    ensures Stream(text, v) != []
  {
  }

  lemma ByteOfPayload(b: Bytes, d: nat, p: Bytes, k: nat)
    requires b != [] && |b| < d && k < |p|
    requires var packed := Packed(BitsOf(4, 4) + Unpacked(b) + Zeros(4));
             |packed| <= d && p == packed + PadBytes(d - |packed|)
    ensures |b| < |p| && p[k] == PayloadByte(b, k)
  {
    hide *;
    BytesOfStream(b, if k <= |b| then k else 0);
    if k > |b| { PadOfStream(b, k, d - (|b| + 1)); }
  }
}
