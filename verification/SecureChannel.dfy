/** The encrypted channel: counter nonces, length-prefixed frames, and what a reader can deliver
    from a byte stream that an adversary has edited in any way. */
module SecureChannel {
  import opened Bits
  import opened Wrappers

  const MAX_WIRE := 65536
  const TAG := 16

  // ---- big-endian numbers

  function Pow256(n: nat): (r: nat)
    ensures r >= 1
  {
    if n == 0 then 1 else 256 * Pow256(n - 1)
  }

  function BigEndian(v: nat, n: nat): (bs: Bytes)
    ensures |bs| == n
  {
    if n == 0 then [] else BigEndian(v / 256, n - 1) + [v % 256]
  }

  function FromBigEndian(bs: Bytes): nat
  {
    if bs == [] then 0 else 256 * FromBigEndian(bs[..|bs| - 1]) + bs[|bs| - 1]
  }

  lemma {:induction false} BigEndianReadsBack(v: nat, n: nat)
    requires v < Pow256(n)
    ensures FromBigEndian(BigEndian(v, n)) == v
    decreases n
  {
    if n > 0 {
      BigEndianReadsBack(v / 256, n - 1);
      assert BigEndian(v, n)[..n - 1] == BigEndian(v / 256, n - 1);
    }
  }

  /** The first byte has the greatest weight. */
  lemma {:induction false} LeadingByte(bs: Bytes)
    requires bs != []
    ensures FromBigEndian(bs) == bs[0] as nat * Pow256(|bs| - 1) + FromBigEndian(bs[1..])
    decreases |bs|
  {
    if |bs| == 1 {
      assert FromBigEndian(bs[..0]) == 0 && FromBigEndian(bs[1..]) == 0;
    } else {
      var front, last := bs[..|bs| - 1], bs[|bs| - 1];
      LeadingByte(front);
      assert front[1..] == bs[1..][..|bs| - 2];
      assert FromBigEndian(bs[1..]) == 256 * FromBigEndian(front[1..]) + last;
      MoveFactor(bs[0], Pow256(|bs| - 2));
      assert Pow256(|bs| - 1) == 256 * Pow256(|bs| - 2);
    }
  }

  lemma MoveFactor(x: nat, w: nat)
    ensures 256 * (x * w) == x * (256 * w)
  {
  }

  /** The number of values of a 64-bit counter. */
  const COUNTERS: nat := 0x1_0000_0000_0000_0000

  lemma CounterRange()
    ensures Pow256(8) == COUNTERS && Pow256(4) == 0x1_0000_0000
  {
    assert Pow256(2) == 65536;
    assert Pow256(4) == 256 * (256 * Pow256(2));
    assert Pow256(6) == 256 * (256 * Pow256(4));
    assert Pow256(8) == 256 * (256 * Pow256(6));
  }

  // ---- nonces

  function NonceFor(prefix: Bytes, ctr: nat): Bytes { prefix + BigEndian(ctr, 8) }

  lemma NonceInjective(prefix: Bytes, i: nat, j: nat)
    requires i < COUNTERS && j < COUNTERS
    ensures NonceFor(prefix, i) == NonceFor(prefix, j) <==> i == j
  {
    hide FromBigEndian, BigEndian, Pow256;
    CounterRange();
    BigEndianReadsBack(i, 8);
    BigEndianReadsBack(j, 8);
    if NonceFor(prefix, i) == NonceFor(prefix, j) {
      assert NonceFor(prefix, i)[|prefix|..] == BigEndian(i, 8);
      assert NonceFor(prefix, j)[|prefix|..] == BigEndian(j, 8);
    }
  }

  /** A nonce of twelve bytes is the prefix of four and the counter. */
  lemma NonceLayout(prefix: Bytes, ctr: nat)
    requires |prefix| == 4 && ctr < COUNTERS
    ensures var n := NonceFor(prefix, ctr); |n| == 12 && n[..4] == prefix && FromBigEndian(n[4..]) == ctr
  {
    hide FromBigEndian, BigEndian, Pow256;
    CounterRange();
    BigEndianReadsBack(ctr, 8);
    assert NonceFor(prefix, ctr)[4..] == BigEndian(ctr, 8);
  }

  /** The nonces of a run of writes from counter ctr on; a refused write uses one up as well. */
  function NoncesUsed(prefix: Bytes, ctr: nat, pts: seq<Bytes>): (nonces: seq<Bytes>)
    ensures |nonces| == |pts|
    decreases |pts|
  {
    if pts == [] then [] else [NonceFor(prefix, ctr)] + NoncesUsed(prefix, (ctr + 1) % COUNTERS, pts[1..])
  }

  lemma NextCounter(ctr: nat, i: nat)
    requires i > 0 && ctr < COUNTERS
    ensures ((ctr + 1) % COUNTERS + (i - 1)) % COUNTERS == (ctr + i) % COUNTERS
  {
  }

  lemma {:induction false} NonceOfWrite(prefix: Bytes, ctr: nat, pts: seq<Bytes>, i: nat)
    requires i < |pts| && ctr < COUNTERS
    ensures NoncesUsed(prefix, ctr, pts)[i] == NonceFor(prefix, (ctr + i) % COUNTERS)
    decreases |pts|
  {
    hide NonceFor;
    if i > 0 {
      NonceOfWrite(prefix, (ctr + 1) % COUNTERS, pts[1..], i - 1);
      NextCounter(ctr, i);
    }
  }

  ghost predicate AllDistinct(s: seq<Bytes>)
  {
    forall i, j :: 0 <= i < j < |s| ==> s[i] != s[j]
  }

  /** No nonce is used twice by the writes of a session, exactly as long as there are no more than 2^64. */
  lemma NoncesDistinctIff(prefix: Bytes, pts: seq<Bytes>)
    ensures AllDistinct(NoncesUsed(prefix, 0, pts)) <==> |pts| <= COUNTERS
  {
    hide NonceFor, NoncesUsed;
    var nonces := NoncesUsed(prefix, 0, pts);
    if |pts| <= COUNTERS {
      forall i, j | 0 <= i < j < |pts| ensures nonces[i] != nonces[j] {
        NonceOfWrite(prefix, 0, pts, i);
        NonceOfWrite(prefix, 0, pts, j);
        NonceInjective(prefix, i, j);
      }
    } else {
      NonceOfWrite(prefix, 0, pts, 0);
      NonceOfWrite(prefix, 0, pts, COUNTERS);
      assert nonces[0] == nonces[COUNTERS];
    }
  }

  // ---- frames

  type Seal = (Bytes, Bytes) -> Bytes
  type Open = (Bytes, Bytes) -> Option<Bytes>

  /** The ideal cipher: ciphertexts are sixteen bytes longer than plaintexts, and a ciphertext
      opens under a nonce exactly if the peer sealed it under that nonce. `sealed` lists what the
      peer seals over the whole session, in counter order. */
  ghost predicate Ideal(seal: Seal, open: Open, prefix: Bytes, sealed: seq<Bytes>)
  {
    && (forall nonce, pt :: |seal(nonce, pt)| == |pt| + TAG)
    && (forall nonce, ct, pt :: open(nonce, ct) == Some(pt) <==> Sealed(seal, prefix, sealed, nonce, ct, pt))
  }

  ghost predicate Sealed(seal: Seal, prefix: Bytes, sealed: seq<Bytes>, nonce: Bytes, ct: Bytes, pt: Bytes)
  {
    exists i :: 0 <= i < |sealed| && nonce == NonceFor(prefix, i) && pt == sealed[i] && ct == seal(nonce, pt)
  }

  function Frame(ct: Bytes): Bytes { BigEndian(|ct|, 4) + ct }

  predicate Refused(pt: Bytes) { |pt| + TAG > MAX_WIRE }

  /** What one write puts on the wire. */
  function Written(seal: Seal, prefix: Bytes, ctr: nat, pt: Bytes): Bytes
  {
    var ct := seal(NonceFor(prefix, ctr), pt);
    if |ct| > MAX_WIRE then [] else Frame(ct)
  }

  /** What a run of writes puts on the wire, from counter ctr on. */
  function WriteAll(seal: Seal, prefix: Bytes, ctr: nat, pts: seq<Bytes>): Bytes
    decreases |pts|
  {
    if pts == [] then []
    else Written(seal, prefix, ctr, pts[0]) + WriteAll(seal, prefix, (ctr + 1) % COUNTERS, pts[1..])
  }

  /** What a socket takes of some bytes when it fails after `room` of them. */
  function Taken(bytes: Bytes, room: nat): (t: Bytes)
    ensures t <= bytes
  {
    if room < |bytes| then bytes[..room] else bytes
  }

  /** A frame goes out as its header and then its ciphertext. */
  lemma WrittenTaken(seal: Seal, prefix: Bytes, ctr: nat, pt: Bytes, room: nat)
    requires |seal(NonceFor(prefix, ctr), pt)| <= MAX_WIRE
    ensures var ct, wire := seal(NonceFor(prefix, ctr), pt), Written(seal, prefix, ctr, pt);
            && |wire| == 4 + |ct|
            && (room < 4 ==> Taken(wire, room) == Taken(BigEndian(|ct|, 4), room))
            && (room >= 4 ==> Taken(wire, room) == Taken(BigEndian(|ct|, 4), room) + Taken(ct, room - 4))
  {
    hide NonceFor, BigEndian;
  }

  datatype ReadResult = Plain(pt: Bytes) | StreamEnded | ZeroLength | TooLong | AuthFailed

  datatype Reader = Reader(ctr: nat, input: Bytes)

  /** One read: the result, and what is left of the stream. */
  function ReadOne(open: Open, prefix: Bytes, rd: Reader): (ReadResult, Reader)
  {
    if |rd.input| < 4 then (StreamEnded, Reader(rd.ctr, []))
    else
      var n, rest := FromBigEndian(rd.input[..4]), rd.input[4..];
      if n == 0 then (ZeroLength, Reader(rd.ctr, rest))
      else if n > MAX_WIRE then (TooLong, Reader(rd.ctr, rest))
      else if |rest| < n then (StreamEnded, Reader(rd.ctr, []))
      else
        var after := Reader((rd.ctr + 1) % COUNTERS, rest[n..]);
        match open(NonceFor(prefix, rd.ctr), rest[..n])
        case Some(pt) => (Plain(pt), after)
        case None => (AuthFailed, after)
  }

  /** The plaintexts the read loop delivers before its first error. */
  function Deliver(open: Open, prefix: Bytes, rd: Reader): seq<Bytes>
    decreases |rd.input|
  {
    var (r, after) := ReadOne(open, prefix, rd);
    if r.Plain? then [r.pt] + Deliver(open, prefix, after) else []
  }

  class SecureConn {
    const seal: Seal
    const open: Open
    const txPrefix: Bytes
    const rxPrefix: Bytes
    var txCtr: nat
    var rxCtr: nat
    var sent: Bytes
    var broken: bool
    var input: Bytes
    ghost var nonces: seq<Bytes>

    constructor (seal: Seal, open: Open, txPrefix: Bytes, rxPrefix: Bytes, input: Bytes)
      ensures this.seal == seal && this.open == open && this.txPrefix == txPrefix && this.rxPrefix == rxPrefix
      ensures txCtr == 0 && rxCtr == 0 && sent == [] && !broken && this.input == input && nonces == []
    {
      this.seal, this.open, this.txPrefix, this.rxPrefix, this.input := seal, open, txPrefix, rxPrefix, input;
      txCtr, rxCtr, sent, broken, nonces := 0, 0, [], false, [];
    }

    /** Hands bytes to the socket, which takes at most `room` of them; after a short write it takes none. */
    method Send(bytes: Bytes, room: nat) returns (left: nat)
      modifies this`sent, this`broken
      ensures sent == old(sent) + if old(broken) then [] else Taken(bytes, room)
      ensures broken == (old(broken) || room < |bytes|)
      ensures left == if room < |bytes| then 0 else room - |bytes|
    {
      if room < |bytes| {
        if !broken {
          sent := sent + bytes[..room];
        }
        broken := true;
        return 0;
      }
      if !broken {
        sent := sent + bytes;
      }
      return room - |bytes|;
    }

    /** Seals and sends one frame through a socket that takes at most `room` bytes of it. The counter
        moves on even when the frame is refused or not sent. */
    method WriteFrame(pt: Bytes, room: nat) returns (ok: bool)
      requires txCtr < COUNTERS
      modifies this`txCtr, this`sent, this`broken, this`nonces
      ensures txCtr == (old(txCtr) + 1) % COUNTERS
      ensures nonces == old(nonces) + [NonceFor(txPrefix, old(txCtr))]
      ensures var wire := Written(seal, txPrefix, old(txCtr), pt);
              && sent == old(sent) + (if old(broken) then [] else Taken(wire, room))
              && broken == (old(broken) || room < |wire|)
      ensures ok <==> |seal(NonceFor(txPrefix, old(txCtr)), pt)| <= MAX_WIRE && !broken
    {
      hide BigEndian;
      var nonce := NonceFor(txPrefix, txCtr);
      txCtr := (txCtr + 1) % COUNTERS;
      nonces := nonces + [nonce];
      var ct := seal(nonce, pt);
      if |ct| > MAX_WIRE {
        return false;
      }
      var hdr := BigEndian(|ct|, 4);
      WrittenTaken(seal, txPrefix, old(txCtr), pt, room);
      hide Taken, Written, NonceFor, Frame;
      var left := Send(hdr, room);
      if broken {
        return false;
      }
      left := Send(ct, left);
      return !broken;
    }

    method ReadFrame() returns (r: ReadResult)
      requires rxCtr < COUNTERS
      modifies this`rxCtr, this`input
      ensures (r, Reader(rxCtr, input)) == ReadOne(open, rxPrefix, old(Reader(rxCtr, input)))
      ensures rxCtr < COUNTERS
    {
      hide FromBigEndian, NonceFor;
      if |input| < 4 {
        input := [];
        return StreamEnded;
      }
      var n := FromBigEndian(input[..4]);
      input := input[4..];
      if n == 0 {
        return ZeroLength;
      }
      if n > MAX_WIRE {
        return TooLong;
      }
      if |input| < n {
        input := [];
        return StreamEnded;
      }
      var buf := input[..n];
      input := input[n..];
      var nonce := NonceFor(rxPrefix, rxCtr);
      rxCtr := (rxCtr + 1) % COUNTERS;
      match open(nonce, buf)
      case Some(pt) => return Plain(pt);
      case None => return AuthFailed;
    }

    /** The read loop, up to the first error. */
    method ReadLoop() returns (delivered: seq<Bytes>)
      requires rxCtr < COUNTERS
      modifies this`rxCtr, this`input
      ensures delivered == Deliver(open, rxPrefix, old(Reader(rxCtr, input)))
    {
      hide ReadOne;
      delivered := [];
      ghost var whole := Deliver(open, rxPrefix, Reader(rxCtr, input));
      while true
        invariant rxCtr < COUNTERS
        invariant whole == delivered + Deliver(open, rxPrefix, Reader(rxCtr, input))
        decreases |input|
      {
        ReadShrinks(open, rxPrefix, Reader(rxCtr, input));
        var r := ReadFrame();
        if !r.Plain? {
          return;
        }
        delivered := delivered + [r.pt];
      }
    }
  }

  /** What a header of four bytes says. */
  function HeaderValue(input: Bytes): nat
    requires |input| >= 4
  {
    input[0] as nat * 16777216 + input[1] as nat * 65536 + input[2] as nat * 256 + input[3]
  }

  /** Every outcome of a read, by the length that the header declares: from 1 to 65536 bytes follow. */
  lemma ReadOutcome(open: Open, prefix: Bytes, rd: Reader)
    ensures var r := ReadOne(open, prefix, rd).0;
            if |rd.input| < 4 then r == StreamEnded
            else
              var n := HeaderValue(rd.input);
              && (r == ZeroLength <==> n == 0)
              && (r == TooLong <==> n > 65536)
              && (r == StreamEnded <==> 0 < n <= 65536 && |rd.input| < 4 + n)
              && (r == AuthFailed || r.Plain? <==> 0 < n <= 65536 && |rd.input| >= 4 + n)
  {
    if |rd.input| >= 4 {
      HeaderIs(rd.input[..4]);
      assert HeaderValue(rd.input[..4]) == HeaderValue(rd.input);
    }
    hide FromBigEndian, NonceFor, HeaderValue;
  }

  lemma HeaderIs(hdr: Bytes)
    requires |hdr| == 4
    ensures FromBigEndian(hdr) == HeaderValue(hdr)
  {
    assert hdr[..3][..2] == hdr[..2] && hdr[..2][..1] == hdr[..1] && hdr[..1][..0] == [];
    assert FromBigEndian(hdr[..1]) == hdr[0];
    assert FromBigEndian(hdr[..2]) == 256 * FromBigEndian(hdr[..1]) + hdr[1];
    assert FromBigEndian(hdr[..3]) == 256 * FromBigEndian(hdr[..2]) + hdr[2];
  }

  /** The longest plaintext that is sent has 65520 bytes. */
  lemma RefusedIff(seal: Seal, open: Open, prefix: Bytes, sealed: seq<Bytes>, ctr: nat, pt: Bytes)
    requires Ideal(seal, open, prefix, sealed)
    ensures Written(seal, prefix, ctr, pt) == [] <==> |pt| > 65520
    ensures Refused(pt) <==> |pt| > 65520
  {
    hide NonceFor, BigEndian;
  }

  lemma ReadShrinks(open: Open, prefix: Bytes, rd: Reader)
    ensures ReadOne(open, prefix, rd).0.Plain? ==> |ReadOne(open, prefix, rd).1.input| < |rd.input|
  {
    hide FromBigEndian, NonceFor;
  }

  // ---- whatever arrives, a prefix is delivered

  /** A read that delivers anything delivers the plaintext sealed under the reader's counter. */
  lemma OnlyTheNextPlaintext(seal: Seal, open: Open, prefix: Bytes, sealed: seq<Bytes>, rd: Reader)
    requires Ideal(seal, open, prefix, sealed) && |sealed| < COUNTERS && rd.ctr < COUNTERS
    ensures var (r, after) := ReadOne(open, prefix, rd);
            r.Plain? ==> rd.ctr < |sealed| && r.pt == sealed[rd.ctr] && after.ctr == rd.ctr + 1
  {
    hide FromBigEndian, NonceFor;
    var (r, after) := ReadOne(open, prefix, rd);
    if r.Plain? {
      var n := FromBigEndian(rd.input[..4]);
      var ct, nonce := rd.input[4..][..n], NonceFor(prefix, rd.ctr);
      assert open(nonce, ct) == Some(r.pt);
      assert Sealed(seal, prefix, sealed, nonce, ct, r.pt);
      var i :| 0 <= i < |sealed| && nonce == NonceFor(prefix, i) && r.pt == sealed[i] && ct == seal(nonce, r.pt);
      NonceInjective(prefix, rd.ctr, i);
    }
  }

  lemma {:induction false} DeliversFromCounter(seal: Seal, open: Open, prefix: Bytes, sealed: seq<Bytes>, rd: Reader)
    requires Ideal(seal, open, prefix, sealed) && |sealed| < COUNTERS && rd.ctr <= |sealed|
    ensures Deliver(open, prefix, rd) <= sealed[rd.ctr..]
    decreases |rd.input|
  {
    hide Ideal, ReadOne;
    OnlyTheNextPlaintext(seal, open, prefix, sealed, rd);
    ReadShrinks(open, prefix, rd);
    var (r, after) := ReadOne(open, prefix, rd);
    if r.Plain? {
      DeliversFromCounter(seal, open, prefix, sealed, after);
    }
  }

  /** Edited, replayed, reordered or truncated: the reader delivers a prefix of what was sealed. */
  lemma DeliversPrefix(seal: Seal, open: Open, prefix: Bytes, sealed: seq<Bytes>, input: Bytes)
    requires Ideal(seal, open, prefix, sealed) && |sealed| < COUNTERS
    ensures Deliver(open, prefix, Reader(0, input)) <= sealed
  {
    hide Ideal, Deliver;
    DeliversFromCounter(seal, open, prefix, sealed, Reader(0, input));
    assert sealed[0..] == sealed;
  }

  // ---- an unmodified stream

  /** The index of the first refused write at or after i. */
  function FirstRefused(pts: seq<Bytes>, i: nat): (k: nat)
    requires i <= |pts|
    ensures i <= k <= |pts|
    ensures forall j :: i <= j < k ==> !Refused(pts[j])
    ensures k < |pts| ==> Refused(pts[k])
    decreases |pts| - i
  {
    if i == |pts| || Refused(pts[i]) then i else FirstRefused(pts, i + 1)
  }

  lemma FrameReadsBack(open: Open, prefix: Bytes, ctr: nat, ct: Bytes, rest: Bytes)
    requires 0 < |ct| <= MAX_WIRE
    ensures var (r, after) := ReadOne(open, prefix, Reader(ctr, Frame(ct) + rest));
            && after == Reader((ctr + 1) % COUNTERS, rest)
            && r == match open(NonceFor(prefix, ctr), ct) case Some(pt) => Plain(pt) case None => AuthFailed
  {
    hide BigEndian, FromBigEndian, NonceFor, Pow256;
    var input := Frame(ct) + rest;
    CounterRange();
    BigEndianReadsBack(|ct|, 4);
    assert input[..4] == BigEndian(|ct|, 4);
    assert input[4..] == ct + rest;
    assert (ct + rest)[..|ct|] == ct && (ct + rest)[|ct|..] == rest;
  }

  /** A frame sealed under a later counter does not open at i if write i was refused. */
  lemma AfterRefusal(seal: Seal, open: Open, prefix: Bytes, pts: seq<Bytes>, i: nat, ct: Bytes)
    requires Ideal(seal, open, prefix, pts) && |pts| < COUNTERS && i < |pts| && Refused(pts[i]) && |ct| <= MAX_WIRE
    ensures open(NonceFor(prefix, i), ct) == None
  {
    hide NonceFor;
    var nonce := NonceFor(prefix, i);
    if open(nonce, ct).Some? {
      var pt := open(nonce, ct).value;
      assert open(nonce, ct) == Some(pt);
      assert Sealed(seal, prefix, pts, nonce, ct, pt);
      var j :| 0 <= j < |pts| && nonce == NonceFor(prefix, j) && pt == pts[j] && ct == seal(nonce, pt);
      NonceInjective(prefix, i, j);
    }
  }

  /** The stream of the writes from j on starts with a frame, or is empty. */
  lemma {:induction false} NextFrame(seal: Seal, prefix: Bytes, j: nat, pts: seq<Bytes>)
    returns (ct: Bytes, rest: Bytes)
    requires forall nonce, pt :: |seal(nonce, pt)| == |pt| + TAG
    ensures WriteAll(seal, prefix, j, pts) == []
         || (0 < |ct| <= MAX_WIRE && WriteAll(seal, prefix, j, pts) == Frame(ct) + rest)
    decreases |pts|
  {
    hide BigEndian, NonceFor;
    ct, rest := [], [];
    if pts != [] {
      if Refused(pts[0]) {
        ct, rest := NextFrame(seal, prefix, (j + 1) % COUNTERS, pts[1..]);
        assert [] + WriteAll(seal, prefix, (j + 1) % COUNTERS, pts[1..]) == WriteAll(seal, prefix, j, pts);
      } else {
        ct := seal(NonceFor(prefix, j), pts[0]);
        rest := WriteAll(seal, prefix, (j + 1) % COUNTERS, pts[1..]);
      }
    }
  }

  /** Nothing is delivered once the reader waits for a write that was refused. */
  lemma StuckAtRefusal(seal: Seal, open: Open, prefix: Bytes, pts: seq<Bytes>, i: nat, j: nat)
    requires Ideal(seal, open, prefix, pts) && |pts| < COUNTERS && i < |pts| && Refused(pts[i]) && i < j <= |pts|
    ensures Deliver(open, prefix, Reader(i, WriteAll(seal, prefix, j, pts[j..]))) == []
  {
    var ct, rest := NextFrame(seal, prefix, j, pts[j..]);
    var wire := WriteAll(seal, prefix, j, pts[j..]);
    if wire != [] {
      hide WriteAll, Frame, NonceFor;
      FrameReadsBack(open, prefix, i, ct, rest);
      AfterRefusal(seal, open, prefix, pts, i, ct);
    }
  }

  /** On an unmodified stream everything up to the first refused write is delivered, and no more. */
  lemma {:induction false} DeliversUpToRefusal(seal: Seal, open: Open, prefix: Bytes, pts: seq<Bytes>, i: nat)
    requires Ideal(seal, open, prefix, pts) && |pts| < COUNTERS && i <= |pts|
    ensures Deliver(open, prefix, Reader(i, WriteAll(seal, prefix, i, pts[i..]))) == pts[i..FirstRefused(pts, i)]
    decreases |pts| - i
  {
    hide NonceFor, Ideal, Deliver, Refused, WriteAll;
    WireOf(seal, open, prefix, pts, i);
    if i == |pts| {
    } else if Refused(pts[i]) {
      StuckAtRefusal(seal, open, prefix, pts, i, i + 1);
    } else {
      AcceptedDelivered(seal, open, prefix, pts, i, WriteAll(seal, prefix, i + 1, pts[i + 1..]));
      DeliversUpToRefusal(seal, open, prefix, pts, i + 1);
    }
  }

  /** The stream of the writes from i on, split after the first. */
  lemma WireOf(seal: Seal, open: Open, prefix: Bytes, pts: seq<Bytes>, i: nat)
    requires Ideal(seal, open, prefix, pts) && |pts| < COUNTERS && i <= |pts|
    ensures i == |pts| ==> Deliver(open, prefix, Reader(i, WriteAll(seal, prefix, i, pts[i..]))) == []
    ensures i < |pts| ==>
              WriteAll(seal, prefix, i, pts[i..])
              == (if Refused(pts[i]) then [] else Frame(seal(NonceFor(prefix, i), pts[i])))
                 + WriteAll(seal, prefix, i + 1, pts[i + 1..])
    ensures i < |pts| && Refused(pts[i]) ==>
              WriteAll(seal, prefix, i, pts[i..]) == WriteAll(seal, prefix, i + 1, pts[i + 1..])
  {
    hide NonceFor, Frame;
    if i < |pts| {
      assert pts[i..][1..] == pts[i + 1..];
      assert |seal(NonceFor(prefix, i), pts[i])| == |pts[i]| + TAG;
    }
  }

  lemma AcceptedDelivered(seal: Seal, open: Open, prefix: Bytes, pts: seq<Bytes>, i: nat, rest: Bytes)
    requires Ideal(seal, open, prefix, pts) && |pts| < COUNTERS && i < |pts| && !Refused(pts[i])
    ensures Deliver(open, prefix, Reader(i, Frame(seal(NonceFor(prefix, i), pts[i])) + rest))
         == [pts[i]] + Deliver(open, prefix, Reader(i + 1, rest))
  {
    hide NonceFor, ReadOne, Frame;
    var ct := seal(NonceFor(prefix, i), pts[i]);
    assert |ct| == |pts[i]| + TAG;
    FrameReadsBack(open, prefix, i, ct, rest);
    assert Sealed(seal, prefix, pts, NonceFor(prefix, i), ct, pts[i]);
    assert open(NonceFor(prefix, i), ct) == Some(pts[i]);
  }

  function Accepted(pts: seq<Bytes>): seq<Bytes>
  {
    if pts == [] then [] else (if Refused(pts[0]) then [] else [pts[0]]) + Accepted(pts[1..])
  }

  lemma {:induction false} AcceptedFrom(pts: seq<Bytes>, i: nat)
    requires i <= |pts|
    ensures Accepted(pts[i..]) == pts[i..FirstRefused(pts, i)]
       <==> forall j :: FirstRefused(pts, i) <= j < |pts| ==> Refused(pts[j])
    ensures |Accepted(pts[i..])| > 0 <==> exists j :: i <= j < |pts| && !Refused(pts[j])
    ensures FirstRefused(pts, i) - i <= |Accepted(pts[i..])|
    decreases |pts| - i
  {
    if i < |pts| {
      AcceptedFrom(pts, i + 1);
      assert pts[i..][1..] == pts[i + 1..];
      if !Refused(pts[i]) {
        assert pts[i..FirstRefused(pts, i)] == [pts[i]] + pts[i + 1..FirstRefused(pts, i + 1)];
        assert Accepted(pts[i..])[1..] == Accepted(pts[i + 1..]);
      }
    }
  }

  /** Every write that succeeded is read back, in order and alone, exactly if no successful write
      follows a refused one. */
  lemma UnmodifiedStream(seal: Seal, open: Open, prefix: Bytes, pts: seq<Bytes>)
    requires Ideal(seal, open, prefix, pts) && |pts| < COUNTERS
    ensures Deliver(open, prefix, Reader(0, WriteAll(seal, prefix, 0, pts))) == pts[..FirstRefused(pts, 0)]
    ensures Deliver(open, prefix, Reader(0, WriteAll(seal, prefix, 0, pts))) == Accepted(pts)
       <==> forall i, j :: 0 <= i < j < |pts| && Refused(pts[i]) ==> Refused(pts[j])
  {
    hide Ideal, Deliver, WriteAll, Refused;
    DeliversUpToRefusal(seal, open, prefix, pts, 0);
    AcceptedFrom(pts, 0);
    assert pts[0..] == pts && pts[0..FirstRefused(pts, 0)] == pts[..FirstRefused(pts, 0)];
  }

  // ---- a socket that fails

  /** A write, and how many bytes of its frame the socket takes. */
  datatype Write = Write(pt: Bytes, room: nat)

  /** What the writes from w on put on the wire: nothing after the first that the socket cuts short. */
  function SentBy(seal: Seal, prefix: Bytes, ctr: nat, writes: seq<Write>): Bytes
    decreases |writes|
  {
    if writes == [] then []
    else
      var wire := Written(seal, prefix, ctr, writes[0].pt);
      if writes[0].room < |wire| then Taken(wire, writes[0].room)
      else wire + SentBy(seal, prefix, (ctr + 1) % COUNTERS, writes[1..])
  }

  function Texts(writes: seq<Write>): (pts: seq<Bytes>)
    ensures |pts| == |writes|
  {
    seq(|writes|, i requires 0 <= i < |writes| => writes[i].pt)
  }

  /** Writes that fit and that the socket takes whole. */
  predicate Succeeds(w: Write) { !Refused(w.pt) && w.room >= 4 + |w.pt| + TAG }

  /** The index of the first write at or after i that does not succeed. */
  function FirstFailed(writes: seq<Write>, i: nat): (k: nat)
    requires i <= |writes|
    ensures i <= k <= |writes|
    ensures forall j :: i <= j < k ==> Succeeds(writes[j])
    ensures k < |writes| ==> !Succeeds(writes[k])
    decreases |writes| - i
  {
    if i == |writes| || !Succeeds(writes[i]) then i else FirstFailed(writes, i + 1)
  }

  lemma {:induction false} SentIsPrefix(seal: Seal, prefix: Bytes, ctr: nat, writes: seq<Write>)
    ensures SentBy(seal, prefix, ctr, writes) <= WriteAll(seal, prefix, ctr, Texts(writes))
    decreases |writes|
  {
    hide Written;
    if writes != [] {
      SentIsPrefix(seal, prefix, (ctr + 1) % COUNTERS, writes[1..]);
      assert Texts(writes)[1..] == Texts(writes[1..]);
    }
  }

  /** A read that delivers from a part of the stream does the same on the whole. */
  lemma ReadOnMore(open: Open, prefix: Bytes, ctr: nat, part: Bytes, more: Bytes)
    requires ReadOne(open, prefix, Reader(ctr, part)).0.Plain?
    ensures var (r, after), (r', after') :=
              ReadOne(open, prefix, Reader(ctr, part)), ReadOne(open, prefix, Reader(ctr, part + more));
            r' == r && after' == Reader(after.ctr, after.input + more)
  {
    hide FromBigEndian, NonceFor;
    var input, rest := part + more, part[4..];
    var n := FromBigEndian(part[..4]);
    assert input[..4] == part[..4] && input[4..] == rest + more;
    assert (rest + more)[..n] == rest[..n] && (rest + more)[n..] == rest[n..] + more;
  }

  /** Cutting the stream short never delivers anything else. */
  lemma {:induction false} DeliverOnMore(open: Open, prefix: Bytes, ctr: nat, part: Bytes, more: Bytes)
    ensures Deliver(open, prefix, Reader(ctr, part)) <= Deliver(open, prefix, Reader(ctr, part + more))
    decreases |part|
  {
    hide ReadOne;
    var (r, after) := ReadOne(open, prefix, Reader(ctr, part));
    if r.Plain? {
      ReadShrinks(open, prefix, Reader(ctr, part));
      ReadOnMore(open, prefix, ctr, part, more);
      DeliverOnMore(open, prefix, after.ctr, after.input, more);
    }
  }

  /** A frame cut short delivers nothing. */
  lemma CutFrame(open: Open, prefix: Bytes, ctr: nat, ct: Bytes, room: nat)
    requires 0 < |ct| <= MAX_WIRE && room < |Frame(ct)|
    ensures Deliver(open, prefix, Reader(ctr, Frame(ct)[..room])) == []
  {
    hide BigEndian, FromBigEndian, NonceFor, Pow256;
    CounterRange();
    BigEndianReadsBack(|ct|, 4);
    if room >= 4 {
      assert Frame(ct)[..room][..4] == BigEndian(|ct|, 4);
    }
  }

  lemma TextsFrom(writes: seq<Write>, i: nat)
    requires i <= |writes|
    ensures Texts(writes[i..]) == Texts(writes)[i..]
    ensures i < |writes| ==> Texts(writes)[i] == writes[i].pt
  {
  }

  /** A part of a stream that delivers nothing delivers nothing. */
  lemma PartDeliversNothing(open: Open, prefix: Bytes, ctr: nat, part: Bytes, whole: Bytes)
    requires part <= whole && Deliver(open, prefix, Reader(ctr, whole)) == []
    ensures Deliver(open, prefix, Reader(ctr, part)) == []
  {
    hide *;
    assert part + whole[|part|..] == whole;
    DeliverOnMore(open, prefix, ctr, part, whole[|part|..]);
  }

  lemma StuckAtFailure(seal: Seal, open: Open, prefix: Bytes, writes: seq<Write>, i: nat)
    requires Ideal(seal, open, prefix, Texts(writes)) && |writes| < COUNTERS && i < |writes| && Refused(writes[i].pt)
    ensures Deliver(open, prefix, Reader(i, SentBy(seal, prefix, i + 1, writes[i + 1..]))) == []
  {
    hide *;
    TextsFrom(writes, i);
    TextsFrom(writes, i + 1);
    StuckAtRefusal(seal, open, prefix, Texts(writes), i, i + 1);
    SentIsPrefix(seal, prefix, i + 1, writes[i + 1..]);
    PartDeliversNothing(open, prefix, i, SentBy(seal, prefix, i + 1, writes[i + 1..]),
                        WriteAll(seal, prefix, i + 1, Texts(writes)[i + 1..]));
  }

  lemma SentUnfolds(seal: Seal, prefix: Bytes, ctr: nat, writes: seq<Write>)
    requires writes != [] && ctr + 1 < COUNTERS
    ensures var wire := Written(seal, prefix, ctr, writes[0].pt);
            SentBy(seal, prefix, ctr, writes)
            == if writes[0].room < |wire| then Taken(wire, writes[0].room)
               else wire + SentBy(seal, prefix, ctr + 1, writes[1..])
  {
    hide Written, Taken;
  }

  lemma WrittenIs(seal: Seal, prefix: Bytes, ctr: nat, pt: Bytes)
    requires |seal(NonceFor(prefix, ctr), pt)| == |pt| + TAG
    ensures var ct := seal(NonceFor(prefix, ctr), pt);
            |Frame(ct)| == 4 + |pt| + TAG && Written(seal, prefix, ctr, pt) == if Refused(pt) then [] else Frame(ct)
  {
    hide NonceFor, BigEndian;
  }

  /** The stream of some writes, by the fate of the first. */
  lemma SentFirst(seal: Seal, prefix: Bytes, ctr: nat, writes: seq<Write>)
    requires writes != [] && ctr + 1 < COUNTERS && |seal(NonceFor(prefix, ctr), writes[0].pt)| == |writes[0].pt| + TAG
    ensures var ct, w := seal(NonceFor(prefix, ctr), writes[0].pt), writes[0];
            var sent, rest := SentBy(seal, prefix, ctr, writes), SentBy(seal, prefix, ctr + 1, writes[1..]);
            && (Refused(w.pt) ==> sent == rest)
            && (!Refused(w.pt) && !Succeeds(w) ==> w.room < |Frame(ct)| && sent == Frame(ct)[..w.room])
            && (Succeeds(w) ==> sent == Frame(ct) + rest)
  {
    hide NonceFor, Frame, Written, SentBy;
    SentUnfolds(seal, prefix, ctr, writes);
    WrittenIs(seal, prefix, ctr, writes[0].pt);
  }

  lemma FirstFailedStep(writes: seq<Write>, i: nat)
    requires i < |writes|
    ensures Texts(writes)[i..FirstFailed(writes, i)]
         == if Succeeds(writes[i]) then [writes[i].pt] + Texts(writes)[i + 1..FirstFailed(writes, i + 1)] else []
  {
    hide Succeeds;
  }

  lemma CiphertextLength(seal: Seal, open: Open, prefix: Bytes, sealed: seq<Bytes>, nonce: Bytes, pt: Bytes)
    requires Ideal(seal, open, prefix, sealed)
    ensures |seal(nonce, pt)| == |pt| + TAG
  {
  }

  lemma SucceedsFits(w: Write)
    ensures Succeeds(w) ==> !Refused(w.pt)
    ensures !Refused(w.pt) <==> 0 < |w.pt| + TAG <= MAX_WIRE
  {
  }

  /** Through a socket that may fail anywhere, everything up to the first write that does not succeed
      is delivered, and no more. */
  lemma {:induction false} DeliversUpToFailure(seal: Seal, open: Open, prefix: Bytes, writes: seq<Write>, i: nat)
    requires Ideal(seal, open, prefix, Texts(writes)) && |writes| < COUNTERS && i <= |writes|
    ensures Deliver(open, prefix, Reader(i, SentBy(seal, prefix, i, writes[i..])))
         == Texts(writes)[i..FirstFailed(writes, i)]
    decreases |writes| - i
  {
    hide *;
    if i == |writes| {
      NothingSent(seal, open, prefix, i);
      assert writes[i..] == [];
    } else {
      var w, ct := writes[i], seal(NonceFor(prefix, i), writes[i].pt);
      var rest := SentBy(seal, prefix, i + 1, writes[i + 1..]);
      assert writes[i..][0] == w && writes[i..][1..] == writes[i + 1..];
      TextsFrom(writes, i);
      CiphertextLength(seal, open, prefix, Texts(writes), NonceFor(prefix, i), w.pt);
      FirstFailedStep(writes, i);
      SucceedsFits(w);
      SentFirst(seal, prefix, i, writes[i..]);
      if Refused(w.pt) {
        StuckAtFailure(seal, open, prefix, writes, i);
      } else if !Succeeds(w) {
        CutFrame(open, prefix, i, ct, w.room);
      } else {
        AcceptedDelivered(seal, open, prefix, Texts(writes), i, rest);
        DeliversUpToFailure(seal, open, prefix, writes, i + 1);
      }
    }
  }

  lemma NothingSent(seal: Seal, open: Open, prefix: Bytes, ctr: nat)
    ensures Deliver(open, prefix, Reader(ctr, SentBy(seal, prefix, ctr, []))) == []
  {
  }

  /** Exactly the writes before the first failure arrive. */
  lemma FailingSocket(seal: Seal, open: Open, prefix: Bytes, writes: seq<Write>)
    requires Ideal(seal, open, prefix, Texts(writes)) && |writes| < COUNTERS
    ensures Deliver(open, prefix, Reader(0, SentBy(seal, prefix, 0, writes))) == Texts(writes)[..FirstFailed(writes, 0)]
  {
    hide *;
    DeliversUpToFailure(seal, open, prefix, writes, 0);
    assert writes[0..] == writes;
  }

  // ---- an ideal cipher, and a refused write

  function Padded(pt: Bytes): Bytes { pt + seq(TAG, _ => 0) }

  /** The plaintext among the first n sealed that has this nonce and ciphertext. */
  function Lookup(prefix: Bytes, sealed: seq<Bytes>, n: nat, nonce: Bytes, ct: Bytes): Option<Bytes>
    requires n <= |sealed|
  {
    if n == 0 then None
    else if nonce == NonceFor(prefix, n - 1) && ct == Padded(sealed[n - 1]) then Some(sealed[n - 1])
    else Lookup(prefix, sealed, n - 1, nonce, ct)
  }

  lemma {:induction false} LookupFinds(prefix: Bytes, sealed: seq<Bytes>, n: nat, nonce: Bytes, ct: Bytes, pt: Bytes)
    requires n <= |sealed| < COUNTERS
    ensures Lookup(prefix, sealed, n, nonce, ct) == Some(pt)
       <==> exists i :: 0 <= i < n && nonce == NonceFor(prefix, i) && pt == sealed[i] && ct == Padded(pt)
  {
    hide NonceFor, Padded;
    if n > 0 {
      LookupFinds(prefix, sealed, n - 1, nonce, ct, pt);
      forall i | 0 <= i < n && nonce == NonceFor(prefix, i) && nonce == NonceFor(prefix, n - 1) ensures i == n - 1 {
        NonceInjective(prefix, i, n - 1);
      }
    }
  }

  /** Whatever a session of fewer than 2^64 writes seals, some cipher is ideal for it. */
  lemma IdealExists(prefix: Bytes, sealed: seq<Bytes>) returns (seal: Seal, open: Open)
    requires |sealed| < COUNTERS
    ensures Ideal(seal, open, prefix, sealed)
  {
    seal := (_, pt) => Padded(pt);
    open := (nonce, ct) => Lookup(prefix, sealed, |sealed|, nonce, ct);
    forall nonce, ct, pt ensures open(nonce, ct) == Some(pt) <==> Sealed(seal, prefix, sealed, nonce, ct, pt) {
      hide NonceFor;
      LookupFinds(prefix, sealed, |sealed|, nonce, ct, pt);
    }
  }

  /** A refused write does lose the ones after it: of an oversize plaintext and an empty one the
      second is accepted, and nothing is delivered. */
  lemma RefusedWriteLosesTheNext(prefix: Bytes) returns (seal: Seal, open: Open, pts: seq<Bytes>)
    ensures Ideal(seal, open, prefix, pts) && |pts| < COUNTERS
    ensures Accepted(pts) == [[]] && Deliver(open, prefix, Reader(0, WriteAll(seal, prefix, 0, pts))) == []
  {
    var large: Bytes := seq(MAX_WIRE, _ => 0);
    pts := [large, []];
    assert Refused(large) && !Refused([]);
    assert pts[1..] == [[]] && pts[1..][1..] == [];
    seal, open := IdealExists(prefix, pts);
    assert Accepted(pts[1..]) == [[]];
    assert FirstRefused(pts, 0) == 0;
    hide Ideal, Deliver, WriteAll, Refused;
    UnmodifiedStream(seal, open, prefix, pts);
  }

  // ---- the keys of a session

  datatype SessionKeys = SessionKeys(tx: Bytes, rx: Bytes)

  function Info(dialer: string, responder: string, direction: string): string
  {
    "lanrunner-v2|" + dialer + "|" + responder + direction
  }

  /** Key material for both directions; hkdf is the extract-then-expand of RFC 5869. */
  function DeriveSession(hkdf: (Bytes, string, string) -> Bytes, shared: Bytes, salt: string,
                         dialer: string, responder: string, weAreDialer: bool): SessionKeys
  {
    var d2r := hkdf(shared, salt, Info(dialer, responder, "|d2r"));
    var r2d := hkdf(shared, salt, Info(dialer, responder, "|r2d"));
    if weAreDialer then SessionKeys(d2r, r2d) else SessionKeys(r2d, d2r)
  }

  /** How one end of a handshake orders names and nonces before deriving. */
  function HandshakeKeys(hkdf: (Bytes, string, string) -> Bytes, shared: Bytes, self: string, peer: string,
                         myNonce: string, theirNonce: string, outbound: bool): SessionKeys
  {
    if outbound then DeriveSession(hkdf, shared, myNonce + theirNonce, self, peer, true)
    else DeriveSession(hkdf, shared, theirNonce + myNonce, peer, self, false)
  }

  /** What one end sends with, the other end receives with. */
  lemma EndsMirror(hkdf: (Bytes, string, string) -> Bytes, shared: Bytes, a: string, b: string, na: string, nb: string)
    ensures var dialer := HandshakeKeys(hkdf, shared, a, b, na, nb, true);
            var responder := HandshakeKeys(hkdf, shared, b, a, nb, na, false);
            dialer.tx == responder.rx && dialer.rx == responder.tx
  {
  }

  /** The info string of a derivation is that of one ordered pair of fingerprints, of 32 characters each,
      and of one direction. */
  lemma InfoInjective(d: string, r: string, toResponder: bool, d': string, r': string, toResponder': bool)
    requires |d| == |r| == |d'| == |r'| == 32
    ensures Info(d, r, if toResponder then "|d2r" else "|r2d") == Info(d', r', if toResponder' then "|d2r" else "|r2d")
       <==> d == d' && r == r' && toResponder == toResponder'
  {
    var x := Info(d, r, if toResponder then "|d2r" else "|r2d");
    var y := Info(d', r', if toResponder' then "|d2r" else "|r2d");
    assert x[13..45] == d && y[13..45] == d';
    assert x[46..78] == r && y[46..78] == r';
    assert x[79] == (if toResponder then 'd' else 'r') && y[79] == (if toResponder' then 'd' else 'r');
  }

  function Direction(toResponder: bool): string { if toResponder then "|d2r" else "|r2d" }

  /** For one secret and salt, different info strings give different key material. */
  ghost predicate CollisionFree(hkdf: (Bytes, string, string) -> Bytes, shared: Bytes, salt: string)
  {
    forall i: string, j: string :: hkdf(shared, salt, i) == hkdf(shared, salt, j) ==> i == j
  }

  lemma SameMaterial(hkdf: (Bytes, string, string) -> Bytes, shared: Bytes, salt: string, i: string, j: string)
    requires CollisionFree(hkdf, shared, salt)
    ensures hkdf(shared, salt, i) == hkdf(shared, salt, j) <==> i == j
  {
  }

  /** One end sends with the key of its direction and receives with that of the other. */
  lemma DirectionOfKeys(hkdf: (Bytes, string, string) -> Bytes, shared: Bytes, salt: string,
                        dialer: string, responder: string, weAreDialer: bool)
    ensures var keys := DeriveSession(hkdf, shared, salt, dialer, responder, weAreDialer);
            && keys.tx == hkdf(shared, salt, Info(dialer, responder, Direction(weAreDialer)))
            && keys.rx == hkdf(shared, salt, Info(dialer, responder, Direction(!weAreDialer)))
  {
    hide Info;
  }

  /** For one secret and salt, two ends send with the same key exactly if they play the same role in the
      same ordered pair, and one sends with what the other receives with exactly if they play opposite ones. */
  lemma KeysSharedIff(hkdf: (Bytes, string, string) -> Bytes, shared: Bytes, salt: string,
                      d: string, r: string, dialing: bool, d': string, r': string, dialing': bool)
    requires |d| == |r| == |d'| == |r'| == 32 && CollisionFree(hkdf, shared, salt)
    ensures var one, two := DeriveSession(hkdf, shared, salt, d, r, dialing),
                            DeriveSession(hkdf, shared, salt, d', r', dialing');
            && (one.tx == two.tx <==> d == d' && r == r' && dialing == dialing')
            && (one.rx == two.rx <==> d == d' && r == r' && dialing == dialing')
            && (one.tx == two.rx <==> d == d' && r == r' && dialing != dialing')
  {
    DirectionOfKeys(hkdf, shared, salt, d, r, dialing);
    DirectionOfKeys(hkdf, shared, salt, d', r', dialing');
    InfoInjective(d, r, dialing, d', r', dialing');
    InfoInjective(d, r, !dialing, d', r', !dialing');
    InfoInjective(d, r, dialing, d', r', !dialing');
    hide Info, CollisionFree, DeriveSession;
    SameMaterial(hkdf, shared, salt, Info(d, r, Direction(dialing)), Info(d', r', Direction(dialing')));
    SameMaterial(hkdf, shared, salt, Info(d, r, Direction(!dialing)), Info(d', r', Direction(!dialing')));
    SameMaterial(hkdf, shared, salt, Info(d, r, Direction(dialing)), Info(d', r', Direction(!dialing')));
  }

  /** The salt of a handshake: the dialer's nonce, then the responder's. */
  function Salt(mine: string, theirs: string, outbound: bool): string
  {
    if outbound then mine + theirs else theirs + mine
  }

  /** The two directions of a session never share a key, at either end. */
  lemma DirectionsDiffer(hkdf: (Bytes, string, string) -> Bytes, shared: Bytes, self: string, peer: string,
                         mine: string, theirs: string, outbound: bool)
    requires |self| == |peer| == 32 && CollisionFree(hkdf, shared, Salt(mine, theirs, outbound))
    ensures var keys := HandshakeKeys(hkdf, shared, self, peer, mine, theirs, outbound); keys.tx != keys.rx
  {
    hide Info, CollisionFree, DeriveSession;
    if outbound { KeysSharedIff(hkdf, shared, mine + theirs, self, peer, true, self, peer, true); }
    else { KeysSharedIff(hkdf, shared, theirs + mine, peer, self, false, peer, self, false); }
  }

  /** What both ends feed into the derivation, written out. */
  lemma HandshakeInputs(hkdf: (Bytes, string, string) -> Bytes, shared: Bytes, a: string, b: string,
                        na: string, nb: string)
    ensures var dialer := HandshakeKeys(hkdf, shared, a, b, na, nb, true);
            var responder := HandshakeKeys(hkdf, shared, b, a, nb, na, false);
            && dialer.tx == responder.rx == hkdf(shared, na + nb, "lanrunner-v2|" + a + "|" + b + "|d2r")
            && dialer.rx == responder.tx == hkdf(shared, na + nb, "lanrunner-v2|" + a + "|" + b + "|r2d")
  {
  }
}
