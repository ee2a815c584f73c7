/** The frame trailer: what the parser accepts, and what it makes of the writer's frames. */
module Sealing {
  import opened Words
  import opened Crc
  import opened Framing
  import opened Delivery
  import opened Streams

  // ----- the writer's frames

  lemma BodyFields(msgid: byte, seqno: nat, payload: seq<byte>)
    requires seqno < TWO32 && |payload| < TWO16
    ensures var b := Body(msgid, seqno, payload);
            && b[0] == MAGIC && b[1] == msgid && Le16(b[2], b[3]) == |payload|
            && b[4..HEADER] == Number32Bytes(seqno) && b[HEADER..] == payload
  {
    assert |payload| % TWO16 == |payload|;
  }

  /** A payload that is too long for the length field is cut there, and nowhere else. */
  lemma LengthTruncated(msgid: byte, seqno: nat, payload: seq<byte>)
    requires seqno < TWO32
    ensures var b := Body(msgid, seqno, payload); PayloadLen(b) == |payload| % 65536 && b[HEADER..] == payload
  {
  }

  /** A body with any four bytes behind it is a frame, and carries the body's fields. */
  lemma BodyIsFrame(msgid: byte, seqno: nat, payload: seq<byte>, trailer: seq<byte>)
    requires seqno < TWO32 && |payload| < TWO16 && |trailer| == TRAILER
    ensures var f := Body(msgid, seqno, payload) + trailer;
            IsFrame(f) && MessageOf(f) == Message(msgid, seqno, payload)
  {
    var b := Body(msgid, seqno, payload);
    var f := b + trailer;
    BodyFields(msgid, seqno, payload);
    assert f[..|b|] == b;
    assert f[2] == b[2] && f[3] == b[3];
    assert f[4..HEADER] == b[4..HEADER];
    assert f[HEADER..HEADER + |payload|] == b[HEADER..];
  }

  /** The writer's frame is a frame, and carries what was written. */
  lemma WrittenIsFrame(poly: bv32, msgid: byte, seqno: nat, payload: seq<byte>)
    requires seqno < TWO32 && |payload| < TWO16
    ensures var f := FrameBytes(poly, msgid, seqno, payload);
            IsFrame(f) && MessageOf(f) == Message(msgid, seqno, payload)
  {
    var b := Body(msgid, seqno, payload);
    BodyIsFrame(msgid, seqno, payload, Le32Bytes(Checksum(poly, AfterHeader(|b|), b, 0)));
  }

  /** A message whose sequence number has 32 bits. */
  type Numbered = m: Message | m.seqno < TWO32 witness Message(0, 0, [])

  /** A message's body with the parser's own checksum behind it. */
  function FrameFor(poly: bv32, m: Numbered): seq<byte> {
    var b := Body(m.msgid, m.seqno, m.payload);
    b + Le32Bytes(BodyChecksum(poly, b))
  }

  /** For every message that is the one frame which carries it and passes the parser's check. */
  lemma SealedFrameIff(poly: bv32, m: Numbered, f: seq<byte>)
    requires |m.payload| < TWO16
    ensures IsFrame(f) && Sealed(poly, f) && MessageOf(f) == m <==> f == FrameFor(poly, m)
  {
    var b := Body(m.msgid, m.seqno, m.payload);
    var g := FrameFor(poly, m);
    BodyIsFrame(m.msgid, m.seqno, m.payload, Le32Bytes(BodyChecksum(poly, b)));
    assert g[..|b|] == b;
    if IsFrame(f) && Sealed(poly, f) && MessageOf(f) == m {
      FrameHasBody(f);
      Le32RoundTrip(f[|b|..]);
      assert f == f[..|b|] + f[|b|..];
    }
  }

  /** Whatever frame it is, before its trailer stands the body of its message. */
  lemma FrameHasBody(f: seq<byte>)
    requires IsFrame(f)
    ensures var m := MessageOf(f); f[..|f| - TRAILER] == Body(m.msgid, m.seqno, m.payload)
  {
    var m := MessageOf(f);
    BodyFields(m.msgid, m.seqno, m.payload);
    Number32RoundTrip(f[4..8]);
    Le16RoundTrip(f[2], f[3]);
    assert f[..|f| - TRAILER] == [f[0], f[1]] + [f[2], f[3]] + f[4..8] + f[8..|f| - TRAILER];
  }

  lemma WrittenSealedIff(poly: bv32, msgid: byte, seqno: nat, payload: seq<byte>)
    requires seqno < TWO32 && |payload| < TWO16
    ensures var n := HEADER + |payload|;
            Sealed(poly, FrameBytes(poly, msgid, seqno, payload)) <==> Drift(poly, n, n) == 0
  {
    var f, b := FrameBytes(poly, msgid, seqno, payload), Body(msgid, seqno, payload);
    assert f[..|b|] == b;
    assert f[|b|..] == Le32Bytes(Checksum(poly, AfterHeader(|b|), b, 0));
    ChainsAgreeIff(poly, b);
  }

  lemma ReceiveThenParse(seal: Seal, m: Machine, f: seq<byte>)
    requires IsFrame(f) && |f| <= m.cap && |f| < TWO16 && m.left < TWO16 && m == AtRest(m.left, m.cap)
    ensures var o := Receive(m, f);
            && o.ready && o.used == |f|
            && Parse(seal, o.m) ==
               if seal(f) then (o.m.(stat := Sync, fifo := []), More(f)) else (o.m.(fifo := f[1..]), BadCrc)
  {
    FrameReceivedIff(f, m.left, m.cap);
    assert f[..FrameLen(f)] == f;
  }

  /** Writing a packet, receiving it and parsing it gives the packet back exactly when the drift between
      the writer's and the parser's checksum chains is zero for that length and polynomial; otherwise
      the parser reports a bad checksum and drops one byte. */
  lemma RoundTripIff(poly: bv32, msgid: byte, seqno: nat, payload: seq<byte>, f: seq<byte>, n: nat,
      m: Machine)
    requires seqno < TWO32 && f == FrameBytes(poly, msgid, seqno, payload) && n == HEADER + |payload|
    requires n + TRAILER < TWO16 && n + TRAILER <= m.cap && m.left < TWO16 && m == AtRest(m.left, m.cap)
    ensures IsFrame(f) && MessageOf(f) == Message(msgid, seqno, payload)
    ensures var o := Receive(m, f);
            && o.ready && o.used == |f|
            && Parse(CrcSeal(poly), o.m) ==
               if Drift(poly, n, n) == 0 then (o.m.(stat := Sync, fifo := []), More(f))
               else (o.m.(fifo := f[1..]), BadCrc)
  {
    WrittenIsFrame(poly, msgid, seqno, payload);
    WrittenSealedIff(poly, msgid, seqno, payload);
    WrittenLength(poly, msgid, seqno, payload);
    ReceiveThenParse(CrcSeal(poly), m, f);
  }

  lemma WrittenLength(poly: bv32, msgid: byte, seqno: nat, payload: seq<byte>)
    requires seqno < TWO32
    ensures |FrameBytes(poly, msgid, seqno, payload)| == HEADER + |payload| + TRAILER
  {
  }

  /** With any polynomial whose top bit is set, the parser rejects every packet of at most 248 payload
      bytes that the writer wrote. */
  lemma ShortPacketsRejected(poly: bv32, msgid: byte, seqno: nat, payload: seq<byte>)
    requires HasTopBit(poly) && seqno < TWO32 && |payload| <= 248
    ensures !Sealed(poly, FrameBytes(poly, msgid, seqno, payload))
  {
    WrittenSealedIff(poly, msgid, seqno, payload);
    DriftNonzero(poly, HEADER + |payload|, HEADER + |payload|);
  }

  /** An empty packet, with the polynomial of Ethernet, is one of them. */
  lemma EmptyPacketRejected(poly: bv32, payload: seq<byte>)
    requires poly == 0xEDB8_8320 && payload == []
    ensures !Sealed(poly, FrameBytes(poly, 1, 0, payload))
  {
    assert HasTopBit(poly);
    ShortPacketsRejected(poly, 1, 0, payload);
  }

  // ----- messages there and back

  predicate Fits(m: Numbered, cap: nat) {
    HEADER + |m.payload| + TRAILER <= cap && HEADER + |m.payload| + TRAILER < TWO16
  }

  function SegmentsFor(poly: bv32, msgs: seq<Numbered>): (segs: seq<Segment>)
    decreases |msgs|
  {
    if msgs == [] then [] else [Segment([], FrameFor(poly, msgs[0]))] + SegmentsFor(poly, msgs[1..])
  }

  /** One frame per message, carrying it. */
  ghost predicate Carry(frames: seq<seq<byte>>, msgs: seq<Numbered>) {
    && |frames| == |msgs|
    && forall i {:trigger CarriesAt(frames, msgs, i)} :: 0 <= i < |msgs| ==> CarriesAt(frames, msgs, i)
  }

  ghost predicate CarriesAt(frames: seq<seq<byte>>, msgs: seq<Numbered>, i: int)
    requires 0 <= i < |msgs| == |frames|
  {
    IsFrame(frames[i]) && MessageOf(frames[i]) == msgs[i]
  }

  lemma SegmentFits(poly: bv32, m: Numbered, cap: nat)
    requires Fits(m, cap)
    ensures var f := FrameFor(poly, m);
            GoodSegment(CrcSeal(poly), Segment([], f), cap) && IsFrame(f) && MessageOf(f) == m
  {
    SealedFrameIff(poly, m, FrameFor(poly, m));
  }

  lemma CarryNext(f: seq<byte>, frames: seq<seq<byte>>, m: Numbered, msgs: seq<Numbered>)
    requires IsFrame(f) && MessageOf(f) == m && Carry(frames, msgs)
    ensures Carry([f] + frames, [m] + msgs)
  {
    forall i | 0 <= i < |msgs| + 1
      ensures CarriesAt([f] + frames, [m] + msgs, i)
    {
      if i > 0 {
        assert CarriesAt(frames, msgs, i - 1);
      }
    }
  }

  lemma {:induction false} SegmentsCarry(poly: bv32, msgs: seq<Numbered>, cap: nat)
    requires forall m :: m in msgs ==> Fits(m, cap)
    ensures forall g :: g in SegmentsFor(poly, msgs) ==> GoodSegment(CrcSeal(poly), g, cap)
    ensures Carry(FramesOf(SegmentsFor(poly, msgs)), msgs)
    decreases |msgs|
  {
    if msgs != [] {
      var f, rest := FrameFor(poly, msgs[0]), SegmentsFor(poly, msgs[1..]);
      SegmentFits(poly, msgs[0], cap);
      SegmentsCarry(poly, msgs[1..], cap);
      CarryNext(f, FramesOf(rest), msgs[0], msgs[1..]);
      assert msgs == [msgs[0]] + msgs[1..];
      assert FramesOf([Segment([], f)] + rest) == [f] + FramesOf(rest);
    }
  }

  /** The frames of any messages that fit, sent one after the other and cut in any way, bring exactly these messages
      in order. */
  lemma MessagesDelivered(poly: bv32, left: nat, cap: nat, msgs: seq<Numbered>, chunks: seq<seq<byte>>)
    requires left < TWO16 && forall m :: m in msgs ==> Fits(m, cap)
    requires Concat(chunks) == Stream(SegmentsFor(poly, msgs))
    ensures var run := PumpAll(TurnsWith(CrcSeal(poly)), AtRest(left, cap), chunks);
            Carry(run.frames, msgs) && run.m.stat == Sync && run.m.fifo == []
  {
    SegmentsCarry(poly, msgs, cap);
    SegmentsDelivered(CrcSeal(poly), left, cap, SegmentsFor(poly, msgs), chunks);
  }

  // ----- transmission errors

  /** A frame the parser accepts is rejected once a burst of at most four bytes before its trailer has
      changed, as long as the declared length has not. */
  lemma BurstRejected(poly: bv32, pre: seq<byte>, u: seq<byte>, v: seq<byte>, post: seq<byte>,
      trailer: seq<byte>)
    requires HasTopBit(poly) && |u| == |v| <= 4 && u != v && |trailer| == TRAILER
    requires Sealed(poly, pre + u + post + trailer)
    ensures !Sealed(poly, pre + v + post + trailer)
  {
    var a, b := pre + u + post, pre + v + post;
    assert (a + trailer)[..|a|] == a && (a + trailer)[|a|..] == trailer;
    assert (b + trailer)[..|b|] == b && (b + trailer)[|b|..] == trailer;
    BurstDetected(poly, EveryChunk(|a|), pre, u, v, post, 0);
  }

  /** The parser's answer to such a damaged frame: bad checksum, one byte dropped. */
  lemma BurstGivesBadCrc(poly: bv32, pre: seq<byte>, u: seq<byte>, v: seq<byte>, post: seq<byte>,
      trailer: seq<byte>, m: Machine)
    requires HasTopBit(poly) && |u| == |v| <= 4 && u != v && |trailer| == TRAILER
    requires Sealed(poly, pre + u + post + trailer)
    requires m.fifo == pre + v + post + trailer && Whole(m.fifo) && FrameLen(m.fifo) == |m.fifo| <= m.cap
    ensures Parse(CrcSeal(poly), m) == (m.(fifo := m.fifo[1..]), BadCrc)
  {
    BurstRejected(poly, pre, u, v, post, trailer);
    assert m.fifo[..|m.fifo|] == m.fifo;
  }
}
