/** Consequences for whole streams and single frames, each with the exact condition it needs. */
module Streams {
  import opened Words
  import opened Framing
  import opened Delivery

  /** A machine at rest with an empty ring. */
  function AtRest(left: nat, cap: nat): Machine {
    Machine(Sync, left, [], cap)
  }

  // ----- garbage and frames

  /** Bytes without a magic byte, then one frame. */
  datatype Segment = Segment(garbage: seq<byte>, frame: seq<byte>)

  ghost predicate GoodSegment(seal: Seal, g: Segment, cap: nat) {
    && MAGIC !in g.garbage
    && IsFrame(g.frame) && |g.frame| <= cap && |g.frame| < TWO16 && seal(g.frame)
  }

  function Stream(segs: seq<Segment>): seq<byte>
    decreases |segs|
  {
    if segs == [] then [] else segs[0].garbage + segs[0].frame + Stream(segs[1..])
  }

  function FramesOf(segs: seq<Segment>): seq<seq<byte>>
    decreases |segs|
  {
    if segs == [] then [] else [segs[0].frame] + FramesOf(segs[1..])
  }

  lemma {:induction false} SkipsGarbage(s: seq<byte>, i: nat, j: nat)
    requires i <= j < |s| && s[j] == MAGIC && forall k | i <= k < j :: s[k] != MAGIC
    ensures NextMagic(s, i, |s|) == j
    decreases j - i
  {
    if i < j {
      SkipsGarbage(s, i + 1, j);
    }
  }

  /** The frame of the first segment is the next frame of the stream. */
  lemma SegmentFirst(seal: Seal, s: seq<byte>, i: nat, g: Segment, rest: seq<byte>, cap: nat)
    requires i <= |s| && s[i..] == g.garbage + g.frame + rest && GoodSegment(seal, g, cap)
    ensures var j := i + |g.garbage|;
            && NextMagic(s, i, |s|) == j && FrameAt(s, j, |s|) && FrameOf(s, j) == g.frame
            && FitsAt(s, j, |s|, cap) && j + LenAt(s, j) == j + |g.frame| && s[j + |g.frame|..] == rest
  {
    var j, t := i + |g.garbage|, s[i..];
    forall k | i <= k < j
      ensures s[k] != MAGIC
    {
      assert s[k] == t[k - i] == g.garbage[k - i];
    }
    FrameInPlace(s, i, j, g.garbage, g.frame, rest);
    SkipsGarbage(s, i, j);
  }

  lemma FrameInPlace(s: seq<byte>, i: nat, j: nat, a: seq<byte>, f: seq<byte>, rest: seq<byte>)
    requires i <= |s| && s[i..] == a + f + rest && IsFrame(f) && j == i + |a|
    ensures j + |f| <= |s| && s[j] == MAGIC && LenAt(s, j) == |f| && s[j..j + |f|] == f && s[j + |f|..] == rest
  {
    var t := s[i..];
    assert t == a + (f + rest);
    assert s[j..] == t[|a|..] == f + rest;
    forall k | 0 <= k < |f|
      ensures s[j + k] == f[k]
    {
      assert s[j..][k] == f[k];
    }
    assert s[j + |f|..] == s[j..][|f|..];
    assert s[j..j + |f|] == f;
  }

  lemma {:induction false} FrameThenRest(seal: Seal, s: seq<byte>, i: nat, n: nat, cap: nat)
    requires i <= |s| && FrameAt(s, NextMagic(s, i, |s|), |s|)
    requires var j := NextMagic(s, i, |s|);
             FitsAt(s, j, |s|, cap) && seal(FrameOf(s, j)) && n == j + LenAt(s, j)
    requires Sound(seal, s, n, |s|, cap)
    ensures Sound(seal, s, i, |s|, cap) && Rest(s, i, |s|) == Rest(s, n, |s|)
    ensures Frames(s, i, |s|) == [FrameOf(s, NextMagic(s, i, |s|))] + Frames(s, n, |s|)
  {
  }

  lemma {:induction false} StreamOfSegments(seal: Seal, s: seq<byte>, i: nat, segs: seq<Segment>, cap: nat)
    requires i <= |s| && s[i..] == Stream(segs) && forall g | g in segs :: GoodSegment(seal, g, cap)
    ensures Sound(seal, s, i, |s|, cap) && Frames(s, i, |s|) == FramesOf(segs) && Rest(s, i, |s|) == |s|
    decreases |segs|
  {
    if segs == [] {
      assert i == |s|;
    } else {
      var g := segs[0];
      assert g in segs;
      var n := i + |g.garbage| + |g.frame|;
      SegmentFirst(seal, s, i, g, Stream(segs[1..]), cap);
      StreamOfSegments(seal, s, n, segs[1..], cap);
      FrameThenRest(seal, s, i, n, cap);
    }
  }

  /** Magic-free garbage and fitting, correctly sealed frames, cut into chunks in any way: the receiving
      loop delivers exactly the frames, in order, and comes to rest with an empty ring. */
  lemma SegmentsDelivered(seal: Seal, left: nat, cap: nat, segs: seq<Segment>,
      chunks: seq<seq<byte>>)
    requires left < TWO16 && Concat(chunks) == Stream(segs)
    requires forall g | g in segs :: GoodSegment(seal, g, cap)
    ensures var run := PumpAll(TurnsWith(seal), AtRest(left, cap), chunks);
            run.frames == FramesOf(segs) && run.m.stat == Sync && run.m.fifo == []
  {
    var s := Concat(chunks);
    assert s[0..] == s;
    StreamOfSegments(seal, s, 0, segs, cap);
    RunDelivers(seal, AtRest(left, cap), chunks);
  }

  // ----- which frames are received

  /** A frame offered in one piece is received exactly when it fits the ring and 16 bits can count it. */
  lemma FrameReceivedIff(f: seq<byte>, left: nat, cap: nat)
    requires IsFrame(f) && left < TWO16 && 0 < cap
    ensures var o := Receive(AtRest(left, cap), f);
            (o.ready && o.used == |f| && o.m.fifo == f) <==> |f| <= cap && |f| < TWO16
  {
    var m := AtRest(left, cap);
    ReceiveStaysWellFormed(m, f);
    assert f[0..|f|] == f;
    if |f| <= cap && |f| < TWO16 {
      ReceiveStep(m, f, 0, 0, |f|);
    } else if |f| <= cap {
      CountOverflows(f, left, cap);
    }
  }

  /** From 65536 bytes on, the count wraps and the machine reports a packet after at most 11 bytes. */
  lemma CountOverflows(f: seq<byte>, left: nat, cap: nat)
    requires IsFrame(f) && left < TWO16 && TWO16 <= |f| <= cap
    ensures Receive(AtRest(left, cap), f).ready && Receive(AtRest(left, cap), f).used == |f| - TWO16
  {
    var m := AtRest(left, cap);
    var m' := m.(stat := Head, left := HEADER);
    assert f[0..|f|] == f;
    SyncReceive(m, f, 0, |f|, f, HeadStage(m', f));
    assert HeaderByte([], HEADER, f, 2) == f[2] && HeaderByte([], HEADER, f, 3) == f[3];
    var m'' := m.(stat := Data, left := (HEADER + PayloadLen(f)) % TWO16);
    assert HeadStage(m', f) == DataStage(m'', f);
  }

  /** An empty packet of twelve bytes is too large for a ring of eight. */
  lemma TooLargeForRing(f: seq<byte>)
    requires f == [MAGIC, 1, 0, 0, 0, 0, 0, 0, 0, 0, 0, 0]
    ensures IsFrame(f)
    ensures var o := Receive(AtRest(0, 8), f); !(o.ready && o.used == |f| && o.m.fifo == f)
  {
    FrameReceivedIff(f, 0, 8);
  }
}
