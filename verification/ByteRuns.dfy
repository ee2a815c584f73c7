/** Whole runs of the byte-at-a-time receiver, parsing whenever it asks for it. */
module ByteRuns {
  import opened Words
  import opened Framing
  import opened Delivery
  import opened Streams
  import opened Receivers

  /** One byte: receive it, and parse if asked to. */
  function Turn(seal: Seal, m: Machine, c: byte, stale: byte): (run: Run)
    requires m.WellFormed()
    ensures run.m.WellFormed() && run.m.cap == m.cap
  {
    var o := ReceiveByte(m, c, stale);
    ReceiveByteStaysWellFormed(m, c, stale);
    if !o.parse then Run(o.m, [])
    else
      var p := Parse(seal, o.m);
      ParseStaysWellFormed(seal, o.m);
      Run(p.0, if p.1.Delivers() then [p.1.frame] else [])
  }

  /** What one turn makes of a machine and the byte at a place of the stream. */
  type ByteReceiver = (Machine, nat) -> Run

  /** turn does this to the bytes of s, with any leftovers behind them. */
  ghost predicate Turns(turn: ByteReceiver, seal: Seal, s: seq<byte>) {
    forall m, i {:trigger TurnsAt(turn, seal, s, m, i)} :: TurnsAt(turn, seal, s, m, i)
  }

  ghost predicate TurnsAt(turn: ByteReceiver, seal: Seal, s: seq<byte>, m: Machine, i: nat) {
    i < |s| && m.WellFormed() ==> exists stale :: turn(m, i) == Turn(seal, m, s[i], stale)
  }

  ghost function TurnsWith(seal: Seal, s: seq<byte>, z: Leftovers): ByteReceiver {
    (m: Machine, i: nat) => if i < |s| && m.WellFormed() then Turn(seal, m, s[i], z(i)) else Run(m, [])
  }

  lemma ReceiverTurns(seal: Seal, s: seq<byte>, z: Leftovers)
    ensures Turns(TurnsWith(seal, s, z), seal, s)
  {
    forall m, i: nat
      ensures TurnsAt(TurnsWith(seal, s, z), seal, s, m, i)
    {
      if i < |s| && m.WellFormed() {
        assert TurnsWith(seal, s, z)(m, i) == Turn(seal, m, s[i], z(i));
      }
    }
  }

  /** The bytes from place i up to e, one at a time. */
  function Feed(turn: ByteReceiver, m: Machine, i: nat, e: nat): (run: Run)
    decreases e - i
  {
    if i >= e then Run(m, [])
    else
      var t := turn(m, i);
      var rest := Feed(turn, t.m, i + 1, e);
      Run(rest.m, t.frames + rest.frames)
  }

  lemma GarbageTurn(turn: ByteReceiver, seal: Seal, left: nat, cap: nat, s: seq<byte>, i: nat)
    requires Turns(turn, seal, s) && left < TWO16 && cap > 1 && i < |s| && s[i] != MAGIC
    ensures turn(AtRest(left, cap), i) == Run(AtRest(left, cap), [])
  {
    assert TurnsAt(turn, seal, s, AtRest(left, cap), i);
    assert [s[i]][..1] == [s[i]] && [s[i]][1..] == [];
  }

  lemma {:induction false} FeedGarbage(turn: ByteReceiver, seal: Seal, left: nat, cap: nat, s: seq<byte>,
                                       i: nat, j: nat)
    requires Turns(turn, seal, s) && left < TWO16 && cap > 1 && i <= j <= |s| && forall k | i <= k < j :: s[k] != MAGIC
    ensures Feed(turn, AtRest(left, cap), i, |s|) == Feed(turn, AtRest(left, cap), j, |s|)
    decreases j - i
  {
    if i < j {
      GarbageTurn(turn, seal, left, cap, s, i);
      FeedGarbage(turn, seal, left, cap, s, i + 1, j);
    }
  }

  ghost predicate GoodFrame(seal: Seal, f: seq<byte>, cap: nat) {
    IsFrame(f) && |f| <= cap && PayloadLen(f) < 256 && seal(f)
  }

  /** Byte n of a good frame; the last one delivers it and leaves the machine at rest. */
  lemma FrameTurn(turn: ByteReceiver, seal: Seal, m: Machine, s: seq<byte>, i: nat,
                                     f: seq<byte>, n: nat)
    requires Turns(turn, seal, s) && i < |s| && n < |f| && s[i] == f[n]
    requires GoodFrame(seal, f, m.cap) && ByteTracks(m, f, n)
    ensures var t := turn(m, i);
            && t.m.cap == m.cap
            && (n + 1 < |f| ==> t.frames == [] && ByteTracks(t.m, f, n + 1))
            && (n + 1 == |f| ==> t.frames == [f] && t.m == AtRest(t.m.left, m.cap) && t.m.left < TWO16)
  {
    assert m.WellFormed();
    assert TurnsAt(turn, seal, s, m, i);
    var stale :| turn(m, i) == Turn(seal, m, s[i], stale);
    ByteStep(m, f, n, stale);
    if n + 1 == |f| {
      assert f[..n + 1] == f && f[..FrameLen(f)] == f;
    }
  }

  /** The rest of a frame that ends at e, from its byte n on; then the machine is at rest. */
  lemma {:induction false} FeedFrame(turn: ByteReceiver, seal: Seal, m: Machine, s: seq<byte>, e: nat,
                                     f: seq<byte>, n: nat)
    returns (left: nat)
    requires Turns(turn, seal, s) && GoodFrame(seal, f, m.cap) && n < |f| && ByteTracks(m, f, n)
    requires |f| <= e <= |s| && s[e - |f|..e] == f
    ensures left < TWO16
    ensures var rest := Feed(turn, AtRest(left, m.cap), e, |s|);
            Feed(turn, m, e - |f| + n, |s|) == Run(rest.m, [f] + rest.frames)
    decreases |f| - n
  {
    var i := e - |f| + n;
    assert s[i] == f[n];
    FrameTurn(turn, seal, m, s, i, f, n);
    if n + 1 == |f| {
      left := turn(m, i).m.left;
    } else {
      left := FeedFrame(turn, seal, turn(m, i).m, s, e, f, n + 1);
    }
  }

  lemma FeedSegment(turn: ByteReceiver, seal: Seal, left: nat, cap: nat, s: seq<byte>, i: nat,
                                       g: Segment, tail: seq<byte>, e: nat)
    returns (left': nat)
    requires Turns(turn, seal, s) && left < TWO16 && i <= |s| && s[i..] == g.garbage + g.frame + tail
    requires MAGIC !in g.garbage && GoodFrame(seal, g.frame, cap) && e == i + |g.garbage| + |g.frame|
    ensures left' < TWO16 && e <= |s| && s[e..] == tail
    ensures var rest := Feed(turn, AtRest(left', cap), e, |s|);
            Feed(turn, AtRest(left, cap), i, |s|) == Run(rest.m, [g.frame] + rest.frames)
  {
    var j := i + |g.garbage|;
    FrameInPlace(s, i, j, g.garbage, g.frame, tail);
    GarbageFirst(s, i, g.garbage, j);
    FeedGarbage(turn, seal, left, cap, s, i, j);
    left' := FeedFrame(turn, seal, AtRest(left, cap), s, e, g.frame, 0);
  }

  lemma GarbageFirst(s: seq<byte>, i: nat, a: seq<byte>, j: nat)
    requires i <= |s| && j == i + |a| && j <= |s| && a <= s[i..] && MAGIC !in a
    ensures forall k | i <= k < j :: s[k] != MAGIC
  {
    forall k | i <= k < j
      ensures s[k] != MAGIC
    {
      assert s[k] == s[i..][k - i] == a[k - i];
    }
  }

  lemma {:induction false} SegmentsFed(turn: ByteReceiver, seal: Seal, left: nat, cap: nat, s: seq<byte>, i: nat,
                                       segs: seq<Segment>)
    requires Turns(turn, seal, s) && left < TWO16 && i <= |s| && s[i..] == Stream(segs)
    requires forall g | g in segs :: MAGIC !in g.garbage && GoodFrame(seal, g.frame, cap)
    ensures var run := Feed(turn, AtRest(left, cap), i, |s|);
            run.frames == FramesOf(segs) && run.m.stat == Sync && run.m.fifo == []
    decreases |segs|
  {
    if segs == [] {
      assert i == |s|;
    } else {
      var g := segs[0];
      assert g in segs;
      var e := i + |g.garbage| + |g.frame|;
      var left' := FeedSegment(turn, seal, left, cap, s, i, g, Stream(segs[1..]), e);
      SegmentsFed(turn, seal, left', cap, s, e, segs[1..]);
    }
  }

  /** Magic-free garbage and fitting, correctly sealed frames with payloads under 256 bytes, fed byte by byte: exactly
      the frames are delivered, in order, and the machine comes to rest with an empty ring. */
  lemma BytesDelivered(seal: Seal, z: Leftovers, left: nat, cap: nat, segs: seq<Segment>)
    requires left < TWO16 && forall g | g in segs :: MAGIC !in g.garbage && GoodFrame(seal, g.frame, cap)
    ensures var s := Stream(segs);
            var run := Feed(TurnsWith(seal, s, z), AtRest(left, cap), 0, |s|);
            run.frames == FramesOf(segs) && run.m.stat == Sync && run.m.fifo == []
  {
    var s := Stream(segs);
    assert s[0..] == s;
    ReceiverTurns(seal, s, z);
    SegmentsFed(TurnsWith(seal, s, z), seal, left, cap, s, 0, segs);
  }
}
