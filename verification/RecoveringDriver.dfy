/** The loop around a packet object that resynchronises whenever parsing fails or leaves bytes behind. */
module RecoveringDriver {
  import opened Words
  import opened Framing
  import opened Delivery
  import opened Streams
  import opened Receivers
  import opened Recovery
  import opened PacketObject
  import opened Driver

  /** The loop on values, part by part. */
  datatype Loop = Loop(turn: Receiver, safe: Offering, recover: Recoverer, settles: Condition)

  ghost predicate IsLoop(loop: Loop, seal: Seal) {
    && Takes(loop.turn, loop.safe, loop.recover, loop.settles)
    && forall m {:trigger IsAt(loop, seal, m)} :: IsAt(loop, seal, m)
  }

  ghost predicate IsAt(loop: Loop, seal: Seal, m: Machine) {
    loop.recover(m) == Recovery.Recover(seal, m) && loop.settles(m) == Settles(seal, m)
  }

  ghost function LoopFor(seal: Seal): (loop: Loop)
    ensures IsLoop(loop, seal) && loop.turn == LoopOf(seal) && loop.safe == SafeFor(seal)
  {
    var loop := Loop(LoopOf(seal), SafeFor(seal), m => Recovery.Recover(seal, m), m => Settles(seal, m));
    LoopIs(loop, seal);
    loop
  }

  lemma LoopIs(loop: Loop, seal: Seal)
    requires loop == Loop(LoopOf(seal), SafeFor(seal), m => Recovery.Recover(seal, m), m => Settles(seal, m))
    ensures IsLoop(loop, seal)
  {
    forall m, b
      ensures TakesAt(loop.turn, loop.safe, loop.recover, loop.settles, m, b)
    {
    }
  }

  ghost predicate Ready(p: Packet, buf: array<byte>)
    reads p, p.mo, p.mo.buf
  {
    p.Valid() && p.View().WellFormed() && buf.Length == TWO16 && buf != p.mo.buf
  }

  lemma SearchEndsAfter(seal: Seal, m: Machine, n: Machine)
    requires Settles(seal, m) && n == Parse(seal, m).0 && !Parse(seal, m).1.More?
    ensures SeekSettles(seal, n)
  {
  }

  /** Parsing leaves less to search, if there is a whole frame. */
  lemma ParseShrinks(seal: Seal, m: Machine, n: Machine)
    requires n == Parse(seal, m).0
    ensures |n.fifo| < |m.fifo| || (|n.fifo| == |m.fifo| && !Whole(m.fifo))
  {
  }

  lemma HandedOutAll(seal: Seal, m: Machine, first: seq<Message>, more: seq<Message>, run: Run)
    requires var p := Parse(seal, m);
             !p.1.More? && HandedOut(first, if p.1.Delivers() then [p.1.frame] else [])
             && run == Recovery.Seek(seal, p.0)
    requires HandedOut(more, run.frames)
    ensures Recovery.Recover(seal, m).m == run.m && HandedOut(first + more, Recovery.Recover(seal, m).frames)
  {
    var p := Parse(seal, m);
    HandedOutBoth(first, if p.1.Delivers() then [p.1.frame] else [], more, run.frames);
  }

  /** Parses, and resynchronises on a negative code or BSCL_PACKET_RESYNC; all searches end. */
  method Recover(p: Packet, buf: array<byte>, ghost seal: Seal) returns (msgs: seq<Message>)
    requires Ready(p, buf) && seal == CrcSeal(p.poly) && Settles(seal, p.View())
    modifies p, p.mo, p.mo.buf, buf
    ensures Ready(p, buf)
    ensures var run := Recovery.Recover(seal, old(p.View())); p.View() == run.m && HandedOut(msgs, run.frames)
    decreases |p.View().fifo|, if Whole(p.View().fifo) then 0 else 2
  {
    ghost var m := p.View();
    var code;
    code, msgs := Take(p, buf, seal);
    if code != 0 {
      SearchEndsAfter(seal, m, p.View());
      ParseShrinks(seal, m, p.View());
      ghost var run := Recovery.Seek(seal, p.View());
      var more := Seek(p, buf, seal);
      HandedOutAll(seal, m, msgs, more, run);
      msgs := msgs + more;
    }
  }

  /** Resynchronises, and goes on if that finds a whole frame. */
  method Seek(p: Packet, buf: array<byte>, ghost seal: Seal) returns (msgs: seq<Message>)
    requires Ready(p, buf) && seal == CrcSeal(p.poly) && SeekSettles(seal, p.View())
    modifies p, p.mo, p.mo.buf, buf
    ensures Ready(p, buf)
    ensures var run := Recovery.Seek(seal, old(p.View())); p.View() == run.m && HandedOut(msgs, run.frames)
    decreases |p.View().fifo|, 1
  {
    ghost var m := p.View();
    assert StopsAt(m.fifo, m.cap, FirstStop(m.fifo, m.cap, 0));
    var ready := p.Resync();
    msgs := [];
    if ready {
      msgs := Recover(p, buf, seal);
    }
  }

  /** One turn of the loop. */
  method Turn(p: Packet, b: seq<byte>, buf: array<byte>, ghost loop: Loop) returns (used: nat, msgs: seq<Message>)
    requires Ready(p, buf) && |b| < 0x8000_0000 && IsLoop(loop, CrcSeal(p.poly)) && loop.safe(p.View(), b)
    modifies p, p.mo, p.mo.buf, buf
    ensures Ready(p, buf)
    ensures var t := loop.turn(old(p.View()), b); p.View() == t.m && used == t.used <= |b| && HandedOut(msgs, t.frames)
  {
    assert TakesAt(loop.turn, loop.safe, loop.recover, loop.settles, p.View(), b);
    var ready;
    ready, used := p.Receive(b);
    msgs := [];
    assert IsAt(loop, CrcSeal(p.poly), p.View());
    if ready {
      msgs := Recover(p, buf, CrcSeal(p.poly));
    }
  }

  /** Offers a chunk until it is taken. */
  method Offer(p: Packet, b: seq<byte>, buf: array<byte>, ghost loop: Loop) returns (msgs: seq<Message>)
    requires Ready(p, buf) && |b| < 0x8000_0000 && IsLoop(loop, CrcSeal(p.poly))
    requires PumpSafe(loop.turn, loop.safe, p.View(), b)
    modifies p, p.mo, p.mo.buf, buf
    ensures Ready(p, buf)
    ensures var run := Pump(loop.turn, old(p.View()), b); p.View() == run.m && HandedOut(msgs, run.frames)
    decreases |b|
  {
    var used;
    used, msgs := Turn(p, b, buf, loop);
    if used > 0 {
      ghost var run, first := Pump(loop.turn, p.View(), b[used..]), msgs;
      var more := Offer(p, b[used..], buf, loop);
      HandedOutBoth(first, loop.turn(old(p.View()), b).frames, more, run.frames);
      msgs := msgs + more;
    }
  }

  method OfferAll(p: Packet, chunks: seq<seq<byte>>, buf: array<byte>,
      ghost loop: Loop) returns (msgs: seq<Message>)
    requires Ready(p, buf) && IsLoop(loop, CrcSeal(p.poly))
    requires AllSafe(loop.turn, loop.safe, p.View(), chunks) && forall c :: c in chunks ==> |c| < 0x8000_0000
    modifies p, p.mo, p.mo.buf, buf
    ensures Ready(p, buf)
    ensures var run := PumpAll(loop.turn, old(p.View()), chunks); p.View() == run.m && HandedOut(msgs, run.frames)
    decreases |chunks|
  {
    if chunks == [] {
      return [];
    }
    ghost var first := Pump(loop.turn, p.View(), chunks[0]);
    msgs := Offer(p, chunks[0], buf, loop);
    var more := OfferAll(p, chunks[1..], buf, loop);
    HandedOutBoth(msgs, first.frames, more, PumpAll(loop.turn, first.m, chunks[1..]).frames);
    msgs := msgs + more;
  }

  /** A packet object at rest, fed a stream in any chunks by this loop, ends every search and hands out the messages of
      exactly the frames that can be salvaged, in order, as long as each search has a buffered byte to stop at. */
  method Run(p: Packet, chunks: seq<seq<byte>>, buf: array<byte>) returns (msgs: seq<Message>)
    requires p.Valid() && p.stat == Sync && p.View().fifo == [] && buf.Length == TWO16 && buf != p.mo.buf
    requires forall c :: c in chunks ==> |c| < 0x8000_0000
    requires Searchable(CrcSeal(p.poly), Concat(chunks), p.mo.size, 0, 0, |Concat(chunks)|)
    modifies p, p.mo, p.mo.buf, buf
    ensures p.Valid()
    ensures var s, seal, cap := Concat(chunks), CrcSeal(p.poly), p.mo.size;
            && HandedOut(msgs, Salvaged(seal, s, cap, 0, 0, |s|))
            && Tracks(p.View(), s, Open(seal, s, cap, 0, 0, |s|), |s|)
  {
    ghost var loop := LoopFor(CrcSeal(p.poly));
    RunSalvages(CrcSeal(p.poly), p.left, p.mo.size, Concat(chunks), chunks);
    msgs := OfferAll(p, chunks, buf, loop);
  }
}
