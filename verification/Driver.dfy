/** The loop a caller puts around a packet object: receive, parse when a packet is ready, offer what was not
    taken again. */
module Driver {
  import opened Words
  import opened Framing
  import opened Delivery
  import opened PacketObject

  /** One message per frame, with that frame's fields and payload. */
  ghost predicate HandedOut(msgs: seq<Message>, frames: seq<seq<byte>>) {
    && |msgs| == |frames|
    && forall i {:trigger HandedOutAt(msgs, frames, i)} :: 0 <= i < |msgs| ==> HandedOutAt(msgs, frames, i)
  }

  ghost predicate HandedOutAt(msgs: seq<Message>, frames: seq<seq<byte>>, i: int)
    requires 0 <= i < |msgs| == |frames|
  {
    Whole(frames[i]) && msgs[i] == MessageOf(frames[i])
  }

  lemma HandedOutBoth(a: seq<Message>, f: seq<seq<byte>>, b: seq<Message>, g: seq<seq<byte>>)
    requires HandedOut(a, f) && HandedOut(b, g)
    ensures HandedOut(a + b, f + g)
  {
    forall i | 0 <= i < |a + b|
      ensures HandedOutAt(a + b, f + g, i)
    {
      if i < |a| {
        assert HandedOutAt(a, f, i);
      } else {
        assert HandedOutAt(b, g, i - |a|);
      }
    }
  }

  /** The receiver the object is, as far as well-formed states go. */
  ghost predicate Is(turn: Receiver, p: Packet) {
    forall m, b {:trigger IsAt(turn, p, m, b)} :: IsAt(turn, p, m, b)
  }

  ghost predicate IsAt(turn: Receiver, p: Packet, m: Machine, b: seq<byte>) {
    m.WellFormed() ==> turn(m, b) == Delivery.Turn(CrcSeal(p.poly), m, b)
  }

  /** One turn of the loop. */
  method Turn(p: Packet, b: seq<byte>, buf: array<byte>, ghost turn: Receiver) returns (used: nat, msgs: seq<Message>)
    requires p.Valid() && p.View().WellFormed() && |b| < 0x8000_0000 && buf.Length == TWO16 && buf != p.mo.buf
          && Is(turn, p)
    modifies p, p.mo, p.mo.buf, buf
    ensures p.Valid() && p.View().WellFormed()
    ensures var t := turn(old(p.View()), b); p.View() == t.m && used == t.used <= |b| && HandedOut(msgs, t.frames)
  {
    assert IsAt(turn, p, p.View(), b);
    var ready;
    ready, used := p.Receive(b);
    msgs := [];
    if ready {
      var code;
      code, msgs := Take(p, buf, CrcSeal(p.poly));
    }
  }

  /** Parses, and collects what is delivered. */
  method Take(p: Packet, buf: array<byte>, ghost seal: Seal) returns (code: int, msgs: seq<Message>)
    requires p.Valid() && p.View().WellFormed() && buf.Length == TWO16 && buf != p.mo.buf && seal == CrcSeal(p.poly)
    modifies p, p.mo, p.mo.buf, buf
    ensures p.Valid() && p.View().WellFormed()
    ensures var t := Parse(seal, old(p.View()));
            p.View() == t.0 && code == t.1.Code() && HandedOut(msgs, if t.1.Delivers() then [t.1.frame] else [])
  {
    ghost var m := p.View();
    ParseStaysWellFormed(seal, m);
    var inf;
    code, inf := p.Parse(buf, buf.Length);
    msgs := [];
    ParsedFrame(seal, m);
    if code >= 0 {
      msgs := [Message(inf.value.msgid, inf.value.seqno, buf[..inf.value.len])];
      assert HandedOutAt(msgs, [Parse(seal, m).1.frame], 0);
    }
  }

  lemma ParsedFrame(seal: Seal, m: Machine)
    ensures var v := Parse(seal, m).1;
            if v.Delivers() then v.Code() >= 0 && Whole(v.frame) && Whole(m.fifo)
                && MessageOf(v.frame) == MessageOf(m.fifo)
            else v.Code() < 0
  {
    var r := m.fifo;
    if Judge(seal, m).Delivers() {
      var f := r[..FrameLen(r)];
      assert f[2] == r[2] && f[3] == r[3] && f[4..8] == r[4..8];
      assert f[HEADER..HEADER + PayloadLen(f)] == r[HEADER..HEADER + PayloadLen(r)];
    }
  }

  /** Offers a chunk until it is taken. */
  method Offer(p: Packet, b: seq<byte>, buf: array<byte>, ghost turn: Receiver) returns (msgs: seq<Message>)
    requires p.Valid() && p.View().WellFormed() && |b| < 0x8000_0000 && buf.Length == TWO16 && buf != p.mo.buf
          && Is(turn, p)
    modifies p, p.mo, p.mo.buf, buf
    ensures p.Valid() && p.View().WellFormed()
    ensures var run := Pump(turn, old(p.View()), b); p.View() == run.m && HandedOut(msgs, run.frames)
    decreases |b|
  {
    var used;
    used, msgs := Turn(p, b, buf, turn);
    if used > 0 {
      ghost var m, run := p.View(), Pump(turn, p.View(), b[used..]);
      ghost var first := msgs;
      var more := Offer(p, b[used..], buf, turn);
      HandedOutBoth(first, turn(old(p.View()), b).frames, more, run.frames);
      msgs := msgs + more;
    }
  }

  method OfferAll(p: Packet, chunks: seq<seq<byte>>, buf: array<byte>,
      ghost turn: Receiver) returns (msgs: seq<Message>)
    requires p.Valid() && p.View().WellFormed() && buf.Length == TWO16 && buf != p.mo.buf && Is(turn, p)
    requires forall c :: c in chunks ==> |c| < 0x8000_0000
    modifies p, p.mo, p.mo.buf, buf
    ensures p.Valid() && p.View().WellFormed()
    ensures var run := PumpAll(turn, old(p.View()), chunks); p.View() == run.m && HandedOut(msgs, run.frames)
    decreases |chunks|
  {
    if chunks == [] {
      return [];
    }
    ghost var first := Pump(turn, p.View(), chunks[0]);
    msgs := Offer(p, chunks[0], buf, turn);
    var more := OfferAll(p, chunks[1..], buf, turn);
    HandedOutBoth(msgs, first.frames, more, PumpAll(turn, first.m, chunks[1..]).frames);
    msgs := msgs + more;
  }

  /** A packet object at rest, fed a stream in any chunks by this loop, hands out the messages of exactly the
      stream's frames, in order, and keeps the unfinished frame. */
  method Run(p: Packet, chunks: seq<seq<byte>>, buf: array<byte>) returns (msgs: seq<Message>)
    requires p.Valid() && p.stat == Sync && p.View().fifo == [] && buf.Length == TWO16 && buf != p.mo.buf
    requires forall c :: c in chunks ==> |c| < 0x8000_0000
    requires Sound(CrcSeal(p.poly), Concat(chunks), 0, |Concat(chunks)|, p.mo.size)
    modifies p, p.mo, p.mo.buf, buf
    ensures p.Valid()
    ensures var s := Concat(chunks);
            HandedOut(msgs, Frames(s, 0, |s|)) && Tracks(p.View(), s, Rest(s, 0, |s|), |s|)
  {
    ghost var turn := TurnsWith(CrcSeal(p.poly));
    forall m, b
      ensures IsAt(turn, p, m, b)
    {
    }
    RunDelivers(CrcSeal(p.poly), p.View(), chunks);
    msgs := OfferAll(p, chunks, buf, turn);
  }
}
