/** The machine between the call that asks for a parse and the parse itself. */
module Waiting {
  import opened Words
  import opened Framing
  import opened Delivery
  import opened Streams
  import opened Receivers

  /** A byte that comes before the parse is kept if there is room, and does not ask again. */
  lemma ByteWaits(m: Machine, c: byte, stale: byte)
    requires m.WellFormed() && m.stat == Parsing
    ensures ReceiveByte(m, c, stale) == ByteOutcome(m.Stored([c]), false)
  {
  }

  /** A chunk that comes before the parse is taken and lost. */
  lemma ChunkWaits(m: Machine, b: seq<byte>)
    requires m.WellFormed() && m.stat == Parsing
    ensures Receive(m, b) == Outcome(m, |b|, false)
  {
  }

  lemma {:induction false} RunOfPrefix(m: Machine, z: Leftovers, f: seq<byte>, s: seq<byte>, n: nat)
    requires m.WellFormed() && n <= |f| && f <= s
    ensures ByteRun(m, z, s, n) == ByteRun(m, z, f, n)
  {
    if n > 0 {
      RunOfPrefix(m, z, f, s, n - 1);
    }
  }

  lemma StoredNext(s: seq<byte>, n: nat, m: Machine)
    requires n < |s| && m.fifo == s[..Min(n, m.cap)]
    ensures m.Stored([s[n]]).fifo == s[..Min(n + 1, m.cap)]
  {
    assert [s[n]][..1] == [s[n]] && [s[n]][..0] == [];
  }

  /** s starts with a frame that the byte receiver reads to its end. */
  ghost predicate Starts(f: seq<byte>, s: seq<byte>, cap: nat) {
    IsFrame(f) && f <= s && PayloadLen(f) < 256 && |f| <= cap
  }

  /** The machine waits with as much of s[..n] as its ring holds. */
  ghost predicate Waits(m: Machine, s: seq<byte>, n: nat, cap: nat) {
    n <= |s| && m.stat == Parsing && m.fifo == s[..Min(n, cap)] && m.cap == cap && m.left < TWO16
  }

  /** Byte n of the frame. */
  lemma ReadsByte(m: Machine, f: seq<byte>, s: seq<byte>, n: nat, stale: byte)
    requires Starts(f, s, m.cap) && n < |f| && ByteTracks(m, f, n)
    ensures m.WellFormed()
    ensures var o := ReceiveByte(m, s[n], stale);
            && (o.parse <==> n + 1 == |f|) && o.m.fifo == s[..n + 1]
            && (n + 1 == |f| ==> Waits(o.m, s, n + 1, m.cap))
  {
    ByteStep(m, f, n, stale);
    assert f[..n + 1] == s[..n + 1];
  }

  /** Up to the frame's last byte the machine only reads; that byte asks for the parse. */
  lemma ReadsFrame(m: Machine, z: Leftovers, f: seq<byte>, s: seq<byte>, n: nat)
    requires Starts(f, s, m.cap) && m == AtRest(m.left, m.cap) && m.left < TWO16 && n < |f|
    ensures ByteSignals(m, z, s, n) <==> n + 1 == |f|
    ensures var r := ByteRun(m, z, s, n + 1); r.fifo == s[..n + 1] && (n + 1 == |f| ==> Waits(r, s, n + 1, m.cap))
  {
    RunOfPrefix(m, z, f, s, n);
    ByteRunTracks(m.left, m.cap, z, f, n);
    ReadsByte(ByteRun(m, z, s, n), f, s, n, z(n));
  }

  lemma WaitsNext(m: Machine, s: seq<byte>, n: nat, cap: nat, stale: byte)
    requires Waits(m, s, n, cap) && n < |s|
    ensures m.WellFormed()
    ensures var o := ReceiveByte(m, s[n], stale); !o.parse && Waits(o.m, s, n + 1, cap)
  {
    ByteWaits(m, s[n], stale);
    StoredNext(s, n, m);
  }

  lemma WaitsRun(m: Machine, z: Leftovers, s: seq<byte>, n: nat, cap: nat)
    requires m.WellFormed() && n < |s| && Waits(ByteRun(m, z, s, n), s, n, cap)
    ensures Waits(ByteRun(m, z, s, n + 1), s, n + 1, cap) && !ByteSignals(m, z, s, n)
  {
    WaitsNext(ByteRun(m, z, s, n), s, n, cap, z(n));
  }

  lemma {:induction false} WaitsFrom(m: Machine, z: Leftovers, s: seq<byte>, k: nat, n: nat, cap: nat)
    requires m.WellFormed() && k <= n <= |s| && Waits(ByteRun(m, z, s, k), s, k, cap)
    ensures Waits(ByteRun(m, z, s, n), s, n, cap)
    decreases n
  {
    if k < n {
      WaitsFrom(m, z, s, k, n - 1, cap);
      WaitsRun(m, z, s, n - 1, cap);
    }
  }

  /** From there on it keeps what fits. */
  lemma WaitsOn(m: Machine, z: Leftovers, f: seq<byte>, s: seq<byte>, n: nat)
    requires Starts(f, s, m.cap) && m == AtRest(m.left, m.cap) && m.left < TWO16 && |f| <= n <= |s|
    ensures Waits(ByteRun(m, z, s, n), s, n, m.cap)
  {
    ReadsFrame(m, z, f, s, |f| - 1);
    WaitsFrom(m, z, s, |f|, n, m.cap);
  }

  /** A frame that fits and what comes behind it, byte by byte: the parse is asked for on the frame's last byte and on
      no other, and everything that fits is kept. */
  lemma AsksOnce(m: Machine, z: Leftovers, f: seq<byte>, s: seq<byte>, n: nat)
    requires Starts(f, s, m.cap) && m == AtRest(m.left, m.cap) && m.left < TWO16 && n < |s|
    ensures ByteSignals(m, z, s, n) <==> n + 1 == |f|
    ensures ByteRun(m, z, s, n + 1).fifo == s[..Min(n + 1, m.cap)]
  {
    if n < |f| {
      ReadsFrame(m, z, f, s, n);
    } else {
      WaitsOn(m, z, f, s, n);
      WaitsRun(m, z, s, n, m.cap);
    }
  }

  /** Chunks offered before the parse are taken and lost. */
  lemma ChunkLost(m: Machine, z: Leftovers, f: seq<byte>, s: seq<byte>, b: seq<byte>)
    requires Starts(f, s, m.cap) && m == AtRest(m.left, m.cap) && m.left < TWO16
    ensures var r := ByteRun(m, z, s, |s|); Receive(r, b) == Outcome(r, |b|, false)
  {
    WaitsOn(m, z, f, s, |s|);
    ChunkWaits(ByteRun(m, z, s, |s|), b);
  }

  lemma ParsedWaiting(seal: Seal, m: Machine, f: seq<byte>, s: seq<byte>)
    requires Starts(f, s, m.cap) && Waits(m, s, |s|, m.cap)
    ensures var p := Parse(seal, m);
            if seal(f) then p.1.Delivers() && p.1.frame == f && p.0.fifo == m.fifo[|f|..]
            else p.1 == BadCrc && p.0 == m.(fifo := m.fifo[1..])
  {
    assert m.fifo[..|f|] == f;
    assert m.fifo[2] == f[2] && m.fifo[3] == f[3];
    ParseAnswers(seal, m, PayloadLen(f));
  }

  /** The parse then hands out the frame if it passes the check, and leaves what was kept behind it. */
  lemma ParsedAfterWait(seal: Seal, m: Machine, z: Leftovers, f: seq<byte>, s: seq<byte>)
    requires Starts(f, s, m.cap) && m == AtRest(m.left, m.cap) && m.left < TWO16
    ensures var r := ByteRun(m, z, s, |s|);
            var p := Parse(seal, r);
            && r.fifo == s[..Min(|s|, m.cap)]
            && if seal(f) then p.1.Delivers() && p.1.frame == f && p.0.fifo == r.fifo[|f|..]
               else p.1 == BadCrc && p.0 == r.(fifo := r.fifo[1..])
  {
    WaitsOn(m, z, f, s, |s|);
    ParsedWaiting(seal, ByteRun(m, z, s, |s|), f, s);
  }

  /** A resynchronisation that finds the same bytes leaves the machine waiting with the same ring. */
  lemma ResyncedWaits(m: Machine, left: nat, z: Leftovers, f: seq<byte>, s: seq<byte>)
    requires Starts(f, s, m.cap) && |s| <= m.cap && left < TWO16
    ensures var o, r := Resynced(m, s), ByteRun(AtRest(left, m.cap), z, s, |s|);
            o.parse && o.m.stat == r.stat && o.m.fifo == r.fifo && o.m.cap == r.cap
  {
    WaitsOn(AtRest(left, m.cap), z, f, s, |s|);
    assert s[2] == f[2] && s[3] == f[3];
  }

  /** The ring of sixteen bytes that Receivers.ReceiversPart fills: the parse that is then asked for finds the
      trailer missing, answers -4 and leaves everything as it is. */
  lemma TrailerMissing(seal: Seal, z: Leftovers, f: seq<byte>)
    requires f == [0x7e, 1, 8, 0, 0, 0, 0, 0] + seq(12, i => 0)
    ensures var m := ByteRun(AtRest(0, 16), z, f, 16);
            ByteSignals(AtRest(0, 16), z, f, 15) && Parse(seal, m).1.Code() == -4 && Parse(seal, m).0 == m
  {
    assert f[2] == 8 && f[3] == 0;
    ByteSignalsAt(0, 16, z, f, 15);
    ByteRunTracks(0, 16, z, f, 15);
    ByteStep(ByteRun(AtRest(0, 16), z, f, 15), f, 15, z(15));
    ParseAnswers(seal, ByteRun(AtRest(0, 16), z, f, 16), 8);
  }
}
