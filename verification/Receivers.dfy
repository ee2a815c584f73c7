/** The byte-at-a-time receiver and the resynchronisation routine against bscl_packet_receive. */
module Receivers {
  import opened Words
  import opened Framing
  import opened Delivery
  import opened Streams

  // ----- one byte at a time

  /** What lies in the ring behind byte n when that byte is received: anything. */
  type Leftovers = nat -> byte

  /** The machine after bscl_packet_receive_byte has been fed f[..n], ignoring its result. */
  function ByteRun(m: Machine, z: Leftovers, f: seq<byte>, n: nat): (r: Machine)
    requires m.WellFormed() && n <= |f|
    ensures r.WellFormed() && r.cap == m.cap
  {
    if n == 0 then m
    else
      var before := ByteRun(m, z, f, n - 1);
      ReceiveByteStaysWellFormed(before, f[n - 1], z(n - 1));
      ReceiveByte(before, f[n - 1], z(n - 1)).m
  }

  /** Whether feeding byte n asks for a parse. */
  predicate ByteSignals(m: Machine, z: Leftovers, f: seq<byte>, n: nat)
    requires m.WellFormed() && n < |f|
  {
    ReceiveByte(ByteRun(m, z, f, n), f[n], z(n)).parse
  }

  /** The same with bscl_packet_receive, in chunks of one byte. */
  function ChunkRun(m: Machine, f: seq<byte>, n: nat): (r: Machine)
    requires m.WellFormed() && n <= |f|
    ensures r.WellFormed() && r.cap == m.cap
  {
    if n == 0 then m
    else
      var before := ChunkRun(m, f, n - 1);
      ReceiveStaysWellFormed(before, [f[n - 1]]);
      Receive(before, [f[n - 1]]).m
  }

  predicate ChunkSignals(m: Machine, f: seq<byte>, n: nat)
    requires m.WellFormed() && n < |f|
  {
    Receive(ChunkRun(m, f, n), [f[n]]).ready
  }

  /** The length the byte receiver believes in: it reads the low length byte only. */
  function ByteLen(f: seq<byte>): nat
    requires |f| >= 4
  {
    HEADER + f[2] as nat + TRAILER
  }

  /** The byte at which the byte receiver signals, counted from 1: when it believes the frame complete, or when
      the ring is full. */
  function ByteEnd(f: seq<byte>, cap: nat): nat
    requires |f| >= 4
  {
    Min(ByteLen(f), cap)
  }

  /** The byte receiver after n bytes of f, before it signals. */
  ghost predicate ByteTracks(m: Machine, f: seq<byte>, n: nat)
    requires |f| >= 4
  {
    && n <= |f| && n < ByteEnd(f, m.cap) && m.fifo == f[..n] && m.left < TWO16
    && if n == 0 then m.stat == Sync
       else if n < HEADER then m.stat == Head && m.left == HEADER - n
       else if n < ByteLen(f) - TRAILER then m.stat == Data && m.left == ByteLen(f) - TRAILER - n
       else m.stat == Trailer && m.left == ByteLen(f) - n
  }

  lemma ByteStep(m: Machine, f: seq<byte>, n: nat, stale: byte)
    requires IsFrame(f) && n < |f| && ByteTracks(m, f, n)
    ensures m.WellFormed()
    ensures var o := ReceiveByte(m, f[n], stale);
            && o.m.cap == m.cap && o.m.fifo == f[..n + 1] && o.m.left < TWO16
            && (o.parse <==> n + 1 == ByteEnd(f, m.cap))
            && (o.parse ==> o.m.stat == Parsing)
            && (n + 1 < ByteEnd(f, m.cap) ==> ByteTracks(o.m, f, n + 1))
  {
    assert f[..n] + [f[n]] == f[..n + 1];
    assert [f[n]][..1] == [f[n]];
  }

  lemma {:induction false} ByteRunTracks(left: nat, cap: nat, z: Leftovers, f: seq<byte>, n: nat)
    requires IsFrame(f) && left < TWO16 && n < ByteEnd(f, cap) && n <= |f|
    ensures ByteTracks(ByteRun(AtRest(left, cap), z, f, n), f, n)
  {
    if n > 0 {
      ByteRunTracks(left, cap, z, f, n - 1);
      ByteStep(ByteRun(AtRest(left, cap), z, f, n - 1), f, n - 1, z(n - 1));
    }
  }

  /** The byte at which the chunk receiver, fed single bytes, signals: the frame's last, except that the largest
      payload length makes its count wrap at the end of the header. */
  function ChunkEnd(f: seq<byte>): nat
    requires |f| >= 4
  {
    if PayloadLen(f) == TWO16 - 1 then HEADER + TRAILER - 1 else FrameLen(f)
  }

  /** The chunk receiver after n single bytes of f: it counts on even when the ring takes no more. */
  ghost predicate ChunkCounts(m: Machine, f: seq<byte>, n: nat)
    requires |f| >= 4
  {
    && n <= |f| && n < ChunkEnd(f) && m.fifo == f[..Min(n, m.cap)] && m.left < TWO16
    && if n == 0 then m.stat == Sync
       else if n < HEADER then m.stat == Head && m.left == HEADER - n
       else if n < ChunkEnd(f) - TRAILER then m.stat == Data && m.left == ChunkEnd(f) - TRAILER - n
       else m.stat == Trailer && m.left == ChunkEnd(f) - n
  }

  lemma OneStored(m: Machine, f: seq<byte>, n: nat)
    requires n < |f| && m.fifo == f[..Min(n, m.cap)]
    ensures m.Stored([f[n]]).fifo == f[..Min(n + 1, m.cap)]
  {
    assert [f[n]][..1] == [f[n]] && [f[n]][..0] == [];
    assert f[..n] + [f[n]] == f[..n + 1];
  }

  lemma FirstChunkStep(m: Machine, f: seq<byte>)
    requires IsFrame(f) && ChunkCounts(m, f, 0) && m.cap > 0
    ensures m.WellFormed()
    ensures var o := Receive(m, [f[0]]); o.m.cap == m.cap && !o.ready && ChunkCounts(o.m, f, 1)
  {
    OneStored(m, f, 0);
    var d := [f[0]];
    SyncReceive(m, d, 0, 1, d, HeadStage(m.(stat := Head, left := HEADER), d));
  }

  /** The last header byte, taken by the payload stage or, if there is no payload to wait for, by the trailer stage. */
  lemma DataTakes(m: Machine, d: seq<byte>)
    requires |d| == 1 && m.stat == Data && m.left < TWO16 && |m.fifo| <= m.cap
    ensures DataStage(m, d) ==
            var n := if m.left > 1 then m.(left := m.left - 1) else m.(stat := Trailer, left := m.left + TRAILER - 1);
            Outcome(n.Stored(d), 1, false)
  {
  }

  lemma AfterLength(m: Machine, f: seq<byte>, d: seq<byte>)
    requires IsFrame(f) && d == [f[HEADER - 1]] && m.stat == Data && m.left == (1 + PayloadLen(f)) % TWO16
    requires |m.fifo| <= m.cap && m.Stored(d).fifo == f[..Min(HEADER, m.cap)]
    ensures var o := DataStage(m, d); o.m.cap == m.cap && !o.ready && ChunkCounts(o.m, f, HEADER)
  {
    DataTakes(m, d);
  }

  lemma LengthRead(m: Machine, f: seq<byte>, d: seq<byte>)
    requires IsFrame(f) && d == [f[HEADER - 1]] && m.cap >= 4 && m.fifo == f[..Min(HEADER - 1, m.cap)]
    requires m.stat == Head && m.left == 1
    ensures Receive(m, d) == DataStage(m.(stat := Data, left := (1 + PayloadLen(f)) % TWO16), d)
  {
    assert LenAhead(m.fifo, 1, d) == PayloadLen(f);
  }

  /** The step that reads the length and goes on with what it says. */
  lemma LengthChunkStep(m: Machine, f: seq<byte>)
    requires IsFrame(f) && ChunkCounts(m, f, HEADER - 1) && m.cap >= 4
    ensures m.WellFormed()
    ensures var o := Receive(m, [f[HEADER - 1]]); o.m.cap == m.cap && !o.ready && ChunkCounts(o.m, f, HEADER)
  {
    OneStored(m, f, HEADER - 1);
    LengthRead(m, f, [f[HEADER - 1]]);
    AfterLength(m.(stat := Data, left := (1 + PayloadLen(f)) % TWO16), f, [f[HEADER - 1]]);
  }

  lemma ChunkStep(m: Machine, f: seq<byte>, n: nat)
    requires IsFrame(f) && n < |f| && ChunkCounts(m, f, n) && (m.cap >= 4 || (m.cap > 0 && n < HEADER - 1))
    ensures m.WellFormed()
    ensures var o := Receive(m, [f[n]]);
            && o.m.cap == m.cap && (o.ready <==> n + 1 == ChunkEnd(f))
            && (n + 1 < ChunkEnd(f) ==> ChunkCounts(o.m, f, n + 1))
  {
    if n == 0 {
      FirstChunkStep(m, f);
    } else if n == HEADER - 1 {
      LengthChunkStep(m, f);
    } else {
      OneStored(m, f, n);
    }
  }

  /** run(k) is the machine after k chunks of one byte. */
  ghost predicate ByChunks(run: nat -> Machine, f: seq<byte>) {
    forall k: nat {:trigger NextChunk(run, f, k)} :: NextChunk(run, f, k)
  }

  ghost predicate NextChunk(run: nat -> Machine, f: seq<byte>, k: nat) {
    k < |f| && run(k).WellFormed() ==> run(k + 1) == Receive(run(k), [f[k]]).m
  }

  lemma CountsNext(run: nat -> Machine, f: seq<byte>, n: nat)
    requires ByChunks(run, f) && IsFrame(f) && n < |f| && ChunkCounts(run(n), f, n) && n + 1 < ChunkEnd(f)
    requires run(n).cap >= 4 || (run(n).cap > 0 && n < HEADER - 1)
    ensures ChunkCounts(run(n + 1), f, n + 1) && run(n + 1).cap == run(n).cap
  {
    assert NextChunk(run, f, n);
    ChunkStep(run(n), f, n);
  }

  lemma {:induction false} CountsAll(run: nat -> Machine, f: seq<byte>, n: nat, cap: nat)
    requires ByChunks(run, f) && IsFrame(f) && ChunkCounts(run(0), f, 0) && run(0).cap == cap
    requires n < |f| && n < ChunkEnd(f) && (cap >= 4 || (cap > 0 && n < HEADER))
    ensures ChunkCounts(run(n), f, n) && run(n).cap == cap
  {
    if n > 0 {
      CountsAll(run, f, n - 1, cap);
      CountsNext(run, f, n - 1);
    }
  }

  lemma ChunkRunCounts(left: nat, cap: nat, f: seq<byte>, n: nat)
    requires IsFrame(f) && left < TWO16 && n < |f| && n < ChunkEnd(f) && (cap >= 4 || (cap > 0 && n < HEADER))
    ensures ChunkCounts(ChunkRun(AtRest(left, cap), f, n), f, n)
  {
    var m := AtRest(left, cap);
    var run := (k: nat) => if k <= |f| then ChunkRun(m, f, k) else m;
    forall k: nat
      ensures NextChunk(run, f, k)
    {
    }
    CountsAll(run, f, n, cap);
  }

  lemma ChunkSignalsAt(left: nat, cap: nat, f: seq<byte>, n: nat)
    requires IsFrame(f) && left < TWO16 && n < |f| && n < ChunkEnd(f) && (cap >= 4 || (cap > 0 && n < HEADER - 1))
    ensures ChunkSignals(AtRest(left, cap), f, n) <==> n + 1 == ChunkEnd(f)
  {
    ChunkRunCounts(left, cap, f, n);
    ChunkStep(ChunkRun(AtRest(left, cap), f, n), f, n);
  }

  lemma ByteSignalsAt(left: nat, cap: nat, z: Leftovers, f: seq<byte>, n: nat)
    requires IsFrame(f) && left < TWO16 && n < |f| && n < ByteEnd(f, cap)
    ensures ByteSignals(AtRest(left, cap), z, f, n) <==> n + 1 == ByteEnd(f, cap)
  {
    ByteRunTracks(left, cap, z, f, n);
    ByteStep(ByteRun(AtRest(left, cap), z, f, n), f, n, z(n));
  }

  /** For a payload under 256 bytes the two receivers pass through the same states, byte for byte, up to the end of
      the frame or of the ring. */
  lemma SameStates(left: nat, cap: nat, z: Leftovers, f: seq<byte>, n: nat)
    requires IsFrame(f) && left < TWO16 && PayloadLen(f) < 256 && n < |f| && n < cap
    ensures ByteRun(AtRest(left, cap), z, f, n) == ChunkRun(AtRest(left, cap), f, n)
  {
    if n > 0 {
      ByteRunTracks(left, cap, z, f, n);
      ChunkRunCounts(left, cap, f, n);
      SameMachine(ByteRun(AtRest(left, cap), z, f, n), ChunkRun(AtRest(left, cap), f, n), f, n);
    }
  }

  lemma SameMachine(a: Machine, b: Machine, f: seq<byte>, n: nat)
    requires IsFrame(f) && PayloadLen(f) < 256 && 0 < n < a.cap == b.cap && ByteTracks(a, f, n) && ChunkCounts(b, f, n)
    ensures a == b
  {
  }

  /** A ring of eleven bytes and the largest payload length: both receivers signal on byte eleven, and on the next
      byte only the chunk receiver does so again. */
  lemma SignalsAgain(left: nat, z: Leftovers, f: seq<byte>)
    requires IsFrame(f) && left < TWO16 && PayloadLen(f) == TWO16 - 1
    ensures ChunkSignals(AtRest(left, 11), f, 11) && !ByteSignals(AtRest(left, 11), z, f, 11)
  {
    var m := AtRest(left, 11);
    ChunkRunCounts(left, 11, f, 10);
    ChunkSignalsAt(left, 11, f, 10);
    var c := ChunkRun(m, f, 10);
    OneStored(c, f, 10);
    assert ChunkRun(m, f, 11) == Receive(c, [f[10]]).m;
    ByteRunTracks(left, 11, z, f, 10);
    ByteStep(ByteRun(m, z, f, 10), f, 10, z(10));
    assert ByteRun(m, z, f, 11) == ReceiveByte(ByteRun(m, z, f, 10), f[10], z(10)).m;
    assert [f[11]][..0] == [];
  }

  /** For every frame and every ring, the two receivers signal on the same bytes exactly when the payload is under 256
      bytes and the frame fits the ring. */
  lemma SameSignalIff(left: nat, cap: nat, z: Leftovers, f: seq<byte>)
    requires IsFrame(f) && left < TWO16 && cap > 0
    ensures (forall n | 0 <= n < |f| ::
               ByteSignals(AtRest(left, cap), z, f, n) == ChunkSignals(AtRest(left, cap), f, n))
       <==> PayloadLen(f) < 256 && |f| <= cap
  {
    var m, b, c := AtRest(left, cap), ByteEnd(f, cap), ChunkEnd(f);
    if PayloadLen(f) < 256 && |f| <= cap {
      forall n | 0 <= n < |f|
        ensures ByteSignals(m, z, f, n) == ChunkSignals(m, f, n)
      {
        ByteSignalsAt(left, cap, z, f, n);
        ChunkSignalsAt(left, cap, f, n);
      }
    } else if b == c {
      SignalsAgain(left, z, f);
    } else {
      var n := Min(b, c) - 1;
      ByteSignalsAt(left, cap, z, f, n);
      ChunkSignalsAt(left, cap, f, n);
      assert ByteSignals(m, z, f, n) != ChunkSignals(m, f, n);
    }
  }

  /** Two frames on which the receivers part: a payload of 256 bytes, for which the byte receiver signals after twelve,
      and a frame of twenty bytes on a ring of sixteen, for which it signals when the ring is full. */
  lemma ReceiversPart(z: Leftovers, long: seq<byte>, short: seq<byte>)
    requires long == [MAGIC, 1, 0, 1, 0, 0, 0, 0] + seq(260, i => 0)
    requires short == [MAGIC, 1, 8, 0, 0, 0, 0, 0] + seq(12, i => 0)
    ensures IsFrame(long) && ByteSignals(AtRest(0, 512), z, long, 11) && !ChunkSignals(AtRest(0, 512), long, 11)
    ensures IsFrame(short) && ByteSignals(AtRest(0, 16), z, short, 15) && !ChunkSignals(AtRest(0, 16), short, 15)
  {
    assert long[2] == 0 && long[3] == 1 && short[2] == 8 && short[3] == 0;
    ByteSignalsAt(0, 512, z, long, 11);
    ChunkSignalsAt(0, 512, long, 11);
    ByteSignalsAt(0, 16, z, short, 15);
    ChunkSignalsAt(0, 16, short, 15);
  }

  // ----- resynchronisation

  /** The first place resynchronisation can stop at, or the length. */
  function FirstStop(fifo: seq<byte>, cap: nat, p: nat): (q: nat)
    requires p <= |fifo|
    ensures p <= q <= |fifo| && (q < |fifo| ==> StopsAt(fifo, cap, q))
    ensures forall k | p <= k < q :: !StopsAt(fifo, cap, k)
    decreases |fifo| - p
  {
    if p == |fifo| || StopsAt(fifo, cap, p) then p else FirstStop(fifo, cap, p + 1)
  }

  /** At a magic byte, or at the end, the search either stops or moves on by one. */
  lemma StopHere(fifo: seq<byte>, cap: nat, k: nat)
    requires k <= |fifo| && (k < |fifo| ==> fifo[k] == MAGIC)
    ensures k == |fifo| || |fifo| - k < HEADER || FrameLen(fifo[k..]) <= cap ==> FirstStop(fifo, cap, k) == k
    ensures |fifo| - k >= HEADER && FrameLen(fifo[k..]) > cap ==> FirstStop(fifo, cap, k) == FirstStop(fifo, cap, k + 1)
  {
  }

  /** Resynchronised short of a whole frame, the machine is in the state bscl_packet_receive reaches by
      reading the same bytes from rest, exactly if that routine's count of bytes left does not wrap on the way:
      the header is incomplete, or the frame is shorter than 65536 bytes, or the payload is unfinished and ends before
      there. */
  lemma ResyncIsReceive(m: Machine, left: nat, r: seq<byte>)
    requires r != [] && r[0] == MAGIC && |r| <= m.cap && m.left < TWO16 && left < TWO16
    requires |r| >= HEADER ==> FrameLen(r) <= m.cap
    requires !Resynced(m, r).parse
    ensures Receive(AtRest(left, m.cap), r) == Outcome(Resynced(m, r).m, |r|, false)
       <==> || |r| < HEADER || FrameLen(r) < TWO16
            || (|r| < HEADER + PayloadLen(r) && HEADER + PayloadLen(r) < TWO16)
  {
    if |r| < HEADER {
      PartOfHeader(m, left, r);
    } else if FrameLen(r) < TWO16 {
      assert r[0..|r|] == r;
      assert NextMagic(r, 0, |r|) == 0;
      ReceiveStep(AtRest(left, m.cap), r, 0, 0, |r|);
    } else {
      WideStart(m, left, r);
    }
  }

  /** Where the declared frame has 65536 bytes or more. */
  lemma WideStart(m: Machine, left: nat, r: seq<byte>)
    requires r != [] && r[0] == MAGIC && |r| <= m.cap && left < TWO16
    requires |r| >= HEADER && TWO16 <= FrameLen(r) <= m.cap && !Resynced(m, r).parse
    ensures Receive(AtRest(left, m.cap), r) == Outcome(Resynced(m, r).m, |r|, false)
       <==> |r| < HEADER + PayloadLen(r) && HEADER + PayloadLen(r) < TWO16
  {
    var rest, head := AtRest(left, m.cap), Machine(Head, HEADER, [], m.cap);
    var data := head.(stat := Data, left := (HEADER + PayloadLen(r)) % TWO16);
    assert r[0..|r|] == r;
    SyncReceive(rest, r, 0, |r|, r, HeadStage(head, r));
    assert HeaderByte([], HEADER, r, 2) == r[2] && HeaderByte([], HEADER, r, 3) == r[3];
    assert HeadStage(head, r) == DataStage(data, r);
  }

  /** Two buffered headers in a ring of 131072 bytes. The first declares the largest payload, and the routines part;
      the second declares a frame of 65536 bytes, and they agree. */
  lemma ResyncParts(m: Machine, r: seq<byte>, s: seq<byte>)
    requires m.cap == 131072 && m.left < TWO16
    requires r == [MAGIC, 1, 0xff, 0xff, 0, 0, 0, 0] && s == [MAGIC, 1, 0xf4, 0xff, 0, 0, 0, 0]
    ensures StopsAt(r, m.cap, 0) && StopsAt(s, m.cap, 0) && FrameLen(s) == TWO16
    ensures Receive(AtRest(0, m.cap), r) != Outcome(Resynced(m, r).m, |r|, false)
    ensures Receive(AtRest(0, m.cap), s) == Outcome(Resynced(m, s).m, |s|, false)
  {
    assert r[0..] == r && s[0..] == s;
    assert PayloadLen(r) == 0xffff && PayloadLen(s) == 0xfff4;
    ResyncIsReceive(m, 0, r);
    ResyncIsReceive(m, 0, s);
  }

  /** Short of a header nothing is known of the length yet, whatever the bytes there declare. */
  lemma PartOfHeader(m: Machine, left: nat, r: seq<byte>)
    requires r != [] && r[0] == MAGIC && |r| <= m.cap && |r| < HEADER && left < TWO16
    ensures Receive(AtRest(left, m.cap), r) == Outcome(Resynced(m, r).m, |r|, false)
  {
    var rest := AtRest(left, m.cap);
    assert r[0..|r|] == r;
    SyncReceive(rest, r, 0, |r|, r, HeadStage(rest.(stat := Head, left := HEADER), r));
  }

  lemma ResyncedTracks(m: Machine, r: seq<byte>)
    requires r != [] && r[0] == MAGIC && FitsAt(r, 0, |r|, m.cap) && !FrameAt(r, 0, |r|) && m.left < TWO16
    ensures Tracks(Resynced(m, r).m, r, 0, |r|)
  {
    assert r[0..|r|] == r;
  }

  /** After resynchronising on an unfinished frame, the receiving loop delivers exactly the frames of what is in the
      ring and what comes after it, in any chunks. */
  lemma DeliversAfterResync(seal: Seal, m: Machine, r: seq<byte>, chunks: seq<seq<byte>>)
    requires r != [] && r[0] == MAGIC && m.left < TWO16 && !FrameAt(r, 0, |r|)
    requires Sound(seal, r + Concat(chunks), 0, |r + Concat(chunks)|, m.cap)
    ensures var s := r + Concat(chunks); Delivered(PumpAll(TurnsWith(seal), Resynced(m, r).m, chunks), s, 0, |s|)
  {
    var s, n := r + Concat(chunks), Resynced(m, r).m;
    FitsSoFar(seal, s, r, m.cap);
    ResyncedTracks(m, r);
    TracksLonger(n, r, s);
    ParserAlwaysTurnsRight(seal);
    AllDelivered(TurnsWith(seal), seal, n, s, 0, |r|, chunks);
  }

  lemma FitsSoFar(seal: Seal, s: seq<byte>, r: seq<byte>, cap: nat)
    requires r != [] && r <= s && r[0] == MAGIC && Sound(seal, s, 0, |s|, cap)
    ensures FitsAt(r, 0, |r|, cap)
  {
    assert NextMagic(s, 0, |s|) == 0;
    assert |r| >= 4 ==> r[2] == s[2] && r[3] == s[3];
  }

  lemma TracksLonger(m: Machine, r: seq<byte>, s: seq<byte>)
    requires r <= s && Tracks(m, r, 0, |r|)
    ensures Tracks(m, s, 0, |r|)
  {
    assert s[0..|r|] == r == r[0..|r|];
    assert |r| >= 4 ==> r[2] == s[2] && r[3] == s[3];
  }

  // The search loop of bscl_packet_resync as a transition system on the ring's contents: it ends at a
  // stopping place, and on an empty ring it ends only if the stale byte under the read position
  // happens to be a magic byte, since buffer_copy_first does not report an empty ring.

  predicate SearchEnds(fifo: seq<byte>, cap: nat, stale: byte) {
    if fifo == [] then stale == MAGIC else StopsAt(fifo, cap, 0)
  }

  function SearchStep(fifo: seq<byte>): seq<byte> {
    if fifo == [] then [] else fifo[1..]
  }

  function SearchSteps(fifo: seq<byte>, n: nat): (r: seq<byte>) {
    if n == 0 then fifo else SearchStep(SearchSteps(fifo, n - 1))
  }

  lemma {:induction false} SearchStepsDrop(fifo: seq<byte>, n: nat)
    ensures SearchSteps(fifo, n) == fifo[Min(n, |fifo|)..]
  {
    if n > 0 {
      SearchStepsDrop(fifo, n - 1);
    }
  }

  lemma StopAfterDrop(fifo: seq<byte>, cap: nat, p: nat)
    requires p < |fifo|
    ensures StopsAt(fifo[p..], cap, 0) <==> StopsAt(fifo, cap, p)
  {
    assert fifo[p..][0..] == fifo[p..];
  }

  /** Some buffered magic byte is a stopping place, or the stale byte behind the ring's contents is a
      magic byte. */
  ghost predicate CanResync(fifo: seq<byte>, cap: nat, stale: byte) {
    (exists p :: StopsAt(fifo, cap, p)) || stale == MAGIC
  }

  /** Where only the stale byte ends the search, the machine waits for a whole header behind an empty ring. */
  lemma ResyncedEmpty(m: Machine)
    ensures Resynced(m, []) == ByteOutcome(Machine(Head, 8, [], m.cap), false)
  {
  }

  /** The search ends at all exactly then. */
  lemma SearchEndsIff(fifo: seq<byte>, cap: nat, stale: byte)
    ensures (exists n: nat :: SearchEnds(SearchSteps(fifo, n), cap, stale)) <==> CanResync(fifo, cap, stale)
  {
    if n: nat :| SearchEnds(SearchSteps(fifo, n), cap, stale) {
      SearchStepsDrop(fifo, n);
      if n < |fifo| {
        StopAfterDrop(fifo, cap, n);
      }
    }
    if p :| StopsAt(fifo, cap, p) {
      SearchStepsDrop(fifo, p);
      StopAfterDrop(fifo, cap, p);
      assert SearchEnds(SearchSteps(fifo, p), cap, stale);
    }
    SearchStepsDrop(fifo, |fifo|);
    if stale == MAGIC {
      assert SearchEnds(SearchSteps(fifo, |fifo|), cap, stale);
    }
  }

  /** After a bad checksum, with no stopping place behind the byte that parsing drops, resynchronising ends only if
      the stale byte is a magic byte. */
  lemma StuckAfterBadCrc(seal: Seal, m: Machine, stale: byte)
    requires Parse(seal, m).1 == BadCrc && forall p | 1 <= p < |m.fifo| :: !StopsAt(m.fifo, m.cap, p)
    ensures var fifo := Parse(seal, m).0.fifo;
            (exists n: nat :: SearchEnds(SearchSteps(fifo, n), m.cap, stale)) <==> stale == MAGIC
  {
    var fifo := m.fifo[1..];
    SearchEndsIff(fifo, m.cap, stale);
    forall p: nat
      ensures !StopsAt(fifo, m.cap, p)
    {
      if p < |fifo| {
        assert fifo[p..] == m.fifo[p + 1..];
        assert !StopsAt(m.fifo, m.cap, p + 1);
      }
    }
  }

  /** So it is for every damaged frame alone in the ring without a further magic byte. */
  lemma DamagedAlone(seal: Seal, m: Machine, stale: byte)
    requires IsFrame(m.fifo) && |m.fifo| <= m.cap && !seal(m.fifo) && MAGIC !in m.fifo[1..]
    ensures Parse(seal, m) == (m.(fifo := m.fifo[1..]), BadCrc)
    ensures (exists n: nat :: SearchEnds(SearchSteps(m.fifo[1..], n), m.cap, stale)) <==> stale == MAGIC
  {
    assert m.fifo[..|m.fifo|] == m.fifo;
    forall p | 1 <= p < |m.fifo|
      ensures !StopsAt(m.fifo, m.cap, p)
    {
      assert m.fifo[p] == m.fifo[1..][p - 1];
    }
    StuckAfterBadCrc(seal, m, stale);
  }

  /** On an empty ring over cleared memory, and on one byte of garbage over it, the search does not end. */
  lemma SearchHangs(cap: nat)
    ensures forall n: nat :: !SearchEnds(SearchSteps([], n), cap, 0)
    ensures forall n: nat :: !SearchEnds(SearchSteps([0x55], n), cap, 0)
  {
    assert !StopsAt([], cap, 0) && !StopsAt([0x55], cap, 0);
    forall p ensures !StopsAt([], cap, p) && !StopsAt([0x55], cap, p) {}
    SearchEndsIff([], cap, 0);
    SearchEndsIff([0x55], cap, 0);
  }
}
