/** Runs over damaged streams: the loop that resynchronises whenever parsing fails or leaves bytes behind,
    against a reading of the stream that does not mention chunks. */
module Recovery {
  import opened Words
  import opened Framing
  import opened Delivery
  import opened Streams
  import opened Receivers

  // ----- the loop

  /** Parse, and resynchronise on a negative code or BSCL_PACKET_RESYNC. */
  function Recover(seal: Seal, m: Machine): (run: Run)
    decreases |m.fifo|, if Whole(m.fifo) then 0 else 2
  {
    var p := Parse(seal, m);
    var got := if p.1.Delivers() then [p.1.frame] else [];
    if p.1.More? then Run(p.0, got)
    else
      var more := Seek(seal, p.0);
      Run(more.m, got + more.frames)
  }

  /** Resynchronise, and parse if that finds a whole frame. This is what the code does wherever its search ends. */
  function Seek(seal: Seal, m: Machine): (run: Run)
    decreases |m.fifo|, 1
  {
    var o := Resynced(m, m.fifo[FirstStop(m.fifo, m.cap, 0)..]);
    if o.parse then Recover(seal, o.m) else Run(o.m, [])
  }

  /** Every search that Recover starts ends at a buffered byte. */
  predicate Settles(seal: Seal, m: Machine)
    decreases |m.fifo|, if Whole(m.fifo) then 0 else 2
  {
    Parse(seal, m).1.More? || SeekSettles(seal, Parse(seal, m).0)
  }

  predicate SeekSettles(seal: Seal, m: Machine)
    decreases |m.fifo|, 1
  {
    var q := FirstStop(m.fifo, m.cap, 0);
    var o := Resynced(m, m.fifo[q..]);
    q < |m.fifo| && (o.parse ==> Settles(seal, o.m))
  }

  type Recoverer = Machine -> Run

  type Condition = Machine -> bool

  /** One turn of the loop: offer the chunk, and recover the frames when a packet is ready. */
  function Turn(recover: Recoverer, m: Machine, b: seq<byte>): Taken
    requires m.WellFormed()
  {
    TakenBy(recover, Receive(m, b))
  }

  function TakenBy(recover: Recoverer, o: Outcome): Taken {
    if !o.ready then Taken(o.m, o.used, [])
    else
      var run := recover(o.m);
      Taken(run.m, o.used, run.frames)
  }

  ghost function Recovering(recover: Recoverer): Receiver {
    (m: Machine, b: seq<byte>) => if m.WellFormed() then Turn(recover, m, b) else Taken(m, 0, [])
  }

  /** What holds of a chunk offered to a machine. */
  type Offering = (Machine, seq<byte>) -> bool

  /** If it completes a packet, all searches that follow end. */
  ghost function Safely(settles: Condition): Offering {
    (m: Machine, b: seq<byte>) => m.WellFormed() && (Receive(m, b).ready ==> settles(Receive(m, b).m))
  }

  /** It holds of every turn with a chunk, and with all chunks. */
  predicate PumpSafe(turn: Receiver, safe: Offering, m: Machine, b: seq<byte>)
    decreases |b|
  {
    var t := turn(m, b);
    safe(m, b) && (0 < t.used <= |b| ==> PumpSafe(turn, safe, t.m, b[t.used..]))
  }

  predicate AllSafe(turn: Receiver, safe: Offering, m: Machine, chunks: seq<seq<byte>>)
    decreases |chunks|
  {
    chunks != [] ==>
      PumpSafe(turn, safe, m, chunks[0]) && AllSafe(turn, safe, Pump(turn, m, chunks[0]).m, chunks[1..])
  }

  // ----- the stream, read by a reference definition

  /** The first place from i on where resynchronisation can stop if the ring ends at n, or n. */
  function StopIn(s: seq<byte>, cap: nat, i: nat, n: nat): (q: nat)
    requires i <= n <= |s|
    ensures i <= q <= n && (q < n ==> s[q] == MAGIC)
    decreases n - i
  {
    if i == n || (s[i] == MAGIC && (n < i + HEADER || LenAt(s, i) <= cap)) then i else StopIn(s, cap, i + 1, n)
  }

  /** Where the next frame is looked for, when the stream has been read to n and all before i is done with. */
  function Candidate(s: seq<byte>, cap: nat, i: nat, n: nat, e: nat): (j: nat)
    requires i <= n <= e <= |s|
    ensures i <= j <= e
  {
    if i == n then NextMagic(s, n, e) else StopIn(s, cap, i, n)
  }

  /** What is done with after the complete frame at j: all of it if it passes the check, else one byte. */
  function After(seal: Seal, s: seq<byte>, j: nat): (i: nat)
    requires FrameAt(s, j, |s|)
    ensures j < i <= j + LenAt(s, j)
  {
    if seal(FrameOf(s, j)) then j + LenAt(s, j) else j + 1
  }

  function Got(seal: Seal, s: seq<byte>, j: nat): seq<seq<byte>>
    requires FrameAt(s, j, |s|)
  {
    if seal(FrameOf(s, j)) then [FrameOf(s, j)] else []
  }

  /** How far the stream must have been read to have that frame. */
  function Read(s: seq<byte>, j: nat, n: nat): (x: nat)
    requires FrameAt(s, j, |s|)
  {
    if j + LenAt(s, j) < n then n else j + LenAt(s, j)
  }

  /** The frames that pass the check, in order, looking again from the next byte on after one that does not. */
  function Salvaged(seal: Seal, s: seq<byte>, cap: nat, i: nat, n: nat, e: nat): seq<seq<byte>>
    requires i <= n <= e <= |s|
    decreases e - i
  {
    var j := Candidate(s, cap, i, n, e);
    if FrameAt(s, j, e) then Got(seal, s, j) + Salvaged(seal, s, cap, After(seal, s, j), Read(s, j, n), e) else []
  }

  /** Where the unfinished frame starts; e if there is none. */
  function Open(seal: Seal, s: seq<byte>, cap: nat, i: nat, n: nat, e: nat): (u: nat)
    requires i <= n <= e <= |s|
    ensures i <= u <= e
    decreases e - i
  {
    var j := Candidate(s, cap, i, n, e);
    if FrameAt(s, j, e) then Open(seal, s, cap, After(seal, s, j), Read(s, j, n), e) else j
  }

  /** Every search ends at a buffered stopping place, and every frame looked at fits. */
  ghost predicate Searchable(seal: Seal, s: seq<byte>, cap: nat, i: nat, n: nat, e: nat)
    requires i <= n <= e <= |s|
    decreases e - i
  {
    var j := Candidate(s, cap, i, n, e);
    && (i < n ==> j < n) && FitsAt(s, j, e, cap)
    && (FrameAt(s, j, e) ==> Searchable(seal, s, cap, After(seal, s, j), Read(s, j, n), e))
  }

  lemma NextFrame(seal: Seal, s: seq<byte>, cap: nat, i: nat, j: nat, n: nat, k: nat, x: nat, e: nat)
    requires i <= n <= e <= |s| && j == Candidate(s, cap, i, n, e) && FrameAt(s, j, e)
    requires k == After(seal, s, j) && x == Read(s, j, n)
    ensures Salvaged(seal, s, cap, i, n, e) == Got(seal, s, j) + Salvaged(seal, s, cap, k, x, e)
    ensures Open(seal, s, cap, i, n, e) == Open(seal, s, cap, k, x, e)
    ensures Searchable(seal, s, cap, i, n, e)
       <==> (i < n ==> j < n) && FitsAt(s, j, e, cap) && Searchable(seal, s, cap, k, x, e)
  {
  }

  lemma NoFrame(seal: Seal, s: seq<byte>, cap: nat, i: nat, j: nat, n: nat, e: nat)
    requires i <= n <= e <= |s| && j == Candidate(s, cap, i, n, e) && !FrameAt(s, j, e)
    ensures Salvaged(seal, s, cap, i, n, e) == [] && Open(seal, s, cap, i, n, e) == j
    ensures Searchable(seal, s, cap, i, n, e) <==> (i < n ==> j < n) && FitsAt(s, j, e, cap)
  {
  }

  // ----- one parse and what follows it

  lemma {:induction false} StopInSlice(s: seq<byte>, cap: nat, i: nat, k: nat, n: nat)
    requires i <= k <= n <= |s|
    ensures i + FirstStop(s[i..n], cap, k - i) == StopIn(s, cap, k, n)
    decreases n - k
  {
    if k < n {
      var f := s[i..n];
      assert f[k - i] == s[k];
      if n >= k + HEADER {
        assert f[k - i..][2] == s[k + 2] && f[k - i..][3] == s[k + 3];
      }
      StopInSlice(s, cap, i, k + 1, n);
    }
  }

  /** Where resynchronisation leaves the machine when the ring then holds s[j..n]. */
  lemma ResyncedAt(m: Machine, s: seq<byte>, j: nat, n: nat)
    requires j < n <= |s| && s[j] == MAGIC && FitsAt(s, j, n, m.cap) && m.left < TWO16
    ensures var o := Resynced(m, s[j..n]);
            && o.m.cap == m.cap && o.m.fifo == s[j..n] && o.m.left < TWO16
            && (o.parse <==> FrameAt(s, j, n))
            && (!o.parse ==> Tracks(o.m, s, j, n))
  {
    var r := s[j..n];
    if n >= j + HEADER {
      assert r[2] == s[j + 2] && r[3] == s[j + 3];
    }
  }

  lemma ParsedAt(seal: Seal, m: Machine, s: seq<byte>, j: nat, n: nat)
    requires FrameAt(s, j, |s|) && j + LenAt(s, j) <= n <= |s| && m.fifo == s[j..n] && LenAt(s, j) <= m.cap
    ensures var p, x := Parse(seal, m), j + LenAt(s, j);
            if seal(FrameOf(s, j)) then
              if x == n then p == (m.(stat := Sync, fifo := []), More(FrameOf(s, j)))
              else p == (m.(fifo := s[x..n]), Again(FrameOf(s, j)))
            else p == (m.(fifo := s[j + 1..n]), BadCrc)
  {
    var r, x := s[j..n], j + LenAt(s, j);
    assert r[2] == s[j + 2] && r[3] == s[j + 3];
    assert r[..FrameLen(r)] == FrameOf(s, j);
    assert r[FrameLen(r)..] == s[x..n] && r[1..] == s[j + 1..n];
  }

  /** The run has salvaged what there is in s[i..e], of which the ring held all up to n. */
  ghost predicate Salvages(run: Run, seal: Seal, s: seq<byte>, cap: nat, i: nat, n: nat, e: nat)
    requires i <= n <= e <= |s|
  {
    && run.m.cap == cap && run.frames == Salvaged(seal, s, cap, i, n, e)
    && Tracks(run.m, s, Open(seal, s, cap, i, n, e), e)
  }

  lemma {:induction false} RecoverAt(seal: Seal, m: Machine, s: seq<byte>, j: nat, n: nat)
    requires FrameAt(s, j, |s|) && j + LenAt(s, j) <= n <= |s| && m.fifo == s[j..n] && LenAt(s, j) <= m.cap
    requires m.left < TWO16 && Searchable(seal, s, m.cap, After(seal, s, j), n, n)
    ensures var run, i := Recover(seal, m), After(seal, s, j);
            && run.m.cap == m.cap && run.frames == Got(seal, s, j) + Salvaged(seal, s, m.cap, i, n, n)
            && Tracks(run.m, s, Open(seal, s, m.cap, i, n, n), n)
    ensures Settles(seal, m)
    decreases n - j, 0
  {
    ParsedAt(seal, m, s, j, n);
    var i := After(seal, s, j);
    if i < n {
      SeekAt(seal, m.(fifo := s[i..n]), s, i, n);
    }
  }

  lemma SeekStep(seal: Seal, m: Machine, s: seq<byte>, i: nat, j: nat, n: nat)
    requires i < n <= |s| && m.fifo == s[i..n] && j == StopIn(s, m.cap, i, n)
    ensures var o := Resynced(m, s[j..n]);
            Seek(seal, m) == if o.parse then Recover(seal, o.m) else Run(o.m, [])
    ensures SeekSettles(seal, m) <==> j < n && (Resynced(m, s[j..n]).parse ==> Settles(seal, Resynced(m, s[j..n]).m))
  {
    StopInSlice(s, m.cap, i, i, n);
    assert m.fifo[j - i..] == s[j..n];
  }

  lemma {:induction false} SeekAt(seal: Seal, m: Machine, s: seq<byte>, i: nat, n: nat)
    requires i < n <= |s| && m.fifo == s[i..n] && m.left < TWO16 && Searchable(seal, s, m.cap, i, n, n)
    ensures Salvages(Seek(seal, m), seal, s, m.cap, i, n, n) && SeekSettles(seal, m)
    decreases n - i, 1
  {
    var j := StopIn(s, m.cap, i, n);
    SeekStep(seal, m, s, i, j, n);
    ResyncedAt(m, s, j, n);
    if FrameAt(s, j, n) {
      NextFrame(seal, s, m.cap, i, j, n, After(seal, s, j), n, n);
      RecoverAt(seal, Resynced(m, s[j..n]).m, s, j, n);
    }
  }

  // ----- cutting a stream

  lemma SameFromHere(seal: Seal, s: seq<byte>, cap: nat, i: nat, n: nat, u: nat, e: nat)
    requires i <= n <= e <= |s| && u <= e && Searchable(seal, s, cap, i, n, e)
    requires var c := Candidate(s, cap, i, n, e);
             c == NextMagic(s, u, e) && (FrameAt(s, c, e) ==> Read(s, c, n) == Read(s, c, u))
    ensures Searchable(seal, s, cap, u, u, e)
    ensures Salvaged(seal, s, cap, i, n, e) == Salvaged(seal, s, cap, u, u, e)
    ensures Open(seal, s, cap, i, n, e) == Open(seal, s, cap, u, u, e)
  {
  }

  /** The two parts of the stream, and the whole. */
  ghost predicate CutAt(seal: Seal, s: seq<byte>, cap: nat, i: nat, n: nat, q: nat, e: nat, u: nat)
    requires i <= n <= q <= e <= |s| && u <= e
  {
    && u == Open(seal, s, cap, i, n, q) && Searchable(seal, s, cap, i, n, q) && Searchable(seal, s, cap, u, u, e)
    && Salvaged(seal, s, cap, i, n, e) == Salvaged(seal, s, cap, i, n, q) + Salvaged(seal, s, cap, u, u, e)
    && Open(seal, s, cap, i, n, e) == Open(seal, s, cap, u, u, e)
  }

  lemma Regroup<T>(a: seq<T>, b: seq<T>, c: seq<T>)
    ensures a + (b + c) == (a + b) + c
  {
  }

  lemma CutAfter(seal: Seal, s: seq<byte>, cap: nat, i: nat, j: nat, n: nat, k: nat, x: nat, q: nat, e: nat, u: nat)
    requires i <= n <= q <= e <= |s| && Searchable(seal, s, cap, i, n, e)
    requires j == Candidate(s, cap, i, n, q) == Candidate(s, cap, i, n, e) && FrameAt(s, j, q)
    requires k == After(seal, s, j) && x == Read(s, j, n) && u <= e && CutAt(seal, s, cap, k, x, q, e, u)
    ensures CutAt(seal, s, cap, i, n, q, e, u)
  {
    NextFrame(seal, s, cap, i, j, n, k, x, q);
    NextFrame(seal, s, cap, i, j, n, k, x, e);
    FitsBefore(s, j, q, e, cap);
    Regroup(Got(seal, s, j), Salvaged(seal, s, cap, k, x, q), Salvaged(seal, s, cap, u, u, e));
  }

  lemma CutBefore(seal: Seal, s: seq<byte>, cap: nat, i: nat, j: nat, n: nat, q: nat, e: nat)
    requires i <= n <= q <= e <= |s| && Searchable(seal, s, cap, i, n, e)
    requires j == Candidate(s, cap, i, n, q) && !FrameAt(s, j, q)
    ensures CutAt(seal, s, cap, i, n, q, e, j)
  {
    CandidateCut(seal, s, cap, i, j, n, q, e);
    NoFrame(seal, s, cap, i, j, n, q);
    SameFromHere(seal, s, cap, i, n, j, e);
  }

  lemma CandidateCut(seal: Seal, s: seq<byte>, cap: nat, i: nat, j: nat, n: nat, q: nat, e: nat)
    requires i <= n <= q <= e <= |s| && Searchable(seal, s, cap, i, n, e) && j == Candidate(s, cap, i, n, q)
    ensures FitsAt(s, j, q, cap) && (i < n ==> j < n)
    ensures Candidate(s, cap, i, n, e) == NextMagic(s, j, e)
    ensures FrameAt(s, j, q) ==> Candidate(s, cap, i, n, e) == j && FrameAt(s, j, e)
    ensures !FrameAt(s, j, q) ==>
      var c := NextMagic(s, j, e); FrameAt(s, c, e) ==> Read(s, c, n) == Read(s, c, j)
  {
    if i == n {
      MagicCut(s, n, q, e);
      MagicCut(s, j, q, e);
    }
    if j < q {
      FitsBefore(s, j, q, e, cap);
    }
  }

  /** Reading a stream up to a cut and on from its unfinished frame salvages the frames of the whole stream. */
  lemma {:induction false} SalvageCut(seal: Seal, s: seq<byte>, cap: nat, i: nat, n: nat, q: nat, e: nat)
    requires i <= n <= q <= e <= |s| && Searchable(seal, s, cap, i, n, e)
    ensures CutAt(seal, s, cap, i, n, q, e, Open(seal, s, cap, i, n, q))
    decreases q - i
  {
    var j := Candidate(s, cap, i, n, q);
    CandidateCut(seal, s, cap, i, j, n, q, e);
    if FrameAt(s, j, q) {
      var k, x := After(seal, s, j), Read(s, j, n);
      NextFrame(seal, s, cap, i, j, n, k, x, e);
      SalvageCut(seal, s, cap, k, x, q, e);
      CutAfter(seal, s, cap, i, j, n, k, x, q, e, Open(seal, s, cap, k, x, q));
    } else {
      NoFrame(seal, s, cap, i, j, n, q);
      CutBefore(seal, s, cap, i, j, n, q, e);
    }
  }

  // ----- whole runs, for any reading of the stream that may be cut

  /** What a reading finds in s[k..q], the frames and where the unfinished one starts, and whether it is fine. */
  datatype Reading = Reading(frames: (nat, nat) -> seq<seq<byte>>, open: (nat, nat) -> nat, fine: (nat, nat) -> bool)

  /** Cut at x, it finds the same. */
  ghost predicate CutsAt(r: Reading, k: nat, x: nat, q: nat) {
    k <= x <= q && r.fine(k, q) ==>
      var u := r.open(k, x);
      && k <= u <= x && r.fine(k, x) && r.fine(u, q)
      && r.frames(k, q) == r.frames(k, x) + r.frames(u, q) && r.open(k, q) == r.open(u, q)
  }

  ghost predicate Cuts(r: Reading, n: nat) {
    forall k: nat, x: nat, q: nat {:trigger CutsAt(r, k, x, q)} :: q <= n ==> CutsAt(r, k, x, q)
  }

  /** The run has delivered what the reading finds in s[k..q] and tracks the unfinished frame. */
  ghost predicate Follows(run: Run, r: Reading, s: seq<byte>, cap: nat, k: nat, q: nat) {
    run.m.cap == cap && run.frames == r.frames(k, q) && Tracks(run.m, s, r.open(k, q), q)
  }

  /** One turn on a machine that has read the stream to p and buffers it from k, offered what comes up to q. */
  ghost predicate TurnFollows(turn: Receiver, safe: Offering, r: Reading, s: seq<byte>, m: Machine, cap: nat, k: nat,
      p: nat, q: nat) {
    p <= q <= |s| && m.cap == cap && Tracks(m, s, k, p) && r.fine(k, q) ==>
      var t := turn(m, s[p..q]);
      && (p < p + t.used <= q || p + t.used == q) && safe(m, s[p..q])
      && Follows(Run(t.m, t.frames), r, s, cap, k, p + t.used)
  }

  ghost predicate AlwaysFollows(turn: Receiver, safe: Offering, r: Reading, s: seq<byte>, cap: nat) {
    forall m, k, p, q {:trigger TurnFollows(turn, safe, r, s, m, cap, k, p, q)} ::
      TurnFollows(turn, safe, r, s, m, cap, k, p, q)
  }

  lemma FollowsBoth(a: Run, b: Run, r: Reading, s: seq<byte>, cap: nat, k: nat, x: nat, q: nat)
    requires k <= x <= q <= |s| && Cuts(r, |s|) && r.fine(k, q)
    requires Follows(a, r, s, cap, k, x) && Follows(b, r, s, cap, r.open(k, x), q)
    ensures Follows(Run(b.m, a.frames + b.frames), r, s, cap, k, q)
  {
    assert CutsAt(r, k, x, q);
  }

  lemma PumpGoesOn(turn: Receiver, safe: Offering, m: Machine, s: seq<byte>, p: nat, x: nat, q: nat, t: Taken)
    requires p < x <= q <= |s| && t == turn(m, s[p..q]) && x == p + t.used
    ensures var rest := Pump(turn, t.m, s[x..q]); Pump(turn, m, s[p..q]) == Run(rest.m, t.frames + rest.frames)
    ensures PumpSafe(turn, safe, m, s[p..q]) <==> safe(m, s[p..q]) && PumpSafe(turn, safe, t.m, s[x..q])
  {
    SliceEnd(s, p, x, q);
  }

  /** Offering a chunk until it is taken. */
  lemma {:induction false} PumpFollows(turn: Receiver, safe: Offering, r: Reading, s: seq<byte>, m: Machine, cap: nat,
      k: nat, p: nat, q: nat)
    requires AlwaysFollows(turn, safe, r, s, cap) && Cuts(r, |s|)
    requires p <= q <= |s| && m.cap == cap && Tracks(m, s, k, p) && r.fine(k, q)
    ensures Follows(Pump(turn, m, s[p..q]), r, s, cap, k, q) && PumpSafe(turn, safe, m, s[p..q])
    decreases q - p
  {
    assert TurnFollows(turn, safe, r, s, m, cap, k, p, q);
    var t := turn(m, s[p..q]);
    if t.used > 0 {
      var x := p + t.used;
      PumpGoesOn(turn, safe, m, s, p, x, q, t);
      assert CutsAt(r, k, x, q);
      PumpFollows(turn, safe, r, s, t.m, cap, r.open(k, x), x, q);
      FollowsBoth(Run(t.m, t.frames), Pump(turn, t.m, s[x..q]), r, s, cap, k, x, q);
    }
  }

  lemma {:induction false} AllFollows(turn: Receiver, safe: Offering, r: Reading, s: seq<byte>, m: Machine, cap: nat,
      k: nat, p: nat, chunks: seq<seq<byte>>)
    requires AlwaysFollows(turn, safe, r, s, cap) && Cuts(r, |s|)
    requires p <= |s| && m.cap == cap && Tracks(m, s, k, p) && s[p..] == Concat(chunks) && r.fine(k, |s|)
    requires Follows(Run(m, []), r, s, cap, k, p)
    ensures Follows(PumpAll(turn, m, chunks), r, s, cap, k, |s|) && AllSafe(turn, safe, m, chunks)
    decreases |chunks|
  {
    if chunks != [] {
      var q := p + |chunks[0]|;
      assert s[p..q] == chunks[0] && s[q..] == Concat(chunks[1..]);
      assert CutsAt(r, k, q, |s|) && CutsAt(r, k, q, q);
      PumpFollows(turn, safe, r, s, m, cap, k, p, q);
      var first := Pump(turn, m, chunks[0]);
      AllFollows(turn, safe, r, s, first.m, cap, r.open(k, q), q, chunks[1..]);
      FollowsBoth(first, PumpAll(turn, first.m, chunks[1..]), r, s, cap, k, q, |s|);
    }
  }

  // ----- the loop follows the reading above

  ghost function ReadingOf(seal: Seal, s: seq<byte>, cap: nat): Reading {
    Reading(
      (k: nat, q: nat) => if k <= q <= |s| then Salvaged(seal, s, cap, k, k, q) else [],
      (k: nat, q: nat) => if k <= q <= |s| then Open(seal, s, cap, k, k, q) else k,
      (k: nat, q: nat) => k <= q <= |s| && Searchable(seal, s, cap, k, k, q))
  }

  lemma ReadingCuts(seal: Seal, s: seq<byte>, cap: nat)
    ensures Cuts(ReadingOf(seal, s, cap), |s|)
  {
    var r := ReadingOf(seal, s, cap);
    forall k: nat, x: nat, q: nat | q <= |s|
      ensures CutsAt(r, k, x, q)
    {
      if k <= x <= q && r.fine(k, q) {
        SalvageCut(seal, s, cap, k, k, x, q);
      }
    }
  }

  /** recover, called when the machine has just received the frame from j to x, the first from k on. */
  ghost predicate RecoversAt(recover: Recoverer, settles: Condition, r: Reading, s: seq<byte>, m: Machine, cap: nat,
      k: nat, j: nat, x: nat, q: nat) {
    && k <= q <= |s| && r.fine(k, q) && j == NextMagic(s, k, q) && FrameAt(s, j, q) && x == j + LenAt(s, j)
    && m.cap == cap && m.fifo == s[j..x] && m.left < TWO16
    ==> settles(m) && Follows(recover(m), r, s, cap, k, x)
  }

  ghost predicate Recovers(recover: Recoverer, settles: Condition, r: Reading, s: seq<byte>, cap: nat) {
    forall m, k, j, x, q {:trigger RecoversAt(recover, settles, r, s, m, cap, k, j, x, q)} ::
      RecoversAt(recover, settles, r, s, m, cap, k, j, x, q)
  }

  lemma RecoverRecovers(seal: Seal, s: seq<byte>, m: Machine, cap: nat, k: nat, j: nat, x: nat, q: nat)
    ensures RecoversAt(m => Recover(seal, m), m => Settles(seal, m), ReadingOf(seal, s, cap), s, m, cap, k, j, x, q)
  {
    if && k <= q <= |s| && Searchable(seal, s, cap, k, k, q) && j == NextMagic(s, k, q) && FrameAt(s, j, q)
       && x == j + LenAt(s, j) && m.cap == cap && m.fifo == s[j..x] && m.left < TWO16
    {
      MagicCut(s, k, x, q);
      SalvageCut(seal, s, m.cap, k, k, x, q);
      NextFrame(seal, s, m.cap, k, j, k, After(seal, s, j), x, x);
      RecoverAt(seal, m, s, j, x);
    }
  }

  /** While the frame that starts at the first magic byte is unfinished, the reading has nothing but its start. */
  ghost predicate WaitsAt(r: Reading, s: seq<byte>, cap: nat, k: nat, q: nat) {
    k <= q <= |s| && r.fine(k, q) ==>
      var j := NextMagic(s, k, q);
      FitsAt(s, j, q, cap) && (!FrameAt(s, j, q) ==> r.frames(k, q) == [] && r.open(k, q) == j)
  }

  ghost predicate Waits(r: Reading, s: seq<byte>, cap: nat) {
    forall k, q {:trigger WaitsAt(r, s, cap, k, q)} :: WaitsAt(r, s, cap, k, q)
  }

  lemma ReadingWaits(seal: Seal, s: seq<byte>, cap: nat)
    ensures Waits(ReadingOf(seal, s, cap), s, cap)
  {
    forall k, q
      ensures WaitsAt(ReadingOf(seal, s, cap), s, cap, k, q)
    {
    }
  }

  /** A call of bscl_packet_receive where the stream is buffered from k, read to p and offered to q. */
  ghost predicate ReceivedAt(o: Outcome, s: seq<byte>, cap: nat, k: nat, p: nat, q: nat) {
    k <= p <= q <= |s| &&
    var j := NextMagic(s, k, q);
    && o.m.cap == cap && o.m.left < TWO16 && o.ready == FrameAt(s, j, q)
    && if o.ready then o.m.fifo == s[j..j + LenAt(s, j)] && p < p + o.used == j + LenAt(s, j)
       else o.used == q - p && Tracks(o.m, s, j, q)
  }

  lemma OutcomeFollows(recover: Recoverer, settles: Condition, r: Reading, s: seq<byte>, o: Outcome, t: Taken,
      cap: nat, k: nat, p: nat, q: nat)
    requires Recovers(recover, settles, r, s, cap) && ReceivedAt(o, s, cap, k, p, q) && t == TakenBy(recover, o)
    requires r.fine(k, q) && WaitsAt(r, s, cap, k, q)
    ensures (p < p + t.used <= q || p + t.used == q) && (o.ready ==> settles(o.m))
    ensures Follows(Run(t.m, t.frames), r, s, cap, k, p + t.used)
  {
    assert RecoversAt(recover, settles, r, s, o.m, cap, k, NextMagic(s, k, q), p + o.used, q);
  }

  /** turn is one turn of the loop around that parser, and safe if all its searches end. */
  ghost predicate Takes(turn: Receiver, safe: Offering, recover: Recoverer, settles: Condition) {
    forall m, b {:trigger TakesAt(turn, safe, recover, settles, m, b)} :: TakesAt(turn, safe, recover, settles, m, b)
  }

  ghost predicate TakesAt(turn: Receiver, safe: Offering, recover: Recoverer, settles: Condition, m: Machine,
      b: seq<byte>) {
    m.WellFormed() ==>
      var o := Receive(m, b);
      turn(m, b) == TakenBy(recover, o) && (safe(m, b) <==> (o.ready ==> settles(o.m)))
  }

  lemma LoopTakes(turn: Receiver, safe: Offering, recover: Recoverer, settles: Condition, m: Machine, s: seq<byte>,
      k: nat, p: nat, q: nat) returns (o: Outcome)
    requires p <= q <= |s| && Tracks(m, s, k, p) && FitsAt(s, NextMagic(s, k, q), q, m.cap)
    requires Takes(turn, safe, recover, settles)
    ensures ReceivedAt(o, s, m.cap, k, p, q) && turn(m, s[p..q]) == TakenBy(recover, o)
    ensures safe(m, s[p..q]) <==> (o.ready ==> settles(o.m))
  {
    assert TakesAt(turn, safe, recover, settles, m, s[p..q]);
    ReceiveStep(m, s, k, p, q);
    o := Receive(m, s[p..q]);
  }

  lemma LoopTurn(turn: Receiver, safe: Offering, recover: Recoverer, settles: Condition, r: Reading, s: seq<byte>,
      m: Machine, cap: nat, k: nat, p: nat, q: nat)
    requires Takes(turn, safe, recover, settles) && Recovers(recover, settles, r, s, cap) && Waits(r, s, cap)
    ensures TurnFollows(turn, safe, r, s, m, cap, k, p, q)
  {
    if p <= q <= |s| && m.cap == cap && Tracks(m, s, k, p) && r.fine(k, q) {
      assert WaitsAt(r, s, cap, k, q);
      var o := LoopTakes(turn, safe, recover, settles, m, s, k, p, q);
      OutcomeFollows(recover, settles, r, s, o, TakenBy(recover, o), cap, k, p, q);
    }
  }

  ghost function LoopOf(seal: Seal): Receiver {
    Recovering(m => Recover(seal, m))
  }

  ghost function SafeFor(seal: Seal): Offering {
    Safely(m => Settles(seal, m))
  }

  lemma LoopFollows(seal: Seal, s: seq<byte>, cap: nat)
    ensures AlwaysFollows(LoopOf(seal), SafeFor(seal), ReadingOf(seal, s, cap), s, cap)
  {
    var recover, settles, r := (m: Machine) => Recover(seal, m), (m: Machine) => Settles(seal, m),
      ReadingOf(seal, s, cap);
    var turn, safe := Recovering(recover), Safely(settles);
    forall m, k, j, x, q
      ensures RecoversAt(recover, settles, r, s, m, cap, k, j, x, q)
    {
      RecoverRecovers(seal, s, m, cap, k, j, x, q);
    }
    forall m, b
      ensures TakesAt(turn, safe, recover, settles, m, b)
    {
    }
    ReadingWaits(seal, s, cap);
    forall m, k, p, q
      ensures TurnFollows(turn, safe, r, s, m, cap, k, p, q)
    {
      LoopTurn(turn, safe, recover, settles, r, s, m, cap, k, p, q);
    }
  }

  /** Whole-run recovery: whatever the chunks, and whether or not its frames pass the check, the loop salvages
      exactly what the reading of the whole stream does, as long as each search ends at a buffered byte. */
  lemma RunSalvages(seal: Seal, left: nat, cap: nat, s: seq<byte>, chunks: seq<seq<byte>>)
    requires left < TWO16 && s == Concat(chunks) && Searchable(seal, s, cap, 0, 0, |s|)
    ensures Salvages(PumpAll(LoopOf(seal), AtRest(left, cap), chunks), seal, s, cap, 0, 0, |s|)
    ensures AllSafe(LoopOf(seal), SafeFor(seal), AtRest(left, cap), chunks)
  {
    LoopFollows(seal, s, cap);
    ReadingCuts(seal, s, cap);
    assert s[0..] == s;
    AllFollows(LoopOf(seal), SafeFor(seal), ReadingOf(seal, s, cap), s, AtRest(left, cap), cap, 0, 0, chunks);
  }

  // ----- what is salvaged

  /** Only frames that pass the check. */
  lemma {:induction false} SalvagedPass(seal: Seal, s: seq<byte>, cap: nat, i: nat, n: nat, e: nat)
    requires i <= n <= e <= |s| && Searchable(seal, s, cap, i, n, e)
    ensures forall f :: f in Salvaged(seal, s, cap, i, n, e) ==> IsFrame(f) && seal(f)
    decreases e - i
  {
    var j := Candidate(s, cap, i, n, e);
    if FrameAt(s, j, e) {
      var f := FrameOf(s, j);
      assert f[0] == s[j] && f[2] == s[j + 2] && f[3] == s[j + 3];
      SalvagedPass(seal, s, cap, After(seal, s, j), Read(s, j, n), e);
    }
  }

  /** From a stream whose frames all pass it, the frames of Delivery.Frames. */
  lemma {:induction false} SoundSalvaged(seal: Seal, s: seq<byte>, cap: nat, i: nat, e: nat)
    requires i <= e <= |s| && Sound(seal, s, i, e, cap)
    ensures Searchable(seal, s, cap, i, i, e) && Salvaged(seal, s, cap, i, i, e) == Frames(s, i, e)
    ensures Open(seal, s, cap, i, i, e) == Rest(s, i, e)
    decreases e - i
  {
    var j := NextMagic(s, i, e);
    if FrameAt(s, j, e) {
      var x := j + LenAt(s, j);
      SoundFirst(seal, s, i, j, x, e, cap);
      FirstFrame(s, i, j, e);
      SoundSalvaged(seal, s, cap, x, e);
      NextFrame(seal, s, cap, i, j, i, x, x, e);
    }
  }

  // ----- a damaged length

  lemma {:induction false} StopAtMagic(s: seq<byte>, cap: nat, i: nat, j: nat, n: nat)
    requires i <= j && j + HEADER <= n <= |s| && NextMagic(s, i, |s|) == j && LenAt(s, j) <= cap
    ensures StopIn(s, cap, i, n) == j
    decreases j - i
  {
    if i < j {
      StopAtMagic(s, cap, i + 1, j, n);
    }
  }

  lemma SegmentAhead(seal: Seal, s: seq<byte>, cap: nat, i: nat, j: nat, k: nat, n: nat, g: Segment, rest: seq<byte>)
    requires i <= n <= |s| && s[i..] == g.garbage + g.frame + rest + s[n..]
    requires GoodSegment(seal, g, cap) && j == i + |g.garbage| && k == j + |g.frame|
    ensures k <= n && s[k..] == rest + s[n..]
    ensures j == NextMagic(s, i, |s|) && FrameAt(s, j, |s|) && FrameOf(s, j) == g.frame && seal(g.frame)
    ensures FitsAt(s, j, |s|, cap) && k == j + LenAt(s, j)
  {
    Regroup(g.garbage + g.frame, rest, s[n..]);
    SegmentFirst(seal, s, i, g, rest + s[n..], cap);
    Between(s, k, n, rest);
  }

  lemma Between(s: seq<byte>, i: nat, n: nat, a: seq<byte>)
    requires i <= |s| && n <= |s| && s[i..] == a + s[n..]
    ensures n == i + |a|
  {
    assert |s[i..]| == |a| + |s[n..]|;
  }

  /** Whether nothing or all of the segments is in the ring, their frames are salvaged first. */
  lemma {:induction false} SegmentsThen(seal: Seal, s: seq<byte>, cap: nat, i: nat, x: nat, n: nat, segs: seq<Segment>)
    requires i <= n <= |s| && (x == i || x == n) && s[i..] == Stream(segs) + s[n..]
    requires forall g | g in segs :: GoodSegment(seal, g, cap)
    requires Searchable(seal, s, cap, n, n, |s|)
    ensures Searchable(seal, s, cap, i, x, |s|) && Open(seal, s, cap, i, x, |s|) == Open(seal, s, cap, n, n, |s|)
    ensures Salvaged(seal, s, cap, i, x, |s|) == FramesOf(segs) + Salvaged(seal, s, cap, n, n, |s|)
    decreases |segs|
  {
    if segs == [] {
      Between(s, i, n, []);
    } else {
      var j := i + |segs[0].garbage|;
      var k := j + |segs[0].frame|;
      assert segs[0] in segs;
      SegmentAhead(seal, s, cap, i, j, k, n, segs[0], Stream(segs[1..]));
      SegmentsThen(seal, s, cap, k, if x == i then k else n, n, segs[1..]);
      SegmentSalvaged(seal, s, cap, i, x, j, k, if x == i then k else n, segs[0].frame, FramesOf(segs[1..]),
        Salvaged(seal, s, cap, n, n, |s|));
    }
  }

  lemma SegmentSalvaged(seal: Seal, s: seq<byte>, cap: nat, i: nat, x: nat, j: nat, k: nat, y: nat, f: seq<byte>,
      frames: seq<seq<byte>>, more: seq<seq<byte>>)
    requires i <= x <= |s| && j == NextMagic(s, i, |s|) && FrameAt(s, j, |s|) && FrameOf(s, j) == f && seal(f)
    requires FitsAt(s, j, |s|, cap) && k == j + LenAt(s, j) && (x == i || k <= x) && y == if x == i then k else x
    requires Searchable(seal, s, cap, k, y, |s|) && Salvaged(seal, s, cap, k, y, |s|) == frames + more
    ensures Searchable(seal, s, cap, i, x, |s|) && Open(seal, s, cap, i, x, |s|) == Open(seal, s, cap, k, y, |s|)
    ensures Salvaged(seal, s, cap, i, x, |s|) == ([f] + frames) + more
  {
    if x != i {
      StopAtMagic(s, cap, i, j, x);
    }
    NextFrame(seal, s, cap, i, j, x, k, y, |s|);
    Regroup([f], frames, more);
  }

  /** d starts a frame which claims all up to n, but fails the check there. */
  ghost predicate Claims(seal: Seal, s: seq<byte>, cap: nat, i: nat, n: nat) {
    && FrameAt(s, i, |s|) && s[i] == MAGIC && i + LenAt(s, i) == n && n - i <= cap && n - i < TWO16
    && !seal(FrameOf(s, i))
  }

  /** Looking again from the next byte on finds what a search from the byte d ends before finds. */
  lemma DamagedFrame(seal: Seal, s: seq<byte>, cap: nat, i: nat, d: nat, n: nat)
    requires Claims(seal, s, cap, i, n) && i + HEADER <= d < n && MAGIC !in s[i + 1..d]
    requires Searchable(seal, s, cap, d, n, |s|)
    ensures Searchable(seal, s, cap, i, i, |s|)
    ensures Salvaged(seal, s, cap, i, i, |s|) == Salvaged(seal, s, cap, d, n, |s|)
    ensures Open(seal, s, cap, i, i, |s|) == Open(seal, s, cap, d, n, |s|)
  {
    NoStop(s, cap, i + 1, d, n);
    NextFrame(seal, s, cap, i, i, i, i + 1, n, |s|);
    var j := Candidate(s, cap, d, n, |s|);
    if FrameAt(s, j, |s|) {
      NextFrame(seal, s, cap, i + 1, j, n, After(seal, s, j), Read(s, j, n), |s|);
      NextFrame(seal, s, cap, d, j, n, After(seal, s, j), Read(s, j, n), |s|);
    }
  }

  lemma {:induction false} NoStop(s: seq<byte>, cap: nat, i: nat, d: nat, n: nat)
    requires i <= d < n <= |s| && MAGIC !in s[i..d]
    ensures StopIn(s, cap, i, n) == StopIn(s, cap, d, n)
    decreases d - i
  {
    if i < d {
      assert s[i..d][0] == s[i] && s[i..d][1..] == s[i + 1..d];
      NoStop(s, cap, i + 1, d, n);
    }
  }

  /** Good frames, then a frame whose damaged length makes it claim the good frames behind it, then more good
      frames: in any chunks, the loop loses the damaged frame alone and comes to rest with an empty ring. */
  lemma DamagedLength(seal: Seal, left: nat, cap: nat, before: seq<Segment>, d: seq<byte>, claimed: seq<Segment>,
      behind: seq<Segment>, chunks: seq<seq<byte>>)
    requires left < TWO16 && forall g | g in before + claimed + behind :: GoodSegment(seal, g, cap)
    requires Concat(chunks) == Stream(before) + d + Stream(claimed) + Stream(behind) && claimed != []
    requires |d| >= HEADER && d[0] == MAGIC && MAGIC !in d[1..]
    requires var f := d + Stream(claimed); FrameLen(d) == |f| <= cap && |f| < TWO16 && !seal(f)
    ensures var run := PumpAll(LoopOf(seal), AtRest(left, cap), chunks);
            && run.frames == FramesOf(before) + FramesOf(claimed) + FramesOf(behind)
            && run.m.stat == Sync && run.m.fifo == []
  {
    var s := Concat(chunks);
    Parts(s, Stream(before), d, Stream(claimed), Stream(behind));
    FromDamaged(seal, s, cap, |Stream(before)|, d, claimed, behind);
    SegmentsThen(seal, s, cap, 0, 0, |Stream(before)|, before);
    RunSalvages(seal, left, cap, s, chunks);
    Regroup(FramesOf(before), FramesOf(claimed), FramesOf(behind));
  }

  lemma ClaimedThen(seal: Seal, s: seq<byte>, cap: nat, c: nat, n: nat, claimed: seq<Segment>, behind: seq<Segment>)
    requires c <= n <= |s| && s[c..] == Stream(claimed) + s[n..] && s[n..] == Stream(behind)
    requires forall g | g in claimed + behind :: GoodSegment(seal, g, cap)
    ensures Searchable(seal, s, cap, c, n, |s|) && Open(seal, s, cap, c, n, |s|) == |s|
    ensures Salvaged(seal, s, cap, c, n, |s|) == FramesOf(claimed) + FramesOf(behind)
  {
    StreamOfSegments(seal, s, n, behind, cap);
    SoundSalvaged(seal, s, cap, n, |s|);
    SegmentsThen(seal, s, cap, c, n, n, claimed);
  }

  lemma FromDamaged(seal: Seal, s: seq<byte>, cap: nat, i: nat, d: seq<byte>, claimed: seq<Segment>,
      behind: seq<Segment>)
    requires forall g | g in claimed + behind :: GoodSegment(seal, g, cap)
    requires |d| >= HEADER && d[0] == MAGIC && MAGIC !in d[1..] && claimed != []
    requires var f := d + Stream(claimed); FrameLen(d) == |f| <= cap && |f| < TWO16 && !seal(f)
    requires var c := i + |d|; var n := c + |Stream(claimed)|;
             && n <= |s| && s[i..n] == d + Stream(claimed)
             && s[c..] == Stream(claimed) + s[n..] && s[n..] == Stream(behind)
    ensures Searchable(seal, s, cap, i, i, |s|) && Open(seal, s, cap, i, i, |s|) == |s|
    ensures Salvaged(seal, s, cap, i, i, |s|) == FramesOf(claimed) + FramesOf(behind)
  {
    var c := i + |d|;
    var n := c + |Stream(claimed)|;
    ClaimedThen(seal, s, cap, c, n, claimed, behind);
    SomeSegments(seal, claimed, cap);
    FromClaim(seal, s, cap, i, c, n, d, Stream(claimed));
  }

  lemma FromClaim(seal: Seal, s: seq<byte>, cap: nat, i: nat, c: nat, n: nat, d: seq<byte>, b: seq<byte>)
    requires i <= n <= |s| && s[i..n] == d + b && c == i + |d| && c < n
    requires |d| >= HEADER && d[0] == MAGIC && MAGIC !in d[1..]
    requires FrameLen(d) == |d + b| <= cap && |d + b| < TWO16 && !seal(d + b)
    requires Searchable(seal, s, cap, c, n, |s|)
    ensures Searchable(seal, s, cap, i, i, |s|) && Open(seal, s, cap, i, i, |s|) == Open(seal, s, cap, c, n, |s|)
    ensures Salvaged(seal, s, cap, i, i, |s|) == Salvaged(seal, s, cap, c, n, |s|)
  {
    ClaimsAll(seal, s, cap, i, c, n, d, b);
    DamagedFrame(seal, s, cap, i, c, n);
  }

  lemma Parts(s: seq<byte>, a: seq<byte>, d: seq<byte>, b: seq<byte>, c: seq<byte>)
    requires s == a + d + b + c
    ensures var i, k, n := |a|, |a| + |d|, |a| + |d| + |b|;
            && s[0..] == a + s[i..] && s[i..n] == d + b && s[k..] == b + s[n..] && s[n..] == c
  {
  }

  lemma SomeSegments(seal: Seal, segs: seq<Segment>, cap: nat)
    requires segs != [] && GoodSegment(seal, segs[0], cap)
    ensures |Stream(segs)| > 0
  {
  }

  lemma ClaimsAll(seal: Seal, s: seq<byte>, cap: nat, i: nat, c: nat, n: nat, d: seq<byte>, b: seq<byte>)
    requires i <= n <= |s| && s[i..n] == d + b && c == i + |d| && |d| >= HEADER && d[0] == MAGIC && MAGIC !in d[1..]
    requires FrameLen(d) == |d + b| <= cap && |d + b| < TWO16 && !seal(d + b)
    ensures Claims(seal, s, cap, i, n) && MAGIC !in s[i + 1..c]
  {
    var f := s[i..n];
    assert s[i] == f[0] == d[0] && s[i + 2] == f[2] == d[2] && s[i + 3] == f[3] == d[3];
    SliceOfSlice(s, i, n, i + 1, c);
    assert f[1..|d|] == d[1..];
  }
}
