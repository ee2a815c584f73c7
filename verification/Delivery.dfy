/** What the packet machine delivers: the frames of a byte stream, whatever the chunks it comes in.
    A stretch of the stream is given by its bounds: s, i, e stands for s[i..e]. */
module Delivery {
  import opened Words
  import opened Framing

  // ----- the stream, read by a reference definition

  /** The length of a frame whose header starts at i. */
  function LenAt(s: seq<byte>, i: nat): (n: nat)
    requires i + 4 <= |s|
    ensures HEADER + TRAILER <= n
  {
    HEADER + Le16(s[i + 2], s[i + 3]) + TRAILER
  }

  /** A complete frame starts at i and ends by e. */
  predicate FrameAt(s: seq<byte>, i: nat, e: nat)
    requires e <= |s|
  {
    i + HEADER <= e && i + LenAt(s, i) <= e
  }

  /** The bytes of the complete frame at j. */
  function FrameOf(s: seq<byte>, j: nat): (f: seq<byte>)
    requires FrameAt(s, j, |s|)
  {
    s[j..j + LenAt(s, j)]
  }

  /** The complete frames, in order: skip to a magic byte; if a complete frame starts there take it and
      go on after it. */
  function Frames(s: seq<byte>, i: nat, e: nat): seq<seq<byte>>
    requires i <= e <= |s|
    decreases e - i
  {
    var j := NextMagic(s, i, e);
    if FrameAt(s, j, e) then [FrameOf(s, j)] + Frames(s, j + LenAt(s, j), e) else []
  }

  /** Where the unfinished frame left after the complete ones starts; e if there is none. */
  function Rest(s: seq<byte>, i: nat, e: nat): (u: nat)
    requires i <= e <= |s|
    ensures i <= u <= e
    decreases e - i
  {
    var j := NextMagic(s, i, e);
    if FrameAt(s, j, e) then Rest(s, j + LenAt(s, j), e) else j
  }

  /** The frame that starts at i fits the ring and the 16-bit count of bytes left; a header too short to
      say how long the frame is fits by itself. */
  predicate FitsAt(s: seq<byte>, i: nat, e: nat, cap: nat)
    requires i <= e <= |s|
  {
    if e < i + 4 then e - i <= cap else LenAt(s, i) <= cap && LenAt(s, i) < TWO16
  }

  /** Every frame fits the ring, and every complete one passes the trailer check. */
  predicate Sound(seal: Seal, s: seq<byte>, i: nat, e: nat, cap: nat)
    requires i <= e <= |s|
    decreases e - i
  {
    var j := NextMagic(s, i, e);
    && FitsAt(s, j, e, cap)
    && (FrameAt(s, j, e) ==> seal(FrameOf(s, j)) && Sound(seal, s, j + LenAt(s, j), e, cap))
  }

  // ----- one call of bscl_packet_receive

  /** The machine has read the stream to q and buffers the unfinished frame (or nothing) from j. */
  ghost predicate Tracks(m: Machine, s: seq<byte>, j: nat, q: nat) {
    && j <= q <= |s| && m.fifo == s[j..q] && m.left < TWO16
    && if j == q then m.stat == Sync
       else
         && s[j] == MAGIC && FitsAt(s, j, q, m.cap) && !FrameAt(s, j, q)
         && if q < j + HEADER then m.stat == Head && m.left == j + HEADER - q
            else if q < j + LenAt(s, j) - TRAILER then m.stat == Data && m.left == j + LenAt(s, j) - TRAILER - q
            else m.stat == Trailer && m.left == j + LenAt(s, j) - q
  }

  lemma TracksIsWellFormed(m: Machine, s: seq<byte>, j: nat, q: nat)
    requires Tracks(m, s, j, q)
    ensures m.WellFormed()
  {
  }

  /** The machine buffers s[j..k] of a frame; the chunk offers s[k..e], cut short of the end q only by
      the ring's size. */
  ghost predicate Reading(m: Machine, s: seq<byte>, j: nat, k: nat, e: nat, q: nat) {
    && j <= k <= e <= q <= |s| && j < e && m.fifo == s[j..k] && k - j <= m.cap
    && s[j] == MAGIC && FitsAt(s, j, q, m.cap)
    && (e == q || e - j == m.cap)
  }

  /** What a stage must achieve from there. */
  ghost predicate Achieves(cap: nat, s: seq<byte>, j: nat, k: nat, q: nat, o: Outcome)
    requires j <= k <= q <= |s|
  {
    && o.m.cap == cap
    && (o.ready <==> FrameAt(s, j, q))
    && (o.ready ==> o.m.fifo == s[j..j + LenAt(s, j)] && k + o.used == j + LenAt(s, j))
    && (!o.ready ==> k + o.used == q && Tracks(o.m, s, j, q))
  }

  lemma StoredAll(m: Machine, s: seq<byte>, j: nat, k: nat, e: nat)
    requires j <= k <= e <= |s| && m.fifo == s[j..k] && e - j <= m.cap
    ensures m.Stored(s[k..e]).fifo == s[j..e]
  {
    assert s[k..e][..e - k] == s[k..e];
    assert s[j..k] + s[k..e] == s[j..e];
  }

  lemma TrailerStep(m: Machine, s: seq<byte>, j: nat, k: nat, e: nat, q: nat)
    requires Reading(m, s, j, k, e, q) && e >= j + HEADER && e >= j + LenAt(s, j) - TRAILER
    requires m.stat == Trailer && m.left + k == j + LenAt(s, j)
    ensures Achieves(m.cap, s, j, k, q, TrailerStage(m, s[k..e]))
  {
    var n := j + LenAt(s, j);
    if e < n {
      StoredAll(m.(left := m.left - (e - k)), s, j, k, e);
    } else {
      StoredAll(m, s, j, k, n);
      assert s[k..e][..m.left] == s[k..n];
    }
  }

  lemma DataStep(m: Machine, s: seq<byte>, j: nat, k: nat, e: nat, q: nat)
    requires Reading(m, s, j, k, e, q) && e >= j + HEADER
    requires m.stat == Data && m.left + k == j + LenAt(s, j) - TRAILER
    ensures Achieves(m.cap, s, j, k, q, DataStage(m, s[k..e]))
  {
    if e < j + LenAt(s, j) - TRAILER {
      StoredAll(m.(left := m.left - (e - k)), s, j, k, e);
    } else {
      var m' := m.(stat := Framing.Trailer, left := m.left + TRAILER);
      assert DataStage(m, s[k..e]) == TrailerStage(m', s[k..e]);
      TrailerStep(m', s, j, k, e, q);
    }
  }

  /** However the length field is split between ring and chunk, it is the frame's. */
  lemma SplitLength(s: seq<byte>, j: nat, k: nat, e: nat)
    requires j <= k <= j + HEADER <= e <= |s|
    ensures LenAhead(s[j..k], j + HEADER - k, s[k..e]) == LenAt(s, j) - HEADER - TRAILER
  {
    assert HeaderByte(s[j..k], j + HEADER - k, s[k..e], 2) == s[j + 2];
    assert HeaderByte(s[j..k], j + HEADER - k, s[k..e], 3) == s[j + 3];
  }

  lemma ShortHeadStep(m: Machine, s: seq<byte>, j: nat, k: nat, e: nat, q: nat)
    requires Reading(m, s, j, k, e, q) && m.stat == Head && m.left + k == j + HEADER && e < j + HEADER
    ensures Achieves(m.cap, s, j, k, q, HeadStage(m, s[k..e]))
  {
    StoredAll(m.(left := m.left - (e - k)), s, j, k, e);
  }

  lemma FullHeadStep(m: Machine, s: seq<byte>, j: nat, k: nat, e: nat, q: nat)
    requires Reading(m, s, j, k, e, q) && m.stat == Head && m.left + k == j + HEADER && m.left > 0
    requires e >= j + HEADER
    ensures HeadStage(m, s[k..e])
          == DataStage(m.(stat := Data, left := m.left + LenAt(s, j) - HEADER - TRAILER), s[k..e])
  {
    SplitLength(s, j, k, e);
  }

  lemma HeadStep(m: Machine, s: seq<byte>, j: nat, k: nat, e: nat, q: nat)
    requires Reading(m, s, j, k, e, q) && m.stat == Head && m.left + k == j + HEADER && m.left > 0
    ensures Achieves(m.cap, s, j, k, q, HeadStage(m, s[k..e]))
  {
    if e < j + HEADER {
      ShortHeadStep(m, s, j, k, e, q);
    } else {
      FullHeadStep(m, s, j, k, e, q);
      DataStep(m.(stat := Data, left := m.left + LenAt(s, j) - HEADER - TRAILER), s, j, k, e, q);
    }
  }

  lemma StagesStep(m: Machine, s: seq<byte>, j: nat, k: nat, q: nat)
    requires Tracks(m, s, j, k) && j < k && Reading(m, s, j, k, q, q)
    ensures Achieves(m.cap, s, j, k, q, HeadStage(m, s[k..q]))
  {
    if m.stat == Head {
      HeadStep(m, s, j, k, q, q);
    } else if m.stat == Data {
      DataStep(m, s, j, k, q, q);
    } else {
      TrailerStep(m, s, j, k, q, q);
    }
  }

  lemma {:induction false} MagicInSlice(s: seq<byte>, p: nat, i: nat, q: nat)
    requires p <= i <= q <= |s|
    ensures p + NextMagic(s[p..q], i - p, q - p) == NextMagic(s, i, q)
    decreases q - i
  {
    if i < q && s[i] != MAGIC {
      MagicInSlice(s, p, i + 1, q);
    }
  }

  /** The search for a magic byte, with its clamp of the chunk to the ring's free space. */
  lemma SyncReceive(m: Machine, b: seq<byte>, i: nat, len: nat, part: seq<byte>, h: Outcome)
    requires m.stat == Sync && m.fifo == [] && 0 < m.cap && m.left < TWO16
    requires i == NextMagic(b, 0, |b|) < |b| && len == (if m.cap < |b| - i then m.cap + i else |b|) && part == b[i..len]
    requires h == HeadStage(m.(stat := Head, left := HEADER), part)
    ensures Receive(m, b) == h.(used := i + h.used)
  {
    SearchGoesOn(m, b, i, len, part, h);
  }

  lemma SliceEnd(s: seq<byte>, p: nat, n: nat, q: nat)
    requires p <= n <= q <= |s|
    ensures s[p..q][n - p..] == s[n..q]
  {
  }

  lemma SliceOfSlice(s: seq<byte>, p: nat, q: nat, j: nat, e: nat)
    requires p <= j <= e <= q <= |s|
    ensures s[p..q][j - p..e - p] == s[j..e]
  {
    var b := s[p..q];
    forall i | 0 <= i < e - j
      ensures b[j - p..e - p][i] == s[j..e][i]
    {
      assert b[j - p..e - p][i] == b[j - p + i] == s[j + i];
    }
  }

  lemma SyncStep(m: Machine, s: seq<byte>, p: nat, j: nat, q: nat)
    requires p <= q <= |s| && Tracks(m, s, p, p) && m.WellFormed()
    requires j == NextMagic(s, p, q) < q && FitsAt(s, j, q, m.cap)
    ensures var o := Receive(m, s[p..q]);
            p + o.used >= j && Achieves(m.cap, s, j, j, q, o.(used := p + o.used - j))
  {
    var e := if m.cap < q - j then j + m.cap else q;
    var h := HeadStage(m.(stat := Head, left := HEADER), s[j..e]);
    SyncOutcome(m, s, p, j, e, q);
    HeadStep(m.(stat := Head, left := HEADER), s, j, j, e, q);
    assert Receive(m, s[p..q]).(used := h.used) == h;
  }

  lemma {:induction false} SyncOutcome(m: Machine, s: seq<byte>, p: nat, j: nat, e: nat, q: nat)
    requires p <= q <= |s| && m.stat == Sync && m.fifo == [] && 0 < m.cap && m.left < TWO16
    requires j == NextMagic(s, p, q) < q && e == if m.cap < q - j then j + m.cap else q
    ensures var h := HeadStage(m.(stat := Head, left := HEADER), s[j..e]);
            Receive(m, s[p..q]) == h.(used := j - p + h.used)
  {
    MagicInSlice(s, p, p, q);
    SliceOfSlice(s, p, q, j, e);
    SyncReceive(m, s[p..q], j - p, e - p, s[j..e], HeadStage(m.(stat := Head, left := HEADER), s[j..e]));
  }

  /** One call. The machine has read the stream to p and buffers it from k; the chunk runs to q. It
      signals a packet exactly when the stream to q completes the frame that starts at the first magic
      byte from k; it then buffers exactly that frame and has taken the chunk up to its last byte.
      Otherwise it has taken the whole chunk and tracks the unfinished frame. */
  lemma {:induction false} ReceiveStep(m: Machine, s: seq<byte>, k: nat, p: nat, q: nat)
    requires p <= q <= |s| && Tracks(m, s, k, p)
    requires FitsAt(s, NextMagic(s, k, q), q, m.cap)
    ensures m.WellFormed()
    ensures var j := NextMagic(s, k, q);
            var o := Receive(m, s[p..q]);
            && o.m.cap == m.cap && o.m.WellFormed()
            && (o.ready <==> FrameAt(s, j, q))
            && if o.ready then o.m.fifo == s[j..j + LenAt(s, j)] && p < p + o.used == j + LenAt(s, j)
               else o.used == q - p && Tracks(o.m, s, j, q)
  {
    TracksIsWellFormed(m, s, k, p);
    ReceiveStaysWellFormed(m, s[p..q]);
    var j := NextMagic(s, k, q);
    if k < p {
      StagesStep(m, s, k, p, q);
    } else if j < q {
      SyncStep(m, s, p, j, q);
    } else {
      NoMagicStep(m, s, p, q);
    }
  }

  lemma {:induction false} NoMagicStep(m: Machine, s: seq<byte>, p: nat, q: nat)
    requires p <= q <= |s| && Tracks(m, s, p, p) && m.WellFormed() && NextMagic(s, p, q) == q
    ensures Receive(m, s[p..q]) == Outcome(m, q - p, false) && Tracks(m, s, q, q)
  {
    MagicInSlice(s, p, p, q);
  }

  // ----- cutting a stream

  lemma {:induction false} MagicCut(s: seq<byte>, i: nat, q: nat, e: nat)
    requires i <= q <= e <= |s|
    ensures var j := NextMagic(s, i, q);
            NextMagic(s, i, e) == if j < q then j else NextMagic(s, q, e)
    decreases q - i
  {
    if i < q && s[i] != MAGIC {
      MagicCut(s, i + 1, q, e);
    }
  }

  lemma ConsBoth<T>(x: T, all: seq<T>, a: seq<T>, b: seq<T>, xall: seq<T>, xa: seq<T>)
    requires all == a + b && xall == [x] + all && xa == [x] + a
    ensures xall == xa + b
  {
  }

  lemma FirstFrame(s: seq<byte>, i: nat, j: nat, e: nat)
    requires i <= e <= |s| && j == NextMagic(s, i, e) && FrameAt(s, j, e)
    ensures Frames(s, i, e) == [FrameOf(s, j)] + Frames(s, j + LenAt(s, j), e)
    ensures Rest(s, i, e) == Rest(s, j + LenAt(s, j), e)
  {
  }

  lemma {:induction false} FramesCutAfter(s: seq<byte>, i: nat, j: nat, n: nat, q: nat, e: nat, rest: seq<seq<byte>>)
    requires i <= q <= e <= |s| && j == NextMagic(s, i, q) == NextMagic(s, i, e) && FrameAt(s, j, q)
          && n == j + LenAt(s, j)
    requires Frames(s, n, e) == Frames(s, n, q) + rest
    ensures Frames(s, i, e) == Frames(s, i, q) + rest && Rest(s, i, q) == Rest(s, n, q)
  {
    FirstFrame(s, i, j, e);
    FirstFrame(s, i, j, q);
    ConsBoth(FrameOf(s, j), Frames(s, n, e), Frames(s, n, q), rest, Frames(s, i, e), Frames(s, i, q));
  }

  lemma FramesCutBefore(s: seq<byte>, i: nat, j: nat, q: nat, e: nat)
    requires i <= q <= e <= |s| && j == NextMagic(s, i, q) && !FrameAt(s, j, q)
    requires NextMagic(s, j, e) == NextMagic(s, i, e)
    ensures Frames(s, i, e) == Frames(s, i, q) + Frames(s, Rest(s, i, q), e)
  {
    assert Frames(s, i, q) == [] && Rest(s, i, q) == j;
    assert Frames(s, i, e) == Frames(s, j, e);
    assert [] + Frames(s, j, e) == Frames(s, j, e);
  }

  /** Reading a stream to a cut and then from its unfinished frame on is reading the whole stream. */
  lemma {:induction false} FramesCut(s: seq<byte>, i: nat, q: nat, e: nat)
    requires i <= q <= e <= |s|
    ensures Frames(s, i, e) == Frames(s, i, q) + Frames(s, Rest(s, i, q), e)
    decreases q - i
  {
    var j := NextMagic(s, i, q);
    MagicCut(s, i, q, e);
    if FrameAt(s, j, q) {
      var n := j + LenAt(s, j);
      FramesCut(s, n, q, e);
      FramesCutAfter(s, i, j, n, q, e, Frames(s, Rest(s, n, q), e));
    } else {
      FramesCutBefore(s, i, j, q, e);
    }
  }

  lemma {:induction false} RestCut(s: seq<byte>, i: nat, q: nat, e: nat)
    requires i <= q <= e <= |s|
    ensures Rest(s, i, e) == Rest(s, Rest(s, i, q), e)
    decreases q - i
  {
    var j := NextMagic(s, i, q);
    MagicCut(s, i, q, e);
    if FrameAt(s, j, q) {
      RestCut(s, j + LenAt(s, j), q, e);
    } else {
      assert NextMagic(s, j, e) == NextMagic(s, i, e);
    }
  }

  lemma SoundFirst(seal: Seal, s: seq<byte>, i: nat, j: nat, n: nat, e: nat, cap: nat)
    requires i <= e <= |s| && j == NextMagic(s, i, e) && FrameAt(s, j, e) && n == j + LenAt(s, j)
    ensures Sound(seal, s, i, e, cap) <==> FitsAt(s, j, e, cap) && seal(FrameOf(s, j)) && Sound(seal, s, n, e, cap)
  {
  }

  lemma SoundLast(seal: Seal, s: seq<byte>, i: nat, j: nat, e: nat, cap: nat)
    requires i <= e <= |s| && j == NextMagic(s, i, e) && !FrameAt(s, j, e)
    ensures Sound(seal, s, i, e, cap) <==> FitsAt(s, j, e, cap)
  {
  }

  lemma SoundCutFirst(seal: Seal, s: seq<byte>, i: nat, j: nat, n: nat, q: nat, e: nat, cap: nat)
    requires i <= q <= e <= |s| && j == NextMagic(s, i, q) == NextMagic(s, i, e) && FrameAt(s, j, q)
    requires n == j + LenAt(s, j) && Sound(seal, s, i, e, cap)
    ensures Sound(seal, s, n, e, cap)
    ensures Sound(seal, s, n, q, cap) ==> Sound(seal, s, i, q, cap)
    ensures Rest(s, i, q) == Rest(s, n, q)
  {
    SoundFirst(seal, s, i, j, n, e, cap);
    SoundFirst(seal, s, i, j, n, q, cap);
    FirstFrame(s, i, j, q);
  }

  lemma SoundCutLast(seal: Seal, s: seq<byte>, i: nat, j: nat, q: nat, e: nat, cap: nat)
    requires i <= q <= e <= |s| && j == NextMagic(s, i, q) && !FrameAt(s, j, q)
    requires NextMagic(s, j, e) == NextMagic(s, i, e) && Sound(seal, s, i, e, cap)
    requires j < q ==> NextMagic(s, i, e) == j
    ensures Sound(seal, s, i, q, cap) && Rest(s, i, q) == j && Sound(seal, s, j, e, cap)
  {
    SoundLast(seal, s, i, j, q, cap);
    if j < q {
      FitsBefore(s, j, q, e, cap);
    }
  }

  lemma {:induction false} SoundCut(seal: Seal, s: seq<byte>, i: nat, q: nat, e: nat, cap: nat)
    requires i <= q <= e <= |s| && Sound(seal, s, i, e, cap)
    ensures Sound(seal, s, i, q, cap) && Sound(seal, s, Rest(s, i, q), e, cap)
    decreases q - i
  {
    var j := NextMagic(s, i, q);
    MagicCut(s, i, q, e);
    if FrameAt(s, j, q) {
      var n := j + LenAt(s, j);
      SoundCutFirst(seal, s, i, j, n, q, e, cap);
      SoundCut(seal, s, n, q, e, cap);
    } else {
      SoundCutLast(seal, s, i, j, q, e, cap);
    }
  }

  lemma FitsBefore(s: seq<byte>, j: nat, q: nat, e: nat, cap: nat)
    requires j <= q <= e <= |s| && FitsAt(s, j, e, cap)
    ensures FitsAt(s, j, q, cap)
  {
  }

  // ----- whole runs

  /** What one turn of a receiving loop does with a chunk. */
  datatype Taken = Taken(m: Machine, used: nat, frames: seq<seq<byte>>)

  type Receiver = (Machine, seq<byte>) -> Taken

  /** One turn: offer the chunk, and parse when a packet is ready. */
  function Turn(seal: Seal, m: Machine, b: seq<byte>): Taken
    requires m.WellFormed()
  {
    var o := Receive(m, b);
    if !o.ready then Taken(o.m, o.used, [])
    else
      var p := Parse(seal, o.m);
      Taken(p.0, o.used, if p.1.Delivers() then [p.1.frame] else [])
  }

  ghost function TurnsWith(seal: Seal): Receiver {
    (m: Machine, b: seq<byte>) => if m.WellFormed() then Turn(seal, m, b) else Taken(m, 0, [])
  }

  datatype Run = Run(m: Machine, frames: seq<seq<byte>>)

  /** The receiving loop: after each turn, offer what was not taken. */
  function Pump(turn: Receiver, m: Machine, b: seq<byte>): (run: Run)
    decreases |b|
  {
    var t := turn(m, b);
    if t.used == 0 || t.used > |b| then Run(t.m, t.frames)
    else
      var rest := Pump(turn, t.m, b[t.used..]);
      Run(rest.m, t.frames + rest.frames)
  }

  function PumpAll(turn: Receiver, m: Machine, chunks: seq<seq<byte>>): Run
    decreases |chunks|
  {
    if chunks == [] then Run(m, [])
    else
      var first := Pump(turn, m, chunks[0]);
      var rest := PumpAll(turn, first.m, chunks[1..]);
      Run(rest.m, first.frames + rest.frames)
  }

  /** The run has delivered the frames in s[i..e] and ends tracking the unfinished one. */
  ghost predicate Delivered(run: Run, s: seq<byte>, i: nat, e: nat)
    requires i <= e <= |s|
  {
    run.frames == Frames(s, i, e) && Tracks(run.m, s, Rest(s, i, e), e)
  }

  /** A frame alone in the ring that passes the check is delivered and leaves the machine at rest. */
  lemma ParseFrame(seal: Seal, m: Machine, s: seq<byte>, j: nat)
    requires FrameAt(s, j, |s|) && m.fifo == FrameOf(s, j) && seal(m.fifo) && |m.fifo| <= m.cap
    ensures Parse(seal, m) == (m.(stat := Sync, fifo := []), More(m.fifo))
  {
    var f := m.fifo;
    assert f[2] == s[j + 2] && f[3] == s[j + 3];
    assert f[..|f|] == f;
  }

  /** What a turn must do where the stream is read from k, buffered to p and offered to q: take it up to
      the end of the first complete frame and deliver that, or take it all. */
  ghost predicate TurnsRight(turn: Receiver, seal: Seal, m: Machine, s: seq<byte>, k: nat, p: nat, q: nat) {
    p <= q <= |s| && Tracks(m, s, k, p) && Sound(seal, s, k, q, m.cap) ==>
      var j := NextMagic(s, k, q);
      var t := turn(m, s[p..q]);
      t.m.cap == m.cap &&
      if FrameAt(s, j, q) then
        p < p + t.used == j + LenAt(s, j) && t.frames == [FrameOf(s, j)] && Tracks(t.m, s, p + t.used, p + t.used)
      else
        p + t.used == q && t.frames == [] && Tracks(t.m, s, j, q)
  }

  lemma ParserTurnsRight(seal: Seal, m: Machine, s: seq<byte>, k: nat, p: nat, q: nat)
    ensures TurnsRight(TurnsWith(seal), seal, m, s, k, p, q)
  {
    if p <= q <= |s| && Tracks(m, s, k, p) && Sound(seal, s, k, q, m.cap) {
      ReceiveStep(m, s, k, p, q);
      var j := NextMagic(s, k, q);
      if FrameAt(s, j, q) {
        ParseFrame(seal, Receive(m, s[p..q]).m, s, j);
      }
    }
  }

  lemma DeliveredNext(run: Run, rest: Run, s: seq<byte>, k: nat, q: nat)
    requires k <= q <= |s| && FrameAt(s, NextMagic(s, k, q), q)
    requires var j := NextMagic(s, k, q);
             Delivered(rest, s, j + LenAt(s, j), q) && run == Run(rest.m, [FrameOf(s, j)] + rest.frames)
    ensures Delivered(run, s, k, q)
  {
  }

  ghost predicate AlwaysTurnsRight(turn: Receiver, seal: Seal) {
    forall m, s, k, p, q :: TurnsRight(turn, seal, m, s, k, p, q)
  }

  /** A turn that takes the chunk up to the end n of a frame delivers it and leaves the rest to the next turns. */
  lemma {:induction false} PumpFrame(turn: Receiver, seal: Seal, m: Machine, s: seq<byte>, k: nat, p: nat, q: nat,
                                     n: nat)
    requires AlwaysTurnsRight(turn, seal)
    requires p <= q <= |s| && Tracks(m, s, k, p) && Sound(seal, s, k, q, m.cap)
    requires var j := NextMagic(s, k, q); FrameAt(s, j, q) && n == j + LenAt(s, j)
    ensures var t, b := turn(m, s[p..q]), s[p..q];
            && p < n <= q && t.m.cap == m.cap && Tracks(t.m, s, n, n) && Sound(seal, s, n, q, m.cap)
            && var rest := Pump(turn, t.m, s[n..q]);
               Pump(turn, m, b) == Run(rest.m, [FrameOf(s, NextMagic(s, k, q))] + rest.frames)
  {
    assert TurnsRight(turn, seal, m, s, k, p, q);
    SliceEnd(s, p, n, q);
  }

  lemma PumpTakesAll(turn: Receiver, seal: Seal, m: Machine, s: seq<byte>, k: nat, p: nat, q: nat)
    requires AlwaysTurnsRight(turn, seal)
    requires p <= q <= |s| && Tracks(m, s, k, p) && Sound(seal, s, k, q, m.cap)
    requires !FrameAt(s, NextMagic(s, k, q), q)
    ensures Delivered(Pump(turn, m, s[p..q]), s, k, q) && Pump(turn, m, s[p..q]).m.cap == m.cap
  {
    assert TurnsRight(turn, seal, m, s, k, p, q);
    var t := turn(m, s[p..q]);
    SliceEnd(s, p, q, q);
    if p < q {
      PumpRests(turn, seal, t.m, s, NextMagic(s, k, q), q);
    }
  }

  lemma {:induction false} PumpDelivers(turn: Receiver, seal: Seal, m: Machine, s: seq<byte>, k: nat, p: nat, q: nat)
    requires AlwaysTurnsRight(turn, seal)
    requires p <= q <= |s| && Tracks(m, s, k, p) && Sound(seal, s, k, q, m.cap)
    ensures Delivered(Pump(turn, m, s[p..q]), s, k, q) && Pump(turn, m, s[p..q]).m.cap == m.cap
    decreases q - p
  {
    var j := NextMagic(s, k, q);
    if FrameAt(s, j, q) {
      var n, t := j + LenAt(s, j), turn(m, s[p..q]);
      PumpFrame(turn, seal, m, s, k, p, q, n);
      PumpDelivers(turn, seal, t.m, s, n, n, q);
      DeliveredNext(Pump(turn, m, s[p..q]), Pump(turn, t.m, s[n..q]), s, k, q);
    } else {
      PumpTakesAll(turn, seal, m, s, k, p, q);
    }
  }

  /** Offered nothing more, the loop stops where it is. */
  lemma PumpRests(turn: Receiver, seal: Seal, m: Machine, s: seq<byte>, j: nat, q: nat)
    requires AlwaysTurnsRight(turn, seal)
    requires q <= |s| && Tracks(m, s, j, q) && Sound(seal, s, j, q, m.cap) && !FrameAt(s, NextMagic(s, j, q), q)
    ensures Pump(turn, m, s[q..q]).frames == [] && Tracks(Pump(turn, m, s[q..q]).m, s, NextMagic(s, j, q), q)
    ensures Pump(turn, m, s[q..q]).m.cap == m.cap
  {
    assert TurnsRight(turn, seal, m, s, j, q, q);
  }

  lemma {:induction false} AllDelivered(turn: Receiver, seal: Seal, m: Machine, s: seq<byte>, k: nat, p: nat,
      chunks: seq<seq<byte>>)
    requires AlwaysTurnsRight(turn, seal)
    requires p <= |s| && Tracks(m, s, k, p) && s[p..] == Concat(chunks) && Sound(seal, s, k, |s|, m.cap)
    ensures Delivered(PumpAll(turn, m, chunks), s, k, |s|)
    decreases |chunks|
  {
    if chunks == [] {
      assert Tracks(m, s, k, |s|);
      TracksRests(m, s, k, |s|);
    } else {
      var q := p + |chunks[0]|;
      assert s[p..q] == chunks[0] && s[q..] == Concat(chunks[1..]);
      SoundCut(seal, s, k, q, |s|, m.cap);
      FramesCut(s, k, q, |s|);
      RestCut(s, k, q, |s|);
      PumpDelivers(turn, seal, m, s, k, p, q);
      AllDelivered(turn, seal, Pump(turn, m, chunks[0]).m, s, Rest(s, k, q), q, chunks[1..]);
    }
  }

  lemma TracksRests(m: Machine, s: seq<byte>, k: nat, q: nat)
    requires Tracks(m, s, k, q)
    ensures Frames(s, k, q) == [] && Rest(s, k, q) == k
  {
  }

  lemma ParserAlwaysTurnsRight(seal: Seal)
    ensures AlwaysTurnsRight(TurnsWith(seal), seal)
  {
    forall m, s, k, p, q
      ensures TurnsRight(TurnsWith(seal), seal, m, s, k, p, q)
    {
      ParserTurnsRight(seal, m, s, k, p, q);
    }
  }

  /** Whole-run delivery: whatever the chunks, the receiving loop delivers exactly the stream's frames,
      in order, and buffers exactly the stream's unfinished frame. */
  lemma RunDelivers(seal: Seal, m: Machine, chunks: seq<seq<byte>>)
    requires m.stat == Sync && m.fifo == [] && m.left < TWO16
    requires Sound(seal, Concat(chunks), 0, |Concat(chunks)|, m.cap)
    ensures Delivered(PumpAll(TurnsWith(seal), m, chunks), Concat(chunks), 0, |Concat(chunks)|)
  {
    ParserAlwaysTurnsRight(seal);
    AllDelivered(TurnsWith(seal), seal, m, Concat(chunks), 0, 0, chunks);
  }
}
