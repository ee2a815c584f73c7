/** The packet machine of src/bscl_packet.c on values: its receive state, the bytes buffered in its
    ring, and one function per entry point saying what that entry point does to them. The methods of
    module PacketObject are proved to compute these functions on the real ring. */
module Framing {
  import opened Words
  import opened Crc

  const MAGIC: byte := 0x7e
  const HEADER: nat := 8
  const TRAILER: nat := 4

  datatype Stat = Sync | Head | Data | Trailer | Parsing

  /** stat, left, the ring's contents and the ring's size. */
  datatype Machine = Machine(stat: Stat, left: nat, fifo: seq<byte>, cap: nat) {
    /** What every entry point preserves, in whatever order they are called. */
    ghost predicate WellFormed() {
      |fifo| <= cap && left < TWO16 && (stat == Head ==> 1 <= left <= HEADER)
    }

    /** buffer_write: what does not fit is dropped. */
    function Stored(d: seq<byte>): (m: Machine)
      requires |fifo| <= cap
    {
      this.(fifo := fifo + d[..Min(|d|, cap - |fifo|)])
    }
  }

  // ----- frames

  /** The payload length in a header, at offsets 2 and 3. */
  function PayloadLen(r: seq<byte>): (n: nat)
    requires |r| >= 4
    ensures n < TWO16
  {
    Le16(r[2], r[3])
  }

  function FrameLen(r: seq<byte>): (n: nat)
    requires |r| >= 4
    ensures HEADER + TRAILER <= n
  {
    HEADER + PayloadLen(r) + TRAILER
  }

  /** r starts with all the bytes of its frame. */
  predicate Whole(r: seq<byte>) {
    |r| >= HEADER && |r| >= FrameLen(r)
  }

  /** A single complete frame. */
  predicate IsFrame(f: seq<byte>) {
    Whole(f) && f[0] == MAGIC && |f| == FrameLen(f)
  }

  /** The index of the first magic byte in s[i..e], or e. */
  function NextMagic(s: seq<byte>, i: nat, e: nat): (j: nat)
    requires i <= e <= |s|
    ensures i <= j <= e && (j < e ==> s[j] == MAGIC)
    decreases e - i
  {
    if i == e || s[i] == MAGIC then i else NextMagic(s, i + 1, e)
  }

  // ----- bscl_packet_receive

  /** The machine afterwards, the bytes taken from the chunk, and whether a packet is ready. */
  datatype Outcome = Outcome(m: Machine, used: nat, ready: bool)

  function Receive(m: Machine, b: seq<byte>): (o: Outcome)
    requires m.WellFormed()
    ensures o.used <= |b|
  {
    if m.stat == Sync then SearchStage(m, b) else HeadStage(m, b)
  }

  function SearchStage(m: Machine, b: seq<byte>): (o: Outcome)
    requires |m.fifo| <= m.cap
    ensures o.used <= |b|
  {
    var i := NextMagic(b, 0, |b|);
    if i == |b| then Outcome(m, |b|, false)
    else
      var space := m.cap - |m.fifo|;
      var len := if space < |b| - i then space + i else |b|;
      var m' := m.(stat := Head, left := HEADER);
      if i == len then Outcome(m', len, false)
      else
        var o := HeadStage(m', b[i..len]);
        o.(used := i + o.used)
  }

  /** Where the search leaves off: how much of the chunk the ring's space allows, from a magic byte at i on. */
  function Clamp(m: Machine, b: seq<byte>, i: nat): int
    requires i <= |b|
  {
    if i < |b| && m.cap - |m.fifo| < |b| - i then m.cap - |m.fifo| + i else |b|
  }

  lemma SearchEndsHere(m: Machine, b: seq<byte>, i: nat, len: nat)
    requires |m.fifo| <= m.cap && i == NextMagic(b, 0, |b|) && len == Clamp(m, b, i) && i == len
    ensures SearchStage(m, b) == Outcome(if i == |b| then m else m.(stat := Head, left := HEADER), len, false)
  {
  }

  lemma {:induction false} SearchGoesOn(m: Machine, b: seq<byte>, i: nat, len: nat, part: seq<byte>, h: Outcome)
    requires |m.fifo| <= m.cap && i == NextMagic(b, 0, |b|) && i < |b| && len == Clamp(m, b, i) && i < len
    requires part == b[i..len] && h == HeadStage(m.(stat := Head, left := HEADER), part)
    ensures SearchStage(m, b) == h.(used := i + h.used)
  {
  }

  function HeadStage(m: Machine, d: seq<byte>): (o: Outcome)
    requires |m.fifo| <= m.cap && (m.stat == Head ==> m.left <= HEADER)
    ensures o.used <= |d|
  {
    if m.stat != Head then DataStage(m, d)
    else if |d| < m.left then Outcome(m.(left := m.left - |d|).Stored(d), |d|, false)
    else DataStage(m.(stat := Data, left := (m.left + LenAhead(m.fifo, m.left, d)) % TWO16), d)
  }

  function Peek(s: seq<byte>, i: nat): byte {
    if i < |s| then s[i] else 0
  }

  /** Byte i of a header whose last left bytes open the chunk d: from the ring if it is there yet. */
  function HeaderByte(fifo: seq<byte>, left: nat, d: seq<byte>, i: nat): byte
    requires i < HEADER && left <= HEADER && left <= |d|
  {
    var have := HEADER - left;
    if i < have then Peek(fifo, i) else d[i - have]
  }

  /** The length field of that header; it may be split between ring and chunk. */
  function LenAhead(fifo: seq<byte>, left: nat, d: seq<byte>): (n: nat)
    requires left <= HEADER && left <= |d|
    ensures n < TWO16
  {
    Le16(HeaderByte(fifo, left, d, 2), HeaderByte(fifo, left, d, 3))
  }

  function DataStage(m: Machine, d: seq<byte>): (o: Outcome)
    requires |m.fifo| <= m.cap
    ensures o.used <= |d|
  {
    if m.stat != Data then TrailerStage(m, d)
    else if |d| < m.left then Outcome(m.(left := m.left - |d|).Stored(d), |d|, false)
    else TrailerStage(m.(stat := Trailer, left := (m.left + TRAILER) % TWO16), d)
  }

  function TrailerStage(m: Machine, d: seq<byte>): (o: Outcome)
    requires |m.fifo| <= m.cap
    ensures o.used <= |d|
  {
    if m.stat != Trailer then Outcome(m, |d|, false)
    else if |d| < m.left then Outcome(m.(left := m.left - |d|).Stored(d), |d|, false)
    else Outcome(m.Stored(d[..m.left]), m.left, true)
  }

  // ----- bscl_packet_receive_byte

  /** The machine afterwards and whether the caller should parse. */
  datatype ByteOutcome = ByteOutcome(m: Machine, parse: bool)

  /** stale is what lies in the ring just behind the byte being received. */
  function ReceiveByte(m: Machine, c: byte, stale: byte): ByteOutcome
    requires m.WellFormed()
  {
    var m' := m.Stored([c]);
    if |m'.fifo| == m.cap then GiveUp(m') else CountByte(m', c, stale)
  }

  /** The state change for a byte c that has just been buffered with room to spare. The length is taken from
      one byte, and with exactly two bytes buffered that byte is the stale one. */
  function CountByte(m: Machine, c: byte, stale: byte): ByteOutcome
    requires m.fifo != []
  {
    match m.stat
    case Sync =>
      if c == MAGIC then ByteOutcome(m.(stat := Head, left := HEADER - 1), false)
      else ByteOutcome(m.(fifo := m.fifo[1..]), false)
    case Head =>
      if m.left != 1 then ByteOutcome(m.(left := (m.left - 1) % TWO16), false)
      else if |m.fifo| < 2 then GiveUp(m.(left := 0))
      else
        var len := (if |m.fifo| == 2 then stale else m.fifo[2]) as nat;
        ByteOutcome(if len == 0 then m.(stat := Trailer, left := TRAILER) else m.(stat := Data, left := len), false)
    case Data =>
      if m.left != 1 then ByteOutcome(m.(left := (m.left - 1) % TWO16), false)
      else ByteOutcome(m.(stat := Trailer, left := TRAILER), false)
    case Trailer =>
      if m.left != 1 then ByteOutcome(m.(left := (m.left - 1) % TWO16), false)
      else ByteOutcome(m.(stat := Parsing, left := 0), true)
    case Parsing => GiveUp(m)
  }

  /** A full ring or a second packet before the first is parsed: ask for a parse once. */
  function GiveUp(m: Machine): ByteOutcome {
    ByteOutcome(m.(stat := Parsing), m.stat != Parsing)
  }

  // ----- bscl_packet_resync

  /** Resynchronisation stops at a magic byte whose header is incomplete or whose frame could fit. */
  predicate StopsAt(fifo: seq<byte>, cap: nat, p: nat) {
    && p < |fifo| && fifo[p] == MAGIC
    && (|fifo| - p < HEADER || FrameLen(fifo[p..]) <= cap)
  }

  /** The state resynchronisation leaves when the ring holds r. */
  function Resynced(m: Machine, r: seq<byte>): (o: ByteOutcome) {
    var n := |r|;
    if n < HEADER then ByteOutcome(m.(stat := Head, left := HEADER - n, fifo := r), false)
    else
      var len := PayloadLen(r);
      if n < HEADER + len then ByteOutcome(m.(stat := Data, left := HEADER + len - n, fifo := r), false)
      else if n < HEADER + len + TRAILER then
        ByteOutcome(m.(stat := Trailer, left := HEADER + len + TRAILER - n, fifo := r), false)
      else ByteOutcome(m.(stat := Parsing, fifo := r), true)
  }

  // ----- bscl_packet_parse

  datatype Message = Message(msgid: byte, seqno: nat, payload: seq<byte>)

  /** The return codes; the last two deliver a frame, and tell whether bytes are left behind it. */
  datatype Verdict = NoHead | Error | NoCrc | BadCrc | More(frame: seq<byte>) | Again(frame: seq<byte>) {
    function Code(): int {
      match this
      case More(_) => 0     // BSCL_PACKET_MOREDATA
      case Again(_) => 2    // BSCL_PACKET_RESYNC
      case Error => -1      // BSCL_PACKET_ERROR
      case BadCrc => -2     // BSCL_PACKET_BADCRC
      case NoHead => -3     // BSCL_PACKET_ERROR_NOHEAD
      case NoCrc => -4      // BSCL_PACKET_ERROR_NOCRC
    }

    /** A frame is handed out. */
    predicate Delivers() {
      More? || Again?
    }
  }

  /** packet_crc_buffer over header and payload. */
  function BodyChecksum(poly: bv32, body: seq<byte>): bv32 {
    Checksum(poly, EveryChunk(|body|), body, 0)
  }

  /** What the caller is handed for a delivered frame. */
  function MessageOf(f: seq<byte>): Message
    requires Whole(f)
  {
    Message(f[1], Number32(f[4..8]), f[HEADER..HEADER + PayloadLen(f)])
  }

  /** Whether a complete frame passes the trailer check. */
  type Seal = seq<byte> -> bool

  /** The check bscl_packet_parse makes: the trailer is the checksum of header and payload. */
  predicate Sealed(poly: bv32, f: seq<byte>) {
    |f| >= TRAILER
    && var end := |f| - TRAILER;
       Le32(f[end..]) == BodyChecksum(poly, f[..end])
  }

  function CrcSeal(poly: bv32): Seal {
    f => Sealed(poly, f)
  }

  /** The tests parsing makes, in order. */
  function Judge(seal: Seal, m: Machine): Verdict {
    var r := m.fifo;
    if |r| < HEADER then NoHead
    else if PayloadLen(r) > m.cap then Error
    else if |r| < FrameLen(r) then NoCrc
    else if !seal(r[..FrameLen(r)]) then BadCrc
    else if |r| > FrameLen(r) then Again(r[..FrameLen(r)])
    else More(r)
  }

  function Parse(seal: Seal, m: Machine): (Machine, Verdict) {
    var v := Judge(seal, m);
    match v
    case NoHead | NoCrc => (m, v)
    case Error | BadCrc => (m.(fifo := m.fifo[1..]), v)
    case Again(f) => (m.(fifo := m.fifo[|f|..]), v)
    case More(_) => (m.(stat := Sync, fifo := []), v)
  }

  // ----- what the ring keeps

  /** Inside a frame the ring keeps, as far as it has room, exactly the bytes that are taken. When a packet is ready,
      the count of bytes left is still what this call has taken. */
  lemma StagesKeep(m: Machine, d: seq<byte>)
    requires m.WellFormed() && (m.stat == Head || m.stat == Data || m.stat == Trailer)
    ensures var o := HeadStage(m, d);
            && o.m.fifo == m.Stored(d[..o.used]).fifo && (o.ready || o.used == |d|)
            && (o.ready ==> o.m.stat == Trailer && o.m.left == o.used)
  {
    assert d[..|d|] == d;
  }

  /** The search, whatever is in the ring already: bytes before the first magic byte are lost, all others that are
      taken are kept, and the chunk is not taken whole only if a packet is ready or the ring is full. */
  lemma SearchKeeps(m: Machine, b: seq<byte>)
    requires m.WellFormed() && m.stat == Sync
    ensures var o, i := Receive(m, b), NextMagic(b, 0, |b|);
            && i <= o.used && o.m.fifo == m.fifo + b[i..o.used]
            && (o.used == |b| || o.ready || |o.m.fifo| == m.cap)
            && (o.ready ==> o.m.stat == Trailer && o.m.left == o.used - i)
            && (i < |b| && |m.fifo| == m.cap ==> o == Outcome(m.(stat := Head, left := 8), i, false))
  {
    var i, len := NextMagic(b, 0, |b|), Clamp(m, b, NextMagic(b, 0, |b|));
    if i < len {
      var h := m.(stat := Head, left := HEADER);
      var d := b[i..len];
      SearchGoesOn(m, b, i, len, d, HeadStage(h, d));
      StagesKeep(h, d);
      AllFits(h, d, HeadStage(h, d).used);
      assert d[..HeadStage(h, d).used] == b[i..i + HeadStage(h, d).used];
    } else {
      SearchEndsHere(m, b, i, len);
    }
  }

  /** So, unless the packet is parsed, the chunk receiver counts the same bytes once more and then signals again. */
  lemma SignalsAgainAfter(m: Machine, d: seq<byte>)
    requires m.WellFormed() && m.stat == Trailer
    ensures var o := Receive(m, d);
            && (o.ready <==> |d| >= m.left) && o.used == Min(|d|, m.left)
            && o.m == m.(fifo := m.Stored(d[..o.used]).fifo, left := if o.ready then m.left else m.left - |d|)
  {
    assert d[..|d|] == d;
  }

  lemma AllFits(m: Machine, d: seq<byte>, n: nat)
    requires n <= |d| <= m.cap - |m.fifo|
    ensures m.Stored(d[..n]).fifo == m.fifo + d[..n]
  {
    assert d[..n][..n] == d[..n];
  }

  /** Where the length field's two bytes come from when the header's last left bytes open the chunk d: from the chunk
      as far as they are there, else from the ring, and zero where the ring lacks them. */
  lemma LengthField(fifo: seq<byte>, left: nat, d: seq<byte>)
    requires left <= 8 && left <= |d|
    ensures left >= 6 ==> LenAhead(fifo, left, d) == d[left - 6] as nat + 256 * (d[left - 5] as nat)
    ensures left == 5 ==> LenAhead(fifo, left, d) == Peek(fifo, 2) as nat + 256 * (d[0] as nat)
    ensures left <= 4 ==> LenAhead(fifo, left, d) == Peek(fifo, 2) as nat + 256 * (Peek(fifo, 3) as nat)
    ensures |fifo| <= 2 ==> Peek(fifo, 2) == 0
    ensures |fifo| <= 3 ==> Peek(fifo, 3) == 0
  {
  }

  /** How many bytes of a chunk end the packet, with the count's 16 bits; nothing if the chunk ends in the payload. */
  lemma PayloadDue(m: Machine, d: seq<byte>)
    requires m.WellFormed() && m.stat == Data
    ensures var o, due := Receive(m, d), (m.left + 4) % 65536;
            if |d| < m.left then
              !o.ready && o.used == |d| && o.m == m.(fifo := m.Stored(d).fifo, left := m.left - |d|)
            else
              && (o.ready <==> |d| >= due) && o.used == Min(|d|, due)
              && o.m == m.(stat := Trailer, fifo := m.Stored(d[..o.used]).fifo,
                           left := if o.ready then due else due - |d|)
  {
    assert d[..|d|] == d;
  }

  lemma HeaderUnfinished(m: Machine, d: seq<byte>)
    requires m.WellFormed() && m.stat == Head && |d| < m.left
    ensures Receive(m, d) == Outcome(m.(fifo := m.Stored(d).fifo, left := m.left - |d|), |d|, false)
  {
  }

  /** The header's last bytes lead on to the payload, with the count the length field gives. */
  lemma HeaderDue(m: Machine, d: seq<byte>, len: nat, next: Machine)
    requires m.WellFormed() && m.stat == Head && |d| >= m.left && len == LenAhead(m.fifo, m.left, d)
    requires next == m.(stat := Data, left := (m.left + len) % 65536)
    ensures next.WellFormed() && Receive(m, d) == Receive(next, d)
  {
    assert HeadStage(m, d) == DataStage(next, d);
  }

  /** A byte that comes in the search: a magic byte starts a header, any other pushes the oldest byte out. */
  lemma SearchByte(m: Machine, c: byte, stale: byte)
    requires m.WellFormed() && m.stat == Sync && |m.fifo| + 1 < m.cap
    ensures ReceiveByte(m, c, stale) ==
            ByteOutcome(if c == 0x7e then Machine(Head, 7, m.fifo + [c], m.cap)
                        else Machine(Sync, m.left, (m.fifo + [c])[1..], m.cap), false)
  {
    assert [c][..1] == [c];
  }

  /** A byte with which the ring is full, or that finds it full. */
  lemma FullRing(m: Machine, c: byte, stale: byte)
    requires m.WellFormed() && |m.fifo| + 1 >= m.cap
    ensures ReceiveByte(m, c, stale) ==
            ByteOutcome(Machine(Parsing, m.left, (m.fifo + [c])[..m.cap], m.cap), m.stat != Parsing)
  {
    assert [c][..1] == [c] && [c][..0] == [];
    assert |m.fifo| == m.cap ==> (m.fifo + [c])[..m.cap] == m.fifo;
    assert |m.fifo| < m.cap ==> (m.fifo + [c])[..m.cap] == m.fifo + [c];
  }

  /** The last header byte c, received singly: the length is the third byte in the ring, the stale byte if there are
      only two, and with one byte there the parse is asked for. */
  lemma LengthByte(m: Machine, c: byte, stale: byte)
    requires m.WellFormed() && m.stat == Head && m.left == 1 && |m.fifo| + 1 < m.cap
    ensures var o, n := ReceiveByte(m, c, stale), |m.fifo|;
            && o.m.fifo == m.fifo + [c] && o.m.cap == m.cap && (o.parse <==> n == 0)
            && (n == 0 ==> o.m.stat == Parsing && o.m.left == 0)
            && (n > 0 ==>
                  var len := if n == 1 then stale else if n == 2 then c else m.fifo[2];
                  if len == 0 then o.m.stat == Trailer && o.m.left == 4
                  else o.m.stat == Data && o.m.left == len as nat)
  {
    assert [c][..1] == [c];
  }

  /** A count of zero wraps. */
  lemma CountWraps(m: Machine, c: byte, stale: byte)
    requires m.WellFormed() && (m.stat == Data || m.stat == Trailer) && m.left == 0 && |m.fifo| + 1 < m.cap
    ensures ReceiveByte(m, c, stale) == ByteOutcome(Machine(m.stat, 65535, m.fifo + [c], m.cap), false)
  {
    assert [c][..1] == [c];
  }

  /** The code and what it leaves in the ring, in terms of the bytes there; len is the payload length they declare. */
  lemma ParseAnswers(seal: Seal, m: Machine, len: nat)
    requires |m.fifo| >= 4 ==> len == m.fifo[2] as nat + 256 * (m.fifo[3] as nat)
    ensures var p, r := Parse(seal, m), m.fifo;
            var code := p.1.Code();
            && (code == -3 <==> |r| < 8)
            && (code == -1 <==> |r| >= 8 && len > m.cap)
            && (code == -4 <==> |r| >= 8 && len <= m.cap && |r| < 12 + len)
            && (code == -2 <==> |r| >= 8 && len <= m.cap && |r| >= 12 + len && !seal(r[..12 + len]))
            && (code == -3 || code == -4 ==> p.0 == m)
            && (code == -1 || code == -2 ==> p.0 == m.(fifo := r[1..]))
            && (code >= 0 ==> p.1.Delivers() && p.1.frame == r[..12 + len] && p.0.fifo == r[12 + len..])
            && (code == 0 ==> p.0.fifo == [] && p.0.stat == Sync)
            && (code > 0 ==> code == 2 && p.0.fifo != [] && p.0.stat == m.stat)
            && p.0.left == m.left && p.0.cap == m.cap
  {
  }

  /** What a delivered frame says, byte by byte. */
  lemma MessageBytes(f: seq<byte>, len: nat)
    requires Whole(f) && len == f[2] as nat + 256 * (f[3] as nat)
    ensures var m := MessageOf(f);
            && m.msgid == f[1] && m.payload == f[8..8 + len]
            && m.seqno == f[4] as nat + 0x100 * (f[5] as nat) + 0x1_0000 * (f[6] as nat) + 0x100_0000 * (f[7] as nat)
  {
  }

  // ----- the state invariant

  lemma ReceiveStaysWellFormed(m: Machine, b: seq<byte>)
    requires m.WellFormed()
    ensures Receive(m, b).m.WellFormed() && Receive(m, b).m.cap == m.cap
  {
    if m.stat == Sync {
      SearchStaysWellFormed(m, b);
    } else {
      StagesStayWellFormed(m, b);
    }
  }

  lemma SearchStaysWellFormed(m: Machine, b: seq<byte>)
    requires m.WellFormed()
    ensures SearchStage(m, b).m.WellFormed() && SearchStage(m, b).m.cap == m.cap
  {
    var i := NextMagic(b, 0, |b|);
    var space := m.cap - |m.fifo|;
    var len := if space < |b| - i then space + i else |b|;
    if i < len {
      StagesStayWellFormed(m.(stat := Head, left := HEADER), b[i..len]);
    }
  }

  lemma StagesStayWellFormed(m: Machine, d: seq<byte>)
    requires m.WellFormed() && m.stat != Sync
    ensures HeadStage(m, d).m.WellFormed() && HeadStage(m, d).m.cap == m.cap
  {
  }

  lemma ReceiveByteStaysWellFormed(m: Machine, c: byte, stale: byte)
    requires m.WellFormed()
    ensures ReceiveByte(m, c, stale).m.WellFormed() && ReceiveByte(m, c, stale).m.cap == m.cap
  {
  }

  lemma ResyncedStaysWellFormed(m: Machine, r: seq<byte>)
    requires m.left < TWO16 && |r| <= m.cap
    ensures Resynced(m, r).m.WellFormed() && Resynced(m, r).m.cap == m.cap
  {
  }

  lemma ParseStaysWellFormed(seal: Seal, m: Machine)
    requires m.WellFormed()
    ensures Parse(seal, m).0.WellFormed() && Parse(seal, m).0.cap == m.cap
  {
  }

  // ----- bscl_packet_write

  /** The header and payload bscl_packet_write lays out. A length of more than 16 bits is truncated in
      the header only. */
  function Body(msgid: byte, seqno: nat, payload: seq<byte>): (body: seq<byte>)
    requires seqno < TWO32
    ensures |body| == HEADER + |payload|
  {
    [MAGIC, msgid] + Le16Bytes(|payload| % TWO16) + Number32Bytes(seqno) + payload
  }

  /** The whole frame: its trailer chains the header's checksum into the payload's. */
  function FrameBytes(poly: bv32, msgid: byte, seqno: nat, payload: seq<byte>): seq<byte>
    requires seqno < TWO32
  {
    var body := Body(msgid, seqno, payload);
    body + Le32Bytes(Checksum(poly, AfterHeader(|body|), body, 0))
  }

  /** A packet of one byte, as bscl_packet_write lays it out before the trailer. */
  lemma WrittenExample()
    ensures Body(5, 0x0403_0201, [9]) == [0x7e, 5, 1, 0, 1, 2, 3, 4, 9]
  {
  }

  /** packet_crc_buffer makes a call for every 256 bytes. */
  lemma BodyChecksumCalls(poly: bv32, body: seq<byte>)
    requires body != []
    ensures BodyChecksum(poly, body) == CallsOf256(poly, body, 0)
    ensures 256 < |body| <= 512 ==>
      BodyChecksum(poly, body) == Crc32(poly, body[256..], Crc32(poly, body[..256], 0))
  {
    ChunksAreCalls(poly, body);
  }
}
