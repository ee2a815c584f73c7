/** The packet object of src/bscl_packet.c: a ring, the receive state and the count of bytes left. Each
    method is proved to compute the function of the same name in module Framing. */
module PacketObject {
  import opened Words
  import opened RingBuffer
  import opened Crc
  import opened Framing
  import opened Streams
  import opened Receivers

  datatype Option<T> = None | Some(value: T)

  /** bscl_packet_msginf_t. */
  datatype Info = Info(len: nat, msgid: byte, seqno: nat)

  class Packet {
    const mo: Buffer
    const table: seq<bv32>  // crc32_table, filled before packets are handled
    ghost const poly: bv32  // the polynomial it was made from
    var stat: Stat
    var left: nat

    ghost predicate Valid()
      reads this, mo
    {
      mo.Valid() && mo.size < 0x8000_0000 && left < TWO16 && MadeFrom(table, poly)
    }

    /** The object as a value. */
    ghost function View(): (m: Machine)
      requires Valid()
      reads this, mo, mo.buf
    {
      Machine(stat, left, mo.Contents(), mo.size)
    }

    constructor (mem: array<byte>, size: nat, table: seq<bv32>, ghost poly: bv32)
      requires IsRingSize(size) && size < 0x8000_0000 && mem.Length == size && MadeFrom(table, poly)
      ensures Valid() && fresh(mo) && mo.buf == mem && View() == Machine(Sync, 0, [], size)
    {
      mo := new Buffer(mem, size);
      this.table, this.poly := table, poly;
      stat, left := Sync, 0;
    }

    // ----- receiving a chunk

    /** bscl_packet_receive; used is what the caller's *size is set to. */
    method Receive(buf: seq<byte>) returns (ready: bool, used: nat)
      requires Valid() && View().WellFormed() && |buf| < 0x8000_0000
      modifies this, mo, mo.buf
      ensures Valid() && View().WellFormed()
      ensures Outcome(View(), used, ready) == Framing.Receive(old(View()), buf)
    {
      ReceiveStaysWellFormed(View(), buf);
      if stat == Sync {
        ready, used := TakeFromMagic(buf);
      } else {
        ready, used := TakeHead(buf);
      }
    }

    /** Skips to a magic byte and goes on from there. */
    method TakeFromMagic(buf: seq<byte>) returns (ready: bool, used: nat)
      requires Valid() && |buf| < 0x8000_0000
      modifies this, mo, mo.buf
      ensures Valid() && Outcome(View(), used, ready) == SearchStage(old(View()), buf)
    {
      ghost var m := View();
      var i, len := Search(buf);
      if i == len {
        SearchEndsHere(m, buf, i, len);
        return false, len;
      }
      ghost var h := HeadStage(View(), buf[i..len]);
      SearchGoesOn(m, buf, i, len, buf[i..len], h);
      ready, used := TakeHead(buf[i..len]);
      used := i + used;
    }

    /** The search for a magic byte: its index, and the end of the chunk clamped to the free space. */
    method Search(buf: seq<byte>) returns (i: nat, len: nat)
      requires Valid() && |buf| < 0x8000_0000
      modifies this`stat, this`left
      ensures Valid() && i == NextMagic(buf, 0, |buf|) <= len <= |buf|
      ensures if i == |buf| then len == i && View() == old(View())
              else
                && View() == old(View()).(stat := Head, left := HEADER)
                && len == if mo.size - |View().fifo| < |buf| - i then mo.size - |View().fifo| + i else |buf|
    {
      var space := mo.GetSpace();
      i, len := 0, |buf|;
      while i < len && buf[i] != MAGIC
        invariant i <= len && NextMagic(buf, i, len) == NextMagic(buf, 0, len)
      {
        i := i + 1;
      }
      if i < len {
        if space < len - i {
          len := space + i;
        }
        stat, left := Head, HEADER;
      }
    }

    /** The header stage and what follows it, on the rest d of the chunk. */
    method TakeHead(d: seq<byte>) returns (ready: bool, used: nat)
      requires Valid() && |d| < 0x8000_0000 && (stat == Head ==> left <= HEADER)
      modifies this, mo, mo.buf
      ensures Valid() && Outcome(View(), used, ready) == HeadStage(old(View()), d)
    {
      if stat == Head {
        if |d| < left {
          left := left - |d|;
          Keep(d);
          return false, |d|;
        }
        ReadHead(d);
      }
      ready, used := TakeData(d);
    }

    /** The header is complete: the length it gives joins the count. */
    method ReadHead(d: seq<byte>)
      requires Valid() && stat == Head && left <= HEADER && left <= |d|
      modifies this`stat, this`left
      ensures Valid()
      ensures var m := old(View()); View() == m.(stat := Data, left := (m.left + LenAhead(m.fifo, m.left, d)) % TWO16)
    {
      var field := ReadLength(d);
      stat := Data;
      left := (left + field) % TWO16;
    }

    /** The three ways of picking up the length field when the header's last left bytes open d. */
    method ReadLength(d: seq<byte>) returns (field: nat)
      requires Valid() && left <= HEADER && left <= |d|
      ensures field == LenAhead(View().fifo, left, d)
    {
      var len := new byte[2](_ => 0);
      var have := HEADER - left;
      if have <= 2 {
        len[0], len[1] := d[2 - have], d[3 - have];
      } else if have == 3 {
        var n := mo.Copy(2, len, 1);
        len[1] := d[0];
      } else {
        var n := mo.Copy(2, len, 2);
      }
      field := Le16(len[0], len[1]);
    }

    method TakeData(d: seq<byte>) returns (ready: bool, used: nat)
      requires Valid() && |d| < 0x8000_0000
      modifies this, mo, mo.buf
      ensures Valid() && Outcome(View(), used, ready) == DataStage(old(View()), d)
    {
      if stat == Data {
        if |d| < left {
          left := left - |d|;
          Keep(d);
          return false, |d|;
        }
        stat := Framing.Trailer;
        left := (left + TRAILER) % TWO16;
      }
      ready, used := TakeTrailer(d);
    }

    method TakeTrailer(d: seq<byte>) returns (ready: bool, used: nat)
      requires Valid() && |d| < 0x8000_0000
      modifies this, mo, mo.buf
      ensures Valid() && Outcome(View(), used, ready) == TrailerStage(old(View()), d)
    {
      if stat == Framing.Trailer {
        if |d| < left {
          left := left - |d|;
          Keep(d);
          return false, |d|;
        }
        Keep(d[..left]);
        return true, left;
      }
      return false, |d|;
    }

    /** buffer_write with its result ignored. */
    method Keep(d: seq<byte>)
      requires Valid() && |d| < 0x8000_0000
      modifies mo, mo.buf
      ensures Valid() && View() == old(View()).Stored(d)
    {
      var n := mo.Write(d);
    }
  
    // ----- receiving a byte

    /** bscl_packet_receive_byte. */
    method ReceiveByte(c: byte) returns (parse: bool)
      requires Valid() && View().WellFormed()
      modifies this, mo, mo.buf
      ensures Valid() && View().WellFormed()
      ensures ByteOutcome(View(), parse) == Framing.ReceiveByte(old(View()), c, old(mo.Behind(1)))
    {
      ReceiveByteStaysWellFormed(View(), c, mo.Behind(1));
      ghost var m, stale := View(), mo.Behind(1);
      var ok := mo.Putc(c);
      assert [c][..1] == [c] && [c][..0] == [];
      assert mo.Contents() == m.Stored([c]).fifo;
      var space := mo.GetSpace();
      if space == 0 {
        parse := GiveUp();
        return;
      }
      parse := CountByte(c, stale);
    }

    /** The switch over the receive state, for a byte just buffered. */
    method CountByte(c: byte, ghost stale: byte) returns (parse: bool)
      requires Valid() && View().fifo != [] && stale == mo.Stale()
      modifies this, mo`rdp
      ensures Valid() && ByteOutcome(View(), parse) == Framing.CountByte(old(View()), c, stale)
    {
      match stat {
        case Sync =>
          if c == MAGIC {
            stat, left := Head, HEADER - 1;
          } else {
            var n := mo.Drop(1);
          }
        case Head =>
          parse := CountHeader(c, stale);
          return;
        case Data =>
          left := (left - 1) % TWO16;
          if left == 0 {
            stat, left := Framing.Trailer, TRAILER;
          }
        case Trailer =>
          left := (left - 1) % TWO16;
          if left == 0 {
            stat := Parsing;
            return true;
          }
        case Parsing =>
          parse := GiveUp();
          return;
      }
      return false;
    }

    /** The header's case: with the last byte, one byte of the length is looked up in the ring. */
    method CountHeader(ghost c: byte, ghost stale: byte) returns (parse: bool)
      requires Valid() && stat == Head && View().fifo != [] && stale == mo.Stale()
      modifies this
      ensures Valid() && ByteOutcome(View(), parse) == Framing.CountByte(old(View()), c, stale)
    {
      left := (left - 1) % TWO16;
      if left == 0 {
        mo.WriteSlot();
        var len := mo.CopyChar(2);
        if len < 0 {
          parse := GiveUp();
          return;
        }
        left := len;
        stat := Data;
        if left == 0 {
          stat, left := Framing.Trailer, TRAILER;
        }
      }
      return false;
    }

    method GiveUp() returns (parse: bool)
      requires Valid()
      modifies this`stat
      ensures Valid() && ByteOutcome(View(), parse) == Framing.GiveUp(old(View()))
    {
      parse := stat != Parsing;
      stat := Parsing;
    }

    // ----- resynchronisation

    /** bscl_packet_resync, where its search ends (Receivers.SearchEndsIff): it drops exactly the bytes
        before the first stopping place, or all of them if only the stale byte ends the search. */
    method Resync() returns (ready: bool)
      requires Valid() && CanResync(mo.Contents(), mo.size, mo.Stale())
      modifies this`stat, this`left, mo`rdp
      ensures Valid() && View().WellFormed()
      ensures var fifo := old(View()).fifo;
              ByteOutcome(View(), ready) == Resynced(AtRest(old(left), mo.size), fifo[FirstStop(fifo, mo.size, 0)..])
    {
      ghost var fifo, was := mo.Contents(), left;
      ghost var k := 0;
      var stopped := false;
      ready := false;
      while !stopped
        invariant Valid() && k <= |fifo|
        invariant !stopped ==> left == was && mo.Contents() == fifo[k..]
        invariant !stopped ==> FirstStop(fifo, mo.size, k) == FirstStop(fifo, mo.size, 0)
        invariant stopped ==> Settled(fifo, was, ready)
        decreases |fifo| - k, !stopped
      {
        stopped, ready, k := SearchOn(fifo, k);
      }
    }

    /** The state resynchronisation leaves. */
    ghost predicate Settled(fifo: seq<byte>, was: nat, ready: bool)
      requires Valid()
      reads this, mo, mo.buf
    {
      && ByteOutcome(View(), ready) == Resynced(AtRest(was, mo.size), fifo[FirstStop(fifo, mo.size, 0)..])
      && View().WellFormed()
    }

    /** One turn of the outer loop: on to the next magic byte, and stop there or drop it. */
    method SearchOn(ghost fifo: seq<byte>, ghost k: nat) returns (stopped: bool, ready: bool, ghost j: nat)
      requires Valid() && CanResync(fifo, mo.size, mo.Stale())
      requires k <= |fifo| && mo.Contents() == fifo[k..] && FirstStop(fifo, mo.size, k) == FirstStop(fifo, mo.size, 0)
      modifies this`stat, this`left, mo`rdp
      ensures Valid() && mo.Stale() == old(mo.Stale()) && k <= j <= |fifo|
      ensures stopped ==> Settled(fifo, old(left), ready)
      ensures !stopped ==> k < j && left == old(left) && mo.Contents() == fifo[j..]
      ensures !stopped ==> FirstStop(fifo, mo.size, j) == FirstStop(fifo, mo.size, 0)
    {
      stat := Sync;
      j := SkipToMagic(fifo, k);
      StopHere(fifo, mo.size, j);
      stopped, ready := TryHere();
      if !stopped {
        j := j + 1;
      }
    }

    /** At a magic byte: settles the state for what follows it, or drops it when its frame cannot fit. */
    method TryHere() returns (stopped: bool, ready: bool)
      requires Valid()
      modifies this`stat, this`left, mo`rdp
      ensures Valid()
      ensures var r := old(View()).fifo;
              && (stopped <==> |r| < HEADER || FrameLen(r) <= mo.size)
              && (stopped ==> ByteOutcome(View(), ready) == Resynced(AtRest(old(left), mo.size), r))
              && (stopped ==> View().WellFormed())
              && (!stopped ==> mo.Contents() == r[1..] && left == old(left))
    {
      ResyncedStaysWellFormed(AtRest(left, mo.size), View().fifo);
      var count := mo.GetCount();
      stat := Head;
      if count < HEADER {
        left := HEADER - count;
        return true, false;
      }
      stopped, ready := TryFrame(count);
    }

    /** The same once the header is there. */
    method TryFrame(count: nat) returns (stopped: bool, ready: bool)
      requires Valid() && count == |View().fifo| && HEADER <= count
      modifies this`stat, this`left, mo`rdp
      ensures Valid()
      ensures var r := old(View()).fifo;
              && (stopped <==> FrameLen(r) <= mo.size)
              && (stopped ==> ByteOutcome(View(), ready) == Resynced(AtRest(old(left), mo.size), r))
              && (!stopped ==> mo.Contents() == r[1..] && left == old(left))
    {
      var len := BufferedLength();
      if len + HEADER + TRAILER > mo.size {
        var n := mo.Drop(1);
        return false, false;
      }
      ready := Classify(count, len);
      stopped := true;
    }

    /** Drops bytes up to a magic byte. */
    method SkipToMagic(ghost fifo: seq<byte>, ghost k: nat) returns (ghost j: nat)
      requires Valid() && CanResync(fifo, mo.size, mo.Stale())
      requires k <= |fifo| && mo.Contents() == fifo[k..] && FirstStop(fifo, mo.size, k) == FirstStop(fifo, mo.size, 0)
      modifies mo`rdp
      ensures Valid() && k <= j <= |fifo| && mo.Contents() == fifo[j..]
      ensures FirstStop(fifo, mo.size, j) == FirstStop(fifo, mo.size, 0)
      ensures j < |fifo| ==> fifo[j] == MAGIC
    {
      j := k;
      while true
        invariant Valid() && k <= j <= |fifo| && mo.Contents() == fifo[j..]
        invariant FirstStop(fifo, mo.size, j) == FirstStop(fifo, mo.size, 0)
        decreases |fifo| - j
      {
        var c := mo.CopyFirst();
        if c == MAGIC {
          return;
        }
        assert j < |fifo|;
        var n := mo.Drop(1);
        j := j + 1;
      }
    }

    /** The length field of a header in the ring. */
    method BufferedLength() returns (len: nat)
      requires Valid() && |View().fifo| >= HEADER
      ensures len == PayloadLen(View().fifo)
    {
      var head := new byte[HEADER];
      var n := mo.Copy(0, head, HEADER);
      assert head[..] == mo.Contents()[0..HEADER];
      len := Le16(head[2], head[3]);
    }

    /** How far the frame in the ring has come. */
    method Classify(count: nat, len: nat) returns (ready: bool)
      requires Valid() && count == |View().fifo| && HEADER <= count && len == PayloadLen(View().fifo)
      modifies this`stat, this`left
      ensures Valid() && ByteOutcome(View(), ready) == Resynced(AtRest(old(left), mo.size), View().fifo)
    {
      stat := Data;
      if count < HEADER + len {
        left := len - (count - HEADER);
        return false;
      }
      stat := Framing.Trailer;
      if count < HEADER + len + TRAILER {
        left := TRAILER - (count - HEADER - len);
        return false;
      }
      stat := Parsing;
      return true;
    }
  
    // ----- writing

    /** bscl_packet_write: the whole frame, or nothing if it does not fit. */
    method Write(msgid: byte, seqno: nat, data: seq<byte>) returns (code: int)
      requires Valid() && seqno < TWO32 && HEADER + |data| + TRAILER < 0x8000_0000
      modifies mo`wrp, mo.buf
      ensures Valid() && (old(View()).WellFormed() ==> View().WellFormed())
      ensures var m := old(View());
              var f := FrameBytes(poly, msgid, seqno, data);
              if |m.fifo| + |f| > m.cap then code == -1 && View() == m
              else code == 0 && View() == m.(fifo := m.fifo + f)
    {
      var head := [MAGIC, msgid] + Le16Bytes(|data| % TWO16) + Number32Bytes(seqno);
      var space := mo.GetSpace();
      if |data| + HEADER + TRAILER > space {
        return -1;
      }
      var trailer := SealOf(head, data);
      assert head + data == Body(msgid, seqno, data);
      code := Emit(head, data, trailer);
    }

    /** The writer's trailer: the header's checksum carried on over the payload. */
    method SealOf(head: seq<byte>, data: seq<byte>) returns (trailer: seq<byte>)
      requires Valid() && |head| == HEADER
      ensures |trailer| == TRAILER
      ensures trailer == Le32Bytes(Checksum(poly, AfterHeader(|head + data|), head + data, 0))
    {
      var checksum := ComputeCrc32(table, poly, head, 0);
      checksum := ComputeCrc32(table, poly, data, checksum);
      HeaderThenPayload(poly, head, data);
      trailer := Le32Bytes(checksum);
    }

    method Emit(head: seq<byte>, data: seq<byte>, trailer: seq<byte>) returns (code: int)
      requires Valid() && |View().fifo| + |head| + |data| + |trailer| <= mo.size
      modifies mo`wrp, mo.buf
      ensures Valid() && code == 0
      ensures View() == old(View()).(fifo := old(View()).fifo + (head + data + trailer))
    {
      var n := mo.Write(head);
      assert n == |head|;
      n := mo.Write(data);
      assert n == |data|;
      n := mo.Write(trailer);
      assert n == |trailer|;
      return 0;
    }

    // ----- parsing

    /** packet_crc_buffer: the checksum of header and payload, 256 bytes at a time. */
    method CrcBuffer(len: nat, ghost body: seq<byte>) returns (checksum: bv32)
      requires Valid() && body <= mo.Contents() && |body| == HEADER + len
      ensures checksum == BodyChecksum(poly, body)
    {
      ghost var call: Call := (s, c) => Crc32(poly, s, c);
      forall s, c ensures CallsCrc(call, poly, s, c) {}
      checksum := CrcLoop(len, body, call);
      ChunkedFromStart(call, poly, body);
    }

    method CrcLoop(len: nat, ghost body: seq<byte>, ghost call: Call) returns (checksum: bv32)
      requires Valid() && body <= mo.Contents() && |body| == HEADER + len && AlwaysCallsCrc(call, poly)
      ensures checksum == Chunked(call, body, 0, 0)
    {
      var buffer := new byte[CHUNK];
      var total := len + HEADER;
      var off := 0;
      checksum := 0;
      while off < total
        invariant off <= total && Chunked(call, body, off, checksum) == Chunked(call, body, 0, 0)
      {
        var left := total - off;
        var n := if left < CHUNK then left else CHUNK;
        checksum := CrcChunk(buffer, body, call, off, n, checksum);
        off := off + n;
      }
    }

    /** One turn of that loop: copy a chunk out of the ring and run the CRC on from the last one. */
    method CrcChunk(buffer: array<byte>, ghost body: seq<byte>, ghost call: Call, off: nat, n: nat,
        init: bv32) returns (r: bv32)
      requires Valid() && buffer != mo.buf && n <= buffer.Length
      requires body <= mo.Contents() && off + n <= |body| && AlwaysCallsCrc(call, poly)
      modifies buffer
      ensures r == call(body[off..off + n], init)
    {
      var m := mo.Copy(off, buffer, n);
      assert CallsCrc(call, poly, body[off..off + n], init);
      assert buffer[..n] == buffer[..][..n] == body[off..off + n];
      r := ComputeCrc32(table, poly, buffer[..n], init);
    }

    /** bscl_packet_parse. A delivered frame's header fields are returned, and its payload is copied
        into buf as far as size allows; buf may be absent. */
    method Parse(buf: array?<byte>, size: nat) returns (code: int, inf: Option<Info>)
      requires Valid() && (buf != null ==> size <= buf.Length && buf != mo.buf)
      modifies this`stat, mo`rdp, buf
      ensures Valid() && (old(View()).WellFormed() ==> View().WellFormed())
      ensures var p := Framing.Parse(CrcSeal(poly), old(View()));
              && View() == p.0 && code == p.1.Code()
              && (p.1.Delivers() ==>
                    var msg := MessageOf(old(View()).fifo);
                    && inf == Some(Info(|msg.payload|, msg.msgid, msg.seqno))
                    && (buf != null ==>
                          buf[..] == msg.payload[..Min(size, |msg.payload|)] + old(buf[Min(size, |msg.payload|)..])))
      ensures code < 0 ==> inf == None && (buf != null ==> buf[..] == old(buf[..]))
    {
      ghost var m := View();
      if m.WellFormed() {
        ParseStaysWellFormed(CrcSeal(poly), m);
      }
      var head;
      code, head := Check();
      if code < 0 {
        Refuse(code, CrcSeal(poly));
        return code, None;
      }
      code, inf := Accept(head, buf, size, CrcSeal(poly));
    }

    /** The tests parsing starts with; 0 if the frame is accepted. */
    method Check() returns (code: int, head: seq<byte>)
      requires Valid()
      ensures var v := Judge(CrcSeal(poly), View()); code == if v.Delivers() then 0 else v.Code()
      ensures code == 0 ==> |head| == HEADER && head == View().fifo[..HEADER]
    {
      var ok;
      ok, head := PeekHeader();
      if !ok {
        return NoHead.Code(), head;
      }
      var len := Le16(head[2], head[3]);
      if len > mo.size {
        return Error.Code(), head;
      }
      code := CheckTrailer(len);
    }

    method CheckTrailer(len: nat) returns (code: int)
      requires Valid() && |View().fifo| >= HEADER && len == PayloadLen(View().fifo)
      ensures var r := View().fifo;
              code == if |r| < FrameLen(r) then NoCrc.Code()
                      else if !CrcSeal(poly)(r[..FrameLen(r)]) then BadCrc.Code() else 0
    {
      var ok, crc := PeekTrailer(HEADER + len);
      if !ok {
        return NoCrc.Code();
      }
      var same := ChecksumIs(len, crc, View().fifo);
      code := if same then 0 else BadCrc.Code();
    }

    method ChecksumIs(len: nat, crc: bv32, ghost r: seq<byte>) returns (same: bool)
      requires Valid() && r == mo.Contents() && Whole(r) && len == PayloadLen(r)
      requires crc == Le32(r[HEADER + len..HEADER + len + TRAILER])
      ensures same == CrcSeal(poly)(r[..FrameLen(r)])
    {
      var checksum := CrcBuffer(len, r[..HEADER + len]);
      same := checksum == crc;
      SealedPrefix(poly, r, checksum, crc, same);
    }

    /** An oversize length or a wrong trailer costs one byte; missing bytes cost nothing. */
    method Refuse(code: int, ghost seal: Seal)
      requires Valid() && !Judge(seal, View()).Delivers() && code == Judge(seal, View()).Code()
      modifies mo`rdp
      ensures Valid()
      ensures var p := Framing.Parse(seal, old(View()));
              View() == p.0 && code == p.1.Code() && !p.1.Delivers()
    {
      if code == Error.Code() || code == BadCrc.Code() {
        var n := mo.Drop(1);
      }
    }

    /** Hands out an accepted frame. */
    method Accept(head: seq<byte>, buf: array?<byte>, size: nat, ghost seal: Seal) returns (code: int,
        inf: Option<Info>)
      requires Valid() && (buf != null ==> size <= buf.Length && buf != mo.buf)
      requires Judge(seal, View()).Delivers() && |head| == HEADER && head == View().fifo[..HEADER]
      modifies this`stat, mo`rdp, buf
      ensures Valid()
      ensures var p := Framing.Parse(seal, old(View()));
              View() == p.0 && code == p.1.Code() >= 0 && p.1.Delivers()
      ensures var msg := MessageOf(old(View()).fifo);
              && inf == Some(Info(|msg.payload|, msg.msgid, msg.seqno))
              && (buf != null ==>
                    buf[..] == msg.payload[..Min(size, |msg.payload|)] + old(buf[Min(size, |msg.payload|)..]))
    {
      var len := Le16(head[2], head[3]);
      HeaderFields(head, View().fifo);
      inf := Some(Info(len, head[1], Number32(head[4..8])));
      code := Deliver(len, buf, size);
    }

    method PeekHeader() returns (ok: bool, head: seq<byte>)
      requires Valid()
      ensures ok <==> |View().fifo| >= HEADER
      ensures ok ==> |head| == HEADER && head == View().fifo[..HEADER]
    {
      var buffer := new byte[HEADER];
      var n := mo.Copy(0, buffer, HEADER);
      return n == HEADER, buffer[..];
    }

    method PeekTrailer(pos: nat) returns (ok: bool, crc: bv32)
      requires Valid() && pos + TRAILER < TWO32
      ensures ok <==> |View().fifo| >= pos + TRAILER
      ensures ok ==> crc == Le32(View().fifo[pos..pos + TRAILER])
    {
      var buffer := new byte[TRAILER];
      var n := mo.Copy(pos, buffer, TRAILER);
      ok := n == TRAILER;
      assert ok ==> buffer[..] == mo.Contents()[pos..pos + TRAILER];
      crc := Le32(buffer[..]);
    }

    /** Takes an accepted frame out of the ring. */
    method Deliver(len: nat, buf: array?<byte>, size: nat) returns (code: int)
      requires Valid() && (buf != null ==> size <= buf.Length && buf != mo.buf)
      requires Whole(mo.Contents()) && len == PayloadLen(mo.Contents())
      modifies this`stat, mo`rdp, buf
      ensures Valid() && mo.Contents() == old(mo.Contents())[HEADER + len + TRAILER..]
      ensures if mo.Contents() == [] then code == 0 && stat == Sync else code == 2 && stat == old(stat)
      ensures buf != null ==>
        buf[..] == old(mo.Contents())[HEADER..HEADER + len][..Min(size, len)] + old(buf[Min(size, len)..])
    {
      ghost var r := mo.Contents();
      var n := mo.Drop(HEADER);
      if buf != null {
        PrefixOfPayload(r, len, Min(size, len));
        CopyOut(buf, Min(size, len));
      }
      DropTwice(r, HEADER, len + TRAILER);
      DropBody(len);
      var count := mo.GetCount();
      if count > 0 {
        return 2;
      }
      stat := Sync;
      return 0;
    }

    method DropBody(len: nat)
      requires Valid() && len + TRAILER <= |mo.Contents()|
      modifies mo`rdp
      ensures Valid() && mo.Contents() == old(mo.Contents())[len + TRAILER..]
    {
      DropTwice(mo.Contents(), len, TRAILER);
      var n := mo.Drop(len);
      n := mo.Drop(TRAILER);
    }

    /** The caller's copy of the first n bytes in the ring. */
    method CopyOut(buf: array<byte>, n: nat)
      requires Valid() && n <= buf.Length && buf != mo.buf && n <= |mo.Contents()|
      modifies buf
      ensures Valid() && mo.Contents() == old(mo.Contents())
      ensures buf[..] == mo.Contents()[..n] + old(buf[n..])
    {
      var k := mo.Copy(0, buf, n);
    }
  }

  lemma HeaderFields(head: seq<byte>, r: seq<byte>)
    requires |r| >= HEADER && head == r[..HEADER]
    ensures head[1] == r[1] && Le16(head[2], head[3]) == PayloadLen(r) && head[4..8] == r[4..8]
  {
  }

  lemma DropTwice<T>(s: seq<T>, a: nat, b: nat)
    requires a + b <= |s|
    ensures s[a..][b..] == s[a + b..]
  {
  }

  lemma PrefixOfPayload(r: seq<byte>, len: nat, n: nat)
    requires HEADER + len <= |r| && n <= len
    ensures r[HEADER..][..n] == r[HEADER..HEADER + len][..n]
  {
  }

  /** The trailer check in terms of the bytes in the ring. */
  lemma SealedPrefix(poly: bv32, r: seq<byte>, checksum: bv32, crc: bv32, same: bool)
    requires Whole(r) && checksum == BodyChecksum(poly, r[..HEADER + PayloadLen(r)]) && same == (checksum == crc)
    requires var end := HEADER + PayloadLen(r); crc == Le32(r[end..end + TRAILER])
    ensures same == CrcSeal(poly)(r[..FrameLen(r)])
  {
    var f, end := r[..FrameLen(r)], HEADER + PayloadLen(r);
    assert f[end..] == r[end..end + TRAILER] && f[..end] == r[..end];
  }
}
