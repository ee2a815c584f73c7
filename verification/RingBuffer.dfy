/** The byte ring of include/bscl_buffer.h: free-running 32-bit read and write positions, reduced
    modulo a power-of-two capacity each time storage is touched. */
module RingBuffer {
  import opened Words

  ghost predicate IsRingSize(size: nat) {
    exists k: nat :: k <= 31 && size == Pow2(k)
  }

  /** buffer_offset_of_pos: masking a position with size - 1 leaves its remainder, because the size
      is a power of two (MaskIsOffset). */
  function Offset(size: nat, pos: nat): (o: nat)
    requires size > 0
    ensures o < size
  {
    if pos < size then pos else Offset(size, pos - size)
  }

  /** Unsigned 32-bit addition and subtraction, with their wrap-around. */
  function Add32(a: nat, b: nat): (r: nat)
    requires a < TWO32 && b < TWO32
    ensures r < TWO32
  {
    if a + b < TWO32 then a + b else a + b - TWO32
  }

  function Sub32(a: nat, b: nat): (r: nat)
    requires a < TWO32 && b < TWO32
    ensures r < TWO32 && Add32(b, r) == a
  {
    if a >= b then a - b else a - b + TWO32
  }

  // ----- arithmetic of masked positions

  /** pos & (2^k - 1), bit by bit. */
  function LowBits(pos: nat, k: nat): nat {
    if k == 0 then 0 else 2 * LowBits(pos / 2, k - 1) + pos % 2
  }

  lemma {:induction false} MaskIsOffset(pos: nat, k: nat)
    ensures LowBits(pos, k) == Offset(Pow2(k), pos)
  {
    if k == 0 {
      OffsetOfOne(pos);
    } else {
      MaskIsOffset(pos / 2, k - 1);
      OffsetDoubles(Pow2(k - 1), pos / 2, pos % 2);
    }
  }

  lemma OffsetOfOne(pos: nat)
    ensures Offset(1, pos) == 0
  {
  }

  lemma {:induction false} OffsetDoubles(size: nat, pos: nat, bit: nat)
    requires size > 0 && bit < 2
    ensures Offset(2 * size, 2 * pos + bit) == 2 * Offset(size, pos) + bit
  {
    if pos >= size {
      OffsetDoubles(size, pos - size, bit);
    }
  }

  /** Adding any larger power of two, 2^32 in particular, leaves the slot where it was. */
  lemma {:induction false} OffsetLap(k: nat, j: nat, pos: nat)
    ensures Offset(Pow2(k), pos + Pow2(k + j)) == Offset(Pow2(k), pos)
  {
    if j > 0 {
      OffsetLap(k, j - 1, pos);
      OffsetLap(k, j - 1, pos + Pow2(k + j - 1));
    }
  }

  lemma {:induction false} Pow2Monotone(a: nat, b: nat)
    requires a <= b
    ensures Pow2(a) <= Pow2(b)
  {
    if a < b {
      Pow2Monotone(a, b - 1);
    }
  }

  lemma RingSizeBound(size: nat)
    requires IsRingSize(size)
    ensures 0 < size <= 0x8000_0000
  {
    var k: nat :| k <= 31 && size == Pow2(k);
    Pow2Monotone(k, 31);
    Pow2Of32();
  }

  lemma {:induction false} OffsetStep(size: nat, pos: nat, i: nat)
    requires 0 < size && i <= size
    ensures Offset(size, pos + i) == Turn(size, Offset(size, pos), i)
  {
    if pos >= size {
      OffsetStep(size, pos - size, i);
    }
  }

  /** Slot i places round a ring from slot o. */
  function Turn(size: nat, o: nat, i: nat): (r: nat)
    requires o < size && i <= size
    ensures r < size
  {
    if o + i < size then o + i else o + i - size
  }

  /** Counting i places from o, or from count places past o. */
  lemma TurnFrom(size: nat, o: nat, count: nat, i: nat)
    requires o < size && count <= size && i < size
    ensures Turn(size, o, i) == Turn(size, Turn(size, o, count), if i < count then size - count + i else i - count)
  {
  }

  lemma OtherSlots(size: nat, o: nat, k: nat)
    requires o < size && k < size
    ensures forall i :: 0 <= i < size && i != k ==> Turn(size, o, i) != Turn(size, o, k)
  {
  }

  /** Stepping a position by at most one lap moves its slot round the ring, whether or not the
      32-bit position wraps on the way. */
  lemma OffsetOfSum(size: nat, p: nat, i: nat)
    requires IsRingSize(size) && p < TWO32 && i <= size <= 0x8000_0000
    ensures Offset(size, Add32(p, i)) == Turn(size, Offset(size, p), i)
  {
    OffsetStep(size, p, i);
    if p + i >= TWO32 {
      var k: nat :| k <= 31 && size == Pow2(k);
      Pow2Of32();
      OffsetLap(k, 32 - k, p + i - TWO32);
    }
  }

  /** How many bytes buffer_copy takes, its sum in 32 bits. */
  function CopyLength(count: nat, begin: nat, len: nat): nat
    requires begin < TWO32 && len < TWO32
  {
    if count < begin then 0 else if count < Add32(len, begin) then count - begin else len
  }

  /** From a place in the queue on, it stays within the queue exactly if that sum does not wrap. */
  lemma CopyStaysInsideIff(count: nat, begin: nat, len: nat)
    requires begin <= count <= 0x8000_0000 && len < TWO32
    ensures CopyLength(count, begin, len) <= count - begin <==> begin + len < TWO32
  {
    if begin + len >= TWO32 {
      assert Add32(len, begin) <= count && len > count - begin;
    }
  }

  /** Sixteen bytes held, eight skipped, all that 32 bits can say asked for: more than the eight there are. */
  lemma CopyGoesPast()
    ensures CopyLength(16, 8, 0xFFFF_FFFF) == 0xFFFF_FFFF
  {
  }

  /** include/bscl_buffer.h: buffer_t. */
  class Buffer {
    const buf: array<byte>
    const size: nat
    var wrp: nat
    var rdp: nat

    ghost predicate Valid()
      reads this
    {
      && IsRingSize(size) && 0 < size <= 0x8000_0000 && buf.Length == size
      && wrp < TWO32 && rdp < TWO32
      && Sub32(wrp, rdp) <= size
    }

    /** The bytes written and not yet read, oldest first. */
    ghost function Contents(): (s: seq<byte>)
      requires Valid()
      reads this, buf
      ensures |s| == Sub32(wrp, rdp) <= size
    {
      seq(Sub32(wrp, rdp), i requires Valid() && 0 <= i < Sub32(wrp, rdp) reads this, buf => At(i))
    }

    /** The stored byte i places past the read position, live or stale. */
    ghost function At(i: nat): (b: byte)
      requires Valid() && i <= size
      reads this, buf
      ensures b == buf[Turn(size, Offset(size, rdp), i)]
    {
      OffsetOfSum(size, rdp, i);
      buf[Offset(size, Add32(rdp, i))]
    }

    constructor (mem: array<byte>, size: nat)
      requires IsRingSize(size) && mem.Length == size
      ensures Valid() && buf == mem && this.size == size && Contents() == []
    {
      RingSizeBound(size);
      buf := mem;
      this.size := size;
      wrp, rdp := 0, 0;
    }

    method Clean()
      requires Valid()
      modifies this`rdp
      ensures Valid() && Contents() == []
    {
      rdp := wrp;
    }

    method GetCount() returns (n: nat)
      requires Valid()
      ensures n == |Contents()|
    {
      n := Sub32(wrp, rdp);
    }

    method GetSpace() returns (n: nat)
      requires Valid()
      ensures n + |Contents()| == size
    {
      var count := GetCount();
      n := size - count;
    }

    method IsEmpty() returns (b: bool)
      requires Valid()
      ensures b <==> Contents() == []
    {
      b := wrp == rdp;
    }

    method IsFull() returns (b: bool)
      requires Valid()
      ensures b <==> |Contents()| == size
    {
      b := Sub32(wrp, rdp) >= size;
    }

    /** The write position is the slot just past the live bytes. */
    lemma WriteSlot()
      requires Valid()
      ensures Offset(size, wrp) == Turn(size, Offset(size, rdp), |Contents()|)
    {
      OffsetOfSum(size, rdp, |Contents()|);
    }

    /** The one- or two-part memcpy of buffer_write: data goes round the ring from slot offset. */
    method Store(offset: nat, data: seq<byte>)
      requires buf.Length == size && offset < size && |data| <= size
      modifies buf
      ensures forall i | 0 <= i < |data| :: buf[Turn(size, offset, i)] == data[i]
      ensures forall i | |data| <= i < size :: buf[Turn(size, offset, i)] == old(buf[Turn(size, offset, i)])
    {
      var n := |data|;
      if offset + n <= size {
        forall i | 0 <= i < n {
          buf[offset + i] := data[i];
        }
      } else {
        var left := size - offset;
        forall i | 0 <= i < left {
          buf[offset + i] := data[i];
        }
        forall i | 0 <= i < n - left {
          buf[i] := data[left + i];
        }
      }
    }

    /** The one- or two-part memcpy of buffer_copy. */
    method Load(offset: nat, data: array<byte>, n: nat)
      requires buf.Length == size && offset < size && n <= size && n <= data.Length && data != buf
      modifies data
      ensures forall i | 0 <= i < n :: data[i] == buf[Turn(size, offset, i)]
      ensures forall i | n <= i < data.Length :: data[i] == old(data[i])
    {
      if offset + n <= size {
        forall i | 0 <= i < n {
          data[i] := buf[offset + i];
        }
      } else {
        var left := size - offset;
        forall i | 0 <= i < left {
          data[i] := buf[offset + i];
        }
        forall i | 0 <= i < n - left {
          data[left + i] := buf[i];
        }
      }
    }

    method Write(data: seq<byte>) returns (n: nat)
      requires Valid() && |data| < TWO32
      modifies this`wrp, buf
      ensures Valid() && n == Min(|data|, size - |old(Contents())|)
      ensures Contents() == old(Contents()) + data[..n]
    {
      var space := GetSpace();
      n := if |data| < space then |data| else space;
      if n != 0 {
        ghost var before, o := Contents(), Offset(size, rdp);
        WriteSlot();
        Store(Offset(size, wrp), data[..n]);
        wrp := Add32(wrp, n);
        assert Sub32(wrp, rdp) == |before| + n;
        forall i | 0 <= i < |before| + n
          ensures At(i) == (before + data[..n])[i]
        {
          TurnFrom(size, o, |before|, i);
          if i < |before| {
            assert before[i] == old(At(i));
          }
        }
      }
    }

    method Putc(c: byte) returns (ok: bool)
      requires Valid()
      modifies this`wrp, buf
      ensures Valid() && (ok <==> |old(Contents())| < size)
      ensures Contents() == if ok then old(Contents()) + [c] else old(Contents())
      ensures |Contents()| < size ==> Stale() == old(Behind(1))
    {
      var full := IsFull();
      if full {
        return false;
      }
      ghost var before, o := Contents(), Offset(size, rdp);
      WriteSlot();
      var w := Offset(size, wrp);
      buf[w] := c;
      wrp := Add32(wrp, 1);
      assert Sub32(wrp, rdp) == |before| + 1;
      WriteSlot();
      OtherSlots(size, o, |before|);
      forall i | 0 <= i < |before| + 1
        ensures At(i) == (before + [c])[i]
      {
        assert i < |before| ==> before[i] == old(At(i));
      }
      return true;
    }

    /** buffer_copy_char: begin equal to the count passes the range test and reads a stale byte. */
    method CopyChar(begin: nat) returns (c: int)
      requires Valid()
      ensures if |Contents()| < begin then c == -1 else c == At(begin) as int
      ensures begin < |Contents()| ==> c == Contents()[begin] as int
    {
      var count := GetCount();
      if count < begin {
        return -1;
      }
      OffsetOfSum(size, rdp, begin);
      c := buf[Offset(size, Add32(rdp, begin))] as int;
    }

    /** The stored byte in the slot the next write will fill. */
    ghost function Stale(): byte
      requires Valid()
      reads this, buf
    {
      buf[Offset(size, wrp)]
    }

    /** The stored byte n places past the live ones. */
    ghost function Behind(n: nat): byte
      requires Valid()
      reads this, buf
    {
      if |Contents()| + n <= size then At(|Contents()| + n) else 0
    }

    /** buffer_copy_first: an empty ring is not reported; the byte returned is stale. */
    method CopyFirst() returns (c: byte)
      requires Valid()
      ensures c == if Contents() == [] then Stale() else Contents()[0]
    {
      WriteSlot();
      OffsetOfSum(size, rdp, 0);
      c := buf[Offset(size, rdp)];
    }

    lemma ContentsFrom(begin: nat, n: nat)
      requires Valid() && begin + n <= |Contents()|
      ensures forall i | 0 <= i < n ::
        Contents()[begin..begin + n][i] == buf[Turn(size, Offset(size, Add32(rdp, begin)), i)]
    {
      OffsetOfSum(size, rdp, begin);
      forall i | 0 <= i < n
        ensures Contents()[begin + i] == buf[Turn(size, Offset(size, Add32(rdp, begin)), i)]
      {
        assert Contents()[begin + i] == At(begin + i);
      }
    }

    method Copy(begin: nat, data: array<byte>, len: nat) returns (n: nat)
      requires Valid() && data != buf && len <= data.Length && begin < TWO32 && len < TWO32
      requires begin <= |Contents()| ==> begin + len < TWO32
      modifies data
      ensures Valid() && Contents() == old(Contents())
      ensures n == if |Contents()| < begin then 0 else Min(len, |Contents()| - begin)
      ensures data[..] == (if n == 0 then [] else Contents()[begin..begin + n]) + old(data[n..])
    {
      var count := GetCount();
      if count < begin {
        return 0;
      }
      n := if count < Add32(len, begin) then count - begin else len;
      if n != 0 {
        var offset := Offset(size, Add32(rdp, begin));
        ghost var part := Contents()[begin..begin + n];
        ContentsFrom(begin, n);
        Load(offset, data, n);
        assert data[..n] == part && data[n..] == old(data[n..]);
        assert data[..] == data[..n] + data[n..];
      }
    }

    /** Advancing the read position forgets exactly the oldest n bytes. */
    method Advance(n: nat)
      requires Valid() && n <= |Contents()|
      modifies this`rdp
      ensures Valid() && Contents() == old(Contents())[n..]
    {
      ghost var before := Contents();
      ghost var r := rdp;
      rdp := Add32(rdp, n);
      assert Sub32(wrp, rdp) == |before| - n;
      forall i | 0 <= i < |before| - n
        ensures At(i) == before[n + i]
      {
        OffsetOfSum(size, r, n);
        assert Turn(size, Offset(size, rdp), i) == Turn(size, Offset(size, r), n + i);
      }
    }

    method Read(data: array<byte>, len: nat) returns (n: nat)
      requires Valid() && data != buf && len <= data.Length && len < TWO32
      modifies this`rdp, data
      ensures Valid() && n == Min(len, |old(Contents())|)
      ensures old(Contents()) == data[..n] + Contents()
      ensures data[n..] == old(data[n..])
    {
      n := Copy(0, data, len);
      Advance(n);
    }

    method Drop(len: nat) returns (n: nat)
      requires Valid()
      modifies this`rdp
      ensures Valid() && n == Min(len, |old(Contents())|)
      ensures Contents() == old(Contents())[n..]
    {
      var count := GetCount();
      n := if count < len then count else len;
      Advance(n);
    }
  }
}
