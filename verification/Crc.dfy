/** The 32-bit reflected CRC of src/bscl_crc.c, computed from a table made at start-up. */
module Crc {
  import opened Words

  const ONES: bv32 := 0xFFFF_FFFF
  const CHUNK: nat := 256

  // ----- the register, a bit and then a byte at a time

  /** The polynomial joins the shifted register when the bit that fell off was set. */
  function Tap(poly: bv32, odd: bool, half: bv32): bv32 {
    if odd then Xor(poly, half) else half
  }

  /** One shift of the reflected register. */
  function BitStep(poly: bv32, c: bv32): bv32 {
    Tap(poly, Odd(c), Half(c))
  }

  function BitSteps(poly: bv32, c: bv32, n: nat): bv32 {
    if n == 0 then c else BitStep(poly, BitSteps(poly, c, n - 1))
  }

  /** The register after one message byte: the byte joins the low end and eight shifts follow. */
  function ByteStep(poly: bv32, crc: bv32, b: byte): bv32 {
    BitSteps(poly, Xor(crc, Wide(b)), 8)
  }

  lemma TapBoth(p: bv32, a: bv32, b: bv32)
    ensures Xor(Xor(p, a), Xor(p, b)) == Xor(a, b)
  {
    XorCommutes(p, a);
    XorCommutes(p, b);
    XorCancels(p, a, b);
  }

  lemma TapSecond(p: bv32, a: bv32, b: bv32)
    ensures Xor(a, Xor(p, b)) == Xor(p, Xor(a, b))
  {
  }

  lemma TapLinear(p: bv32, oddA: bool, oddB: bool, a: bv32, b: bv32)
    ensures Tap(p, oddA != oddB, Xor(a, b)) == Xor(Tap(p, oddA, a), Tap(p, oddB, b))
  {
    if oddA && oddB {
      TapBoth(p, a, b);
    } else if oddA {
      XorAssociates(p, a, b);
    } else if oddB {
      TapSecond(p, a, b);
    }
  }

  lemma BitStepLinear(poly: bv32, x: bv32, y: bv32)
    ensures BitStep(poly, Xor(x, y)) == Xor(BitStep(poly, x), BitStep(poly, y))
  {
    HalfOfXor(x, y);
    OddOfXor(x, y);
    TapLinear(poly, Odd(x), Odd(y), Half(x), Half(y));
  }

  lemma {:induction false} BitStepsLinear(poly: bv32, x: bv32, y: bv32, n: nat)
    ensures BitSteps(poly, Xor(x, y), n) == Xor(BitSteps(poly, x, n), BitSteps(poly, y, n))
  {
    if n > 0 {
      BitStepsLinear(poly, x, y, n - 1);
      BitStepLinear(poly, BitSteps(poly, x, n - 1), BitSteps(poly, y, n - 1));
    }
  }

  lemma {:induction false} BitStepsAdd(poly: bv32, x: bv32, m: nat, n: nat)
    ensures BitSteps(poly, x, m + n) == BitSteps(poly, BitSteps(poly, x, m), n)
  {
    if n > 0 {
      BitStepsAdd(poly, x, m, n - 1);
    }
  }

  // ----- shifting a byte's worth of clear bits out of the register

  function Doubles(y: bv32, n: nat): bv32 {
    if n == 0 then y else Double(Doubles(y, n - 1))
  }

  /** Doubling y n times loses no bit. */
  ghost predicate Room(y: bv32, n: nat) {
    n > 0 ==> Room(y, n - 1) && Doubles(y, n - 1) < 0x8000_0000
  }

  lemma DoubleIsEven(y: bv32)
    ensures !Odd(Double(y))
  {
  }

  lemma HalfOfDouble(y: bv32)
    requires y < 0x8000_0000
    ensures Half(Double(y)) == y
  {
  }

  lemma {:induction false} ShiftOut(poly: bv32, y: bv32, n: nat)
    requires Room(y, n)
    ensures BitSteps(poly, Doubles(y, n), n) == y
  {
    if n > 0 {
      DoubleIsEven(Doubles(y, n - 1));
      HalfOfDouble(Doubles(y, n - 1));
      assert BitSteps(poly, Doubles(y, n), 1) == BitStep(poly, Doubles(y, n));
      BitStepsAdd(poly, Doubles(y, n), 1, n - 1);
      ShiftOut(poly, y, n - 1);
    }
  }

  function ShiftByte(y: bv32): bv32 {
    y << 8
  }

  lemma {:induction false} ByteRoom(y: bv32)
    requires y <= 0xFF_FFFF
    ensures Room(y, 8) && Doubles(y, 8) == ShiftByte(y)
  {
    RoomFits(y);
    assert Doubles(y, 1) == y << 1 && Room(y, 1);
    assert Doubles(y, 2) == y << 2 && Room(y, 2);
    assert Doubles(y, 3) == y << 3 && Room(y, 3);
    assert Doubles(y, 4) == y << 4 && Room(y, 4);
    assert Doubles(y, 5) == y << 5 && Room(y, 5);
    assert Doubles(y, 6) == y << 6 && Room(y, 6);
    assert Doubles(y, 7) == y << 7 && Room(y, 7);
  }

  lemma RoomFits(y: bv32)
    requires y <= 0xFF_FFFF
    ensures (y << 7) < 0x8000_0000 && (y << 6) < 0x8000_0000 && (y << 5) < 0x8000_0000
    ensures (y << 4) < 0x8000_0000 && (y << 3) < 0x8000_0000 && (y << 2) < 0x8000_0000
    ensures (y << 1) < 0x8000_0000 && y < 0x8000_0000
  {
  }

  /** Eight shifts move a register whose low byte is clear down by a byte. */
  lemma ByteShift(poly: bv32, y: bv32)
    requires y <= 0xFF_FFFF
    ensures BitSteps(poly, ShiftByte(y), 8) == y
  {
    ByteRoom(y);
    ShiftOut(poly, y, 8);
  }

  // ----- the table

  function TableIndex(crc: bv32, b: byte): (i: nat)
    ensures i < 256
  {
    IndexRoundTrip(LowByte(Xor(crc, Wide(b))));
    LowByte(Xor(crc, Wide(b))) as nat
  }

  lemma IndexRoundTrip(x: bv32)
    requires x <= 0xFF
    ensures x as nat < 256 && (x as nat) as bv32 == x
  {
  }

  ghost predicate MadeFrom(t: seq<bv32>, poly: bv32) {
    |t| == 256 && forall i: nat | i < 256 :: t[i] == BitSteps(poly, i as bv32, 8)
  }

  lemma EmptyStep(c: bv32)
    ensures BitStep(0, c) == Half(c)
  {
    XorZero(Half(c));
  }

  function Halves(c: bv32, n: nat): bv32 {
    if n == 0 then c else Half(Halves(c, n - 1))
  }

  lemma {:induction false} EmptySteps(c: bv32, n: nat)
    ensures BitSteps(0, c, n) == Halves(c, n)
  {
    if n > 0 {
      EmptySteps(c, n - 1);
      EmptyStep(Halves(c, n - 1));
    }
  }

  lemma NothingLeft(c: bv32)
    requires c <= 0xFF
    ensures Halves(c, 8) == 0
  {
    assert Halves(c, 1) == c >> 1;
    assert Halves(c, 2) == c >> 2;
    assert Halves(c, 3) == c >> 3;
    assert Halves(c, 4) == c >> 4;
    assert Halves(c, 5) == c >> 5;
    assert Halves(c, 6) == c >> 6;
    assert Halves(c, 7) == c >> 7;
  }

  lemma SmallWord(i: nat)
    requires i < 256
    ensures i as bv32 <= 0xFF
  {
  }

  /** The static table before bscl_crc32_init has run is the one polynomial 0 makes. */
  lemma EmptyTable(t: seq<bv32>)
    requires |t| == 256 && forall i :: 0 <= i < 256 ==> t[i] == 0
    ensures MadeFrom(t, 0)
  {
    forall i: nat | i < 256
      ensures t[i] == BitSteps(0, i as bv32, 8)
    {
      SmallWord(i);
      EmptySteps(i as bv32, 8);
      NothingLeft(i as bv32);
    }
  }

  /** crc32_make_table fills the table in place. */
  method MakeTable(t: array<bv32>, poly: bv32)
    requires t.Length == 256
    modifies t
    ensures MadeFrom(t[..], poly)
  {
    for i := 0 to 0x100
      invariant forall k: nat | k < i :: t[k] == BitSteps(poly, k as bv32, 8)
    {
      var c := i as bv32;
      for j := 0 to 8
        invariant c == BitSteps(poly, i as bv32, j)
      {
        if Odd(c) {
          c := Xor(poly, Half(c));
        } else {
          c := Half(c);
        }
      }
      t[i] := c;
    }
  }

  function LowByte(x: bv32): bv32 {
    x & 0xFF
  }

  function DropByte(x: bv32): bv32 {
    x >> 8
  }

  lemma SplitLowByte(x: bv32)
    ensures LowByte(x) <= 0xFF && DropByte(x) <= 0xFF_FFFF
    ensures Xor(LowByte(x), ShiftByte(DropByte(x))) == x
  {
    assert (x & 0xFF) ^ ((x >> 8) << 8) == x;
  }

  lemma DropByteOfInput(crc: bv32, b: byte)
    ensures DropByte(Xor(crc, Wide(b))) == DropByte(crc)
  {
    var v := Bits(b);
    assert (crc ^ (v as bv32)) >> 8 == crc >> 8;
  }

  lemma LookupIsByteStep(t: seq<bv32>, poly: bv32, crc: bv32, b: byte)
    requires MadeFrom(t, poly)
    ensures Xor(t[TableIndex(crc, b)], DropByte(crc)) == ByteStep(poly, crc, b)
  {
    var x := Xor(crc, Wide(b));
    SplitLowByte(x);
    DropByteOfInput(crc, b);
    IndexRoundTrip(LowByte(x));
    BitStepsLinear(poly, LowByte(x), ShiftByte(DropByte(x)), 8);
    ByteShift(poly, DropByte(x));
  }

  // ----- whole messages

  /** Where a checksum computed by several bscl_crc32 calls is complemented: each call complements
      its result, and the next call starts from it. */
  datatype Flips =
    | AtEnd(total: nat)        // one call
    | EveryChunk(total: nat)   // packet_crc_buffer: a call per 256 bytes
    | AfterHeader(total: nat)  // bscl_packet_write: a call for the 8 header bytes, one for the payload
  {
    predicate At(n: nat) {
      match this
      case AtEnd(total) => n == total
      case EveryChunk(total) => n > 0 && (n % CHUNK == 0 || n == total)
      case AfterHeader(total) => (n == 8) != (n == total)
    }

    function Apply(n: nat, c: bv32): bv32 {
      if At(n) then Xor(c, ONES) else c
    }
  }

  /** The register after the bytes of s. */
  function Fed(poly: bv32, f: Flips, s: seq<byte>, init: bv32): bv32 {
    if s == [] then init
    else
      var n := |s| - 1;
      ByteStep(poly, f.Apply(n, Fed(poly, f, s[..n], init)), s[n])
  }

  function Checksum(poly: bv32, f: Flips, s: seq<byte>, init: bv32): bv32 {
    f.Apply(|s|, Fed(poly, f, s, init))
  }

  /** bscl_crc32 with the table made from poly. */
  function Crc32(poly: bv32, s: seq<byte>, init: bv32): bv32 {
    Checksum(poly, AtEnd(|s|), s, init)
  }

  /** bscl_crc32: the lookup loop computes the bit-at-a-time checksum. */
  method ComputeCrc32(t: seq<bv32>, ghost poly: bv32, data: seq<byte>, init: bv32) returns (r: bv32)
    requires MadeFrom(t, poly)
    ensures r == Crc32(poly, data, init)
  {
    var crc := init;
    for p := 0 to |data|
      invariant crc == Fed(poly, AtEnd(|data|), data[..p], init)
    {
      LookupIsByteStep(t, poly, crc, data[p]);
      crc := Xor(t[TableIndex(crc, data[p])], DropByte(crc));
      assert data[..p + 1][..p] == data[..p];
    }
    assert data[..|data|] == data;
    return Xor(crc, ONES);
  }

  lemma {:induction false} FedAppend(poly: bv32, f: Flips, a: seq<byte>, u: seq<byte>, init: bv32)
    requires u != []
    ensures var k := |u| - 1;
            Fed(poly, f, a + u, init) == ByteStep(poly, f.Apply(|a| + k, Fed(poly, f, a + u[..k], init)), u[k])
  {
    assert (a + u)[..|a| + |u| - 1] == a + u[..|u| - 1];
  }

  /** A chain f that has come to c over pre goes on over u like a chain g that starts from c, if both
      are complemented at the same places. */
  lemma {:induction false} FedContinues(poly: bv32, f: Flips, g: Flips, pre: seq<byte>, u: seq<byte>, init: bv32,
      c: bv32)
    requires u != [] && c == f.Apply(|pre|, Fed(poly, f, pre, init))
    requires !g.At(0) && forall i | 0 < i < |u| :: f.At(|pre| + i) == g.At(i)
    ensures Fed(poly, f, pre + u, init) == Fed(poly, g, u, c)
  {
    var k := |u| - 1;
    FedAppend(poly, f, pre, u, init);
    if k == 0 {
      assert u[..0] == [] && pre + [] == pre;
    } else {
      FedContinues(poly, f, g, pre, u[..k], init, c);
      assert f.At(|pre| + k) == g.At(k);
    }
  }

  lemma ChecksumContinues(poly: bv32, f: Flips, g: Flips, pre: seq<byte>, u: seq<byte>,
      s: seq<byte>, init: bv32, c: bv32)
    requires u != [] && s == pre + u && c == Checksum(poly, f, pre, init)
    requires !g.At(0) && forall i | 0 < i <= |u| :: f.At(|pre| + i) == g.At(i)
    ensures Checksum(poly, f, s, init) == Checksum(poly, g, u, c)
  {
    FedContinues(poly, f, g, pre, u, init, c);
    assert f.At(|pre| + |u|) == g.At(|u|);
  }

  /** Another call over the next stretch of a message continues the chunked chain. */
  lemma ChunkContinues(poly: bv32, s: seq<byte>, off: nat, n: nat)
    requires 0 < n <= CHUNK && off + n <= |s| && off % CHUNK == 0 && (n == CHUNK || off + n == |s|)
    ensures var f := EveryChunk(|s|);
            Checksum(poly, f, s[..off + n], 0) == Crc32(poly, s[off..off + n], Checksum(poly, f, s[..off], 0))
  {
    var f, u := EveryChunk(|s|), s[off..off + n];
    FlipsOfChunk(|s|, off, n);
    assert s[..off] + u == s[..off + n];
    ChecksumContinues(poly, f, AtEnd(n), s[..off], u, s[..off + n], 0, Checksum(poly, f, s[..off], 0));
  }

  lemma FlipsOfChunk(total: nat, off: nat, n: nat)
    requires 0 < n <= CHUNK && off + n <= total && off % CHUNK == 0 && (n == CHUNK || off + n == total)
    ensures forall i | 0 < i <= n :: EveryChunk(total).At(off + i) == AtEnd(n).At(i)
  {
    forall i | 0 < i < n
      ensures EveryChunk(total).At(off + i) == AtEnd(n).At(i)
    {
      InsideChunk(off, i);
    }
  }

  lemma InsideChunk(off: nat, k: nat)
    requires off % CHUNK == 0 && 0 < k < CHUNK
    ensures (off + k) % CHUNK != 0
  {
  }

  /** The writer's two calls, over the header and then the payload, are its chain. */
  lemma HeaderThenPayload(poly: bv32, head: seq<byte>, data: seq<byte>)
    requires |head| == 8
    ensures Crc32(poly, data, Crc32(poly, head, 0)) == Checksum(poly, AfterHeader(8 + |data|), head + data, 0)
  {
    var f := AfterHeader(8 + |data|);
    FedContinues(poly, f, AtEnd(8), [], head, 0, 0);
    assert [] + head == head;
    var c := Crc32(poly, head, 0);
    if data == [] {
      assert head + data == head;
      XorAssociates(Fed(poly, f, head, 0), ONES, ONES);
      XorZero(ONES);
      XorZero(Fed(poly, f, head, 0));
    } else {
      FedContinues(poly, f, AtEnd(|data|), head, data, 0, c);
    }
  }

  /** A checksum call, and the loop of packet_crc_buffer that chains such calls over 256-byte chunks. */
  type Call = (seq<byte>, bv32) -> bv32

  function Chunked(call: Call, s: seq<byte>, off: nat, c: bv32): bv32
    requires off <= |s|
    decreases |s| - off
  {
    if off == |s| then c
    else
      var n := Min(|s| - off, CHUNK);
      Chunked(call, s, off + n, call(s[off..off + n], c))
  }

  ghost predicate CallsCrc(call: Call, poly: bv32, s: seq<byte>, c: bv32) {
    call(s, c) == Crc32(poly, s, c)
  }

  ghost predicate AlwaysCallsCrc(call: Call, poly: bv32) {
    forall s, c :: CallsCrc(call, poly, s, c)
  }

  /** sum(n) is what the calls have made of the first n bytes. */
  ghost predicate SumsUp(call: Call, s: seq<byte>, sum: nat -> bv32) {
    forall off: nat {:trigger SumsUpAt(call, s, sum, off)} :: SumsUpAt(call, s, sum, off)
  }

  ghost predicate SumsUpAt(call: Call, s: seq<byte>, sum: nat -> bv32, off: nat) {
    off < |s| && off % CHUNK == 0 ==> var n := Min(|s| - off, CHUNK); sum(off + n) == call(s[off..off + n], sum(off))
  }

  lemma {:induction false} ChunkedSumsUp(call: Call, s: seq<byte>, sum: nat -> bv32, off: nat)
    requires off <= |s| && (off % CHUNK == 0 || off == |s|) && SumsUp(call, s, sum)
    ensures Chunked(call, s, off, sum(off)) == sum(|s|)
    decreases |s| - off
  {
    if off < |s| {
      assert SumsUpAt(call, s, sum, off);
      ChunkedSumsUp(call, s, sum, off + Min(|s| - off, CHUNK));
    }
  }

  function PrefixChecksum(poly: bv32, s: seq<byte>, n: nat): bv32 {
    if n <= |s| then Checksum(poly, EveryChunk(|s|), s[..n], 0) else 0
  }

  lemma NextChunk(call: Call, poly: bv32, s: seq<byte>, off: nat, n: nat)
    requires AlwaysCallsCrc(call, poly)
    requires 0 < n <= CHUNK && off + n <= |s| && off % CHUNK == 0 && (n == CHUNK || off + n == |s|)
    ensures PrefixChecksum(poly, s, off + n) == call(s[off..off + n], PrefixChecksum(poly, s, off))
  {
    ChunkContinues(poly, s, off, n);
    assert CallsCrc(call, poly, s[off..off + n], PrefixChecksum(poly, s, off));
  }

  /** The chunked loop computes one checksum over the whole message, complemented at every cut. */
  lemma {:induction false} ChunkedFromStart(call: Call, poly: bv32, s: seq<byte>)
    requires s != [] && AlwaysCallsCrc(call, poly)
    ensures Chunked(call, s, 0, 0) == Checksum(poly, EveryChunk(|s|), s, 0)
  {
    var sum := (n: nat) => PrefixChecksum(poly, s, n);
    forall off: nat
      ensures SumsUpAt(call, s, sum, off)
    {
      if off < |s| && off % CHUNK == 0 {
        NextChunk(call, poly, s, off, Min(|s| - off, CHUNK));
      }
    }
    assert s[..0] == [] && s[..|s|] == s;
    ChunkedSumsUp(call, s, sum, 0);
  }

  /** A call for every 256 bytes, each from the result of the one before. */
  function CallsOf256(poly: bv32, s: seq<byte>, c: bv32): bv32
    decreases |s|
  {
    if |s| <= 256 then Crc32(poly, s, c) else CallsOf256(poly, s[256..], Crc32(poly, s[..256], c))
  }

  lemma {:induction false} CallsFrom(poly: bv32, s: seq<byte>, off: nat)
    requires off < |s| && off % 256 == 0
    ensures var f := EveryChunk(|s|);
            CallsOf256(poly, s[off..], Checksum(poly, f, s[..off], 0)) == Checksum(poly, f, s, 0)
    decreases |s| - off
  {
    var f, n := EveryChunk(|s|), Min(|s| - off, 256);
    ChunkContinues(poly, s, off, n);
    assert s[off..off + n] == s[off..][..n];
    if off + n == |s| {
      assert s[..off + n] == s && s[off..][..n] == s[off..];
    } else {
      assert s[off..][256..] == s[off + 256..];
      CallsFrom(poly, s, off + 256);
    }
  }

  /** So the chain of packet_crc_buffer is one call for every 256 bytes. */
  lemma ChunksAreCalls(poly: bv32, s: seq<byte>)
    requires s != []
    ensures Checksum(poly, EveryChunk(|s|), s, 0) == CallsOf256(poly, s, 0)
  {
    assert s[0..] == s && s[..0] == [];
    CallsFrom(poly, s, 0);
  }

  // ----- error detection

  ghost predicate HasTopBit(poly: bv32) {
    poly >= 0x8000_0000
  }

  lemma TopBitSurvives(poly: bv32, c: bv32)
    requires HasTopBit(poly)
    ensures Xor(poly, Half(c)) != 0
  {
  }

  lemma BitStepNonzero(poly: bv32, c: bv32)
    requires HasTopBit(poly) && c != 0
    ensures BitStep(poly, c) != 0
  {
    if Odd(c) {
      TopBitSurvives(poly, c);
    } else {
      assert c & 1 != 1 && c >> 1 == 0 ==> c == 0;
    }
  }

  lemma {:induction false} BitStepsNonzero(poly: bv32, c: bv32, n: nat)
    requires HasTopBit(poly) && c != 0
    ensures BitSteps(poly, c, n) != 0
  {
    if n > 0 {
      BitStepsNonzero(poly, c, n - 1);
      BitStepNonzero(poly, BitSteps(poly, c, n - 1));
    }
  }

  /** The difference of two registers evolves by itself: neither the register nor where it is
      complemented matters. */
  lemma ByteStepDifference(poly: bv32, f: Flips, n: nat, x: bv32, y: bv32, a: byte, b: byte)
    ensures Xor(ByteStep(poly, f.Apply(n, x), a), ByteStep(poly, f.Apply(n, y), b))
         == BitSteps(poly, Xor(Xor(x, y), Gap(a, b)), 8)
  {
    var x', y' := f.Apply(n, x), f.Apply(n, y);
    XorCancels(ONES, x, y);
    BitStepsLinear(poly, Xor(x', Wide(a)), Xor(y', Wide(b)), 8);
    XorExchange(x', Wide(a), y', Wide(b));
  }

  lemma ByteStepKeepsApart(poly: bv32, f: Flips, n: nat, x: bv32, y: bv32, c: byte)
    requires HasTopBit(poly) && x != y
    ensures ByteStep(poly, f.Apply(n, x), c) != ByteStep(poly, f.Apply(n, y), c)
  {
    ByteStepDifference(poly, f, n, x, y, c, c);
    XorZeroOnlyIfEqual(x, y);
    XorZero(Wide(c));
    XorZero(Xor(x, y));
    BitStepsNonzero(poly, Xor(x, y), 8);
    XorZeroOnlyIfEqual(ByteStep(poly, f.Apply(n, x), c), ByteStep(poly, f.Apply(n, y), c));
  }

  /** Registers that differ keep differing over a common suffix. */
  lemma {:induction false} SuffixKeepsApart(poly: bv32, f: Flips, a: seq<byte>, b: seq<byte>, post: seq<byte>,
      init: bv32)
    requires HasTopBit(poly) && |a| == |b|
    requires Fed(poly, f, a, init) != Fed(poly, f, b, init)
    ensures Fed(poly, f, a + post, init) != Fed(poly, f, b + post, init)
  {
    if post == [] {
      assert a + post == a && b + post == b;
    } else {
      var k := |post| - 1;
      SuffixKeepsApart(poly, f, a, b, post[..k], init);
      FedAppend(poly, f, a, post, init);
      FedAppend(poly, f, b, post, init);
      ByteStepKeepsApart(poly, f, |a| + k, Fed(poly, f, a + post[..k], init), Fed(poly, f, b + post[..k], init),
          post[k]);
    }
  }

  /** The difference pattern of two windows packed into one word, first byte lowest. */
  function Packed(u: seq<byte>, v: seq<byte>): bv32
    requires |u| == |v|
  {
    if u == [] then 0
    else
      var n := |u| - 1;
      Xor(Packed(u[..n], v[..n]), Lift(Gap(u[n], v[n]), n))
  }

  function Gap(a: byte, b: byte): bv32 {
    Xor(Wide(a), Wide(b))
  }

  function Lift(w: bv32, n: nat): bv32 {
    if n == 0 then w else ShiftByte(Lift(w, n - 1))
  }

  lemma DifferenceStep(poly: bv32, f: Flips, pos: nat, x: bv32, y: bv32, a: byte, b: byte, p: bv32,
      n: nat)
    requires n <= 3 && Xor(x, y) == BitSteps(poly, p, 8 * n)
    ensures Xor(ByteStep(poly, f.Apply(pos, x), a), ByteStep(poly, f.Apply(pos, y), b))
         == BitSteps(poly, Xor(p, Lift(Gap(a, b), n)), 8 * n + 8)
  {
    GapBound(a, b);
    ByteStepDifference(poly, f, pos, x, y, a, b);
    PackedStep(poly, p, Gap(a, b), n);
  }

  lemma DifferenceNext(poly: bv32, f: Flips, pos: nat, x: bv32, y: bv32, nextX: bv32, nextY: bv32,
      a: byte, b: byte, p: bv32, q: bv32, n: nat, m: nat)
    requires n <= 3 && m == 8 * n + 8 && Xor(x, y) == BitSteps(poly, p, 8 * n) && q == Xor(p, Lift(Gap(a, b), n))
    requires nextX == ByteStep(poly, f.Apply(pos, x), a) && nextY == ByteStep(poly, f.Apply(pos, y), b)
    ensures Xor(nextX, nextY) == BitSteps(poly, q, m)
  {
    DifferenceStep(poly, f, pos, x, y, a, b, p, n);
  }

  lemma {:induction false} WindowGrows(poly: bv32, f: Flips, pre: seq<byte>, u: seq<byte>, v: seq<byte>, init: bv32,
      n: nat)
    requires |u| == |v| == n + 1 <= 4
    requires Xor(Fed(poly, f, pre + u[..n], init), Fed(poly, f, pre + v[..n], init))
          == BitSteps(poly, Packed(u[..n], v[..n]), 8 * n)
    ensures Xor(Fed(poly, f, pre + u, init), Fed(poly, f, pre + v, init)) == BitSteps(poly, Packed(u, v), 8 * n + 8)
  {
    FedAppend(poly, f, pre, u, init);
    FedAppend(poly, f, pre, v, init);
    DifferenceNext(poly, f, |pre| + n, Fed(poly, f, pre + u[..n], init), Fed(poly, f, pre + v[..n], init),
                   Fed(poly, f, pre + u, init), Fed(poly, f, pre + v, init), u[n], v[n], Packed(u[..n], v[..n]),
                       Packed(u, v), n, 8 * n + 8);
  }

  /** After the window, the difference is that of its packed pattern shifted through. */
  lemma {:induction false} WindowDifference(poly: bv32, f: Flips, pre: seq<byte>, u: seq<byte>, v: seq<byte>,
      init: bv32, m: nat)
    requires |u| == |v| <= 4 && m == 8 * |u|
    ensures Xor(Fed(poly, f, pre + u, init), Fed(poly, f, pre + v, init)) == BitSteps(poly, Packed(u, v), m)
  {
    if u == [] {
      assert pre + u == pre && pre + v == pre;
      XorZero(Fed(poly, f, pre, init));
    } else {
      var n := |u| - 1;
      WindowDifference(poly, f, pre, u[..n], v[..n], init, 8 * n);
      WindowGrows(poly, f, pre, u, v, init, n);
    }
  }

  lemma PackedStep(poly: bv32, p: bv32, w: bv32, n: nat)
    requires w <= 0xFF && n <= 3
    ensures BitSteps(poly, Xor(p, Lift(w, n)), 8 * n + 8) == BitSteps(poly, Xor(BitSteps(poly, p, 8 * n), w), 8)
  {
    LiftDown(poly, w, n);
    BitStepsLinear(poly, p, Lift(w, n), 8 * n);
    BitStepsAdd(poly, Xor(p, Lift(w, n)), 8 * n, 8);
  }

  lemma {:induction false} LiftDown(poly: bv32, w: bv32, n: nat)
    requires w <= 0xFF && n <= 3
    ensures BitSteps(poly, Lift(w, n), 8 * n) == w
  {
    if n > 0 {
      LiftBound(w, n - 1);
      BitStepsAdd(poly, Lift(w, n), 8, 8 * (n - 1));
      ByteShift(poly, Lift(w, n - 1));
      LiftDown(poly, w, n - 1);
    }
  }

  /** The largest word of n + 1 bytes. */
  function Limit(n: nat): bv32 {
    if n == 0 then 0xFF else if n == 1 then 0xFFFF else if n == 2 then 0xFF_FFFF else ONES
  }

  lemma ShiftByteBound(w: bv32, n: nat)
    requires w <= Limit(n) && n < 2
    ensures ShiftByte(w) <= Limit(n + 1)
  {
  }

  lemma {:induction false} LiftBound(w: bv32, n: nat)
    requires w <= 0xFF && n <= 2
    ensures Lift(w, n) <= Limit(n)
  {
    if n > 0 {
      LiftBound(w, n - 1);
      ShiftByteBound(Lift(w, n - 1), n - 1);
    }
  }

  lemma StackByte1(p: bv32, w: bv32)
    requires p <= 0xFF && w <= 0xFF
    ensures Xor(p, ShiftByte(w)) <= 0xFFFF
    ensures Xor(p, ShiftByte(w)) == 0 ==> p == 0 && w == 0
  {
  }

  lemma StackByte2(p: bv32, w: bv32)
    requires p <= 0xFFFF && w <= 0xFF
    ensures Xor(p, ShiftByte(ShiftByte(w))) <= 0xFF_FFFF
    ensures Xor(p, ShiftByte(ShiftByte(w))) == 0 ==> p == 0 && w == 0
  {
  }

  lemma StackByte3(p: bv32, w: bv32)
    requires p <= 0xFF_FFFF && w <= 0xFF
    ensures Xor(p, ShiftByte(ShiftByte(ShiftByte(w)))) == 0 ==> p == 0 && w == 0
  {
  }

  /** A further byte stacked above p neither overflows nor cancels anything. */
  lemma StackByte(p: bv32, w: bv32, n: nat)
    requires n <= 3 && w <= 0xFF && (if n == 0 then p == 0 else p <= Limit(n - 1))
    ensures n < 3 ==> Xor(p, Lift(w, n)) <= Limit(n)
    ensures Xor(p, Lift(w, n)) == 0 ==> p == 0 && w == 0
  {
    assert Lift(w, 0) == w;
    assert Lift(w, 1) == ShiftByte(w);
    if n == 0 {
      XorZero(w);
    } else if n == 1 {
      StackByte1(p, w);
    } else if n == 2 {
      assert Lift(w, 2) == ShiftByte(Lift(w, 1));
      StackByte2(p, w);
    } else {
      assert Lift(w, 2) == ShiftByte(Lift(w, 1));
      assert Lift(w, 3) == ShiftByte(Lift(w, 2));
      StackByte3(p, w);
    }
  }

  lemma GapBound(a: byte, b: byte)
    ensures Gap(a, b) <= 0xFF
  {
  }

  lemma GapZero(a: byte, b: byte)
    requires Gap(a, b) == 0
    ensures a == b
  {
    XorZeroOnlyIfEqual(Wide(a), Wide(b));
    WideInjective(a, b);
  }

  lemma WideInjective(a: byte, b: byte)
    requires Wide(a) == Wide(b)
    ensures a == b
  {
    WidenInjective(Bits(a), Bits(b));
    BitsInjective(a, b);
  }

  lemma WidenInjective(a: bv8, b: bv8)
    requires a as bv32 == b as bv32
    ensures a == b
  {
  }

  lemma {:induction false} PackedBound(u: seq<byte>, v: seq<byte>)
    requires |u| == |v| <= 3
    ensures if |u| == 0 then Packed(u, v) == 0 else Packed(u, v) <= Limit(|u| - 1)
  {
    if u != [] {
      var n := |u| - 1;
      PackedBound(u[..n], v[..n]);
      GapBound(u[n], v[n]);
      StackByte(Packed(u[..n], v[..n]), Gap(u[n], v[n]), n);
    }
  }

  lemma {:induction false} PackedZero(u: seq<byte>, v: seq<byte>)
    requires |u| == |v| <= 4 && Packed(u, v) == 0
    ensures u == v
  {
    if u != [] {
      var n := |u| - 1;
      PackedBound(u[..n], v[..n]);
      GapBound(u[n], v[n]);
      StackByte(Packed(u[..n], v[..n]), Gap(u[n], v[n]), n);
      PackedZero(u[..n], v[..n]);
      GapZero(u[n], v[n]);
      assert u == u[..n] + [u[n]] && v == v[..n] + [v[n]];
    }
  }

  /** Two messages of the same length that differ only inside a window of at most four bytes never
      share a checksum, however the computation is cut into calls. */
  lemma BurstDetected(poly: bv32, f: Flips, pre: seq<byte>, u: seq<byte>, v: seq<byte>,
      post: seq<byte>, init: bv32)
    requires HasTopBit(poly) && |u| == |v| <= 4 && u != v
    ensures Checksum(poly, f, pre + u + post, init) != Checksum(poly, f, pre + v + post, init)
  {
    WindowDifference(poly, f, pre, u, v, init, 8 * |u|);
    if Packed(u, v) == 0 {
      PackedZero(u, v);
    }
    BitStepsNonzero(poly, Packed(u, v), 8 * |u|);
    XorZeroOnlyIfEqual(Fed(poly, f, pre + u, init), Fed(poly, f, pre + v, init));
    SuffixKeepsApart(poly, f, pre + u, pre + v, post, init);
    var a, b := pre + u + post, pre + v + post;
    ApplyKeepsApart(f, |a|, Fed(poly, f, a, init), Fed(poly, f, b, init));
  }

  lemma ApplyKeepsApart(f: Flips, n: nat, x: bv32, y: bv32)
    requires x != y
    ensures f.Apply(n, x) != f.Apply(n, y)
  {
    XorCancels(ONES, x, y);
    XorZeroOnlyIfEqual(x, y);
    XorZeroOnlyIfEqual(f.Apply(n, x), f.Apply(n, y));
  }

  // ----- the writer's chain against the parser's

  /** The difference between the two chains after n of total bytes; no message byte enters it. */
  function Drift(poly: bv32, total: nat, n: nat): bv32 {
    var before := if n == 0 then 0 else BitSteps(poly, Drift(poly, total, n - 1), 8);
    if AfterHeader(total).At(n) != EveryChunk(total).At(n) then Xor(before, ONES) else before
  }

  lemma ApplyDifference(f: Flips, g: Flips, n: nat, x: bv32, y: bv32)
    ensures Xor(f.Apply(n, x), g.Apply(n, y))
         == if f.At(n) != g.At(n) then Xor(Xor(x, y), ONES) else Xor(x, y)
  {
    XorCancels(ONES, x, y);
    XorAssociates(x, y, ONES);
    XorAssociates(x, ONES, y);
    XorCommutes(y, ONES);
  }

  lemma {:induction false} ChainsDrift(poly: bv32, total: nat, s: seq<byte>)
    ensures Xor(Checksum(poly, AfterHeader(total), s, 0), Checksum(poly, EveryChunk(total), s, 0))
         == Drift(poly, total, |s|)
  {
    var f, g := AfterHeader(total), EveryChunk(total);
    var x, y := Fed(poly, f, s, 0), Fed(poly, g, s, 0);
    ApplyDifference(f, g, |s|, x, y);
    if s == [] {
      XorZero(0);
    } else {
      var n := |s| - 1;
      ChainsDrift(poly, total, s[..n]);
      var x', y' := Checksum(poly, f, s[..n], 0), Checksum(poly, g, s[..n], 0);
      BitStepsLinear(poly, Xor(x', Wide(s[n])), Xor(y', Wide(s[n])), 8);
      XorCancels(Wide(s[n]), x', y');
    }
  }

  /** The header-then-payload chain and the 256-byte chain give the same checksum exactly when their
      drift for that length and polynomial is zero. */
  lemma ChainsAgreeIff(poly: bv32, s: seq<byte>)
    ensures Checksum(poly, AfterHeader(|s|), s, 0) == Checksum(poly, EveryChunk(|s|), s, 0)
       <==> Drift(poly, |s|, |s|) == 0
  {
    AgreeIff(poly, s, Checksum(poly, AfterHeader(|s|), s, 0), Checksum(poly, EveryChunk(|s|), s, 0),
             Drift(poly, |s|, |s|));
  }

  lemma AgreeIff(poly: bv32, s: seq<byte>, x: bv32, y: bv32, d: bv32)
    requires x == Checksum(poly, AfterHeader(|s|), s, 0) && y == Checksum(poly, EveryChunk(|s|), s, 0)
    requires d == Drift(poly, |s|, |s|)
    ensures x == y <==> d == 0
  {
    ChainsDrift(poly, |s|, s);
    EqualIffNoDifference(x, y, d);
  }

  lemma EqualIffNoDifference(x: bv32, y: bv32, d: bv32)
    requires Xor(x, y) == d
    ensures x == y <==> d == 0
  {
    XorZeroOnlyIfEqual(x, y);
  }

  /** With the top bit of the polynomial set, up to 256 bytes of header and payload never agree. */
  lemma {:induction false} DriftNonzero(poly: bv32, total: nat, n: nat)
    requires HasTopBit(poly) && 8 <= n <= total <= CHUNK
    ensures Drift(poly, total, n) != 0
  {
    if n == 8 {
      DriftBeforeHeader(poly, total, 7);
      BitStepsOfZero(poly, 8);
      XorZero(ONES);
    } else {
      DriftNonzero(poly, total, n - 1);
      BitStepsNonzero(poly, Drift(poly, total, n - 1), 8);
    }
  }

  lemma {:induction false} DriftBeforeHeader(poly: bv32, total: nat, n: nat)
    requires n < 8 <= total
    ensures Drift(poly, total, n) == 0
  {
    if n > 0 {
      DriftBeforeHeader(poly, total, n - 1);
      BitStepsOfZero(poly, 8);
    }
  }

  lemma {:induction false} BitStepsOfZero(poly: bv32, n: nat)
    ensures BitSteps(poly, 0, n) == 0
  {
    if n > 0 {
      BitStepsOfZero(poly, n - 1);
    }
  }
}
