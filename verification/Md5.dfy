/** The streaming message digest of src/bscl_md5.c: data arrives in pieces, is collected in a 64-byte buffer
    and counted in bits in two 32-bit words. */
module Md5 {
  import opened Words
  import opened Md5Block

  type State = Regs<bv32>

  type Transformation = (State, seq<byte>) --> State

  const INIT: State := Regs(0x6745_2301, 0xefcd_ab89, 0x98ba_dcfe, 0x1032_5476)

  // ----- the standard, section 3 of RFC 1321

  function Zeros(n: nat): (s: seq<byte>)
    ensures |s| == n && forall i :: 0 <= i < n ==> s[i] == 0
  {
    seq(n, i => 0)
  }

  type Word = n: nat | n < TWO32

  /** Words as bytes, low byte first. */
  function Encoded(words: seq<Word>): (s: seq<byte>)
    ensures |s| == 4 * |words|
    decreases |words|
  {
    if words == [] then [] else Encoded(words[..|words| - 1]) + Number32Bytes(words[|words| - 1])
  }

  /** The number of bits of a message, low word first, modulo 2^64. */
  function LengthBytes(bytes: nat): (s: seq<byte>)
    ensures |s| == 8
  {
    Encoded([8 * bytes % TWO32, 8 * bytes / TWO32 % TWO32])
  }

  /** As one number of 64 bits, low byte first. */
  lemma LengthIsBits(bytes: nat)
    ensures var s := LengthBytes(bytes);
            Number32(s[..4]) + TWO32 * Number32(s[4..]) == 8 * bytes % (TWO32 * TWO32)
  {
    var low, high := 8 * bytes % TWO32, 8 * bytes / TWO32 % TWO32;
    assert [low, high][..1] == [low] && [low][..0] == [];
    assert Encoded([low]) == Number32Bytes(low);
    assert LengthBytes(bytes) == Number32Bytes(low) + Number32Bytes(high);
    TwoWords(8 * bytes, 8 * bytes / TWO32);
  }

  lemma TwoWords(v: nat, q: nat)
    requires q == v / TWO32
    ensures v % (TWO32 * TWO32) == v % TWO32 + TWO32 * (q % TWO32)
  {
    var h := q / TWO32;
    assert q == TWO32 * h + q % TWO32;
    assert v == (TWO32 * TWO32) * h + (v % TWO32 + TWO32 * (q % TWO32));
  }

  /** The fewest zeros that leave 8 bytes missing to a whole block. */
  function ZeroCount(n: nat): nat {
    if n % 64 < 56 then 55 - n % 64 else 119 - n % 64
  }

  lemma PaddedLength(n: nat)
    ensures ZeroCount(n) < 64 && (n + 1 + ZeroCount(n) + 8) % 64 == 0
  {
    var q, r := n / 64, n % 64;
    assert n == 64 * q + r;
    if r < 56 {
      assert n + 1 + ZeroCount(n) + 8 == 64 * (q + 1);
    } else {
      assert n + 1 + ZeroCount(n) + 8 == 64 * (q + 2);
    }
  }

  /** One bit, then zeros until 8 bytes are missing to a whole block, then the length. */
  function Padded(m: seq<byte>): (s: seq<byte>)
    ensures |s| % 64 == 0 && |m| + 9 <= |s| < |m| + 9 + 64 && s[..|m|] == m
  {
    PaddedLength(|m|);
    m + [0x80] + Zeros(ZeroCount(|m|)) + LengthBytes(|m|)
  }

  /** tr is the block transformation. */
  ghost predicate Transforms(tr: Transformation) {
    forall st, b {:trigger TransformsAt(tr, st, b)} :: TransformsAt(tr, st, b)
  }

  ghost predicate TransformsAt(tr: Transformation, st: State, b: seq<byte>) {
    |b| == 64 ==> tr.requires(st, b) && tr(st, b) == Compress(st, b)
  }

  /** The state after the first n blocks of s. */
  ghost function Absorbed(tr: Transformation, s: seq<byte>, n: nat): State
    requires Transforms(tr) && 64 * n <= |s|
  {
    if n == 0 then INIT
    else
      var b := s[64 * (n - 1)..64 * n];
      assert TransformsAt(tr, Absorbed(tr, s, n - 1), b);
      tr(Absorbed(tr, s, n - 1), b)
  }

  function NumbersOf(st: State): (words: seq<Word>)
    ensures |words| == 4
  {
    [st.a as Word, st.b as Word, st.c as Word, st.d as Word]
  }

  type Numbering = State -> seq<Word>

  /** num gives the words of a state as numbers. */
  ghost predicate Numbers(num: Numbering) {
    forall st {:trigger NumbersAt(num, st)} :: NumbersAt(num, st)
  }

  predicate NumbersAt(num: Numbering, st: State) {
    num(st) == NumbersOf(st)
  }

  ghost function Digest(tr: Transformation, num: Numbering, m: seq<byte>): (s: seq<byte>)
    requires Transforms(tr)
  {
    Encoded(num(Absorbed(tr, Padded(m), |Padded(m)| / 64)))
  }

  /** The code's own functions qualify. */
  lemma CodeQualifies()
    ensures Transforms(Compress) && Numbers(NumbersOf)
  {
    forall st, b
      ensures TransformsAt(Compress, st, b)
    {
    }
    forall st
      ensures NumbersAt(NumbersOf, st)
    {
    }
  }

  lemma {:induction false} AbsorbedPrefix(tr: Transformation, s: seq<byte>, t: seq<byte>, n: nat)
    requires Transforms(tr) && 64 * n <= |s|
    ensures Absorbed(tr, s + t, n) == Absorbed(tr, s, n)
  {
    if n > 0 {
      AbsorbedPrefix(tr, s, t, n - 1);
      assert (s + t)[64 * (n - 1)..64 * n] == s[64 * (n - 1)..64 * n];
    }
  }

  lemma AbsorbNext(tr: Transformation, s: seq<byte>, n: nat, st: State, b: seq<byte>)
    requires Transforms(tr) && 64 * n + 64 <= |s| && st == Absorbed(tr, s, n) && b == s[64 * n..64 * n + 64]
    ensures tr.requires(st, b) && tr(st, b) == Absorbed(tr, s, n + 1)
  {
    assert TransformsAt(tr, st, b);
    assert 64 * (n + 1) == 64 * n + 64;
  }

  // ----- counting bits in two words

  lemma DivMod(x: nat, q: nat, r: nat)
    requires x == TWO32 * q + r && r < TWO32
    ensures x / TWO32 == q && x % TWO32 == r
  {
  }

  lemma ModAdd(h: nat, d: nat)
    ensures (h % TWO32 + d) % TWO32 == (h + d) % TWO32
  {
    var q := h / TWO32;
    var r := (h % TWO32 + d) / TWO32;
    DivMod(h + d, q + r, (h % TWO32 + d) % TWO32);
  }

  /** Adding the pieces of a length to the words of a count, as the code does it, gives the words of the sum. */
  lemma CountAdds(n: nat, len: nat)
    requires len < TWO32
    ensures AddLow(8 * n % TWO32, len) == 8 * (n + len) % TWO32
    ensures AddHigh(8 * n / TWO32 % TWO32, 8 * n % TWO32, len) == 8 * (n + len) / TWO32 % TWO32
  {
    var h, low, e, add := 8 * n / TWO32, 8 * n % TWO32, len / EIGHTH, len * 8 % TWO32;
    EighthDivides(len);
    var carry := if low + add >= TWO32 then 1 else 0;
    DivMod(low + add, carry, low + add - TWO32 * carry);
    DivMod(8 * (n + len), h + e + carry, low + add - TWO32 * carry);
    ModAdd(h, carry);
    ModAdd(h + carry, e);
    assert h + carry + e == h + e + carry;
  }

  const EIGHTH: nat := 0x2000_0000

  lemma EighthDivides(len: nat)
    ensures 8 * len == TWO32 * (len / EIGHTH) + len * 8 % TWO32
  {
    var e := len / EIGHTH;
    DivMod(8 * len, e, 8 * (len - EIGHTH * e));
  }

  /** count[0] += len << 3 */
  function AddLow(low: nat, len: nat): nat {
    (low + len * 8 % TWO32) % TWO32
  }

  /** The carry into count[1], and then what the shift lost. */
  function AddHigh(high: nat, low: nat, len: nat): nat {
    var carried := if AddLow(low, len) < len * 8 % TWO32 then (high + 1) % TWO32 else high;
    (carried + len / EIGHTH) % TWO32
  }

  lemma CountTellsIndex(n: nat)
    ensures (8 * n % TWO32) / 8 % 64 == n % 64
  {
  }

  // ----- the loop over whole blocks

  /** Where the loop index stands when less than a block is left. */
  function LastIndex(n: nat, len: nat): int {
    len - (n + len) % 64
  }

  /** With n bytes before it, a piece is short enough for the 32-bit sum in the loop's test. */
  predicate IndexFits(n: nat, len: nat) {
    len < TWO32 && LastIndex(n, len) + 63 < TWO32
  }

  lemma StopsAtLast(n: nat, len: nat, i: nat, k: nat)
    requires IndexFits(n, len) && i <= len && n + i == 64 * k
    ensures i <= LastIndex(n, len) && i + 63 < TWO32
  {
  }

  /** The loop's test at index i. */
  predicate Goes(i: nat, len: nat) {
    (i + 63) % TWO32 < len
  }

  /** The index after k turns, with its own wrap-around. */
  function Index(from: nat, k: nat): nat {
    if k == 0 then from else (Index(from, k - 1) + 64) % TWO32
  }

  /** The loop enters its body for the turn after k turns. */
  predicate Enters(from: nat, len: nat, k: nat) {
    Goes(Index(from, k), len) && (k > 0 ==> Enters(from, len, k - 1))
  }

  /** In that turn it takes a block that ends behind the input. */
  predicate ReadsPast(from: nat, len: nat, k: nat) {
    Enters(from, len, k) && Index(from, k) + 64 > len
  }

  /** Up to the last index the loop runs as with unbounded numbers. */
  lemma {:induction false} RunsToLast(n: nat, len: nat, from: nat, k: nat)
    requires len < TWO32 && (n + from) % 64 == 0 && from + 64 * k <= LastIndex(n, len)
    ensures Index(from, k) == from + 64 * k && (k > 0 ==> Enters(from, len, k - 1))
  {
    if k > 0 {
      RunsToLast(n, len, from, k - 1);
    }
  }

  lemma {:induction false} EntersBefore(from: nat, len: nat, j: nat, k: nat)
    requires j <= k && Enters(from, len, k)
    ensures Enters(from, len, j)
  {
    if j < k {
      EntersBefore(from, len, j, k - 1);
    }
  }

  /** The loop reads past the input exactly if the piece is not short enough; n bytes came before it, and from of its
      bytes have completed a block. */
  lemma ReadsPastIff(n: nat, len: nat, from: nat)
    requires len < TWO32 && from <= len && (n + from) % 64 == 0
    ensures (exists k: nat :: ReadsPast(from, len, k)) <==> !IndexFits(n, len)
  {
    var last := LastIndex(n, len);
    LastIsReached(n, len, from);
    var z := (last - from) / 64;
    RunsToLast(n, len, from, z);
    if IndexFits(n, len) {
      if k: nat :| ReadsPast(from, len, k) {
        if k < z {
          RunsToLast(n, len, from, k);
        } else {
          EntersBefore(from, len, z, k);
        }
      }
    } else {
      WrapsAtLast(last, len);
      assert ReadsPast(from, len, z);
    }
  }

  lemma LastIsReached(n: nat, len: nat, from: nat)
    requires from <= len && (n + from) % 64 == 0
    ensures var last := LastIndex(n, len);
            from <= last <= len < last + 64 && from + 64 * ((last - from) / 64) == last
  {
    var a, b := (n + from) / 64, (n + len) / 64;
    assert n + from == 64 * a && n + len == 64 * b + (n + len) % 64;
    assert LastIndex(n, len) - from == 64 * (b - a);
  }

  lemma WrapsAtLast(last: nat, len: nat)
    requires last <= len < TWO32 && len < last + 64 && last + 63 >= TWO32
    ensures Goes(last, len)
  {
    assert (last + 63) % TWO32 == last + 63 - TWO32;
  }

  /** One byte accumulated, and then a piece of 2^32 - 1 bytes: the loop does read past it. */
  lemma LongPieceReadsPast()
    ensures !IndexFits(1, 0xFFFF_FFFF) && exists k: nat :: ReadsPast(63, 0xFFFF_FFFF, k)
  {
    ReadsPastIff(1, 0xFFFF_FFFF, 63);
  }

  // ----- the context

  method Apply(st: State, block: seq<byte>, ghost tr: Transformation) returns (r: State)
    requires Transforms(tr) && |block| == 64
    ensures tr.requires(st, block) && r == tr(st, block)
  {
    assert TransformsAt(tr, st, block);
    r := Transform(st, block);
  }

  lemma SliceOfSum(a: seq<byte>, b: seq<byte>, i: nat, j: nat)
    requires i <= j <= |b|
    ensures (a + b)[|a| + i..|a| + j] == b[i..j]
  {
  }

  lemma TailOfSum(a: seq<byte>, b: seq<byte>, i: nat, j: nat)
    requires i <= |a| && j <= |b|
    ensures (a + b)[i..|a| + j] == a[i..] + b[..j]
  {
  }

  class Context {
    var state: State
    var count0: nat
    var count1: nat
    const buffer: array<byte>
    /** Everything accumulated since the context was initialised. */
    ghost var fed: seq<byte>

    ghost predicate Valid(tr: Transformation)
      requires Transforms(tr)
      reads this, buffer
    {
      Counted() && Holding(tr)
    }

    /** The count is that of the bits fed, modulo 2^64. */
    ghost predicate Counted()
      reads `count0, `count1, `fed
    {
      count0 == 8 * |fed| % TWO32 && count1 == 8 * |fed| / TWO32 % TWO32
    }

    /** The whole blocks are in the state, the rest is in the buffer. */
    ghost predicate Holding(tr: Transformation)
      requires Transforms(tr)
      reads `state, `fed, buffer
    {
      && buffer.Length == 64
      && state == Absorbed(tr, fed, |fed| / 64)
      && buffer[..|fed| % 64] == fed[|fed| / 64 * 64..]
    }

    /** bscl_md5_init. */
    constructor (ghost tr: Transformation)
      requires Transforms(tr)
      ensures Valid(tr) && fed == [] && fresh(buffer)
    {
      state, count0, count1, buffer, fed := INIT, 0, 0, new byte[64], [];
    }

    /** memcpy into the buffer. */
    method CopyIn(index: nat, input: seq<byte>, from: nat, n: nat)
      requires index + n <= buffer.Length && from + n <= |input|
      modifies buffer
      ensures buffer[..index + n] == old(buffer[..index]) + input[from..from + n]
    {
      for p := 0 to n
        invariant buffer[..index + p] == old(buffer[..index]) + input[from..from + p]
      {
        buffer[index + p] := input[from + p];
      }
    }

    /** More data. */
    method Accumulate(input: seq<byte>, ghost tr: Transformation)
      requires Transforms(tr) && Valid(tr) && IndexFits(|fed|, |input|)
      modifies this, buffer
      ensures Valid(tr) && fed == old(fed) + input
    {
      CountTellsIndex(|fed|);
      CountAdds(|fed|, |input|);
      var index := count0 / 8 % 64;
      count0, count1 := AddLow(count0, |input|), AddHigh(count1, count0, |input|);
      Take(index, input, tr);
    }

    /** What Accumulate does once the bits are counted. */
    method Take(index: nat, input: seq<byte>, ghost tr: Transformation)
      requires Transforms(tr) && Holding(tr) && index == |fed| % 64 && IndexFits(|fed|, |input|)
      modifies `state, `fed, buffer
      ensures Holding(tr) && fed == old(fed) + input
    {
      ghost var s := fed + input;
      var i, held;
      ghost var k;
      i, held, k := TakeBlocks(index, input, tr);
      var n := |input| - i;
      assert input[i..i + n] == input[i..];
      CopyIn(held, input, i, n);
      LastBlock(s, k);
      assert buffer[..|s| % 64] == s[|s| / 64 * 64..];
      fed := s;
    }

    /** The whole blocks; what is then held in the buffer and left of the input is the unfinished one. */
    method TakeBlocks(index: nat, input: seq<byte>, ghost tr: Transformation) returns (i: nat, held: nat, ghost k: nat)
      requires Transforms(tr) && Holding(tr) && index == |fed| % 64 && IndexFits(|fed|, |input|)
      modifies `state, buffer
      ensures var s := fed + input;
              && i <= |input| && held <= buffer.Length && 64 * k <= |s| < 64 * k + 64
              && held + (|input| - i) == |s| - 64 * k
              && buffer[..held] + input[i..] == s[64 * k..] && state == Absorbed(tr, s, k)
    {
      var partLen := 64 - index;
      i, held, k := 0, index, |fed| / 64;
      if |input| >= partLen {
        FinishBlock(index, input, partLen, tr);
        i, k := AbsorbBlocks(input, partLen, k + 1, tr);
        held := 0;
      } else {
        AbsorbedPrefix(tr, fed, input, k);
      }
      StillToBuffer(fed, input, i, k, held, buffer[..held]);
    }

    /** Completes the block in the buffer with the first bytes of input. */
    method FinishBlock(index: nat, input: seq<byte>, partLen: nat, ghost tr: Transformation)
      requires Transforms(tr) && buffer.Length == 64 && state == Absorbed(tr, fed, |fed| / 64)
      requires index == |fed| % 64 && partLen == 64 - index && |input| >= partLen
            && buffer[..index] == fed[|fed| / 64 * 64..]
      modifies this`state, buffer
      ensures 64 * (|fed| / 64 + 1) == |fed| + partLen && state == Absorbed(tr, fed + input, |fed| / 64 + 1)
    {
      ghost var n := |fed| / 64;
      AbsorbedPrefix(tr, fed, input, n);
      CopyIn(index, input, 0, partLen);
      TailOfSum(fed, input, 64 * n, partLen);
      assert buffer[..index + partLen] == buffer[..];
      AbsorbNext(tr, fed + input, n, state, buffer[..]);
      state := Apply(state, buffer[..], tr);
    }

    /** The whole blocks of input from i on. */
    method AbsorbBlocks(input: seq<byte>, from: nat, ghost k0: nat, ghost tr: Transformation) returns (i: nat,
        ghost k: nat)
      requires Transforms(tr) && IndexFits(|fed|, |input|) && from <= |input| && |fed| + from == 64 * k0
      requires state == Absorbed(tr, fed + input, k0)
      modifies this`state
      ensures from <= i <= |input| < i + 64 && |fed| + i == 64 * k
      ensures state == Absorbed(tr, fed + input, k)
    {
      i, k := from, k0;
      ghost var s := fed + input;
      StopsAtLast(|fed|, |input|, i, k);
      while Goes(i, |input|)
        invariant from <= i <= |input| && |fed| + i == 64 * k && i + 63 < TWO32
        invariant state == Absorbed(tr, s, k)
        decreases |input| - i
      {
        SliceOfSum(fed, input, i, i + 64);
        AbsorbNext(tr, s, k, state, input[i..i + 64]);
        state := Apply(state, input[i..i + 64], tr);
        i, k := i + 64, k + 1;
        StopsAtLast(|fed|, |input|, i, k);
      }
    }

    /** md5_fini: pads, appends the length, puts out the state and wipes the context. */
    method Finish(ghost tr: Transformation, ghost num: Numbering) returns (digest: array<byte>)
      requires Transforms(tr) && Numbers(num) && Valid(tr)
      modifies this, buffer
      ensures fresh(digest) && digest[..] == Digest(tr, num, old(fed))
      ensures state == Regs(0, 0, 0, 0) && count0 == 0 && count1 == 0 && forall p :: 0 <= p < 64 ==> buffer[p] == 0
    {
      Pad(tr);
      digest := EncodeState(state, num);
      Wipe();
    }

    /** The padding and the length, accumulated like any other data. */
    method Pad(ghost tr: Transformation)
      requires Transforms(tr) && Valid(tr)
      modifies this, buffer
      ensures Valid(tr) && fed == Padded(old(fed))
    {
      CountTellsIndex(|fed|);
      var bits := Encode([count0, count1]);
      var index := count0 / 8 % 64;
      var padLen := if index < 56 then 56 - index else 120 - index;
      PaddingFits(fed, padLen);
      Accumulate(PADDING[..padLen], tr);
      Accumulate(bits[..], tr);
    }

    method Wipe()
      requires buffer.Length == 64
      modifies this, buffer
      ensures state == Regs(0, 0, 0, 0) && count0 == 0 && count1 == 0 && forall p :: 0 <= p < 64 ==> buffer[p] == 0
    {
      state, count0, count1, fed := Regs(0, 0, 0, 0), 0, 0, [];
      forall p | 0 <= p < 64 {
        buffer[p] := 0;
      }
    }
  }

  const PADDING: seq<byte> := [0x80] + Zeros(63)

  lemma PaddingFits(m: seq<byte>, padLen: nat)
    requires padLen == if |m| % 64 < 56 then 56 - |m| % 64 else 120 - |m| % 64
    ensures padLen <= |PADDING| && m + PADDING[..padLen] + LengthBytes(|m|) == Padded(m)
  {
    assert PADDING[..padLen] == [0x80] + Zeros(ZeroCount(|m|));
    assert m + PADDING[..padLen] == m + [0x80] + Zeros(ZeroCount(|m|));
  }

  lemma BytesOfWord(n: Word)
    ensures Number32Bytes(n)
          == [(n % 256) as byte, (n / 0x100 % 256) as byte,
              (n / 0x1_0000 % 256) as byte, (n / 0x100_0000 % 256) as byte]
  {
    var lo, hi := n % TWO16, n / TWO16;
    FourDigits(lo % 256, lo / 256, hi % 256, hi / 256);
  }

  lemma FourDigits(b0: nat, b1: nat, b2: nat, b3: nat)
    requires b0 < 256 && b1 < 256 && b2 < 256 && b3 < 256
    ensures var n := b0 + 256 * b1 + TWO16 * (b2 + 256 * b3);
            n % 256 == b0 && n / 0x100 % 256 == b1 && n / 0x1_0000 % 256 == b2 && n / 0x100_0000 % 256 == b3
  {
    var n := b0 + 256 * b1 + TWO16 * (b2 + 256 * b3);
    assert n == b0 + 256 * (b1 + 256 * (b2 + 256 * b3));
    assert n / 0x100 == b1 + 256 * (b2 + 256 * b3);
    assert n / 0x1_0000 == b2 + 256 * b3;
    assert n / 0x100_0000 == b3;
  }

  lemma EncodedNext(words: seq<Word>, i: nat)
    requires i < |words|
    ensures Encoded(words[..i + 1]) == Encoded(words[..i]) + Number32Bytes(words[i])
  {
    assert words[..i + 1][..i] == words[..i];
  }

  /** _Encode. */
  method Encode(input: seq<Word>) returns (output: array<byte>)
    ensures fresh(output) && output[..] == Encoded(input)
  {
    output := new byte[4 * |input|];
    for i := 0 to |input|
      invariant output[..4 * i] == Encoded(input[..i])
    {
      var w, j := input[i], 4 * i;
      output[j] := (w % 256) as byte;
      output[j + 1] := (w / 0x100 % 256) as byte;
      output[j + 2] := (w / 0x1_0000 % 256) as byte;
      output[j + 3] := (w / 0x100_0000 % 256) as byte;
      BytesOfWord(w);
      EncodedNext(input, i);
      assert output[..j + 4] == output[..j] + Number32Bytes(w);
    }
    assert input[..|input|] == input;
  }

  /** What is in the buffer and what is left of the input make up the unfinished block. */
  lemma StillToBuffer(fed: seq<byte>, input: seq<byte>, i: nat, k: nat, index: nat, held: seq<byte>)
    requires i <= |input| && |held| == index
    requires (index == 0 && |fed| + i == 64 * k) || (i == 0 && 64 * k <= |fed| && held == fed[64 * k..])
    ensures 64 * k <= |fed + input| && held + input[i..|input|] == (fed + input)[64 * k..]
    ensures index + (|input| - i) == |fed + input| - 64 * k
  {
    if index == 0 && |fed| + i == 64 * k {
      SliceOfSum(fed, input, i, |input|);
    } else {
      TailOfSum(fed, input, 64 * k, |input|);
    }
  }

  lemma LastBlock(s: seq<byte>, k: nat)
    requires 64 * k <= |s| < 64 * k + 64
    ensures |s| / 64 == k && |s| % 64 == |s| - 64 * k
  {
  }

  method EncodeState(st: State, ghost num: Numbering) returns (output: array<byte>)
    requires Numbers(num)
    ensures fresh(output) && output[..] == Encoded(num(st))
  {
    assert NumbersAt(num, st);
    output := Encode(NumbersOf(st));
  }

  lemma {:induction false} ConcatNext(chunks: seq<seq<byte>>, i: nat)
    requires i < |chunks|
    ensures Concat(chunks[..i + 1]) == Concat(chunks[..i]) + chunks[i]
  {
    if i == 0 {
      assert chunks[..1] == [chunks[0]];
      assert Concat(chunks[..1]) == chunks[0] + Concat([]);
    } else {
      ConcatNext(chunks[1..], i - 1);
      assert chunks[1..][..i] == chunks[..i + 1][1..];
      assert chunks[1..][..i - 1] == chunks[..i][1..];
    }
  }

  /** However a message is cut into pieces, the digest is that of the whole message. */
  method Run(chunks: seq<seq<byte>>, ghost tr: Transformation, ghost num: Numbering) returns (digest: array<byte>)
    requires Transforms(tr) && Numbers(num)
    requires forall i :: 0 <= i < |chunks| ==> IndexFits(|Concat(chunks[..i])|, |chunks[i]|)
    ensures digest[..] == Digest(tr, num, Concat(chunks))
  {
    var context := new Context(tr);
    for i := 0 to |chunks|
      invariant context.Valid(tr) && context.fed == Concat(chunks[..i]) && fresh(context) && fresh(context.buffer)
    {
      context.Accumulate(chunks[i], tr);
      ConcatNext(chunks, i);
    }
    assert chunks[..|chunks|] == chunks;
    digest := context.Finish(tr, num);
  }

  // ----- the same with the standard's own functions in place

  /** The block transformation of the standard; anything but a block leaves the state alone. */
  function OnBlocks(): (State, seq<byte>) -> State {
    (st, b) => if |b| == 64 then Compress(st, b) else st
  }

  /** The state after c has been applied to the first n blocks of s, one after the other. */
  function Folded(c: (State, seq<byte>) -> State, s: seq<byte>, n: nat): State
    requires 64 * n <= |s|
  {
    if n == 0 then INIT else c(Folded(c, s, n - 1), s[64 * (n - 1)..64 * n])
  }

  /** The message digest of RFC 1321. */
  function Md5Of(m: seq<byte>): seq<byte> {
    Encoded(NumbersOf(Folded(OnBlocks(), Padded(m), |Padded(m)| / 64)))
  }

  ghost predicate SameOnBlocks(tr: Transformation, c: (State, seq<byte>) -> State) {
    forall st, b {:trigger SameAt(tr, c, st, b)} :: SameAt(tr, c, st, b)
  }

  ghost predicate SameAt(tr: Transformation, c: (State, seq<byte>) -> State, st: State, b: seq<byte>) {
    |b| == 64 ==> tr.requires(st, b) && tr(st, b) == c(st, b)
  }

  lemma TransformsAlike(tr: Transformation)
    requires Transforms(tr)
    ensures SameOnBlocks(tr, OnBlocks())
  {
    forall st, b
      ensures SameAt(tr, OnBlocks(), st, b)
    {
      assert TransformsAt(tr, st, b);
    }
  }

  lemma {:induction false} AbsorbedIsFolded(tr: Transformation, c: (State, seq<byte>) -> State, s: seq<byte>, n: nat)
    requires Transforms(tr) && SameOnBlocks(tr, c) && 64 * n <= |s|
    ensures Absorbed(tr, s, n) == Folded(c, s, n)
  {
    if n > 0 {
      AbsorbedIsFolded(tr, c, s, n - 1);
      assert SameAt(tr, c, Absorbed(tr, s, n - 1), s[64 * (n - 1)..64 * n]);
    }
  }

  lemma DigestIsMd5(tr: Transformation, num: Numbering, m: seq<byte>)
    requires Transforms(tr) && Numbers(num)
    ensures Digest(tr, num, m) == Md5Of(m)
  {
    var p := Padded(m);
    TransformsAlike(tr);
    AbsorbedIsFolded(tr, OnBlocks(), p, |p| / 64);
    assert NumbersAt(num, Folded(OnBlocks(), p, |p| / 64));
  }

  /** However a message is cut into pieces, what comes out is the digest of RFC 1321. */
  method Hash(chunks: seq<seq<byte>>) returns (digest: array<byte>)
    requires forall i :: 0 <= i < |chunks| ==> IndexFits(|Concat(chunks[..i])|, |chunks[i]|)
    ensures digest[..] == Md5Of(Concat(chunks))
  {
    CodeQualifies();
    digest := Run(chunks, Compress, NumbersOf);
    DigestIsMd5(Compress, NumbersOf, Concat(chunks));
  }
}
