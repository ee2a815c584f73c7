/** The block transformation of src/bscl_md5.c: sixty-four operations written out one by one, against the
    four rounds of RFC 1321, section 3.4. */
module Md5Block {
  import opened Words

  /** The four registers, of words that only the operations look into. */
  datatype Regs<W> = Regs(a: W, b: W, c: W, d: W)

  type Number = n: nat | n < TWO32

  type Shift = s: nat | s <= 32

  // ----- the operations

  function F(x: bv32, y: bv32, z: bv32): bv32 {
    (x & y) | (!x & z)
  }

  function G(x: bv32, y: bv32, z: bv32): bv32 {
    (x & z) | (y & !z)
  }

  function H(x: bv32, y: bv32, z: bv32): bv32 {
    x ^ y ^ z
  }

  function I(x: bv32, y: bv32, z: bv32): bv32 {
    y ^ (x | !z)
  }

  function Rotate(x: bv32, n: Shift): bv32 {
    (x << n) | (x >> (32 - n))
  }

  function Mixed(a: bv32, f: bv32, x: bv32, t: bv32, s: Shift, b: bv32): bv32 {
    Rotate(a + f + x + t, s) + b
  }

  /** The new value of register a in round 0, 1, 2 or 3. */
  function Op(round: int, r: Regs<bv32>, x: bv32, s: Shift, n: Number): bv32 {
    var t := n as bv32;
    if round == 0 then Mixed(r.a, F(r.b, r.c, r.d), x, t, s, r.b)
    else if round == 1 then Mixed(r.a, G(r.b, r.c, r.d), x, t, s, r.b)
    else if round == 2 then Mixed(r.a, H(r.b, r.c, r.d), x, t, s, r.b)
    else Mixed(r.a, I(r.b, r.c, r.d), x, t, s, r.b)
  }

  /** Bit by bit: x chooses between y and z. */
  lemma FChooses(x: bv32, y: bv32, z: bv32)
    ensures F(x, y, z) & x == y & x && F(x, y, z) & !x == z & !x
  {
  }

  /** z chooses between x and y. */
  lemma GChooses(x: bv32, y: bv32, z: bv32)
    ensures G(x, y, z) & z == x & z && G(x, y, z) & !z == y & !z
  {
  }

  /** x, turned over where y and z differ. */
  lemma HTurns(x: bv32, y: bv32, z: bv32)
    ensures H(x, y, z) & (y ^ z) == !x & (y ^ z) && H(x, y, z) & !(y ^ z) == x & !(y ^ z)
  {
  }

  /** y, turned over where x is set or z is not. */
  lemma ITurns(x: bv32, y: bv32, z: bv32)
    ensures I(x, y, z) & (x | !z) == !y & (x | !z) && I(x, y, z) & !(x | !z) == y & !(x | !z)
  {
  }

  // ----- the schedule of section 3.4

  /** Which word of the block step n takes. */
  function WordOf(n: nat): (k: nat)
    ensures k < 16
  {
    if n < 16 then n % 16 else if n < 32 then (5 * n + 1) % 16 else if n < 48 then (3 * n + 5) % 16 else 7 * n % 16
  }

  function ShiftOf(n: nat): Shift {
    var j := n % 4;
    if n < 16 then if j == 0 then 7 else if j == 1 then 12 else if j == 2 then 17 else 22
    else if n < 32 then if j == 0 then 5 else if j == 1 then 9 else if j == 2 then 14 else 20
    else if n < 48 then if j == 0 then 4 else if j == 1 then 11 else if j == 2 then 16 else 23
    else if j == 0 then 6 else if j == 1 then 10 else if j == 2 then 15 else 21
  }

  function T1(n: nat): Number {
    if n == 0 then 0xd76a_a478
    else if n == 1 then 0xe8c7_b756
    else if n == 2 then 0x2420_70db
    else if n == 3 then 0xc1bd_ceee
    else if n == 4 then 0xf57c_0faf
    else if n == 5 then 0x4787_c62a
    else if n == 6 then 0xa830_4613
    else if n == 7 then 0xfd46_9501
    else if n == 8 then 0x6980_98d8
    else if n == 9 then 0x8b44_f7af
    else if n == 10 then 0xffff_5bb1
    else if n == 11 then 0x895c_d7be
    else if n == 12 then 0x6b90_1122
    else if n == 13 then 0xfd98_7193
    else if n == 14 then 0xa679_438e
    else 0x49b4_0821
  }

  function T2(n: nat): Number {
    if n == 0 then 0xf61e_2562
    else if n == 1 then 0xc040_b340
    else if n == 2 then 0x265e_5a51
    else if n == 3 then 0xe9b6_c7aa
    else if n == 4 then 0xd62f_105d
    else if n == 5 then 0x0244_1453
    else if n == 6 then 0xd8a1_e681
    else if n == 7 then 0xe7d3_fbc8
    else if n == 8 then 0x21e1_cde6
    else if n == 9 then 0xc337_07d6
    else if n == 10 then 0xf4d5_0d87
    else if n == 11 then 0x455a_14ed
    else if n == 12 then 0xa9e3_e905
    else if n == 13 then 0xfcef_a3f8
    else if n == 14 then 0x676f_02d9
    else 0x8d2a_4c8a
  }

  function T3(n: nat): Number {
    if n == 0 then 0xfffa_3942
    else if n == 1 then 0x8771_f681
    else if n == 2 then 0x6d9d_6122
    else if n == 3 then 0xfde5_380c
    else if n == 4 then 0xa4be_ea44
    else if n == 5 then 0x4bde_cfa9
    else if n == 6 then 0xf6bb_4b60
    else if n == 7 then 0xbebf_bc70
    else if n == 8 then 0x289b_7ec6
    else if n == 9 then 0xeaa1_27fa
    else if n == 10 then 0xd4ef_3085
    else if n == 11 then 0x0488_1d05
    else if n == 12 then 0xd9d4_d039
    else if n == 13 then 0xe6db_99e5
    else if n == 14 then 0x1fa2_7cf8
    else 0xc4ac_5665
  }

  function T4(n: nat): Number {
    if n == 0 then 0xf429_2244
    else if n == 1 then 0x432a_ff97
    else if n == 2 then 0xab94_23a7
    else if n == 3 then 0xfc93_a039
    else if n == 4 then 0x655b_59c3
    else if n == 5 then 0x8f0c_cc92
    else if n == 6 then 0xffef_f47d
    else if n == 7 then 0x8584_5dd1
    else if n == 8 then 0x6fa8_7e4f
    else if n == 9 then 0xfe2c_e6e0
    else if n == 10 then 0xa301_4314
    else if n == 11 then 0x4e08_11a1
    else if n == 12 then 0xf753_7e82
    else if n == 13 then 0xbd3a_f235
    else if n == 14 then 0x2ad7_d2bb
    else 0xeb86_d391
  }

  /** The table of the standard: step n adds the whole part of 2^32 times the sine of n + 1. */
  function T(n: nat): Number {
    if n < 16 then T1(n) else if n < 32 then T2(n - 16) else if n < 48 then T3(n - 32) else T4(n - 48)
  }

  type Operation<!W> = (int, Regs<W>, W, Shift, Number) -> W

  ghost predicate Scheduled(n: nat, round: int, k: nat, s: Shift, t: Number) {
    n / 16 == round && WordOf(n) == k && ShiftOf(n) == s && T(n) == t
  }

  /** One step; the registers move on by one. */
  function Step<W>(op: Operation<W>, r: Regs<W>, x: seq<W>, n: nat): Regs<W>
    requires |x| == 16
  {
    Regs(r.d, op(n / 16, r, x[WordOf(n)], ShiftOf(n), T(n)), r.b, r.c)
  }

  function Steps<W>(op: Operation<W>, r: Regs<W>, x: seq<W>, n: nat): Regs<W>
    requires |x| == 16
  {
    if n == 0 then r else Step(op, Steps(op, r, x, n - 1), x, n - 1)
  }

  /** Four steps bring every register back to its name. */
  function Four<W>(op: Operation<W>, r: Regs<W>, x: seq<W>, n: nat): Regs<W>
    requires |x| == 16
  {
    Step(op, Step(op, Step(op, Step(op, r, x, n), x, n + 1), x, n + 2), x, n + 3)
  }

  lemma FourSteps<W>(op: Operation<W>, r: Regs<W>, x: seq<W>, n: nat)
    requires |x| == 16
    ensures Steps(op, r, x, n + 4) == Four(op, Steps(op, r, x, n), x, n)
  {
    assert Steps(op, r, x, n + 2) == Step(op, Steps(op, r, x, n + 1), x, n + 1);
    assert Steps(op, r, x, n + 4) == Step(op, Steps(op, r, x, n + 3), x, n + 3);
  }

  /** A round of the schedule. */
  function Sixteen<W>(op: Operation<W>, r: Regs<W>, x: seq<W>, n: nat): Regs<W>
    requires |x| == 16
  {
    Four(op, Four(op, Four(op, Four(op, r, x, n), x, n + 4), x, n + 8), x, n + 12)
  }

  lemma SixteenSteps<W>(op: Operation<W>, r: Regs<W>, x: seq<W>, n: nat)
    requires |x| == 16
    ensures Steps(op, r, x, n + 16) == Sixteen(op, Steps(op, r, x, n), x, n)
  {
    FourSteps(op, r, x, n);
    FourSteps(op, r, x, n + 4);
    FourSteps(op, r, x, n + 8);
    FourSteps(op, r, x, n + 12);
  }

  lemma AllSteps<W>(op: Operation<W>, r: Regs<W>, x: seq<W>, n: nat)
    requires |x| == 16 && n == 0
    ensures Steps(op, r, x, n + 64)
          == Sixteen(op, Sixteen(op, Sixteen(op, Sixteen(op, r, x, n), x, n + 16), x, n + 32), x, n + 48)
  {
    SixteenSteps(op, r, x, n);
    SixteenSteps(op, r, x, n + 16);
    SixteenSteps(op, r, x, n + 32);
    SixteenSteps(op, r, x, n + 48);
  }

  // ----- the code

  /** Four operations in a row. */
  method Quad<W>(round: int, s0: Shift, s1: Shift, s2: Shift, s3: Shift, r: Regs<W>, x: seq<W>, k0: nat, t0: Number,
      k1: nat, t1: Number,
                 k2: nat, t2: Number, k3: nat, t3: Number, ghost n: nat, op: Operation<W>)
    returns (q: Regs<W>)
    requires |x| == 16 && Scheduled(n, round, k0, s0, t0) && Scheduled(n + 1, round, k1, s1, t1)
    requires Scheduled(n + 2, round, k2, s2, t2) && Scheduled(n + 3, round, k3, s3, t3)
    ensures q == Four(op, r, x, n)
  {
    var a, b, c, d := r.a, r.b, r.c, r.d;
    a := op(round, Regs(a, b, c, d), x[k0], s0, t0);
    d := op(round, Regs(d, a, b, c), x[k1], s1, t1);
    c := op(round, Regs(c, d, a, b), x[k2], s2, t2);
    b := op(round, Regs(b, c, d, a), x[k3], s3, t3);
    q := Regs(a, b, c, d);
  }

  method Round1<W>(r: Regs<W>, x: seq<W>, op: Operation<W>) returns (q: Regs<W>)
    requires |x| == 16
    ensures q == Sixteen(op, r, x, 0)
  {
    q := r;
    q := Quad(0, 7, 12, 17, 22, q, x, 0, 0xd76a_a478, 1, 0xe8c7_b756, 2, 0x2420_70db, 3, 0xc1bd_ceee, 0, op);
    q := Quad(0, 7, 12, 17, 22, q, x, 4, 0xf57c_0faf, 5, 0x4787_c62a, 6, 0xa830_4613, 7, 0xfd46_9501, 4, op);
    q := Quad(0, 7, 12, 17, 22, q, x, 8, 0x6980_98d8, 9, 0x8b44_f7af, 10, 0xffff_5bb1, 11, 0x895c_d7be, 8, op);
    q := Quad(0, 7, 12, 17, 22, q, x, 12, 0x6b90_1122, 13, 0xfd98_7193, 14, 0xa679_438e, 15, 0x49b4_0821, 12, op);
  }

  method Round2<W>(r: Regs<W>, x: seq<W>, op: Operation<W>) returns (q: Regs<W>)
    requires |x| == 16
    ensures q == Sixteen(op, r, x, 16)
  {
    q := r;
    q := Quad(1, 5, 9, 14, 20, q, x, 1, 0xf61e_2562, 6, 0xc040_b340, 11, 0x265e_5a51, 0, 0xe9b6_c7aa, 16, op);
    q := Quad(1, 5, 9, 14, 20, q, x, 5, 0xd62f_105d, 10, 0x0244_1453, 15, 0xd8a1_e681, 4, 0xe7d3_fbc8, 20, op);
    q := Quad(1, 5, 9, 14, 20, q, x, 9, 0x21e1_cde6, 14, 0xc337_07d6, 3, 0xf4d5_0d87, 8, 0x455a_14ed, 24, op);
    q := Quad(1, 5, 9, 14, 20, q, x, 13, 0xa9e3_e905, 2, 0xfcef_a3f8, 7, 0x676f_02d9, 12, 0x8d2a_4c8a, 28, op);
  }

  method Round3<W>(r: Regs<W>, x: seq<W>, op: Operation<W>) returns (q: Regs<W>)
    requires |x| == 16
    ensures q == Sixteen(op, r, x, 32)
  {
    q := r;
    q := Quad(2, 4, 11, 16, 23, q, x, 5, 0xfffa_3942, 8, 0x8771_f681, 11, 0x6d9d_6122, 14, 0xfde5_380c, 32, op);
    q := Quad(2, 4, 11, 16, 23, q, x, 1, 0xa4be_ea44, 4, 0x4bde_cfa9, 7, 0xf6bb_4b60, 10, 0xbebf_bc70, 36, op);
    q := Quad(2, 4, 11, 16, 23, q, x, 13, 0x289b_7ec6, 0, 0xeaa1_27fa, 3, 0xd4ef_3085, 6, 0x0488_1d05, 40, op);
    q := Quad(2, 4, 11, 16, 23, q, x, 9, 0xd9d4_d039, 12, 0xe6db_99e5, 15, 0x1fa2_7cf8, 2, 0xc4ac_5665, 44, op);
  }

  method Round4<W>(r: Regs<W>, x: seq<W>, op: Operation<W>) returns (q: Regs<W>)
    requires |x| == 16
    ensures q == Sixteen(op, r, x, 48)
  {
    q := r;
    q := Quad(3, 6, 10, 15, 21, q, x, 0, 0xf429_2244, 7, 0x432a_ff97, 14, 0xab94_23a7, 5, 0xfc93_a039, 48, op);
    q := Quad(3, 6, 10, 15, 21, q, x, 12, 0x655b_59c3, 3, 0x8f0c_cc92, 10, 0xffef_f47d, 1, 0x8584_5dd1, 52, op);
    q := Quad(3, 6, 10, 15, 21, q, x, 8, 0x6fa8_7e4f, 15, 0xfe2c_e6e0, 6, 0xa301_4314, 13, 0x4e08_11a1, 56, op);
    q := Quad(3, 6, 10, 15, 21, q, x, 4, 0xf753_7e82, 11, 0xbd3a_f235, 2, 0x2ad7_d2bb, 9, 0xeb86_d391, 60, op);
  }

  method Rounds<W>(r: Regs<W>, x: seq<W>, op: Operation<W>, ghost steps: nat) returns (q: Regs<W>)
    requires |x| == 16 && steps == 64
    ensures q == Steps(op, r, x, steps)
  {
    q := Round1(r, x, op);
    q := Round2(q, x, op);
    q := Round3(q, x, op);
    q := Round4(q, x, op);
    AllSteps(op, r, x, steps - 64);
  }

  // ----- blocks

  /** The words of a block. */
  function Decoded(block: seq<byte>): (x: seq<bv32>)
    requires |block| == 64
    ensures |x| == 16
  {
    seq(16, i requires 0 <= i < 16 => Le32(block[4 * i..4 * i + 4]))
  }

  method Decode(input: seq<byte>) returns (output: array<bv32>)
    requires |input| == 64
    ensures fresh(output) && output[..] == Decoded(input)
  {
    output := new bv32[16];
    for i := 0 to 16
      invariant forall j :: 0 <= j < i ==> output[j] == Le32(input[4 * j..4 * j + 4])
    {
      output[i] := Le32(input[4 * i..4 * i + 4]);
    }
  }

  function Added(r: Regs<bv32>, q: Regs<bv32>): Regs<bv32> {
    Regs(r.a + q.a, r.b + q.b, r.c + q.c, r.d + q.d)
  }

  /** The block transformation of the standard. */
  function Compress(r: Regs<bv32>, block: seq<byte>): Regs<bv32>
    requires |block| == 64
  {
    Added(r, Steps(Op, r, Decoded(block), 64))
  }

  method Transform(r: Regs<bv32>, block: seq<byte>) returns (q: Regs<bv32>)
    requires |block| == 64
    ensures q == Compress(r, block)
  {
    var x := Decode(block);
    q := Rounds(r, x[..], Op, 64);
    q := Added(r, q);
  }
}
