/** One digest worked out step by step: the sentence of 43 letters that has every letter of the alphabet. */
module Md5Example {
  import opened Words
  import opened Md5Block
  import opened Md5

  // ----- the block

  /** m is that sentence. */
  predicate IsSentence(m: seq<byte>) {
    && |m| == 43
    && m[0] == 84 && m[1] == 104 && m[2] == 101 && m[3] == 32 && m[4] == 113 && m[5] == 117
    && m[6] == 105 && m[7] == 99 && m[8] == 107 && m[9] == 32 && m[10] == 98 && m[11] == 114
    && m[12] == 111 && m[13] == 119 && m[14] == 110 && m[15] == 32 && m[16] == 102 && m[17] == 111
    && m[18] == 120 && m[19] == 32 && m[20] == 106 && m[21] == 117 && m[22] == 109 && m[23] == 112
    && m[24] == 115 && m[25] == 32 && m[26] == 111 && m[27] == 118 && m[28] == 101 && m[29] == 114
    && m[30] == 32 && m[31] == 116 && m[32] == 104 && m[33] == 101 && m[34] == 32 && m[35] == 108
    && m[36] == 97 && m[37] == 122 && m[38] == 121 && m[39] == 32 && m[40] == 100 && m[41] == 111
    && m[42] == 103
  }

  /** x holds the words of its only block. */
  predicate IsBlock(x: seq<bv32>) {
    && |x| == 16
    && x[0] == 0x2065_6854 && x[1] == 0x6369_7571 && x[2] == 0x7262_206b && x[3] == 0x206e_776f
    && x[4] == 0x2078_6f66 && x[5] == 0x706d_756a && x[6] == 0x766f_2073 && x[7] == 0x7420_7265
    && x[8] == 0x6c20_6568 && x[9] == 0x2079_7a61 && x[10] == 0x8067_6f64 && x[11] == 0
    && x[12] == 0 && x[13] == 0 && x[14] == 0x158 && x[15] == 0
  }

  // ----- the steps; After(n) is the state after every fourth

  function After(n: nat): Regs<bv32> {
    if n == 0 then Regs(0x6745_2301, 0xefcd_ab89, 0x98ba_dcfe, 0x1032_5476)
    else if n == 4 then Regs(0xd7d4_1184, 0x1c02_06b8, 0x304f_925c, 0xfcc7_8449)
    else if n == 8 then Regs(0x640b_8027, 0x3caf_3300, 0x8753_9299, 0x9130_dcb7)
    else if n == 12 then Regs(0x9cdd_c25f, 0x77b3_79d7, 0x445b_c154, 0x82f2_3826)
    else if n == 16 then Regs(0xd83d_f4bd, 0x5f98_dbfa, 0xba2a_7422, 0xb9f6_e20c)
    else if n == 20 then Regs(0x0b65_9343, 0x6598_c09d, 0x5e16_8480, 0xba08_c5c3)
    else if n == 24 then Regs(0x29b3_f213, 0x79b5_16bb, 0xaf2f_41f5, 0xc7c7_20df)
    else if n == 28 then Regs(0x3144_9975, 0x2746_f870, 0x6e5d_f8fc, 0x55c7_b36e)
    else if n == 32 then Regs(0x7836_65b1, 0xa14e_96ed, 0xced6_5265, 0xd7e7_680d)
    else if n == 36 then Regs(0xb32a_a517, 0x2a17_ad99, 0x2980_94ff, 0x1457_5258)
    else if n == 40 then Regs(0x5b4e_ae46, 0xcbe6_0abc, 0xde24_6f3a, 0x9c92_ed12)
    else if n == 44 then Regs(0x9f91_64bc, 0x319a_447b, 0x72ff_61be, 0x0386_364b)
    else if n == 48 then Regs(0xddc6_72c8, 0x6059_0164, 0x4f59_dd0e, 0x0700_5f10)
    else if n == 52 then Regs(0xdf37_91ce, 0x709c_6bdf, 0x8155_ad25, 0xc946_2f46)
    else if n == 56 then Regs(0x8f6d_06ae, 0x4e5f_2898, 0x42d1_d7a5, 0x622e_a6ce)
    else if n == 60 then Regs(0x5f85_48da, 0x0814_0d1f, 0xf831_a760, 0x8ebd_0923)
    else Regs(0x3637_ed9d, 0x92e8_7fae, 0x9c62_fb6d, 0xc5e7_4fcc)
  }

  predicate Answers1(op: Operation<bv32>) {
    && op(0, Regs(0x6745_2301, 0xefcd_ab89, 0x98ba_dcfe, 0x1032_5476), 0x2065_6854, 7, 0xd76a_a478) == 0xd7d4_1184
    && op(0, Regs(0x1032_5476, 0xd7d4_1184, 0xefcd_ab89, 0x98ba_dcfe), 0x6369_7571, 12, 0xe8c7_b756) == 0xfcc7_8449
    && op(0, Regs(0x98ba_dcfe, 0xfcc7_8449, 0xd7d4_1184, 0xefcd_ab89), 0x7262_206b, 17, 0x2420_70db) == 0x304f_925c
    && op(0, Regs(0xefcd_ab89, 0x304f_925c, 0xfcc7_8449, 0xd7d4_1184), 0x206e_776f, 22, 0xc1bd_ceee) == 0x1c02_06b8
    && op(0, Regs(0xd7d4_1184, 0x1c02_06b8, 0x304f_925c, 0xfcc7_8449), 0x2078_6f66, 7, 0xf57c_0faf) == 0x640b_8027
    && op(0, Regs(0xfcc7_8449, 0x640b_8027, 0x1c02_06b8, 0x304f_925c), 0x706d_756a, 12, 0x4787_c62a) == 0x9130_dcb7
    && op(0, Regs(0x304f_925c, 0x9130_dcb7, 0x640b_8027, 0x1c02_06b8), 0x766f_2073, 17, 0xa830_4613) == 0x8753_9299
    && op(0, Regs(0x1c02_06b8, 0x8753_9299, 0x9130_dcb7, 0x640b_8027), 0x7420_7265, 22, 0xfd46_9501) == 0x3caf_3300
    && op(0, Regs(0x640b_8027, 0x3caf_3300, 0x8753_9299, 0x9130_dcb7), 0x6c20_6568, 7, 0x6980_98d8) == 0x9cdd_c25f
    && op(0, Regs(0x9130_dcb7, 0x9cdd_c25f, 0x3caf_3300, 0x8753_9299), 0x2079_7a61, 12, 0x8b44_f7af) == 0x82f2_3826
    && op(0, Regs(0x8753_9299, 0x82f2_3826, 0x9cdd_c25f, 0x3caf_3300), 0x8067_6f64, 17, 0xffff_5bb1) == 0x445b_c154
    && op(0, Regs(0x3caf_3300, 0x445b_c154, 0x82f2_3826, 0x9cdd_c25f), 0x0000_0000, 22, 0x895c_d7be) == 0x77b3_79d7
    && op(0, Regs(0x9cdd_c25f, 0x77b3_79d7, 0x445b_c154, 0x82f2_3826), 0x0000_0000, 7, 0x6b90_1122) == 0xd83d_f4bd
    && op(0, Regs(0x82f2_3826, 0xd83d_f4bd, 0x77b3_79d7, 0x445b_c154), 0x0000_0000, 12, 0xfd98_7193) == 0xb9f6_e20c
    && op(0, Regs(0x445b_c154, 0xb9f6_e20c, 0xd83d_f4bd, 0x77b3_79d7), 0x0000_0158, 17, 0xa679_438e) == 0xba2a_7422
    && op(0, Regs(0x77b3_79d7, 0xba2a_7422, 0xb9f6_e20c, 0xd83d_f4bd), 0x0000_0000, 22, 0x49b4_0821) == 0x5f98_dbfa
  }

  lemma OpAnswers1()
    ensures Answers1(Op)
  {
  }

  predicate Answers2(op: Operation<bv32>) {
    && op(1, Regs(0xd83d_f4bd, 0x5f98_dbfa, 0xba2a_7422, 0xb9f6_e20c), 0x6369_7571, 5, 0xf61e_2562) == 0x0b65_9343
    && op(1, Regs(0xb9f6_e20c, 0x0b65_9343, 0x5f98_dbfa, 0xba2a_7422), 0x766f_2073, 9, 0xc040_b340) == 0xba08_c5c3
    && op(1, Regs(0xba2a_7422, 0xba08_c5c3, 0x0b65_9343, 0x5f98_dbfa), 0x0000_0000, 14, 0x265e_5a51) == 0x5e16_8480
    && op(1, Regs(0x5f98_dbfa, 0x5e16_8480, 0xba08_c5c3, 0x0b65_9343), 0x2065_6854, 20, 0xe9b6_c7aa) == 0x6598_c09d
    && op(1, Regs(0x0b65_9343, 0x6598_c09d, 0x5e16_8480, 0xba08_c5c3), 0x706d_756a, 5, 0xd62f_105d) == 0x29b3_f213
    && op(1, Regs(0xba08_c5c3, 0x29b3_f213, 0x6598_c09d, 0x5e16_8480), 0x8067_6f64, 9, 0x0244_1453) == 0xc7c7_20df
    && op(1, Regs(0x5e16_8480, 0xc7c7_20df, 0x29b3_f213, 0x6598_c09d), 0x0000_0000, 14, 0xd8a1_e681) == 0xaf2f_41f5
    && op(1, Regs(0x6598_c09d, 0xaf2f_41f5, 0xc7c7_20df, 0x29b3_f213), 0x2078_6f66, 20, 0xe7d3_fbc8) == 0x79b5_16bb
    && op(1, Regs(0x29b3_f213, 0x79b5_16bb, 0xaf2f_41f5, 0xc7c7_20df), 0x2079_7a61, 5, 0x21e1_cde6) == 0x3144_9975
    && op(1, Regs(0xc7c7_20df, 0x3144_9975, 0x79b5_16bb, 0xaf2f_41f5), 0x0000_0158, 9, 0xc337_07d6) == 0x55c7_b36e
    && op(1, Regs(0xaf2f_41f5, 0x55c7_b36e, 0x3144_9975, 0x79b5_16bb), 0x206e_776f, 14, 0xf4d5_0d87) == 0x6e5d_f8fc
    && op(1, Regs(0x79b5_16bb, 0x6e5d_f8fc, 0x55c7_b36e, 0x3144_9975), 0x6c20_6568, 20, 0x455a_14ed) == 0x2746_f870
    && op(1, Regs(0x3144_9975, 0x2746_f870, 0x6e5d_f8fc, 0x55c7_b36e), 0x0000_0000, 5, 0xa9e3_e905) == 0x7836_65b1
    && op(1, Regs(0x55c7_b36e, 0x7836_65b1, 0x2746_f870, 0x6e5d_f8fc), 0x7262_206b, 9, 0xfcef_a3f8) == 0xd7e7_680d
    && op(1, Regs(0x6e5d_f8fc, 0xd7e7_680d, 0x7836_65b1, 0x2746_f870), 0x7420_7265, 14, 0x676f_02d9) == 0xced6_5265
    && op(1, Regs(0x2746_f870, 0xced6_5265, 0xd7e7_680d, 0x7836_65b1), 0x0000_0000, 20, 0x8d2a_4c8a) == 0xa14e_96ed
  }

  lemma OpAnswers2()
    ensures Answers2(Op)
  {
  }

  predicate Answers3(op: Operation<bv32>) {
    && op(2, Regs(0x7836_65b1, 0xa14e_96ed, 0xced6_5265, 0xd7e7_680d), 0x706d_756a, 4, 0xfffa_3942) == 0xb32a_a517
    && op(2, Regs(0xd7e7_680d, 0xb32a_a517, 0xa14e_96ed, 0xced6_5265), 0x6c20_6568, 11, 0x8771_f681) == 0x1457_5258
    && op(2, Regs(0xced6_5265, 0x1457_5258, 0xb32a_a517, 0xa14e_96ed), 0x0000_0000, 16, 0x6d9d_6122) == 0x2980_94ff
    && op(2, Regs(0xa14e_96ed, 0x2980_94ff, 0x1457_5258, 0xb32a_a517), 0x0000_0158, 23, 0xfde5_380c) == 0x2a17_ad99
    && op(2, Regs(0xb32a_a517, 0x2a17_ad99, 0x2980_94ff, 0x1457_5258), 0x6369_7571, 4, 0xa4be_ea44) == 0x5b4e_ae46
    && op(2, Regs(0x1457_5258, 0x5b4e_ae46, 0x2a17_ad99, 0x2980_94ff), 0x2078_6f66, 11, 0x4bde_cfa9) == 0x9c92_ed12
    && op(2, Regs(0x2980_94ff, 0x9c92_ed12, 0x5b4e_ae46, 0x2a17_ad99), 0x7420_7265, 16, 0xf6bb_4b60) == 0xde24_6f3a
    && op(2, Regs(0x2a17_ad99, 0xde24_6f3a, 0x9c92_ed12, 0x5b4e_ae46), 0x8067_6f64, 23, 0xbebf_bc70) == 0xcbe6_0abc
    && op(2, Regs(0x5b4e_ae46, 0xcbe6_0abc, 0xde24_6f3a, 0x9c92_ed12), 0x0000_0000, 4, 0x289b_7ec6) == 0x9f91_64bc
    && op(2, Regs(0x9c92_ed12, 0x9f91_64bc, 0xcbe6_0abc, 0xde24_6f3a), 0x2065_6854, 11, 0xeaa1_27fa) == 0x0386_364b
    && op(2, Regs(0xde24_6f3a, 0x0386_364b, 0x9f91_64bc, 0xcbe6_0abc), 0x206e_776f, 16, 0xd4ef_3085) == 0x72ff_61be
    && op(2, Regs(0xcbe6_0abc, 0x72ff_61be, 0x0386_364b, 0x9f91_64bc), 0x766f_2073, 23, 0x0488_1d05) == 0x319a_447b
    && op(2, Regs(0x9f91_64bc, 0x319a_447b, 0x72ff_61be, 0x0386_364b), 0x2079_7a61, 4, 0xd9d4_d039) == 0xddc6_72c8
    && op(2, Regs(0x0386_364b, 0xddc6_72c8, 0x319a_447b, 0x72ff_61be), 0x0000_0000, 11, 0xe6db_99e5) == 0x0700_5f10
    && op(2, Regs(0x72ff_61be, 0x0700_5f10, 0xddc6_72c8, 0x319a_447b), 0x0000_0000, 16, 0x1fa2_7cf8) == 0x4f59_dd0e
    && op(2, Regs(0x319a_447b, 0x4f59_dd0e, 0x0700_5f10, 0xddc6_72c8), 0x7262_206b, 23, 0xc4ac_5665) == 0x6059_0164
  }

  lemma OpAnswers3()
    ensures Answers3(Op)
  {
  }

  predicate Answers4(op: Operation<bv32>) {
    && op(3, Regs(0xddc6_72c8, 0x6059_0164, 0x4f59_dd0e, 0x0700_5f10), 0x2065_6854, 6, 0xf429_2244) == 0xdf37_91ce
    && op(3, Regs(0x0700_5f10, 0xdf37_91ce, 0x6059_0164, 0x4f59_dd0e), 0x7420_7265, 10, 0x432a_ff97) == 0xc946_2f46
    && op(3, Regs(0x4f59_dd0e, 0xc946_2f46, 0xdf37_91ce, 0x6059_0164), 0x0000_0158, 15, 0xab94_23a7) == 0x8155_ad25
    && op(3, Regs(0x6059_0164, 0x8155_ad25, 0xc946_2f46, 0xdf37_91ce), 0x706d_756a, 21, 0xfc93_a039) == 0x709c_6bdf
    && op(3, Regs(0xdf37_91ce, 0x709c_6bdf, 0x8155_ad25, 0xc946_2f46), 0x0000_0000, 6, 0x655b_59c3) == 0x8f6d_06ae
    && op(3, Regs(0xc946_2f46, 0x8f6d_06ae, 0x709c_6bdf, 0x8155_ad25), 0x206e_776f, 10, 0x8f0c_cc92) == 0x622e_a6ce
    && op(3, Regs(0x8155_ad25, 0x622e_a6ce, 0x8f6d_06ae, 0x709c_6bdf), 0x8067_6f64, 15, 0xffef_f47d) == 0x42d1_d7a5
    && op(3, Regs(0x709c_6bdf, 0x42d1_d7a5, 0x622e_a6ce, 0x8f6d_06ae), 0x6369_7571, 21, 0x8584_5dd1) == 0x4e5f_2898
    && op(3, Regs(0x8f6d_06ae, 0x4e5f_2898, 0x42d1_d7a5, 0x622e_a6ce), 0x6c20_6568, 6, 0x6fa8_7e4f) == 0x5f85_48da
    && op(3, Regs(0x622e_a6ce, 0x5f85_48da, 0x4e5f_2898, 0x42d1_d7a5), 0x0000_0000, 10, 0xfe2c_e6e0) == 0x8ebd_0923
    && op(3, Regs(0x42d1_d7a5, 0x8ebd_0923, 0x5f85_48da, 0x4e5f_2898), 0x766f_2073, 15, 0xa301_4314) == 0xf831_a760
    && op(3, Regs(0x4e5f_2898, 0xf831_a760, 0x8ebd_0923, 0x5f85_48da), 0x0000_0000, 21, 0x4e08_11a1) == 0x0814_0d1f
    && op(3, Regs(0x5f85_48da, 0x0814_0d1f, 0xf831_a760, 0x8ebd_0923), 0x2078_6f66, 6, 0xf753_7e82) == 0x3637_ed9d
    && op(3, Regs(0x8ebd_0923, 0x3637_ed9d, 0x0814_0d1f, 0xf831_a760), 0x0000_0000, 10, 0xbd3a_f235) == 0xc5e7_4fcc
    && op(3, Regs(0xf831_a760, 0xc5e7_4fcc, 0x3637_ed9d, 0x0814_0d1f), 0x7262_206b, 15, 0x2ad7_d2bb) == 0x9c62_fb6d
    && op(3, Regs(0x0814_0d1f, 0x9c62_fb6d, 0xc5e7_4fcc, 0x3637_ed9d), 0x2079_7a61, 21, 0xeb86_d391) == 0x92e8_7fae
  }

  lemma OpAnswers4()
    ensures Answers4(Op)
  {
  }
  // ----- from the steps to the digest

  /** Four steps from r to q. */
  lemma Quarter<W>(op: Operation<W>, r: Regs<W>, x: seq<W>, n: nat, q: Regs<W>)
    requires |x| == 16
    requires op(n / 16, r, x[WordOf(n)], ShiftOf(n), T(n)) == q.a
    requires op((n + 1) / 16, Regs(r.d, q.a, r.b, r.c), x[WordOf(n + 1)], ShiftOf(n + 1), T(n + 1)) == q.d
    requires op((n + 2) / 16, Regs(r.c, q.d, q.a, r.b), x[WordOf(n + 2)], ShiftOf(n + 2), T(n + 2)) == q.c
    requires op((n + 3) / 16, Regs(r.b, q.c, q.d, q.a), x[WordOf(n + 3)], ShiftOf(n + 3), T(n + 3)) == q.b
    ensures Four(op, r, x, n) == q
  {
  }

  /** Eight steps, half a round. */
  function Eight<W>(op: Operation<W>, r: Regs<W>, x: seq<W>, n: nat): Regs<W>
    requires |x| == 16
  {
    Four(op, Four(op, r, x, n), x, n + 4)
  }

  lemma Answer0(op: Operation<bv32>, x: seq<bv32>)
    requires Answers1(op) && IsBlock(x)
    ensures Eight(op, After(0), x, 0) == After(8)
  {
    Quarter(op, After(0), x, 0, After(4));
    Quarter(op, After(4), x, 4, After(8));
  }

  lemma Answer8(op: Operation<bv32>, x: seq<bv32>)
    requires Answers1(op) && IsBlock(x)
    ensures Eight(op, After(8), x, 8) == After(16)
  {
    Quarter(op, After(8), x, 8, After(12));
    Quarter(op, After(12), x, 12, After(16));
  }

  lemma Answer16(op: Operation<bv32>, x: seq<bv32>)
    requires Answers2(op) && IsBlock(x)
    ensures Eight(op, After(16), x, 16) == After(24)
  {
    Quarter(op, After(16), x, 16, After(20));
    Quarter(op, After(20), x, 20, After(24));
  }

  lemma Answer24(op: Operation<bv32>, x: seq<bv32>)
    requires Answers2(op) && IsBlock(x)
    ensures Eight(op, After(24), x, 24) == After(32)
  {
    Quarter(op, After(24), x, 24, After(28));
    Quarter(op, After(28), x, 28, After(32));
  }

  lemma Answer32(op: Operation<bv32>, x: seq<bv32>)
    requires Answers3(op) && IsBlock(x)
    ensures Eight(op, After(32), x, 32) == After(40)
  {
    Quarter(op, After(32), x, 32, After(36));
    Quarter(op, After(36), x, 36, After(40));
  }

  lemma Answer40(op: Operation<bv32>, x: seq<bv32>)
    requires Answers3(op) && IsBlock(x)
    ensures Eight(op, After(40), x, 40) == After(48)
  {
    Quarter(op, After(40), x, 40, After(44));
    Quarter(op, After(44), x, 44, After(48));
  }

  lemma Answer48(op: Operation<bv32>, x: seq<bv32>)
    requires Answers4(op) && IsBlock(x)
    ensures Eight(op, After(48), x, 48) == After(56)
  {
    Quarter(op, After(48), x, 48, After(52));
    Quarter(op, After(52), x, 52, After(56));
  }

  lemma Answer56(op: Operation<bv32>, x: seq<bv32>)
    requires Answers4(op) && IsBlock(x)
    ensures Eight(op, After(56), x, 56) == After(64)
  {
    Quarter(op, After(56), x, 56, After(60));
    Quarter(op, After(60), x, 60, After(64));
  }

  lemma RoundAnswer(op: Operation<bv32>, r: Regs<bv32>, x: seq<bv32>, n: nat, p: Regs<bv32>, q: Regs<bv32>)
    requires |x| == 16 && Eight(op, r, x, n) == p && Eight(op, p, x, n + 8) == q
    ensures Sixteen(op, r, x, n) == q
  {
  }

  lemma StepsAnswer(op: Operation<bv32>, x: seq<bv32>, n: nat)
    requires Answers1(op) && Answers2(op) && Answers3(op) && Answers4(op) && IsBlock(x) && n == 64
    ensures Steps(op, After(0), x, n) == After(64)
  {
    Answer0(op, x);
    Answer8(op, x);
    RoundAnswer(op, After(0), x, 0, After(8), After(16));
    Answer16(op, x);
    Answer24(op, x);
    RoundAnswer(op, After(16), x, 16, After(24), After(32));
    Answer32(op, x);
    Answer40(op, x);
    RoundAnswer(op, After(32), x, 32, After(40), After(48));
    Answer48(op, x);
    Answer56(op, x);
    RoundAnswer(op, After(48), x, 48, After(56), After(64));
    AllSteps(op, After(0), x, n - 64);
  }

  lemma CompressAnswer(block: seq<byte>)
    requires |block| == 64 && IsBlock(Decoded(block))
    ensures Compress(After(0), block) == Added(After(0), After(64))
  {
    OpAnswers1();
    OpAnswers2();
    OpAnswers3();
    OpAnswers4();
    StepsAnswer(Op, Decoded(block), 64);
  }

  lemma AddedAnswer()
    ensures Added(After(0), After(64)) == Regs(0x9d7d_109e, 0x82b6_2b37, 0x351d_d86b, 0xd619_a442)
  {
  }

  lemma EncodedOne(a: Md5.Word)
    ensures Encoded([a]) == Number32Bytes(a)
  {
    assert [a][..0] == [];
  }

  lemma EncodedTwo(a: Md5.Word, b: Md5.Word)
    ensures Encoded([a, b]) == Number32Bytes(a) + Number32Bytes(b)
  {
    EncodedOne(a);
    assert [a, b][..1] == [a];
  }

  lemma BytesAre(n: Md5.Word, b: seq<byte>)
    requires |b| == 4 && n == Number32(b)
    ensures Number32Bytes(n) == b
  {
    Number32RoundTrip(b);
  }

  lemma LengthIs(k: nat, n: Md5.Word, z: Md5.Word)
    requires 8 * k == n && z == 0
    ensures LengthBytes(k) == Number32Bytes(n) + Number32Bytes(z)
  {
    EncodedTwo(n, z);
    LengthWords(k, n);
  }

  lemma LengthWords(k: nat, n: Md5.Word)
    requires 8 * k == n
    ensures 8 * k % TWO32 == n && 8 * k / TWO32 % TWO32 == 0
  {
  }

  lemma ZeroCountIs(k: nat)
    requires k == 43
    ensures ZeroCount(k) == 12
  {
  }

  lemma PaddedIs(m: seq<byte>, z: seq<byte>, l: seq<byte>)
    requires z == Zeros(ZeroCount(|m|)) && l == LengthBytes(|m|)
    ensures Padded(m) == m + [0x80] + z + l
  {
  }

  lemma LengthHere(k: nat, b: seq<byte>, z: seq<byte>)
    requires |b| == |z| == 4 && Number32(b) == 8 * k && Number32(z) == 0
    ensures LengthBytes(k) == b + z
  {
    LengthIs(k, Number32(b), Number32(z));
    Number32RoundTrip(b);
    Number32RoundTrip(z);
  }

  lemma PaddedParts(m: seq<byte>, z: seq<byte>)
    requires |m| == 43 && z == Zeros(12)
    ensures Padded(m) == m + [0x80] + z + ([0x58, 1, 0, 0] + [0, 0, 0, 0])
  {
    LengthHere(|m|, [0x58, 1, 0, 0], [0, 0, 0, 0]);
    ZeroCountIs(|m|);
    PaddedIs(m, z, [0x58, 1, 0, 0] + [0, 0, 0, 0]);
  }

  lemma Places(m: seq<byte>, p: seq<byte>)
    requires |m| == 43 && p == m + [0x80] + Zeros(12) + ([0x58, 1, 0, 0] + [0, 0, 0, 0])
    ensures |p| == 64 && (forall i :: 0 <= i < 43 ==> p[i] == m[i]) && p[43] == 128
    ensures forall i :: 44 <= i < 56 ==> p[i] == 0
    ensures p[56] == 0x58 && p[57] == 1 && (forall i :: 58 <= i < 64 ==> p[i] == 0)
  {
  }

  lemma WordAt(p: seq<byte>, i: nat, b: seq<byte>, w: bv32)
    requires |p| == 64 && i < 16 && |b| == 4 && Le32(b) == w
    requires p[4 * i] == b[0] && p[4 * i + 1] == b[1] && p[4 * i + 2] == b[2] && p[4 * i + 3] == b[3]
    ensures Decoded(p)[i] == w
  {
    assert p[4 * i..4 * i + 4] == b;
  }

  lemma WordsOfSentence()
    ensures Le32([84, 104, 101, 32]) == 0x2065_6854
    ensures Le32([113, 117, 105, 99]) == 0x6369_7571
    ensures Le32([107, 32, 98, 114]) == 0x7262_206b
    ensures Le32([111, 119, 110, 32]) == 0x206e_776f
    ensures Le32([102, 111, 120, 32]) == 0x2078_6f66
    ensures Le32([106, 117, 109, 112]) == 0x706d_756a
    ensures Le32([115, 32, 111, 118]) == 0x766f_2073
    ensures Le32([101, 114, 32, 116]) == 0x7420_7265
    ensures Le32([104, 101, 32, 108]) == 0x6c20_6568
    ensures Le32([97, 122, 121, 32]) == 0x2079_7a61
    ensures Le32([100, 111, 103, 128]) == 0x8067_6f64
    ensures Le32([0, 0, 0, 0]) == 0 && Le32([0x58, 1, 0, 0]) == 0x158
  {
  }

  lemma SentenceIsBlock(m: seq<byte>, p: seq<byte>)
    requires IsSentence(m) && p == Padded(m)
    ensures |p| == 64 && IsBlock(Decoded(p))
  {
    PaddedParts(m, Zeros(12));
    Places(m, p);
    WordsOfSentence();
    WordAt(p, 0, [84, 104, 101, 32], 0x2065_6854);
    WordAt(p, 1, [113, 117, 105, 99], 0x6369_7571);
    WordAt(p, 2, [107, 32, 98, 114], 0x7262_206b);
    WordAt(p, 3, [111, 119, 110, 32], 0x206e_776f);
    WordAt(p, 4, [102, 111, 120, 32], 0x2078_6f66);
    WordAt(p, 5, [106, 117, 109, 112], 0x706d_756a);
    WordAt(p, 6, [115, 32, 111, 118], 0x766f_2073);
    WordAt(p, 7, [101, 114, 32, 116], 0x7420_7265);
    WordAt(p, 8, [104, 101, 32, 108], 0x6c20_6568);
    WordAt(p, 9, [97, 122, 121, 32], 0x2079_7a61);
    WordAt(p, 10, [100, 111, 103, 128], 0x8067_6f64);
    WordAt(p, 11, [0, 0, 0, 0], 0x0000_0000);
    WordAt(p, 12, [0, 0, 0, 0], 0x0000_0000);
    WordAt(p, 13, [0, 0, 0, 0], 0x0000_0000);
    WordAt(p, 14, [88, 1, 0, 0], 0x0000_0158);
    WordAt(p, 15, [0, 0, 0, 0], 0x0000_0000);
  }

  lemma EncodedFour(a: Md5.Word, b: Md5.Word, c: Md5.Word, d: Md5.Word)
    ensures Encoded([a, b, c, d]) == Number32Bytes(a) + Number32Bytes(b) + Number32Bytes(c) + Number32Bytes(d)
  {
    EncodedTwo(a, b);
    assert [a, b, c][..2] == [a, b];
    assert [a, b, c, d][..3] == [a, b, c];
  }

  lemma WordBytes(a: Md5.Word, b: Md5.Word, c: Md5.Word, d: Md5.Word)
    requires a == 0x9d7d_109e && b == 0x82b6_2b37 && c == 0x351d_d86b && d == 0xd619_a442
    ensures Number32Bytes(a) == [0x9e, 0x10, 0x7d, 0x9d] && Number32Bytes(b) == [0x37, 0x2b, 0xb6, 0x82]
    ensures Number32Bytes(c) == [0x6b, 0xd8, 0x1d, 0x35] && Number32Bytes(d) == [0x42, 0xa4, 0x19, 0xd6]
  {
    BytesAre(a, [0x9e, 0x10, 0x7d, 0x9d]);
    BytesAre(b, [0x37, 0x2b, 0xb6, 0x82]);
    BytesAre(c, [0x6b, 0xd8, 0x1d, 0x35]);
    BytesAre(d, [0x42, 0xa4, 0x19, 0xd6]);
  }

  lemma StateNumbers(st: Md5.State)
    requires st == Regs(0x9d7d_109e, 0x82b6_2b37, 0x351d_d86b, 0xd619_a442)
    ensures NumbersOf(st) == [0x9d7d_109e, 0x82b6_2b37, 0x351d_d86b, 0xd619_a442]
  {
    assert (0x9d7d_109e as bv32) as nat == 0x9d7d_109e && (0x82b6_2b37 as bv32) as nat == 0x82b6_2b37;
    assert (0x351d_d86b as bv32) as nat == 0x351d_d86b && (0xd619_a442 as bv32) as nat == 0xd619_a442;
  }

  lemma DigestBytes(w: seq<Md5.Word>, a: Md5.Word, b: Md5.Word, c: Md5.Word, d: Md5.Word)
    requires a == 0x9d7d_109e && b == 0x82b6_2b37 && c == 0x351d_d86b && d == 0xd619_a442 && w == [a, b, c, d]
    ensures Encoded(w)
         == [0x9e, 0x10, 0x7d, 0x9d, 0x37, 0x2b, 0xb6, 0x82, 0x6b, 0xd8, 0x1d, 0x35, 0x42, 0xa4, 0x19, 0xd6]
  {
    EncodedFour(a, b, c, d);
    WordBytes(a, b, c, d);
  }

  lemma FoldedOnce(c: (Md5.State, seq<byte>) -> Md5.State, p: seq<byte>, n: nat)
    requires |p| == 64 && n == 1
    ensures Folded(c, p, n) == c(INIT, p)
  {
    assert p[64 * 0..64 * 1] == p;
    assert Folded(c, p, n - 1) == INIT;
  }

  lemma OneBlock(p: seq<byte>)
    requires |p| == 64
    ensures OnBlocks()(INIT, p) == Compress(INIT, p)
  {
  }

  /** The digest of the sentence, as published. */
  lemma SentenceDigest(m: seq<byte>)
    requires IsSentence(m)
    ensures Md5Of(m)
         == [0x9e, 0x10, 0x7d, 0x9d, 0x37, 0x2b, 0xb6, 0x82, 0x6b, 0xd8, 0x1d, 0x35, 0x42, 0xa4, 0x19, 0xd6]
  {
    var p := Padded(m);
    SentenceIsBlock(m, p);
    FoldedOnce(OnBlocks(), p, |p| / 64);
    OneBlock(p);
    CompressAnswer(p);
    AddedAnswer();
    StateNumbers(Folded(OnBlocks(), p, |p| / 64));
    DigestBytes(NumbersOf(Folded(OnBlocks(), p, |p| / 64)), 0x9d7d_109e, 0x82b6_2b37, 0x351d_d86b, 0xd619_a442);
  }
}
