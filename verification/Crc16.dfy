/** The 16-bit CRC of src/bscl_crc.c, most significant bit first: a table of 256 constants on one side, single
    shifts on the other. */
module Crc16 {
  import opened Words

  // ----- a bit and then a byte at a time

  function Xor(a: bv16, b: bv16): bv16 {
    a ^ b
  }

  predicate TopSet(c: bv16) {
    c & 0x8000 != 0
  }

  function Double(c: bv16): bv16 {
    c << 1
  }

  /** One shift; the polynomial joins in when the bit that fell off was set. */
  function BitStep(c: bv16): bv16 {
    if TopSet(c) then Xor(0x1021, Double(c)) else Double(c)
  }

  function BitSteps(c: bv16, n: nat): bv16 {
    if n == 0 then c else BitStep(BitSteps(c, n - 1))
  }

  function Four(c: bv16): bv16 {
    BitStep(BitStep(BitStep(BitStep(c))))
  }

  function Eight(c: bv16): bv16 {
    Four(Four(c))
  }

  lemma FourIsSteps(c: bv16, n: nat)
    ensures BitSteps(c, n + 4) == Four(BitSteps(c, n))
  {
    assert BitSteps(c, n + 2) == BitStep(BitSteps(c, n + 1));
    assert BitSteps(c, n + 4) == BitStep(BitSteps(c, n + 3));
  }

  lemma EightIsSteps(c: bv16)
    ensures BitSteps(c, 8) == Eight(c)
  {
    FourIsSteps(c, 0);
    FourIsSteps(c, 4);
  }

  /** A byte in the high end of the register. */
  function High(b: bv8): bv16 {
    (b as bv16) << 8
  }

  function ByteStep(crc: bv16, b: bv8): bv16 {
    BitSteps(Xor(crc, High(b)), 8)
  }

  /** The register after the first n bytes of s. */
  function Fed(s: seq<byte>, n: nat, crc: bv16): bv16
    requires n <= |s|
  {
    if n == 0 then crc else ByteStep(Fed(s, n - 1, crc), Bits(s[n - 1]))
  }

  // ----- the table

  function Row0(l: bv8): bv16 {
    if l == 0x0 then 0x0000 else if l == 0x1 then 0x1021 else if l == 0x2 then 0x2042 else if l == 0x3 then 0x3063 else
    if l == 0x4 then 0x4084 else if l == 0x5 then 0x50A5 else if l == 0x6 then 0x60C6 else if l == 0x7 then 0x70E7 else
    if l == 0x8 then 0x8108 else if l == 0x9 then 0x9129 else if l == 0xA then 0xA14A else if l == 0xB then 0xB16B else
    if l == 0xC then 0xC18C else if l == 0xD then 0xD1AD else if l == 0xE then 0xE1CE else 0xF1EF
  }

  function Row1(l: bv8): bv16 {
    if l == 0x0 then 0x1231 else if l == 0x1 then 0x0210 else if l == 0x2 then 0x3273 else if l == 0x3 then 0x2252 else
    if l == 0x4 then 0x52B5 else if l == 0x5 then 0x4294 else if l == 0x6 then 0x72F7 else if l == 0x7 then 0x62D6 else
    if l == 0x8 then 0x9339 else if l == 0x9 then 0x8318 else if l == 0xA then 0xB37B else if l == 0xB then 0xA35A else
    if l == 0xC then 0xD3BD else if l == 0xD then 0xC39C else if l == 0xE then 0xF3FF else 0xE3DE
  }

  function Row2(l: bv8): bv16 {
    if l == 0x0 then 0x2462 else if l == 0x1 then 0x3443 else if l == 0x2 then 0x0420 else if l == 0x3 then 0x1401 else
    if l == 0x4 then 0x64E6 else if l == 0x5 then 0x74C7 else if l == 0x6 then 0x44A4 else if l == 0x7 then 0x5485 else
    if l == 0x8 then 0xA56A else if l == 0x9 then 0xB54B else if l == 0xA then 0x8528 else if l == 0xB then 0x9509 else
    if l == 0xC then 0xE5EE else if l == 0xD then 0xF5CF else if l == 0xE then 0xC5AC else 0xD58D
  }

  function Row3(l: bv8): bv16 {
    if l == 0x0 then 0x3653 else if l == 0x1 then 0x2672 else if l == 0x2 then 0x1611 else if l == 0x3 then 0x0630 else
    if l == 0x4 then 0x76D7 else if l == 0x5 then 0x66F6 else if l == 0x6 then 0x5695 else if l == 0x7 then 0x46B4 else
    if l == 0x8 then 0xB75B else if l == 0x9 then 0xA77A else if l == 0xA then 0x9719 else if l == 0xB then 0x8738 else
    if l == 0xC then 0xF7DF else if l == 0xD then 0xE7FE else if l == 0xE then 0xD79D else 0xC7BC
  }

  function Row4(l: bv8): bv16 {
    if l == 0x0 then 0x48C4 else if l == 0x1 then 0x58E5 else if l == 0x2 then 0x6886 else if l == 0x3 then 0x78A7 else
    if l == 0x4 then 0x0840 else if l == 0x5 then 0x1861 else if l == 0x6 then 0x2802 else if l == 0x7 then 0x3823 else
    if l == 0x8 then 0xC9CC else if l == 0x9 then 0xD9ED else if l == 0xA then 0xE98E else if l == 0xB then 0xF9AF else
    if l == 0xC then 0x8948 else if l == 0xD then 0x9969 else if l == 0xE then 0xA90A else 0xB92B
  }

  function Row5(l: bv8): bv16 {
    if l == 0x0 then 0x5AF5 else if l == 0x1 then 0x4AD4 else if l == 0x2 then 0x7AB7 else if l == 0x3 then 0x6A96 else
    if l == 0x4 then 0x1A71 else if l == 0x5 then 0x0A50 else if l == 0x6 then 0x3A33 else if l == 0x7 then 0x2A12 else
    if l == 0x8 then 0xDBFD else if l == 0x9 then 0xCBDC else if l == 0xA then 0xFBBF else if l == 0xB then 0xEB9E else
    if l == 0xC then 0x9B79 else if l == 0xD then 0x8B58 else if l == 0xE then 0xBB3B else 0xAB1A
  }

  function Row6(l: bv8): bv16 {
    if l == 0x0 then 0x6CA6 else if l == 0x1 then 0x7C87 else if l == 0x2 then 0x4CE4 else if l == 0x3 then 0x5CC5 else
    if l == 0x4 then 0x2C22 else if l == 0x5 then 0x3C03 else if l == 0x6 then 0x0C60 else if l == 0x7 then 0x1C41 else
    if l == 0x8 then 0xEDAE else if l == 0x9 then 0xFD8F else if l == 0xA then 0xCDEC else if l == 0xB then 0xDDCD else
    if l == 0xC then 0xAD2A else if l == 0xD then 0xBD0B else if l == 0xE then 0x8D68 else 0x9D49
  }

  function Row7(l: bv8): bv16 {
    if l == 0x0 then 0x7E97 else if l == 0x1 then 0x6EB6 else if l == 0x2 then 0x5ED5 else if l == 0x3 then 0x4EF4 else
    if l == 0x4 then 0x3E13 else if l == 0x5 then 0x2E32 else if l == 0x6 then 0x1E51 else if l == 0x7 then 0x0E70 else
    if l == 0x8 then 0xFF9F else if l == 0x9 then 0xEFBE else if l == 0xA then 0xDFDD else if l == 0xB then 0xCFFC else
    if l == 0xC then 0xBF1B else if l == 0xD then 0xAF3A else if l == 0xE then 0x9F59 else 0x8F78
  }

  function Row8(l: bv8): bv16 {
    if l == 0x0 then 0x9188 else if l == 0x1 then 0x81A9 else if l == 0x2 then 0xB1CA else if l == 0x3 then 0xA1EB else
    if l == 0x4 then 0xD10C else if l == 0x5 then 0xC12D else if l == 0x6 then 0xF14E else if l == 0x7 then 0xE16F else
    if l == 0x8 then 0x1080 else if l == 0x9 then 0x00A1 else if l == 0xA then 0x30C2 else if l == 0xB then 0x20E3 else
    if l == 0xC then 0x5004 else if l == 0xD then 0x4025 else if l == 0xE then 0x7046 else 0x6067
  }

  function Row9(l: bv8): bv16 {
    if l == 0x0 then 0x83B9 else if l == 0x1 then 0x9398 else if l == 0x2 then 0xA3FB else if l == 0x3 then 0xB3DA else
    if l == 0x4 then 0xC33D else if l == 0x5 then 0xD31C else if l == 0x6 then 0xE37F else if l == 0x7 then 0xF35E else
    if l == 0x8 then 0x02B1 else if l == 0x9 then 0x1290 else if l == 0xA then 0x22F3 else if l == 0xB then 0x32D2 else
    if l == 0xC then 0x4235 else if l == 0xD then 0x5214 else if l == 0xE then 0x6277 else 0x7256
  }

  function RowA(l: bv8): bv16 {
    if l == 0x0 then 0xB5EA else if l == 0x1 then 0xA5CB else if l == 0x2 then 0x95A8 else if l == 0x3 then 0x8589 else
    if l == 0x4 then 0xF56E else if l == 0x5 then 0xE54F else if l == 0x6 then 0xD52C else if l == 0x7 then 0xC50D else
    if l == 0x8 then 0x34E2 else if l == 0x9 then 0x24C3 else if l == 0xA then 0x14A0 else if l == 0xB then 0x0481 else
    if l == 0xC then 0x7466 else if l == 0xD then 0x6447 else if l == 0xE then 0x5424 else 0x4405
  }

  function RowB(l: bv8): bv16 {
    if l == 0x0 then 0xA7DB else if l == 0x1 then 0xB7FA else if l == 0x2 then 0x8799 else if l == 0x3 then 0x97B8 else
    if l == 0x4 then 0xE75F else if l == 0x5 then 0xF77E else if l == 0x6 then 0xC71D else if l == 0x7 then 0xD73C else
    if l == 0x8 then 0x26D3 else if l == 0x9 then 0x36F2 else if l == 0xA then 0x0691 else if l == 0xB then 0x16B0 else
    if l == 0xC then 0x6657 else if l == 0xD then 0x7676 else if l == 0xE then 0x4615 else 0x5634
  }

  function RowC(l: bv8): bv16 {
    if l == 0x0 then 0xD94C else if l == 0x1 then 0xC96D else if l == 0x2 then 0xF90E else if l == 0x3 then 0xE92F else
    if l == 0x4 then 0x99C8 else if l == 0x5 then 0x89E9 else if l == 0x6 then 0xB98A else if l == 0x7 then 0xA9AB else
    if l == 0x8 then 0x5844 else if l == 0x9 then 0x4865 else if l == 0xA then 0x7806 else if l == 0xB then 0x6827 else
    if l == 0xC then 0x18C0 else if l == 0xD then 0x08E1 else if l == 0xE then 0x3882 else 0x28A3
  }

  function RowD(l: bv8): bv16 {
    if l == 0x0 then 0xCB7D else if l == 0x1 then 0xDB5C else if l == 0x2 then 0xEB3F else if l == 0x3 then 0xFB1E else
    if l == 0x4 then 0x8BF9 else if l == 0x5 then 0x9BD8 else if l == 0x6 then 0xABBB else if l == 0x7 then 0xBB9A else
    if l == 0x8 then 0x4A75 else if l == 0x9 then 0x5A54 else if l == 0xA then 0x6A37 else if l == 0xB then 0x7A16 else
    if l == 0xC then 0x0AF1 else if l == 0xD then 0x1AD0 else if l == 0xE then 0x2AB3 else 0x3A92
  }

  function RowE(l: bv8): bv16 {
    if l == 0x0 then 0xFD2E else if l == 0x1 then 0xED0F else if l == 0x2 then 0xDD6C else if l == 0x3 then 0xCD4D else
    if l == 0x4 then 0xBDAA else if l == 0x5 then 0xAD8B else if l == 0x6 then 0x9DE8 else if l == 0x7 then 0x8DC9 else
    if l == 0x8 then 0x7C26 else if l == 0x9 then 0x6C07 else if l == 0xA then 0x5C64 else if l == 0xB then 0x4C45 else
    if l == 0xC then 0x3CA2 else if l == 0xD then 0x2C83 else if l == 0xE then 0x1CE0 else 0x0CC1
  }

  function RowF(l: bv8): bv16 {
    if l == 0x0 then 0xEF1F else if l == 0x1 then 0xFF3E else if l == 0x2 then 0xCF5D else if l == 0x3 then 0xDF7C else
    if l == 0x4 then 0xAF9B else if l == 0x5 then 0xBFBA else if l == 0x6 then 0x8FD9 else if l == 0x7 then 0x9FF8 else
    if l == 0x8 then 0x6E17 else if l == 0x9 then 0x7E36 else if l == 0xA then 0x4E55 else if l == 0xB then 0x5E74 else
    if l == 0xC then 0x2E93 else if l == 0xD then 0x3EB2 else if l == 0xE then 0x0ED1 else 0x1EF0
  }

  /** ccitt_table, by the high and the low digit of the index. */
  function Entry(i: bv8): bv16 {
    var h, l := i >> 4, i & 0xF;
    if h < 8 then FirstHalf(h, l) else SecondHalf(h, l)
  }

  function FirstHalf(h: bv8, l: bv8): bv16 {
    if h == 0x0 then Row0(l) else if h == 0x1 then Row1(l) else if h == 0x2 then Row2(l) else
    if h == 0x3 then Row3(l) else
    if h == 0x4 then Row4(l) else if h == 0x5 then Row5(l) else if h == 0x6 then Row6(l) else Row7(l)
  }

  function SecondHalf(h: bv8, l: bv8): bv16 {
    if h == 0x8 then Row8(l) else if h == 0x9 then Row9(l) else if h == 0xA then RowA(l) else
    if h == 0xB then RowB(l) else
    if h == 0xC then RowC(l) else if h == 0xD then RowD(l) else if h == 0xE then RowE(l) else RowF(l)
  }

  lemma Row0IsSteps(l: bv8)
    requires l < 16
    ensures Row0(l) == Eight(High(l | 0x00))
  {
  }

  lemma Row1IsSteps(l: bv8)
    requires l < 16
    ensures Row1(l) == Eight(High(l | 0x10))
  {
  }

  lemma Row2IsSteps(l: bv8)
    requires l < 16
    ensures Row2(l) == Eight(High(l | 0x20))
  {
  }

  lemma Row3IsSteps(l: bv8)
    requires l < 16
    ensures Row3(l) == Eight(High(l | 0x30))
  {
  }

  lemma Row4IsSteps(l: bv8)
    requires l < 16
    ensures Row4(l) == Eight(High(l | 0x40))
  {
  }

  lemma Row5IsSteps(l: bv8)
    requires l < 16
    ensures Row5(l) == Eight(High(l | 0x50))
  {
  }

  lemma Row6IsSteps(l: bv8)
    requires l < 16
    ensures Row6(l) == Eight(High(l | 0x60))
  {
  }

  lemma Row7IsSteps(l: bv8)
    requires l < 16
    ensures Row7(l) == Eight(High(l | 0x70))
  {
  }

  lemma Row8IsSteps(l: bv8)
    requires l < 16
    ensures Row8(l) == Eight(High(l | 0x80))
  {
  }

  lemma Row9IsSteps(l: bv8)
    requires l < 16
    ensures Row9(l) == Eight(High(l | 0x90))
  {
  }

  lemma RowAIsSteps(l: bv8)
    requires l < 16
    ensures RowA(l) == Eight(High(l | 0xA0))
  {
  }

  lemma RowBIsSteps(l: bv8)
    requires l < 16
    ensures RowB(l) == Eight(High(l | 0xB0))
  {
  }

  lemma RowCIsSteps(l: bv8)
    requires l < 16
    ensures RowC(l) == Eight(High(l | 0xC0))
  {
  }

  lemma RowDIsSteps(l: bv8)
    requires l < 16
    ensures RowD(l) == Eight(High(l | 0xD0))
  {
  }

  lemma RowEIsSteps(l: bv8)
    requires l < 16
    ensures RowE(l) == Eight(High(l | 0xE0))
  {
  }

  lemma RowFIsSteps(l: bv8)
    requires l < 16
    ensures RowF(l) == Eight(High(l | 0xF0))
  {
  }

  lemma FirstHalfIsSteps(h: bv8, l: bv8)
    requires h < 8 && l < 16
    ensures FirstHalf(h, l) == Eight(High(l | (h << 4)))
  {
    if h == 0x0 {
      Row0IsSteps(l);
    } else if h == 0x1 {
      Row1IsSteps(l);
    } else if h == 0x2 {
      Row2IsSteps(l);
    } else if h == 0x3 {
      Row3IsSteps(l);
    } else if h == 0x4 {
      Row4IsSteps(l);
    } else if h == 0x5 {
      Row5IsSteps(l);
    } else if h == 0x6 {
      Row6IsSteps(l);
    } else {
      Row7IsSteps(l);
    }
  }

  lemma SecondHalfIsSteps(h: bv8, l: bv8)
    requires 8 <= h < 16 && l < 16
    ensures SecondHalf(h, l) == Eight(High(l | (h << 4)))
  {
    if h == 0x8 {
      Row8IsSteps(l);
    } else if h == 0x9 {
      Row9IsSteps(l);
    } else if h == 0xA {
      RowAIsSteps(l);
    } else if h == 0xB {
      RowBIsSteps(l);
    } else if h == 0xC {
      RowCIsSteps(l);
    } else if h == 0xD {
      RowDIsSteps(l);
    } else if h == 0xE {
      RowEIsSteps(l);
    } else {
      RowFIsSteps(l);
    }
  }

  lemma Digits(i: bv8)
    ensures (i & 0xF) | ((i >> 4) << 4) == i && i & 0xF < 16 && i >> 4 < 16
  {
  }

  /** Every entry is what eight shifts make of its index. */
  lemma EntryIsSteps(i: bv8)
    ensures Entry(i) == Eight(High(i))
  {
    Digits(i);
    if i >> 4 < 8 {
      FirstHalfIsSteps(i >> 4, i & 0xF);
    } else {
      SecondHalfIsSteps(i >> 4, i & 0xF);
    }
  }

  // ----- table steps are byte steps

  lemma TopOfSum(h: bv16, l: bv16)
    requires l < 0x8000
    ensures TopSet(h ^ l) == TopSet(h)
  {
  }

  lemma SumTapped(h: bv16, l: bv16)
    requires l < 0x8000 && h & 0x8000 != 0
    ensures BitStep(h ^ l) == 0x1021 ^ ((h ^ l) << 1)
  {
    TopOfSum(h, l);
  }

  lemma SumShifted(h: bv16, l: bv16)
    requires l < 0x8000 && h & 0x8000 == 0
    ensures BitStep(h ^ l) == (h ^ l) << 1
  {
    TopOfSum(h, l);
  }

  lemma StepOfSum(h: bv16, l: bv16)
    requires l < 0x8000
    ensures BitStep(h ^ l) == BitStep(h) ^ (l << 1)
  {
    if h & 0x8000 != 0 {
      SumTapped(h, l);
      SumTapped(h, 0);
    } else {
      SumShifted(h, l);
    }
  }

  lemma StepOfValue(h: bv16, l: bv16, sum: bv16)
    requires l < 0x8000 && sum == h ^ l
    ensures BitStep(sum) == Xor(BitStep(h), l << 1)
  {
    StepOfSum(h, l);
  }

  lemma StepOfXor(h: bv16, l: bv16)
    requires l < 0x8000
    ensures BitStep(Xor(h, l)) == Xor(BitStep(h), l << 1)
  {
    StepOfValue(h, l, Xor(h, l));
  }

  /** Below the top bit, a shift only moves bits up. */
  lemma LowStep(h: bv16, l: bv16)
    requires l < 0x8000
    ensures BitStep(Xor(h, l)) == Xor(BitStep(h), Double(l))
  {
    StepOfXor(h, l);
  }

  function Doubles(l: bv16, n: nat): bv16 {
    if n == 0 then l else Double(Doubles(l, n - 1))
  }

  /** Doubling l n times loses no bit. */
  ghost predicate Room(l: bv16, n: nat) {
    n > 0 ==> Room(l, n - 1) && Doubles(l, n - 1) < 0x8000
  }

  lemma {:induction false} StepsCarryLow(h: bv16, l: bv16, n: nat)
    requires Room(l, n)
    ensures BitSteps(Xor(h, l), n) == Xor(BitSteps(h, n), Doubles(l, n))
  {
    if n > 0 {
      StepsCarryLow(h, l, n - 1);
      LowStep(BitSteps(h, n - 1), Doubles(l, n - 1));
    }
  }

  lemma ByteRoom(l: bv16)
    requires l < 256
    ensures Room(l, 8) && Doubles(l, 8) == l << 8
  {
    assert Doubles(l, 1) == l << 1 && Room(l, 1);
    assert Doubles(l, 2) == l << 2 && Room(l, 2);
    assert Doubles(l, 3) == l << 3 && Room(l, 3);
    assert Doubles(l, 4) == l << 4 && Room(l, 4);
    assert Doubles(l, 5) == l << 5 && Room(l, 5);
    assert Doubles(l, 6) == l << 6 && Room(l, 6);
    assert Doubles(l, 7) == l << 7 && Room(l, 7);
  }

  function Top(crc: bv16): bv8 {
    (crc >> 8) as bv8
  }

  function Low(crc: bv16): bv16 {
    crc & 0xFF
  }

  /** What the code does with a byte. */
  function TableStep(crc: bv16, b: bv8): bv16 {
    Xor(Entry(Top(crc) ^ b), crc << 8)
  }

  lemma Parts(crc: bv16, b: bv8)
    ensures Xor(crc, High(b)) == Xor(High(Top(crc) ^ b), Low(crc))
  {
    assert crc ^ ((b as bv16) << 8) == (((((crc >> 8) as bv8) ^ b) as bv16) << 8) ^ (crc & 0xFF);
  }

  lemma LowMoves(crc: bv16)
    ensures Low(crc) < 256 && Low(crc) << 8 == crc << 8
  {
  }

  lemma TableStepIsByteStep(crc: bv16, b: bv8)
    ensures TableStep(crc, b) == ByteStep(crc, b)
  {
    Parts(crc, b);
    LowMoves(crc);
    EntryIsSteps(Top(crc) ^ b);
    EightIsSteps(High(Top(crc) ^ b));
    ByteRoom(Low(crc));
    StepsCarryLow(High(Top(crc) ^ b), Low(crc), 8);
  }

  // ----- error detection

  /** One shift, undone. */
  function Unstep(c: bv16): bv16 {
    if c & 1 != 0 then ((c ^ 0x1021) >> 1) | 0x8000 else c >> 1
  }

  lemma TappedAndBack(c: bv16)
    requires c & 0x8000 != 0
    ensures Unstep(0x1021 ^ (c << 1)) == c
  {
  }

  lemma ShiftedAndBack(c: bv16)
    requires c & 0x8000 == 0
    ensures Unstep(c << 1) == c
  {
  }

  lemma StepAndBack(c: bv16)
    ensures Unstep(BitStep(c)) == c
  {
    if TopSet(c) {
      TappedAndBack(c);
    } else {
      ShiftedAndBack(c);
    }
  }

  /** Shifting loses nothing. */
  lemma {:induction false} StepsKeepApart(x: bv16, y: bv16, n: nat)
    requires x != y
    ensures BitSteps(x, n) != BitSteps(y, n)
  {
    if n > 0 {
      StepsKeepApart(x, y, n - 1);
      StepAndBack(BitSteps(x, n - 1));
      StepAndBack(BitSteps(y, n - 1));
    }
  }

  lemma XorKeepsApart(x: bv16, y: bv16, b: bv16)
    requires x != y
    ensures Xor(x, b) != Xor(y, b)
  {
  }

  lemma ByteStepKeepsApart(x: bv16, y: bv16, b: bv8)
    requires x != y
    ensures ByteStep(x, b) != ByteStep(y, b)
  {
    XorKeepsApart(x, y, High(b));
    StepsKeepApart(Xor(x, High(b)), Xor(y, High(b)), 8);
  }

  /** An entry's low byte gives its index back. */
  function IndexOf(low: bv8): bv8 {
    var x := low ^ (low << 5);
    x ^ (x >> 4)
  }

  function LowByte(c: bv16): bv8 {
    (c & 0xFF) as bv8
  }

  lemma EntryTellsIndex(i: bv8)
    ensures IndexOf(LowByte(Eight(High(i)))) == i
  {
  }

  lemma LowOfStep(e: bv16, crc: bv16)
    ensures LowByte(Xor(e, crc << 8)) == LowByte(e)
  {
  }

  /** The low byte after a message byte tells that byte, if the register before is known. */
  lemma StepTellsByte(crc: bv16, b: bv8)
    ensures IndexOf(LowByte(ByteStep(crc, b))) == Top(crc) ^ b
  {
    TableStepIsByteStep(crc, b);
    LowOfStep(Entry(Top(crc) ^ b), crc);
    EntryIsSteps(Top(crc) ^ b);
    EntryTellsIndex(Top(crc) ^ b);
  }

  lemma LowOfSum(x: bv16, b: bv8)
    ensures LowByte(Xor(x, High(b))) == LowByte(x)
  {
  }

  lemma BytesKeepApart(a: bv8, b: bv8, c: bv8)
    requires b != c
    ensures a ^ b != a ^ c
  {
  }

  lemma HighKeepsApart(crc: bv16, b: bv8, c: bv8)
    requires b != c
    ensures Xor(crc, High(b)) != Xor(crc, High(c))
  {
  }

  /** Two message bytes lead from one register to different registers, unless they are the same two. */
  lemma TwoBytesKeepApart(crc: bv16, a: bv8, b: bv8, c: bv8, d: bv8)
    requires (a, b) != (c, d)
    ensures ByteStep(ByteStep(crc, a), b) != ByteStep(ByteStep(crc, c), d)
  {
    var x, y := ByteStep(crc, a), ByteStep(crc, c);
    if a == c {
      HighKeepsApart(x, b, d);
    } else {
      StepTellsByte(crc, a);
      StepTellsByte(crc, c);
      BytesKeepApart(Top(crc), a, c);
      LowOfSum(x, b);
      LowOfSum(y, d);
    }
    StepsKeepApart(Xor(x, High(b)), Xor(y, High(d)), 8);
  }

  /** s and t agree outside two consecutive places. */
  ghost predicate Burst(s: seq<byte>, t: seq<byte>, p: nat) {
    |s| == |t| && s != t && forall i :: 0 <= i < |s| && i != p && i != p + 1 ==> s[i] == t[i]
  }

  lemma BurstInside(s: seq<byte>, t: seq<byte>, p: nat)
    requires Burst(s, t, p)
    ensures p < |s| && (forall i :: 0 <= i < p ==> s[i] == t[i]) && forall i :: p + 2 <= i < |s| ==> s[i] == t[i]
  {
  }

  lemma {:induction false} SameBefore(s: seq<byte>, t: seq<byte>, n: nat, crc: bv16)
    requires n <= |s| == |t| && forall i :: 0 <= i < n ==> s[i] == t[i]
    ensures Fed(s, n, crc) == Fed(t, n, crc)
  {
    if n > 0 {
      SameBefore(s, t, n - 1, crc);
    }
  }

  lemma {:induction false} ApartAfter(s: seq<byte>, t: seq<byte>, k: nat, n: nat, crc: bv16)
    requires k <= n <= |s| == |t| && (forall i :: k <= i < n ==> s[i] == t[i]) && Fed(s, k, crc) != Fed(t, k, crc)
    ensures Fed(s, n, crc) != Fed(t, n, crc)
  {
    if n > k {
      ApartAfter(s, t, k, n - 1, crc);
      ByteStepKeepsApart(Fed(s, n - 1, crc), Fed(t, n - 1, crc), Bits(s[n - 1]));
    }
  }

  lemma {:induction false} BurstApart(s: seq<byte>, t: seq<byte>, p: nat, crc: bv16)
    requires Burst(s, t, p)
    ensures Fed(s, |s|, crc) != Fed(t, |t|, crc)
  {
    BurstInside(s, t, p);
    SameBefore(s, t, p, crc);
    if p + 1 < |s| {
      TwoApart(s, t, p, crc);
      ApartAfter(s, t, p + 2, |s|, crc);
    } else {
      OneApart(s, t, p, crc);
    }
  }

  /** Two messages of the same length that differ only within two consecutive bytes have different checksums, in both
      forms. */
  lemma BurstDetected(s: seq<byte>, t: seq<byte>, p: nat, crc: bv16)
    requires Burst(s, t, p)
    ensures Fed(s, |s|, crc) != Fed(t, |t|, crc) && !Fed(s, |s|, crc) != !Fed(t, |t|, crc)
  {
    BurstApart(s, t, p, crc);
    ComplementsApart(Fed(s, |s|, crc), Fed(t, |t|, crc));
  }

  lemma ComplementsApart(x: bv16, y: bv16)
    requires x != y
    ensures !x != !y
  {
  }

  /** Three bytes are too many: the polynomial itself goes unnoticed. */
  lemma ThreeBytesCollide()
    ensures Fed([1, 0x10, 0x21], 3, 0) == Fed([0, 0, 0], 3, 0)
  {
    var s, t: seq<byte> := [1, 0x10, 0x21], [0, 0, 0];
    assert Fed(s, 1, 0) == 0x1021 && Fed(s, 2, 0) == 0x2100;
    assert Fed(t, 1, 0) == 0 && Fed(t, 2, 0) == 0;
  }

  lemma BitsApart(a: byte, b: byte)
    ensures Bits(a) == Bits(b) <==> a == b
  {
  }

  lemma OneApart(s: seq<byte>, t: seq<byte>, p: nat, crc: bv16)
    requires Burst(s, t, p) && p + 1 == |s| && Fed(s, p, crc) == Fed(t, p, crc)
    ensures Fed(s, p + 1, crc) != Fed(t, p + 1, crc)
  {
    BitsApart(s[p], t[p]);
    HighKeepsApart(Fed(s, p, crc), Bits(s[p]), Bits(t[p]));
    StepsKeepApart(Xor(Fed(s, p, crc), High(Bits(s[p]))), Xor(Fed(s, p, crc), High(Bits(t[p]))), 8);
  }

  lemma TwoApart(s: seq<byte>, t: seq<byte>, p: nat, crc: bv16)
    requires Burst(s, t, p) && p + 1 < |s| && Fed(s, p, crc) == Fed(t, p, crc)
    ensures Fed(s, p + 2, crc) != Fed(t, p + 2, crc)
  {
    BitsApart(s[p], t[p]);
    BitsApart(s[p + 1], t[p + 1]);
    TwoBytesKeepApart(Fed(s, p, crc), Bits(s[p]), Bits(s[p + 1]), Bits(t[p]), Bits(t[p + 1]));
    FedTwice(s, p, crc);
    FedTwice(t, p, crc);
  }

  lemma FedTwice(s: seq<byte>, p: nat, crc: bv16)
    requires p + 2 <= |s|
    ensures Fed(s, p + 2, crc) == ByteStep(ByteStep(Fed(s, p, crc), Bits(s[p])), Bits(s[p + 1]))
  {
    assert Fed(s, p + 1, crc) == ByteStep(Fed(s, p, crc), Bits(s[p]));
  }

  lemma FirstSteps()
    ensures ByteStep(0x0000, 0x31) == 0x2672 && ByteStep(0x2672, 0x32) == 0x20B5 && ByteStep(0x20B5, 0x33) == 0x9752
  {
  }

  lemma MiddleSteps()
    ensures ByteStep(0x9752, 0x34) == 0xD789 && ByteStep(0xD789, 0x35) == 0x546C && ByteStep(0x546C, 0x36) == 0x20E4
  {
  }

  lemma LastSteps()
    ensures ByteStep(0x20E4, 0x37) == 0x86D6 && ByteStep(0x86D6, 0x38) == 0x9015 && ByteStep(0x9015, 0x39) == 0x31C3
  {
  }

  lemma FedNext(s: seq<byte>, n: nat, crc: bv16, b: bv8, r: bv16)
    requires n < |s| && Bits(s[n]) == b && Fed(s, n, crc) == r
    ensures Fed(s, n + 1, crc) == ByteStep(r, b)
  {
  }

  /** The published check value: the digits one to nine, from zero. */
  lemma CheckValue(s: seq<byte>)
    requires s == [0x31, 0x32, 0x33, 0x34, 0x35, 0x36, 0x37, 0x38, 0x39]
    ensures Fed(s, 9, 0) == 0x31C3
  {
    FirstSteps();
    MiddleSteps();
    LastSteps();
    FedNext(s, 0, 0, 0x31, 0x0000);
    FedNext(s, 1, 0, 0x32, 0x2672);
    FedNext(s, 2, 0, 0x33, 0x20B5);
    FedNext(s, 3, 0, 0x34, 0x9752);
    FedNext(s, 4, 0, 0x35, 0xD789);
    FedNext(s, 5, 0, 0x36, 0x546C);
    FedNext(s, 6, 0, 0x37, 0x20E4);
    FedNext(s, 7, 0, 0x38, 0x86D6);
    FedNext(s, 8, 0, 0x39, 0x9015);
  }

  // ----- the code

  /** bscl_crc16_ccitt gives the complement of what crc_ccitt_cacu gives from zero. */
  method Ccitt(q: seq<byte>) returns (r: bv16)
    ensures r == !Fed(q, |q|, 0)
  {
    var crc: bv16 := 0;
    for i := 0 to |q|
      invariant crc == Fed(q, i, 0)
    {
      TableStepIsByteStep(crc, Bits(q[i]));
      crc := TableStep(crc, Bits(q[i]));
    }
    return !crc;
  }

  /** crc_ccitt_cacu, for a count that is not negative. */
  method CcittCacu(addr: seq<byte>, crc0: bv16) returns (crc: bv16)
    ensures crc == Fed(addr, |addr|, crc0)
  {
    crc := crc0;
    for n := 0 to |addr|
      invariant crc == Fed(addr, n, crc0)
    {
      crc := Xor(crc, High(Bits(addr[n])));
      ghost var c := crc;
      for i := 0 to 8
        invariant crc == BitSteps(c, i)
      {
        crc := BitStep(crc);
      }
    }
  }
}
