/** Words as numbers: counting up to a word, reading its binary digits, and what the operations on words do to
    the numbers. */
module Digits {
  import opened Words

  const WIDTH: nat := 32

  // ----- from numbers to words

  /** n steps up from zero; what does not fit 32 bits is lost. */
  function Counted(n: nat): bv32 {
    if n == 0 then 0 else Counted(n - 1) + 1
  }

  lemma Shifted(a: bv32, b: bv32)
    ensures Plus(a + 1, b) == Plus(a, b + 1) && Plus(a, 0) == a
  {
  }

  /** Adding numbers is adding their words. */
  lemma {:induction false} WordOfSum(m: nat, n: nat)
    ensures Counted(m + n) == Plus(Counted(m), Counted(n))
    decreases n
  {
    if n == 0 {
      Shifted(Counted(m), 0);
    } else {
      WordOfSum(m + 1, n - 1);
      Shifted(Counted(m), Counted(n - 1));
    }
  }

  // ----- digits

  function Digit(w: bv32): (d: nat)
    ensures d <= 1
  {
    if w & 1 == 1 then 1 else 0
  }

  /** A digit put in front of a word. */
  function Push(d: nat, w: bv32): bv32 {
    if d == 0 then Double(w) else Xor(Double(w), 1)
  }

  lemma Doubled(w: bv32)
    ensures Plus(w, w) == Push(0, w)
  {
  }

  lemma OneMore(u: bv32, w: bv32)
    requires u == Double(w)
    ensures u + 1 == Xor(u, 1)
  {
  }

  lemma WordOfDouble(n: nat)
    ensures Counted(2 * n) == Push(0, Counted(n))
  {
    WordOfSum(n, n);
    Doubled(Counted(n));
  }

  lemma WordOfDigit(n: nat, d: nat)
    requires d <= 1
    ensures Counted(2 * n + d) == Push(d, Counted(n))
  {
    WordOfDouble(n);
    if d == 1 {
      OneMore(Counted(2 * n), Counted(n));
    }
  }

  lemma Apart(w: bv32)
    ensures Push(Digit(w), Half(w)) == w
  {
  }

  function Clipped(w: bv32): bv32 {
    w & 0x7FFF_FFFF
  }

  lemma DigitOfDouble(w: bv32)
    ensures Digit(Double(w)) == 0 && Half(Double(w)) == Clipped(w)
  {
    assert (w << 1) >> 1 == w & 0x7FFF_FFFF;
  }

  lemma DigitOfPushed(w: bv32)
    ensures Digit(Push(1, w)) == 1 && Half(Push(1, w)) == Clipped(w)
  {
    assert ((w << 1) ^ 1) >> 1 == w & 0x7FFF_FFFF;
    assert ((w << 1) ^ 1) & 1 == 1;
  }

  lemma Pushed(d: nat, w: bv32)
    requires d <= 1
    ensures Digit(Push(d, w)) == d && Half(Push(d, w)) == Clipped(w)
  {
    if d == 0 {
      DigitOfDouble(w);
    } else {
      DigitOfPushed(w);
    }
  }

  // ----- from words to numbers

  /** The number the lowest n digits make up. */
  function Lowest(w: bv32, n: nat): (v: nat)
    ensures v < Pow2(n)
  {
    if n == 0 then 0 else Digit(w) + 2 * Lowest(Half(w), n - 1)
  }

  function Number(w: bv32): (v: nat)
    ensures v < TWO32
  {
    Pow2Of32();
    Lowest(w, WIDTH)
  }

  /** Four more digits. */
  lemma LowestMore(w: bv32, high: bv32, n: nat, v: nat)
    requires high == w >> 4 && Lowest(high, n) == v
    ensures Lowest(w, n + 4)
         == 16 * v + 8 * Digit(w >> 3) + 4 * Digit(w >> 2) + 2 * Digit(w >> 1) + Digit(w)
  {
    assert Half(w >> 3) == high && Half(w >> 2) == w >> 3 && Half(w >> 1) == w >> 2;
    assert Lowest(w >> 3, n + 1) == Digit(w >> 3) + 2 * v;
    assert Lowest(w >> 2, n + 2) == Digit(w >> 2) + 2 * Lowest(w >> 3, n + 1);
    assert Lowest(w >> 1, n + 3) == Digit(w >> 1) + 2 * Lowest(w >> 2, n + 2);
  }

  /** m has its lowest n digits set. */
  predicate Covers(m: bv32, n: nat)
    decreases n
  {
    n > 0 ==> Digit(m) == 1 && Covers(Half(m), n - 1)
  }

  lemma CoversMore(m: bv32, n: nat)
    requires m & 0xF == 0xF && Covers(m >> 4, n)
    ensures Covers(m, n + 4)
  {
    assert Half(m >> 3) == m >> 4 && Half(m >> 2) == m >> 3 && Half(m >> 1) == m >> 2;
    assert Covers(m >> 2, n + 2);
  }

  lemma CoversBelowTop()
    ensures Covers(0x7FFF_FFFF, 31)
  {
    assert Covers(0x1, 1) && Covers(0x7, 3);
    CoversMore(0x7F, 3);
    CoversMore(0x7FF, 7);
    CoversMore(0x7FFF, 11);
    CoversMore(0x7_FFFF, 15);
    CoversMore(0x7F_FFFF, 19);
    CoversMore(0x7FF_FFFF, 23);
    CoversMore(0x7FFF_FFFF, 27);
  }

  lemma {:induction false} CoversFewer(m: bv32, k: nat, n: nat)
    requires Covers(m, n) && k <= n
    ensures Covers(m, k)
    decreases n
  {
    if k > 0 {
      CoversFewer(Half(m), k - 1, n - 1);
    }
  }

  function And(w: bv32, m: bv32): bv32 {
    w & m
  }

  lemma RestOfAnd(w: bv32, m: bv32)
    ensures Half(And(w, m)) == And(Half(w), Half(m)) && (Digit(m) == 1 ==> Digit(And(w, m)) == Digit(w))
  {
  }

  lemma {:induction false} LowOfAnd(w: bv32, m: bv32, n: nat)
    requires Covers(m, n)
    ensures Lowest(And(w, m), n) == Lowest(w, n)
    decreases n
  {
    if n > 0 {
      RestOfAnd(w, m);
      LowOfAnd(Half(w), Half(m), n - 1);
    }
  }

  lemma LowOfPush(d: nat, w: bv32, n: nat)
    requires d <= 1 && 0 < n <= WIDTH
    ensures Lowest(Push(d, w), n) == d + 2 * Lowest(w, n - 1)
  {
    Pushed(d, w);
    CoversBelowTop();
    CoversFewer(0x7FFF_FFFF, n - 1, 31);
    LowOfAnd(w, 0x7FFF_FFFF, n - 1);
    assert And(w, 0x7FFF_FFFF) == Clipped(w);
  }

  lemma LowestDigit(v: nat, m: nat)
    requires m > 0
    ensures v % (2 * m) == v % 2 + 2 * (v / 2 % m)
  {
    var q, r := v / 2 / m, v / 2 % m;
    assert v / 2 == m * q + r;
    assert v == (2 * m) * q + (v % 2 + 2 * r);
    Remainder(v, 2 * m, q, v % 2 + 2 * r);
  }

  lemma Remainder(v: nat, m: nat, k: nat, r: nat)
    requires r < m && v == m * k + r
    ensures v % m == r && v / m == k
  {
    var d := k - v / m;
    assert v == m * (v / m) + v % m;
    assert m * d == v % m - r;
    AtLeast(m, d);
    AtLeast(m, -d);
  }

  lemma AtLeast(m: nat, d: int)
    ensures d >= 1 ==> m * d >= m
  {
  }

  lemma {:induction false} LowOfWord(v: nat, n: nat)
    requires n <= WIDTH
    ensures Lowest(Counted(v), n) == v % Pow2(n)
    decreases n
  {
    if n > 0 {
      WordOfDigit(v / 2, v % 2);
      LowOfPush(v % 2, Counted(v / 2), n);
      LowOfWord(v / 2, n - 1);
      LowestDigit(v, Pow2(n - 1));
    }
  }

  /** Counting up to v gives a word whose digits are those of v. */
  lemma NumberOfWord(v: nat)
    ensures Number(Counted(v)) == v % TWO32
  {
    Pow2Of32();
    LowOfWord(v, WIDTH);
  }

  /** w has at most n digits. */
  ghost predicate Short(w: bv32, n: nat)
    decreases n
  {
    if n == 0 then w == 0 else Short(Half(w), n - 1)
  }

  lemma {:induction false} ShortUnder(w: bv32, m: bv32, n: nat)
    requires And(w, m) == w && Short(m, n)
    ensures Short(w, n)
    decreases n
  {
    if n > 0 {
      RestOfAnd(w, m);
      ShortUnder(Half(w), Half(m), n - 1);
    }
  }

  lemma ShortMore(m: bv32, n: nat)
    requires Short(m >> 4, n)
    ensures Short(m, n + 4)
  {
    assert Half(m >> 3) == m >> 4 && Half(m >> 2) == m >> 3 && Half(m >> 1) == m >> 2;
    assert Short(m >> 2, n + 2);
  }

  lemma AllShort(w: bv32)
    ensures Short(w, WIDTH)
  {
    assert Short(0, 0);
    ShortMore(0xF, 0);
    ShortMore(0xFF, 4);
    ShortMore(0xFFF, 8);
    ShortMore(0xFFFF, 12);
    ShortMore(0xF_FFFF, 16);
    ShortMore(0xFF_FFFF, 20);
    ShortMore(0xFFF_FFFF, 24);
    ShortMore(0xFFFF_FFFF, 28);
    ShortUnder(w, 0xFFFF_FFFF, WIDTH);
  }

  lemma {:induction false} WordOfLow(w: bv32, n: nat)
    requires Short(w, n)
    ensures Counted(Lowest(w, n)) == w
    decreases n
  {
    if n > 0 {
      WordOfLow(Half(w), n - 1);
      WordOfDigit(Lowest(Half(w), n - 1), Digit(w));
      Apart(w);
    }
  }

  /** Counting up to the number of a word gives the word. */
  lemma WordOfNumber(w: bv32)
    ensures Counted(Number(w)) == w
  {
    AllShort(w);
    WordOfLow(w, WIDTH);
  }

  // ----- what the operations do to the numbers

  lemma NumberOfSum(a: bv32, b: bv32)
    ensures Number(Plus(a, b)) == (Number(a) + Number(b)) % TWO32
  {
    WordOfNumber(a);
    WordOfNumber(b);
    NumberOfWords(Number(a), Number(b), a, b);
  }

  lemma NumberOfWords(m: nat, n: nat, a: bv32, b: bv32)
    requires Counted(m) == a && Counted(n) == b
    ensures Number(Plus(a, b)) == (m + n) % TWO32
  {
    WordOfSum(m, n);
    NumberOfWord(m + n);
  }

  lemma NumberOfDouble(w: bv32)
    ensures Number(Push(0, w)) == 2 * Number(w) % TWO32
  {
    WordOfNumber(w);
    WordOfDouble(Number(w));
    NumberOfWord(2 * Number(w));
  }

  lemma {:induction false} LowOfShort(w: bv32, n: nat)
    requires Short(w, n)
    ensures Lowest(w, n + 1) == Lowest(w, n)
    decreases n
  {
    if n > 0 {
      LowOfShort(Half(w), n - 1);
    }
  }

  lemma NumberOfHalf(w: bv32)
    ensures Number(Half(w)) == Number(w) / 2
  {
    AllShort(w);
    LowOfShort(Half(w), 31);
  }

  /** Digit by digit, one or the other but not both. */
  function Differing(m: nat, n: nat): nat {
    if m == 0 && n == 0 then 0 else 2 * Differing(m / 2, n / 2) + (if m % 2 == n % 2 then 0 else 1)
  }

  lemma DoubleOfXor(a: bv32, b: bv32)
    ensures Double(Xor(a, b)) == Xor(Double(a), Double(b))
  {
  }

  lemma XorPushed(a: bv32, b: bv32, p: bv32, q: bv32)
    requires p == Double(a) && q == Double(b)
    ensures Xor(p, q) == Double(Xor(a, b)) && Xor(Xor(p, 1), Xor(q, 1)) == Double(Xor(a, b))
    ensures Xor(p, Xor(q, 1)) == Xor(Double(Xor(a, b)), 1) && Xor(Xor(p, 1), q) == Xor(Double(Xor(a, b)), 1)
  {
    DoubleOfXor(a, b);
    XorCancels(1, p, q);
    XorAssociates(p, q, 1);
    XorCommutes(q, 1);
    XorAssociates(p, 1, q);
  }

  lemma XorOfDigits(m: nat, n: nat, d: nat, e: nat, k: nat)
    requires d <= 1 && e <= 1 && Xor(Counted(m), Counted(n)) == Counted(k)
    ensures Xor(Counted(2 * m + d), Counted(2 * n + e)) == Counted(2 * k + (if d == e then 0 else 1))
  {
    WordOfDigit(m, d);
    WordOfDigit(n, e);
    XorPushed(Counted(m), Counted(n), Double(Counted(m)), Double(Counted(n)));
    WordOfDigit(k, if d == e then 0 else 1);
  }

  lemma {:induction false} WordOfDiffering(m: nat, n: nat)
    ensures Xor(Counted(m), Counted(n)) == Counted(Differing(m, n))
  {
    if m > 0 || n > 0 {
      WordOfDiffering(m / 2, n / 2);
      XorOfDigits(m / 2, n / 2, m % 2, n % 2, Differing(m / 2, n / 2));
      assert m == 2 * (m / 2) + m % 2 && n == 2 * (n / 2) + n % 2;
    }
  }

  lemma {:induction false} DifferingBelow(m: nat, n: nat, k: nat)
    requires m < Pow2(k) && n < Pow2(k)
    ensures Differing(m, n) < Pow2(k)
    decreases k
  {
    if k > 0 {
      DifferingBelow(m / 2, n / 2, k - 1);
    }
  }

  lemma NumberOfXor(a: bv32, b: bv32)
    ensures Number(Xor(a, b)) == Differing(Number(a), Number(b))
  {
    WordOfNumber(a);
    WordOfNumber(b);
    XorOfNumbers(Number(a), Number(b), a, b);
  }

  lemma XorOfNumbers(m: nat, n: nat, a: bv32, b: bv32)
    requires m < TWO32 && n < TWO32 && Counted(m) == a && Counted(n) == b
    ensures Number(Xor(a, b)) == Differing(m, n)
  {
    WordOfDiffering(m, n);
    NumberOfWord(Differing(m, n));
    Pow2Of32();
    DifferingBelow(m, n, WIDTH);
  }

  // ----- bytes

  lemma WideDouble(h: bv8)
    requires h < 128
    ensures (h << 1) as bv32 == Double(h as bv32) && ((h << 1) | 1) as bv32 == Xor(Double(h as bv32), 1)
    ensures Clipped(h as bv32) == h as bv32
  {
  }

  lemma WideDigits(b: nat)
    requires 0 < b < 256
    ensures BitsOf(b) as bv32 == Push(b % 2, BitsOf(b / 2) as bv32)
    ensures Clipped(BitsOf(b / 2) as bv32) == BitsOf(b / 2) as bv32
  {
    WideDouble(BitsOf(b / 2));
  }

  lemma {:induction false} ByteCounted(b: nat)
    requires b < 256
    ensures Counted(b) == BitsOf(b) as bv32
  {
    if b > 0 {
      ByteCounted(b / 2);
      WideDigits(b);
      WordOfDigit(b / 2, b % 2);
    }
  }

  function ByteUp(w: bv32): bv32 {
    w << 8
  }

  lemma ByteUpIsDoubled(w: bv32)
    ensures ByteUp(w) == Double(Double(Double(Double(Double(Double(Double(Double(w))))))))
  {
  }

  lemma WordOfByteUp(n: nat)
    ensures Counted(256 * n) == ByteUp(Counted(n))
  {
    ByteUpIsDoubled(Counted(n));
    WordOfDouble(n);
    WordOfDouble(2 * n);
    WordOfDouble(4 * n);
    WordOfDouble(8 * n);
    WordOfDouble(16 * n);
    WordOfDouble(32 * n);
    WordOfDouble(64 * n);
    WordOfDouble(128 * n);
  }

  function Over(w: bv32, b: bv8): bv32 {
    ByteUp(w) | (b as bv32)
  }

  lemma OverIsSum(w: bv32, b: bv8)
    ensures Over(w, b) == Plus(ByteUp(w), b as bv32)
  {
    assert (w << 8) & (b as bv32) == 0;
  }

  lemma ByteOver(n: nat, w: bv32, b: byte, v: nat)
    requires Counted(n) == w && v == 256 * n + b as nat
    ensures Counted(v) == Over(w, Bits(b))
  {
    WordOfByteUp(n);
    ByteCounted(b as nat);
    WordOfSum(256 * n, b as nat);
    OverIsSum(w, Bits(b));
  }

  lemma JoinIsOver(a: bv8, b: bv8, c: bv8, d: bv8)
    ensures Join(a, b, c, d) == Over(Over(Over(d as bv32, c), b), a)
  {
  }

  lemma WordOfFour(a: byte, b: byte, c: byte, d: byte, m: nat, n: nat, v: nat)
    requires m == 256 * (d as nat) + c as nat && n == 256 * m + b as nat && v == 256 * n + a as nat
    ensures Counted(v) == Join(Bits(a), Bits(b), Bits(c), Bits(d))
  {
    var w := Bits(d) as bv32;
    ByteCounted(d as nat);
    ByteOver(d as nat, w, c, m);
    ByteOver(m, Over(w, Bits(c)), b, n);
    ByteOver(n, Over(Over(w, Bits(c)), Bits(b)), a, v);
    JoinIsOver(Bits(a), Bits(b), Bits(c), Bits(d));
  }

  lemma FourInOne(s: seq<byte>)
    requires |s| == 4
    ensures Number32(s) == 256 * (256 * (256 * (s[3] as nat) + s[2] as nat) + s[1] as nat) + s[0] as nat
  {
  }

  /** Four bytes as bits and as a number are the same. */
  lemma NumberOfBytes(s: seq<byte>)
    requires |s| == 4
    ensures Number(Le32(s)) == Number32(s)
  {
    var m := 256 * (s[3] as nat) + s[2] as nat;
    var n := 256 * m + s[1] as nat;
    FourInOne(s);
    WordOfFour(s[0], s[1], s[2], s[3], m, n, Number32(s));
    NumberOfWord(Number32(s));
  }
}
