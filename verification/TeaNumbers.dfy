/** The cipher of src/bscl_tea.c on numbers: what Tea.Enciphered makes of words, said with sums, products and
    quotients modulo 2^32. */
module TeaNumbers {
  import opened Words
  import opened Digits
  import opened Tea

  datatype Numbers = Numbers(v0: nat, v1: nat)

  datatype Keys = Keys(k0: nat, k1: nat, k2: nat, k3: nat)

  function Mixed(v: nat, s: nat, ka: nat, kb: nat): nat {
    Differing(Differing((16 * v + ka) % TWO32, (v + s) % TWO32), (v / 32 + kb) % TWO32)
  }

  function Cycle(k: Keys, p: Numbers, s: nat): Numbers {
    var v0 := (p.v0 + Mixed(p.v1, s, k.k0, k.k1)) % TWO32;
    Numbers(v0, (p.v1 + Mixed(v0, s, k.k2, k.k3)) % TWO32)
  }

  /** After n cycles; the sum of the last of them is n times the constant. */
  function Cycles(k: Keys, p: Numbers, n: nat): Numbers {
    if n == 0 then p else Cycle(k, Cycles(k, p, n - 1), n * 0x9E37_79B9 % TWO32)
  }

  function NumbersOf(b: Block): Numbers {
    Numbers(Number(b.v0), Number(b.v1))
  }

  function KeysOf(k: Key): Keys {
    Keys(Number(k.k0), Number(k.k1), Number(k.k2), Number(k.k3))
  }

  lemma UpIsDoubled(v: bv32)
    ensures Up(v) == Double(Double(Double(Double(v))))
  {
  }

  lemma DownIsHalved(v: bv32)
    ensures Down(v) == Half(Half(Half(Half(Half(v)))))
  {
  }

  lemma WordUp(n: nat)
    ensures Up(Counted(n)) == Counted(16 * n)
  {
    UpIsDoubled(Counted(n));
    WordOfDouble(n);
    WordOfDouble(2 * n);
    WordOfDouble(4 * n);
    WordOfDouble(8 * n);
  }

  lemma NumberOfUp(v: bv32, n: nat, u: bv32)
    requires Counted(n) == v && u == Up(v)
    ensures Number(u) == 16 * n % TWO32
  {
    WordUp(n);
    NumberOfWord(16 * n);
  }

  lemma NumberOfDown(v: bv32)
    ensures Number(Down(v)) == Number(v) / 32
  {
    DownIsHalved(v);
    NumberOfHalf(v);
    NumberOfHalf(Half(v));
    NumberOfHalf(Half(Half(v)));
    NumberOfHalf(Half(Half(Half(v))));
    NumberOfHalf(Half(Half(Half(Half(v)))));
  }

  lemma ModPlus(m: nat, n: nat)
    ensures (m % TWO32 + n) % TWO32 == (m + n) % TWO32
  {
  }

  lemma NumberOfUpSum(v: bv32, k: bv32)
    ensures Number(Plus(Up(v), k)) == (16 * Number(v) + Number(k)) % TWO32
  {
    WordOfNumber(v);
    NumberOfUp(v, Number(v), Up(v));
    NumberOfSum(Up(v), k);
    ModPlus(16 * Number(v), Number(k));
  }

  lemma NumberOfDownSum(v: bv32, k: bv32)
    ensures Number(Plus(Down(v), k)) == (Number(v) / 32 + Number(k)) % TWO32
  {
    NumberOfDown(v);
    NumberOfSum(Down(v), k);
  }

  lemma NumberOfThree(a: bv32, b: bv32, c: bv32, m: nat, n: nat, r: nat)
    requires Number(a) == m && Number(b) == n && Number(c) == r
    ensures Number(Xor(Xor(a, b), c)) == Differing(Differing(m, n), r)
  {
    NumberOfXor(a, b);
    NumberOfXor(Xor(a, b), c);
  }

  lemma NumberOfMix(v: bv32, sum: bv32, ka: bv32, kb: bv32)
    ensures Number(Mix(v, sum, ka, kb)) == Mixed(Number(v), Number(sum), Number(ka), Number(kb))
  {
    NumberOfUpSum(v, ka);
    NumberOfSum(v, sum);
    NumberOfDownSum(v, kb);
    MixIsMixed(v, sum, ka, kb, Number(v), Number(sum), Number(ka), Number(kb));
  }

  lemma MixIsMixed(v: bv32, sum: bv32, ka: bv32, kb: bv32, m: nat, s: nat, x: nat, y: nat)
    requires Number(Plus(Up(v), ka)) == (16 * m + x) % TWO32 && Number(Plus(v, sum)) == (m + s) % TWO32
    requires Number(Plus(Down(v), kb)) == (m / 32 + y) % TWO32
    ensures Number(Mix(v, sum, ka, kb)) == Mixed(m, s, x, y)
  {
    NumberOfThree(Plus(Up(v), ka), Plus(v, sum), Plus(Down(v), kb), (16 * m + x) % TWO32, (m + s) % TWO32,
      (m / 32 + y) % TWO32);
  }

  /** Half a round, from v to r. */
  lemma NumberOfStep(v: bv32, w: bv32, sum: bv32, ka: bv32, kb: bv32, r: bv32)
    requires r == Plus(v, Mix(w, sum, ka, kb))
    ensures Number(r) == (Number(v) + Mixed(Number(w), Number(sum), Number(ka), Number(kb))) % TWO32
  {
    NumberOfMix(w, sum, ka, kb);
    NumberOfSum(v, Mix(w, sum, ka, kb));
  }

  /** The two halves of a round. */
  lemma Halves(k: Key, b: Block, sum: bv32, r: Block)
    requires r == Round(k, b, sum)
    ensures r.v0 == Plus(b.v0, Mix(b.v1, sum, k.k0, k.k1)) && r.v1 == Plus(b.v1, Mix(r.v0, sum, k.k2, k.k3))
  {
  }

  lemma NumbersOfHalves(k: Key, b: Block, sum: bv32, r: Block, n: Numbers)
    requires n.v0 == (Number(b.v0) + Mixed(Number(b.v1), Number(sum), Number(k.k0), Number(k.k1))) % TWO32
    requires n.v1 == (Number(b.v1) + Mixed(n.v0, Number(sum), Number(k.k2), Number(k.k3))) % TWO32
    requires Number(r.v0) == n.v0 && Number(r.v1) == n.v1
    ensures NumbersOf(r) == Cycle(KeysOf(k), NumbersOf(b), Number(sum))
  {
  }

  lemma NumbersOfRound(k: Key, b: Block, sum: bv32, r: Block)
    requires r == Round(k, b, sum)
    ensures NumbersOf(r) == Cycle(KeysOf(k), NumbersOf(b), Number(sum))
  {
    Halves(k, b, sum, r);
    NumberOfStep(b.v0, b.v1, sum, k.k0, k.k1, r.v0);
    NumberOfStep(b.v1, r.v0, sum, k.k2, k.k3, r.v1);
    NumbersOfHalves(k, b, sum, r, NumbersOf(r));
  }

  lemma NumberOfDelta()
    ensures Number(DELTA) == 0x9E37_79B9
  {
    LowestMore(0x9, 0x0, 0, 0);
    LowestMore(0x9E, 0x9, 4, 0x9);
    LowestMore(0x9E3, 0x9E, 8, 0x9E);
    LowestMore(0x9E37, 0x9E3, 12, 0x9E3);
    LowestMore(0x9_E377, 0x9E37, 16, 0x9E37);
    LowestMore(0x9E_3779, 0x9_E377, 20, 0x9_E377);
    LowestMore(0x9E3_779B, 0x9E_3779, 24, 0x9E_3779);
    LowestMore(0x9E37_79B9, 0x9E3_779B, 28, 0x9E3_779B);
  }

  lemma {:induction false} SumIsCounted(n: nat, d: nat)
    requires Counted(d) == DELTA
    ensures Sum(n) == Counted(n * d)
  {
    if n > 0 {
      SumIsCounted(n - 1, d);
      WordOfSum((n - 1) * d, d);
      assert (n - 1) * d + d == n * d;
    }
  }

  lemma NumberOfTheSum(n: nat)
    ensures Number(Sum(n)) == n * 0x9E37_79B9 % TWO32
  {
    NumberOfDelta();
    WordOfNumber(DELTA);
    SumIsCounted(n, Number(DELTA));
    NumberOfWord(n * Number(DELTA));
  }

  lemma {:induction false} NumbersOfRounds(k: Key, b: Block, n: nat)
    ensures NumbersOf(Rounds(k, b, n)) == Cycles(KeysOf(k), NumbersOf(b), n)
  {
    if n > 0 {
      NumbersOfRounds(k, b, n - 1);
      NumbersOfRound(k, Rounds(k, b, n - 1), Sum(n), Rounds(k, b, n));
      NumberOfTheSum(n);
    }
  }

  /** Every key enciphers every block as 32 cycles on numbers do. */
  lemma EncipheredNumbers(k: Key, b: Block)
    ensures NumbersOf(Enciphered(k, b)) == Cycles(KeysOf(k), NumbersOf(b), 32)
  {
    NumbersOfRounds(k, b, ROUNDS);
  }

  /** A block of memory is two numbers of four bytes, low byte first. */
  lemma NumbersOfBlock(s: seq<byte>, i: nat)
    requires 8 * i + 8 <= |s|
    ensures Blocks(s)[i] == BlockAt(s, i)
    ensures NumbersOf(BlockAt(s, i)) == Numbers(Number32(s[8 * i..8 * i + 4]), Number32(s[8 * i + 4..8 * i + 8]))
  {
    NumberOfBytes(s[8 * i..8 * i + 4]);
    NumberOfBytes(s[8 * i + 4..8 * i + 8]);
  }

  lemma NumbersOfXor(a: Block, b: Block)
    ensures NumbersOf(BlockXor(a, b))
         == Numbers(Differing(Number(a.v0), Number(b.v0)), Differing(Number(a.v1), Number(b.v1)))
  {
    NumberOfXor(a.v0, b.v0);
    NumberOfXor(a.v1, b.v1);
  }

  /** What is enciphered for block p when the next block of ciphertext, if there is one, is c. */
  function Mingled(p: Numbers, c: seq<Numbers>): Numbers {
    if c == [] then p else Numbers(Differing(p.v0, c[0].v0), Differing(p.v1, c[0].v1))
  }

  function After(c: seq<Block>, i: nat): seq<Numbers> {
    if i + 1 < |c| then [NumbersOf(c[i + 1])] else []
  }

  /** bscl_encryptData on numbers: 32 cycles on every block, mingled with the block of ciphertext behind it. */
  lemma ChainedNumbers(k: Key, p: seq<Block>, i: nat)
    requires i < |p|
    ensures var c := Chained(Cipher(k), p);
            NumbersOf(c[i]) == Cycles(KeysOf(k), Mingled(NumbersOf(p[i]), After(c, i)), 32)
  {
    var c := Chained(Cipher(k), p);
    ChainedAt(Cipher(k), p, i);
    var b := if i + 1 < |p| then BlockXor(p[i], c[i + 1]) else p[i];
    assert c[i] == Cipher(k)(b);
    if i + 1 < |p| {
      NumbersOfXor(p[i], c[i + 1]);
    }
    EncipheredNumbers(k, b);
  }
}
