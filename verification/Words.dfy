/** Machine words: bytes are numbers below 256, words are 32-bit vectors, and multi-byte values are
    laid out little-endian. */
module Words {
  newtype byte = x: int | 0 <= x < 256

  const TWO16: nat := 0x1_0000
  const TWO32: nat := 0x1_0000_0000

  function Min(a: nat, b: nat): nat {
    if a < b then a else b
  }

  ghost function Pow2(k: nat): (p: nat)
    ensures p > 0
  {
    if k == 0 then 1 else 2 * Pow2(k - 1)
  }

  lemma Pow2Of32()
    ensures Pow2(31) == 0x8000_0000 && Pow2(32) == TWO32
  {
    assert Pow2(8) == 0x100;
    assert Pow2(16) == 0x1_0000;
    assert Pow2(24) == 0x100_0000;
  }

  /** What arrives when data comes in chunks. */
  function Concat(chunks: seq<seq<byte>>): seq<byte>
    decreases |chunks|
  {
    if chunks == [] then [] else chunks[0] + Concat(chunks[1..])
  }

  // ----- a byte as a number and as bits

  /** The bits of a number below 256, built from the top down. */
  function BitsOf(n: nat): (b: bv8)
    requires n < 256
    ensures b as nat == n
  {
    if n == 0 then 0
    else
      var h := BitsOf(n / 2);
      BitsDouble(h);
      if n % 2 == 0 then h << 1 else (h << 1) | 1
  }

  lemma BitsDouble(b: bv8)
    requires b as nat < 128
    ensures (b << 1) as nat == 2 * (b as nat)
    ensures ((b << 1) | 1) as nat == 2 * (b as nat) + 1
  {
  }

  function Bits(b: byte): (v: bv8)
    ensures v as nat == b as nat
  {
    BitsOf(b as nat)
  }

  function ByteOf(v: bv8): (b: byte)
    ensures Bits(b) == v
  {
    SameBits(Bits((v as nat) as byte), v);
    (v as nat) as byte
  }

  lemma SameBits(a: bv8, b: bv8)
    requires a as nat == b as nat
    ensures a == b
  {
    assert (a as nat) as bv8 == (b as nat) as bv8;
  }

  lemma BitsInjective(a: byte, b: byte)
    requires Bits(a) == Bits(b)
    ensures a == b
  {
  }

  /** A byte in the low end of a word. */
  function Wide(b: byte): bv32 {
    Bits(b) as bv32
  }

  // ----- little-endian layout

  /** The 16-bit value stored in two consecutive bytes. */
  function Le16(lo: byte, hi: byte): (n: nat)
    ensures n < TWO16
  {
    (lo as nat) + 256 * (hi as nat)
  }

  function Le16Bytes(n: nat): (s: seq<byte>)
    requires n < TWO16
    ensures |s| == 2 && Le16(s[0], s[1]) == n
  {
    [(n % 256) as byte, (n / 256) as byte]
  }

  /** The 32-bit number stored in four consecutive bytes. */
  function Number32(s: seq<byte>): (n: nat)
    requires |s| == 4
    ensures n < TWO32
  {
    Le16(s[0], s[1]) + TWO16 * Le16(s[2], s[3])
  }

  function Number32Bytes(n: nat): (s: seq<byte>)
    requires n < TWO32
    ensures |s| == 4 && Number32(s) == n
  {
    Le16Bytes(n % TWO16) + Le16Bytes(n / TWO16)
  }

  lemma Le16RoundTrip(lo: byte, hi: byte)
    ensures Le16Bytes(Le16(lo, hi)) == [lo, hi]
  {
  }

  lemma HighAndLow(low: nat, high: nat, n: nat)
    requires low < TWO16 && n == low + TWO16 * high
    ensures n % TWO16 == low && n / TWO16 == high
  {
  }

  lemma Number32RoundTrip(s: seq<byte>)
    requires |s| == 4
    ensures Number32Bytes(Number32(s)) == s
  {
    HighAndLow(Le16(s[0], s[1]), Le16(s[2], s[3]), Number32(s));
    Le16RoundTrip(s[0], s[1]);
    Le16RoundTrip(s[2], s[3]);
  }

  /** The same four bytes as the bits of a word. */
  function Le32(s: seq<byte>): bv32
    requires |s| == 4
  {
    Join(Bits(s[0]), Bits(s[1]), Bits(s[2]), Bits(s[3]))
  }

  function Join(a: bv8, b: bv8, c: bv8, d: bv8): bv32 {
    (a as bv32) | ((b as bv32) << 8) | ((c as bv32) << 16) | ((d as bv32) << 24)
  }

  function Le32Bytes(w: bv32): (s: seq<byte>)
    ensures |s| == 4 && Le32(s) == w
  {
    JoinSplit(w);
    [ByteOf(Low(w)), ByteOf(Low(w >> 8)), ByteOf(Low(w >> 16)), ByteOf(Low(w >> 24))]
  }

  function Low(w: bv32): bv8 {
    (w & 0xFF) as bv8
  }

  lemma JoinSplit(w: bv32)
    ensures Join(Low(w), Low(w >> 8), Low(w >> 16), Low(w >> 24)) == w
  {
  }

  lemma SplitJoin(a: bv8, b: bv8, c: bv8, d: bv8)
    ensures var w := Join(a, b, c, d);
            Low(w) == a && Low(w >> 8) == b && Low(w >> 16) == c && Low(w >> 24) == d
  {
  }

  lemma Le32RoundTrip(s: seq<byte>)
    requires |s| == 4
    ensures Le32Bytes(Le32(s)) == s
  {
    SplitJoin(Bits(s[0]), Bits(s[1]), Bits(s[2]), Bits(s[3]));
    BitsInjective(Le32Bytes(Le32(s))[0], s[0]);
    BitsInjective(Le32Bytes(Le32(s))[1], s[1]);
    BitsInjective(Le32Bytes(Le32(s))[2], s[2]);
    BitsInjective(Le32Bytes(Le32(s))[3], s[3]);
  }

  // ----- operations on words; named so that proofs can reason by laws alone

  function Xor(a: bv32, b: bv32): bv32 {
    a ^ b
  }

  function Half(a: bv32): bv32 {
    a >> 1
  }

  function Plus(a: bv32, b: bv32): bv32 {
    a + b
  }

  function Double(a: bv32): bv32 {
    a << 1
  }

  predicate Odd(a: bv32) {
    a & 1 == 1
  }

  lemma XorAssociates(a: bv32, b: bv32, c: bv32)
    ensures Xor(Xor(a, b), c) == Xor(a, Xor(b, c))
  {
  }

  lemma XorCommutes(a: bv32, b: bv32)
    ensures Xor(a, b) == Xor(b, a)
  {
  }

  lemma XorZero(a: bv32)
    ensures Xor(a, 0) == a && Xor(0, a) == a && Xor(a, a) == 0
  {
  }

  lemma XorZeroOnlyIfEqual(a: bv32, b: bv32)
    ensures Xor(a, b) == 0 <==> a == b
  {
    if Xor(a, b) == 0 {
      XorAssociates(a, b, b);
      XorZero(a);
      XorZero(b);
    } else if a == b {
      XorZero(a);
    }
  }

  lemma XorExchange(a: bv32, b: bv32, c: bv32, d: bv32)
    ensures Xor(Xor(a, b), Xor(c, d)) == Xor(Xor(a, c), Xor(b, d))
  {
    XorAssociates(a, b, Xor(c, d));
    XorAssociates(b, c, d);
    XorCommutes(b, c);
    XorAssociates(c, b, d);
    XorAssociates(a, c, Xor(b, d));
  }

  lemma XorCancels(p: bv32, a: bv32, b: bv32)
    ensures Xor(Xor(a, p), Xor(b, p)) == Xor(a, b)
  {
    XorExchange(a, p, b, p);
    XorZero(p);
    XorZero(Xor(a, b));
  }

  lemma HalfOfXor(a: bv32, b: bv32)
    ensures Half(Xor(a, b)) == Xor(Half(a), Half(b))
  {
  }

  lemma OddOfXor(a: bv32, b: bv32)
    ensures Odd(Xor(a, b)) <==> Odd(a) != Odd(b)
  {
  }
}
