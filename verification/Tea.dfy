/** The block cipher of src/bscl_tea.c and its chaining, which runs from the last block to the first and in
    place. */
module Tea {
  import opened Words

  datatype Key = Key(k0: bv32, k1: bv32, k2: bv32, k3: bv32)

  datatype Block = Block(v0: bv32, v1: bv32)

  const DELTA: bv32 := 0x9e37_79b9
  const LAST_SUM: bv32 := 0xC6EF_3720
  const ROUNDS: nat := 32

  // ----- one round and back

  function Up(v: bv32): bv32 {
    v << 4
  }

  function Down(v: bv32): bv32 {
    v >> 5
  }

  function Mix(v: bv32, sum: bv32, ka: bv32, kb: bv32): bv32 {
    Xor(Xor(Plus(Up(v), ka), Plus(v, sum)), Plus(Down(v), kb))
  }

  function Minus(a: bv32, b: bv32): bv32 {
    a - b
  }

  lemma SumLessPart(a: bv32, b: bv32)
    ensures Minus(a + b, b) == a
  {
  }

  lemma RestAndPart(a: bv32, b: bv32)
    ensures Plus(a - b, b) == a
  {
  }

  lemma PlusMinus(a: bv32, b: bv32)
    ensures Minus(Plus(a, b), b) == a && Plus(Minus(a, b), b) == a
  {
    SumLessPart(a, b);
    RestAndPart(a, b);
  }

  function Round(k: Key, b: Block, sum: bv32): Block {
    var v0 := Plus(b.v0, Mix(b.v1, sum, k.k0, k.k1));
    Block(v0, Plus(b.v1, Mix(v0, sum, k.k2, k.k3)))
  }

  function Unround(k: Key, b: Block, sum: bv32): Block {
    var v1 := Minus(b.v1, Mix(b.v0, sum, k.k2, k.k3));
    Block(Minus(b.v0, Mix(v1, sum, k.k0, k.k1)), v1)
  }

  lemma RoundAndBack(k: Key, b: Block, sum: bv32)
    ensures Unround(k, Round(k, b, sum), sum) == b
    ensures Round(k, Unround(k, b, sum), sum) == b
  {
    PlusMinus(b.v0, Mix(b.v1, sum, k.k0, k.k1));
    PlusMinus(b.v1, Mix(Round(k, b, sum).v0, sum, k.k2, k.k3));
    PlusMinus(b.v1, Mix(b.v0, sum, k.k2, k.k3));
    PlusMinus(b.v0, Mix(Unround(k, b, sum).v1, sum, k.k0, k.k1));
  }

  // ----- all rounds

  /** The sum after n rounds. */
  function Sum(n: nat): bv32 {
    if n == 0 then 0 else Plus(Sum(n - 1), DELTA)
  }

  lemma SumAtEnd()
    ensures Sum(ROUNDS) == LAST_SUM
  {
    assert Sum(8) == 0xf1bb_cdc8;
    assert Sum(16) == 0xe377_9b90;
    assert Sum(24) == 0xd533_6958;
  }

  function Rounds(k: Key, b: Block, n: nat): Block {
    if n == 0 then b else Round(k, Rounds(k, b, n - 1), Sum(n))
  }

  function Unrounds(k: Key, b: Block, n: nat): Block
    decreases n
  {
    if n == 0 then b else Unrounds(k, Unround(k, b, Sum(n)), n - 1)
  }

  lemma {:induction false} RoundsAndBack(k: Key, b: Block, n: nat)
    ensures Unrounds(k, Rounds(k, b, n), n) == b
  {
    if n > 0 {
      RoundAndBack(k, Rounds(k, b, n - 1), Sum(n));
      RoundsAndBack(k, b, n - 1);
    }
  }

  lemma {:induction false} BackAndRounds(k: Key, b: Block, n: nat)
    ensures Rounds(k, Unrounds(k, b, n), n) == b
    decreases n
  {
    if n > 0 {
      BackAndRounds(k, Unround(k, b, Sum(n)), n - 1);
      RoundAndBack(k, b, Sum(n));
    }
  }

  function Enciphered(k: Key, b: Block): Block {
    Rounds(k, b, ROUNDS)
  }

  function Deciphered(k: Key, b: Block): Block {
    Unrounds(k, b, ROUNDS)
  }

  /** For every key the two ciphers undo each other. */
  lemma CipherInverse(k: Key, b: Block)
    ensures Deciphered(k, Enciphered(k, b)) == b && Enciphered(k, Deciphered(k, b)) == b
  {
    RoundsAndBack(k, b, ROUNDS);
    BackAndRounds(k, b, ROUNDS);
  }

  method Encrypt(b: Block, k: Key) returns (r: Block)
    ensures r == Enciphered(k, b)
  {
    var v0, v1, sum := b.v0, b.v1, 0;
    for i := 0 to 32
      invariant Block(v0, v1) == Rounds(k, b, i) && sum == Sum(i)
    {
      sum := Plus(sum, DELTA);
      v0 := Plus(v0, Mix(v1, sum, k.k0, k.k1));
      v1 := Plus(v1, Mix(v0, sum, k.k2, k.k3));
    }
    r := Block(v0, v1);
  }

  /** Starts from the constant that the sum has after all rounds. */
  method Decrypt(b: Block, k: Key) returns (r: Block)
    ensures r == Deciphered(k, b)
  {
    var v0, v1, sum := b.v0, b.v1, LAST_SUM;
    SumAtEnd();
    for i := 0 to 32
      invariant Unrounds(k, Block(v0, v1), 32 - i) == Deciphered(k, b) && sum == Sum(32 - i)
    {
      v1 := Minus(v1, Mix(v0, sum, k.k2, k.k3));
      v0 := Minus(v0, Mix(v1, sum, k.k0, k.k1));
      PlusMinus(Sum(31 - i), DELTA);
      sum := Minus(sum, DELTA);
    }
    r := Block(v0, v1);
  }

  // ----- chaining, on blocks

  function BlockXor(a: Block, b: Block): Block {
    Block(Xor(a.v0, b.v0), Xor(a.v1, b.v1))
  }

  lemma BlockXorBack(a: Block, b: Block)
    ensures BlockXor(BlockXor(a, b), b) == a
  {
  }

  lemma BlockXorCommutes(a: Block, b: Block)
    ensures BlockXor(a, b) == BlockXor(b, a)
  {
  }

  lemma SumsDiffer(e: Block -> Block, d: Block -> Block, a: Block, x: Block, y: Block)
    requires Undoes(d, e) && x != y
    ensures e(x) != e(y) && e(BlockXor(x, a)) != e(BlockXor(y, a)) && e(BlockXor(a, x)) != e(BlockXor(a, y))
  {
    BlockXorBack(x, a);
    BlockXorBack(y, a);
    BlockXorCommutes(a, x);
    BlockXorCommutes(a, y);
    assert d(e(x)) == x && d(e(y)) == y;
    assert d(e(BlockXor(x, a))) == BlockXor(x, a) && d(e(BlockXor(y, a))) == BlockXor(y, a);
  }

  /** The last block is enciphered as it is, every other one together with the next ciphertext block. */
  function Chained(e: Block -> Block, p: seq<Block>): (c: seq<Block>)
    ensures |c| == |p|
  {
    if p == [] then []
    else
      var rest := Chained(e, p[1..]);
      [e(if rest == [] then p[0] else BlockXor(p[0], rest[0]))] + rest
  }

  function UnchainedAt(d: Block -> Block, c: seq<Block>, i: nat): Block
    requires i < |c|
  {
    if i == |c| - 1 then d(c[i]) else BlockXor(d(c[i]), c[i + 1])
  }

  function Unchained(d: Block -> Block, c: seq<Block>): (p: seq<Block>)
    ensures |p| == |c| && forall i :: 0 <= i < |p| ==> p[i] == UnchainedAt(d, c, i)
  {
    seq(|c|, i requires 0 <= i < |c| => UnchainedAt(d, c, i))
  }

  /** What ciphertext block i is made of. */
  function Link(e: Block -> Block, p: seq<Block>, c: seq<Block>, i: nat): Block
    requires i < |p| == |c|
  {
    e(if i == |p| - 1 then p[i] else BlockXor(p[i], c[i + 1]))
  }

  lemma {:induction false} ChainedAt(e: Block -> Block, p: seq<Block>, i: nat)
    requires i < |p|
    ensures Chained(e, p)[i] == Link(e, p, Chained(e, p), i)
  {
    if i > 0 {
      ChainedAt(e, p[1..], i - 1);
    }
  }

  /** Only the ciphertext has all links right. */
  lemma {:induction false} LinksMakeChain(e: Block -> Block, p: seq<Block>, c: seq<Block>)
    requires |c| == |p| && forall i :: 0 <= i < |p| ==> c[i] == Link(e, p, c, i)
    ensures c == Chained(e, p)
  {
    if p != [] {
      forall i | 0 <= i < |p| - 1
        ensures c[1..][i] == Link(e, p[1..], c[1..], i)
      {
        assert c[i + 1] == Link(e, p, c, i + 1);
      }
      LinksMakeChain(e, p[1..], c[1..]);
      assert c[0] == Link(e, p, c, 0);
    }
  }

  ghost predicate Undoes(d: Block -> Block, e: Block -> Block) {
    forall b {:trigger e(b)} :: d(e(b)) == b
  }

  lemma UnchainedChained(e: Block -> Block, d: Block -> Block, p: seq<Block>)
    requires Undoes(d, e)
    ensures Unchained(d, Chained(e, p)) == p
  {
    var c := Chained(e, p);
    forall i | 0 <= i < |p|
      ensures UnchainedAt(d, c, i) == p[i]
    {
      ChainedAt(e, p, i);
      if i < |p| - 1 {
        BlockXorBack(p[i], c[i + 1]);
      }
    }
  }

  lemma {:induction false} ChainedUnchained(e: Block -> Block, d: Block -> Block, c: seq<Block>)
    requires Undoes(e, d)
    ensures Chained(e, Unchained(d, c)) == c
  {
    var p := Unchained(d, c);
    if c != [] {
      ChainedUnchained(e, d, c[1..]);
      assert p[1..] == Unchained(d, c[1..]);
      assert e(d(c[0])) == c[0];
      if |c| > 1 {
        BlockXorBack(d(c[0]), c[1]);
      }
    }
  }

  /** A changed plaintext block changes its own ciphertext block and all before it, and none after it. */
  lemma {:induction false} Diffusion(e: Block -> Block, d: Block -> Block, p: seq<Block>, k: nat, b: Block, i: nat)
    requires Undoes(d, e) && k < |p| && b != p[k] && i < |p|
    ensures Chained(e, p)[i] != Chained(e, p[k := b])[i] <==> i <= k
  {
    var q := p[k := b];
    if k > 0 {
      assert q[1..] == p[1..][k - 1 := b];
      if i > 0 {
        Diffusion(e, d, p[1..], k - 1, b, i - 1);
      } else {
        Diffusion(e, d, p[1..], k - 1, b, 0);
        SumsDiffer(e, d, p[0], Chained(e, p[1..])[0], Chained(e, q[1..])[0]);
      }
    } else {
      assert q[1..] == p[1..];
      SumsDiffer(e, d, if |p| > 1 then Chained(e, p[1..])[0] else b, p[0], b);
    }
  }

  /** A changed ciphertext block changes the plaintext of its own block and the one before it, and no other. */
  lemma Damage(d: Block -> Block, e: Block -> Block, c: seq<Block>, k: nat, b: Block, i: nat)
    requires Undoes(e, d) && k < |c| && b != c[k] && i < |c|
    ensures Unchained(d, c)[i] != Unchained(d, c[k := b])[i] <==> i == k || i + 1 == k
  {
    assert e(d(b)) == b && e(d(c[k])) == c[k];
    BlockXorsDiffer(d(c[i]), c[k], b);
    BlockXorsDiffer(if i + 1 < |c| then c[i + 1] else b, d(c[k]), d(b));
  }

  lemma BlockXorsDiffer(a: Block, x: Block, y: Block)
    requires x != y
    ensures BlockXor(a, x) != BlockXor(a, y) && BlockXor(x, a) != BlockXor(y, a)
  {
    BlockXorBack(x, a);
    BlockXorBack(y, a);
    BlockXorCommutes(a, x);
    BlockXorCommutes(a, y);
  }

  // ----- blocks in memory

  function Word(s: seq<byte>, a: nat): bv32
    requires a + 4 <= |s|
  {
    Le32(s[a..a + 4])
  }

  function BlockAt(s: seq<byte>, i: nat): Block
    requires 8 * i + 8 <= |s|
  {
    Block(Word(s, 8 * i), Word(s, 8 * i + 4))
  }

  function Blocks(s: seq<byte>): (r: seq<Block>)
    ensures |r| == |s| / 8 && forall i :: 0 <= i < |r| ==> r[i] == BlockAt(s, i)
  {
    seq(|s| / 8, i requires 0 <= i < |s| / 8 => BlockAt(s, i))
  }

  /** s and t agree outside block i. */
  ghost predicate SameBut(s: seq<byte>, t: seq<byte>, i: nat) {
    |s| == |t| && 8 * i + 8 <= |s| && s[..8 * i] == t[..8 * i] && s[8 * i + 8..] == t[8 * i + 8..]
  }

  lemma OtherBlock(s: seq<byte>, t: seq<byte>, i: nat, j: nat)
    requires SameBut(s, t, i) && 8 * j + 8 <= |s| && i != j
    ensures BlockAt(s, j) == BlockAt(t, j)
  {
    if j < i {
      SliceOfTake(s, t, 8 * i, 8 * j, 8 * j + 4);
      SliceOfTake(s, t, 8 * i, 8 * j + 4, 8 * j + 8);
    } else {
      SliceOfDrop(s, t, 8 * i + 8, 8 * j, 8 * j + 4);
      SliceOfDrop(s, t, 8 * i + 8, 8 * j + 4, 8 * j + 8);
    }
  }

  lemma SliceOfTake(s: seq<byte>, t: seq<byte>, n: nat, a: nat, b: nat)
    requires n <= |s| == |t| && s[..n] == t[..n] && a <= b <= n
    ensures s[a..b] == t[a..b]
  {
    assert s[a..b] == s[..n][a..b] && t[a..b] == t[..n][a..b];
  }

  lemma SliceOfDrop(s: seq<byte>, t: seq<byte>, n: nat, a: nat, b: nat)
    requires n <= |s| == |t| && s[n..] == t[n..] && n <= a <= b <= |s|
    ensures s[a..b] == t[a..b]
  {
    forall p | a <= p < b
      ensures s[p] == t[p]
    {
      assert s[p] == s[n..][p - n] && t[p] == t[n..][p - n];
    }
  }

  lemma BlocksChange(s: seq<byte>, t: seq<byte>, i: nat)
    requires SameBut(s, t, i)
    ensures i < |s| / 8 && Blocks(t) == Blocks(s)[i := BlockAt(t, i)]
  {
    forall j: nat | j < |s| / 8 && j != i
      ensures BlockAt(s, j) == BlockAt(t, j)
    {
      OtherBlock(s, t, i, j);
    }
  }

  /** Words hold all there is to know about their bytes. */
  lemma BytesOfBlocks(s: seq<byte>, t: seq<byte>)
    requires |s| == |t| && |s| % 8 == 0 && Blocks(s) == Blocks(t)
    ensures s == t
  {
    forall p | 0 <= p < |s|
      ensures s[p] == t[p]
    {
      assert Blocks(s)[p / 8] == Blocks(t)[p / 8];
      SameBlock(s, t, p / 8, p);
    }
  }

  lemma SameBlock(s: seq<byte>, t: seq<byte>, i: nat, p: nat)
    requires |s| == |t| && 8 * i + 8 <= |s| && BlockAt(s, i) == BlockAt(t, i) && 8 * i <= p < 8 * i + 8
    ensures s[p] == t[p]
  {
    Le32RoundTrip(s[8 * i..8 * i + 4]);
    Le32RoundTrip(t[8 * i..8 * i + 4]);
    Le32RoundTrip(s[8 * i + 4..8 * i + 8]);
    Le32RoundTrip(t[8 * i + 4..8 * i + 8]);
    if p < 8 * i + 4 {
      assert s[p] == s[8 * i..8 * i + 4][p - 8 * i] && t[p] == t[8 * i..8 * i + 4][p - 8 * i];
    } else {
      assert s[p] == s[8 * i + 4..8 * i + 8][p - 8 * i - 4] && t[p] == t[8 * i + 4..8 * i + 8][p - 8 * i - 4];
    }
  }

  function ByteXor(a: byte, b: byte): (r: byte)
    ensures Bits(r) == Bits(a) ^ Bits(b)
  {
    ByteOf(Bits(a) ^ Bits(b))
  }

  lemma JoinXor(a: bv8, b: bv8, c: bv8, d: bv8, w: bv8, x: bv8, y: bv8, z: bv8)
    ensures Join(a ^ w, b ^ x, c ^ y, d ^ z) == Join(a, b, c, d) ^ Join(w, x, y, z)
  {
  }

  /** x is the exclusive or of y and z, byte by byte. */
  ghost predicate XorOf(x: seq<byte>, y: seq<byte>, z: seq<byte>) {
    |x| == |y| == |z| == 4 && forall p :: 0 <= p < 4 ==> x[p] == ByteXor(y[p], z[p])
  }

  lemma Le32Xor(r: seq<byte>, s: seq<byte>, t: seq<byte>)
    requires XorOf(r, s, t)
    ensures Le32(r) == Xor(Le32(s), Le32(t))
  {
    JoinXor(Bits(s[0]), Bits(s[1]), Bits(s[2]), Bits(s[3]), Bits(t[0]), Bits(t[1]), Bits(t[2]), Bits(t[3]));
  }

  function BlockBytes(b: Block): (s: seq<byte>)
    ensures |s| == 8 && BlockAt(s, 0) == b
  {
    Le32Bytes(b.v0) + Le32Bytes(b.v1)
  }

  /** The words of the block at data + 8 * i. */
  method Load(data: array<byte>, i: nat) returns (b: Block)
    requires 8 * i + 8 <= data.Length
    ensures b == BlockAt(data[..], i)
  {
    b := Block(Le32(data[8 * i..8 * i + 4]), Le32(data[8 * i + 4..8 * i + 8]));
    assert data[..][8 * i..8 * i + 4] == data[8 * i..8 * i + 4];
    assert data[..][8 * i + 4..8 * i + 8] == data[8 * i + 4..8 * i + 8];
  }

  method Store(data: array<byte>, i: nat, b: Block)
    requires 8 * i + 8 <= data.Length
    modifies data
    ensures SameBut(old(data[..]), data[..], i) && BlockAt(data[..], i) == b
  {
    var s := BlockBytes(b);
    for p := 0 to 8
      invariant data[..8 * i] == old(data[..8 * i]) && data[8 * i + 8..] == old(data[8 * i + 8..])
      invariant data[8 * i..8 * i + p] == s[..p]
    {
      data[8 * i + p] := s[p];
    }
    Stored(data[..], i, s);
  }

  lemma Stored(t: seq<byte>, i: nat, s: seq<byte>)
    requires 8 * i + 8 <= |t| && |s| == 8 && t[8 * i..8 * i + 8] == s
    ensures BlockAt(t, i) == BlockAt(s, 0)
  {
    assert t[8 * i..8 * i + 4] == s[0..4] && t[8 * i + 4..8 * i + 8] == s[4..8];
  }

  /** Block i becomes its exclusive or with block j, byte by byte. */
  method Xor64(data: array<byte>, i: nat, j: nat)
    requires 8 * i + 8 <= data.Length && 8 * j + 8 <= data.Length && i != j
    modifies data
    ensures var b := Blocks(old(data[..])); Blocks(data[..]) == b[i := BlockXor(b[i], b[j])]
  {
    ghost var s := data[..];
    for p := 0 to 8
      invariant forall q :: 0 <= q < data.Length && !(8 * i <= q < 8 * i + p) ==> data[q] == s[q]
      invariant forall q {:trigger data[q]} :: 8 * i <= q < 8 * i + p ==> data[q] == ByteXor(s[q], s[q + 8 * (j - i)])
    {
      data[8 * i + p] := ByteXor(data[8 * i + p], data[8 * j + p]);
    }
    XoredBlock(s, data[..], i, j);
  }

  lemma XoredBlock(s: seq<byte>, t: seq<byte>, i: nat, j: nat)
    requires |s| == |t| && 8 * i + 8 <= |s| && 8 * j + 8 <= |s|
    requires forall q :: 0 <= q < |s| && !(8 * i <= q < 8 * i + 8) ==> t[q] == s[q]
    requires forall q {:trigger t[q]} :: 8 * i <= q < 8 * i + 8 ==> t[q] == ByteXor(s[q], s[q + 8 * (j - i)])
    ensures Blocks(t) == Blocks(s)[i := BlockXor(Blocks(s)[i], Blocks(s)[j])]
  {
    SameAround(s, t, i);
    XoredAt(s, t, i, j, 8 * (j - i));
    BlocksChange(s, t, i);
  }

  lemma SameAround(s: seq<byte>, t: seq<byte>, i: nat)
    requires |s| == |t| && 8 * i + 8 <= |s|
    requires forall q :: 0 <= q < |s| && !(8 * i <= q < 8 * i + 8) ==> t[q] == s[q]
    ensures SameBut(s, t, i)
  {
  }

  lemma XoredAt(s: seq<byte>, t: seq<byte>, i: nat, j: nat, far: int)
    requires |s| == |t| && 8 * i + 8 <= |s| && 8 * j + 8 <= |s| && far == 8 * j - 8 * i
    requires forall q {:trigger t[q]} :: 8 * i <= q < 8 * i + 8 ==> t[q] == ByteXor(s[q], s[q + far])
    ensures BlockAt(t, i) == BlockXor(BlockAt(s, i), BlockAt(s, j))
  {
    var a, b := 8 * i, 8 * j;
    XoredWord(s, t, a, b, far);
    XoredWord(s, t, a + 4, b + 4, far);
  }

  lemma XoredBytes(s: seq<byte>, t: seq<byte>, a: nat, b: nat, far: int)
    requires |s| == |t| && a + 4 <= |s| && b + 4 <= |s| && b == a + far
    requires forall q {:trigger t[q]} :: a <= q < a + 4 ==> t[q] == ByteXor(s[q], s[q + far])
    ensures XorOf(t[a..a + 4], s[a..a + 4], s[b..b + 4])
  {
    var x, y, z := t[a..a + 4], s[a..a + 4], s[b..b + 4];
    forall p | 0 <= p < 4
      ensures x[p] == ByteXor(y[p], z[p])
    {
      var q := a + p;
      assert t[q] == ByteXor(s[q], s[q + far]);
    }
  }

  lemma XoredWord(s: seq<byte>, t: seq<byte>, a: nat, b: nat, far: int)
    requires |s| == |t| && a + 4 <= |s| && b + 4 <= |s| && b == a + far
    requires forall q {:trigger t[q]} :: a <= q < a + 4 ==> t[q] == ByteXor(s[q], s[q + far])
    ensures Word(t, a) == Xor(Word(s, a), Word(s, b))
  {
    XoredBytes(s, t, a, b, far);
    Le32Xor(t[a..a + 4], s[a..a + 4], s[b..b + 4]);
  }

  /** e is the cipher under k. */
  ghost predicate Ciphers(e: Block -> Block, k: Key) {
    forall b {:trigger CiphersAt(e, k, b)} :: CiphersAt(e, k, b)
  }

  predicate CiphersAt(e: Block -> Block, k: Key, b: Block) {
    e(b) == Enciphered(k, b)
  }

  ghost predicate Deciphers(d: Block -> Block, k: Key) {
    forall b {:trigger DeciphersAt(d, k, b)} :: DeciphersAt(d, k, b)
  }

  predicate DeciphersAt(d: Block -> Block, k: Key, b: Block) {
    d(b) == Deciphered(k, b)
  }

  function Cipher(k: Key): Block -> Block {
    b => Enciphered(k, b)
  }

  function Decipher(k: Key): Block -> Block {
    b => Deciphered(k, b)
  }

  lemma CodeCiphers(k: Key)
    ensures Ciphers(Cipher(k), k) && Deciphers(Decipher(k), k)
  {
    forall b
      ensures CiphersAt(Cipher(k), k, b) && DeciphersAt(Decipher(k), k, b)
    {
    }
  }

  lemma CiphersUndo(e: Block -> Block, d: Block -> Block, k: Key)
    requires Ciphers(e, k) && Deciphers(d, k)
    ensures Undoes(d, e) && Undoes(e, d)
  {
    forall b
      ensures d(e(b)) == b && e(d(b)) == b
    {
      assert CiphersAt(e, k, b) && DeciphersAt(d, k, e(b)) && DeciphersAt(d, k, b) && CiphersAt(e, k, d(b));
      CipherInverse(k, b);
    }
  }

  method EncryptBlock(data: array<byte>, i: nat, k: Key, ghost e: Block -> Block)
    requires Ciphers(e, k) && 8 * i + 8 <= data.Length
    modifies data
    ensures var b := Blocks(old(data[..])); Blocks(data[..]) == b[i := e(b[i])]
  {
    ghost var s := data[..];
    var b := Load(data, i);
    assert CiphersAt(e, k, b);
    b := Encrypt(b, k);
    Store(data, i, b);
    BlocksChange(s, data[..], i);
  }

  method DecryptBlock(data: array<byte>, i: nat, k: Key, ghost d: Block -> Block)
    requires Deciphers(d, k) && 8 * i + 8 <= data.Length
    modifies data
    ensures var b := Blocks(old(data[..])); Blocks(data[..]) == b[i := d(b[i])]
  {
    ghost var s := data[..];
    var b := Load(data, i);
    assert DeciphersAt(d, k, b);
    b := Decrypt(b, k);
    Store(data, i, b);
    BlocksChange(s, data[..], i);
  }

  method EncryptWithNext(data: array<byte>, i: nat, k: Key, ghost e: Block -> Block)
    requires Ciphers(e, k) && 8 * i + 16 <= data.Length
    modifies data
    ensures var b := Blocks(old(data[..])); Blocks(data[..]) == b[i := e(BlockXor(b[i], b[i + 1]))]
  {
    Xor64(data, i, i + 1);
    EncryptBlock(data, i, k, e);
  }

  method DecryptWithNext(data: array<byte>, i: nat, k: Key, ghost d: Block -> Block)
    requires Deciphers(d, k) && 8 * i + 16 <= data.Length
    modifies data
    ensures var b := Blocks(old(data[..])); Blocks(data[..]) == b[i := BlockXor(d(b[i]), b[i + 1])]
  {
    DecryptBlock(data, i, k, d);
    Xor64(data, i, i + 1);
  }

  /** The blocks from i on are ciphertext, those before still plaintext. */
  ghost predicate ChainedTo(e: Block -> Block, p: seq<Block>, b: seq<Block>, i: nat) {
    |b| == |p| && i <= |p| && (forall j :: 0 <= j < i ==> b[j] == p[j])
        && forall j :: i <= j < |p| ==> b[j] == Link(e, p, b, j)
  }

  lemma ChainLast(e: Block -> Block, p: seq<Block>, i: nat)
    requires i + 1 == |p|
    ensures ChainedTo(e, p, p[i := e(p[i])], i)
  {
  }

  lemma ChainNext(e: Block -> Block, p: seq<Block>, b: seq<Block>, i: nat)
    requires i + 1 < |p| && ChainedTo(e, p, b, i + 1)
    ensures ChainedTo(e, p, b[i := e(BlockXor(b[i], b[i + 1]))], i)
  {
    var r := b[i := e(BlockXor(b[i], b[i + 1]))];
    forall j | i <= j < |p|
      ensures r[j] == Link(e, p, r, j)
    {
      if j > i {
        assert b[j] == Link(e, p, b, j);
      }
    }
  }

  /** bscl_encryptData: from the last block down. Needs a first block: with length 0 the code would write
      before the data. */
  method EncryptData(data: array<byte>, k: Key, ghost e: Block -> Block) returns (ok: bool)
    requires Ciphers(e, k) && data.Length > 0
    modifies data
    ensures ok <==> data.Length % 8 == 0
    ensures ok ==> Blocks(data[..]) == Chained(e, Blocks(old(data[..])))
    ensures !ok ==> data[..] == old(data[..])
  {
    if data.Length % 8 != 0 {
      return false;
    }
    var n := data.Length / 8;
    ghost var p := Blocks(data[..]);
    EncryptBlock(data, n - 1, k, e);
    ChainLast(e, p, n - 1);
    var i := n - 2;
    while i >= 0
      invariant -1 <= i <= n - 2 && ChainedTo(e, p, Blocks(data[..]), i + 1)
    {
      ChainNext(e, p, Blocks(data[..]), i);
      EncryptWithNext(data, i, k, e);
      i := i - 1;
    }
    LinksMakeChain(e, p, Blocks(data[..]));
    return true;
  }

  /** bscl_decryptData: from the first block up. */
  method DecryptData(data: array<byte>, k: Key, ghost d: Block -> Block) returns (ok: bool)
    requires Deciphers(d, k) && data.Length > 0
    modifies data
    ensures ok <==> data.Length % 8 == 0
    ensures ok ==> Blocks(data[..]) == Unchained(d, Blocks(old(data[..])))
    ensures !ok ==> data[..] == old(data[..])
  {
    if data.Length % 8 != 0 {
      return false;
    }
    var n := data.Length / 8;
    ghost var c := Blocks(data[..]);
    UnchainNone(d, c);
    for i := 0 to n - 1
      invariant UnchainedTo(d, c, Blocks(data[..]), i)
    {
      UnchainNext(d, c, Blocks(data[..]), i);
      DecryptWithNext(data, i, k, d);
    }
    UnchainLast(d, c, Blocks(data[..]));
    DecryptBlock(data, n - 1, k, d);
    return true;
  }

  /** The blocks before i are plaintext, the others still ciphertext. */
  ghost predicate UnchainedTo(d: Block -> Block, c: seq<Block>, b: seq<Block>, i: nat) {
    |b| == |c| && i <= |c| && (forall j :: 0 <= j < i ==> b[j] == UnchainedAt(d, c, j))
        && forall j :: i <= j < |c| ==> b[j] == c[j]
  }

  lemma UnchainNone(d: Block -> Block, c: seq<Block>)
    ensures UnchainedTo(d, c, c, 0)
  {
  }

  lemma UnchainNext(d: Block -> Block, c: seq<Block>, b: seq<Block>, i: nat)
    requires i + 1 < |c| && UnchainedTo(d, c, b, i)
    ensures UnchainedTo(d, c, b[i := BlockXor(d(b[i]), b[i + 1])], i + 1)
  {
  }

  lemma UnchainLast(d: Block -> Block, c: seq<Block>, b: seq<Block>)
    requires c != [] && UnchainedTo(d, c, b, |c| - 1)
    ensures b[|c| - 1 := d(b[|c| - 1])] == Unchained(d, c)
  {
  }

  /** What one of the two does to the bytes the other undoes. */
  lemma DataRoundTrip(k: Key, e: Block -> Block, d: Block -> Block, s: seq<byte>, t: seq<byte>,
      u: seq<byte>)
    requires Ciphers(e, k) && Deciphers(d, k)
    requires |s| == |t| == |u| && |s| % 8 == 0
    ensures Blocks(t) == Chained(e, Blocks(s)) && Blocks(u) == Unchained(d, Blocks(t)) ==> u == s
    ensures Blocks(t) == Unchained(d, Blocks(s)) && Blocks(u) == Chained(e, Blocks(t)) ==> u == s
  {
    CiphersUndo(e, d, k);
    UnchainedChained(e, d, Blocks(s));
    ChainedUnchained(e, d, Blocks(s));
    if Blocks(u) == Blocks(s) {
      BytesOfBlocks(u, s);
    }
  }

  /** Encrypting data and then decrypting it gives it back, byte for byte. */
  method EncryptDecrypt(data: array<byte>, k: Key) returns (ok: bool)
    requires data.Length > 0
    modifies data
    ensures data[..] == old(data[..]) && (ok <==> data.Length % 8 == 0)
  {
    CodeCiphers(k);
    ghost var s := data[..];
    ok := EncryptData(data, k, Cipher(k));
    if ok {
      ghost var t := data[..];
      ok := DecryptData(data, k, Decipher(k));
      DataRoundTrip(k, Cipher(k), Decipher(k), s, t, data[..]);
    }
  }

  /** And the other way round. */
  method DecryptEncrypt(data: array<byte>, k: Key) returns (ok: bool)
    requires data.Length > 0
    modifies data
    ensures data[..] == old(data[..]) && (ok <==> data.Length % 8 == 0)
  {
    CodeCiphers(k);
    ghost var s := data[..];
    ok := DecryptData(data, k, Decipher(k));
    if ok {
      ghost var t := data[..];
      ok := EncryptData(data, k, Cipher(k));
      DataRoundTrip(k, Cipher(k), Decipher(k), s, t, data[..]);
    }
  }
}
