/** The 32-bit CRC as division of polynomials over the field of two elements: a checksum is the complement of the
    remainder. A polynomial is given by its coefficients; the register is reflected, its digit 31 - i is the
    coefficient of x^i. */
module CrcDivision {
  import opened Words
  import opened Digits
  import opened Crc

  /** Digit i of a word. */
  predicate At(w: bv32, i: nat)
    decreases i
  {
    if i == 0 then Odd(w) else At(Half(w), i - 1)
  }

  /** The coefficient of x^i in the polynomial of degree below 32 that w stands for. */
  predicate Coefficient(w: bv32, i: nat) {
    i < 32 && At(w, 31 - i)
  }

  /** The same for the divisor: x^32, and what poly stands for. */
  predicate Divisor(poly: bv32, i: nat) {
    i == 32 || Coefficient(poly, i)
  }

  /** The coefficient of x^i in the product of the divisor and the quotient with coefficients q, lowest first. */
  predicate Product(q: seq<bool>, poly: bv32, i: nat)
    decreases |q|
  {
    q != [] && ((q[0] && Divisor(poly, i)) != (i > 0 && Product(q[1..], poly, i - 1)))
  }

  /** Digit j of a number. */
  predicate Binary(n: nat, j: nat)
    decreases j
  {
    if j == 0 then n % 2 == 1 else Binary(n / 2, j - 1)
  }

  /** Bit k of a message: every byte comes with its lowest digit first. */
  predicate MessageBit(s: seq<byte>, k: nat)
    requires k < 8 * |s|
  {
    Binary(s[k / 8] as nat, k % 8)
  }

  /** The coefficient of x^i in the dividend: the initial value in front of the message, and the message in front
      of 32 zeros. */
  predicate Dividend(s: seq<byte>, init: bv32, i: nat) {
    var n := 8 * |s|;
    (i >= n && Coefficient(init, i - n)) != (32 <= i < n + 32 && MessageBit(s, n - 1 - (i - 32)))
  }

  /** r is the remainder of the dividend, with quotient q. */
  ghost predicate Divides(s: seq<byte>, init: bv32, poly: bv32, q: seq<bool>, r: bv32) {
    && |q| == 8 * |s|
    && forall i: nat {:trigger Dividend(s, init, i)} ::
         Dividend(s, init, i) == (Product(q, poly, i) != Coefficient(r, i))
  }

  // ----- one shift

  /** t holds of a word and two that it is made from, digit by digit. */
  ghost predicate Splits(t: (bv32, bv32, bv32) -> bool) {
    forall x, a, b {:trigger SplitsAt(t, x, a, b)} :: SplitsAt(t, x, a, b)
  }

  ghost predicate SplitsAt(t: (bv32, bv32, bv32) -> bool, x: bv32, a: bv32, b: bv32) {
    t(x, a, b) ==> t(Half(x), Half(a), Half(b)) && (Odd(x) <==> Odd(a) != Odd(b))
  }

  lemma {:induction false} AtSplit(t: (bv32, bv32, bv32) -> bool, x: bv32, a: bv32, b: bv32, i: nat)
    requires Splits(t) && t(x, a, b)
    ensures At(x, i) <==> At(a, i) != At(b, i)
    decreases i
  {
    assert SplitsAt(t, x, a, b);
    if i > 0 {
      AtSplit(t, Half(x), Half(a), Half(b), i - 1);
    }
  }

  lemma XorSplits(x: bv32, a: bv32, b: bv32)
    ensures SplitsAt((x, a, b) => x == Xor(a, b), x, a, b)
  {
    if x == Xor(a, b) {
      HalfOfXor(a, b);
      OddOfXor(a, b);
    }
  }

  lemma AtXor(a: bv32, b: bv32, i: nat)
    ensures At(Xor(a, b), i) <==> At(a, i) != At(b, i)
  {
    var t := (x, a, b) => x == Xor(a, b);
    forall x, a, b
      ensures SplitsAt(t, x, a, b)
    {
      XorSplits(x, a, b);
    }
    AtSplit(t, Xor(a, b), a, b, i);
  }

  lemma {:induction false} ShortAt(w: bv32, n: nat)
    requires Short(w, n)
    ensures !At(w, n)
    decreases n
  {
    if n > 0 {
      ShortAt(Half(w), n - 1);
    }
  }

  lemma AtHalf(w: bv32, i: nat)
    ensures At(Half(w), i) <==> At(w, i + 1)
    ensures i == 31 ==> !At(Half(w), i)
  {
    AllShort(w);
    ShortAt(w, 32);
  }

  /** Times x, c is what falls off times the divisor, and the shifted register. */
  lemma StepDivides(poly: bv32, c: bv32, i: nat)
    ensures (i > 0 && Coefficient(c, i - 1)) == ((Odd(c) && Divisor(poly, i)) != Coefficient(BitStep(poly, c), i))
  {
    if i < 32 {
      AtHalf(c, 31 - i);
      AtXor(poly, Half(c), 31 - i);
    }
  }

  /** n times, q being what fell off, the last first. */
  lemma {:induction false} StepsDivide(poly: bv32, c: bv32, n: nat) returns (q: seq<bool>)
    ensures |q| == n
    ensures forall i: nat {:trigger Product(q, poly, i)} ::
      (i >= n && Coefficient(c, i - n)) == (Product(q, poly, i) != Coefficient(BitSteps(poly, c, n), i))
  {
    if n == 0 {
      q := [];
    } else {
      var p := StepsDivide(poly, c, n - 1);
      var r := BitSteps(poly, c, n - 1);
      q := [Odd(r)] + p;
      forall i: nat
        ensures (i >= n && Coefficient(c, i - n)) == (Product(q, poly, i) != Coefficient(BitSteps(poly, c, n), i))
      {
        StepDivides(poly, r, i);
        assert q[1..] == p;
        if i > 0 {
          assert (i - 1 >= n - 1 && Coefficient(c, i - 1 - (n - 1)))
              == (Product(p, poly, i - 1) != Coefficient(r, i - 1));
        }
      }
    }
  }

  // ----- a byte

  lemma WideApart(b: nat, w: bv32, h: bv32)
    requires 0 < b < 256 && w == BitsOf(b) as bv32 && h == BitsOf(b / 2) as bv32
    ensures (Odd(w) <==> b % 2 == 1) && Half(w) == h
  {
    WideDigits(b);
    Pushed(b % 2, h);
  }

  lemma {:induction false} AtWide(b: nat, w: bv32, j: nat)
    requires b < 256 && w == BitsOf(b) as bv32
    ensures At(w, j) <==> Binary(b, j)
    decreases j
  {
    if b == 0 {
      AtZero(j);
      BinaryZero(j);
    } else {
      WideApart(b, w, BitsOf(b / 2) as bv32);
      if j > 0 {
        AtWide(b / 2, Half(w), j - 1);
      }
    }
  }

  lemma {:induction false} AtZero(j: nat)
    ensures !At(0, j)
  {
    if j > 0 {
      assert Half(0) == 0;
      AtZero(j - 1);
    }
  }

  lemma {:induction false} BinaryZero(j: nat)
    ensures !Binary(0, j)
  {
    if j > 0 {
      BinaryZero(j - 1);
    }
  }

  lemma {:induction false} BinarySmall(n: nat, j: nat, k: nat)
    requires n < Pow2(k) && k <= j
    ensures !Binary(n, j)
    decreases j
  {
    if k == 0 {
      BinaryZero(j);
    } else {
      BinarySmall(n / 2, j - 1, k - 1);
    }
  }

  lemma ByteAt(b: byte, w: bv32, j: nat)
    requires w == Wide(b)
    ensures At(w, j) <==> j < 8 && Binary(b as nat, j)
  {
    AtWide(b as nat, w, j);
    if j >= 8 {
      assert Pow2(8) == 256;
      BinarySmall(b as nat, j, 8);
    }
  }

  /** Where a byte's digits come in when it joins the register. */
  lemma JoinedAt(r: bv32, b: byte, i: nat)
    ensures Coefficient(Xor(r, Wide(b)), i) == (Coefficient(r, i) != (24 <= i < 32 && Binary(b as nat, 31 - i)))
  {
    if i < 32 {
      AtXor(r, Wide(b), 31 - i);
      ByteAt(b, Wide(b), 31 - i);
    }
  }

  // ----- the message

  lemma {:induction false} ProductOfBoth(p: seq<bool>, q: seq<bool>, poly: bv32, i: nat)
    ensures Product(p + q, poly, i) == (Product(p, poly, i) != (i >= |p| && Product(q, poly, i - |p|)))
    decreases |p|
  {
    if p == [] {
      assert p + q == q;
    } else {
      assert (p + q)[1..] == p[1..] + q;
      if i > 0 {
        ProductOfBoth(p[1..], q, poly, i - 1);
      }
    }
  }

  lemma DividendNext(s: seq<byte>, b: byte, init: bv32, i: nat)
    ensures Dividend(s + [b], init, i)
         == ((i >= 8 && Dividend(s, init, i - 8)) != (32 <= i < 40 && Binary(b as nat, 39 - i)))
  {
    var n := 8 * |s|;
    if 32 <= i < n + 40 {
      var k := n + 7 - (i - 32);
      if i < 40 {
        assert k / 8 == |s| && k % 8 == 39 - i;
      } else {
        assert k / 8 < |s| && (s + [b])[k / 8] == s[k / 8];
      }
    }
  }

  /** One coefficient, with t the quotient of the eight shifts from c to x. */
  lemma NextCoefficient(s: seq<byte>, b: byte, init: bv32, poly: bv32, q: seq<bool>, t: seq<bool>, r: bv32, c: bv32,
      x: bv32, i: nat)
    requires |t| == 8 && (i >= 8 && Coefficient(c, i - 8)) == (Product(t, poly, i) != Coefficient(x, i))
    requires i >= 8 ==> Dividend(s, init, i - 8) == (Product(q, poly, i - 8) != Coefficient(r, i - 8))
    requires i >= 8 ==> Coefficient(c, i - 8) == (Coefficient(r, i - 8) != (32 <= i < 40 && Binary(b as nat, 39 - i)))
    ensures Dividend(s + [b], init, i) == (Product(t + q, poly, i) != Coefficient(x, i))
  {
    DividendNext(s, b, init, i);
    ProductOfBoth(t, q, poly, i);
  }

  lemma NextByte(s: seq<byte>, b: byte, init: bv32, poly: bv32, q: seq<bool>, r: bv32,
      c: bv32) returns (p: seq<bool>)
    requires Divides(s, init, poly, q, r) && c == Xor(r, Wide(b))
    ensures Divides(s + [b], init, poly, p, BitSteps(poly, c, 8))
  {
    var t := StepsDivide(poly, c, 8);
    p := t + q;
    forall i: nat
      ensures Dividend(s + [b], init, i) == (Product(p, poly, i) != Coefficient(BitSteps(poly, c, 8), i))
    {
      if i >= 8 {
        JoinedAt(r, b, i - 8);
        assert Dividend(s, init, i - 8) == (Product(q, poly, i - 8) != Coefficient(r, i - 8));
      }
      assert (i >= 8 && Coefficient(c, i - 8)) == (Product(t, poly, i) != Coefficient(BitSteps(poly, c, 8), i));
      NextCoefficient(s, b, init, poly, q, t, r, c, BitSteps(poly, c, 8), i);
    }
  }

  lemma NoMessage(init: bv32, poly: bv32)
    ensures Divides([], init, poly, [], init)
  {
  }

  lemma {:induction false} FedDivides(s: seq<byte>, f: Flips, init: bv32, poly: bv32) returns (q: seq<bool>)
    requires forall i | 0 <= i < |s| :: !f.At(i)
    ensures Divides(s, init, poly, q, Fed(poly, f, s, init))
    decreases |s|
  {
    if s == [] {
      q := [];
      NoMessage(init, poly);
    } else {
      var n := |s| - 1;
      var p := FedDivides(s[..n], f, init, poly);
      var r := Fed(poly, f, s[..n], init);
      q := NextByte(s[..n], s[n], init, poly, p, r, Xor(r, Wide(s[n])));
      assert s[..n] + [s[n]] == s;
    }
  }

  /** For every polynomial, message and initial value, the checksum is the complement of the remainder. */
  lemma ChecksumIsRemainder(poly: bv32, s: seq<byte>, init: bv32) returns (q: seq<bool>)
    ensures Divides(s, init, poly, q, !Crc32(poly, s, init))
  {
    var r := Fed(poly, AtEnd(|s|), s, init);
    q := FedDivides(s, AtEnd(|s|), init, poly);
    assert !(r ^ 0xFFFF_FFFF) == r;
  }
}
