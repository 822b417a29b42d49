/** Bitwise exclusive or of naturals, defined bit by bit, and the bits of a natural. */
module BitwiseXor {

  function Xor(a: nat, b: nat): nat
    decreases a + b
  {
    if a == 0 && b == 0 then 0 else (if a % 2 != b % 2 then 1 else 0) + 2 * Xor(a / 2, b / 2)
  }

  /** The low `n` bits of `w`, least significant first. */
  function NatBits(w: nat, n: nat): (s: seq<bool>)
    ensures |s| == n
  {
    if n == 0 then [] else [w % 2 == 1] + NatBits(w / 2, n - 1)
  }

  function ShiftRight(w: nat, n: nat): nat {
    if n == 0 then w else ShiftRight(w / 2, n - 1)
  }

  function Power2(n: nat): (p: nat)
    ensures p > 0
  {
    if n == 0 then 1 else 2 * Power2(n - 1)
  }

  lemma Power2Values()
    ensures Power2(7) == 0x80 && Power2(8) == 0x100
    ensures Power2(12) == 0x1000 && Power2(13) == 0x2000
    ensures Power2(15) == 0x8000 && Power2(16) == 0x1_0000
  {
    assert Power2(6) == 0x40;
    assert Power2(11) == 0x800;
  }

  lemma {:induction false} Power2AtMostWord(n: nat)
    requires n <= 16
    ensures Power2(n) <= 0x1_0000
    decreases 16 - n
  {
    if n == 16 {
      Power2Values();
    } else {
      Power2AtMostWord(n + 1);
    }
  }

  lemma XorUnfold(a: nat, b: nat)
    ensures Xor(a, b) / 2 == Xor(a / 2, b / 2)
    ensures Xor(a, b) % 2 == (if a % 2 != b % 2 then 1 else 0)
  {
  }

  lemma {:induction false} XorZero(a: nat)
    ensures Xor(a, 0) == a
  {
    if a > 0 {
      XorZero(a / 2);
    }
  }

  lemma {:induction false} XorCommutes(a: nat, b: nat)
    ensures Xor(a, b) == Xor(b, a)
    decreases a + b
  {
    if a + b > 0 {
      XorCommutes(a / 2, b / 2);
    }
  }

  lemma {:induction false} XorAssociates(a: nat, b: nat, c: nat)
    ensures Xor(Xor(a, b), c) == Xor(a, Xor(b, c))
    decreases a + b + c
  {
    if a + b + c > 0 {
      XorAssociates(a / 2, b / 2, c / 2);
      XorUnfold(a, b);
      XorUnfold(b, c);
      XorUnfold(Xor(a, b), c);
      XorUnfold(a, Xor(b, c));
    }
  }

  lemma {:induction false} XorEqual(a: nat, b: nat)
    ensures Xor(a, b) == 0 <==> a == b
    decreases a + b
  {
    if a + b > 0 {
      XorEqual(a / 2, b / 2);
    }
  }

  lemma XorSwap(a: nat, b: nat, c: nat, d: nat)
    ensures Xor(Xor(a, b), Xor(c, d)) == Xor(Xor(a, c), Xor(b, d))
  {
    XorAssociates(a, b, Xor(c, d));
    XorAssociates(b, c, d);
    XorCommutes(b, c);
    XorAssociates(c, b, d);
    XorAssociates(a, c, Xor(b, d));
  }

  /** XOR stays within the width of its operands. */
  lemma {:induction false} XorBound(a: nat, b: nat, n: nat)
    requires a < Power2(n) && b < Power2(n)
    ensures Xor(a, b) < Power2(n)
    decreases n
  {
    if n > 0 {
      XorBound(a / 2, b / 2, n - 1);
      XorUnfold(a, b);
    }
  }

  lemma XorDouble(a: nat, b: nat)
    ensures Xor(2 * a, 2 * b) == 2 * Xor(a, b)
  {
    XorUnfold(2 * a, 2 * b);
  }

  lemma XorWord(a: nat, b: nat)
    requires a < 0x1_0000 && b < 0x1_0000
    ensures Xor(a, b) < 0x1_0000
  {
    Power2Values();
    XorBound(a, b, 16);
  }

  lemma {:induction false} ShiftRightSmall(w: nat, n: nat)
    requires w < Power2(n)
    ensures ShiftRight(w, n) == 0
    decreases n
  {
    if n > 0 {
      ShiftRightSmall(w / 2, n - 1);
    }
  }

  /** Splitting off the low bit. */
  lemma XorLowBit(w: nat)
    ensures Xor(w % 2, 2 * (w / 2)) == w
  {
    var low, high := w % 2, 2 * (w / 2);
    XorUnfold(low, high);
    XorCommutes(0, w / 2);
    XorZero(w / 2);
  }

  lemma HalfOfSum(low: nat, p: nat, high: nat)
    ensures var w := low + 2 * p * high; w % 2 == low % 2 && w / 2 == low / 2 + p * high
  {
    var q := p * high;
    assert 2 * p * high == 2 * q;
  }

  /** The bits of a sum of two digits: low digit first. */
  lemma {:induction false} NatBitsSplit(low: nat, high: nat, m: nat, n: nat)
    requires low < Power2(m)
    ensures NatBits(low + Power2(m) * high, m + n) == NatBits(low, m) + NatBits(high, n)
    decreases m
  {
    if m > 0 {
      HalfOfSum(low, Power2(m - 1), high);
      NatBitsSplit(low / 2, high, m - 1, n);
    } else {
      assert NatBits(low, m) + NatBits(high, n) == NatBits(high, n);
    }
  }

  // ---------------------------------------------------------------------------
  // Bit strings
  // ---------------------------------------------------------------------------

  function XorBits(s: seq<bool>, e: seq<bool>): (t: seq<bool>)
    requires |s| == |e|
    ensures |t| == |s|
  {
    seq(|s|, i requires 0 <= i < |s| => s[i] != e[i])
  }

  function Zeros(n: nat): (s: seq<bool>)
    ensures |s| == n
  {
    seq(n, i => false)
  }

  lemma {:induction false} NatBitsZero(n: nat)
    ensures NatBits(0, n) == Zeros(n)
  {
    if n > 0 {
      NatBitsZero(n - 1);
    }
  }

  lemma {:induction false} NatBitsXor(a: nat, b: nat, n: nat)
    ensures NatBits(Xor(a, b), n) == XorBits(NatBits(a, n), NatBits(b, n))
    decreases n
  {
    if n > 0 {
      XorUnfold(a, b);
      NatBitsXor(a / 2, b / 2, n - 1);
      var s, e := NatBits(a, n), NatBits(b, n);
      assert s[1..] == NatBits(a / 2, n - 1) && e[1..] == NatBits(b / 2, n - 1);
      assert XorBits(s, e) == [s[0] != e[0]] + XorBits(s[1..], e[1..]);
    }
  }

  lemma {:induction false} NatBitsInjective(a: nat, b: nat, n: nat)
    requires a < Power2(n) && b < Power2(n)
    requires NatBits(a, n) == NatBits(b, n)
    ensures a == b
    decreases n
  {
    if n > 0 {
      assert NatBits(a, n)[0] == NatBits(b, n)[0];
      assert NatBits(a / 2, n - 1) == NatBits(a, n)[1..] == NatBits(b, n)[1..] == NatBits(b / 2, n - 1);
      NatBitsInjective(a / 2, b / 2, n - 1);
    }
  }

  // ---------------------------------------------------------------------------
  // Parity
  // ---------------------------------------------------------------------------

  /** True iff `w` has an odd number of one bits. */
  predicate OddParity(w: nat) {
    w != 0 && (w % 2 == 1) != OddParity(w / 2)
  }

  /** True iff `s` has an odd number of ones. */
  predicate OddOnes(s: seq<bool>) {
    s != [] && s[0] != OddOnes(s[1..])
  }

  lemma {:induction false} ParityScale(a: nat, k: nat)
    ensures OddParity(a * Power2(k)) == OddParity(a)
    decreases k
  {
    if k > 0 {
      assert a * Power2(k) == 2 * (a * Power2(k - 1));
      ParityScale(a, k - 1);
    }
  }

  lemma {:induction false} XorParity(a: nat, b: nat)
    ensures OddParity(Xor(a, b)) == (OddParity(a) != OddParity(b))
    decreases a + b
  {
    if a + b > 0 {
      XorUnfold(a, b);
      XorParity(a / 2, b / 2);
    }
  }

}
