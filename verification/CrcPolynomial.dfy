/** Schoolbook division of GF(2) polynomials, and the CRC register as its remainder. */
module CrcPolynomial {
  import opened BitStrings
  import opened BitwiseXor
  import opened Bytes
  import opened CrcRegister

  // A polynomial is its coefficient list, highest power first.

  /** x^16 + x^15 + x^2 + 1. */
  const GENERATOR: seq<bool> := [true, true] + Zeros(12) + [true, false, true]

  /** Add `g` to `p`, aligned at the highest power. */
  function AddLeading(p: seq<bool>, g: seq<bool>): (s: seq<bool>)
    requires |g| <= |p|
    ensures |s| == |p|
  {
    seq(|p|, i requires 0 <= i < |p| => if i < |g| then p[i] != g[i] else p[i])
  }

  datatype Division = Division(quotient: seq<bool>, remainder: seq<bool>)

  /** Long division by the generator. */
  function Divide(p: seq<bool>): (d: Division)
    requires |p| >= 16
    ensures |d.quotient| == |p| - 16 && |d.remainder| == 16
    decreases |p|
  {
    if |p| == 16 then
      Division([], p)
    else
      var reduced := if p[0] then AddLeading(p, GENERATOR) else p;
      var rest := Divide(reduced[1..]);
      Division([p[0]] + rest.quotient, rest.remainder)
  }

  /** The product of `q` and the generator. */
  function Multiply(q: seq<bool>): (p: seq<bool>)
    ensures |p| == |q| + 16
  {
    if q == [] then
      Zeros(16)
    else
      var rest := [false] + Multiply(q[1..]);
      if q[0] then AddLeading(rest, GENERATOR) else rest
  }

  function Recompose(d: Division): (p: seq<bool>)
    requires |d.remainder| == 16
    ensures |p| == |d.quotient| + 16
  {
    XorBits(Multiply(d.quotient), Zeros(|d.quotient|) + d.remainder)
  }

  /** Peeling the leading quotient coefficient off a recomposed dividend. */
  lemma RecomposePeels(d: Division)
    requires d.quotient != [] && |d.remainder| == 16
    ensures var rest := [false] + Recompose(Division(d.quotient[1..], d.remainder));
            Recompose(d) == if d.quotient[0] then AddLeading(rest, GENERATOR) else rest
  {
    var inner := Division(d.quotient[1..], d.remainder);
    assert Zeros(|d.quotient|) + d.remainder == [false] + (Zeros(|inner.quotient|) + inner.remainder);
  }

  /** One step of the division, undone. */
  lemma {:induction false} RecomposeStep(p: seq<bool>, reduced: seq<bool>)
    requires |p| > 16 && reduced == if p[0] then AddLeading(p, GENERATOR) else p
    requires Recompose(Divide(reduced[1..])) == reduced[1..]
    ensures Recompose(Divide(p)) == p
  {
    var d, rest := Divide(p), Divide(reduced[1..]);
    RecomposePeels(d);
    assert d.quotient[1..] == rest.quotient;
    assert reduced == [false] + reduced[1..];
  }

  /** Division is division: dividend = quotient * generator + remainder, of degree below 16. */
  lemma {:induction false} DivideRecomposes(p: seq<bool>)
    requires |p| >= 16
    ensures Recompose(Divide(p)) == p
    decreases |p|
  {
    if |p| > 16 {
      var reduced := if p[0] then AddLeading(p, GENERATOR) else p;
      DivideRecomposes(reduced[1..]);
      RecomposeStep(p, reduced);
    }
  }

  lemma AddLeadingInjective(a: seq<bool>, b: seq<bool>, g: seq<bool>)
    requires |a| == |b| && |g| <= |a|
    requires AddLeading(a, g) == AddLeading(b, g)
    ensures a == b
  {
    forall i | 0 <= i < |a|
      ensures a[i] == b[i]
    {
      assert AddLeading(a, g)[i] == AddLeading(b, g)[i];
    }
  }

  /** ... and there is only one such pair. */
  lemma {:induction false} DivisionUnique(a: Division, b: Division)
    requires |a.remainder| == |b.remainder| == 16 && |a.quotient| == |b.quotient|
    requires Recompose(a) == Recompose(b)
    ensures a == b
    decreases |a.quotient|
  {
    if a.quotient == [] {
      assert Recompose(a) == a.remainder && Recompose(b) == b.remainder;
    } else {
      var a', b' := Division(a.quotient[1..], a.remainder), Division(b.quotient[1..], b.remainder);
      RecomposePeels(a);
      RecomposePeels(b);
      assert a.quotient[0] == Recompose(a)[0] == Recompose(b)[0] == b.quotient[0];
      var s, t := [false] + Recompose(a'), [false] + Recompose(b');
      if a.quotient[0] {
        AddLeadingInjective(s, t, GENERATOR);
      }
      assert s[1..] == t[1..];
      DivisionUnique(a', b');
    }
  }

  lemma {:induction false} NatBitsExtend(w: nat, n: nat)
    requires w < Power2(n)
    ensures NatBits(w, n + 1) == NatBits(w, n) + [false]
    decreases n
  {
    if n > 0 {
      NatBitsExtend(w / 2, n - 1);
    }
  }

  lemma {:induction false} NatBitsOnes(n: nat)
    ensures NatBits(Power2(n) - 1, n) == seq(n, i => true)
  {
    if n > 0 {
      assert (Power2(n) - 1) / 2 == Power2(n - 1) - 1;
      NatBitsOnes(n - 1);
    }
  }

  lemma FiveBits()
    ensures NatBits(5, 3) == [true, false, true]
  {
    assert NatBits(1, 1) == [true] + NatBits(0, 0);
    assert NatBits(2, 2) == [false] + NatBits(1, 1);
    assert NatBits(5, 3) == [true] + NatBits(2, 2);
  }

  lemma OneBits(n: nat)
    requires n > 0
    ensures NatBits(1, n) == [true] + Zeros(n - 1)
  {
    NatBitsZero(n - 1);
  }

  lemma GeneratorIsFeedback(w: nat, n: nat)
    requires w == POLYNOMIAL && n == 16
    ensures GENERATOR[1..] == NatBits(w, n)
  {
    Power2Values();
    NatBitsSplit(1, 5, n - 3, 3);
    OneBits(n - 3);
    FiveBits();
  }

  /** Shifting the register once, read as coefficients with bit 0 the highest power. */
  lemma StepBits(r: nat)
    requires r < 0x1_0000
    ensures NatBits(Step(r), 16) ==
            XorBits(NatBits(r, 16)[1..] + [false], if r % 2 == 1 then GENERATOR[1..] else Zeros(16))
  {
    StepIsXor(r);
    NatBitsXor(r / 2, Feedback(r), 16);
    Power2Values();
    NatBitsExtend(r / 2, 15);
    GeneratorIsFeedback(POLYNOMIAL, 16);
    NatBitsZero(16);
  }

  /** The register, as coefficients, added in front of a padded message. */
  function Loaded(r: nat, w: seq<bool>): (p: seq<bool>)
    ensures |p| == |w| + 16
  {
    AddLeading(w + Zeros(16), NatBits(r, 16))
  }

  /** Adding the first message bit to the register's low bit. */
  lemma FirstBit(r: nat, bit: bool)
    requires r < 0x1_0000
    ensures var x := Xor(r, BitValue(bit));
            x < 0x1_0000 && (x % 2 == 1) == ((r % 2 == 1) != bit) && x / 2 == r / 2
            && NatBits(x, 16)[1..] == NatBits(r, 16)[1..]
  {
    var x := Xor(r, BitValue(bit));
    XorUnfold(r, BitValue(bit));
    XorZero(r / 2);
    XorWord(r, BitValue(bit));
    assert NatBits(x, 16)[1..] == NatBits(x / 2, 15);
    assert NatBits(r, 16)[1..] == NatBits(r / 2, 15);
  }

  lemma StepWord(x: nat)
    requires x < 0x1_0000
    ensures Step(x) < 0x1_0000
  {
    StepsWord(x, 1);
    assert Steps(x, 1) == Step(x);
  }

  /** Coefficient `i` of the reduced dividend is that of the register one step on. */
  lemma ReducedAt(r: nat, w: seq<bool>, x: nat, i: nat)
    requires r < 0x1_0000 && w != [] && i < |w| + 15 && x == Xor(r, BitValue(w[0]))
    ensures var p := Loaded(r, w);
            (if x % 2 == 1 then AddLeading(p, GENERATOR) else p)[i + 1] == Loaded(Step(x), w[1..])[i]
  {
    FirstBit(r, w[0]);
    StepBits(x);
    var high, step := NatBits(r, 16), NatBits(Step(x), 16);
    assert (w + Zeros(16))[i + 1] == (w[1..] + Zeros(16))[i];
    if i < 15 {
      assert high[i + 1] == high[1..][i] == NatBits(x, 16)[1..][i];
    }
  }

  lemma ReducedIsNext(r: nat, w: seq<bool>, x: nat)
    requires r < 0x1_0000 && w != [] && x == Xor(r, BitValue(w[0]))
    ensures var p := Loaded(r, w);
            p[0] == (x % 2 == 1) && (if p[0] then AddLeading(p, GENERATOR) else p)[1..] == Loaded(Step(x), w[1..])
  {
    var p := Loaded(r, w);
    FirstBit(r, w[0]);
    var reduced, next := (if x % 2 == 1 then AddLeading(p, GENERATOR) else p)[1..], Loaded(Step(x), w[1..]);
    forall i | 0 <= i < |w| + 15
      ensures reduced[i] == next[i]
    {
      ReducedAt(r, w, x, i);
    }
    assert reduced == next;
  }

  /** The register after feeding `w` is the remainder of `w`, padded and with `r` added in front. */
  lemma {:induction false} RegisterIsRemainder(r: nat, w: seq<bool>)
    requires r < 0x1_0000
    ensures Divide(AddLeading(w + Zeros(16), NatBits(r, 16))).remainder == NatBits(FeedBits(r, w), 16)
    decreases |w|
  {
    if w == [] {
      assert Loaded(r, w) == NatBits(r, 16);
    } else {
      var x := Xor(r, BitValue(w[0]));
      FirstBit(r, w[0]);
      StepWord(x);
      ReducedIsNext(r, w, x);
      RegisterIsRemainder(Step(x), w[1..]);
      assert Divide(Loaded(Step(x), w[1..])).remainder == NatBits(FeedBits(Step(x), w[1..]), 16);
    }
  }

  /**
    * The CRC of any byte string, read with bit 0 as the highest power, is the remainder of the
    * LSB-first message times x^16, its first sixteen coefficients inverted, by the generator.
    */
  lemma CrcIsPolynomialRemainder(data: seq<byte>)
    ensures Divide(AddLeading(Bits(data) + Zeros(16), seq(16, i => true))).remainder == NatBits(Crc(data), 16)
  {
    FeedIsFeedBits(PRESET, data);
    Power2Values();
    NatBitsOnes(16);
    RegisterIsRemainder(PRESET, Bits(data));
  }
}
