/** Which error patterns and frame ends the CRC cannot see: the multiples of the generator, and no others. */
module CrcErrors {
  import opened BitStrings
  import opened BitwiseXor
  import opened Bytes
  import opened Coils
  import opened CrcPolynomial
  import opened CrcRegister
  import opened RtuFrame
  import opened RtuReader

  ghost predicate IsMultiple(w: seq<bool>)
    requires |w| >= 16
  {
    exists q: seq<bool> :: |q| == |w| - 16 && Multiply(q) == w
  }

  lemma MultiplyRecomposes(q: seq<bool>)
    ensures Recompose(Division(q, Zeros(16))) == Multiply(q)
  {
    assert Zeros(|q|) + Zeros(16) == Zeros(|q| + 16);
  }

  /** The generator divides a polynomial exactly when division leaves nothing. */
  lemma MultipleIffNoRemainder(w: seq<bool>)
    requires |w| >= 16
    ensures IsMultiple(w) <==> Divide(w).remainder == Zeros(16)
  {
    var d := Divide(w);
    DivideRecomposes(w);
    if d.remainder == Zeros(16) {
      MultiplyRecomposes(d.quotient);
      assert d == Division(d.quotient, Zeros(16));
      assert Multiply(d.quotient) == w;
    }
    if IsMultiple(w) {
      var q: seq<bool> :| |q| == |w| - 16 && Multiply(q) == w;
      MultiplyRecomposes(q);
      DivisionUnique(d, Division(q, Zeros(16)));
    }
  }

  lemma RecomposeWith(q: seq<bool>, r: seq<bool>, t: seq<bool>)
    requires |r| == |t| == 16
    ensures Recompose(Division(q, XorBits(r, t))) == XorBits(Recompose(Division(q, r)), Zeros(|q|) + t)
  {
    var pad := Zeros(|q|);
    assert pad + XorBits(r, t) == XorBits(pad + r, pad + t);
  }

  lemma TailAdded(p: seq<bool>, t: seq<bool>)
    requires |t| == 16
    ensures XorBits(p + Zeros(16), Zeros(|p|) + t) == p + t
  {
  }

  /** Changing the last sixteen coefficients changes the remainder by as much. */
  lemma RemainderOfTail(p: seq<bool>, t: seq<bool>)
    requires |t| == 16
    ensures Divide(p + t).remainder == XorBits(Divide(p + Zeros(16)).remainder, t)
  {
    var padded := p + Zeros(16);
    var d := Divide(padded);
    DivideRecomposes(padded);
    DivideRecomposes(p + t);
    RecomposeWith(d.quotient, d.remainder, t);
    TailAdded(p, t);
    DivisionUnique(Division(d.quotient, XorBits(d.remainder, t)), Divide(p + t));
  }

  lemma AddNothing(p: seq<bool>)
    requires |p| >= 16
    ensures AddLeading(p, Zeros(16)) == p
  {
  }

  lemma XorBitsZero(s: seq<bool>, t: seq<bool>)
    requires |s| == |t|
    ensures XorBits(s, t) == Zeros(|s|) <==> s == t
  {
    if XorBits(s, t) == Zeros(|s|) {
      forall i | 0 <= i < |s|
        ensures s[i] == t[i]
      {
        assert XorBits(s, t)[i] == Zeros(|s|)[i];
      }
    }
  }

  /** A bit string leaves a zero register at zero exactly when the generator divides it. */
  lemma ZeroResidueIffMultiple(w: seq<bool>)
    requires |w| >= 16
    ensures FeedBits(0, w) == 0 <==> IsMultiple(w)
  {
    var n := |w| - 16;
    var p, t := w[..n], w[n..];
    assert w == p + t;
    var r, v := FeedBits(0, p), BitsValue(t);
    FeedBitsAppend(0, p, t);
    FeedBitsWord(0, p);
    BitsValueBound(t);
    BitsValueRoundTrip(t);
    BitsClearRegister(r, v, 16);
    RegisterIsRemainder(0, p);
    NatBitsZero(16);
    AddNothing(p + Zeros(16));
    RemainderOfTail(p, t);
    XorBitsZero(NatBits(r, 16), t);
    MultipleIffNoRemainder(w);
    Power2Values();
    if NatBits(r, 16) == t {
      NatBitsInjective(r, v, 16);
    }
  }

  /** An error goes unnoticed exactly when the generator divides its pattern. */
  lemma UnnoticedIffMultiple(adu: seq<byte>, mask: seq<byte>)
    requires |adu| >= 2 && |mask| == |adu| + 2
    ensures StripRtuFrame(Corrupt(BuildRtuFrame(adu), mask)).Ok? <==> IsMultiple(Bits(mask))
  {
    CorruptedAccepted(adu, mask);
    ZeroResidueIffMultiple(Bits(mask));
  }

  lemma ResidueOfBytes(data: seq<byte>)
    requires |data| >= 2
    ensures Feed(0, data) == 0 <==> IsMultiple(Bits(data))
  {
    FeedIsFeedBits(0, data);
    ZeroResidueIffMultiple(Bits(data));
  }

  /** A prefix of a valid frame is itself valid exactly when the generator divides what follows it. */
  lemma PrefixValidIffMultiple(frame: seq<byte>, k: nat)
    requires 2 <= k <= |frame| - 2 && HasValidCrc(frame)
    ensures HasValidCrc(frame[..k]) <==> IsMultiple(Bits(frame[k..]))
  {
    PrefixValidExactly(frame, k);
    ResidueOfBytes(frame[k..]);
  }

  ghost predicate EndDivides(frame: seq<byte>, k: nat)
    requires k <= |frame| - 2
  {
    IsMultiple(Bits(frame[k..]))
  }

  /** The last byte is not zero, and the generator divides no end that starts at the fifth byte or later. */
  ghost predicate NoBlindEnd(frame: seq<byte>)
    requires |frame| >= 2
  {
    frame[|frame| - 1] != 0 && forall k | 4 <= k <= |frame| - 2 :: !EndDivides(frame, k)
  }

  predicate NoValidPrefix(frame: seq<byte>) {
    forall k | 4 <= k < |frame| :: !HasValidCrc(frame[..k])
  }

  lemma BlindEndsCut(frame: seq<byte>)
    requires |frame| >= 5 && HasValidCrc(frame) && NoValidPrefix(frame)
    ensures NoBlindEnd(frame)
  {
    ShortByOne(frame);
    assert !HasValidCrc(frame[..|frame| - 1]);
    forall k | 4 <= k <= |frame| - 2
      ensures !EndDivides(frame, k)
    {
      PrefixValidIffMultiple(frame, k);
      assert !HasValidCrc(frame[..k]);
    }
  }

  lemma OnlyBlindEndsCut(frame: seq<byte>)
    requires |frame| >= 5 && HasValidCrc(frame) && NoBlindEnd(frame)
    ensures NoValidPrefix(frame)
  {
    forall k | 4 <= k < |frame|
      ensures !HasValidCrc(frame[..k])
    {
      if k == |frame| - 1 {
        ShortByOne(frame);
      } else {
        PrefixValidIffMultiple(frame, k);
        assert !EndDivides(frame, k);
      }
    }
  }

  /** The gateway's reader returns a valid frame whole exactly when it has no blind end. */
  lemma StopsEarlyAtMultiple(frame: seq<byte>, rest: seq<byte>)
    requires 5 <= |frame| <= MAX_FRAME && HasValidCrc(frame)
    ensures ReadOutcome(frame + rest, MAX_FRAME) == Ok(frame) <==> NoBlindEnd(frame)
  {
    WholeFrameReturned(frame, rest);
    if NoBlindEnd(frame) {
      OnlyBlindEndsCut(frame);
    }
    if NoValidPrefix(frame) {
      BlindEndsCut(frame);
    }
  }

  // ---------------------------------------------------------------------------
  // The bounds on detected errors are tight
  // ---------------------------------------------------------------------------

  /** The generator itself, k bits into a frame of n bits. */
  function Shifted(k: nat, n: nat): (w: seq<bool>)
    requires k + 17 <= n
    ensures |w| == n
  {
    Zeros(k) + GENERATOR + Zeros(n - k - 17)
  }

  lemma GeneratorResidue()
    ensures FeedBits(0, GENERATOR) == 0
  {
    var one := [true];
    MultiplyOne(one);
    ZeroResidueIffMultiple(GENERATOR);
  }

  lemma MultiplyOne(one: seq<bool>)
    requires one == [true]
    ensures Multiply(one) == GENERATOR
  {
    assert one[1..] == [];
    assert [false] + Zeros(16) == Zeros(17);
  }

  lemma {:induction false} OnesOfZeros(n: nat)
    ensures Ones(Zeros(n)) == 0
  {
    if n > 0 {
      assert Zeros(n)[1..] == Zeros(n - 1);
      OnesOfZeros(n - 1);
    }
  }

  lemma {:induction false} OnesAppend(a: seq<bool>, b: seq<bool>)
    ensures Ones(a + b) == Ones(a) + Ones(b)
    decreases |a|
  {
    if a == [] {
      assert a + b == b;
    } else {
      assert (a + b)[1..] == a[1..] + b;
      OnesAppend(a[1..], b);
    }
  }

  lemma GeneratorOnes()
    ensures Ones(GENERATOR) == 4
  {
    var head, tail := [true, true], [true, false, true];
    OnesAppend(head + Zeros(12), tail);
    OnesAppend(head, Zeros(12));
    OnesOfZeros(12);
    assert head[1..] == [true] && head[1..][1..] == [];
    assert tail[1..] == [false, true] && tail[1..][1..] == [true] && tail[1..][1..][1..] == [];
  }

  lemma {:induction false} PackWholeBytes(bits: seq<bool>)
    requires |bits| % 8 == 0
    ensures |PackCoils(bits)| == |bits| / 8 && Bits(PackCoils(bits)) == bits
  {
    PackedBits(bits);
    assert Zeros(0) == [];
  }

  /** Anywhere in any frame, one burst of seventeen bits, with four of them flipped, goes unnoticed. */
  lemma DetectionIsTight(adu: seq<byte>, k: nat) returns (mask: seq<byte>)
    requires |adu| >= 2 && k + 17 <= 8 * (|adu| + 2)
    ensures |mask| == |adu| + 2 && Bits(mask) == Shifted(k, 8 * |mask|) && Ones(Bits(mask)) == 4
    ensures StripRtuFrame(Corrupt(BuildRtuFrame(adu), mask)).Ok?
  {
    var n := 8 * (|adu| + 2);
    var w := Shifted(k, n);
    mask := PackCoils(w);
    PackWholeBytes(w);
    GeneratorResidue();
    ResidueOfPadded(k, GENERATOR, n - k - 17);
    CorruptedAccepted(adu, mask);
    OnesAppend(Zeros(k) + GENERATOR, Zeros(n - k - 17));
    OnesAppend(Zeros(k), GENERATOR);
    OnesOfZeros(k);
    OnesOfZeros(n - k - 17);
    GeneratorOnes();
  }
}
