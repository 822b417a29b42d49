/** RTU framing: the CRC trailer, its validation, and which transmission errors it catches. */
module RtuFrame {
  import opened BitStrings
  import opened BitwiseXor
  import opened Bytes
  import opened CrcPeriod
  import opened CrcRegister

  datatype RtuError = TooShort | CrcMismatch

  /** A 16-bit value, low byte first. */
  function LittleEndian(v: nat): (s: seq<byte>)
    requires v < 0x1_0000
    ensures |s| == 2
  {
    [(v % 0x100) as byte, (v / 0x100) as byte]
  }

  function FromLittleEndian(s: seq<byte>): nat
    requires |s| == 2
  {
    s[0] as nat + 0x100 * s[1] as nat
  }

  function BuildRtuFrame(adu: seq<byte>): (frame: seq<byte>)
    ensures |frame| == |adu| + 2
  {
    FeedWord(PRESET, adu);
    adu + LittleEndian(Crc(adu))
  }

  /** The trailer comparison shared by the frame parser and both stream readers. */
  predicate HasValidCrc(frame: seq<byte>)
    requires |frame| >= 2
  {
    var n := |frame| - 2;
    FromLittleEndian(frame[n..]) == Crc(frame[..n])
  }

  function StripRtuFrame(frame: seq<byte>): Result<seq<byte>, RtuError> {
    if |frame| < 4 then Err(TooShort)
    else if !HasValidCrc(frame) then Err(CrcMismatch)
    else Ok(frame[..|frame| - 2])
  }

  // ---------------------------------------------------------------------------
  // A frame is valid exactly when it drives the register to zero
  // ---------------------------------------------------------------------------

  lemma TrailerBits(s: seq<byte>)
    requires |s| == 2
    ensures Bits(s) == NatBits(FromLittleEndian(s), 16)
  {
    var low, high := s[0] as nat, s[1] as nat;
    Power2Values();
    NatBitsSplit(low, high, 8, 8);
    assert s[1..][1..] == [];
    assert Bits(s[1..]) == NatBits(high, 8) + Bits([]);
  }

  /** Two bytes clear the register exactly when they are its content, low byte first. */
  lemma TrailerClears(r: nat, trailer: seq<byte>)
    requires r < 0x1_0000 && |trailer| == 2
    ensures Feed(r, trailer) == 0 <==> r == FromLittleEndian(trailer)
  {
    FeedIsFeedBits(r, trailer);
    TrailerBits(trailer);
    Power2Values();
    BitsClearRegister(r, FromLittleEndian(trailer), 16);
  }

  lemma ValidCrcIsZeroResidue(frame: seq<byte>)
    requires |frame| >= 2
    ensures HasValidCrc(frame) <==> Feed(PRESET, frame) == 0
  {
    var n := |frame| - 2;
    assert frame == frame[..n] + frame[n..];
    FeedAppend(PRESET, frame[..n], frame[n..]);
    FeedWord(PRESET, frame[..n]);
    TrailerClears(Crc(frame[..n]), frame[n..]);
  }

  /** Stripping inverts building, and accepts nothing that building did not produce. */
  lemma StripInvertsBuild(adu: seq<byte>)
    ensures StripRtuFrame(BuildRtuFrame(adu)) == if |adu| >= 2 then Ok(adu) else Err(TooShort)
  {
    FeedWord(PRESET, adu);
    var frame := BuildRtuFrame(adu);
    assert frame[..|adu|] == adu && frame[|adu|..] == LittleEndian(Crc(adu));
  }

  lemma StripAcceptsOnlyBuilt(frame: seq<byte>, adu: seq<byte>)
    ensures StripRtuFrame(frame) == Ok(adu) <==> frame == BuildRtuFrame(adu) && |adu| >= 2
  {
    StripInvertsBuild(adu);
    if StripRtuFrame(frame) == Ok(adu) {
      var n := |frame| - 2;
      var trailer := frame[n..];
      assert trailer == LittleEndian(FromLittleEndian(trailer));
      assert frame == adu + trailer;
    }
  }

  // ---------------------------------------------------------------------------
  // Transmission errors
  // ---------------------------------------------------------------------------

  lemma XorByteBound(a: byte, b: byte)
    ensures Xor(a as nat, b as nat) < 0x100
  {
    Power2Values();
    XorBound(a as nat, b as nat, 8);
  }

  function XorByte(a: byte, b: byte): byte {
    XorByteBound(a, b);
    Xor(a as nat, b as nat) as byte
  }

  /** The frame received when the bits set in `mask` are flipped on the wire. */
  function Corrupt(frame: seq<byte>, mask: seq<byte>): (received: seq<byte>)
    requires |mask| == |frame|
    ensures |received| == |frame|
    decreases |frame|
  {
    if frame == [] then [] else [XorByte(frame[0], mask[0])] + Corrupt(frame[1..], mask[1..])
  }

  lemma {:induction false} CorruptBits(frame: seq<byte>, mask: seq<byte>)
    requires |mask| == |frame|
    ensures Bits(Corrupt(frame, mask)) == XorBits(Bits(frame), Bits(mask))
    decreases |frame|
  {
    if frame != [] {
      var received := Corrupt(frame, mask);
      assert received[1..] == Corrupt(frame[1..], mask[1..]);
      NatBitsXor(frame[0] as nat, mask[0] as nat, 8);
      CorruptBits(frame[1..], mask[1..]);
    }
  }

  /** A corrupted frame passes exactly when the error pattern alone leaves the register at zero. */
  lemma CorruptedAccepted(adu: seq<byte>, mask: seq<byte>)
    requires |adu| >= 2 && |mask| == |adu| + 2
    ensures var r := StripRtuFrame(Corrupt(BuildRtuFrame(adu), mask));
            if FeedBits(0, Bits(mask)) == 0 then r.Ok? else r == Err(CrcMismatch)
  {
    var frame := BuildRtuFrame(adu);
    var received := Corrupt(frame, mask);
    StripInvertsBuild(adu);
    ValidCrcIsZeroResidue(frame);
    ValidCrcIsZeroResidue(received);
    FeedIsFeedBits(PRESET, frame);
    FeedIsFeedBits(PRESET, received);
    CorruptBits(frame, mask);
    FeedBitsSuperpose(PRESET, 0, Bits(frame), Bits(mask));
    XorZero(PRESET);
    XorCommutes(0, FeedBits(0, Bits(mask)));
    XorZero(FeedBits(0, Bits(mask)));
  }

  /** Leading and trailing zeros do not change whether a pattern is caught. */
  lemma ResidueOfPadded(k: nat, w: seq<bool>, m: nat)
    ensures FeedBits(0, Zeros(k) + w + Zeros(m)) == 0 <==> FeedBits(0, w) == 0
  {
    FeedBitsAppend(0, Zeros(k) + w, Zeros(m));
    FeedBitsAppend(0, Zeros(k), w);
    FeedZeros(0, k);
    StepsReachZero(0, k);
    FeedZeros(FeedBits(0, w), m);
    FeedBitsWord(0, w);
    StepsReachZero(FeedBits(0, w), m);
  }

  lemma {:induction false} FeedBitsWord(r: nat, bits: seq<bool>)
    requires r < 0x1_0000
    ensures FeedBits(r, bits) < 0x1_0000
    decreases |bits|
  {
    if bits != [] {
      var x := Xor(r, BitValue(bits[0]));
      XorWord(r, BitValue(bits[0]));
      StepsWord(x, 1);
      assert Steps(x, 1) == Step(x);
      FeedBitsWord(Step(x), bits[1..]);
    }
  }

  lemma BurstPadding(e: seq<bool>, k: nat) returns (w: seq<bool>, m: nat)
    requires true in e && forall i | 0 <= i < |e| && e[i] :: k <= i < k + 16
    ensures |w| <= 16 && true in w && e == Zeros(k) + w + Zeros(m)
  {
    var hit :| 0 <= hit < |e| && e[hit];
    var end := if k + 16 <= |e| then k + 16 else |e|;
    w, m := e[k..end], |e| - end;
    assert w[hit - k];
    assert e == Zeros(k) + w + Zeros(m);
  }

  lemma BurstResidue(e: seq<bool>, k: nat)
    requires true in e && forall i | 0 <= i < |e| && e[i] :: k <= i < k + 16
    ensures FeedBits(0, e) != 0
  {
    var w, m := BurstPadding(e, k);
    BitsValueBound(w);
    BitsValueRoundTrip(w);
    BitsClearRegister(0, BitsValue(w), |w|);
    ResidueOfPadded(k, w, m);
  }

  /** Every error burst confined to sixteen consecutive transmitted bits is rejected. */
  lemma BurstDetected(adu: seq<byte>, mask: seq<byte>, k: nat)
    requires |adu| >= 2 && |mask| == |adu| + 2
    requires true in Bits(mask)
    requires forall i | 0 <= i < |Bits(mask)| && Bits(mask)[i] :: k <= i < k + 16
    ensures StripRtuFrame(Corrupt(BuildRtuFrame(adu), mask)) == Err(CrcMismatch)
  {
    BurstResidue(Bits(mask), k);
    CorruptedAccepted(adu, mask);
  }

  /** Every built frame carries an even number of ones ... */
  lemma BuiltFrameParity(adu: seq<byte>)
    ensures !OddOnes(Bits(BuildRtuFrame(adu)))
  {
    var frame := BuildRtuFrame(adu);
    FeedWord(PRESET, adu);
    assert frame[..|adu|] == adu && frame[|adu|..] == LittleEndian(Crc(adu));
    ValidCrcIsZeroResidue(frame);
    FeedIsFeedBits(PRESET, frame);
    FeedBitsParity(PRESET, Bits(frame));
    PresetParity(16);
  }

  lemma {:induction false} PresetParity(n: nat)
    requires n % 2 == 0
    ensures !OddParity(Power2(n) - 1)
    ensures n == 16 ==> Power2(n) - 1 == PRESET
  {
    if n > 0 {
      PresetParity(n - 2);
      assert (Power2(n) - 1) / 2 == Power2(n - 1) - 1;
      assert (Power2(n - 1) - 1) / 2 == Power2(n - 2) - 1;
    }
    Power2Values();
  }

  /** ... so any odd number of flipped bits is rejected. */
  lemma OddErrorsDetected(adu: seq<byte>, mask: seq<byte>)
    requires |adu| >= 2 && |mask| == |adu| + 2
    requires OddOnes(Bits(mask))
    ensures StripRtuFrame(Corrupt(BuildRtuFrame(adu), mask)) == Err(CrcMismatch)
  {
    OddOnesResidue(Bits(mask));
    CorruptedAccepted(adu, mask);
  }

  lemma TwoBitPattern(e: seq<bool>, i: nat, j: nat)
    requires i < j < |e|
    requires forall k | 0 <= k < |e| :: e[k] <==> k == i || k == j
    ensures FeedBits(0, e) == 0 <==> (j - i) % PERIOD == 0
  {
    var gap, m := j - i - 1, |e| - j - 1;
    var w := [true] + Zeros(gap) + [true];
    assert e == Zeros(i) + w + Zeros(m);
    ResidueOfPadded(i, w, m);
    TwoBitResidue(gap);
  }

  /** Two flipped bits go unnoticed exactly when their distance is a multiple of 32767. */
  lemma TwoBitErrors(adu: seq<byte>, mask: seq<byte>, i: nat, j: nat)
    requires |adu| >= 2 && |mask| == |adu| + 2
    requires i < j < |Bits(mask)|
    requires forall k | 0 <= k < |Bits(mask)| :: Bits(mask)[k] <==> k == i || k == j
    ensures StripRtuFrame(Corrupt(BuildRtuFrame(adu), mask)).Ok? <==> (j - i) % PERIOD == 0
  {
    TwoBitPattern(Bits(mask), i, j);
    CorruptedAccepted(adu, mask);
  }

  lemma TwoBitResidue(gap: nat)
    ensures FeedBits(0, [true] + Zeros(gap) + [true]) == 0 <==> (gap + 1) % PERIOD == 0
  {
    var one := [true];
    FeedBitsAppend(0, one + Zeros(gap), one);
    FeedBitsAppend(0, one, Zeros(gap));
    var first := Step(Xor(0, 1));
    assert one[1..] == [];
    assert FeedBits(0, one) == FeedBits(first, []);
    XorCommutes(0, 1);
    XorZero(1);
    FeedZeros(first, gap);
    StepsAdd(1, 1, gap);
    assert Steps(1, 1) == first;
    var r := Steps(1, gap + 1);
    assert FeedBits(r, one) == FeedBits(Step(Xor(r, 1)), []);
    StepsWord(1, gap + 1);
    XorWord(r, 1);
    StepsReachZero(Xor(r, 1), 1);
    assert Steps(Xor(r, 1), 1) == Step(Xor(r, 1));
    XorEqual(r, 1);
    UnitPeriod(gap + 1);
  }

  function Ones(s: seq<bool>): nat {
    if s == [] then 0 else BitValue(s[0]) + Ones(s[1..])
  }

  lemma {:induction false} OnesParity(s: seq<bool>)
    ensures OddOnes(s) == (Ones(s) % 2 == 1)
  {
    if s != [] {
      OnesParity(s[1..]);
    }
  }

  lemma {:induction false} NoOnes(s: seq<bool>)
    requires Ones(s) == 0
    ensures forall k | 0 <= k < |s| :: !s[k]
  {
    if s != [] {
      NoOnes(s[1..]);
      assert forall k | 0 < k < |s| :: s[k] == s[1..][k - 1];
    }
  }

  lemma {:induction false} SingleOne(s: seq<bool>) returns (i: nat)
    requires Ones(s) == 1
    ensures i < |s| && forall k | 0 <= k < |s| :: s[k] <==> k == i
  {
    if s[0] {
      NoOnes(s[1..]);
      i := 0;
    } else {
      var i' := SingleOne(s[1..]);
      i := i' + 1;
    }
    assert forall k | 0 < k < |s| :: s[k] == s[1..][k - 1];
  }

  lemma {:induction false} TwoOnes(s: seq<bool>) returns (i: nat, j: nat)
    requires Ones(s) == 2
    ensures i < j < |s| && forall k | 0 <= k < |s| :: s[k] <==> k == i || k == j
  {
    if s[0] {
      var j' := SingleOne(s[1..]);
      i, j := 0, j' + 1;
    } else {
      var i', j' := TwoOnes(s[1..]);
      i, j := i' + 1, j' + 1;
    }
    assert forall k | 0 < k < |s| :: s[k] == s[1..][k - 1];
  }

  lemma TwoOnesResidue(e: seq<bool>)
    requires Ones(e) == 2 && |e| <= PERIOD
    ensures FeedBits(0, e) != 0
  {
    var i, j := TwoOnes(e);
    TwoBitPattern(e, i, j);
    var d := j - i;
    assert 0 < d < PERIOD;
  }

  lemma OddOnesResidue(e: seq<bool>)
    requires OddOnes(e)
    ensures FeedBits(0, e) != 0
  {
    FeedBitsParity(0, e);
  }

  lemma FewOnesResidue(e: seq<bool>, n: nat)
    requires n == Ones(e) && 1 <= n <= 3 && |e| <= PERIOD
    ensures FeedBits(0, e) != 0
  {
    if n == 2 {
      TwoOnesResidue(e);
    } else {
      OnesParity(e);
      OddOnesResidue(e);
    }
  }

  /** One, two or three flipped bits are always rejected in frames of up to 4095 bytes. */
  lemma UpToThreeErrorsDetected(adu: seq<byte>, mask: seq<byte>)
    requires |adu| >= 2 && |mask| == |adu| + 2 && |mask| <= 4095
    requires 1 <= Ones(Bits(mask)) <= 3
    ensures StripRtuFrame(Corrupt(BuildRtuFrame(adu), mask)) == Err(CrcMismatch)
  {
    FewOnesResidue(Bits(mask), Ones(Bits(mask)));
    CorruptedAccepted(adu, mask);
  }
}
