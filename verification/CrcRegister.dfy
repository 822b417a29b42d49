/** The CRC-16/MODBUS shift register: both loop forms, and the algebra of one bit step. */
module CrcRegister {
  import opened BitStrings
  import opened BitwiseXor
  import opened Bytes

  /** Reflected generator polynomial x^16 + x^15 + x^2 + 1. */
  const POLYNOMIAL: nat := 0xA001

  /** Initial register value. */
  const PRESET: nat := 0xFFFF

  /** One iteration of the inner loop. */
  function Step(r: nat): nat {
    if r % 2 == 1 then Xor(r / 2, POLYNOMIAL) else r / 2
  }

  function Steps(r: nat, n: nat): nat
    decreases n
  {
    if n == 0 then r else Steps(Step(r), n - 1)
  }

  /** XOR a whole byte in, then eight steps. */
  function FeedByte(r: nat, b: byte): nat {
    Steps(Xor(r, b as nat), 8)
  }

  function Feed(r: nat, data: seq<byte>): nat
    decreases |data|
  {
    if data == [] then r else Feed(FeedByte(r, data[0]), data[1..])
  }

  function Crc(data: seq<byte>): nat {
    Feed(PRESET, data)
  }

  /** The client library's loop: shift first, then XOR when the dropped bit was set. */
  method ClientCrc16(data: seq<byte>) returns (crc: nat)
    ensures crc == Crc(data)
  {
    crc := 0xFFFF;
    for i := 0 to |data|
      invariant Feed(crc, data[i..]) == Crc(data)
    {
      crc := Xor(crc, data[i] as nat);
      ghost var loaded := crc;
      for k := 0 to 8
        invariant Steps(crc, 8 - k) == Steps(loaded, 8)
      {
        var lsb := crc % 2;
        crc := crc / 2;
        if lsb != 0 {
          crc := Xor(crc, 0xA001);
        }
      }
      assert data[i..][1..] == data[i + 1..];
    }
  }

  /** The gateway's loop: one branch per value of the low bit. */
  method GatewayCrc16(data: seq<byte>) returns (crc: nat)
    ensures crc == Crc(data)
  {
    crc := 0xFFFF;
    for i := 0 to |data|
      invariant Feed(crc, data[i..]) == Crc(data)
    {
      crc := Xor(crc, data[i] as nat);
      ghost var loaded := crc;
      for k := 0 to 8
        invariant Steps(crc, 8 - k) == Steps(loaded, 8)
      {
        if crc % 2 != 0 {
          crc := Xor(crc / 2, 0xA001);
        } else {
          crc := crc / 2;
        }
      }
      assert data[i..][1..] == data[i + 1..];
    }
  }

  // ---------------------------------------------------------------------------
  // The register stays 16 bits wide
  // ---------------------------------------------------------------------------

  lemma {:induction false} StepsWord(r: nat, n: nat)
    requires r < 0x1_0000
    ensures Steps(r, n) < 0x1_0000
    decreases n
  {
    if n > 0 {
      XorWord(r / 2, POLYNOMIAL);
      StepsWord(Step(r), n - 1);
    }
  }

  lemma {:induction false} FeedWord(r: nat, data: seq<byte>)
    requires r < 0x1_0000
    ensures Feed(r, data) < 0x1_0000
    decreases |data|
  {
    if data != [] {
      XorWord(r, data[0] as nat);
      StepsWord(Xor(r, data[0] as nat), 8);
      FeedWord(FeedByte(r, data[0]), data[1..]);
    }
  }

  // ---------------------------------------------------------------------------
  // One bit step is linear and loses nothing
  // ---------------------------------------------------------------------------

  function Feedback(r: nat): nat {
    if r % 2 == 1 then POLYNOMIAL else 0
  }

  lemma StepIsXor(r: nat)
    ensures Step(r) == Xor(r / 2, Feedback(r))
  {
    XorZero(r / 2);
  }

  lemma FeedbackLinear(a: nat, b: nat)
    ensures Feedback(Xor(a, b)) == Xor(Feedback(a), Feedback(b))
  {
    XorUnfold(a, b);
    var p := POLYNOMIAL;
    XorEqual(p, p);
    XorZero(p);
    XorCommutes(0, p);
  }

  lemma StepLinear(a: nat, b: nat)
    ensures Step(Xor(a, b)) == Xor(Step(a), Step(b))
  {
    StepIsXor(a);
    StepIsXor(b);
    StepIsXor(Xor(a, b));
    XorUnfold(a, b);
    FeedbackLinear(a, b);
    XorSwap(a / 2, Feedback(a), b / 2, Feedback(b));
  }

  lemma {:induction false} StepsLinear(a: nat, b: nat, n: nat)
    ensures Steps(Xor(a, b), n) == Xor(Steps(a, n), Steps(b, n))
    decreases n
  {
    if n > 0 {
      StepLinear(a, b);
      StepsLinear(Step(a), Step(b), n - 1);
    }
  }

  lemma {:induction false} StepsAdd(r: nat, m: nat, n: nat)
    ensures Steps(r, m + n) == Steps(Steps(r, m), n)
    decreases m
  {
    if m > 0 {
      StepsAdd(Step(r), m - 1, n);
    }
  }

  /** Only the zero register shifts to zero: a set feedback bit reappears as bit 15. */
  lemma {:induction false} StepsReachZero(r: nat, n: nat)
    requires r < 0x1_0000
    ensures Steps(r, n) == 0 <==> r == 0
    decreases n
  {
    if n > 0 {
      XorEqual(r / 2, POLYNOMIAL);
      XorWord(r / 2, POLYNOMIAL);
      StepsReachZero(Step(r), n - 1);
    }
  }

  lemma StepsInjective(a: nat, b: nat, n: nat)
    requires a < 0x1_0000 && b < 0x1_0000
    requires Steps(a, n) == Steps(b, n)
    ensures a == b
  {
    StepsLinear(a, b, n);
    XorEqual(Steps(a, n), Steps(b, n));
    XorWord(a, b);
    StepsReachZero(Xor(a, b), n);
    XorEqual(a, b);
  }

  // ---------------------------------------------------------------------------
  // Feeding single bits, least significant bit of each byte first
  // ---------------------------------------------------------------------------

  function FeedBit(r: nat, bit: bool): nat {
    Step(Xor(r, BitValue(bit)))
  }

  function FeedBits(r: nat, bits: seq<bool>): nat
    decreases |bits|
  {
    if bits == [] then r else FeedBits(FeedBit(r, bits[0]), bits[1..])
  }

  lemma {:induction false} FeedBitsAppend(r: nat, a: seq<bool>, b: seq<bool>)
    ensures FeedBits(r, a + b) == FeedBits(FeedBits(r, a), b)
    decreases |a|
  {
    if a == [] {
      assert a + b == b;
    } else {
      assert (a + b)[1..] == a[1..] + b;
      FeedBitsAppend(FeedBit(r, a[0]), a[1..], b);
    }
  }

  lemma StepPeelsLowBit(r: nat, w: nat)
    ensures Step(Xor(r, w)) == Xor(FeedBit(r, w % 2 == 1), w / 2)
  {
    var low, rest := w % 2, 2 * (w / 2);
    XorLowBit(w);
    XorAssociates(r, low, rest);
    StepLinear(Xor(r, low), rest);
    assert Step(rest) == w / 2;
  }

  /** XORing a word in at once equals feeding its bits, up to the bits not yet fed. */
  lemma {:induction false} StepsFeedBits(r: nat, w: nat, n: nat)
    ensures Steps(Xor(r, w), n) == Xor(FeedBits(r, NatBits(w, n)), ShiftRight(w, n))
    decreases n
  {
    if n > 0 {
      StepPeelsLowBit(r, w);
      StepsFeedBits(FeedBit(r, w % 2 == 1), w / 2, n - 1);
      assert NatBits(w, n)[1..] == NatBits(w / 2, n - 1);
    }
  }

  lemma StepsFeedWord(r: nat, w: nat, n: nat)
    requires w < Power2(n)
    ensures Steps(Xor(r, w), n) == FeedBits(r, NatBits(w, n))
  {
    StepsFeedBits(r, w, n);
    ShiftRightSmall(w, n);
    XorZero(FeedBits(r, NatBits(w, n)));
  }

  /** The byte loop is the bit-serial register. */
  lemma {:induction false} FeedIsFeedBits(r: nat, data: seq<byte>)
    ensures Feed(r, data) == FeedBits(r, Bits(data))
    decreases |data|
  {
    if data != [] {
      Power2Values();
      StepsFeedWord(r, data[0] as nat, 8);
      FeedIsFeedBits(FeedByte(r, data[0]), data[1..]);
      FeedBitsAppend(r, NatBits(data[0] as nat, 8), Bits(data[1..]));
    }
  }

  lemma {:induction false} FeedAppend(r: nat, a: seq<byte>, b: seq<byte>)
    ensures Feed(r, a + b) == Feed(Feed(r, a), b)
    decreases |a|
  {
    if a == [] {
      assert a + b == b;
    } else {
      assert (a + b)[1..] == a[1..] + b;
      FeedAppend(FeedByte(r, a[0]), a[1..], b);
    }
  }

  /** Superposition: an error pattern moves the register by its own residue. */
  lemma {:induction false} FeedBitsSuperpose(r: nat, q: nat, s: seq<bool>, e: seq<bool>)
    requires |s| == |e|
    ensures FeedBits(Xor(r, q), XorBits(s, e)) == Xor(FeedBits(r, s), FeedBits(q, e))
    decreases |s|
  {
    if s != [] {
      var t := XorBits(s, e);
      assert t[1..] == XorBits(s[1..], e[1..]);
      var u, v := BitValue(s[0]), BitValue(e[0]);
      XorUnfold(u, v);
      assert Xor(u, v) == BitValue(t[0]);
      XorSwap(r, q, u, v);
      StepLinear(Xor(r, u), Xor(q, v));
      FeedBitsSuperpose(FeedBit(r, s[0]), FeedBit(q, e[0]), s[1..], e[1..]);
    }
  }

  lemma {:induction false} FeedZeros(r: nat, n: nat)
    ensures FeedBits(r, Zeros(n)) == Steps(r, n)
    decreases n
  {
    if n > 0 {
      assert Zeros(n)[1..] == Zeros(n - 1);
      XorZero(r);
      FeedZeros(Step(r), n - 1);
    }
  }

  /** At most sixteen bits clear the register exactly when they spell its content, low bit first. */
  lemma BitsClearRegister(r: nat, w: nat, n: nat)
    requires n <= 16 && w < Power2(n) && r < 0x1_0000
    ensures FeedBits(r, NatBits(w, n)) == 0 <==> r == w
  {
    StepsFeedWord(r, w, n);
    Power2AtMostWord(n);
    XorWord(r, w);
    StepsReachZero(Xor(r, w), n);
    XorEqual(r, w);
  }

  // ---------------------------------------------------------------------------
  // Parity: both factors of feedback keep it
  // ---------------------------------------------------------------------------

  lemma PolynomialParity()
    ensures OddParity(POLYNOMIAL)
  {
    Power2Values();
    var rest := 5 * Power2(12);
    assert POLYNOMIAL == 1 + 2 * rest;
    ParityScale(5, 12);
    assert !OddParity(5);
  }

  lemma StepParity(r: nat)
    ensures OddParity(Step(r)) == OddParity(r)
  {
    StepIsXor(r);
    XorParity(r / 2, Feedback(r));
    PolynomialParity();
  }

  lemma {:induction false} StepsParity(r: nat, n: nat)
    ensures OddParity(Steps(r, n)) == OddParity(r)
    decreases n
  {
    if n > 0 {
      StepParity(r);
      StepsParity(Step(r), n - 1);
    }
  }

  /** The register's parity counts every one fed in. */
  lemma {:induction false} FeedBitsParity(r: nat, bits: seq<bool>)
    ensures OddParity(FeedBits(r, bits)) == (OddParity(r) != OddOnes(bits))
    decreases |bits|
  {
    if bits != [] {
      var x := Xor(r, BitValue(bits[0]));
      XorParity(r, BitValue(bits[0]));
      assert OddParity(BitValue(bits[0])) == bits[0];
      StepParity(x);
      FeedBitsParity(Step(x), bits[1..]);
    }
  }
}
