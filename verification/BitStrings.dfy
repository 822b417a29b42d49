/** Bit strings of naturals and of byte strings, least significant bit of each byte first. */
module BitStrings {
  import opened BitwiseXor
  import opened Bytes

  function BitValue(bit: bool): nat {
    if bit then 1 else 0
  }

  function BitsValue(bits: seq<bool>): (v: nat) {
    if bits == [] then 0 else BitValue(bits[0]) + 2 * BitsValue(bits[1..])
  }

  lemma {:induction false} BitsValueBound(bits: seq<bool>)
    ensures BitsValue(bits) < Power2(|bits|)
    ensures BitsValue(bits) == 0 <==> true !in bits
    decreases |bits|
  {
    if bits != [] {
      BitsValueBound(bits[1..]);
      assert bits == [bits[0]] + bits[1..];
    }
  }

  lemma {:induction false} BitsValueRoundTrip(bits: seq<bool>)
    ensures NatBits(BitsValue(bits), |bits|) == bits
    decreases |bits|
  {
    if bits != [] {
      BitsValueRoundTrip(bits[1..]);
    }
  }

  /** The transmitted bit order of a byte string. */
  function Bits(data: seq<byte>): (s: seq<bool>)
    ensures |s| == 8 * |data|
  {
    if data == [] then [] else NatBits(data[0] as nat, 8) + Bits(data[1..])
  }

  lemma {:induction false} BitsOfByte(data: seq<byte>, j: nat, k: nat)
    requires j < |data| && k < 8
    ensures Bits(data)[8 * j + k] == NatBits(data[j] as nat, 8)[k]
    decreases j
  {
    if j > 0 {
      BitsOfByte(data[1..], j - 1, k);
    }
  }

  lemma BitsIndex(data: seq<byte>, i: nat)
    requires i < 8 * |data|
    ensures Bits(data)[i] == NatBits(data[i / 8] as nat, 8)[i % 8]
  {
    BitsOfByte(data, i / 8, i % 8);
  }

  lemma {:induction false} BitsInjective(a: seq<byte>, b: seq<byte>)
    requires Bits(a) == Bits(b)
    ensures a == b
    decreases |a|
  {
    assert |a| == |b|;
    if a != [] {
      Power2Values();
      assert NatBits(a[0] as nat, 8) == Bits(a)[..8] == Bits(b)[..8] == NatBits(b[0] as nat, 8);
      NatBitsInjective(a[0] as nat, b[0] as nat, 8);
      assert Bits(a[1..]) == Bits(a)[8..] == Bits(b)[8..] == Bits(b[1..]);
      BitsInjective(a[1..], b[1..]);
      assert a == [a[0]] + a[1..];
    }
  }
}
