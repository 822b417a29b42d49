/** Coil packing: eight coils a byte, first coil in the lowest bit. */
module Coils {
  import opened BitStrings
  import opened BitwiseXor
  import opened Bytes

  function Minimum(a: nat, b: nat): nat {
    if a < b then a else b
  }

  function CoilBytes(n: nat): nat {
    (n + 7) / 8
  }

  /** At most `quantity` coils, fewer when the data runs out. */
  function UnpackCoils(data: seq<byte>, quantity: nat): seq<bool> {
    Bits(data)[..Minimum(quantity, 8 * |data|)]
  }

  function PackCoils(values: seq<bool>): (data: seq<byte>)
    decreases |values|
  {
    if values == [] then []
    else
      var n := Minimum(8, |values|);
      [PackByte(values[..n])] + PackCoils(values[n..])
  }

  function PackByte(values: seq<bool>): byte
    requires |values| <= 8
  {
    BitsValueBound(values);
    Power2UpTo(|values|, 8);
    Power2Values();
    BitsValue(values) as byte
  }

  lemma {:induction false} Power2UpTo(m: nat, n: nat)
    requires m <= n
    ensures Power2(m) <= Power2(n)
    decreases n
  {
    if m < n {
      Power2UpTo(m, n - 1);
    }
  }

  lemma {:induction false} NatBitsPadded(v: nat, m: nat, n: nat)
    requires v < Power2(m)
    ensures NatBits(v, m + n) == NatBits(v, m) + Zeros(n)
    decreases m
  {
    if m > 0 {
      NatBitsPadded(v / 2, m - 1, n);
      var low := [v % 2 == 1];
      assert NatBits(v, m + n) == low + (NatBits(v / 2, m - 1) + Zeros(n));
      assert low + (NatBits(v / 2, m - 1) + Zeros(n)) == (low + NatBits(v / 2, m - 1)) + Zeros(n);
    } else {
      NatBitsZero(n);
      assert NatBits(v, 0) + Zeros(n) == Zeros(n);
    }
  }

  lemma PackByteBits(values: seq<bool>)
    requires |values| <= 8
    ensures NatBits(PackByte(values) as nat, 8) == values + Zeros(8 - |values|)
  {
    BitsValueBound(values);
    BitsValueRoundTrip(values);
    NatBitsPadded(BitsValue(values), |values|, 8 - |values|);
  }

  /** The packed bytes carry the coils in order, then zero padding up to a whole byte. */
  lemma {:induction false} PackedBits(values: seq<bool>)
    ensures |PackCoils(values)| == CoilBytes(|values|)
    ensures Bits(PackCoils(values)) == values + Zeros(8 * CoilBytes(|values|) - |values|)
    decreases |values|
  {
    if values != [] {
      var n := Minimum(8, |values|);
      PackByteBits(values[..n]);
      PackedBits(values[n..]);
      assert values == values[..n] + values[n..];
    }
  }

  /** Unpacking inverts packing. */
  lemma UnpackInvertsPack(values: seq<bool>)
    ensures UnpackCoils(PackCoils(values), |values|) == values
  {
    PackedBits(values);
  }

  /** Packing what was unpacked keeps the first ceil(q/8) bytes and clears the bits from q on. */
  lemma PackAfterUnpack(data: seq<byte>, quantity: nat)
    requires quantity <= 8 * |data|
    ensures var p := PackCoils(UnpackCoils(data, quantity));
            && |p| == CoilBytes(quantity) <= |data|
            && forall i | 0 <= i < 8 * |p| :: Bits(p)[i] == (i < quantity && Bits(data)[i])
  {
    PackedBits(UnpackCoils(data, quantity));
  }

  // ---------------------------------------------------------------------------
  // The loops
  // ---------------------------------------------------------------------------

  /** `b | (1 << k)`. */
  function SetBit(b: byte, k: nat): byte
    requires k < 8
  {
    PackByte(NatBits(b as nat, 8)[k := true])
  }

  lemma SetBitInString(s: seq<byte>, i: nat)
    requires i < 8 * |s|
    ensures Bits(s[i / 8 := SetBit(s[i / 8], i % 8)]) == Bits(s)[i := true]
  {
    var j, k := i / 8, i % 8;
    var t := s[j := SetBit(s[j], k)];
    PackByteBits(NatBits(s[j] as nat, 8)[k := true]);
    assert NatBits(t[j] as nat, 8) == NatBits(s[j] as nat, 8)[k := true];
    forall m | 0 <= m < 8 * |s|
      ensures Bits(t)[m] == Bits(s)[i := true][m]
    {
      BitsIndex(s, m);
      BitsIndex(t, m);
      assert m / 8 == j && m % 8 == k ==> m == i;
    }
  }

  lemma {:induction false} BlankBits(n: nat)
    ensures Bits(seq(n, i => 0 as byte)) == Zeros(8 * n)
  {
    if n > 0 {
      BlankBits(n - 1);
      assert seq(n, i => 0 as byte)[1..] == seq(n - 1, i => 0 as byte);
      NatBitsZero(8);
    }
  }

  lemma CoilStored(s: seq<byte>, values: seq<bool>, idx: nat)
    requires idx < |values| <= 8 * |s|
    requires Bits(s) == values[..idx] + Zeros(8 * |s| - idx)
    ensures var t := if values[idx] then s[idx / 8 := SetBit(s[idx / 8], idx % 8)] else s;
            Bits(t) == values[..idx + 1] + Zeros(8 * |s| - idx - 1)
  {
    if values[idx] {
      SetBitInString(s, idx);
    }
    assert values[..idx + 1] == values[..idx] + [values[idx]];
  }

  lemma PackedUniquely(data: seq<byte>, values: seq<bool>)
    requires |data| == CoilBytes(|values|) && Bits(data) == values + Zeros(8 * |data| - |values|)
    ensures data == PackCoils(values)
  {
    PackedBits(values);
    BitsInjective(data, PackCoils(values));
  }

  method PackCoilsLoop(values: seq<bool>) returns (data: seq<byte>)
    ensures data == PackCoils(values)
  {
    var count := CoilBytes(|values|);
    var result := new byte[count](i => 0);
    BlankBits(count);
    assert result[..] == seq(count, i => 0 as byte);
    for idx := 0 to |values|
      invariant Bits(result[..]) == values[..idx] + Zeros(8 * count - idx)
    {
      CoilStored(result[..], values, idx);
      if values[idx] {
        result[idx / 8] := SetBit(result[idx / 8], idx % 8);
      }
    }
    data := result[..];
    assert values[..|values|] == values;
    PackedUniquely(data, values);
  }

  method UnpackCoilsLoop(data: seq<byte>, quantity: nat) returns (result: seq<bool>)
    ensures result == UnpackCoils(data, quantity)
  {
    result := [];
    for idx := 0 to quantity
      invariant idx <= 8 * |data| && result == Bits(data)[..idx]
    {
      var byteIndex := idx / 8;
      if byteIndex >= |data| {
        break;
      }
      BitsIndex(data, idx);
      result := result + [NatBits(data[byteIndex] as nat, 8)[idx % 8]];
    }
  }
}
