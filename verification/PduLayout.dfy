/** Which byte strings the messages are: codes, positions and lengths in plain numbers, in both directions. */
module PduLayout {
  import opened BitStrings
  import opened BitwiseXor
  import opened Bytes
  import opened Coils
  import opened Pdu

  /** The 16-bit number at a position, high byte first. */
  function WordAt(s: seq<byte>, i: nat): int
    requires i + 2 <= |s|
  {
    0x100 * s[i] as int + s[i + 1] as int
  }

  /** Bit `i` of the data that starts at a position, least significant bit of each byte first. */
  predicate BitAt(s: seq<byte>, start: nat, i: nat)
    requires start + i / 8 < |s|
  {
    s[start + i / 8] as nat / Power2(i % 8) % 2 == 1
  }

  // ---------------------------------------------------------------------------
  // Bits and words of a run of bytes
  // ---------------------------------------------------------------------------

  lemma HalvedDivision(v: nat, p: nat)
    requires p > 0
    ensures v / (2 * p) == v / 2 / p
  {
    var q, r := v / 2 / p, v / 2 % p;
    assert v / 2 == p * q + r;
    assert v == 2 * p * q + (2 * r + v % 2) && 0 <= 2 * r + v % 2 < 2 * p;
    QuotientIs(v, 2 * p, q, 2 * r + v % 2);
  }

  lemma QuotientIs(v: nat, d: nat, q: nat, r: nat)
    requires d > 0 && v == d * q + r && r < d
    ensures v / d == q
  {
    var k, rest := v / d, v % d;
    assert v == d * k + rest;
    if k < q {
      MultiplesApart(d, k, q);
    } else if q < k {
      MultiplesApart(d, q, k);
    }
  }

  lemma {:induction false} MultiplesApart(d: nat, a: nat, b: nat)
    requires a < b
    ensures d * a + d <= d * b
    decreases b
  {
    assert d * (b - 1) == d * b - d;
    if a < b - 1 {
      MultiplesApart(d, a, b - 1);
    }
  }

  lemma {:induction false} NatBitAt(v: nat, n: nat, i: nat)
    requires i < n
    ensures NatBits(v, n)[i] == (v / Power2(i) % 2 == 1)
    decreases i
  {
    if i > 0 {
      NatBitAt(v / 2, n - 1, i - 1);
      HalvedDivision(v, Power2(i - 1));
    }
  }

  lemma DataBit(s: seq<byte>, start: nat, i: nat)
    requires start <= |s| && i < 8 * |s[start..]|
    ensures BitAt(s, start, i) == Bits(s[start..])[i]
  {
    BitsIndex(s[start..], i);
    NatBitAt(s[start..][i / 8] as nat, 8, i % 8);
  }

  lemma {:induction false} RegisterAt(values: seq<int>, i: nat)
    requires i < |values|
    ensures WordAt(RegisterBytes(values), 2 * i) == values[i] % 0x1_0000
    decreases i
  {
    var head, tail := BigEndian(values[0] % 0x1_0000), RegisterBytes(values[1..]);
    if i > 0 {
      RegisterAt(values[1..], i - 1);
      assert (head + tail)[2 * i] == tail[2 * (i - 1)] && (head + tail)[2 * i + 1] == tail[2 * (i - 1) + 1];
    }
  }

  lemma {:induction false} RegisterFrom(data: seq<byte>, i: nat)
    requires |data| % 2 == 0 && i < |data| / 2
    ensures RegistersOf(data)[i] == WordAt(data, 2 * i)
    decreases i
  {
    if i > 0 {
      RegisterFrom(data[2..], i - 1);
    }
  }

  predicate IsRead(body: RequestBody) {
    body.ReadCoils? || body.ReadDiscreteInputs? || body.ReadHoldingRegisters? || body.ReadInputRegisters?
  }

  // ---------------------------------------------------------------------------
  // Encoded requests
  // ---------------------------------------------------------------------------

  /** Which requests encode at all. */
  lemma RequestEncodesExactly(m: Request)
    ensures RequestToAdu(m).Ok? <==>
              && 0 <= m.unit <= 0xFF
              && (if m.body.RawRequest? then 0 <= m.body.code <= 0xFF else 0 <= m.body.address <= 0xFFFF)
              && (IsRead(m.body) ==> 0 <= m.body.quantity <= 0xFFFF)
              && (m.body.WriteMultipleCoils? ==> |m.body.coils| <= 2040)
              && (m.body.WriteMultipleRegisters? ==> |m.body.registers| <= 127)
  {
    if m.body.WriteMultipleCoils? {
      PackedBits(m.body.coils);
    }
  }

  /** The function code of every request, as the second byte. */
  lemma RequestCodes(m: Request)
    requires RequestToAdu(m).Ok?
    ensures var adu := RequestToAdu(m).value;
            && |adu| >= 2 && adu[0] as int == m.unit
            && (m.body.RawRequest? ==> adu[1] as int == m.body.code && adu[2..] == m.body.payload)
            && (!m.body.RawRequest? ==>
                  && (m.body.ReadCoils? <==> adu[1] == 1)
                  && (m.body.ReadDiscreteInputs? <==> adu[1] == 2)
                  && (m.body.ReadHoldingRegisters? <==> adu[1] == 3)
                  && (m.body.ReadInputRegisters? <==> adu[1] == 4)
                  && (m.body.WriteSingleCoil? <==> adu[1] == 5)
                  && (m.body.WriteSingleRegister? <==> adu[1] == 6)
                  && (m.body.WriteMultipleCoils? <==> adu[1] == 15)
                  && (m.body.WriteMultipleRegisters? <==> adu[1] == 16))
  {
  }

  /** Address and second word; then, in a multiple write, a byte count and that many bytes. */
  lemma RequestLayout(m: Request)
    requires RequestToAdu(m).Ok? && !m.body.RawRequest?
    ensures var adu := RequestToAdu(m).value;
            && |adu| >= 6 && WordAt(adu, 2) == m.body.address
            && (IsRead(m.body) ==> WordAt(adu, 4) == m.body.quantity)
            && (m.body.WriteSingleRegister? ==> WordAt(adu, 4) == m.body.value % 0x1_0000)
            && (m.body.WriteMultipleCoils? ==> WordAt(adu, 4) == |m.body.coils|)
            && (m.body.WriteMultipleRegisters? ==> WordAt(adu, 4) == |m.body.registers|)
            && (|adu| > 6 <==> m.body.WriteMultipleCoils? || m.body.WriteMultipleRegisters?)
            && (|adu| > 6 ==> adu[6] as int == |adu| - 7)
  {
  }

  /** A single coil is switched on by FF 00, off by 00 00; a caller's own word goes out modulo 2^16. */
  lemma SingleCoilLayout(m: Request)
    requires RequestToAdu(m).Ok? && m.body.WriteSingleCoil?
    ensures var adu, coil := RequestToAdu(m).value, m.body.coil;
            && |adu| == 6
            && (coil.Flag? ==> adu[4..] == if coil.on then [0xFF, 0x00] else [0x00, 0x00])
            && (coil.Word? ==> WordAt(adu, 4) == coil.word % 0x1_0000)
  {
  }

  lemma CoilsLayout(m: Request)
    requires RequestToAdu(m).Ok? && m.body.WriteMultipleCoils?
    ensures var adu, coils := RequestToAdu(m).value, m.body.coils;
            |adu| == 7 + (|coils| + 7) / 8 && forall i | 0 <= i < |coils| :: BitAt(adu, 7, i) == coils[i]
  {
    var adu, coils := RequestToAdu(m).value, m.body.coils;
    PackedBits(coils);
    assert adu[7..] == PackCoils(coils);
    forall i | 0 <= i < |coils|
      ensures BitAt(adu, 7, i) == coils[i]
    {
      DataBit(adu, 7, i);
    }
  }

  lemma RegistersLayout(m: Request)
    requires RequestToAdu(m).Ok? && m.body.WriteMultipleRegisters?
    ensures var adu, values := RequestToAdu(m).value, m.body.registers;
            |adu| == 7 + 2 * |values| && forall i | 0 <= i < |values| :: WordAt(adu, 7 + 2 * i) == values[i] % 0x1_0000
  {
    var adu, values := RequestToAdu(m).value, m.body.registers;
    assert adu[7..] == RegisterBytes(values);
    forall i | 0 <= i < |values|
      ensures WordAt(adu, 7 + 2 * i) == values[i] % 0x1_0000
    {
      RegisterAt(values, i);
    }
  }

  // ---------------------------------------------------------------------------
  // Decoded requests
  // ---------------------------------------------------------------------------

  /** Which byte strings are accepted as requests; surplus bytes do not matter. */
  lemma RequestAcceptedExactly(adu: seq<byte>)
    ensures RequestFromAdu(adu).Ok? <==>
              && |adu| >= 2
              && (1 <= adu[1] <= 6 ==> |adu| >= 6)
              && (adu[1] == 15 || adu[1] == 16 ==> |adu| >= 7)
              && (adu[1] == 16 ==> 2 * WordAt(adu, 4) <= adu[6] as int && 2 * WordAt(adu, 4) <= |adu| - 7)
  {
    if |adu| >= 7 {
      AduWords(adu);
    }
  }

  /** The two words behind the code, as the decoder cuts them out. */
  lemma AduWords(adu: seq<byte>)
    requires |adu| >= 6
    ensures DecodeWords(adu[2..]) == Ok((WordAt(adu, 2), WordAt(adu, 4)))
  {
    assert adu[2..][..2] == adu[2..4] && adu[2..][2..4] == adu[4..6];
  }

  /** What an accepted request is, by its code: the converse of the layout. */
  lemma DecodedRequestCodes(adu: seq<byte>)
    requires RequestFromAdu(adu).Ok?
    ensures var m := RequestFromAdu(adu).value;
            && |adu| >= 2 && m.unit == adu[0] as int
            && (m.body.ReadCoils? <==> adu[1] == 1)
            && (m.body.ReadDiscreteInputs? <==> adu[1] == 2)
            && (m.body.ReadHoldingRegisters? <==> adu[1] == 3)
            && (m.body.ReadInputRegisters? <==> adu[1] == 4)
            && (m.body.WriteSingleCoil? <==> adu[1] == 5)
            && (m.body.WriteSingleRegister? <==> adu[1] == 6)
            && (m.body.WriteMultipleCoils? <==> adu[1] == 15)
            && (m.body.WriteMultipleRegisters? <==> adu[1] == 16)
            && (m.body.RawRequest? ==> m.body.code == adu[1] as int && m.body.payload == adu[2..])
  {
  }

  lemma DecodedRequestLayout(adu: seq<byte>)
    requires RequestFromAdu(adu).Ok? && !RequestFromAdu(adu).value.body.RawRequest?
    ensures var body := RequestFromAdu(adu).value.body;
            && |adu| >= 6 && body.address == WordAt(adu, 2)
            && (IsRead(body) ==> body.quantity == WordAt(adu, 4))
            && (body.WriteSingleCoil? ==> body.coil == CoilValue.Word(WordAt(adu, 4)))
            && (body.WriteSingleRegister? ==> body.value == WordAt(adu, 4))
  {
    AduWords(adu);
  }

  /** As many coils as asked for, as announced by the byte count and as there are bytes for. */
  lemma DecodedCoils(adu: seq<byte>)
    requires RequestFromAdu(adu).Ok? && RequestFromAdu(adu).value.body.WriteMultipleCoils?
    ensures var coils := RequestFromAdu(adu).value.body.coils;
            && |adu| >= 7
            && |coils| <= WordAt(adu, 4) && |coils| <= 8 * adu[6] as int && |coils| <= 8 * (|adu| - 7)
            && (|coils| == WordAt(adu, 4) || |coils| == 8 * adu[6] as int || |coils| == 8 * (|adu| - 7))
            && forall i | 0 <= i < |coils| :: coils[i] == BitAt(adu, 7, i)
  {
    var coils := RequestFromAdu(adu).value.body.coils;
    AduWords(adu);
    assert adu[2..][5..] == adu[7..];
    var data := CountedBytes(adu[6], adu[7..]);
    assert coils == UnpackCoils(data, WordAt(adu, 4));
    forall i | 0 <= i < |coils|
      ensures coils[i] == BitAt(adu, 7, i)
    {
      DataBit(data, 0, i);
      assert data[0..] == data && data[i / 8] == adu[7 + i / 8];
    }
  }

  lemma DecodedRegisters(adu: seq<byte>)
    requires RequestFromAdu(adu).Ok? && RequestFromAdu(adu).value.body.WriteMultipleRegisters?
    ensures var values := RequestFromAdu(adu).value.body.registers;
            && |adu| >= 7 + 2 * |values| && |values| == WordAt(adu, 4)
            && forall i | 0 <= i < |values| :: values[i] == WordAt(adu, 7 + 2 * i)
  {
    var values := RequestFromAdu(adu).value.body.registers;
    AduWords(adu);
    assert adu[2..][5..] == adu[7..];
    var data := CountedBytes(adu[6], adu[7..])[..2 * WordAt(adu, 4)];
    assert values == RegistersOf(data);
    forall i | 0 <= i < |values|
      ensures values[i] == WordAt(adu, 7 + 2 * i)
    {
      RegisterFrom(data, i);
      assert data[2 * i] == adu[7 + 2 * i] && data[2 * i + 1] == adu[7 + 2 * i + 1];
    }
  }

  // ---------------------------------------------------------------------------
  // Encoded responses
  // ---------------------------------------------------------------------------

  predicate HasRegisters(body: ResponseBody) {
    body.HoldingRegistersRead? || body.InputRegistersRead?
  }

  /** Which responses encode at all. */
  lemma ResponseEncodesExactly(m: Response)
    ensures ResponseToAdu(m).Ok? <==>
              && 0 <= m.unit <= 0xFF
              && (m.body.CoilsRead? || m.body.DiscreteInputsRead? ==> |m.body.bits| <= 0xFF)
              && (HasRegisters(m.body) ==> |m.body.registers| <= 127)
              && (m.body.CoilWritten? || m.body.RegisterWritten? || m.body.CoilsWritten? || m.body.RegistersWritten? ==>
                    0 <= m.body.address <= 0xFFFF)
              && (m.body.CoilsWritten? || m.body.RegistersWritten? ==> 0 <= m.body.quantity <= 0xFFFF)
              && (m.body.ExceptionResponse? ==> 0 <= m.body.baseCode <= 0xFF && 0 <= m.body.exceptionCode <= 0xFF)
              && (m.body.RawResponse? ==> 0 <= m.body.code <= 0xFF)
  {
  }

  /** The function code of every response; an exception's has the top bit set. */
  lemma ResponseCodes(m: Response)
    requires ResponseToAdu(m).Ok?
    ensures var adu := ResponseToAdu(m).value;
            && |adu| >= 2 && adu[0] as int == m.unit
            && (m.body.RawResponse? ==> adu[1] as int == m.body.code && adu[2..] == m.body.payload)
            && (!m.body.RawResponse? ==>
                  && (m.body.CoilsRead? <==> adu[1] == 1)
                  && (m.body.DiscreteInputsRead? <==> adu[1] == 2)
                  && (m.body.HoldingRegistersRead? <==> adu[1] == 3)
                  && (m.body.InputRegistersRead? <==> adu[1] == 4)
                  && (m.body.CoilWritten? <==> adu[1] == 5)
                  && (m.body.RegisterWritten? <==> adu[1] == 6)
                  && (m.body.CoilsWritten? <==> adu[1] == 15)
                  && (m.body.RegistersWritten? <==> adu[1] == 16)
                  && (m.body.ExceptionResponse? <==> adu[1] >= 0x80))
            && (m.body.ExceptionResponse? ==>
                  |adu| == 3 && adu[1] as int % 0x80 == m.body.baseCode % 0x80 && adu[2] as int == m.body.exceptionCode)
  {
  }

  lemma ResponseLayout(m: Response)
    requires ResponseToAdu(m).Ok?
    ensures var adu := ResponseToAdu(m).value;
            && (m.body.CoilsRead? || m.body.DiscreteInputsRead? ==> adu[2..] == [|m.body.bits| as byte] + m.body.bits)
            && (m.body.CoilWritten? || m.body.RegisterWritten? ==>
                  |adu| == 6 && WordAt(adu, 2) == m.body.address && WordAt(adu, 4) == m.body.value % 0x1_0000)
            && (m.body.CoilsWritten? || m.body.RegistersWritten? ==>
                  |adu| == 6 && WordAt(adu, 2) == m.body.address && WordAt(adu, 4) == m.body.quantity)
  {
  }

  lemma RegistersReadLayout(m: Response)
    requires ResponseToAdu(m).Ok? && HasRegisters(m.body)
    ensures var adu, values := ResponseToAdu(m).value, m.body.registers;
            && |adu| == 3 + 2 * |values| && adu[2] as int == 2 * |values|
            && forall i | 0 <= i < |values| :: WordAt(adu, 3 + 2 * i) == values[i] % 0x1_0000
  {
    var adu, values := ResponseToAdu(m).value, m.body.registers;
    assert adu[3..] == RegisterBytes(values);
    forall i | 0 <= i < |values|
      ensures WordAt(adu, 3 + 2 * i) == values[i] % 0x1_0000
    {
      RegisterAt(values, i);
    }
  }

  // ---------------------------------------------------------------------------
  // Decoded responses
  // ---------------------------------------------------------------------------

  /** Bytes behind the byte count that are announced and there. */
  function Available(adu: seq<byte>): nat
    requires |adu| >= 3
  {
    if adu[2] as int <= |adu| - 3 then adu[2] as int else |adu| - 3
  }

  /** Which byte strings are accepted as responses. */
  lemma ResponseAcceptedExactly(adu: seq<byte>)
    ensures ResponseFromAdu(adu).Ok? <==>
              && |adu| >= 2
              && (adu[1] >= 0x80 || 1 <= adu[1] <= 4 ==> |adu| >= 3)
              && (adu[1] == 3 || adu[1] == 4 ==> Available(adu) % 2 == 0)
              && (adu[1] == 5 || adu[1] == 6 || adu[1] == 15 || adu[1] == 16 ==> |adu| >= 6)
  {
  }

  lemma DecodedResponseCodes(adu: seq<byte>)
    requires ResponseFromAdu(adu).Ok?
    ensures var m := ResponseFromAdu(adu).value;
            && |adu| >= 2 && m.unit == adu[0] as int
            && (m.body.CoilsRead? <==> adu[1] == 1)
            && (m.body.DiscreteInputsRead? <==> adu[1] == 2)
            && (m.body.HoldingRegistersRead? <==> adu[1] == 3)
            && (m.body.InputRegistersRead? <==> adu[1] == 4)
            && (m.body.CoilWritten? <==> adu[1] == 5)
            && (m.body.RegisterWritten? <==> adu[1] == 6)
            && (m.body.CoilsWritten? <==> adu[1] == 15)
            && (m.body.RegistersWritten? <==> adu[1] == 16)
            && (m.body.ExceptionResponse? <==> adu[1] >= 0x80)
            && (m.body.RawResponse? ==> m.body.code == adu[1] as int && m.body.payload == adu[2..])
  {
  }

  lemma DecodedResponseLayout(adu: seq<byte>)
    requires ResponseFromAdu(adu).Ok?
    ensures var body := ResponseFromAdu(adu).value.body;
            && (body.ExceptionResponse? ==>
                  |adu| >= 3 && body.baseCode == adu[1] as int - 0x80 && body.exceptionCode == adu[2] as int)
            && (body.CoilsRead? || body.DiscreteInputsRead? ==>
                  |adu| >= 3 && body.bits == adu[3..3 + Available(adu)])
            && (body.CoilWritten? || body.RegisterWritten? ==>
                  |adu| >= 6 && body.address == WordAt(adu, 2) && body.value == WordAt(adu, 4))
            && (body.CoilsWritten? || body.RegistersWritten? ==>
                  |adu| >= 6 && body.address == WordAt(adu, 2) && body.quantity == WordAt(adu, 4))
  {
    if |adu| >= 6 {
      AduWords(adu);
    }
  }

  lemma DecodedRegistersRead(adu: seq<byte>)
    requires ResponseFromAdu(adu).Ok? && HasRegisters(ResponseFromAdu(adu).value.body)
    ensures var values := ResponseFromAdu(adu).value.body.registers;
            && |adu| >= 3 && 2 * |values| == Available(adu)
            && forall i | 0 <= i < |values| :: values[i] == WordAt(adu, 3 + 2 * i)
  {
    var values := ResponseFromAdu(adu).value.body.registers;
    var data := adu[3..3 + Available(adu)];
    assert CountedBytes(adu[2], adu[2..][1..]) == data;
    forall i | 0 <= i < |values|
      ensures values[i] == WordAt(adu, 3 + 2 * i)
    {
      RegisterFrom(data, i);
      assert data[2 * i] == adu[3 + 2 * i] && data[2 * i + 1] == adu[3 + 2 * i + 1];
    }
  }
}
