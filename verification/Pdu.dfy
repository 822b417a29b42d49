/** Modbus protocol data units: the eight supported functions, exceptions and raw messages. */
module Pdu {
  import opened Bytes
  import opened Coils

  datatype PduError = FrameTooShort | InvalidPayload | OutOfRange

  /** A single coil's value as the caller gave it: a flag, or the 16-bit word itself. */
  datatype CoilValue = Flag(on: bool) | Word(word: int)

  datatype RequestBody =
    | ReadCoils(address: int, quantity: int)
    | ReadDiscreteInputs(address: int, quantity: int)
    | ReadHoldingRegisters(address: int, quantity: int)
    | ReadInputRegisters(address: int, quantity: int)
    | WriteSingleCoil(address: int, coil: CoilValue)
    | WriteSingleRegister(address: int, value: int)
    | WriteMultipleCoils(address: int, coils: seq<bool>)
    | WriteMultipleRegisters(address: int, registers: seq<int>)
    | RawRequest(payload: seq<byte>, code: int)

  datatype ResponseBody =
    | CoilsRead(bits: seq<byte>)
    | DiscreteInputsRead(bits: seq<byte>)
    | HoldingRegistersRead(registers: seq<int>)
    | InputRegistersRead(registers: seq<int>)
    | CoilWritten(address: int, value: int)
    | RegisterWritten(address: int, value: int)
    | CoilsWritten(address: int, quantity: int)
    | RegistersWritten(address: int, quantity: int)
    | ExceptionResponse(baseCode: int, exceptionCode: int)
    | RawResponse(payload: seq<byte>, code: int)

  datatype Request = Request(unit: int, body: RequestBody)

  datatype Response = Response(unit: int, body: ResponseBody)

  type Encoded = Result<seq<byte>, PduError>

  predicate IsByte(v: int) {
    0 <= v < 0x100
  }

  predicate IsRegistered(code: int) {
    code in {1, 2, 3, 4, 5, 6, 15, 16}
  }

  // ---------------------------------------------------------------------------
  // Field groups
  // ---------------------------------------------------------------------------

  function EncodeWords(a: int, b: int): Encoded {
    if IsU16(a) && IsU16(b) then Ok(BigEndian(a) + BigEndian(b)) else Err(OutOfRange)
  }

  /** The first two fields; anything after them is ignored. */
  function DecodeWords(payload: seq<byte>): (r: Result<(int, int), PduError>)
    ensures r.Ok? ==> IsU16(r.value.0) && IsU16(r.value.1)
  {
    if |payload| < 4 then Err(InvalidPayload)
    else Ok((FromBigEndian(payload[..2]), FromBigEndian(payload[2..4])))
  }

  /** Register values, each masked to 16 bits. */
  function RegisterBytes(values: seq<int>): (s: seq<byte>)
    ensures |s| == 2 * |values|
  {
    if values == [] then [] else BigEndian(values[0] % 0x1_0000) + RegisterBytes(values[1..])
  }

  function RegistersOf(data: seq<byte>): (values: seq<int>)
    requires |data| % 2 == 0
    ensures |values| == |data| / 2
    ensures forall i | 0 <= i < |values| :: IsU16(values[i])
  {
    if data == [] then [] else [FromBigEndian(data[..2])] + RegistersOf(data[2..])
  }

  method EncodeRegistersLoop(values: seq<int>) returns (payload: seq<byte>)
    ensures payload == RegisterBytes(values)
  {
    payload := [];
    for i := 0 to |values|
      invariant payload + RegisterBytes(values[i..]) == RegisterBytes(values)
    {
      ghost var done, rest := payload, RegisterBytes(values[i + 1..]);
      assert values[i..][1..] == values[i + 1..];
      payload := payload + BigEndian(values[i] % 0x1_0000);
      assert done + (BigEndian(values[i] % 0x1_0000) + rest) == payload + rest;
    }
  }

  function MaskRegisters(values: seq<int>): (s: seq<int>)
    ensures |s| == |values|
  {
    seq(|values|, i requires 0 <= i < |values| => values[i] % 0x1_0000)
  }

  lemma {:induction false} RegistersRoundTrip(values: seq<int>)
    ensures RegistersOf(RegisterBytes(values)) == MaskRegisters(values)
    decreases |values|
  {
    if values != [] {
      var head, tail := BigEndian(values[0] % 0x1_0000), RegisterBytes(values[1..]);
      assert (head + tail)[..2] == head && (head + tail)[2..] == tail;
      RegistersRoundTrip(values[1..]);
    }
  }

  /** A length byte, then that many bytes. */
  function EncodeCounted(data: seq<byte>): Encoded {
    if IsByte(|data|) then Ok([|data| as byte] + data) else Err(OutOfRange)
  }

  /** As many bytes as announced, or as are there. */
  function CountedBytes(count: byte, rest: seq<byte>): (data: seq<byte>)
    ensures |data| <= count as int && |data| <= |rest|
  {
    if count as int <= |rest| then rest[..count] else rest
  }

  function DecodeCounted(payload: seq<byte>): (r: Result<seq<byte>, PduError>)
    ensures r.Ok? ==> |r.value| < 0x100 && |r.value| < |payload|
  {
    if payload == [] then Err(InvalidPayload) else Ok(CountedBytes(payload[0], payload[1..]))
  }

  // ---------------------------------------------------------------------------
  // Requests
  // ---------------------------------------------------------------------------

  function RequestCode(body: RequestBody): int {
    match body
    case ReadCoils(_, _) => 1
    case ReadDiscreteInputs(_, _) => 2
    case ReadHoldingRegisters(_, _) => 3
    case ReadInputRegisters(_, _) => 4
    case WriteSingleCoil(_, _) => 5
    case WriteSingleRegister(_, _) => 6
    case WriteMultipleCoils(_, _) => 15
    case WriteMultipleRegisters(_, _) => 16
    case RawRequest(_, code) => code
  }

  function CoilWord(coil: CoilValue): int {
    match coil
    case Flag(on) => if on then 0xFF00 else 0
    case Word(w) => w % 0x1_0000
  }

  function EncodeMultiple(address: int, count: int, data: seq<byte>): Encoded {
    var head :- EncodeWords(address, count);
    var counted :- EncodeCounted(data);
    Ok(head + counted)
  }

  function EncodeRequestBody(body: RequestBody): Encoded {
    match body
    case ReadCoils(a, q) => EncodeWords(a, q)
    case ReadDiscreteInputs(a, q) => EncodeWords(a, q)
    case ReadHoldingRegisters(a, q) => EncodeWords(a, q)
    case ReadInputRegisters(a, q) => EncodeWords(a, q)
    case WriteSingleCoil(a, coil) => EncodeWords(a, CoilWord(coil))
    case WriteSingleRegister(a, v) => EncodeWords(a, v % 0x1_0000)
    case WriteMultipleCoils(a, coils) => EncodeMultiple(a, |coils|, PackCoils(coils))
    case WriteMultipleRegisters(a, vs) => EncodeMultiple(a, |vs|, RegisterBytes(vs))
    case RawRequest(payload, _) => Ok(payload)
  }

  /** Address, quantity and the counted data of the two multiple-write requests. */
  function DecodeMultiple(payload: seq<byte>): (r: Result<(int, int, seq<byte>), PduError>)
    ensures r.Ok? ==> IsU16(r.value.0) && IsU16(r.value.1) && |r.value.2| < 0x100
    ensures r.Ok? ==> |r.value.2| + 5 <= |payload|
  {
    if |payload| < 5 then Err(InvalidPayload)
    else
      var words := DecodeWords(payload).value;
      Ok((words.0, words.1, CountedBytes(payload[4], payload[5..])))
  }

  function DecodeRequestBody(code: int, payload: seq<byte>): Result<RequestBody, PduError> {
    match code
    case 1 => var w :- DecodeWords(payload); Ok(ReadCoils(w.0, w.1))
    case 2 => var w :- DecodeWords(payload); Ok(ReadDiscreteInputs(w.0, w.1))
    case 3 => var w :- DecodeWords(payload); Ok(ReadHoldingRegisters(w.0, w.1))
    case 4 => var w :- DecodeWords(payload); Ok(ReadInputRegisters(w.0, w.1))
    case 5 => var w :- DecodeWords(payload); Ok(WriteSingleCoil(w.0, Word(w.1)))
    case 6 => var w :- DecodeWords(payload); Ok(WriteSingleRegister(w.0, w.1))
    case 15 =>
      var m :- DecodeMultiple(payload);
      Ok(WriteMultipleCoils(m.0, UnpackCoils(m.2, m.1)))
    case 16 =>
      var m :- DecodeMultiple(payload);
      if |m.2| < 2 * m.1 then Err(InvalidPayload)
      else Ok(WriteMultipleRegisters(m.0, RegistersOf(m.2[..2 * m.1])))
    case _ => Ok(RawRequest(payload, code))
  }

  /** Unit id, function code, payload. */
  function Frame(unit: int, code: int, payload: seq<byte>): Encoded {
    if IsByte(unit) && IsByte(code) then Ok([unit as byte, code as byte] + payload) else Err(OutOfRange)
  }

  function RequestToAdu(m: Request): Encoded {
    var payload :- EncodeRequestBody(m.body);
    Frame(m.unit, RequestCode(m.body), payload)
  }

  function RequestFromAdu(adu: seq<byte>): Result<Request, PduError> {
    if |adu| < 2 then Err(FrameTooShort)
    else
      var body :- DecodeRequestBody(adu[1] as int, adu[2..]);
      Ok(Request(adu[0] as int, body))
  }

  // ---------------------------------------------------------------------------
  // Responses
  // ---------------------------------------------------------------------------

  /** `baseCode | 0x80`. */
  function ExceptionFunction(baseCode: int): int {
    if baseCode % 0x100 >= 0x80 then baseCode else baseCode + 0x80
  }

  function ResponseCode(body: ResponseBody): int {
    match body
    case CoilsRead(_) => 1
    case DiscreteInputsRead(_) => 2
    case HoldingRegistersRead(_) => 3
    case InputRegistersRead(_) => 4
    case CoilWritten(_, _) => 5
    case RegisterWritten(_, _) => 6
    case CoilsWritten(_, _) => 15
    case RegistersWritten(_, _) => 16
    case ExceptionResponse(baseCode, _) => ExceptionFunction(baseCode)
    case RawResponse(_, code) => code
  }

  function EncodeResponseBody(body: ResponseBody): Encoded {
    match body
    case CoilsRead(bits) => EncodeCounted(bits)
    case DiscreteInputsRead(bits) => EncodeCounted(bits)
    case HoldingRegistersRead(vs) => EncodeCounted(RegisterBytes(vs))
    case InputRegistersRead(vs) => EncodeCounted(RegisterBytes(vs))
    case CoilWritten(a, v) => EncodeWords(a, v % 0x1_0000)
    case RegisterWritten(a, v) => EncodeWords(a, v % 0x1_0000)
    case CoilsWritten(a, q) => EncodeWords(a, q)
    case RegistersWritten(a, q) => EncodeWords(a, q)
    case ExceptionResponse(_, code) => if IsByte(code) then Ok([code as byte]) else Err(OutOfRange)
    case RawResponse(payload, _) => Ok(payload)
  }

  function DecodeRegisters(payload: seq<byte>): (r: Result<seq<int>, PduError>)
    ensures r.Ok? ==> |r.value| < 0x80 && 2 * |r.value| < |payload|
    ensures r.Ok? ==> forall i | 0 <= i < |r.value| :: IsU16(r.value[i])
  {
    var data :- DecodeCounted(payload);
    if |data| % 2 != 0 then Err(InvalidPayload) else Ok(RegistersOf(data))
  }

  function DecodeResponseBody(code: int, payload: seq<byte>): Result<ResponseBody, PduError> {
    if code >= 0x80 then
      if payload == [] then Err(InvalidPayload) else Ok(ExceptionResponse(code - 0x80, payload[0] as int))
    else
      match code
      case 1 => var data :- DecodeCounted(payload); Ok(CoilsRead(data))
      case 2 => var data :- DecodeCounted(payload); Ok(DiscreteInputsRead(data))
      case 3 => var vs :- DecodeRegisters(payload); Ok(HoldingRegistersRead(vs))
      case 4 => var vs :- DecodeRegisters(payload); Ok(InputRegistersRead(vs))
      case 5 => var w :- DecodeWords(payload); Ok(CoilWritten(w.0, w.1))
      case 6 => var w :- DecodeWords(payload); Ok(RegisterWritten(w.0, w.1))
      case 15 => var w :- DecodeWords(payload); Ok(CoilsWritten(w.0, w.1))
      case 16 => var w :- DecodeWords(payload); Ok(RegistersWritten(w.0, w.1))
      case _ => Ok(RawResponse(payload, code))
  }

  function ResponseToAdu(m: Response): Encoded {
    var payload :- EncodeResponseBody(m.body);
    Frame(m.unit, ResponseCode(m.body), payload)
  }

  function ResponseFromAdu(adu: seq<byte>): Result<Response, PduError> {
    if |adu| < 2 then Err(FrameTooShort)
    else
      var body :- DecodeResponseBody(adu[1] as int, adu[2..]);
      Ok(Response(adu[0] as int, body))
  }
}
