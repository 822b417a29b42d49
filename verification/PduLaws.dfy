/** What decoding and re-encoding preserve. */
module PduLaws {
  import opened Bytes
  import opened Coils
  import opened Pdu

  // ---------------------------------------------------------------------------
  // Field groups
  // ---------------------------------------------------------------------------

  lemma WordsRoundTrip(a: int, b: int, rest: seq<byte>)
    requires IsU16(a) && IsU16(b)
    ensures DecodeWords(EncodeWords(a, b).value + rest) == Ok((a, b))
  {
    var s := BigEndian(a) + BigEndian(b) + rest;
    assert s[..2] == BigEndian(a) && s[2..4] == BigEndian(b);
    BigEndianRoundTrip(a);
    BigEndianRoundTrip(b);
    assert s == EncodeWords(a, b).value + rest;
  }

  lemma WordsAlone(a: int, b: int)
    requires IsU16(a) && IsU16(b)
    ensures DecodeWords(EncodeWords(a, b).value) == Ok((a, b))
  {
    WordsRoundTrip(a, b, []);
    assert EncodeWords(a, b).value + [] == EncodeWords(a, b).value;
  }

  lemma CountedRoundTrip(data: seq<byte>)
    requires IsByte(|data|)
    ensures DecodeCounted(EncodeCounted(data).value) == Ok(data)
  {
    var payload := EncodeCounted(data).value;
    assert payload[0] as int == |data| && payload[1..] == data;
    assert data[..|data|] == data;
  }

  lemma MultipleRoundTrip(address: int, count: int, data: seq<byte>)
    requires EncodeMultiple(address, count, data).Ok?
    ensures DecodeMultiple(EncodeMultiple(address, count, data).value) == Ok((address, count, data))
  {
    var head, counted := EncodeWords(address, count).value, EncodeCounted(data).value;
    var payload := head + counted;
    WordsRoundTrip(address, count, counted);
    assert payload[4..] == counted && payload[5..] == counted[1..] == data;
    assert payload[4] as int == |data| && data[..|data|] == data;
  }

  // ---------------------------------------------------------------------------
  // Requests
  // ---------------------------------------------------------------------------

  /** What the wire keeps of a body: coil flags become words, register values lose high bits. */
  function WireRequest(body: RequestBody): RequestBody {
    match body
    case WriteSingleCoil(a, coil) => WriteSingleCoil(a, Word(CoilWord(coil)))
    case WriteSingleRegister(a, v) => WriteSingleRegister(a, v % 0x1_0000)
    case WriteMultipleRegisters(a, vs) => WriteMultipleRegisters(a, MaskRegisters(vs))
    case _ => body
  }

  predicate KindMatchesCode(body: RequestBody) {
    body.RawRequest? ==> !IsRegistered(body.code)
  }

  lemma RequestBodySurvives(body: RequestBody)
    requires EncodeRequestBody(body).Ok? && KindMatchesCode(body)
    ensures DecodeRequestBody(RequestCode(body), EncodeRequestBody(body).value) == Ok(WireRequest(body))
  {
    match body
    case WriteMultipleCoils(a, coils) =>
      MultipleRoundTrip(a, |coils|, PackCoils(coils));
      UnpackInvertsPack(coils);
    case WriteMultipleRegisters(a, vs) =>
      MultipleRoundTrip(a, |vs|, RegisterBytes(vs));
      assert RegisterBytes(vs)[..2 * |vs|] == RegisterBytes(vs);
      RegistersRoundTrip(vs);
    case WriteSingleCoil(a, coil) => WordsAlone(a, CoilWord(coil));
    case WriteSingleRegister(a, v) => WordsAlone(a, v % 0x1_0000);
    case ReadCoils(a, q) => WordsAlone(a, q);
    case ReadDiscreteInputs(a, q) => WordsAlone(a, q);
    case ReadHoldingRegisters(a, q) => WordsAlone(a, q);
    case ReadInputRegisters(a, q) => WordsAlone(a, q);
    case RawRequest(_, _) =>
  }

  /** Every request that encodes decodes to what the wire keeps of it. */
  lemma RequestSurvives(m: Request)
    requires RequestToAdu(m).Ok? && KindMatchesCode(m.body)
    ensures RequestFromAdu(RequestToAdu(m).value) == Ok(Request(m.unit, WireRequest(m.body)))
  {
    var adu, payload := RequestToAdu(m).value, EncodeRequestBody(m.body).value;
    assert adu[2..] == payload;
    RequestBodySurvives(m.body);
  }

  predicate CanonicalRequest(m: Request) {
    IsByte(m.unit) && CanonicalRequestBody(m.body)
  }

  /** The field ranges a body must respect to be encodable without loss. */
  predicate CanonicalRequestBody(body: RequestBody) {
    match body
    case WriteSingleCoil(a, coil) => IsU16(a) && coil.Word? && IsU16(coil.word)
    case WriteSingleRegister(a, v) => IsU16(a) && IsU16(v)
    case WriteMultipleCoils(a, coils) => IsU16(a) && |coils| <= 2040
    case WriteMultipleRegisters(a, vs) => IsU16(a) && |vs| <= 127 && forall i | 0 <= i < |vs| :: IsU16(vs[i])
    case RawRequest(_, code) => IsByte(code) && !IsRegistered(code)
    case ReadCoils(a, q) => IsU16(a) && IsU16(q)
    case ReadDiscreteInputs(a, q) => IsU16(a) && IsU16(q)
    case ReadHoldingRegisters(a, q) => IsU16(a) && IsU16(q)
    case ReadInputRegisters(a, q) => IsU16(a) && IsU16(q)
  }

  lemma CanonicalRequestEncodes(m: Request)
    requires CanonicalRequest(m)
    ensures RequestToAdu(m).Ok? && KindMatchesCode(m.body) && WireRequest(m.body) == m.body
  {
    match m.body
    case WriteMultipleCoils(a, coils) =>
      PackedBits(coils);
    case WriteMultipleRegisters(a, vs) =>
      assert MaskRegisters(vs) == vs;
    case _ =>
  }

  lemma DecodedRequestCanonical(adu: seq<byte>)
    requires RequestFromAdu(adu).Ok?
    ensures CanonicalRequest(RequestFromAdu(adu).value)
  {
  }

  /** A request comes back from the wire unchanged exactly when its fields are canonical. */
  lemma RequestRoundTrip(m: Request)
    ensures RequestToAdu(m).Ok? && RequestFromAdu(RequestToAdu(m).value) == Ok(m) <==> CanonicalRequest(m)
  {
    if CanonicalRequest(m) {
      CanonicalRequestEncodes(m);
      RequestSurvives(m);
    } else if RequestToAdu(m).Ok? && RequestFromAdu(RequestToAdu(m).value) == Ok(m) {
      DecodedRequestCanonical(RequestToAdu(m).value);
      assert false;
    }
  }

  /** A request that can arrive in an MBAP frame, whose length field has 16 bits. */
  predicate Receivable(m: Request) {
    CanonicalRequest(m) && (m.body.RawRequest? ==> IsU16(|m.body.payload| + 2))
  }

  ghost predicate ArrivesAs(adu: seq<byte>, m: Request) {
    IsU16(|adu|) && RequestFromAdu(adu) == Ok(m)
  }

  /** Exactly the requests that some ADU of a possible length decodes to. */
  lemma ReceivableExactly(m: Request)
    ensures Receivable(m) <==> exists adu :: ArrivesAs(adu, m)
  {
    if Receivable(m) {
      RequestRoundTrip(m);
      CanonicalLength(m);
      assert ArrivesAs(RequestToAdu(m).value, m);
    }
    if adu :| ArrivesAs(adu, m) {
      DecodedRequestCanonical(adu);
    }
  }

  lemma CanonicalLength(m: Request)
    requires Receivable(m) && RequestToAdu(m).Ok?
    ensures IsU16(|RequestToAdu(m).value|)
  {
  }

  lemma MultipleBodiesShrink(adu: seq<byte>)
    requires RequestFromAdu(adu).Ok?
    requires var body := RequestFromAdu(adu).value.body;
             (body.WriteMultipleCoils? || body.WriteMultipleRegisters?) && EncodeRequestBody(body).Ok?
    ensures |EncodeRequestBody(RequestFromAdu(adu).value.body).value| + 2 <= |adu|
  {
    var body := RequestFromAdu(adu).value.body;
    var data := DecodeMultiple(adu[2..]).value.2;
    match body
    case WriteMultipleCoils(a, coils) =>
      PackedBits(coils);
      assert CoilBytes(|coils|) <= |data|;
    case WriteMultipleRegisters(a, vs) =>
      assert |RegisterBytes(vs)| <= |data|;
  }

  /** Whatever the gateway accepts it can forward, in no more bytes and with the same meaning. */
  lemma RequestReencodes(adu: seq<byte>)
    requires RequestFromAdu(adu).Ok?
    ensures var out := RequestToAdu(RequestFromAdu(adu).value);
            out.Ok? && |out.value| <= |adu| && RequestFromAdu(out.value) == RequestFromAdu(adu)
  {
    var m := RequestFromAdu(adu).value;
    DecodedRequestCanonical(adu);
    RequestRoundTrip(m);
    if m.body.WriteMultipleCoils? || m.body.WriteMultipleRegisters? {
      MultipleBodiesShrink(adu);
    }
  }

  /** Rewriting the unit id changes the first byte of the frame and nothing else. */
  lemma WithUnitChangesFirstByte(m: Request, unit: int)
    requires RequestToAdu(m).Ok?
    ensures RequestToAdu(m.(unit := unit)) ==
            if IsByte(unit) then Ok([unit as byte] + RequestToAdu(m).value[1..]) else Err(OutOfRange)
  {
    var payload := EncodeRequestBody(m.body).value;
    var code := RequestCode(m.body) as byte;
    assert RequestToAdu(m).value[1..] == [code] + payload;
    if IsByte(unit) {
      assert [unit as byte] + ([code] + payload) == [unit as byte, code] + payload;
    }
  }

  // ---------------------------------------------------------------------------
  // Responses
  // ---------------------------------------------------------------------------

  function WireResponse(body: ResponseBody): ResponseBody {
    match body
    case HoldingRegistersRead(vs) => HoldingRegistersRead(MaskRegisters(vs))
    case InputRegistersRead(vs) => InputRegistersRead(MaskRegisters(vs))
    case CoilWritten(a, v) => CoilWritten(a, v % 0x1_0000)
    case RegisterWritten(a, v) => RegisterWritten(a, v % 0x1_0000)
    case ExceptionResponse(baseCode, code) => ExceptionResponse(ExceptionFunction(baseCode) - 0x80, code)
    case _ => body
  }

  predicate ResponseKindMatchesCode(body: ResponseBody) {
    body.RawResponse? ==> !IsRegistered(body.code) && body.code < 0x80
  }

  lemma ResponseBodySurvives(body: ResponseBody)
    requires EncodeResponseBody(body).Ok? && ResponseKindMatchesCode(body) && IsByte(ResponseCode(body))
    ensures DecodeResponseBody(ResponseCode(body), EncodeResponseBody(body).value) == Ok(WireResponse(body))
  {
    match body
    case CoilsRead(bits) => CountedRoundTrip(bits);
    case DiscreteInputsRead(bits) => CountedRoundTrip(bits);
    case HoldingRegistersRead(vs) =>
      CountedRoundTrip(RegisterBytes(vs));
      RegistersRoundTrip(vs);
    case InputRegistersRead(vs) =>
      CountedRoundTrip(RegisterBytes(vs));
      RegistersRoundTrip(vs);
    case CoilWritten(a, v) => WordsAlone(a, v % 0x1_0000);
    case RegisterWritten(a, v) => WordsAlone(a, v % 0x1_0000);
    case CoilsWritten(a, q) => WordsAlone(a, q);
    case RegistersWritten(a, q) => WordsAlone(a, q);
    case ExceptionResponse(_, _) =>
    case RawResponse(_, _) =>
  }

  lemma ResponseSurvives(m: Response)
    requires ResponseToAdu(m).Ok? && ResponseKindMatchesCode(m.body)
    ensures ResponseFromAdu(ResponseToAdu(m).value) == Ok(Response(m.unit, WireResponse(m.body)))
  {
    var adu, payload := ResponseToAdu(m).value, EncodeResponseBody(m.body).value;
    assert adu[2..] == payload;
    ResponseBodySurvives(m.body);
  }

  predicate CanonicalResponse(m: Response) {
    IsByte(m.unit) && CanonicalResponseBody(m.body)
  }

  predicate CanonicalRegisters(vs: seq<int>) {
    |vs| <= 127 && forall i | 0 <= i < |vs| :: IsU16(vs[i])
  }

  predicate CanonicalResponseBody(body: ResponseBody) {
    match body
    case CoilsRead(bits) => |bits| <= 255
    case DiscreteInputsRead(bits) => |bits| <= 255
    case HoldingRegistersRead(vs) => CanonicalRegisters(vs)
    case InputRegistersRead(vs) => CanonicalRegisters(vs)
    case CoilWritten(a, v) => IsU16(a) && IsU16(v)
    case RegisterWritten(a, v) => IsU16(a) && IsU16(v)
    case CoilsWritten(a, q) => IsU16(a) && IsU16(q)
    case RegistersWritten(a, q) => IsU16(a) && IsU16(q)
    case ExceptionResponse(baseCode, code) => 0 <= baseCode < 0x80 && IsByte(code)
    case RawResponse(_, code) => 0 <= code < 0x80 && !IsRegistered(code)
  }

  lemma CanonicalResponseEncodes(m: Response)
    requires CanonicalResponse(m)
    ensures ResponseToAdu(m).Ok? && ResponseKindMatchesCode(m.body) && WireResponse(m.body) == m.body
  {
    match m.body
    case HoldingRegistersRead(vs) => assert MaskRegisters(vs) == vs;
    case InputRegistersRead(vs) => assert MaskRegisters(vs) == vs;
    case _ =>
  }

  lemma DecodedResponseCanonical(adu: seq<byte>)
    requires ResponseFromAdu(adu).Ok?
    ensures CanonicalResponse(ResponseFromAdu(adu).value)
  {
  }

  lemma ResponseRoundTrip(m: Response)
    ensures ResponseToAdu(m).Ok? && ResponseFromAdu(ResponseToAdu(m).value) == Ok(m) <==> CanonicalResponse(m)
  {
    if CanonicalResponse(m) {
      CanonicalResponseEncodes(m);
      ResponseSurvives(m);
    } else if ResponseToAdu(m).Ok? && ResponseFromAdu(ResponseToAdu(m).value) == Ok(m) {
      DecodedResponseCanonical(ResponseToAdu(m).value);
      assert false;
    }
  }

  lemma ResponseReencodes(adu: seq<byte>)
    requires ResponseFromAdu(adu).Ok?
    ensures var out := ResponseToAdu(ResponseFromAdu(adu).value);
            out.Ok? && |out.value| <= |adu| && ResponseFromAdu(out.value) == ResponseFromAdu(adu)
  {
    DecodedResponseCanonical(adu);
    ResponseRoundTrip(ResponseFromAdu(adu).value);
  }
}
