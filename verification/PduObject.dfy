/** The request object of the gateway: a message plus the raw bytes it was parsed from or sent as. */
module PduObject {
  import opened Bytes
  import opened Pdu
  import opened PduLaws

  class RequestObject {
    var message: Request
    var rawPdu: Option<seq<byte>>
    var rawAdu: Option<seq<byte>>

    constructor (message: Request)
      ensures this.message == message && rawPdu == None && rawAdu == None
    {
      this.message, rawPdu, rawAdu := message, None, None;
    }

    /** Encodes and caches; nothing is cached unless the payload encodes. */
    method ToAdu() returns (r: Encoded)
      modifies this`rawPdu, this`rawAdu
      ensures r == RequestToAdu(message)
      ensures var payload := EncodeRequestBody(message.body);
              rawPdu == if payload.Ok? then Some(payload.value) else old(rawPdu)
      ensures rawAdu == if r.Ok? then Some(r.value) else old(rawAdu)
    {
      var payload := EncodeRequestBody(message.body);
      if payload.Err? {
        return Err(payload.error);
      }
      rawPdu := Some(payload.value);
      r := Frame(message.unit, RequestCode(message.body), payload.value);
      if r.Ok? {
        rawAdu := Some(r.value);
      }
    }

    /** A copy for another unit; its cached bytes are still the original's. */
    method WithUnit(unit: int) returns (clone: RequestObject)
      ensures fresh(clone) && clone.message == message.(unit := unit)
      ensures clone.rawPdu == rawPdu && clone.rawAdu == rawAdu
    {
      clone := new RequestObject(message.(unit := unit));
      clone.rawPdu, clone.rawAdu := rawPdu, rawAdu;
    }
  }

  /** Decode, rewrite the unit, encode: the bytes a backend sends for an accepted request. */
  method Forward(adu: seq<byte>, unit: int) returns (r: Encoded)
    ensures RequestFromAdu(adu).Ok? && IsByte(unit) ==>
              && r.Ok? && |r.value| <= |adu|
              && RequestFromAdu(r.value) == Ok(RequestFromAdu(adu).value.(unit := unit))
    ensures !(RequestFromAdu(adu).Ok? && IsByte(unit)) ==> r.Err?
  {
    var decoded := RequestFromAdu(adu);
    if decoded.Err? {
      return Err(decoded.error);
    }
    var request := new RequestObject(decoded.value);
    var routed := request.WithUnit(unit);
    r := routed.ToAdu();
    RequestReencodes(adu);
    WithUnitChangesFirstByte(decoded.value, unit);
    if IsByte(unit) {
      DecodedRequestCanonical(adu);
      RequestRoundTrip(decoded.value.(unit := unit));
    }
  }
}
