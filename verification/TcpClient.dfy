/** The blocking Modbus/TCP client: exact reads over a chunked socket, and one request exchange. */
module TcpClient {
  import opened Bytes
  import opened Mbap
  import opened Pdu
  import opened TransactionId

  /** What makes an exchange fail for good: a malformed frame, or the socket itself (reset, timeout). */
  datatype Failure = BadFrame(reason: MbapError) | SocketError

  datatype ClientError =
    | NotConnected
    | Unencodable(requestError: PduError)
    | Unframeable(frameError: MbapError)
    | PeerClosed
    | ExchangeFailed(failure: Failure)
    | TransactionMismatch
    | UndecodableResponse(responseError: PduError)

  /**
    * A socket: what the peer still sends, in arrival chunks; whether after that the socket breaks or the
    * peer just closes; whether sending fails.
    */
  class Socket {
    const breaks: bool
    const sendFails: bool
    var incoming: seq<seq<byte>>
    var sent: seq<byte>
    var open: bool

    constructor (incoming: seq<seq<byte>>, breaks: bool, sendFails: bool)
      ensures this.incoming == incoming && this.breaks == breaks && this.sendFails == sendFails
      ensures sent == [] && open
    {
      this.incoming, this.breaks, this.sendFails := incoming, breaks, sendFails;
      sent, open := [], true;
    }

    function Pending(): seq<byte>
      reads this
    {
      Concat(incoming)
    }

    method SendAll(data: seq<byte>) returns (ok: bool)
      modifies this`sent
      ensures ok == !sendFails
      ensures ok ==> sent == old(sent) + data
    {
      ok := !sendFails;
      sent := sent + data;
    }

    /** At most `limit` bytes; None when the socket raises, the empty string only when the peer has closed. */
    method Receive(limit: nat) returns (chunk: Option<seq<byte>>)
      requires limit > 0
      modifies this`incoming
      ensures old(Pending()) == [] ==> chunk == (if breaks then None else Some([])) && Pending() == []
      ensures old(Pending()) != [] ==>
                chunk.Some? && 0 < |chunk.value| <= limit && chunk.value + Pending() == old(Pending())
    {
      while incoming != [] && incoming[0] == []
        invariant Pending() == old(Pending())
        decreases |incoming|
      {
        incoming := incoming[1..];
      }
      if incoming == [] {
        return if breaks then None else Some([]);
      }
      var head, rest := incoming[0], incoming[1..];
      if |head| <= limit {
        chunk, incoming := Some(head), rest;
      } else {
        chunk, incoming := Some(head[..limit]), [head[limit..]] + rest;
        assert incoming[1..] == rest;
        assert head[..limit] + (head[limit..] + Concat(rest)) == head + Concat(rest);
      }
    }
  }

  /** Why a read comes up short. */
  function Shortage(breaks: bool): ClientError {
    if breaks then ExchangeFailed(SocketError) else PeerClosed
  }

  /** The next `size` bytes, however they arrive; an error exactly when the stream ends first. */
  method ReadExact(socket: Socket, size: int) returns (r: Result<seq<byte>, ClientError>)
    modifies socket`incoming
    ensures var s, n := old(socket.Pending()), if size <= 0 then 0 else size;
            if n <= |s|
            then r == Ok(s[..n]) && socket.Pending() == s[n..]
            else r == Err(Shortage(socket.breaks)) && socket.Pending() == []
  {
    if size <= 0 {
      return Ok([]);
    }
    ghost var s := socket.Pending();
    var data: seq<byte> := [];
    while |data| < size
      invariant |data| <= size && data + socket.Pending() == s
      decreases size - |data|
    {
      var chunk := socket.Receive(size - |data|);
      if chunk.None? || chunk.value == [] {
        return Err(Shortage(chunk.None?));
      }
      assert data + (chunk.value + socket.Pending()) == data + chunk.value + socket.Pending();
      data := data + chunk.value;
    }
    assert s[..size] == data && s[size..] == socket.Pending();
    r := Ok(data);
  }

  /** The reply the stream holds for transaction `tid`. */
  function ReplyIn(s: seq<byte>, breaks: bool, tid: int): Result<Response, ClientError> {
    if |s| < 7 then Err(Shortage(breaks))
    else
      var length := FromBigEndian(s[4..6]);
      var n := if length == 0 then 0 else length - 1;
      if |s| < 7 + n then Err(Shortage(breaks))
      else
        match ParseMbapFrame(s[..7], s[7..7 + n])
        case Err(e) => Err(ExchangeFailed(BadFrame(e)))
        case Ok(reply) =>
          if reply.0 != tid then Err(TransactionMismatch)
          else
            match ResponseFromAdu(reply.1)
            case Err(e) => Err(UndecodableResponse(e))
            case Ok(response) => Ok(response)
  }

  /**
    * The socket is closed exactly when the frame is malformed or the socket itself fails. A peer that
    * closes, a mismatched id and an undecodable response leave it open.
    */
  method AwaitReply(socket: Socket, tid: int) returns (r: Result<Response, ClientError>)
    requires socket.open
    modifies socket`incoming, socket`open
    ensures r == ReplyIn(old(socket.Pending()), socket.breaks, tid)
    ensures socket.open <==> !(r.Err? && r.error.ExchangeFailed?)
  {
    ghost var s := socket.Pending();
    var header := ReadExact(socket, 7);
    if header.Err? {
      socket.open := !header.error.ExchangeFailed?;
      return Err(header.error);
    }
    assert header.value[4..6] == s[4..6];
    var length := FromBigEndian(header.value[4..6]);
    var payload := ReadExact(socket, length - 1);
    if payload.Err? {
      socket.open := !payload.error.ExchangeFailed?;
      return Err(payload.error);
    }
    assert payload.value == s[7..7 + |payload.value|];
    match ParseMbapFrame(header.value, payload.value)
    case Err(e) =>
      socket.open := false;
      r := Err(ExchangeFailed(BadFrame(e)));
    case Ok(reply) =>
      if reply.0 != tid {
        return Err(TransactionMismatch);
      }
      match ResponseFromAdu(reply.1) {
        case Err(e) => r := Err(UndecodableResponse(e));
        case Ok(response) => r := Ok(response);
      }
  }

  /** The frame of a request, if it has one. */
  function FrameOf(request: Request, tid: int): Option<seq<byte>> {
    match RequestToAdu(request)
    case Err(_) => None
    case Ok(adu) =>
      match BuildMbapFrame(tid, adu)
      case Err(_) => None
      case Ok(frame) => Some(frame)
  }

  /** A request has a frame unless it does not encode or is too long; the frame carries the id and the ADU. */
  lemma RequestFramed(request: Request, tid: int)
    requires 0 <= tid <= 0xFFFF
    ensures FrameOf(request, tid).Some? <==> RequestToAdu(request).Ok? && |RequestToAdu(request).value| <= 0xFFFF
    ensures FrameOf(request, tid).Some? ==>
              var frame, adu := FrameOf(request, tid).value, RequestToAdu(request).value;
              && |frame| == 6 + |adu| && frame[6..] == adu
              && 0x100 * frame[0] as int + frame[1] as int == tid && frame[2] == 0 && frame[3] == 0
              && 0x100 * frame[4] as int + frame[5] as int == |adu|
  {
    if RequestToAdu(request).Ok? {
      FrameLayout(tid, RequestToAdu(request).value);
    }
  }

  /** A whole exchange: the next id, the framed request, the reply. */
  method Execute(socket: Socket, ids: ClientIds, request: Request) returns (r: Result<Response, ClientError>)
    requires ids.Valid()
    modifies socket`incoming, socket`open, socket`sent, ids
    ensures ids.Valid()
    ensures !old(socket.open) ==>
              r == Err(NotConnected) && !socket.open && socket.sent == old(socket.sent) && ids.issued == old(ids.issued)
    ensures old(socket.open) ==>
              var tid := NthId(old(ids.issued) + 1);
              && ids.issued == old(ids.issued) + 1
              && (RequestToAdu(request).Err? ==> r == Err(Unencodable(RequestToAdu(request).error)))
              && (RequestToAdu(request).Ok? && FrameOf(request, tid).None? ==> r == Err(Unframeable(FieldOverflow)))
              && (FrameOf(request, tid).Some? ==>
                    r == if socket.sendFails then Err(ExchangeFailed(SocketError))
                         else ReplyIn(old(socket.Pending()), socket.breaks, tid))
              && (socket.open <==> !(r.Err? && r.error.ExchangeFailed?))
              && (FrameOf(request, tid).Some? && !socket.sendFails ==>
                    socket.sent == old(socket.sent) + FrameOf(request, tid).value)
              && (FrameOf(request, tid).None? ==> socket.sent == old(socket.sent))
  {
    if !socket.open {
      return Err(NotConnected);
    }
    var tid := ids.Next();
    var adu := RequestToAdu(request);
    if adu.Err? {
      return Err(Unencodable(adu.error));
    }
    var frame := BuildMbapFrame(tid, adu.value);
    if frame.Err? {
      return Err(Unframeable(frame.error));
    }
    var ok := socket.SendAll(frame.value);
    if !ok {
      socket.open := false;
      return Err(ExchangeFailed(SocketError));
    }
    r := AwaitReply(socket, tid);
  }

  /** As many bytes as header and length field ask for, after a zero length field the seven header bytes. */
  predicate Complete(s: seq<byte>) {
    |s| >= 7 && |s| >= 6 + 0x100 * s[4] as int + s[5] as int
  }

  /**
    * What the stream is taken for: too short a stream for its end, a complete one with a wrong protocol id
    * or a zero length for a malformed frame, one for another id for a mismatch, and else for the response
    * that the announced bytes decode to.
    */
  lemma ReplyInExactly(s: seq<byte>, breaks: bool, tid: int)
    ensures !Complete(s) ==> ReplyIn(s, breaks, tid) == Err(if breaks then ExchangeFailed(SocketError) else PeerClosed)
    ensures Complete(s) ==>
              var r, length := ReplyIn(s, breaks, tid), 0x100 * s[4] as int + s[5] as int;
              if s[2] != 0 || s[3] != 0 || length == 0
              then r.Err? && r.error.ExchangeFailed? && r.error.failure.BadFrame?
              else if 0x100 * s[0] as int + s[1] as int != tid then r == Err(TransactionMismatch)
              else match ResponseFromAdu(s[6..6 + length])
                   case Ok(m) => r == Ok(m)
                   case Err(e) => r == Err(UndecodableResponse(e))
  {
    if Complete(s) {
      var length := 0x100 * s[4] as int + s[5] as int;
      var header := s[..7];
      assert header[..2] == s[..2] && header[2..4] == s[2..4] && header[4..6] == s[4..6];
      if length > 0 {
        assert [s[6]] + s[7..6 + length] == s[6..6 + length];
      }
    }
  }

  /** A reply framed by any of the gateway's encoders is read back by the client it was meant for. */
  lemma ReplyUnderstood(tid: int, replyTid: int, m: Response, rest: seq<byte>, breaks: bool)
    requires ResponseToAdu(m).Ok? && ResponseFromAdu(ResponseToAdu(m).value) == Ok(m)
    requires FrontendFrame(replyTid, 0, ResponseToAdu(m).value).Ok?
    ensures ReplyIn(FrontendFrame(replyTid, 0, ResponseToAdu(m).value).value + rest, breaks, tid)
         == if replyTid == tid then Ok(m) else Err(TransactionMismatch)
  {
    var adu := ResponseToAdu(m).value;
    var frame := FrontendFrame(replyTid, 0, adu).value;
    var s := frame + rest;
    EncodersAgree(replyTid, adu);
    HeaderFields(replyTid, 0, |adu|, adu + rest);
    assert s == FrontendHeader(replyTid, 0, |adu|).value + (adu + rest);
    assert s[..7] + s[7..6 + |adu|] == frame;
    ParseInvertsBuild(s[..7], s[7..6 + |adu|], replyTid, adu);
  }
}
