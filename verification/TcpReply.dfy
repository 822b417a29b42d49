/** How an exchange of the TCP backend reads its reply off the byte stream. */
module TcpReply {
  import opened Bytes
  import opened Pdu

  /** A reply as the device sent it: header fields, the bytes behind them, and the request it answers. */
  datatype Reply = Reply(answers: nat, tid: int, pid: int, length: int, adu: seq<byte>)

  predicate HeaderFits(reply: Reply) {
    IsU16(reply.tid) && IsU16(reply.pid) && IsU16(reply.length)
  }

  /** The length field tells the truth. */
  predicate WellFramed(reply: Reply) {
    HeaderFits(reply) && reply.length == |reply.adu|
  }

  function ReplyBytes(reply: Reply): (s: seq<byte>)
    requires HeaderFits(reply)
    ensures |s| == 6 + |reply.adu|
  {
    BigEndian(reply.tid) + BigEndian(reply.pid) + BigEndian(reply.length) + reply.adu
  }

  /** The checks an exchange makes on a reply; the protocol id is not among them. */
  function AcceptReply(reply: Reply, tid: int): Option<Response> {
    if reply.tid != tid || reply.length < 1 then None
    else
      match ResponseFromAdu(reply.adu)
      case Ok(response) => Some(response)
      case Err(_) => None
  }

  /** The response read from the front of a stream and how many bytes that takes, or None on any failure. */
  function Reading(s: seq<byte>, tid: int): (r: Option<(Response, nat)>)
    ensures r.Some? ==> r.value.1 <= |s|
  {
    if |s| < 6 || FromBigEndian(s[..2]) != tid then None
    else
      var length := FromBigEndian(s[4..6]);
      if length < 1 || |s| < 6 + length then None
      else
        match ResponseFromAdu(s[6..6 + length])
        case Ok(response) => Some((response, 6 + length))
        case Err(_) => None
  }

  /** A connection's stream: the bytes that arrive before the timeout or the end. */
  class DeviceStream {
    var incoming: seq<byte>

    constructor (bytes: seq<byte>)
      ensures incoming == bytes
    {
      incoming := bytes;
    }

    method ReadExactly(n: nat) returns (data: Option<seq<byte>>)
      modifies this
      ensures n <= |old(incoming)| ==> data == Some(old(incoming)[..n]) && incoming == old(incoming)[n..]
      ensures n > |old(incoming)| ==> data == None
    {
      if n > |incoming| {
        return None;
      }
      data, incoming := Some(incoming[..n]), incoming[n..];
    }
  }

  /** Header, unit id, payload: three exact reads, with the checks in between. */
  method ReadResponse(stream: DeviceStream, tid: int) returns (r: Option<Response>)
    modifies stream
    ensures var read := Reading(old(stream.incoming), tid);
            if read.None? then r == None
            else r == Some(read.value.0) && stream.incoming == old(stream.incoming)[read.value.1..]
  {
    ghost var s := stream.incoming;
    var header := stream.ReadExactly(6);
    if header.None? {
      return None;
    }
    assert header.value[..2] == s[..2] && header.value[4..6] == s[4..6];
    if FromBigEndian(header.value[..2]) != tid {
      return None;
    }
    var length := FromBigEndian(header.value[4..6]);
    if length < 1 {
      return None;
    }
    var unit := stream.ReadExactly(1);
    if unit.None? {
      return None;
    }
    var payload := stream.ReadExactly(length - 1);
    if payload.None? {
      return None;
    }
    assert unit.value + payload.value == s[6..6 + length];
    match ResponseFromAdu(unit.value + payload.value)
    case Ok(response) => r := Some(response);
    case Err(_) => r := None;
  }

  /** Accepted are exactly the bytes with the right id and as many bytes as announced that decode. */
  lemma ReadingExactly(s: seq<byte>, tid: int, m: Response, n: nat)
    ensures Reading(s, tid) == Some((m, n)) <==>
              && |s| >= 6 && 0x100 * s[0] as int + s[1] as int == tid
              && n == 6 + 0x100 * s[4] as int + s[5] as int && 7 <= n <= |s|
              && ResponseFromAdu(s[6..n]) == Ok(m)
  {
    if |s| >= 6 {
      assert s[..2] == [s[0], s[1]] && s[4..6] == [s[4], s[5]];
    }
  }

  lemma HeaderReads(reply: Reply, rest: seq<byte>)
    requires HeaderFits(reply)
    ensures var s := ReplyBytes(reply) + rest;
            && FromBigEndian(s[..2]) == reply.tid && FromBigEndian(s[4..6]) == reply.length
            && s[6..] == reply.adu + rest
  {
    var s := ReplyBytes(reply) + rest;
    assert s[..2] == BigEndian(reply.tid) && s[4..6] == BigEndian(reply.length);
    BigEndianRoundTrip(reply.tid);
    BigEndianRoundTrip(reply.length);
  }

  /** A well-framed reply is accepted or refused on its own bytes alone, and taken whole when accepted. */
  lemma WellFramedReplyRead(reply: Reply, rest: seq<byte>, tid: int)
    requires WellFramed(reply)
    ensures Reading(ReplyBytes(reply) + rest, tid) ==
            match AcceptReply(reply, tid) case None => None case Some(m) => Some((m, |ReplyBytes(reply)|))
  {
    var s := ReplyBytes(reply) + rest;
    HeaderReads(reply, rest);
    assert s[6..6 + |reply.adu|] == s[6..][..|reply.adu|] == reply.adu;
  }

  /** What an accepted reply leaves on the stream is what followed it exactly when it was well framed. */
  lemma AlignedExactly(reply: Reply, rest: seq<byte>, tid: int)
    requires HeaderFits(reply) && Reading(ReplyBytes(reply) + rest, tid).Some?
    ensures (ReplyBytes(reply) + rest)[Reading(ReplyBytes(reply) + rest, tid).value.1..] == rest <==> WellFramed(reply)
  {
    var s := ReplyBytes(reply) + rest;
    HeaderReads(reply, rest);
    var n := Reading(s, tid).value.1;
    assert n == 6 + reply.length && |s[n..]| == |s| - n;
    if WellFramed(reply) {
      assert s[n..] == rest;
    }
  }

  /** The bytes of several replies in a row. */
  function WireBytes(wire: seq<Reply>): seq<byte>
    requires forall i | 0 <= i < |wire| :: HeaderFits(wire[i])
  {
    if wire == [] then [] else ReplyBytes(wire[0]) + WireBytes(wire[1..])
  }
}
