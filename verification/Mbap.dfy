/** Modbus/TCP framing: the three encoders, the client's parser and the frontend's stream decoder. */
module Mbap {
  import opened Bytes
  import opened Pdu

  datatype MbapError = ShortAdu | FieldOverflow | BadHeader | UnsupportedProtocol | LengthMismatch

  /** The first six header bytes, as the gateway's frontends write them. */
  function FrontendHeader(tid: int, pid: int, aduLength: int): Result<seq<byte>, MbapError> {
    if IsU16(tid) && IsU16(pid) && IsU16(aduLength)
    then Ok(BigEndian(tid) + BigEndian(pid) + BigEndian(aduLength))
    else Err(FieldOverflow)
  }

  function FrontendFrame(tid: int, pid: int, adu: seq<byte>): Result<seq<byte>, MbapError> {
    var header :- FrontendHeader(tid, pid, |adu|);
    Ok(header + adu)
  }

  /** The TCP backend splits the unit id off and puts it back behind the header. */
  function BackendFrame(tid: int, adu: seq<byte>): Result<seq<byte>, MbapError>
    requires adu != []
  {
    var payload := adu[1..];
    var length := |payload| + 1;
    if IsU16(tid) && IsU16(length)
    then Ok(BigEndian(tid) + [0, 0] + BigEndian(length) + [adu[0]] + payload)
    else Err(FieldOverflow)
  }

  function BuildMbapFrame(tid: int, adu: seq<byte>): Result<seq<byte>, MbapError> {
    if |adu| < 2 then Err(ShortAdu)
    else
      var pdu := adu[1..];
      var length := |pdu| + 1;
      if IsU16(tid) && IsU16(length)
      then Ok(BigEndian(tid) + [0, 0] + BigEndian(length) + [adu[0]] + pdu)
      else Err(FieldOverflow)
  }

  function ParseMbapFrame(header: seq<byte>, pdu: seq<byte>): Result<(int, seq<byte>), MbapError> {
    if |header| != 7 then Err(BadHeader)
    else if FromBigEndian(header[2..4]) != 0 then Err(UnsupportedProtocol)
    else if FromBigEndian(header[4..6]) - 1 != |pdu| then Err(LengthMismatch)
    else Ok((FromBigEndian(header[..2]), [header[6]] + pdu))
  }

  /** All three encoders write the same bytes, and fail on the same inputs. */
  lemma EncodersAgree(tid: int, adu: seq<byte>)
    requires |adu| >= 2
    ensures FrontendFrame(tid, 0, adu) == BackendFrame(tid, adu) == BuildMbapFrame(tid, adu)
  {
    assert [adu[0]] + adu[1..] == adu;
    if IsU16(tid) && IsU16(|adu|) {
      assert BigEndian(0) == [0, 0];
      var header := BigEndian(tid) + [0, 0] + BigEndian(|adu|);
      assert header + [adu[0]] + adu[1..] == header + adu;
    }
  }

  lemma HeaderFields(tid: int, pid: int, length: int, rest: seq<byte>)
    requires IsU16(tid) && IsU16(pid) && IsU16(length)
    ensures var s := FrontendHeader(tid, pid, length).value + rest;
            && FromBigEndian(s[..2]) == tid && FromBigEndian(s[2..4]) == pid && FromBigEndian(s[4..6]) == length
            && s[6..] == rest
  {
    var s := FrontendHeader(tid, pid, length).value + rest;
    assert s[..2] == BigEndian(tid) && s[2..4] == BigEndian(pid) && s[4..6] == BigEndian(length);
    BigEndianRoundTrip(tid);
    BigEndianRoundTrip(pid);
    BigEndianRoundTrip(length);
  }

  /** The header in plain bytes: id, protocol zero and length, high byte first, in front of the ADU. */
  lemma FrameLayout(tid: int, adu: seq<byte>)
    requires |adu| >= 2
    ensures BuildMbapFrame(tid, adu).Ok? <==> 0 <= tid <= 0xFFFF && |adu| <= 0xFFFF
    ensures BuildMbapFrame(tid, adu).Ok? ==>
              var s := BuildMbapFrame(tid, adu).value;
              && |s| == 6 + |adu| && s[6..] == adu
              && 0x100 * s[0] as int + s[1] as int == tid && s[2] == 0 && s[3] == 0
              && 0x100 * s[4] as int + s[5] as int == |adu|
  {
    if BuildMbapFrame(tid, adu).Ok? {
      assert BuildMbapFrame(tid, adu).value[6..] == [adu[0]] + adu[1..] == adu;
    }
  }

  /** The parser accepts exactly what the builder writes, and gives back its arguments. */
  lemma ParseInvertsBuild(header: seq<byte>, pdu: seq<byte>, tid: int, adu: seq<byte>)
    requires |adu| >= 2
    ensures ParseMbapFrame(header, pdu) == Ok((tid, adu))
            <==> |header| == 7 && BuildMbapFrame(tid, adu) == Ok(header + pdu)
  {
    if ParseMbapFrame(header, pdu) == Ok((tid, adu)) {
      FromBigEndianRoundTrip(header[..2]);
      FromBigEndianRoundTrip(header[2..4]);
      FromBigEndianRoundTrip(header[4..6]);
      assert adu[0] == header[6] && adu[1..] == pdu;
      assert BigEndian(0) == [0, 0];
      assert header == header[..2] + header[2..4] + header[4..6] + [header[6]];
      assert BuildMbapFrame(tid, adu) == Ok(header + pdu);
    }
    if |header| == 7 && BuildMbapFrame(tid, adu) == Ok(header + pdu) {
      EncodersAgree(tid, adu);
      HeaderFields(tid, 0, |adu|, adu);
      var s := header + pdu;
      assert header[..2] == s[..2] && header[2..4] == s[2..4] && header[4..6] == s[4..6];
      assert s[6..] == [header[6]] + pdu;
    }
  }

  // ---------------------------------------------------------------------------
  // The frontend's stream decoder
  // ---------------------------------------------------------------------------

  /** Between two reads the handler waits for a header or for the rest of a frame. */
  datatype Phase = AwaitHeader | AwaitPayload(tid: int, pid: int, unit: byte, remaining: nat)

  /** A request handed on to the bus. */
  datatype Indication = Indication(tid: int, request: Request)

  datatype Decoder = Decoder(phase: Phase, buffer: seq<byte>, emitted: seq<Indication>)

  function Indicate(tid: int, pid: int, adu: seq<byte>): seq<Indication> {
    if pid != 0 then []
    else
      match RequestFromAdu(adu)
      case Ok(request) => [Indication(tid, request)]
      case Err(_) => []
  }

  predicate Starved(d: Decoder) {
    |d.buffer| < if d.phase.AwaitHeader? then 7 else d.phase.remaining
  }

  /** One completed read and what the handler does with it. */
  function DecoderStep(d: Decoder): (d': Decoder)
    requires !Starved(d)
    ensures d'.buffer != d.buffer ==> |d'.buffer| < |d.buffer|
    ensures d'.buffer == d.buffer ==> d.phase.AwaitPayload? && d'.phase.AwaitHeader?
  {
    match d.phase
    case AwaitHeader =>
      var length := FromBigEndian(d.buffer[4..6]);
      if length < 1 then Decoder(AwaitHeader, d.buffer[7..], d.emitted)
      else
        var phase := AwaitPayload(FromBigEndian(d.buffer[..2]), FromBigEndian(d.buffer[2..4]), d.buffer[6], length - 1);
        Decoder(phase, d.buffer[7..], d.emitted)
    case AwaitPayload(tid, pid, unit, remaining) =>
      var adu := [unit] + d.buffer[..remaining];
      Decoder(AwaitHeader, d.buffer[remaining..], d.emitted + Indicate(tid, pid, adu))
  }

  /** Run until the buffered bytes no longer complete a read. */
  function Drain(d: Decoder): Decoder
    decreases |d.buffer|, d.phase.AwaitPayload?
  {
    if Starved(d) then d else Drain(DecoderStep(d))
  }

  function Receive(d: Decoder, chunk: seq<byte>): Decoder {
    Drain(d.(buffer := d.buffer + chunk))
  }

  function ReceiveAll(d: Decoder, chunks: seq<seq<byte>>): Decoder
    decreases |chunks|
  {
    if chunks == [] then d else ReceiveAll(Receive(d, chunks[0]), chunks[1..])
  }

  function Concat(chunks: seq<seq<byte>>): seq<byte> {
    if chunks == [] then [] else chunks[0] + Concat(chunks[1..])
  }

  const IDLE: Decoder := Decoder(AwaitHeader, [], [])

  function Extended(d: Decoder, more: seq<byte>): Decoder {
    d.(buffer := d.buffer + more)
  }

  /** A completed read does not care about bytes that come after it. */
  lemma StepExtended(d: Decoder, more: seq<byte>)
    requires !Starved(d)
    ensures !Starved(Extended(d, more)) && DecoderStep(Extended(d, more)) == Extended(DecoderStep(d), more)
  {
    var e := Extended(d, more);
    match d.phase
    case AwaitHeader =>
      assert e.buffer[..2] == d.buffer[..2] && e.buffer[2..4] == d.buffer[2..4] && e.buffer[4..6] == d.buffer[4..6];
      assert e.buffer[7..] == d.buffer[7..] + more;
    case AwaitPayload(_, _, _, remaining) =>
      assert e.buffer[..remaining] == d.buffer[..remaining];
      assert e.buffer[remaining..] == d.buffer[remaining..] + more;
  }

  lemma {:induction false} DrainAppend(d: Decoder, more: seq<byte>)
    ensures Drain(d.(buffer := d.buffer + more)) == Receive(Drain(d), more)
    decreases |d.buffer|, d.phase.AwaitPayload?
  {
    if !Starved(d) {
      StepExtended(d, more);
      DrainAppend(DecoderStep(d), more);
    }
  }

  /** How the bytes were split into chunks makes no difference. */
  lemma {:induction false} ChunkingIrrelevant(d: Decoder, chunks: seq<seq<byte>>)
    requires Starved(d)
    ensures ReceiveAll(d, chunks) == Receive(d, Concat(chunks))
    decreases |chunks|
  {
    if chunks == [] {
      assert d.buffer + [] == d.buffer;
    } else {
      var first := d.(buffer := d.buffer + chunks[0]);
      var rest := Concat(chunks[1..]);
      DrainStarved(first);
      ChunkingIrrelevant(Drain(first), chunks[1..]);
      DrainAppend(first, rest);
      assert d.buffer + (chunks[0] + rest) == first.buffer + rest;
    }
  }

  lemma {:induction false} DrainStarved(d: Decoder)
    ensures Starved(Drain(d)) && d.emitted <= Drain(d).emitted
    decreases |d.buffer|, d.phase.AwaitPayload?
  {
    if !Starved(d) {
      DrainStarved(DecoderStep(d));
    }
  }

  /** A frame as sent by some client; the length field is at least one by construction. */
  datatype WireFrame = WireFrame(tid: int, pid: int, adu: seq<byte>)

  predicate WellFormed(f: WireFrame) {
    IsU16(f.tid) && IsU16(f.pid) && 1 <= |f.adu| < 0x1_0000
  }

  function WireBytes(f: WireFrame): (s: seq<byte>)
    requires WellFormed(f)
    ensures FrontendFrame(f.tid, f.pid, f.adu) == Ok(s)
  {
    FrontendHeader(f.tid, f.pid, |f.adu|).value + f.adu
  }

  predicate AllWellFormed(frames: seq<WireFrame>) {
    forall i | 0 <= i < |frames| :: WellFormed(frames[i])
  }

  function Stream(frames: seq<WireFrame>): seq<byte>
    requires AllWellFormed(frames)
  {
    if frames == [] then [] else WireBytes(frames[0]) + Stream(frames[1..])
  }

  /** The decodable protocol-0 requests, in order. */
  function Indications(frames: seq<WireFrame>): seq<Indication> {
    if frames == [] then []
    else Indicate(frames[0].tid, frames[0].pid, frames[0].adu) + Indications(frames[1..])
  }

  /** A frame adds its request under its own id if it is of protocol 0 and decodes, and nothing otherwise. */
  lemma FrameDrains(f: WireFrame, rest: seq<byte>, emitted: seq<Indication>)
    requires WellFormed(f)
    ensures var decoded := RequestFromAdu(f.adu);
            Drain(Decoder(AwaitHeader, WireBytes(f) + rest, emitted)) ==
            Drain(Decoder(AwaitHeader, rest,
                          if f.pid == 0 && decoded.Ok? then emitted + [Indication(f.tid, decoded.value)] else emitted))
  {
    var s := WireBytes(f) + rest;
    var d := Decoder(AwaitHeader, s, emitted);
    HeaderFields(f.tid, f.pid, |f.adu|, f.adu + rest);
    assert s == FrontendHeader(f.tid, f.pid, |f.adu|).value + (f.adu + rest);
    assert s[6] == s[6..][0] == f.adu[0];
    var middle := DecoderStep(d);
    assert middle.buffer == s[6..][1..] == f.adu[1..] + rest;
    assert [f.adu[0]] + f.adu[1..] == f.adu;
    assert DecoderStep(middle) == Decoder(AwaitHeader, rest, emitted + Indicate(f.tid, f.pid, f.adu));
    assert emitted + [] == emitted;
  }

  /** A decoder between frames. */
  function Between(buffer: seq<byte>, emitted: seq<Indication>): Decoder {
    Decoder(AwaitHeader, buffer, emitted)
  }

  lemma DrainNothing(emitted: seq<Indication>)
    ensures Drain(Between([], emitted)) == Between([], emitted)
  {
  }

  lemma EmittedAppend(emitted: seq<Indication>, head: seq<Indication>, rest: seq<Indication>)
    ensures emitted + head + rest == emitted + (head + rest)
  {
  }

  lemma {:induction false} FramesDrain(frames: seq<WireFrame>, emitted: seq<Indication>)
    requires AllWellFormed(frames)
    ensures Drain(Between(Stream(frames), emitted)) == Between([], emitted + Indications(frames))
    decreases |frames|
  {
    if frames == [] {
      DrainNothing(emitted);
      assert emitted + [] == emitted;
    } else {
      var f, rest := frames[0], frames[1..];
      var head := Indicate(f.tid, f.pid, f.adu);
      FrameDrains(f, Stream(rest), emitted);
      assert emitted + [] == emitted;
      FramesDrain(rest, emitted + head);
      EmittedAppend(emitted, head, Indications(rest));
    }
  }

  /** This frame's own request and id; only a protocol 0 frame whose ADU decodes has one. */
  predicate Gives(f: WireFrame, e: Indication) {
    f.pid == 0 && RequestFromAdu(f.adu) == Ok(e.request) && e.tid == f.tid
  }

  predicate IsRequest(f: WireFrame) {
    f.pid == 0 && RequestFromAdu(f.adu).Ok?
  }

  lemma IndicatesWhatItGives(f: WireFrame)
    ensures var e := Indicate(f.tid, f.pid, f.adu);
            |e| == (if IsRequest(f) then 1 else 0) && (e != [] ==> Gives(f, e[0]))
  {
  }

  ghost predicate EachGiven(frames: seq<WireFrame>, emitted: seq<Indication>, which: seq<nat>) {
    |which| == |emitted| && forall k | 0 <= k < |which| :: which[k] < |frames| && Gives(frames[which[k]], emitted[k])
  }

  ghost predicate Increasing(which: seq<nat>) {
    forall j, k | 0 <= j < k < |which| :: which[j] < which[k]
  }

  ghost predicate AllHit(frames: seq<WireFrame>, which: seq<nat>) {
    forall i | 0 <= i < |frames| && IsRequest(frames[i]) :: i in which
  }

  /** `which` lists, in order, the frames that are requests, and each gives one entry. */
  ghost predicate Picks(frames: seq<WireFrame>, emitted: seq<Indication>, which: seq<nat>) {
    EachGiven(frames, emitted, which) && Increasing(which) && AllHit(frames, which)
  }

  function Shifted(which: seq<nat>): (s: seq<nat>)
    ensures |s| == |which| && forall k | 0 <= k < |s| :: s[k] == which[k] + 1
  {
    seq(|which|, k requires 0 <= k < |which| => which[k] + 1)
  }

  lemma ShiftedHits(before: seq<nat>, which: seq<nat>, i: nat)
    requires i in which
    ensures i + 1 in before + Shifted(which)
  {
    var k :| 0 <= k < |which| && which[k] == i;
    assert (before + Shifted(which))[|before| + k] == i + 1;
  }

  /** The places of the requests, if those behind the first frame are at `which`. */
  function Places(head: seq<Indication>, which: seq<nat>): seq<nat> {
    (if head == [] then [] else [0]) + Shifted(which)
  }

  lemma EachGivenNext(frames: seq<WireFrame>, head: seq<Indication>, rest: seq<Indication>, which: seq<nat>)
    requires frames != [] && EachGiven(frames[1..], rest, which)
    requires |head| <= 1 && (head != [] ==> Gives(frames[0], head[0]))
    ensures EachGiven(frames, head + rest, Places(head, which))
  {
    var all := Places(head, which);
    forall k | 0 <= k < |all|
      ensures all[k] < |frames| && Gives(frames[all[k]], (head + rest)[k])
    {
      if k >= |head| {
        assert frames[all[k]] == frames[1..][which[k - |head|]];
      }
    }
  }

  lemma AllHitNext(frames: seq<WireFrame>, head: seq<Indication>, which: seq<nat>)
    requires frames != [] && AllHit(frames[1..], which) && (head == [] ==> !IsRequest(frames[0]))
    ensures AllHit(frames, Places(head, which))
  {
    forall i | 0 <= i < |frames| && IsRequest(frames[i])
      ensures i in Places(head, which)
    {
      if i > 0 {
        assert frames[1..][i - 1] == frames[i];
        ShiftedHits(if head == [] then [] else [0], which, i - 1);
      }
    }
  }

  lemma {:induction false} Picked(frames: seq<WireFrame>) returns (which: seq<nat>)
    ensures Picks(frames, Indications(frames), which)
    decreases |frames|
  {
    if frames == [] {
      which := [];
    } else {
      which := Picked(frames[1..]);
      var head := Indicate(frames[0].tid, frames[0].pid, frames[0].adu);
      IndicatesWhatItGives(frames[0]);
      EachGivenNext(frames, head, Indications(frames[1..]), which);
      AllHitNext(frames, head, which);
      which := Places(head, which);
    }
  }

  /**
    * Any sequence of frames under any chunking: the handler emits exactly the decodable protocol-0
    * requests in order and ends waiting for the next header.
    */
  lemma StreamDecoded(frames: seq<WireFrame>, chunks: seq<seq<byte>>)
    requires AllWellFormed(frames)
    requires Concat(chunks) == Stream(frames)
    ensures ReceiveAll(IDLE, chunks) == Decoder(AwaitHeader, [], Indications(frames))
    ensures exists which :: Picks(frames, ReceiveAll(IDLE, chunks).emitted, which)
  {
    var which := Picked(frames);
    ChunkingIrrelevant(IDLE, chunks);
    FramesDrain(frames, []);
    assert [] + Stream(frames) == Stream(frames) && [] + Indications(frames) == Indications(frames);
  }

  /** While the stream is still arriving, nothing wrong has been emitted yet. */
  lemma PartialStreamDecoded(frames: seq<WireFrame>, chunks: seq<seq<byte>>, rest: seq<byte>)
    requires AllWellFormed(frames)
    requires Concat(chunks) + rest == Stream(frames)
    ensures ReceiveAll(IDLE, chunks).emitted <= Indications(frames)
    ensures exists whole, which :: ReceiveAll(IDLE, chunks).emitted <= whole && Picks(frames, whole, which)
  {
    var which := Picked(frames);
    var d := IDLE.(buffer := Concat(chunks));
    ChunkingIrrelevant(IDLE, chunks);
    assert [] + Concat(chunks) == Concat(chunks);
    DrainAppend(d, rest);
    FramesDrain(frames, []);
    assert [] + Indications(frames) == Indications(frames);
    DrainStarved(Drain(d).(buffer := Drain(d).buffer + rest));
  }

  /** A zero length field is where alignment ends: the header read takes one byte of the next frame. */
  lemma ZeroLengthEatsOneByte(tid: int, pid: int, rest: seq<byte>, emitted: seq<Indication>)
    requires IsU16(tid) && IsU16(pid) && rest != []
    ensures Drain(Decoder(AwaitHeader, FrontendHeader(tid, pid, 0).value + rest, emitted))
         == Drain(Decoder(AwaitHeader, rest[1..], emitted))
  {
    var s := FrontendHeader(tid, pid, 0).value + rest;
    HeaderFields(tid, pid, 0, rest);
    assert s[7..] == s[6..][1..] == rest[1..];
  }

  /** The handler's read loop over a buffered stream. */
  class StreamHandler {
    var phase: Phase
    var buffer: seq<byte>
    var emitted: seq<Indication>

    constructor ()
      ensures State() == IDLE
    {
      phase, buffer, emitted := AwaitHeader, [], [];
    }

    function State(): Decoder
      reads this
    {
      Decoder(phase, buffer, emitted)
    }

    /** One exact read and what follows it, if the buffered bytes complete the read. */
    method ReadNext() returns (complete: bool)
      modifies this
      ensures complete == !Starved(old(State()))
      ensures State() == if complete then DecoderStep(old(State())) else old(State())
      ensures complete && old(phase).AwaitHeader? ==>
                var header := old(buffer)[..7];
                var length := 0x100 * header[4] as int + header[5] as int;
                && buffer == old(buffer)[7..] && emitted == old(emitted)
                && (length == 0 ==> phase == AwaitHeader)
                && (length > 0 ==>
                      phase == AwaitPayload(0x100 * header[0] as int + header[1] as int,
                                            0x100 * header[2] as int + header[3] as int, header[6], length - 1))
      ensures complete && old(phase).AwaitPayload? ==>
                var AwaitPayload(tid, pid, unit, remaining) := old(phase);
                var decoded := RequestFromAdu([unit] + old(buffer)[..remaining]);
                && phase == AwaitHeader && buffer == old(buffer)[remaining..]
                && emitted == if pid == 0 && decoded.Ok? then old(emitted) + [Indication(tid, decoded.value)]
                              else old(emitted)
    {
      match phase
      case AwaitHeader =>
        if |buffer| < 7 {
          return false;
        }
        var header := buffer[..7];
        var tid, pid, length := FromBigEndian(header[0..2]), FromBigEndian(header[2..4]), FromBigEndian(header[4..6]);
        assert buffer[..2] == header[0..2] && buffer[2..4] == header[2..4] && buffer[4..6] == header[4..6];
        if length >= 1 {
          phase := AwaitPayload(tid, pid, header[6], length - 1);
        }
        buffer := buffer[7..];
        complete := true;
      case AwaitPayload(tid, pid, unit, remaining) =>
        if |buffer| < remaining {
          return false;
        }
        var adu := [unit] + buffer[..remaining];
        phase, buffer := AwaitHeader, buffer[remaining..];
        assert emitted + [] == emitted;
        if pid == 0 {
          var request := RequestFromAdu(adu);
          if request.Ok? {
            emitted := emitted + [Indication(tid, request.value)];
          }
        }
        complete := true;
    }

    method Feed(chunk: seq<byte>)
      modifies this
      ensures State() == Receive(old(State()), chunk)
    {
      buffer := buffer + chunk;
      ghost var target := Drain(State());
      while true
        invariant Drain(State()) == target
        decreases |buffer|, phase.AwaitPayload?
      {
        var complete := ReadNext();
        if !complete {
          return;
        }
      }
    }
  }
}
