/** The two byte-at-a-time RTU readers, which find the end of a frame by its CRC alone. */
module RtuReader {
  import opened BitStrings
  import opened BitwiseXor
  import opened Bytes
  import opened CrcRegister
  import opened RtuFrame

  datatype ReadError = TimedOut | ExceededMaximum

  /** A serial line: the bytes that arrive before the reader's time is up, and those that come later. */
  class SerialLine {
    var incoming: seq<byte>
    var later: seq<byte>

    constructor (incoming: seq<byte>, later: seq<byte>)
      ensures this.incoming == incoming && this.later == later
    {
      this.incoming, this.later := incoming, later;
    }

    /** One byte, or None when the timeout passes or the line ends; what comes later stays on the line. */
    method ReadByte() returns (b: Option<byte>)
      modifies this`incoming
      ensures old(incoming) == [] ==> b == None && incoming == []
      ensures old(incoming) != [] ==> b == Some(old(incoming)[0]) && incoming == old(incoming)[1..]
    {
      if incoming == [] {
        b := None;
      } else {
        b, incoming := Some(incoming[0]), incoming[1..];
      }
    }
  }

  /** The length of the shortest valid frame starting `s`, of at least `n` and at most `limit` bytes. */
  function ShortestFrame(s: seq<byte>, n: nat, limit: nat): (r: Option<nat>)
    requires n >= 2
    ensures r.Some? ==> n <= r.value <= limit && r.value <= |s| && HasValidCrc(s[..r.value])
    ensures r.Some? ==> forall k | n <= k < r.value :: !HasValidCrc(s[..k])
    ensures r.None? ==> forall k | n <= k <= limit && k <= |s| :: !HasValidCrc(s[..k])
    decreases limit + 1 - n
  {
    if n > limit || n > |s| then None
    else if HasValidCrc(s[..n]) then Some(n)
    else ShortestFrame(s, n + 1, limit)
  }

  const MAX_FRAME: nat := 256

  function ReadOutcome(s: seq<byte>, limit: nat): Result<seq<byte>, ReadError> {
    var n := ShortestFrame(s, 4, limit);
    if n.Some? then Ok(s[..n.value])
    else if |s| > MAX_FRAME then Err(ExceededMaximum)
    else Err(TimedOut)
  }

  /** Bytes taken off the line: the frame, the oversized buffer, or everything there was. */
  function Consumed(s: seq<byte>, r: Result<seq<byte>, ReadError>): (n: nat)
    requires r.Ok? ==> |r.value| <= |s|
    ensures n <= |s|
  {
    if r.Ok? then |r.value| else if |s| > MAX_FRAME then MAX_FRAME + 1 else |s|
  }

  /** The first `n` bytes have been searched without success. */
  ghost predicate Searched(s: seq<byte>, n: nat, limit: nat) {
    ShortestFrame(s, 4, limit) == ShortestFrame(s, if n < 4 then 4 else n + 1, limit)
  }

  lemma SearchStep(s: seq<byte>, n: nat, limit: nat)
    requires n < |s| && Searched(s, n, limit)
    ensures if 4 <= n + 1 <= limit && HasValidCrc(s[..n + 1])
            then ReadOutcome(s, limit) == Ok(s[..n + 1])
            else Searched(s, n + 1, limit)
  {
  }

  lemma SearchEnds(s: seq<byte>, n: nat, limit: nat)
    requires Searched(s, n, limit) && (n == |s| || n >= limit)
    ensures ReadOutcome(s, limit) == if |s| > MAX_FRAME then Err(ExceededMaximum) else Err(TimedOut)
  {
  }

  /** A reader in its loop: `s` is split between its buffer and the line, and no frame has turned up. */
  ghost predicate Reading(s: seq<byte>, buffer: seq<byte>, incoming: seq<byte>, limit: nat) {
    |buffer| <= |s| && buffer == s[..|buffer|] && incoming == s[|buffer|..] && Searched(s, |buffer|, limit)
  }

  /** A frame is taken off the line whole and alone, a time-out takes all there was, an overrun 257 bytes. */
  predicate Leaves(s: seq<byte>, r: Result<seq<byte>, ReadError>, incoming: seq<byte>) {
    match r
    case Ok(frame) => frame + incoming == s
    case Err(TimedOut) => incoming == [] && |s| <= 256
    case Err(ExceededMaximum) => |s| == 257 + |incoming|
  }

  /** A reader that has returned `r` and left these bytes. */
  predicate Finished(s: seq<byte>, r: Result<seq<byte>, ReadError>, incoming: seq<byte>, limit: nat) {
    r == ReadOutcome(s, limit) && incoming == s[Consumed(s, r)..] && Leaves(s, r, incoming)
  }

  lemma NothingMore(s: seq<byte>, buffer: seq<byte>, limit: nat)
    requires Reading(s, buffer, [], limit) && |buffer| <= MAX_FRAME
    ensures Finished(s, Err(TimedOut), [], limit)
  {
    assert |s[|buffer|..]| == |s| - |buffer|;
    SearchEnds(s, |buffer|, limit);
  }

  lemma TooLong(s: seq<byte>, buffer: seq<byte>, incoming: seq<byte>, limit: nat)
    requires Reading(s, buffer, incoming, limit) && limit <= |buffer| == MAX_FRAME + 1
    ensures Finished(s, Err(ExceededMaximum), incoming, limit)
  {
    SearchEnds(s, |buffer|, limit);
  }

  lemma OneMore(s: seq<byte>, buffer: seq<byte>, b: byte, incoming: seq<byte>, limit: nat)
    requires Reading(s, buffer, [b] + incoming, limit)
    ensures var longer := buffer + [b];
            if 4 <= |longer| <= limit && HasValidCrc(longer)
            then Finished(s, Ok(longer), incoming, limit)
            else Reading(s, longer, incoming, limit)
  {
    var n := |buffer|;
    assert |s[n..]| == |s| - n == 1 + |incoming|;
    assert s[n] == s[n..][0] == b;
    assert s[..n + 1] == buffer + [b];
    assert s[n + 1..] == s[n..][1..] == incoming;
    SearchStep(s, n, limit);
  }

  /** The gateway's reader: the length limit is checked before the CRC. */
  method GatewayReadResponse(line: SerialLine) returns (r: Result<seq<byte>, ReadError>)
    modifies line`incoming
    ensures r == ReadOutcome(old(line.incoming), MAX_FRAME)
    ensures line.incoming == old(line.incoming)[Consumed(old(line.incoming), r)..]
    ensures Leaves(old(line.incoming), r, line.incoming)
  {
    var buffer: seq<byte> := [];
    ghost var s := line.incoming;
    while true
      invariant |buffer| <= MAX_FRAME
      invariant Reading(s, buffer, line.incoming, MAX_FRAME)
      decreases |line.incoming|
    {
      ghost var before := line.incoming;
      var chunk := line.ReadByte();
      if chunk.None? {
        NothingMore(s, buffer, MAX_FRAME);
        return Err(TimedOut);
      }
      assert before == [chunk.value] + line.incoming;
      OneMore(s, buffer, chunk.value, line.incoming, MAX_FRAME);
      buffer := buffer + [chunk.value];
      if |buffer| > MAX_FRAME {
        TooLong(s, buffer, line.incoming, MAX_FRAME);
        return Err(ExceededMaximum);
      }
      if |buffer| >= 4 && HasValidCrc(buffer) {
        return Ok(buffer);
      }
    }
  }

  /** The client's reader: the CRC is checked before the length limit. */
  method ClientReadFrame(line: SerialLine) returns (r: Result<seq<byte>, ReadError>)
    modifies line`incoming
    ensures r == ReadOutcome(old(line.incoming), MAX_FRAME + 1)
    ensures line.incoming == old(line.incoming)[Consumed(old(line.incoming), r)..]
    ensures Leaves(old(line.incoming), r, line.incoming)
  {
    var buffer: seq<byte> := [];
    ghost var s := line.incoming;
    while true
      invariant |buffer| <= MAX_FRAME
      invariant Reading(s, buffer, line.incoming, MAX_FRAME + 1)
      decreases |line.incoming|
    {
      ghost var before := line.incoming;
      var chunk := line.ReadByte();
      if chunk.None? {
        NothingMore(s, buffer, MAX_FRAME + 1);
        return Err(TimedOut);
      }
      assert before == [chunk.value] + line.incoming;
      OneMore(s, buffer, chunk.value, line.incoming, MAX_FRAME + 1);
      buffer := buffer + [chunk.value];
      if |buffer| >= 4 && HasValidCrc(buffer) {
        return Ok(buffer);
      }
      if |buffer| > MAX_FRAME {
        TooLong(s, buffer, line.incoming, MAX_FRAME + 1);
        return Err(ExceededMaximum);
      }
    }
  }

  // ---------------------------------------------------------------------------
  // Recomputing per prefix equals one running register
  // ---------------------------------------------------------------------------

  /** The same search with one register carried along; `r` has absorbed the first `n` bytes. */
  function RunningSearch(s: seq<byte>, n: nat, r: nat, limit: nat): Option<nat>
    requires n <= |s|
    decreases |s| - n
  {
    if n >= 4 && n <= limit && r == 0 then Some(n)
    else if n == |s| || n >= limit then None
    else RunningSearch(s, n + 1, FeedByte(r, s[n]), limit)
  }

  lemma FeedPrefix(s: seq<byte>, n: nat)
    requires n < |s|
    ensures Feed(PRESET, s[..n + 1]) == FeedByte(Feed(PRESET, s[..n]), s[n])
  {
    assert s[..n + 1] == s[..n] + [s[n]];
    FeedAppend(PRESET, s[..n], [s[n]]);
    assert [s[n]][1..] == [];
  }

  /** Where the search for a frame of at least four bytes goes on. */
  function AtLeastFour(n: nat): nat {
    if n < 4 then 4 else n
  }

  lemma BothSearchesGoOn(s: seq<byte>, n: nat, r: nat, limit: nat)
    requires n < |s| && n < limit && (n >= 4 ==> r != 0 && !HasValidCrc(s[..n]))
    ensures RunningSearch(s, n, r, limit) == RunningSearch(s, n + 1, FeedByte(r, s[n]), limit)
    ensures ShortestFrame(s, AtLeastFour(n), limit) == ShortestFrame(s, AtLeastFour(n + 1), limit)
  {
  }

  lemma BothSearchesEnd(s: seq<byte>, n: nat, r: nat, limit: nat)
    requires n <= |s| && (n >= 4 ==> (r == 0 <==> HasValidCrc(s[..n])))
    requires n == |s| || n >= limit || (n >= 4 && r == 0)
    ensures RunningSearch(s, n, r, limit) == ShortestFrame(s, AtLeastFour(n), limit)
  {
  }

  lemma ResidueDecides(s: seq<byte>, n: nat)
    requires 4 <= n <= |s|
    ensures Feed(PRESET, s[..n]) == 0 <==> HasValidCrc(s[..n])
  {
    ValidCrcIsZeroResidue(s[..n]);
  }

  lemma {:induction false} RunningSearchAgrees(s: seq<byte>, n: nat, r: nat, limit: nat)
    requires n <= |s| && r == Feed(PRESET, s[..n])
    ensures RunningSearch(s, n, r, limit) == ShortestFrame(s, AtLeastFour(n), limit)
    decreases |s| - n
  {
    if n >= 4 {
      ResidueDecides(s, n);
    }
    if n == |s| || n >= limit || (n >= 4 && r == 0) {
      BothSearchesEnd(s, n, r, limit);
    } else {
      BothSearchesGoOn(s, n, r, limit);
      var next := FeedByte(r, s[n]);
      assert next == Feed(PRESET, s[..n + 1]) by {
        FeedPrefix(s, n);
      }
      RunningSearchAgrees(s, n + 1, next, limit);
    }
  }

  lemma RunningRegisterFindsFrame(s: seq<byte>, limit: nat)
    ensures RunningSearch(s, 0, PRESET, limit) == ShortestFrame(s, 4, limit)
  {
    assert s[..0] == [];
    RunningSearchAgrees(s, 0, PRESET, limit);
  }

  // ---------------------------------------------------------------------------
  // When the reader stops early
  // ---------------------------------------------------------------------------

  /** The register over a suffix is its own residue plus the register before it, shifted along. */
  lemma FeedSplits(r: nat, data: seq<byte>)
    ensures Feed(r, data) == Xor(Steps(r, 8 * |data|), Feed(0, data))
  {
    var bits := Bits(data);
    FeedIsFeedBits(r, data);
    FeedIsFeedBits(0, data);
    FeedBitsSuperpose(r, 0, Zeros(|bits|), bits);
    assert XorBits(Zeros(|bits|), bits) == bits;
    XorZero(r);
    FeedZeros(r, |bits|);
  }

  /** A prefix of a valid frame is valid exactly when what follows it leaves a zero register at zero. */
  lemma PrefixValidExactly(frame: seq<byte>, k: nat)
    requires 2 <= k <= |frame| && HasValidCrc(frame)
    ensures HasValidCrc(frame[..k]) <==> Feed(0, frame[k..]) == 0
  {
    var head, tail := frame[..k], frame[k..];
    var r, n := Feed(PRESET, head), 8 * |tail|;
    assert frame == head + tail;
    ValidCrcIsZeroResidue(frame);
    ValidCrcIsZeroResidue(head);
    FeedAppend(PRESET, head, tail);
    FeedSplits(r, tail);
    XorEqual(Steps(r, n), Feed(0, tail));
    FeedWord(PRESET, head);
    StepsReachZero(r, n);
  }

  /** One byte before the end of a valid frame the CRC holds exactly when the last byte is zero. */
  lemma ShortByOne(frame: seq<byte>)
    requires |frame| >= 3 && HasValidCrc(frame)
    ensures var n := |frame| - 1; HasValidCrc(frame[..n]) <==> frame[n] == 0
  {
    var n := |frame| - 1;
    PrefixValidExactly(frame, n);
    var last := frame[n..];
    assert last == [frame[n]] && last[1..] == [];
    FeedIsFeedBits(0, last);
    Power2Values();
    assert Bits(last) == NatBits(frame[n] as nat, 8);
    BitsClearRegister(0, frame[n] as nat, 8);
  }

  /** Two bytes before the end it holds exactly when both are zero. */
  lemma ShortByTwo(frame: seq<byte>)
    requires |frame| >= 4 && HasValidCrc(frame)
    ensures var n := |frame| - 2; HasValidCrc(frame[..n]) <==> frame[n] == 0 && frame[n + 1] == 0
  {
    PrefixValidExactly(frame, |frame| - 2);
    TrailerClears(0, frame[|frame| - 2..]);
  }

  /** A valid frame ahead on the line is returned whole exactly when no shorter prefix is valid. */
  lemma WholeFrameReturned(frame: seq<byte>, rest: seq<byte>)
    requires 4 <= |frame| <= MAX_FRAME && HasValidCrc(frame)
    ensures ReadOutcome(frame + rest, MAX_FRAME) == Ok(frame)
            <==> forall k | 4 <= k < |frame| :: !HasValidCrc(frame[..k])
    ensures ReadOutcome(frame + rest, MAX_FRAME).Ok?
  {
    var s := frame + rest;
    assert s[..|frame|] == frame;
    assert forall k | 0 <= k <= |frame| :: s[..k] == frame[..k];
    var n := ShortestFrame(s, 4, MAX_FRAME);
    if n.Some? && n.value < |frame| {
      assert HasValidCrc(frame[..n.value]);
      assert |s[..n.value]| != |frame|;
    }
  }

  /** That is: exactly when no proper end of it, from the fifth byte on, has a residue of zero. */
  lemma FrameReturnedExactly(frame: seq<byte>, rest: seq<byte>)
    requires 4 <= |frame| <= MAX_FRAME && HasValidCrc(frame)
    ensures ReadOutcome(frame + rest, MAX_FRAME) == Ok(frame)
            <==> forall k | 4 <= k < |frame| :: Feed(0, frame[k..]) != 0
  {
    WholeFrameReturned(frame, rest);
    forall k | 4 <= k < |frame|
      ensures HasValidCrc(frame[..k]) <==> Feed(0, frame[k..]) == 0
    {
      PrefixValidExactly(frame, k);
    }
  }

  /** For five- and six-byte frames that is: exactly when the last byte is not zero. */
  lemma ShortFrameReturned(frame: seq<byte>, rest: seq<byte>)
    requires 5 <= |frame| <= 6 && HasValidCrc(frame)
    ensures ReadOutcome(frame + rest, MAX_FRAME) == Ok(frame) <==> frame[|frame| - 1] != 0
  {
    WholeFrameReturned(frame, rest);
    ShortByOne(frame);
    ShortByTwo(frame);
    var n := |frame|;
    if frame[n - 1] != 0 {
      assert !HasValidCrc(frame[..n - 1]) && !HasValidCrc(frame[..n - 2]);
    }
  }

  /** The readers differ only on a 257-byte frame, which the client alone accepts. */
  lemma ReadersDiffer(s: seq<byte>)
    ensures var g := ReadOutcome(s, MAX_FRAME);
            var c := ReadOutcome(s, MAX_FRAME + 1);
            if g == Err(ExceededMaximum) && HasValidCrc(s[..257])
            then c == Ok(s[..257])
            else c == g
  {
    var g, c := ShortestFrame(s, 4, MAX_FRAME), ShortestFrame(s, 4, MAX_FRAME + 1);
    if g.Some? {
      assert c.Some?;
      assert c.value == g.value;
    } else if c.Some? {
      assert c.value == 257;
    }
  }
}
