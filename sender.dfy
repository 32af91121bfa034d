/**
 * The periodic sender shared by the three node programs: encode the
 * temperature and the humidity reading, append both payloads to `measlist`,
 * then send each payload `meas` under `measlist.index(meas) + offset`.
 * The controller's answer to a send is ignored or only logged, so a send is modelled
 * as the attempted frame.
 */
module Sender {
  import opened Faults
  import opened Codec
  import opened Addressing

  /** A CAN frame: extended identifier and data bytes. */
  datatype Frame = Frame(id: nat, data: seq<Byte>)

  /** Python's `list.index(x)`: the first position that holds `x`. */
  function IndexOf<T(==)>(s: seq<T>, x: T): (k: nat)
    requires x in s
    ensures k < |s| && s[k] == x
    ensures x !in s[..k]
  {
    if s[0] == x then 0
    else
      var k := 1 + IndexOf(s[1..], x);
      assert s[..k] == [s[0]] + s[1..][..k - 1];
      k
  }

  /** The frames the `for meas in measlist` loop attempts, in order: one per
      payload, under an identifier no larger than `offset` plus its position
      that names a position holding an equal payload. */
  function Frames(measlist: seq<seq<Byte>>, offset: nat): (frames: seq<Frame>)
    ensures |frames| == |measlist|
    ensures forall k :: 0 <= k < |measlist| ==>
      frames[k].data == measlist[k] && offset <= frames[k].id <= offset + k
      && measlist[frames[k].id - offset] == measlist[k]
  {
    seq(|measlist|, k requires 0 <= k < |measlist| =>
      Frame(IndexOf(measlist, measlist[k]) + offset, measlist[k]))
  }

  /** One pass of the send loop: the frames attempted, or the `struct.error`
      that `pack` raised before anything was sent. */
  function SendFrames(temperature: real, humidity: real, offset: nat): (r: Result<seq<Frame>>)
    ensures r.Ok? <==> Encode(temperature).Ok? && Encode(humidity).Ok?
  {
    match Encode(temperature)
    case Err(e) => Err(e)
    case Ok(ts) =>
      match Encode(humidity)
      case Err(e) => Err(e)
      case Ok(rs) => Ok(Frames([ts, rs], offset))
  }

  /** The body of the send loop: both readings are packed first, then one send
      is attempted per payload; a failed send is not retried. */
  method SendCycle(temperature: real, humidity: real, offset: nat) returns (r: Result<seq<Frame>>)
    ensures r == SendFrames(temperature, humidity, offset)
    ensures r.Ok? ==> |r.value| == 2
  {
    var measlist: seq<seq<Byte>> := [];
    var ts := Encode(temperature);
    if ts.Err? {
      return Err(ts.fault);
    }
    measlist := measlist + [ts.value];
    var rs := Encode(humidity);
    if rs.Err? {
      return Err(rs.fault);
    }
    measlist := measlist + [rs.value];
    var sent: seq<Frame> := [];
    for k := 0 to |measlist|
      invariant sent == Frames(measlist, offset)[..k]
    {
      var meas := measlist[k];
      sent := sent + [Frame(IndexOf(measlist, meas) + offset, meas)];
    }
    assert |Frames(measlist, offset)| == |measlist|;
    assert sent == Frames(measlist, offset);
    assert measlist == [ts.value, rs.value];
    return Ok(sent);
  }

  /** A frame is sent under `offset + position` exactly when its payload does
      not already occur earlier in `measlist`; otherwise it reuses the
      identifier of the first equal payload. */
  lemma {:induction false} FrameIdIsFirstOccurrence(measlist: seq<seq<Byte>>, offset: nat, k: nat)
    requires k < |measlist|
    ensures Frames(measlist, offset)[k].data == measlist[k]
    ensures Frames(measlist, offset)[k].id <= offset + k
    ensures Frames(measlist, offset)[k].id == offset + k <==> measlist[k] !in measlist[..k]
    ensures measlist[Frames(measlist, offset)[k].id - offset] == measlist[k]
    ensures measlist[k] !in measlist[..Frames(measlist, offset)[k].id - offset]
  {
    var i := IndexOf(measlist, measlist[k]);
    if i < k {
      assert measlist[..k][i] == measlist[k];
    }
  }

  /** For the two readings: the temperature payload goes out under `offset`
      and the humidity payload under `offset + 1`, unless the two payloads are
      byte-equal, in which case both go out under `offset`. */
  lemma {:induction false} TwoFrameIds(temperature: real, humidity: real, offset: nat)
    requires 0.0 <= temperature < 65536.0 && 0.0 <= humidity < 65536.0
    ensures SendFrames(temperature, humidity, offset).Ok?
    ensures SendFrames(temperature, humidity, offset).value ==
      [Frame(offset, Encode(temperature).value),
       Frame(if Encode(humidity).value == Encode(temperature).value then offset else offset + 1,
             Encode(humidity).value)]
  {
    var ms := [Encode(temperature).value, Encode(humidity).value];
    FrameIdIsFirstOccurrence(ms, offset, 0);
    FrameIdIsFirstOccurrence(ms, offset, 1);
    assert ms[..1] == [ms[0]];
  }

  /** A reading that does not fit the wire format (negative, or 65536 and
      above) stops the whole pass: not even the other reading is sent. */
  lemma OutOfRangeSendsNothing(temperature: real, humidity: real, offset: nat)
    requires !(0.0 <= temperature < 65536.0) || !(0.0 <= humidity < 65536.0)
    ensures SendFrames(temperature, humidity, offset) == Err(StructError)
  {
  }

  /** Equal readings up to the thousandth: both payloads are the same bytes,
      so the humidity reading goes out under the temperature identifier and a
      receiver files it as a temperature. */
  lemma DuplicatePayloadCollides()
    ensures SendFrames(22.5, 22.5, Offset(2)).Ok?
    ensures SendFrames(22.5, 22.5, Offset(2)).value[1].id == MessageId(2, Temperature)
    ensures KindOf(SendFrames(22.5, 22.5, Offset(2)).value[1].id) == Temperature
  {
    TwoFrameIds(22.5, 22.5, Offset(2));
  }

  /** The evidently intended addressing: the payload at position `k` of
      `measlist` goes out under `offset + k`, so every payload gets its own
      identifier whatever the payloads are. */
  function IntendedFrames(measlist: seq<seq<Byte>>, offset: nat): (frames: seq<Frame>)
    ensures |frames| == |measlist|
    ensures forall k :: 0 <= k < |measlist| ==> frames[k].data == measlist[k]
    ensures forall j, k :: 0 <= j < k < |frames| ==> offset <= frames[j].id < frames[k].id
  {
    seq(|measlist|, k requires 0 <= k < |measlist| => Frame(offset + k, measlist[k]))
  }

  /** With the intended addressing each reading of node `nodeId` is filed
      under its own kind and node by a receiver, whatever the readings are. */
  lemma {:induction false} IntendedIdsAddressByKind(nodeId: nat, ts: seq<Byte>, rs: seq<Byte>)
    requires nodeId < MaxNodes
    ensures IntendedFrames([ts, rs], Offset(nodeId))[0] == Frame(MessageId(nodeId, Temperature), ts)
    ensures IntendedFrames([ts, rs], Offset(nodeId))[1] == Frame(MessageId(nodeId, Humidity), rs)
    ensures NodeOf(IntendedFrames([ts, rs], Offset(nodeId))[1].id) == Ok(nodeId)
    ensures KindOf(IntendedFrames([ts, rs], Offset(nodeId))[1].id) == Humidity
  {
    AddressRoundTrip(nodeId, Humidity);
  }

  /** The loop as written and the intended addressing agree exactly when no
      payload repeats an earlier one. */
  lemma {:induction false} FramesAgreeWhenDistinct(measlist: seq<seq<Byte>>, offset: nat)
    ensures Frames(measlist, offset) == IntendedFrames(measlist, offset) <==>
      forall k :: 0 <= k < |measlist| ==> measlist[k] !in measlist[..k]
  {
    if forall k :: 0 <= k < |measlist| ==> measlist[k] !in measlist[..k] {
      forall k | 0 <= k < |measlist|
        ensures Frames(measlist, offset)[k] == IntendedFrames(measlist, offset)[k]
      {
        FrameIdIsFirstOccurrence(measlist, offset, k);
      }
    } else {
      var k :| 0 <= k < |measlist| && measlist[k] in measlist[..k];
      FrameIdIsFirstOccurrence(measlist, offset, k);
      assert Frames(measlist, offset)[k] != IntendedFrames(measlist, offset)[k];
    }
  }
}
