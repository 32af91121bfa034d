/**
 * Remote node 2: a plain sender whose main loop packs its two readings and
 * sends them once per pass (the pass itself is `Sender.SendCycle`).
 */
module Remote2 {
  import opened Faults
  import opened Codec
  import opened Addressing
  import opened Sender

  /** `nodeid = 2` and `offset = 4`. */
  const NodeId: nat := 2
  const NodeOffset: nat := 4

  /** The node's frames go out under identifier 4 (temperature) and 5
      (humidity), or 4 for both when the payloads are byte-equal; the
      receivers' table maps both identifiers back to node 2. */
  lemma {:induction false} OwnFrameIds(temperature: real, humidity: real)
    requires 0.0 <= temperature < 65536.0 && 0.0 <= humidity < 65536.0
    ensures NodeOffset == Offset(NodeId)
    ensures var frames := SendFrames(temperature, humidity, NodeOffset).value;
      && |frames| == 2
      && frames[0] == Frame(4, Encode(temperature).value)
      && frames[1] == Frame(if frames[1].data == frames[0].data then 4 else 5, Encode(humidity).value)
      && NodeOf(frames[0].id) == Ok(NodeId) && NodeOf(frames[1].id) == Ok(NodeId)
  {
    TwoFrameIds(temperature, humidity, NodeOffset);
  }

  /** A negative temperature (the wire format has no sign) makes the pass
      raise before either reading is sent. */
  lemma NegativeTemperatureSendsNothing(temperature: real, humidity: real)
    requires temperature < 0.0
    ensures SendFrames(temperature, humidity, NodeOffset) == Err(StructError)
  {
    OutOfRangeSendsNothing(temperature, humidity, NodeOffset);
  }
}
