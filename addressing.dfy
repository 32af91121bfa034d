/**
 * Message addressing. A node with identity `nodeid` sends with
 * `offset = 2*nodeid`; its temperature frame carries an even identifier and
 * its humidity frame an odd one. Receivers map an identifier back to its
 * node through the literal table `meastonodeid`.
 */
module Addressing {
  import opened Faults

  datatype Kind = Temperature | Humidity

  /** `meastonodeid = [0,0,1,1,2,2,3,3,4,4,5,5]`, the receivers' table. */
  const MeasToNodeId: seq<nat> := [0, 0, 1, 1, 2, 2, 3, 3, 4, 4, 5, 5]

  /** Number of node identities the table can name. */
  const MaxNodes := 6

  /** A sender's `offset` for its node identity. */
  function Offset(nodeId: nat): nat { 2 * nodeId }

  /** Identifier of a measurement kind sent by a node. */
  function MessageId(nodeId: nat, kind: Kind): nat
  {
    Offset(nodeId) + (if kind == Temperature then 0 else 1)
  }

  /** `meastonodeid[msg.id]`: an identifier beyond the table raises
      `IndexError`; every identifier inside it names node `id / 2`. */
  function NodeOf(id: nat): (r: Result<nat>)
    ensures r.Ok? <==> id < |MeasToNodeId|
    ensures r.Err? ==> r.fault == IndexError
    ensures r.Ok? ==> r.value == id / 2 && r.value < MaxNodes
  {
    if id < |MeasToNodeId| then Ok(MeasToNodeId[id]) else Err(IndexError)
  }

  /** `msg.id % 2 == 0` is temperature, otherwise humidity: the kind that,
      sent by node `id / 2`, carries exactly this identifier. */
  function KindOf(id: nat): (k: Kind)
    ensures MessageId(id / 2, k) == id
  {
    if id % 2 == 0 then Temperature else Humidity
  }

  /** Every (node, kind) pair the table covers comes back from its identifier. */
  lemma {:induction false} AddressRoundTrip(nodeId: nat, kind: Kind)
    requires nodeId < MaxNodes
    ensures NodeOf(MessageId(nodeId, kind)) == Ok(nodeId)
    ensures KindOf(MessageId(nodeId, kind)) == kind
  {
    var id := MessageId(nodeId, kind);
    assert id / 2 == nodeId;
  }

  /** Every identifier the table covers is the address of exactly the pair
      it decodes to; identifiers past the table are not addresses of any node
      the table knows. */
  lemma {:induction false} IdentifierDecodes(id: nat)
    ensures id < |MeasToNodeId| ==> MessageId(NodeOf(id).value, KindOf(id)) == id
    ensures forall n: nat, k: Kind :: n < MaxNodes ==> MessageId(n, k) < |MeasToNodeId|
  {
  }
}
