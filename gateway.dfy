/**
 * The gateway node (node 3): it sends its own readings, files every decoded
 * frame as a `[node, value]` entry into `temp` or `humid` by identifier
 * parity, adds its own readings once per listen window, and on each publish
 * pass averages the non-negative values of nodes 0 to 3, publishes the
 * nodes whose two averages are non-zero, and clears the lists when the
 * telemetry service is connected.
 */
module Gateway {
  import opened Faults
  import opened Codec
  import opened Addressing
  import opened Sender

  /** `nodeid = 3` and `offset = 6`. */
  const NodeId: nat := 3
  const NodeOffset: nat := 6

  /** `ndlist`: the only nodes ever considered for publishing. */
  const PublishedNodes: seq<nat> := [0, 1, 2, 3]

  /** An element `[node, value]` of `temp` or `humid`. */
  datatype Entry = Entry(node: nat, value: real)

  /** One `(node, t, rh)` group handed to the telemetry service. */
  datatype Group = Group(node: nat, temperature: real, humidity: real)

  // ---------------------------------------------------------------------
  // Accumulation (`collectnodes`)
  // ---------------------------------------------------------------------

  datatype Buckets = Buckets(temp: seq<Entry>, humid: seq<Entry>)

  /** One received frame: `[meastonodeid[id], decoded value]` is appended to
      `temp` for an even identifier and to `humid` for an odd one. The table
      lookup raises `IndexError` and the unpack `struct.error`. */
  function FileFrame(b: Buckets, f: Frame): (r: Result<Buckets>)
    ensures r.Err? <==> f.id >= |MeasToNodeId| || |f.data| != PayloadSize
    ensures r.Ok? ==> b.temp <= r.value.temp && b.humid <= r.value.humid
    ensures r.Ok? ==> |r.value.temp| + |r.value.humid| == |b.temp| + |b.humid| + 1
    ensures r.Ok? ==> (f.id % 2 == 0 <==> |r.value.temp| == |b.temp| + 1)
    ensures r.Ok? ==> (Entry(f.id / 2, Decode(f.data).value)
      == if f.id % 2 == 0 then r.value.temp[|b.temp|] else r.value.humid[|b.humid|])
  {
    match NodeOf(f.id)
    case Err(e) => Err(e)
    case Ok(n) =>
      match Decode(f.data)
      case Err(e) => Err(e)
      case Ok(v) =>
        if f.id % 2 == 0 then Ok(Buckets(b.temp + [Entry(n, v)], b.humid))
        else Ok(Buckets(b.temp, b.humid + [Entry(n, v)]))
  }

  /** The lists after a listen window, and the exception that ended the
      window early, if any (the remaining frames and the node's own readings
      are then not filed). */
  datatype Collected = Collected(buckets: Buckets, fault: Option<Fault>)

  /** A frame whose identifier is in the table and whose data unpacks. */
  predicate Receivable(f: Frame)
  {
    f.id < |MeasToNodeId| && |f.data| == PayloadSize
  }

  /** The frames of one window, filed in order until one raises: the window
      completes exactly when every frame is receivable, and the lists only
      grow at the end. */
  function CollectFrames(b: Buckets, frames: seq<Frame>): (c: Collected)
    ensures c.fault.None? <==> forall f :: f in frames ==> Receivable(f)
    ensures b.temp <= c.buckets.temp && b.humid <= c.buckets.humid
    decreases |frames|
  {
    if frames == [] then Collected(b, None)
    else
      match FileFrame(b, frames[0])
      case Err(e) =>
        assert frames[0] in frames && !Receivable(frames[0]);
        Collected(b, Some(e))
      case Ok(next) =>
        assert forall f :: f in frames <==> f == frames[0] || f in frames[1..];
        CollectFrames(next, frames[1..])
  }

  /** A whole listen window: the frames, then `[3, temperature]` and
      `[3, relative humidity]` of the node's own sensor. Whatever the frames,
      the entries present before the window stay in place; a completed
      window ends each list with the node's own reading. */
  function CollectWindow(b: Buckets, frames: seq<Frame>, ownTemp: real, ownRh: real): (c: Collected)
    ensures c.fault.None? <==> forall f :: f in frames ==> Receivable(f)
    ensures b.temp <= c.buckets.temp && b.humid <= c.buckets.humid
    ensures c.fault.None? ==> (
      && |c.buckets.temp| > 0 && |c.buckets.humid| > 0
      && c.buckets.temp[|c.buckets.temp| - 1] == Entry(NodeId, ownTemp)
      && c.buckets.humid[|c.buckets.humid| - 1] == Entry(NodeId, ownRh))
  {
    var c := CollectFrames(b, frames);
    if c.fault.Some? then c
    else Collected(Buckets(c.buckets.temp + [Entry(NodeId, ownTemp)], c.buckets.humid + [Entry(NodeId, ownRh)]), None)
  }

  /** Reference definitions: the entries that the even-identifier frames and
      the odd-identifier frames contribute. */
  function TempEntries(frames: seq<Frame>): seq<Entry>
    requires forall f :: f in frames ==> Receivable(f)
  {
    if frames == [] then []
    else
      var f := frames[0];
      assert f in frames && Receivable(f) && Decode(f.data).Ok?;
      (if f.id % 2 == 0 then [Entry(f.id / 2, Decode(f.data).value)] else []) + TempEntries(frames[1..])
  }

  function HumidEntries(frames: seq<Frame>): seq<Entry>
    requires forall f :: f in frames ==> Receivable(f)
  {
    if frames == [] then []
    else
      var f := frames[0];
      assert f in frames && Receivable(f) && Decode(f.data).Ok?;
      (if f.id % 2 == 1 then [Entry(f.id / 2, Decode(f.data).value)] else []) + HumidEntries(frames[1..])
  }

  /** A window of well-formed frames appends exactly one entry per frame, to
      the list its parity names, in arrival order, followed by one entry of
      the node's own reading on each list; existing entries are untouched. */
  lemma {:induction false} CollectWindowAppends(b: Buckets, frames: seq<Frame>, ownTemp: real, ownRh: real)
    requires forall f :: f in frames ==> Receivable(f)
    ensures CollectWindow(b, frames, ownTemp, ownRh) == Collected(
      Buckets(b.temp + TempEntries(frames) + [Entry(NodeId, ownTemp)],
              b.humid + HumidEntries(frames) + [Entry(NodeId, ownRh)]), None)
    ensures |TempEntries(frames)| + |HumidEntries(frames)| == |frames|
  {
    CollectFramesAppends(b, frames);
  }

  lemma {:induction false} CollectFramesAppends(b: Buckets, frames: seq<Frame>)
    requires forall f :: f in frames ==> Receivable(f)
    ensures CollectFrames(b, frames) == Collected(Buckets(b.temp + TempEntries(frames), b.humid + HumidEntries(frames)), None)
    ensures |TempEntries(frames)| + |HumidEntries(frames)| == |frames|
    decreases |frames|
  {
    if frames != [] {
      var rest := frames[1..];
      var next := FiledFirst(b, frames);
      assert forall g :: g in rest ==> g in frames;
      CollectFramesAppends(next, rest);
    }
  }

  /** Filing the first frame of a window of receivable frames: it goes to the
      list its parity names, and the reference entries of the window are its
      entry followed by those of the rest. */
  lemma {:induction false} FiledFirst(b: Buckets, frames: seq<Frame>) returns (next: Buckets)
    requires frames != [] && forall f :: f in frames ==> Receivable(f)
    ensures CollectFrames(b, frames) == CollectFrames(next, frames[1..])
    ensures next.temp + TempEntries(frames[1..]) == b.temp + TempEntries(frames)
    ensures next.humid + HumidEntries(frames[1..]) == b.humid + HumidEntries(frames)
    ensures |TempEntries(frames)| + |HumidEntries(frames)| == |TempEntries(frames[1..])| + |HumidEntries(frames[1..])| + 1
  {
    var f := frames[0];
    assert f in frames && Receivable(f);
    var e := Entry(f.id / 2, Decode(f.data).value);
    EntriesOfFirst(frames);
    if f.id % 2 == 0 {
      next := Buckets(b.temp + [e], b.humid);
      assert TempEntries(frames) == [e] + TempEntries(frames[1..]);
      assert HumidEntries(frames) == HumidEntries(frames[1..]);
    } else {
      next := Buckets(b.temp, b.humid + [e]);
      assert TempEntries(frames) == TempEntries(frames[1..]);
      assert HumidEntries(frames) == [e] + HumidEntries(frames[1..]);
    }
    assert FileFrame(b, f) == Ok(next);
  }

  /** The reference entries of a window start with those of its first frame. */
  lemma {:induction false} EntriesOfFirst(frames: seq<Frame>)
    requires frames != [] && forall f :: f in frames ==> Receivable(f)
    ensures forall g :: g in frames[1..] ==> Receivable(g)
    ensures Decode(frames[0].data).Ok?
    ensures var e := Entry(frames[0].id / 2, Decode(frames[0].data).value);
      && TempEntries(frames) == (if frames[0].id % 2 == 0 then [e] else []) + TempEntries(frames[1..])
      && HumidEntries(frames) == (if frames[0].id % 2 == 1 then [e] else []) + HumidEntries(frames[1..])
  {
    assert frames[0] in frames;
    assert forall g :: g in frames[1..] ==> g in frames;
  }

  // ---------------------------------------------------------------------
  // Averaging and the publish decision (`publishtoaio`)
  // ---------------------------------------------------------------------

  /** `[i[1] for i in entries if i[0] == k and i[1] >= 0.0]`. */
  function Values(entries: seq<Entry>, k: nat): (vals: seq<real>)
    ensures |vals| <= |entries|
    ensures forall v :: v in vals ==> v >= 0.0
  {
    if entries == [] then []
    else
      (if entries[0].node == k && entries[0].value >= 0.0 then [entries[0].value] else [])
      + Values(entries[1..], k)
  }

  function Sum(vals: seq<real>): real
  {
    if vals == [] then 0.0 else vals[0] + Sum(vals[1..])
  }

  /** The arithmetic mean; stated only for a non-empty list. */
  function Mean(vals: seq<real>): real
    requires |vals| > 0
  {
    Sum(vals) / |vals| as real
  }

  /** The per-node average of one list, or `None` when no entry of the node
      passes the filter. */
  function Average(entries: seq<Entry>, k: nat): (r: Option<real>)
    ensures r.None? <==> forall e :: e in entries ==> e.node != k || e.value < 0.0
  {
    var vals := Values(entries, k);
    ValuesEmpty(entries, k);
    if |vals| == 0 then None else Some(Mean(vals))
  }

  /** A node's filtered list is empty exactly when none of its entries
      passes the filter. */
  lemma {:induction false} ValuesEmpty(entries: seq<Entry>, k: nat)
    ensures |Values(entries, k)| == 0 <==> forall e :: e in entries ==> e.node != k || e.value < 0.0
  {
    if entries != [] {
      ValuesEmpty(entries[1..], k);
      assert forall e :: e in entries <==> e == entries[0] || e in entries[1..];
    }
  }

  /** The group of node `k`, if it is to be published. */
  function GroupOf(temp: seq<Entry>, humid: seq<Entry>, k: nat): seq<Group>
  {
    var t, rh := Average(temp, k), Average(humid, k);
    if t.Some? && rh.Some? && t.value != 0.0 && rh.value != 0.0 then [Group(k, t.value, rh.value)] else []
  }

  /** The groups published for the nodes of `nodes`, in that order: at most
      one per listed node, each for a listed node and with two non-zero
      averages. */
  function GroupsFor(temp: seq<Entry>, humid: seq<Entry>, nodes: seq<nat>): (gs: seq<Group>)
    ensures |gs| <= |nodes|
    ensures forall g :: g in gs ==> g.node in nodes && g.temperature != 0.0 && g.humidity != 0.0
    decreases |nodes|
  {
    if nodes == [] then []
    else
      var init := nodes[..|nodes| - 1];
      assert forall x :: x in init ==> x in nodes;
      GroupsFor(temp, humid, init) + GroupOf(temp, humid, nodes[|nodes| - 1])
  }

  /** Taking one more node of `nodes` appends that node's group, if any. */
  lemma {:induction false} GroupsForExtend(temp: seq<Entry>, humid: seq<Entry>, nodes: seq<nat>, i: nat)
    requires i < |nodes|
    ensures GroupsFor(temp, humid, nodes[..i + 1]) == GroupsFor(temp, humid, nodes[..i]) + GroupOf(temp, humid, nodes[i])
  {
    assert nodes[..i + 1][..i] == nodes[..i];
  }

  /** One step of the `zip(ndlist, tempave, humidave)` loop over the
      precomputed averages. */
  lemma {:induction false} ZipStep(temp: seq<Entry>, humid: seq<Entry>, tempave: seq<Option<real>>, humidave: seq<Option<real>>, i: nat)
    requires tempave == [Average(temp, 0), Average(temp, 1), Average(temp, 2), Average(temp, 3)]
    requires humidave == [Average(humid, 0), Average(humid, 1), Average(humid, 2), Average(humid, 3)]
    requires i < |PublishedNodes|
    ensures var t, rh := tempave[i], humidave[i];
      GroupsFor(temp, humid, PublishedNodes[..i + 1]) == GroupsFor(temp, humid, PublishedNodes[..i])
        + if t.Some? && rh.Some? && t.value != 0.0 && rh.value != 0.0
          then [Group(PublishedNodes[i], t.value, rh.value)] else []
  {
    assert PublishedNodes[i] == i;
    GroupsForExtend(temp, humid, PublishedNodes, i);
  }

  /** Everything one connected publish pass sends: at most four groups, one
      per node at most, in increasing node order. */
  function PublishedGroups(temp: seq<Entry>, humid: seq<Entry>): (gs: seq<Group>)
    ensures |gs| <= 4
    ensures InNodeOrder(gs)
  {
    GroupsForOrdered(temp, humid, PublishedNodes);
    GroupsFor(temp, humid, PublishedNodes)
  }

  /** A group is published exactly for a node of `nodes` whose filtered
      temperature and humidity averages both exist and are non-zero, and it
      carries those two averages. */
  lemma {:induction false} GroupsForIff(temp: seq<Entry>, humid: seq<Entry>, nodes: seq<nat>, g: Group)
    ensures g in GroupsFor(temp, humid, nodes) <==>
      g.node in nodes
      && Average(temp, g.node) == Some(g.temperature) && Average(humid, g.node) == Some(g.humidity)
      && g.temperature != 0.0 && g.humidity != 0.0
    decreases |nodes|
  {
    if nodes != [] {
      var init := nodes[..|nodes| - 1];
      GroupsForIff(temp, humid, init, g);
      assert nodes == init + [nodes[|nodes| - 1]];
    }
  }

  /** The publish decision of one pass, both ways: node `g.node` is published
      as `g` if and only if it is one of nodes 0 to 3 and both of its averages
      are non-zero. Nodes 4 and 5 are never published. */
  lemma {:induction false} PublishedIff(temp: seq<Entry>, humid: seq<Entry>, g: Group)
    ensures g in PublishedGroups(temp, humid) <==>
      g.node < 4
      && Average(temp, g.node) == Some(g.temperature) && Average(humid, g.node) == Some(g.humidity)
      && g.temperature != 0.0 && g.humidity != 0.0
  {
    GroupsForIff(temp, humid, PublishedNodes, g);
    PublishedNodesBelowFour(g.node);
  }

  lemma PublishedNodesBelowFour(k: nat)
    ensures k in PublishedNodes <==> k < 4
  {
    if k < 4 {
      assert PublishedNodes[k] == k;
    }
  }

  /** Groups listed in strictly increasing node order. */
  predicate InNodeOrder(gs: seq<Group>)
  {
    forall i, j :: 0 <= i < j < |gs| ==> gs[i].node < gs[j].node
  }

  /** Groups come out in the order of `nodes`, so at most one per node. */
  lemma {:induction false} GroupsForOrdered(temp: seq<Entry>, humid: seq<Entry>, nodes: seq<nat>)
    requires forall i, j :: 0 <= i < j < |nodes| ==> nodes[i] < nodes[j]
    ensures InNodeOrder(GroupsFor(temp, humid, nodes))
    decreases |nodes|
  {
    if nodes != [] {
      var init := nodes[..|nodes| - 1];
      var last := nodes[|nodes| - 1];
      GroupsForOrdered(temp, humid, init);
      forall g | g in GroupsFor(temp, humid, init)
        ensures g.node < last
      {
        GroupsForIff(temp, humid, init, g);
      }
      var gs := GroupsFor(temp, humid, nodes);
      var head := GroupsFor(temp, humid, init);
      assert InNodeOrder(head);
      assert gs == head + GroupOf(temp, humid, last);
      forall i, j | 0 <= i < j < |gs|
        ensures gs[i].node < gs[j].node
      {
        if j >= |head| {
          assert gs[j] == GroupOf(temp, humid, last)[0] && gs[j].node == last;
          assert i < |head| && gs[i] == head[i];
          assert head[i] in head;
          assert head[i].node < last;
        } else {
          assert gs[i] == head[i] && gs[j] == head[j];
          assert head[i].node < head[j].node;
        }
      }
    }
  }

  /** The filter, by occurrence count: a non-negative value `v` occurs in the
      node's filtered list as often as the entry `[k, v]` occurs in the list,
      and a negative value never occurs; zeros are kept. */
  lemma {:induction false} ValuesCount(entries: seq<Entry>, k: nat, v: real)
    ensures multiset(Values(entries, k))[v] == if v >= 0.0 then multiset(entries)[Entry(k, v)] else 0
  {
    if entries != [] {
      ValuesCount(entries[1..], k, v);
      assert entries == [entries[0]] + entries[1..];
    }
  }

  lemma {:induction false} SumConcat(a: seq<real>, b: seq<real>)
    ensures Sum(a + b) == Sum(a) + Sum(b)
  {
    if a != [] {
      SumConcat(a[1..], b);
      assert (a + b)[1..] == a[1..] + b;
      assert Sum(a + b) == (a + b)[0] + Sum((a + b)[1..]);
    } else {
      assert a + b == b;
    }
  }

  /** Taking out the element at `j` takes its value out of the sum and one
      copy of it out of the multiset. */
  lemma {:induction false} SumRemove(b: seq<real>, j: nat)
    requires j < |b|
    ensures Sum(b) == b[j] + Sum(b[..j] + b[j + 1..])
    ensures multiset(b[..j] + b[j + 1..]) == multiset(b) - multiset{b[j]}
  {
    var tail := [b[j]] + b[j + 1..];
    assert b == b[..j] + tail;
    SumConcat(b[..j], tail);
    assert tail[1..] == b[j + 1..];
    assert Sum(tail) == b[j] + Sum(b[j + 1..]);
    SumConcat(b[..j], b[j + 1..]);
  }

  /** The sum of a list depends only on its multiset of elements. */
  lemma {:induction false} SumPermutation(a: seq<real>, b: seq<real>)
    requires multiset(a) == multiset(b)
    ensures Sum(a) == Sum(b)
    decreases |a|
  {
    if a == [] {
      assert |b| == |multiset(b)| == 0;
    } else {
      var x := a[0];
      assert x in multiset(a);
      assert x in b;
      var j :| 0 <= j < |b| && b[j] == x;
      var rest := b[..j] + b[j + 1..];
      SumRemove(b, j);
      assert a == [x] + a[1..];
      assert multiset(a[1..]) == multiset(a) - multiset{x};
      SumPermutation(a[1..], rest);
      assert Sum(a) == x + Sum(a[1..]);
    }
  }

  /** A node's average depends only on the multiset of the entries, not on
      the order in which frames arrived. */
  lemma {:induction false} AverageIgnoresOrder(e1: seq<Entry>, e2: seq<Entry>, k: nat)
    requires multiset(e1) == multiset(e2)
    ensures Average(e1, k) == Average(e2, k)
  {
    var v1, v2 := Values(e1, k), Values(e2, k);
    forall v
      ensures multiset(v1)[v] == multiset(v2)[v]
    {
      ValuesCount(e1, k, v);
      ValuesCount(e2, k, v);
    }
    assert multiset(v1) == multiset(v2);
    assert |v1| == |multiset(v1)| == |multiset(v2)| == |v2|;
    SumPermutation(v1, v2);
  }

  lemma {:induction false} SumNonNegative(vals: seq<real>)
    requires forall v :: v in vals ==> v >= 0.0
    ensures Sum(vals) >= 0.0
    ensures Sum(vals) == 0.0 <==> forall v :: v in vals ==> v == 0.0
  {
    if vals != [] {
      assert forall v :: v in vals[1..] ==> v in vals;
      SumNonNegative(vals[1..]);
      assert vals[0] in vals;
      assert Sum(vals) == vals[0] + Sum(vals[1..]);
      assert forall v :: v in vals ==> v == vals[0] || v in vals[1..];
    }
  }

  /** A node with filtered values has a zero average, and is skipped, exactly
      when every one of those values is zero. */
  lemma {:induction false} AverageZeroIff(entries: seq<Entry>, k: nat)
    requires Average(entries, k).Some?
    ensures Average(entries, k).value >= 0.0
    ensures Average(entries, k).value == 0.0 <==> forall v :: v in Values(entries, k) ==> v == 0.0
  {
    var vals := Values(entries, k);
    SumNonNegative(vals);
    var n := |vals| as real;
    assert Mean(vals) * n == Sum(vals);
    if Mean(vals) == 0.0 {
      assert Sum(vals) == 0.0 * n;
    }
    if Mean(vals) != 0.0 {
      assert Mean(vals) * n != 0.0;
      assert Sum(vals) != 0.0;
      var w :| w in vals && w != 0.0;
      assert w in Values(entries, k);
    }
  }

  lemma {:induction false} SumBounds(vals: seq<real>, lo: real, hi: real)
    requires forall v :: v in vals ==> lo <= v <= hi
    ensures |vals| as real * lo <= Sum(vals) <= |vals| as real * hi
  {
    SumAtLeast(vals, lo);
    SumAtMost(vals, hi);
  }

  lemma {:induction false} SumAtLeast(vals: seq<real>, lo: real)
    requires forall v :: v in vals ==> lo <= v
    ensures |vals| as real * lo <= Sum(vals)
  {
    if vals != [] {
      var rest := vals[1..];
      assert forall v :: v in rest ==> v in vals;
      SumAtLeast(rest, lo);
      assert vals[0] in vals;
      assert Sum(vals) == vals[0] + Sum(rest);
      var n := |rest| as real;
      assert |vals| as real * lo == n * lo + lo by {
        assert |vals| as real == n + 1.0;
      }
    }
  }

  lemma {:induction false} SumAtMost(vals: seq<real>, hi: real)
    requires forall v :: v in vals ==> v <= hi
    ensures Sum(vals) <= |vals| as real * hi
  {
    if vals != [] {
      var rest := vals[1..];
      assert forall v :: v in rest ==> v in vals;
      SumAtMost(rest, hi);
      assert vals[0] in vals;
      assert Sum(vals) == vals[0] + Sum(rest);
      var n := |rest| as real;
      assert |vals| as real * hi == n * hi + hi by {
        assert |vals| as real == n + 1.0;
      }
    }
  }

  /** The average lies between the smallest and the largest filtered value. */
  lemma {:induction false} AverageWithinBounds(entries: seq<Entry>, k: nat, lo: real, hi: real)
    requires Average(entries, k).Some?
    requires forall v :: v in Values(entries, k) ==> lo <= v <= hi
    ensures lo <= Average(entries, k).value <= hi
  {
    var vals := Values(entries, k);
    SumBounds(vals, lo, hi);
    var n, m, total := |vals| as real, Mean(vals), Sum(vals);
    assert n > 0.0 && m == total / n;
    assert lo <= m by {
      assert (m - lo) * n == total - lo * n;
    }
    assert m <= hi by {
      assert (hi - m) * n == hi * n - total;
    }
  }

  /** The example of a bucket with one negative sample: it is left out, and
      the average of 21.5 and 22.0 is published. */
  lemma NegativeSampleExcluded()
    ensures Values([Entry(0, 21.5), Entry(0, -1.0), Entry(0, 22.0)], 0) == [21.5, 22.0]
    ensures Average([Entry(0, 21.5), Entry(0, -1.0), Entry(0, 22.0)], 0) == Some(21.75)
  {
    var e := [Entry(0, 21.5), Entry(0, -1.0), Entry(0, 22.0)];
    assert e[1..] == [Entry(0, -1.0), Entry(0, 22.0)];
    assert e[1..][1..] == [Entry(0, 22.0)];
  }

  // ---------------------------------------------------------------------
  // The shared lists and the two tasks that use them
  // ---------------------------------------------------------------------

  /** The lists of the shared `Common` object. */
  class Aggregator {
    var temp: seq<Entry>
    var humid: seq<Entry>
    var rxnode: seq<nat>

    /** `main`: all three lists start empty. */
    constructor ()
      ensures temp == [] && humid == [] && rxnode == []
    {
      temp := [];
      humid := [];
      rxnode := [];
    }

    /** One pass of the `collectnodes` loop over the frames drained in one
        listen window, followed by the node's own readings. */
    method CollectNodes(frames: seq<Frame>, ownTemp: real, ownRh: real) returns (fault: Option<Fault>)
      modifies this
      ensures Collected(Buckets(temp, humid), fault)
           == CollectWindow(Buckets(old(temp), old(humid)), frames, ownTemp, ownRh)
      ensures rxnode == old(rxnode)
    {
      var k := 0;
      while k < |frames|
        invariant 0 <= k <= |frames|
        invariant rxnode == old(rxnode)
        invariant CollectFrames(Buckets(temp, humid), frames[k..])
               == CollectFrames(Buckets(old(temp), old(humid)), frames)
      {
        var msg := frames[k];
        assert frames[k..][0] == msg && frames[k..][1..] == frames[k + 1..];
        var rxnodeid := NodeOf(msg.id);
        if rxnodeid.Err? {
          return Some(rxnodeid.fault);
        }
        var msgUnpack := Decode(msg.data);
        if msgUnpack.Err? {
          return Some(msgUnpack.fault);
        }
        if msg.id % 2 == 0 {
          temp := temp + [Entry(rxnodeid.value, msgUnpack.value)];
        } else {
          humid := humid + [Entry(rxnodeid.value, msgUnpack.value)];
        }
        k := k + 1;
      }
      temp := temp + [Entry(NodeId, ownTemp)];
      humid := humid + [Entry(NodeId, ownRh)];
      fault := None;
    }

    /** One pass of `publishtoaio`, given whether the telemetry service is
        connected after the reconnect attempt: the groups sent, in order.
        Connected, the three lists are emptied however many nodes were
        skipped; not connected, nothing is sent and nothing changes. */
    method PublishToAio(connected: bool) returns (published: seq<Group>)
      modifies this
      ensures connected ==> published == PublishedGroups(old(temp), old(humid))
      ensures connected ==> temp == [] && humid == [] && rxnode == []
      ensures !connected ==> published == [] && temp == old(temp) && humid == old(humid) && rxnode == old(rxnode)
    {
      var t0, h0 := temp, humid;
      var tempave := [Average(t0, 0), Average(t0, 1), Average(t0, 2), Average(t0, 3)];
      var humidave := [Average(h0, 0), Average(h0, 1), Average(h0, 2), Average(h0, 3)];
      published := [];
      if connected {
        for i := 0 to |PublishedNodes|
          invariant published == GroupsFor(t0, h0, PublishedNodes[..i])
        {
          var node, t, rh := PublishedNodes[i], tempave[i], humidave[i];
          ZipStep(t0, h0, tempave, humidave, i);
          if t.Some? && rh.Some? && t.value != 0.0 && rh.value != 0.0 {
            published := published + [Group(node, t.value, rh.value)];
          }
        }
        assert PublishedNodes[..|PublishedNodes|] == PublishedNodes;
        assert published == PublishedGroups(t0, h0);
        rxnode := [];
        temp := [];
        humid := [];
      }
    }
  }

  /** The gateway's own frames go out under identifiers 6 and 7 (6 for both
      if the payloads are equal), which receivers map back to node 3. */
  lemma {:induction false} OwnFrameIds(temperature: real, humidity: real)
    requires 0.0 <= temperature < 65536.0 && 0.0 <= humidity < 65536.0
    ensures NodeOffset == Offset(NodeId)
    ensures var frames := SendFrames(temperature, humidity, NodeOffset).value;
      && |frames| == 2
      && frames[0].id == 6
      && frames[1].id == (if frames[1].data == frames[0].data then 6 else 7)
      && NodeOf(frames[0].id) == Ok(NodeId) && NodeOf(frames[1].id) == Ok(NodeId)
  {
    TwoFrameIds(temperature, humidity, NodeOffset);
  }

  /** End to end: the two frames a node sends, filed by the gateway into
      empty lists, give one temperature and one humidity entry for that node
      (when the payloads differ), each decoded to within a thousandth below
      the reading, followed by the gateway's own readings. */
  lemma {:induction false} SentReadingsFiled(n: nat, temperature: real, humidity: real, ownTemp: real, ownRh: real)
    requires n < MaxNodes
    requires 0.0 <= temperature < 65536.0 && 0.0 <= humidity < 65536.0
    requires Encode(temperature) != Encode(humidity)
    ensures var frames := SendFrames(temperature, humidity, Offset(n)).value;
      var c := CollectWindow(Buckets([], []), frames, ownTemp, ownRh);
      && c.fault == None
      && |c.buckets.temp| == 2 && |c.buckets.humid| == 2
      && c.buckets.temp[0].node == n && c.buckets.humid[0].node == n
      && c.buckets.temp[0].value <= temperature < c.buckets.temp[0].value + 1.0 / 1000.0
      && c.buckets.humid[0].value <= humidity < c.buckets.humid[0].value + 1.0 / 1000.0
      && c.buckets.temp[1] == Entry(NodeId, ownTemp) && c.buckets.humid[1] == Entry(NodeId, ownRh)
  {
    DecodeEncodeBound(temperature);
    DecodeEncodeBound(humidity);
    var frames := SendFrames(temperature, humidity, Offset(n)).value;
    var t, h := Decode(Encode(temperature).value).value, Decode(Encode(humidity).value).value;
    SentEntries(n, temperature, humidity);
    CollectWindowAppends(Buckets([], []), frames, ownTemp, ownRh);
    assert CollectWindow(Buckets([], []), frames, ownTemp, ownRh).buckets
        == Buckets([Entry(n, t), Entry(NodeId, ownTemp)], [Entry(n, h), Entry(NodeId, ownRh)]);
  }

  /** The reference entries of the two frames a node sends with distinct
      payloads: one temperature and one humidity entry of that node. */
  lemma {:induction false} SentEntries(n: nat, temperature: real, humidity: real)
    requires n < MaxNodes
    requires 0.0 <= temperature < 65536.0 && 0.0 <= humidity < 65536.0
    requires Encode(temperature) != Encode(humidity)
    ensures var frames := SendFrames(temperature, humidity, Offset(n)).value;
      && (forall f :: f in frames ==> Receivable(f))
      && TempEntries(frames) == [Entry(n, Decode(Encode(temperature).value).value)]
      && HumidEntries(frames) == [Entry(n, Decode(Encode(humidity).value).value)]
  {
    TwoFrameIds(temperature, humidity, Offset(n));
    var frames := SendFrames(temperature, humidity, Offset(n)).value;
    EntriesOfPair(frames[0], frames[1]);
    assert frames == [frames[0], frames[1]];
  }

  /** The reference entries of a temperature frame followed by a humidity
      frame. */
  lemma {:induction false} EntriesOfPair(f0: Frame, f1: Frame)
    requires Receivable(f0) && Receivable(f1) && f0.id % 2 == 0 && f1.id % 2 == 1
    ensures forall f :: f in [f0, f1] ==> Receivable(f)
    ensures TempEntries([f0, f1]) == [Entry(f0.id / 2, Decode(f0.data).value)]
    ensures HumidEntries([f0, f1]) == [Entry(f1.id / 2, Decode(f1.data).value)]
  {
    EntriesOfFirst([f0, f1]);
    EntriesOfFirst([f1]);
    assert [f0, f1][1..] == [f1] && [f1][1..] == [];
  }
}
