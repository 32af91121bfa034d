/**
 * The home node (node 0): it sends its own readings, and a display selector
 * chooses, from the last button click, whether the display group `splash`
 * shows the node's own sensor or the frames of one remote node.
 */
module HomeNode {
  import opened Faults
  import opened Codec
  import opened Addressing
  import opened Sender

  /** `nodeid = 0` and `offset = 0`. */
  const NodeId: nat := 0
  const NodeOffset: nat := 0

  /** The module-level `send_interval`, restored after most clicks. */
  const DefaultSendInterval := 1

  datatype Button = A | B | C
  datatype Click = SingleClick | DoubleClick | TripleClick | LongClick

  /** `nodetobutton` and `nodetoclick`: node `n` is shown after a click of
      kind `NodeToClick[n]` on button `NodeToButton[n]`. */
  const NodeToButton: seq<Button> := [A, B, C, C]
  const NodeToClick: seq<Click> := [SingleClick, SingleClick, SingleClick, LongClick]

  /** An element of the display group `splash`; labels are reduced to what
      they show, `"{:.2f}"` formatting is not modelled. */
  datatype Widget =
    | Background
    | InnerBorder
    | StaticLabel(text: string)
    | HomeTitle
    | RemoteTitle(node: nat)
    | Value(reading: real)

  /** The five elements `main` appends before the tasks start. */
  const InitialSplash: seq<Widget> :=
    [Background, InnerBorder, StaticLabel("Sensor Loc: "), StaticLabel("Temp (C): "), StaticLabel("RH (%): ")]

  /** Positions of the title, temperature and humidity labels in `splash`. */
  const TitleSlot: nat := 5
  const TemperatureSlot: nat := 6
  const HumiditySlot: nat := 7

  /** Python's `list.pop(i)` for an index inside the list. */
  function Pop<T>(s: seq<T>, i: nat): seq<T>
    requires i < |s|
  {
    s[..i] + s[i + 1..]
  }

  /** Python's `list.insert(i, x)`: an index past the end inserts at the end. */
  function Insert<T>(s: seq<T>, i: nat, x: T): seq<T>
  {
    if i < |s| then s[..i] + [x] + s[i..] else s + [x]
  }

  /** What "pop `i` if present, then insert at `i`" does to a list: the
      element at `i` is overwritten when there is one, otherwise `w` goes at
      the end of the list (which may be before position `i`). */
  function Replaced<T>(s: seq<T>, i: nat, w: T): (r: seq<T>)
    ensures |r| == if i < |s| then |s| else |s| + 1
    ensures r[if i < |s| then i else |s|] == w
    ensures forall j :: 0 <= j < |s| && j != i ==> r[j] == s[j]
  {
    if i < |s| then s[i := w] else s + [w]
  }

  /** The pop-then-insert edit of `button_func` is the replacement above. */
  lemma {:induction false} PopInsertIsReplace<T>(s: seq<T>, i: nat, w: T)
    ensures (if |s| > i then Insert(Pop(s, i), i, w) else Insert(s, i, w)) == Replaced(s, i, w)
  {
    if |s| > i {
      var p := Pop(s, i);
      assert p[..i] == s[..i];
      assert p[i..] == s[i + 1..];
      assert Insert(p, i, w) == s[..i] + [w] + s[i + 1..];
    }
  }

  /** Whether the selection `(button, click)` is the one that shows node `n`. */
  predicate Selects(button: Option<Button>, click: Option<Click>, n: nat)
    requires n < |NodeToButton|
  {
    button == Some(NodeToButton[n]) && click == Some(NodeToClick[n])
  }

  /** Each selection shows at most one node, and only ("a", single click)
      shows the home node itself. */
  lemma {:induction false} SelectionIsUnique(button: Option<Button>, click: Option<Click>, n: nat, m: nat)
    requires n < |NodeToButton| && m < |NodeToButton|
    requires Selects(button, click, n) && Selects(button, click, m)
    ensures n == m
    ensures n == NodeId <==> button == Some(A) && click == Some(SingleClick)
  {
  }

  /** The three home-node labels written by the "show home" branch. Once
      `splash` holds at least its five static elements, showing the home
      node leaves those alone and puts the title, the temperature and the
      humidity at positions 5, 6 and 7. */
  function HomeView(s: seq<Widget>, homeTemp: real, homeRh: real): (r: seq<Widget>)
    ensures |s| >= TitleSlot ==>
      && |r| == (if |s| > HumiditySlot then |s| else HumiditySlot + 1)
      && r[..TitleSlot] == s[..TitleSlot]
      && r[TitleSlot] == HomeTitle
      && r[TemperatureSlot] == Value(homeTemp)
      && r[HumiditySlot] == Value(homeRh)
      && forall j :: HumiditySlot < j < |s| ==> r[j] == s[j]
  {
    var s1 := Replaced(s, TitleSlot, HomeTitle);
    var s2 := Replaced(s1, TemperatureSlot, Value(homeTemp));
    Replaced(s2, HumiditySlot, Value(homeRh))
  }

  /** One received frame in the listening branch: look up its node
      (`IndexError` past the table), unpack it for the log line
      (`struct.error` unless four bytes), look up the node's button
      (`IndexError` for nodes 4 and 5), and, when the selection shows that
      node, write the "Remote n" title and then the value into the
      temperature slot for an even identifier or the humidity slot for an odd
      one. */
  function RenderFrame(s: seq<Widget>, button: Option<Button>, click: Option<Click>, f: Frame): (r: Result<seq<Widget>>)
    ensures r.Err? <==> f.id >= |MeasToNodeId| || |f.data| != PayloadSize || f.id / 2 >= |NodeToButton|
    ensures r.Ok? && !Selects(button, click, f.id / 2) ==> r.value == s
  {
    match NodeOf(f.id)
    case Err(e) => Err(e)
    case Ok(n) =>
      if Unpack(f.data).Err? then Err(StructError)
      else if n >= |NodeToButton| then Err(IndexError)
      else if !Selects(button, click, n) then Ok(s)
      else
        var titled := Replaced(s, TitleSlot, RemoteTitle(n));
        var slot := if f.id % 2 == 0 then TemperatureSlot else HumiditySlot;
        Ok(Replaced(titled, slot, Value(Decode(f.data).value)))
  }

  /** A displayed frame on a fully built display (eight or more elements)
      keeps the length, sets the title to its node, replaces only the
      temperature slot (even identifier) or only the humidity slot (odd
      identifier) with the decoded value, and changes nothing else. */
  lemma {:induction false} DisplayedFrameSlots(s: seq<Widget>, button: Option<Button>, click: Option<Click>, f: Frame)
    requires |s| > HumiditySlot
    requires RenderFrame(s, button, click, f).Ok? && Selects(button, click, f.id / 2)
    ensures var r := RenderFrame(s, button, click, f).value;
      && |r| == |s|
      && r[TitleSlot] == RemoteTitle(f.id / 2)
      && (f.id % 2 == 0 ==> r[TemperatureSlot] == Value(Decode(f.data).value) && r[HumiditySlot] == s[HumiditySlot])
      && (f.id % 2 == 1 ==> r[HumiditySlot] == Value(Decode(f.data).value) && r[TemperatureSlot] == s[TemperatureSlot])
      && forall j :: 0 <= j < |s| && j != TitleSlot && j != TemperatureSlot && j != HumiditySlot ==> r[j] == s[j]
  {
    var titled := Replaced(s, TitleSlot, RemoteTitle(f.id / 2));
    assert |titled| == |s| && titled[TitleSlot] == RemoteTitle(f.id / 2);
  }

  /** What the display shows after a listen window, and the exception that
      ended the window early, if any (frames after it are not handled). */
  datatype Shown = Shown(splash: seq<Widget>, fault: Option<Fault>)

  /** One listen window of `button_func`: the drained frames are handled in
      arrival order, each as `RenderFrame` says, and the first exception
      ends the window with the display as the earlier frames left it. The
      window completes exactly when every frame has a known identifier of
      nodes 0 to 3 and four bytes of data; a window with no frame of the
      selected node leaves the display as it was. */
  function RenderFrames(s: seq<Widget>, button: Option<Button>, click: Option<Click>, frames: seq<Frame>): (r: Shown)
    ensures r.fault.None? <==> forall k :: 0 <= k < |frames| ==>
      frames[k].id < |MeasToNodeId| && frames[k].id / 2 < |NodeToButton| && |frames[k].data| == PayloadSize
    ensures (forall k :: 0 <= k < |frames| ==>
      frames[k].id / 2 < |NodeToButton| && !Selects(button, click, frames[k].id / 2)) ==> r.splash == s
    decreases |frames|
  {
    if frames == [] then Shown(s, None)
    else
      match RenderFrame(s, button, click, frames[0])
      case Err(e) => Shown(s, Some(e))
      case Ok(next) => RenderFrames(next, button, click, frames[1..])
  }

  /** The display slot of a reading kind. */
  function SlotOf(kind: Kind): nat
  {
    if kind == Temperature then TemperatureSlot else HumiditySlot
  }

  /** Reference definition: the decoded value of the last frame of `frames`
      that is of kind `kind` and comes from the node the selection shows. */
  function Latest(button: Option<Button>, click: Option<Click>, frames: seq<Frame>, kind: Kind): Option<real>
    decreases |frames|
  {
    if frames == [] then None
    else
      var later := Latest(button, click, frames[1..], kind);
      var f := frames[0];
      if later.Some? then later
      else if f.id / 2 < |NodeToButton| && Selects(button, click, f.id / 2)
        && KindOf(f.id) == kind && Decode(f.data).Ok?
      then Some(Decode(f.data).value)
      else None
  }

  /** After a listen window that completes on a built display, the
      temperature (humidity) slot holds the latest temperature (humidity)
      reading of the selected node, or what it held before when the window
      brought none; the length and the static elements stay. */
  lemma {:induction false} LatestReadingShown(s: seq<Widget>, button: Option<Button>, click: Option<Click>, frames: seq<Frame>, kind: Kind)
    requires |s| > HumiditySlot
    requires RenderFrames(s, button, click, frames).fault.None?
    ensures var r := RenderFrames(s, button, click, frames).splash;
      && |r| == |s|
      && r[SlotOf(kind)] == (if Latest(button, click, frames, kind).Some?
                             then Value(Latest(button, click, frames, kind).value) else s[SlotOf(kind)])
      && forall j :: 0 <= j < |s| && j != TitleSlot && j != TemperatureSlot && j != HumiditySlot ==> r[j] == s[j]
    decreases |frames|
  {
    if frames != [] {
      var f := frames[0];
      var next := RenderFrame(s, button, click, f).value;
      assert RenderFrames(s, button, click, frames) == RenderFrames(next, button, click, frames[1..]);
      if Selects(button, click, f.id / 2) {
        DisplayedFrameSlots(s, button, click, f);
        assert f.id % 2 == 0 <==> KindOf(f.id) == Temperature;
      }
      LatestReadingShown(next, button, click, frames[1..], kind);
    }
  }

  /** A frame sent by remote node `n` (1 to 3) under the selection for `n`
      shows that node's title and its temperature, decoded to within a
      thousandth below the reading, in the temperature slot. */
  lemma {:induction false} RemoteTemperatureShown(s: seq<Widget>, n: nat, temperature: real, humidity: real)
    requires 1 <= n < |NodeToButton|
    requires 0.0 <= temperature < 65536.0 && 0.0 <= humidity < 65536.0
    requires |s| > HumiditySlot
    ensures var f := SendFrames(temperature, humidity, Offset(n)).value[0];
      var r := RenderFrame(s, Some(NodeToButton[n]), Some(NodeToClick[n]), f);
      && r.Ok?
      && r.value[TitleSlot] == RemoteTitle(n)
      && r.value[TemperatureSlot].Value?
      && r.value[TemperatureSlot].reading <= temperature < r.value[TemperatureSlot].reading + 1.0 / 1000.0
  {
    TwoFrameIds(temperature, humidity, Offset(n));
    DecodeEncodeBound(temperature);
    var f := SendFrames(temperature, humidity, Offset(n)).value[0];
    assert f.id == 2 * n && f.id / 2 == n && f.id % 2 == 0;
    DisplayedFrameSlots(s, Some(NodeToButton[n]), Some(NodeToClick[n]), f);
  }

  /** The state shared by the tasks of the home node (`Context`), reduced to
      what the selector and the display use. */
  class Display {
    var selectedButton: Option<Button>
    var clickName: Option<Click>
    var sendInterval: int
    var splash: seq<Widget>

    /** `main`: nothing selected yet, the static display built. */
    constructor ()
      ensures selectedButton == None && clickName == None
      ensures sendInterval == DefaultSendInterval && splash == InitialSplash
    {
      selectedButton := None;
      clickName := None;
      sendInterval := DefaultSendInterval;
      splash := InitialSplash;
    }

    /** The start of `button_listener`: select the home node. */
    method StartListener()
      modifies this
      ensures selectedButton == Some(A) && clickName == Some(SingleClick)
      ensures sendInterval == old(sendInterval) && splash == old(splash)
    {
      selectedButton := Some(A);
      clickName := Some(SingleClick);
    }

    /** One click received by `button_listener`. */
    method OnClick(button: Button, click: Click)
      modifies this
      ensures selectedButton == Some(button) && clickName == Some(click)
      ensures sendInterval == 0 <==> Some(button) != old(selectedButton) && Some(click) != old(clickName)
      ensures sendInterval != 0 ==> sendInterval == DefaultSendInterval
      ensures splash == old(splash)
    {
      var oldSelectedButton := selectedButton;
      var oldClickName := clickName;
      selectedButton := Some(button);
      clickName := Some(click);
      if selectedButton != oldSelectedButton && clickName != oldClickName {
        sendInterval := 0;
      } else {
        sendInterval := DefaultSendInterval;
      }
    }

    /** "Pop index `i` if present, then insert at `i`" on `splash`. */
    method ReplaceSlot(i: nat, w: Widget)
      modifies this
      ensures splash == Replaced(old(splash), i, w)
      ensures selectedButton == old(selectedButton) && clickName == old(clickName)
      ensures sendInterval == old(sendInterval)
    {
      PopInsertIsReplace(splash, i, w);
      if |splash| > i {
        splash := Pop(splash, i);
      }
      splash := Insert(splash, i, w);
    }

    /** The "show home" branch of `button_func`. */
    method ShowHome(homeTemp: real, homeRh: real)
      modifies this
      ensures splash == HomeView(old(splash), homeTemp, homeRh)
      ensures selectedButton == old(selectedButton) && clickName == old(clickName)
      ensures sendInterval == old(sendInterval)
    {
      ReplaceSlot(TitleSlot, HomeTitle);
      ReplaceSlot(TemperatureSlot, Value(homeTemp));
      ReplaceSlot(HumiditySlot, Value(homeRh));
    }

    /** The listening branch of `button_func`: handle the frames drained in
      one listen window, in order, until one raises. */
    method ShowFrames(frames: seq<Frame>) returns (fault: Option<Fault>)
      modifies this
      ensures Shown(splash, fault) == RenderFrames(old(splash), selectedButton, clickName, frames)
      ensures selectedButton == old(selectedButton) && clickName == old(clickName)
      ensures sendInterval == old(sendInterval)
    {
      fault := None;
      var k := 0;
      while k < |frames|
        invariant 0 <= k <= |frames|
        invariant selectedButton == old(selectedButton) && clickName == old(clickName)
        invariant sendInterval == old(sendInterval)
        invariant RenderFrames(splash, selectedButton, clickName, frames[k..])
               == RenderFrames(old(splash), selectedButton, clickName, frames)
      {
        var msg := frames[k];
        assert frames[k..][0] == msg && frames[k..][1..] == frames[k + 1..];
        var rxnodeid := NodeOf(msg.id);
        if rxnodeid.Err? {
          return Some(rxnodeid.fault);
        }
        var n := rxnodeid.value;
        if Unpack(msg.data).Err? {
          return Some(StructError);
        }
        if n >= |NodeToButton| {
          return Some(IndexError);
        }
        if selectedButton == Some(NodeToButton[n]) && clickName == Some(NodeToClick[n]) {
          var msgUnpack := Decode(msg.data).value;
          ReplaceSlot(TitleSlot, RemoteTitle(n));
          if msg.id % 2 == 0 {
            ReplaceSlot(TemperatureSlot, Value(msgUnpack));
          } else {
            ReplaceSlot(HumiditySlot, Value(msgUnpack));
          }
        }
        k := k + 1;
      }
    }

    /** One pass of the `button_func` loop: the home node's own readings
        under ("a", single click), otherwise the frames of one listen window. */
    method Refresh(homeTemp: real, homeRh: real, frames: seq<Frame>) returns (fault: Option<Fault>)
      modifies this
      ensures Selects(old(selectedButton), old(clickName), NodeId) ==>
        splash == HomeView(old(splash), homeTemp, homeRh) && fault == None
      ensures !Selects(old(selectedButton), old(clickName), NodeId) ==>
        Shown(splash, fault) == RenderFrames(old(splash), selectedButton, clickName, frames)
      ensures selectedButton == old(selectedButton) && clickName == old(clickName)
      ensures sendInterval == old(sendInterval)
    {
      if selectedButton == Some(NodeToButton[0]) && clickName == Some(NodeToClick[0]) {
        ShowHome(homeTemp, homeRh);
        fault := None;
      } else {
        fault := ShowFrames(frames);
      }
    }
  }

  /** The home node's own frames go out under identifiers 0 and 1 (0 for
      both if the payloads are equal), which receivers map back to node 0. */
  lemma {:induction false} OwnFrameIds(temperature: real, humidity: real)
    requires 0.0 <= temperature < 65536.0 && 0.0 <= humidity < 65536.0
    ensures NodeOffset == Offset(NodeId)
    ensures var frames := SendFrames(temperature, humidity, NodeOffset).value;
      && |frames| == 2
      && frames[0].id == 0
      && frames[1].id == (if frames[1].data == frames[0].data then 0 else 1)
      && NodeOf(frames[0].id) == Ok(NodeId) && NodeOf(frames[1].id) == Ok(NodeId)
  {
    TwoFrameIds(temperature, humidity, NodeOffset);
  }
}
