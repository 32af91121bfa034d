# PhoneCAN node protocol core, in Dafny

PhoneCAN is a set of three CircuitPython programs for environmental sensor
nodes on one CAN bus. Each node measures temperature and relative humidity
and broadcasts both readings. The home node (node 0) shows either its own
readings or those of a remote node selected by a button click. The gateway
node (node 3) collects every reading, averages it per node and publishes the
averages to a telemetry service. Remote node 2 only sends.

This project models the logic the three programs share, with sensor
readings, received frames and connection status passed in as parameters:

- `Faults` (`codec.dfy`): the two Python exceptions the core raises on
  data frames (`struct.error`, `IndexError`), a `Result` type and an
  `Option` type.
- `Codec` (`codec.dfy`): the fixed-point wire codec. `divmod(v, 1)` splits a
  reading, the fraction becomes truncated thousandths, and
  `struct.pack('<HH', …)` packs both as little-endian unsigned 16-bit fields.
  The receiver computes `u0 + u1/1000`. Readings are `real`, bytes are
  integers in 0..255.
- `Addressing` (`addressing.dfy`): the receivers' `meastonodeid` table,
  identifier parity (even is temperature, odd is humidity) and
  `offset = 2*nodeid`.
- `Sender` (`sender.dfy`): one pass of the send loop used by all three
  programs. It packs both readings into `measlist`, then sends each payload
  under `measlist.index(meas) + offset`.
- `HomeNode` (`homenode.dfy`): the display selector. The class `Display`
  holds the selected button, the click kind, `send_interval` and the
  display group `splash`. Its methods are the click handler of
  `button_listener` and one pass of `button_func`, which edits `splash` in
  place by "pop index i if present, then insert at i".
- `Gateway` (`gateway.dfy`): the aggregator. The class `Aggregator` holds the
  shared `temp`, `humid` and `rxnode` lists. `CollectNodes` is one pass of
  `collectnodes`, and `PublishToAio` is one pass of `publishtoaio`: filtered
  per-node means, the publish decision, and clearing on the connected branch.
- `Remote2` (`remote2.dfy`): node 2's constants and what its main loop sends.

Four behaviours of the code that are easy to misread are modelled as the
code has them:

- The fraction is truncated (`int(1000*st)`), not rounded. A decoded value
  is never above the reading and is less than 0.001 below it.
- An identifier past the table raises `IndexError`. There is no "unknown"
  result, and the exception ends the window's processing.
- (button "b", single click) selects node 1, although the header comment
  at code_homenode.py:7 says button B shows "remote 0". Node 0 is the home
  node itself, selected by (button "a", single click).
- The gateway clears its lists only when the telemetry service is
  connected. When it is not connected, the lists are kept.

A `temp` or `humid` entry is filtered out when its value is negative. An
empty filtered list has no mean in the model (see "Left out").

## Model

| member | source | states |
|---|---|---|
| `Codec.Split` | code_homenode.py:183-187 | the integer part is the floor of the reading, the fraction field is in [0, 999], and the two together bracket the reading to within one thousandth below it |
| `Codec.Pack` | code_homenode.py:184 | packing succeeds exactly when both fields fit an unsigned 16-bit integer, and it then yields 4 bytes |
| `Codec.PackLayoutAndUnpack` | code_sendnode.py:188 | the packed payload is `[lo(i), hi(i), lo(f), hi(f)]`, and unpacking it returns `(i, f)` for every `i, f` in [0, 65535] |
| `Codec.Unpack` | code_sendnode.py:232 | unpacking succeeds exactly on 4-byte data and yields two fields in [0, 65535] |
| `Codec.PackUnpack` | code_homenode.py:120 | packing the two unpacked fields gives back the same four bytes |
| `Codec.Decode` | code_homenode.py:120 | decoding succeeds exactly on 4-byte data and never yields a negative value |
| `Codec.Encode` | code_remote2.py:62-63 | encoding succeeds exactly for readings in [0, 65536), and then yields four bytes; a negative temperature makes `pack` raise |
| `Codec.DecodeEncodeBound` | code_sendnode.py:187-188 | for a reading in range, decode(encode(v)) ≤ v and v − decode(encode(v)) < 0.001, because the fraction is truncated |
| `Codec.EncodeDecode` | code_sendnode.py:232 | a 4-byte payload whose fraction field is at most 999 re-encodes after decoding into exactly the same bytes |
| `Addressing.NodeOf` | code_homenode.py:114 | the table lookup raises `IndexError` exactly for identifiers ≥ 12, and otherwise gives node `id / 2` (one of nodes 0 to 5) |
| `Addressing.KindOf` | code_sendnode.py:236-239 | the kind read from an identifier is the one under which node `id / 2` sends exactly that identifier |
| `Addressing.AddressRoundTrip` | code_homenode.py:9-12 | for each node 0 to 5 and each kind, the identifier `2*node + parity` maps back to that node and that kind |
| `Addressing.IdentifierDecodes` | code_homenode.py:36 | every identifier in the table is the address of the node and kind it decodes to, and every node's addresses lie inside the table |
| `Sender.IndexOf` | code_remote2.py:71 | `list.index` gives a position holding the payload with no equal payload before it |
| `Sender.Frames` | code_remote2.py:69-71 | the loop attempts one frame per payload, in order; the k-th carries payload k under an identifier between `offset` and `offset + k` that names a position holding an equal payload |
| `Sender.SendFrames` | code_remote2.py:62-73 | one pass produces frames exactly when both readings pack; otherwise it raises before anything is sent |
| `Sender.SendCycle` | code_remote2.py:54-74 | the loop body attempts exactly two sends, temperature then humidity, matching `SendFrames`; a failed send is not retried |
| `Sender.FrameIdIsFirstOccurrence` | code_remote2.py:69-71 | the k-th payload goes out under `offset + k` exactly when no earlier payload is equal to it; otherwise it goes out under the identifier of the first equal payload, the one with no equal payload before it |
| `Sender.TwoFrameIds` | code_homenode.py:189-192 | temperature goes out under `offset`, humidity under `offset + 1`, except that byte-equal payloads both go out under `offset` |
| `Sender.OutOfRangeSendsNothing` | code_sendnode.py:187-192 | a reading outside [0, 65536) makes the pass raise `struct.error` before either reading is sent |
| `Sender.DuplicatePayloadCollides` | code_remote2.py:71 | readings 22.5 °C and 22.5 %RH on node 2 send the humidity frame under identifier 4, which receivers treat as a temperature |
| `Sender.IntendedFrames` | code_remote2.py:5-7 | the corrected rule keeps the payloads in order and gives them strictly increasing identifiers from `offset`, whatever the payloads |
| `Sender.IntendedIdsAddressByKind` | code_remote2.py:5-7 | with position-based identifiers, a node's humidity frame always carries its odd identifier and maps back to its node and kind |
| `Sender.FramesAgreeWhenDistinct` | code_sendnode.py:193-196 | `index`-based and position-based identifiers agree exactly when no payload repeats an earlier one |
| `HomeNode.Replaced` | code_homenode.py:129-131 | replacing slot i keeps the length and overwrites element i when the list is longer than i, and otherwise appends; no other element changes |
| `HomeNode.PopInsertIsReplace` | code_homenode.py:88-90 | "pop i if len > i, then insert at i" with Python's `pop` and `insert` is exactly that slot replacement |
| `HomeNode.SelectionIsUnique` | code_homenode.py:78-81 | each (button, click) pair selects at most one node, and only ("a", single click) selects the home node |
| `HomeNode.HomeView` | code_homenode.py:87-98 | showing the home node keeps the five static elements and puts the "Home" title, the temperature and the humidity at slots 5, 6 and 7 |
| `HomeNode.RenderFrame` | code_homenode.py:114-141 | a frame raises exactly when its identifier is ≥ 12, its data is not 4 bytes or its node is 4 or 5; an accepted frame changes the display only when the selection is that node's (button, click) pair |
| `HomeNode.DisplayedFrameSlots` | code_homenode.py:128-141 | on a built display, a shown frame keeps the length and sets slot 5 to "Remote n"; an even identifier replaces only slot 6 and an odd one only slot 7; nothing else changes |
| `HomeNode.RenderFrames` | code_homenode.py:103-141 | a window completes exactly when every frame has a known identifier of nodes 0 to 3 and 4-byte data; a window with no frame of the selected node leaves the display as it was |
| `HomeNode.LatestReadingShown` | code_homenode.py:119-141 | after a completed window on a built display, the temperature slot (humidity slot) holds the decoded value of the selected node's last even (odd) frame, or its old content when there was none; the length and the static elements stay |
| `HomeNode.RemoteTemperatureShown` | code_homenode.py:119-136 | a remote node's temperature frame, under that node's selection, shows its title and a value at most 0.001 below the reading in slot 6 |
| `HomeNode.OwnFrameIds` | code_homenode.py:183-192 | the home node sends under identifiers 0 and 1 (0 for both if the payloads are equal), which map back to node 0 |
| `HomeNode.Display.constructor` | code_homenode.py:266-308 | nothing is selected at start, `send_interval` is 1, and `splash` holds the five static elements |
| `HomeNode.Display.StartListener` | code_homenode.py:154-155 | the click listener starts by selecting ("a", single click) and changes nothing else |
| `HomeNode.Display.OnClick` | code_homenode.py:157-168 | after a click, `send_interval` is 0 exactly when both the button and the click kind differ from the previous ones, and otherwise it is the default of 1 |
| `HomeNode.Display.ReplaceSlot` | code_homenode.py:92-94 | the pop-then-insert edit of `splash` is the slot replacement and touches no other field |
| `HomeNode.Display.ShowHome` | code_homenode.py:81-98 | the home branch writes the three home labels into slots 5, 6 and 7 |
| `HomeNode.Display.ShowFrames` | code_homenode.py:103-141 | the listening branch handles the window's frames in order, as `RenderFrames` states, and stops at the first exception |
| `HomeNode.Display.Refresh` | code_homenode.py:80-141 | under ("a", single click) one pass shows the home readings; under any other selection it shows the listen window's frames |
| `Gateway.FileFrame` | code_sendnode.py:229-239 | a frame raises exactly when its identifier is ≥ 12 or its data is not 4 bytes; otherwise exactly one entry, `[id / 2, decoded value]`, is appended, to `temp` for an even identifier and to `humid` for an odd one |
| `Gateway.CollectWindowAppends` | code_sendnode.py:216-241 | a window of well-formed frames appends one entry per frame, `[id/2, decoded]`, to `temp` for even identifiers and to `humid` for odd ones, in arrival order, then one `[3, own reading]` entry to each list |
| `Gateway.CollectFramesAppends` | code_sendnode.py:220-239 | the frames of a window contribute exactly their even-identifier entries to `temp` and odd-identifier entries to `humid` |
| `Gateway.CollectFrames` | code_sendnode.py:220-239 | a window's frames are filed without an exception exactly when every frame has a known identifier and 4-byte data; the lists only grow at the end |
| `Gateway.CollectWindow` | code_sendnode.py:216-241 | the same exception condition for the whole pass; entries present before it stay in place, and a completed pass ends each list with the node's own reading |
| `Gateway.Values` | code_sendnode.py:258 | the filtered list of a node holds only non-negative values and is no longer than the list |
| `Gateway.Average` | code_sendnode.py:258-265 | a node has no mean exactly when none of its entries is non-negative |
| `Gateway.ValuesCount` | code_sendnode.py:258-265 | a non-negative value occurs in node k's filtered list as often as `[k, value]` occurs in the list; negative values never occur and zeros are kept |
| `Gateway.SumPermutation` | code_sendnode.py:258-265 | the sum of the values depends only on their multiset |
| `Gateway.AverageIgnoresOrder` | code_sendnode.py:258-265 | a node's mean depends only on the multiset of the entries, not on the order frames arrived in |
| `Gateway.AverageZeroIff` | code_sendnode.py:268 | a node's mean is non-negative, and it is zero, so the node is skipped, exactly when every filtered value is zero |
| `Gateway.AverageWithinBounds` | code_sendnode.py:258-265 | the mean lies between any lower and upper bound of the filtered values |
| `Gateway.NegativeSampleExcluded` | code_sendnode.py:258 | for node 0 values 21.5, −1.0 and 22.0, the filtered list is [21.5, 22.0] and the mean is 21.75 |
| `Gateway.GroupsFor` | code_sendnode.py:267-268 | the zip loop publishes at most one group per listed node, each for a listed node with two non-zero means |
| `Gateway.GroupsForIff` | code_sendnode.py:267-279 | a group is published exactly for a listed node whose two means exist and are non-zero, and it carries those means |
| `Gateway.PublishedIff` | code_sendnode.py:255-279 | a group is published for node k if and only if k is 0 to 3 and both of its means exist and are non-zero; nodes 4 and 5 are never published |
| `Gateway.GroupsForOrdered` | code_sendnode.py:267 | groups come out in the order of the node list |
| `Gateway.PublishedGroups` | code_sendnode.py:255-267 | one publish pass sends at most four groups, in increasing node order, at most one per node |
| `Gateway.Aggregator.constructor` | code_sendnode.py:295-297 | the three shared lists start empty |
| `Gateway.Aggregator.CollectNodes` | code_sendnode.py:216-241 | one `collectnodes` pass updates `temp` and `humid` as `CollectWindow` states and leaves `rxnode` alone |
| `Gateway.Aggregator.PublishToAio` | code_sendnode.py:255-290 | connected: the published groups are `PublishedGroups` of the lists, and `temp`, `humid` and `rxnode` are emptied however many nodes were skipped; not connected: nothing is published and nothing changes |
| `Gateway.OwnFrameIds` | code_sendnode.py:187-197 | the gateway sends under identifiers 6 and 7 (6 for both if the payloads are equal), which map back to node 3 |
| `Gateway.SentReadingsFiled` | code_sendnode.py:229-241 | two distinct payloads sent by node n and collected into empty lists give one entry for node n per list, each at most 0.001 below the reading, followed by the gateway's own readings |
| `Remote2.OwnFrameIds` | code_remote2.py:62-71 | node 2 sends temperature under identifier 4 and humidity under 5 (4 for both if the payloads are equal), and both map back to node 2 |
| `Remote2.NegativeTemperatureSendsNothing` | code_remote2.py:62-66 | a negative temperature makes the pass raise before either reading is sent |

## Findings

| source | as written | input that shows it | evidently intended | confidence | as-written member | corrected member |
|---|---|---|---|---|---|---|
| code_remote2.py:71 (also code_homenode.py:192 and code_sendnode.py:196) | the identifier is `measlist.index(meas) + offset`, the position of the first equal payload | temperature 22.5 and humidity 22.5 on node 2: both payloads are `[22, 0, 244, 1]`, so both frames go out under identifier 4 and receivers file the humidity as a temperature | the identifier is the payload's position plus `offset`, so humidity always goes out under the odd identifier | medium, not executed | `Sender.DuplicatePayloadCollides` | `Sender.IntendedIdsAddressByKind` |

The send loop (`Sender.SendCycle`) is modelled as written, because it decides
what actually goes on the bus. The corrected addressing is
`Sender.IntendedFrames`. `Sender.FramesAgreeWhenDistinct` proves that the
corrected addressing and the code give the same identifiers exactly when
no payload repeats an earlier one.

## Left out

- The MCP2515 CAN driver is not modelled: `listen`, `in_waiting`, `receive`,
  `send`, and the bus-state check and restart (`canstate`,
  code_homenode.py:70-74 and code_remote2.py:51-53). The frames drained in
  one listen window are a parameter. A send is modelled as the frame it
  attempts, because its result is ignored (code_homenode.py:193,
  code_sendnode.py:197) or only logged (code_remote2.py:73).
- Remote transmission requests are not modelled: only data frames are
  inputs. `receive()` can also return a `RemoteTransmissionRequest`
  (imported at code_homenode.py:22 and code_sendnode.py:19; the
  `isinstance` tests at code_homenode.py:110-113 are commented out). Such a
  frame has no `data`, so `msg.data` (code_homenode.py:116,
  code_sendnode.py:232) would raise `AttributeError` and stop the program.
- Sensor drivers and board, SPI and I2C set-up are not modelled. Readings are
  parameters.
- displayio, the label objects, their positions and colours, the `text_area`
  list, `"{:.2f}"` formatting, the SH1107 display and the neopixel are not
  modelled. A label is a `Widget` value.
- Wi-Fi, MQTT, Adafruit IO, `reconnect`, `disconnect` and the feed names are
  not modelled. Connectivity after the reconnect attempt is a boolean
  parameter. `publish_multiple` is the emitted list of `Group` values.
- asyncio tasks, `sleep`, `gather` and the interleaving of tasks are not
  modelled. Each `while True` loop is modelled one pass at a time.
  `send_interval` is stored, but the sleep it controls is not modelled.
- An exception stops the whole program on every node. On the home node and
  the gateway, the tasks run under `asyncio.gather` without
  `return_exceptions` (code_homenode.py:312, code_sendnode.py:307), so the
  first exception leaves `main` and `asyncio.run`. Remote 2 runs one plain
  `while True` loop with no handler (code_remote2.py:50-74). The model returns the
  exception as a `Fault` and stops that pass, keeping the earlier in-place
  edits. It does not model the program ending.
- The `struct.unpack` inside the log line at code_homenode.py:116 is modelled
  only as the check that raises on data that is not 4 bytes. All other
  `print` logging, `gc` and memory reports are left out.
- Floating point is not modelled: readings are reals. The rounding error of
  `1000*st` and of the float sum inside the mean is ignored.
- `Gateway.Aggregator.PublishToAio`: does not model the result of
  `ulab.numpy.mean` on an empty filtered list, because that foreign
  library's behaviour (nan or an exception) is not visible. The model gives
  such a node no mean (`Average` is `None`), and the node is not published.
- `rxnode` is never appended to in the source, because that line is
  commented out. The model only clears it.
- CAN identifiers are natural numbers. Python's negative list indices cannot
  occur for an identifier.
