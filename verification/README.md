# DCC-EX bridge: framing, routing and client set

This project models the sequential core of `rails/dcc-ex/bridge.py`. That program joins three transports:

- a DCC-EX command station on a serial line;
- an MQTT broker (commands on `rails49/dcc-ex/cmd`, status on `rails49/dcc-ex/status/<opcode>`, TCP traffic echoed on `rails49/dcc-ex/tcp-2560`);
- raw TCP clients on port 2560.

With the asyncio, paho-mqtt and pyserial plumbing removed, the core is string and set logic. The model has five modules.

- `Text`: the Python string primitives the bridge relies on. These are `str.isspace`, `strip`, `lstrip(ch)`, `rstrip(ch)` and `find` (which returns -1 when the character is absent).
- `Framing`: `wrap_message`. It strips whitespace, then every leading `<`, then every trailing `>`, then whitespace again, and wraps what is left as `<content>`. When nothing is left it returns `""`.
- `Extraction`: the bracket-frame scanner that both read loops run over their accumulation buffer.
  - `Scan` is its specification: the slices emitted, in order, and the buffer left behind.
  - `FrameBuffer` is the buffer object, and its `ExtractFrames` is the `while "<" in buffer and ">" in buffer` loop.
  - `CutLine` / `TakeLine` model the TCP handler's line fallback.
- `Routing`: what each kind of input causes, as a list of relay actions. The actions are an MQTT publish, a `send_to_serial` and a `broadcast_to_tcp`. This module also holds the opcode to status-topic mapping.
- `DccBridge`: the `Bridge` object.
  - Its state is the serial-writer flag, the set of TCP clients, and a log of every effect written to MQTT, to the serial line and to each TCP client.
  - Its methods are the source's handlers, and each is proved to perform exactly the actions `Routing` assigns to its input.
  - The failure oracle is a parameter: `broken` is the set of clients whose writes fail.
  - Python's set iteration order is unspecified, so one broadcast is specified relationally. `Delivered` means every target receives the message exactly once, in some order, and nobody else receives anything.

The model follows the code as written. Where the code departs from its own docstring (bridge.py:25), or from what a reader might expect, it is listed here:

- `lstrip("<")` / `rstrip(">")` remove every leading `<` and every trailing `>`, not just one. As a result, `wrap_message` is not idempotent: `"<< <s>>"` gives `"<<s>"`, which then gives `"<s>"`. `WrapFixpoint` states exactly when it is a fixpoint.
- Frames cut from the serial buffer are stripped but not passed through `wrap_message`, so `"< x>"` is forwarded as it stands.
- A TCP command is broadcast to every TCP client, the sender included.
- The docstring of `wrap_message` (bridge.py:25) promises a result "strictly wrapped in < > with no internal partial brackets". The code does not keep that promise: only brackets at the two ends are removed, so `"a<b"` gives `"<a<b>"` (`WrapKeepsInnerBracket`) and `"<< <s>>"` gives `"<<s>"` (`WrapNotIdempotent`).
- The line fallback tests only that the buffer has a newline and no `<`. A `>` in the buffer does not stop it.
- The line fallback runs at most once per read (bridge.py:191 is an `if`, not a loop). When one read brings `"a\nb\n"`, only `"a"` is relayed; `"b\n"` stays buffered until another read arrives, and is never relayed if none does (`FallbackOncePerRead`).
- Once set, `serial_writer` is never cleared. After the first successful serial connection, `serialOpen` stays true.

## Model

| member | source | states |
|---|---|---|
| Text.Strip | rails/dcc-ex/bridge.py:26 | `strip()` never lengthens a string and leaves no whitespace at either end |
| Text.StripEmptyIff | rails/dcc-ex/bridge.py:27 | `strip()` leaves nothing exactly when every character is whitespace (both directions) |
| Text.StripIdempotent | rails/dcc-ex/bridge.py:66 | stripping twice is stripping once |
| Text.StripFirst | rails/dcc-ex/bridge.py:150-152 | the first character kept by `strip()` is the first non-whitespace character |
| Text.Find | rails/dcc-ex/bridge.py:134 | `find` returns -1 or an index in range that holds the character |
| Text.LStripCut | rails/dcc-ex/bridge.py:26 | `LStrip` models `lstrip("<")`: what it cuts is a prefix made only of droppable characters, and the first character it keeps is not droppable, so the cut is the longest such prefix |
| Text.RStripCut | rails/dcc-ex/bridge.py:26 | `RStrip` models `rstrip(">")`: what it cuts is a suffix made only of droppable characters, and the last character it keeps is not droppable, so the cut is the longest such suffix |
| Text.FindFirst | rails/dcc-ex/bridge.py:134 | `find` returns -1 exactly when the character is absent; otherwise the character does not occur before that index |
| Framing.Content | rails/dcc-ex/bridge.py:26 | the kept content is no longer than the message and has no outer whitespace |
| Framing.WrapMessage | rails/dcc-ex/bridge.py:24-29 | the result is `""` or `<` + content + `>` with non-blank content and no outer whitespace inside the brackets; it is `""` exactly when the content is empty |
| Framing.WrappedIsBracketed | rails/dcc-ex/bridge.py:108 | every non-empty `wrap_message` result passes the serial guard `startswith("<") and endswith(">")` |
| Framing.IsBracketed | rails/dcc-ex/bridge.py:108 | the serial guard `startswith("<") and endswith(">")`; a message that passes has at least two characters, so a lone `<` or `>` never does |
| Framing.WrapIgnoresPadding | rails/dcc-ex/bridge.py:66-69 | the extra `strip()` in `on_mqtt_message` changes nothing, and a blank payload wraps to `""` |
| Framing.WrapEmptyShape | rails/dcc-ex/bridge.py:26-28 | a message that wraps to `""` is whitespace, a run of `<`, whitespace, a run of `>`, whitespace |
| Framing.BlankWrapsToEmpty | rails/dcc-ex/bridge.py:26-28 | conversely, every message of that shape wraps to `""` |
| Framing.ContentCut | rails/dcc-ex/bridge.py:26 | for a message without outer whitespace, the content is the part between its leading `<` run and its trailing `>` run, stripped |
| Framing.RewrapShrinks | rails/dcc-ex/bridge.py:26 | re-wrapping a result whose content starts with `<` or ends with `>` loses at least one more character |
| Framing.RewrapKeeps | rails/dcc-ex/bridge.py:26 | re-wrapping a result whose content neither starts with `<` nor ends with `>` gives it back unchanged |
| Framing.WrapFixpoint | rails/dcc-ex/bridge.py:26 | `wrap(wrap(x)) == wrap(x)` exactly when `wrap(x)` is `""` or its content neither starts with `<` nor ends with `>` |
| Framing.WrapKeepsInnerBracket | rails/dcc-ex/bridge.py:25-29 | `"a<b"` wraps to `"<a<b>"`, so the result can hold a `<` inside, contrary to the docstring |
| Framing.WrapNotIdempotent | rails/dcc-ex/bridge.py:26 | `"<< <s>>"` wraps to `"<<s>"`, which wraps to `"<s>"` |
| Framing.WrapBareCommand | rails/tests/test_bridge.py:131-136 | `"J Q"` wraps to `"<J Q>"` |
| Framing.WrapEmptyBrackets | rails/dcc-ex/bridge.py:27-28 | `"<>"` wraps to `""` and is dropped |
| Extraction.Scan | rails/dcc-ex/bridge.py:133-141 | the buffer left by the scanning loop is never longer than the buffer it started from |
| Extraction.ScanStep | rails/dcc-ex/bridge.py:134-141 | one pass: the first `<` and first `>` differ; if `>` comes later the slice is emitted and the buffer moves past it, otherwise everything before `<` is dropped |
| Extraction.ScanSettled | rails/dcc-ex/bridge.py:133 | the loop does nothing to a buffer lacking `<` or `>` |
| Extraction.CutIsFrame | rails/dcc-ex/bridge.py:135-136 | the slice from the first `<` to the first `>` starts with `<`, ends with `>` and holds exactly one `>` |
| Extraction.ScanShape | rails/dcc-ex/bridge.py:133-141 | on exit the buffer lacks `<` or `>`, the buffer strictly shrinks whenever the loop runs, and every emitted slice is a frame |
| Extraction.ScanDecomposes | rails/dcc-ex/bridge.py:133-141 | the buffer is the emitted frames in order, separated by discarded gaps without `<`, followed by what stays buffered |
| Extraction.FindAppend | rails/dcc-ex/bridge.py:134 | text appended after the first occurrence does not change `find` |
| Extraction.ScanAppend | rails/dcc-ex/bridge.py:132-141 | scanning after each read emits the same frames in the same order, and keeps the same remainder, as scanning the concatenated stream |
| Extraction.SplitFrameOnce | rails/dcc-ex/bridge.py:132-141 | `"<s"` in one read and `">"` in the next yield exactly one `"<s>"` |
| Extraction.GarbageThenTwoFrames | rails/dcc-ex/bridge.py:133-141 | `"garbage<JOIN><PING>"` yields `"<JOIN>"` then `"<PING>"` and leaves nothing |
| Extraction.FindAt | rails/dcc-ex/bridge.py:134 | `find` returns the first index holding the character |
| Extraction.CutLine | rails/dcc-ex/bridge.py:191-197 | the fallback fires exactly when there is a newline and no `<`; otherwise the buffer is untouched; when it fires, the buffer strictly shrinks from the front and the line is stripped and free of newlines and `<` |
| Extraction.CutLineConsumesLine | rails/dcc-ex/bridge.py:192-197 | the line relayed is the stripped first line, and exactly that line and its newline are consumed if and only if the line is unpadded |
| Extraction.PaddedLineResidue | rails/dcc-ex/bridge.py:192-197 | `"  ab\n"` relays `"ab"` and leaves `"b\n"` buffered |
| Extraction.FallbackOncePerRead | rails/dcc-ex/bridge.py:190-197 | the fallback is an `if`, not a loop: `"a\nb\n"` relays only `"a"` and leaves `"b\n"` buffered |
| Extraction.ResidueRelaysAgain | rails/dcc-ex/bridge.py:191-192 | that residue later yields the line `"b"` |
| Extraction.FrameBuffer.constructor | rails/dcc-ex/bridge.py:127 | a new buffer is empty |
| Extraction.FrameBuffer.Feed | rails/dcc-ex/bridge.py:132 | the decoded chunk is appended to the buffer |
| Extraction.FrameBuffer.ExtractFrames | rails/dcc-ex/bridge.py:177-188 | the loop emits `Scan`'s frames in order and leaves `Scan`'s remainder buffered |
| Extraction.FrameBuffer.TakeLine | rails/dcc-ex/bridge.py:191-197 | the fallback returns `CutLine`'s line and leaves `CutLine`'s remainder |
| Routing.TopicSuffix | rails/dcc-ex/bridge.py:152-158 | `#` becomes `"hash"`, `+` becomes `"plus"`, any other opcode is its own suffix; no suffix is empty or contains `#` or `+` |
| Routing.TopicSuffixInjective | rails/dcc-ex/bridge.py:154-158 | distinct opcodes get distinct suffixes |
| Routing.StatusTopic | rails/dcc-ex/bridge.py:150-160 | no topic exactly when the content between the brackets is blank; otherwise the topic is the status prefix plus a suffix and holds no wildcard |
| Routing.InnerShape | rails/dcc-ex/bridge.py:150 | `Inner` models `msg[1:-1]`: it is `""` for messages shorter than two, and otherwise the message is its first character, `Inner`, and its last character |
| Routing.StatusTopicOpcode | rails/dcc-ex/bridge.py:150-160 | the suffix is that of the first non-blank character after `<` |
| Routing.HashOpcodeTopic | rails/dcc-ex/bridge.py:155-156 | `"<#BUSY>"` is published under `.../status/hash` |
| Routing.OutboundActions | rails/dcc-ex/bridge.py:146-163 | `process_outbound` gives exactly `[Publish(topic, msg), ToTcp(msg)]` when the frame has a status topic and exactly `[ToTcp(msg)]` when it has none (blank content); it never writes to serial |
| Routing.RelayActions | rails/dcc-ex/bridge.py:82-87 | `relay_inbound` takes three actions with an echo topic and two without: the echo publish first when there is one, then the serial send, then the broadcast |
| Routing.MqttActions | rails/dcc-ex/bridge.py:64-87 | an MQTT payload that wraps to something goes to serial, then to TCP, with no publish; one that wraps to `""` does nothing |
| Routing.TcpFrameActions | rails/dcc-ex/bridge.py:180-186 | a TCP frame that wraps to something is published to `tcp-2560`, sent to serial and broadcast; one that wraps to `""` does nothing |
| Routing.TcpLineActions | rails/dcc-ex/bridge.py:192-196 | the fallback line, when there is one, is relayed like a frame |
| Routing.SerialFrameActions | rails/dcc-ex/bridge.py:136-138 | a serial frame never goes to serial, does nothing exactly when blank after `strip()`, and otherwise ends with a broadcast of the stripped frame |
| Routing.SerialFrameVerbatim | rails/dcc-ex/bridge.py:136 | a cut serial frame reaches `process_outbound` as it stands |
| Routing.SerialFrameNotNormalised | rails/dcc-ex/bridge.py:136 | `"< x>"` is published and broadcast as `"< x>"`, though `wrap_message` would change it |
| Routing.BlankFrameNotPublished | rails/dcc-ex/bridge.py:150-151 | `"<>"` is broadcast but not published |
| Routing.SerialBatch | rails/dcc-ex/bridge.py:133-141 | a serial read's frames never cause a serial write action |
| Routing.TcpBatchEmpty | rails/dcc-ex/bridge.py:177-188 | the in-order relays of one TCP read's frames (`TcpBatch`) are empty exactly when every frame wraps to `""` (both directions) |
| Routing.TcpBatchShape | rails/dcc-ex/bridge.py:177-188 | a TCP read publishes only to `tcp-2560` and sends only bracketed commands to serial |
| DccBridge.DeliveredOnly | rails/dcc-ex/bridge.py:93-100 | a broadcast writes only the message, and only to clients of the snapshot that did not fail |
| DccBridge.DeliveredReaches | rails/dcc-ex/bridge.py:93-100 | every client of the snapshot that does not fail gets the message |
| DccBridge.DeliveredOnce | rails/dcc-ex/bridge.py:93-100 | no client gets it twice |
| DccBridge.DeliveredSize | rails/dcc-ex/bridge.py:93-100 | there is one write per such client |
| DccBridge.PerformsAppend | rails/dcc-ex/bridge.py:82-87 | performing two action lists in turn performs their concatenation, with the logs concatenated |
| DccBridge.ClientsOnlyShrink | rails/dcc-ex/bridge.py:89-100 | whatever is relayed, no client is added, and a client is dropped only when its write failed |
| DccBridge.NoSerialWrite | rails/dcc-ex/bridge.py:146-163 | actions without `send_to_serial` write nothing to serial |
| DccBridge.SerialWritesGuarded | rails/dcc-ex/bridge.py:102-113 | nothing reaches serial without a writer, and whatever reaches it is a `<...>` command and a newline |
| DccBridge.SerialNeverEchoed | rails/dcc-ex/bridge.py:133-141 | status read from serial is never written back to serial |
| DccBridge.OutboundEffects | rails/dcc-ex/bridge.py:150-163 | `process_outbound` writes the status publish, when there is a topic, and then one delivery to the surviving clients |
| DccBridge.SerialFrameEffects | rails/dcc-ex/bridge.py:146-163 | a serial frame is published once to its status topic when not blank, then delivered verbatim to every surviving client |
| DccBridge.TcpCommandEffects | rails/dcc-ex/bridge.py:82-87 | a TCP command is published to `tcp-2560`, then written to serial when there is a writer, then delivered to every surviving client |
| DccBridge.TcpEchoesToSender | rails/dcc-ex/bridge.py:185 | a sender that stays connected receives its own command back |
| DccBridge.MqttCommandEffects | rails/dcc-ex/bridge.py:64-87 | an MQTT command is written to serial when there is a writer, then delivered to every surviving client |
| DccBridge.MqttNotEchoed | rails/tests/test_bridge.py:84-101 | nothing an MQTT command causes is published to MQTT |
| DccBridge.SecondOfThreeFails | rails/dcc-ex/bridge.py:89-100 | of clients 1, 2, 3 with 2 failing: 1 and 3 get the message, 2 gets nothing and is dropped, and the next broadcast reaches exactly 1 and 3 |
| DccBridge.EmptyCommandDropped | rails/dcc-ex/bridge.py:181-182 | an MQTT or TCP command that wraps to `""` has no effect and leaves the client set alone |
| DccBridge.Bridge.constructor | rails/dcc-ex/bridge.py:33-40 | no serial writer, no TCP clients, nothing written |
| DccBridge.Bridge.SendToSerial | rails/dcc-ex/bridge.py:102-115 | `msg` and a newline are written exactly when there is a writer and `msg` is bracketed; nothing else changes |
| DccBridge.Bridge.BroadcastToTcp | rails/dcc-ex/bridge.py:89-100 | the client set becomes the old set minus the failing clients; the new log entries deliver `msg` and a newline once to each surviving client; an empty set writes nothing |
| DccBridge.Bridge.RelayInbound | rails/dcc-ex/bridge.py:82-87 | the log grows by exactly what performing the optional echo publish, the serial send and the broadcast writes |
| DccBridge.Bridge.ProcessOutbound | rails/dcc-ex/bridge.py:146-163 | the log grows by exactly what performing `OutboundActions` writes |
| DccBridge.Bridge.OnMqttMessage | rails/dcc-ex/bridge.py:64-80 | the log grows by exactly what performing `MqttActions` writes |
| DccBridge.Bridge.OpenSerial | rails/dcc-ex/bridge.py:120-127 | the writer is set and the serial read buffer starts empty |
| DccBridge.Bridge.HandleSerialFrame | rails/dcc-ex/bridge.py:136-138 | one serial frame performs `SerialFrameActions` |
| DccBridge.Bridge.HandleSerialFrames | rails/dcc-ex/bridge.py:133-141 | the frames of one serial read are processed in order |
| DccBridge.Bridge.OnSerialData | rails/dcc-ex/bridge.py:129-141 | one serial read leaves `Scan`'s remainder buffered and performs the actions of `Scan`'s frames in order |
| DccBridge.Bridge.AcceptTcp | rails/dcc-ex/bridge.py:168-169 | the client joins the set with an empty buffer; nothing else changes |
| DccBridge.Bridge.HandleTcpFrame | rails/dcc-ex/bridge.py:180-186 | one TCP frame performs `TcpFrameActions` |
| DccBridge.Bridge.HandleTcpFrames | rails/dcc-ex/bridge.py:177-188 | the frames of one TCP read are relayed in order |
| DccBridge.Bridge.HandleTcpLine | rails/dcc-ex/bridge.py:191-197 | the line fallback trims the buffer as `CutLine` does and relays its line |
| DccBridge.Bridge.OnTcpData | rails/dcc-ex/bridge.py:172-197 | one TCP read relays `Scan`'s frames in order, then the fallback line, and leaves the fallback's remainder buffered |
| DccBridge.Bridge.CloseTcp | rails/dcc-ex/bridge.py:200-201 | the client leaves the set; nothing else changes |

## Left out

- Concurrency is not modelled. This covers `asyncio.gather` in `relay_inbound`, the `serial_lock`, and the hand-off of MQTT callbacks through `call_soon_threadsafe` / `create_task`. Handlers run one at a time and one action after another. In `relay_inbound`, the serial write is ordered before the TCP writes, because with a free lock `send_to_serial` writes before its first suspension point. Client sets changed by other coroutines during a broadcast's `drain` are not modelled.
- DccBridge.Bridge.OnMqttMessage: it assumes `self.loop` is set, because `run` sets it before MQTT connects. The relay is not shown to be deferred to the event loop.
- DccBridge.Bridge.BroadcastToTcp: a client in `broken` is taken to fail at `write`, and no write is logged for it. A write that is buffered and then fails at `drain` also drops the client, and the model does not record that partial delivery.
- The failure oracle `broken` is one set for a whole handler call, so a client either fails every write of that call or none. Within one read, a client whose write succeeds for one frame and fails for a later frame cannot be expressed through `OnTcpData` or `OnSerialData`; such a run is only reachable by calling `HandleTcpFrame` / `HandleSerialFrame` frame by frame with different sets.
- Serial write errors are not modelled. The source catches them and logs them, and nothing else changes.
- Serial connection handling is not modelled: `open_serial_connection`, EOF, and the reconnect loop with `asyncio.sleep(5)`. `OpenSerial` models a successful (re)connection. `serial_writer` is never cleared in the source, so there is no operation that closes it.
- Reading with `read(1024)`, byte decoding with `errors="ignore"`, and `.encode()` are not modelled. Chunks arrive as decoded strings, and data written is the string itself.
- DccBridge.Bridge.OnMqttMessage: `on_mqtt_message` decodes the payload strictly (bridge.py:66, no `errors="ignore"`); an undecodable payload raises and is dropped by the `except` at bridge.py:79-80. The model receives the payload already decoded, so that drop is not modelled.
- MQTT client creation, the `on_connect` subscription, `loop_start`, and paho's `publish` are not modelled. A publish is a logged effect. Delivery of the payload to `on_mqtt_message` is the call itself.
- `start_server`, `serve_forever`, `get_extra_info`, `w.close()` and the exception handling around the TCP read loop are not modelled. `CloseTcp` models the `finally` clause's `discard`.
- `check_for_updates` hot reload, environment configuration, `serial.tools.list_ports` and logging are not modelled.
