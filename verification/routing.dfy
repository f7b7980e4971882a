/** Where each message goes, by origin (rails/dcc-ex/bridge.py:64-87 and
    146-197): the opcode-to-status-topic mapping and, for every kind of
    input, the list of relay actions the bridge takes. */
module Routing {
  import opened Text
  import opened Framing
  import opened Extraction

  const StatusPrefix: string := "rails49/dcc-ex/status/"
  const TcpTopic: string := "rails49/dcc-ex/tcp-2560"

  /** One relay step: an MQTT publish, a `send_to_serial`, a `broadcast_to_tcp`. */
  datatype Action = Publish(topic: string, payload: string) | ToSerial(msg: string) | ToTcp(msg: string)

  /** Python's `msg[1:-1]`, which is "" for messages shorter than two. */
  function Inner(msg: string): string {
    if |msg| < 2 then "" else msg[1..|msg| - 1]
  }

  /** `msg[1:-1]` is what lies between the first and the last character,
      and nothing for a message shorter than two. */
  lemma InnerShape(msg: string)
    ensures |msg| < 2 ==> Inner(msg) == ""
    ensures |msg| >= 2 ==> msg == [msg[0]] + Inner(msg) + [msg[|msg| - 1]]
  {
    if |msg| >= 2 {
      assert msg == [msg[0]] + msg[1..|msg| - 1] + [msg[|msg| - 1]];
    }
  }

  /** The topic suffix for an opcode, with the MQTT wildcards renamed. */
  function TopicSuffix(opcode: char): (r: string)
    ensures r != [] && '#' !in r && '+' !in r
    ensures opcode == '#' ==> r == "hash"
    ensures opcode == '+' ==> r == "plus"
    ensures opcode != '#' && opcode != '+' ==> r == [opcode]
  {
    if opcode == '#' then "hash" else if opcode == '+' then "plus" else [opcode]
  }

  /** No two opcodes share a status topic. */
  lemma TopicSuffixInjective(a: char, b: char)
    requires TopicSuffix(a) == TopicSuffix(b)
    ensures a == b
  {
    if a == '#' || a == '+' || b == '#' || b == '+' {
      assert TopicSuffix(a)[0] == TopicSuffix(b)[0];
      assert |TopicSuffix(a)| == |TopicSuffix(b)|;
    }
  }

  /** The status topic `process_outbound` publishes a serial frame to, or
      None when the frame's content is blank. */
  function StatusTopic(msg: string): (r: Option<string>)
    ensures r.None? <==> All(Inner(msg), IsSpace)
    ensures r.Some? ==> |r.value| > |StatusPrefix| && r.value[..|StatusPrefix|] == StatusPrefix
    ensures r.Some? ==> '#' !in r.value && '+' !in r.value
  {
    StripEmptyIff(Inner(msg));
    var content := Strip(Inner(msg));
    if content == "" then None
    else
      var t := StatusPrefix + TopicSuffix(content[0]);
      assert t[..|StatusPrefix|] == StatusPrefix;
      NoWildcards(StatusPrefix, TopicSuffix(content[0]));
      Some(t)
  }

  lemma NoWildcards(p: string, s: string)
    requires p == StatusPrefix && '#' !in s && '+' !in s
    ensures '#' !in p + s && '+' !in p + s
  {
    forall i | 0 <= i < |p + s|
      ensures (p + s)[i] != '#' && (p + s)[i] != '+'
    {
      if i >= |p| {
        assert (p + s)[i] == s[i - |p|];
      }
    }
  }

  /** The opcode is the first non-blank character between the brackets. */
  lemma StatusTopicOpcode(msg: string, k: nat)
    requires k < |Inner(msg)| && All(Inner(msg)[..k], IsSpace) && !IsSpace(Inner(msg)[k])
    ensures StatusTopic(msg) == Some(StatusPrefix + TopicSuffix(Inner(msg)[k]))
  {
    StripFirst(Inner(msg), k);
  }

  // The worked cases below name their input through a parameter pinned by
  // `requires` (character by character, or equal to a literal) rather than
  // writing the literal in the `ensures`: with the literal in the goal the
  // verifier unfolds the string functions on it eagerly and runs out of
  // resource. Each lemma is still a statement about that one input.

  /** Worked case: `<#BUSY>` is published under `hash`, never under a topic
      ending in the `#` wildcard. */
  lemma HashOpcodeTopic(f: string)
    requires f == "<#BUSY>"
    ensures StatusTopic(f) == Some(StatusPrefix + "hash")
  {
    assert Inner(f) == "#BUSY";
    assert Inner(f)[..0] == "";
    StatusTopicOpcode(f, 0);
  }

  /** `relay_inbound(msg, mqtt_echo_topic)`; "" stands for no echo topic. */
  function RelayActions(msg: string, echo: string): (acts: seq<Action>)
    ensures |acts| == (if echo != "" then 3 else 2)
    ensures echo != "" ==> acts[0] == Publish(echo, msg)
    ensures acts[|acts| - 2] == ToSerial(msg) && acts[|acts| - 1] == ToTcp(msg)
  {
    (if echo != "" then [Publish(echo, msg)] else []) + [ToSerial(msg), ToTcp(msg)]
  }

  /** `process_outbound(msg)`: publish to the status topic when there is
      one, then broadcast. */
  function OutboundActions(msg: string): (acts: seq<Action>)
    ensures 1 <= |acts| <= 2 && acts[|acts| - 1] == ToTcp(msg)
    ensures |acts| == 2 <==> !All(Inner(msg), IsSpace)
    ensures forall a | a in acts :: !a.ToSerial?
    ensures StatusTopic(msg).Some? ==> acts == [Publish(StatusTopic(msg).value, msg), ToTcp(msg)]
    ensures StatusTopic(msg).None? ==> acts == [ToTcp(msg)]
  {
    match StatusTopic(msg)
    case Some(t) => [Publish(t, msg), ToTcp(msg)]
    case None => [ToTcp(msg)]
  }

  /** `on_mqtt_message`: a command that survives strip and `wrap_message`
      goes to serial and to every TCP client, and is not echoed to MQTT. */
  function MqttActions(payload: string): (acts: seq<Action>)
    ensures acts == [] <==> WrapMessage(payload) == ""
    ensures acts != [] ==> acts == [ToSerial(WrapMessage(payload)), ToTcp(WrapMessage(payload))]
  {
    WrapIgnoresPadding(payload);
    var raw := Strip(payload);
    if raw == "" then []
    else
      var clean := WrapMessage(raw);
      if clean == "" then [] else RelayActions(clean, "")
  }

  /** One frame cut from a TCP client's buffer: wrapped, then echoed to the
      tcp-2560 topic, sent to serial and broadcast to every TCP client. */
  function TcpFrameActions(raw: string): (acts: seq<Action>)
    ensures acts == [] <==> WrapMessage(raw) == ""
    ensures acts != [] ==> acts == [Publish(TcpTopic, WrapMessage(raw)), ToSerial(WrapMessage(raw)), ToTcp(WrapMessage(raw))]
  {
    var clean := WrapMessage(raw);
    if clean == "" then [] else RelayActions(clean, TcpTopic)
  }

  /** The line fallback's relay: a non-empty line is treated like a frame. */
  function TcpLineActions(line: Option<string>): (acts: seq<Action>)
    ensures line.None? ==> acts == []
    ensures line.Some? ==> acts == TcpFrameActions(line.value)
  {
    match line
    case None => []
    case Some(l) =>
      if l == "" then
        WrapIgnoresPadding(l);
        []
      else
        var clean := WrapMessage(l);
        if clean == "" then [] else RelayActions(clean, TcpTopic)
  }

  /** One frame cut from the serial buffer: stripped, then passed to
      `process_outbound`; it never goes back to serial. */
  function SerialFrameActions(raw: string): (acts: seq<Action>)
    ensures forall a | a in acts :: !a.ToSerial?
    ensures acts == [] <==> Strip(raw) == ""
    ensures acts != [] ==> acts[|acts| - 1] == ToTcp(Strip(raw))
  {
    var msg := Strip(raw);
    if msg == "" then [] else OutboundActions(msg)
  }

  /** A frame the scanner cuts is forwarded verbatim, without `wrap_message`. */
  lemma SerialFrameVerbatim(f: string)
    requires IsFrameSlice(f)
    ensures SerialFrameActions(f) == OutboundActions(f)
  {
    StripUnpadded(f);
  }

  /** `"< x>"` reaches TCP clients as `"< x>"`, not as the `"<x>"` that
      `wrap_message` would make of it. */
  lemma SerialFrameNotNormalised(f: string)
    requires f == "< x>"
    ensures IsFrameSlice(f)
    ensures SerialFrameActions(f) == [Publish(StatusPrefix + "x", f), ToTcp(f)]
    ensures WrapMessage(f) != f
  {
    assert f[..|f| - 1] == "< x";
    SerialFrameVerbatim(f);
    assert Inner(f) == " x";
    assert Inner(f)[..1] == " ";
    StatusTopicOpcode(f, 1);
    var w := WrapMessage(f);
    if w != "" {
      assert !IsSpace(w[1]);
    }
  }

  /** `<>` and other frames with blank content are broadcast but not published. */
  lemma BlankFrameNotPublished(f: string)
    requires f == "<>"
    ensures SerialFrameActions(f) == [ToTcp(f)]
  {
    assert Inner(f) == "";
    SerialFrameVerbatim(f);
  }

  /** A serial read's frames, processed in order. */
  function SerialBatch(frames: seq<string>): (acts: seq<Action>)
    ensures forall a | a in acts :: !a.ToSerial?
    decreases |frames|
  {
    if frames == [] then []
    else SerialBatch(frames[..|frames| - 1]) + SerialFrameActions(frames[|frames| - 1])
  }

  /** A TCP read's frames, processed in order. */
  function TcpBatch(frames: seq<string>): seq<Action>
    decreases |frames|
  {
    if frames == [] then [] else TcpBatch(frames[..|frames| - 1]) + TcpFrameActions(frames[|frames| - 1])
  }

  lemma ConcatEmpty(xs: seq<Action>, ys: seq<Action>, zs: seq<Action>)
    requires zs == xs + ys
    ensures zs == [] <==> xs == [] && ys == []
  {
    if zs == [] {
      assert |xs| + |ys| == 0;
    }
  }

  /** A TCP read relays nothing exactly when every frame wraps to "". */
  lemma {:induction false} TcpBatchEmpty(frames: seq<string>)
    ensures TcpBatch(frames) == [] <==> forall i | 0 <= i < |frames| :: WrapMessage(frames[i]) == ""
    decreases |frames|
  {
    if frames != [] {
      var init := frames[..|frames| - 1];
      TcpBatchEmpty(init);
      TcpBatchLast(frames);
      AllSnoc(frames, init, f => WrapMessage(f) == "");
    }
  }

  /** One step of the fold: the read relays nothing iff its earlier frames
      relay nothing and its last frame wraps to "". */
  lemma TcpBatchLast(frames: seq<string>)
    requires frames != []
    ensures TcpBatch(frames) == [] <==>
            TcpBatch(frames[..|frames| - 1]) == [] && WrapMessage(frames[|frames| - 1]) == ""
  {
    var last := frames[|frames| - 1];
    ConcatEmpty(TcpBatch(frames[..|frames| - 1]), TcpFrameActions(last), TcpBatch(frames));
  }

  lemma AllSnoc(xs: seq<string>, init: seq<string>, p: string -> bool)
    requires xs != [] && init == xs[..|xs| - 1]
    ensures (forall i | 0 <= i < |xs| :: p(xs[i])) <==>
            (forall i | 0 <= i < |init| :: p(init[i])) && p(xs[|xs| - 1])
  {
    assert forall i | 0 <= i < |init| :: init[i] == xs[i];
  }

  /** What a TCP read publishes goes to the tcp-2560 topic only, and what it
      sends to serial is always a bracketed command. */
  lemma {:induction false} TcpBatchShape(frames: seq<string>)
    ensures forall a | a in TcpBatch(frames) :: TcpShaped(a)
    decreases |frames|
  {
    if frames != [] {
      var init, last := frames[..|frames| - 1], frames[|frames| - 1];
      TcpBatchShape(init);
      TcpFrameShape(last);
      ShapedConcat(TcpBatch(init), TcpFrameActions(last));
    }
  }

  /** The shape of every action a TCP read takes. */
  predicate TcpShaped(a: Action) {
    (a.Publish? ==> a.topic == TcpTopic) && (a.ToSerial? ==> IsBracketed(a.msg))
  }

  lemma TcpFrameShape(raw: string)
    ensures forall a | a in TcpFrameActions(raw) :: TcpShaped(a)
  {
    var w := WrapMessage(raw);
    if w != "" {
      WrappedIsBracketed(raw);
      RelayShaped(w);
    }
  }

  lemma RelayShaped(w: string)
    requires IsBracketed(w)
    ensures forall a | a in RelayActions(w, TcpTopic) :: TcpShaped(a)
  {
  }

  lemma ShapedConcat(x: seq<Action>, y: seq<Action>)
    requires forall a | a in x :: TcpShaped(a)
    requires forall a | a in y :: TcpShaped(a)
    ensures forall a | a in x + y :: TcpShaped(a)
  {
  }
}
