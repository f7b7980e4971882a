/** The `Bridge` object of rails/dcc-ex/bridge.py:32-203: its serial writer
    flag, its set of TCP clients and the log of what it writes to MQTT, to
    the serial line and to each TCP client. */
module DccBridge {
  import opened Text
  import opened Framing
  import opened Extraction
  import opened Routing

  /** A connected TCP client (a `StreamWriter` in the source). */
  type ClientId = nat

  /** What the bridge writes to the outside world. */
  datatype Effect =
    | Published(topic: string, payload: string)
    | SerialWrite(data: string)
    | TcpWrite(client: ClientId, data: string)

  /** One broadcast's writes: each of `targets` receives `data` exactly once,
      nobody else receives anything, in some order (the source iterates over
      a set, whose order Python does not fix). */
  ghost predicate Delivered(writes: seq<Effect>, targets: set<ClientId>, data: string)
    decreases |writes|
  {
    if writes == [] then targets == {}
    else
      writes[0].TcpWrite? && writes[0].data == data && writes[0].client in targets
      && Delivered(writes[1..], targets - {writes[0].client}, data)
  }

  /** A delivery can be extended by a write to one more client. */
  lemma {:induction false} DeliveredSnoc(writes: seq<Effect>, targets: set<ClientId>, c: ClientId, data: string)
    requires Delivered(writes, targets, data) && c !in targets
    ensures Delivered(writes + [TcpWrite(c, data)], targets + {c}, data)
    decreases |writes|
  {
    var w := writes + [TcpWrite(c, data)];
    if writes == [] {
      assert w == [TcpWrite(c, data)] && w[1..] == [];
      assert (targets + {c}) - {c} == {};
    } else {
      var d := writes[0].client;
      DeliveredSnoc(writes[1..], targets - {d}, c, data);
      assert w[0] == writes[0] && w[1..] == writes[1..] + [TcpWrite(c, data)];
      assert (targets + {c}) - {d} == (targets - {d}) + {c};
    }
  }

  /** An empty stretch of the log delivers to nobody. */
  lemma DeliveredNone(l0: seq<Effect>, c: set<ClientId>, br: set<ClientId>, data: string)
    requires c == {}
    ensures Delivered(l0[|l0|..], c - br, data)
  {
    assert l0[|l0|..] == [];
    assert c - br == {};
  }

  /** The client-set bookkeeping of one broadcast step. */
  lemma ClientStep(pending: set<ClientId>, done: set<ClientId>, c0: set<ClientId>, tc: set<ClientId>,
                   br: set<ClientId>, w: ClientId)
    requires w in pending && pending !! done && pending + done == c0
    requires tc == pending + (done - br)
    ensures (pending - {w}) !! (done + {w}) && (pending - {w}) + (done + {w}) == c0
    ensures w in br ==> tc - {w} == (pending - {w}) + ((done + {w}) - br) && (done + {w}) - br == done - br
    ensures w !in br ==> tc == (pending - {w}) + ((done + {w}) - br) && w !in done - br
    ensures w !in br ==> (done - br) + {w} == (done + {w}) - br
  {
  }

  /** When the snapshot is exhausted, the failing clients are all gone. */
  lemma ClientsDone(pending: set<ClientId>, done: set<ClientId>, c0: set<ClientId>, tc: set<ClientId>,
                    br: set<ClientId>)
    requires pending == {} && pending + done == c0 && tc == pending + (done - br)
    ensures done == c0 && tc == c0 - br
  {
    assert pending + done == done;
  }

  /** Every write of a delivery is `data` to one of the targets ... */
  lemma {:induction false} DeliveredOnly(writes: seq<Effect>, targets: set<ClientId>, data: string)
    requires Delivered(writes, targets, data)
    ensures forall x | x in writes :: x.TcpWrite? && x.data == data && x.client in targets
    decreases |writes|
  {
    if writes != [] {
      DeliveredOnly(writes[1..], targets - {writes[0].client}, data);
      assert forall x | x in writes :: x == writes[0] || x in writes[1..];
    }
  }

  /** ... every target gets one ... */
  lemma {:induction false} DeliveredReaches(writes: seq<Effect>, targets: set<ClientId>, data: string, c: ClientId)
    requires Delivered(writes, targets, data) && c in targets
    ensures TcpWrite(c, data) in writes
    decreases |writes|
  {
    if writes[0].client != c {
      DeliveredReaches(writes[1..], targets - {writes[0].client}, data, c);
    }
  }

  /** ... and no client gets two. */
  lemma {:induction false} DeliveredOnce(writes: seq<Effect>, targets: set<ClientId>, data: string, i: nat, j: nat)
    requires Delivered(writes, targets, data) && i < j < |writes|
    ensures writes[i].TcpWrite? && writes[j].TcpWrite? && writes[i].client != writes[j].client
    decreases |writes|
  {
    DeliveredOnly(writes, targets, data);
    assert writes[i] in writes && writes[j] in writes;
    if i == 0 {
      DeliveredOnly(writes[1..], targets - {writes[0].client}, data);
      assert writes[j] == writes[1..][j - 1];
    } else {
      DeliveredOnce(writes[1..], targets - {writes[0].client}, data, i - 1, j - 1);
    }
  }

  /** A delivery writes exactly one message per target. */
  lemma {:induction false} DeliveredSize(writes: seq<Effect>, targets: set<ClientId>, data: string)
    requires Delivered(writes, targets, data)
    ensures |writes| == |targets|
    decreases |writes|
  {
    if writes != [] {
      DeliveredSize(writes[1..], targets - {writes[0].client}, data);
    }
  }

  /** How many effects one action produces. */
  function Width(a: Action, serialOpen: bool, clients: set<ClientId>, broken: set<ClientId>): nat {
    match a
    case Publish(_, _) => 1
    case ToSerial(m) => if serialOpen && IsBracketed(m) then 1 else 0
    case ToTcp(_) => |clients - broken|
  }

  /** The client set after one action: a broadcast drops the failing clients. */
  function Next(a: Action, clients: set<ClientId>, broken: set<ClientId>): set<ClientId> {
    if a.ToTcp? then clients - broken else clients
  }

  /** `chunk` is what one action writes. */
  ghost predicate StepOk(a: Action, serialOpen: bool, clients: set<ClientId>, broken: set<ClientId>, chunk: seq<Effect>) {
    match a
    case Publish(t, p) => chunk == [Published(t, p)]
    case ToSerial(m) => chunk == if serialOpen && IsBracketed(m) then [SerialWrite(m + "\n")] else []
    case ToTcp(m) => Delivered(chunk, clients - broken, m + "\n")
  }

  /** `effects` is what performing `acts` writes, starting with the serial
      writer open or not and the client set `clients`, when the clients in
      `broken` fail every write; `after` is the client set left behind. */
  ghost predicate Performs(acts: seq<Action>, serialOpen: bool, clients: set<ClientId>,
                           broken: set<ClientId>, effects: seq<Effect>, after: set<ClientId>)
    decreases |acts|
  {
    if acts == [] then effects == [] && after == clients
    else
      var k := Width(acts[0], serialOpen, clients, broken);
      k <= |effects| && StepOk(acts[0], serialOpen, clients, broken, effects[..k])
      && Performs(acts[1..], serialOpen, Next(acts[0], clients, broken), broken, effects[k..], after)
  }

  /** Performing a single action. */
  lemma PerformsOne(a: Action, so: bool, c: set<ClientId>, br: set<ClientId>, chunk: seq<Effect>)
    requires StepOk(a, so, c, br, chunk) && |chunk| == Width(a, so, c, br)
    ensures Performs([a], so, c, br, chunk, Next(a, c, br))
  {
    assert [a][1..] == [];
    assert chunk[..|chunk|] == chunk && chunk[|chunk|..] == [];
  }

  lemma PerformsPublish(t: string, p: string, so: bool, c: set<ClientId>, br: set<ClientId>)
    ensures Performs([Publish(t, p)], so, c, br, [Published(t, p)], c)
  {
    PerformsOne(Publish(t, p), so, c, br, [Published(t, p)]);
  }

  lemma PerformsSerial(m: string, so: bool, c: set<ClientId>, br: set<ClientId>)
    ensures Performs([ToSerial(m)], so, c, br, if so && IsBracketed(m) then [SerialWrite(m + "\n")] else [], c)
  {
    PerformsOne(ToSerial(m), so, c, br, if so && IsBracketed(m) then [SerialWrite(m + "\n")] else []);
  }

  lemma PerformsTcp(m: string, so: bool, c: set<ClientId>, br: set<ClientId>, writes: seq<Effect>)
    requires Delivered(writes, c - br, m + "\n")
    ensures Performs([ToTcp(m)], so, c, br, writes, c - br)
  {
    DeliveredSize(writes, c - br, m + "\n");
    PerformsOne(ToTcp(m), so, c, br, writes);
  }

  /** Doing `a1` and then `a2` writes what the two write, in that order. */
  lemma {:induction false} PerformsAppend(a1: seq<Action>, a2: seq<Action>, so: bool, c0: set<ClientId>,
                                          br: set<ClientId>, e1: seq<Effect>, c1: set<ClientId>,
                                          e2: seq<Effect>, c2: set<ClientId>)
    requires Performs(a1, so, c0, br, e1, c1) && Performs(a2, so, c1, br, e2, c2)
    ensures Performs(a1 + a2, so, c0, br, e1 + e2, c2)
    decreases |a1|
  {
    if a1 == [] {
      assert a1 + a2 == a2 && e1 + e2 == e2;
    } else {
      var k := Width(a1[0], so, c0, br);
      PerformsAppend(a1[1..], a2, so, Next(a1[0], c0, br), br, e1[k..], c1, e2, c2);
      PerformsAppendStep(a1, a2, so, c0, br, e1, e2, c2, k);
    }
  }

  lemma PerformsAppendStep(a1: seq<Action>, a2: seq<Action>, so: bool, c0: set<ClientId>, br: set<ClientId>,
                           e1: seq<Effect>, e2: seq<Effect>, c2: set<ClientId>, k: nat)
    requires a1 != [] && k == Width(a1[0], so, c0, br) && k <= |e1| && StepOk(a1[0], so, c0, br, e1[..k])
    requires Performs(a1[1..] + a2, so, Next(a1[0], c0, br), br, e1[k..] + e2, c2)
    ensures Performs(a1 + a2, so, c0, br, e1 + e2, c2)
  {
    assert a1 + a2 == [a1[0]] + (a1[1..] + a2) by {
      assert a1 == [a1[0]] + a1[1..];
    }
    assert e1 + e2 == e1[..k] + (e1[k..] + e2) by {
      assert e1 == e1[..k] + e1[k..];
    }
    PerformsCons(a1[0], a1[1..] + a2, so, c0, br, e1[..k], e1[k..] + e2, c2, a1 + a2, e1 + e2);
  }

  /** One step, then the rest. */
  lemma PerformsCons(a: Action, rest: seq<Action>, so: bool, c: set<ClientId>, br: set<ClientId>,
                     chunk: seq<Effect>, more: seq<Effect>, after: set<ClientId>,
                     acts: seq<Action>, e: seq<Effect>)
    requires |chunk| == Width(a, so, c, br) && StepOk(a, so, c, br, chunk)
    requires Performs(rest, so, Next(a, c, br), br, more, after)
    requires acts == [a] + rest && e == chunk + more
    ensures Performs(acts, so, c, br, e, after)
  {
    assert acts[0] == a && acts[1..] == rest;
    assert e[..|chunk|] == chunk && e[|chunk|..] == more;
  }


  /** Chains two performances recorded one after the other in a growing log. */
  lemma Then(a1: seq<Action>, a2: seq<Action>, so: bool, c0: set<ClientId>, br: set<ClientId>,
             l0: seq<Effect>, l1: seq<Effect>, l2: seq<Effect>, c1: set<ClientId>, c2: set<ClientId>)
    requires l0 <= l1 <= l2
    requires Performs(a1, so, c0, br, l1[|l0|..], c1) && Performs(a2, so, c1, br, l2[|l1|..], c2)
    ensures Performs(a1 + a2, so, c0, br, l2[|l0|..], c2)
  {
    assert l2[|l0|..] == l1[|l0|..] + l2[|l1|..];
    PerformsAppend(a1, a2, so, c0, br, l1[|l0|..], c1, l2[|l1|..], c2);
  }

  /** The client set only shrinks, and only by clients whose write failed. */
  lemma {:induction false} ClientsOnlyShrink(acts: seq<Action>, so: bool, c: set<ClientId>, br: set<ClientId>,
                                             e: seq<Effect>, after: set<ClientId>)
    requires Performs(acts, so, c, br, e, after)
    ensures after <= c && c - after <= br
    decreases |acts|
  {
    if acts != [] {
      var k := Width(acts[0], so, c, br);
      ClientsOnlyShrink(acts[1..], so, Next(acts[0], c, br), br, e[k..], after);
    }
  }

  /** Without a `send_to_serial` among the actions nothing reaches the serial line. */
  lemma {:induction false} NoSerialWrite(acts: seq<Action>, so: bool, c: set<ClientId>, br: set<ClientId>,
                                         e: seq<Effect>, after: set<ClientId>)
    requires Performs(acts, so, c, br, e, after)
    requires forall a | a in acts :: !a.ToSerial?
    ensures forall x | x in e :: !x.SerialWrite?
    decreases |acts|
  {
    if acts != [] {
      assert acts[0] in acts;
      assert forall a | a in acts[1..] :: a in acts;
      var k := Width(acts[0], so, c, br);
      NoSerialWrite(acts[1..], so, Next(acts[0], c, br), br, e[k..], after);
      if acts[0].ToTcp? {
        DeliveredOnly(e[..k], c - br, acts[0].msg + "\n");
      }
      assert forall x | x in e[..k] :: !x.SerialWrite?;
      assert e == e[..k] + e[k..];
    }
  }

  /** A line the serial port accepts: a bracketed command and a newline. */
  predicate SerialLine(d: string) {
    |d| >= 2 && d[0] == '<' && d[|d| - 2] == '>' && d[|d| - 1] == '\n'
  }

  /** Whatever the actions, nothing reaches the serial line while there is
      no writer, and what does reach it is a bracketed command line. */
  lemma {:induction false} SerialWritesGuarded(acts: seq<Action>, so: bool, c: set<ClientId>, br: set<ClientId>,
                                               e: seq<Effect>, after: set<ClientId>)
    requires Performs(acts, so, c, br, e, after)
    ensures forall x | x in e && x.SerialWrite? :: so && SerialLine(x.data)
    decreases |acts|
  {
    if acts != [] {
      var k := Width(acts[0], so, c, br);
      SerialWritesGuarded(acts[1..], so, Next(acts[0], c, br), br, e[k..], after);
      if acts[0].ToTcp? {
        DeliveredOnly(e[..k], c - br, acts[0].msg + "\n");
      }
      assert forall x | x in e[..k] && x.SerialWrite? :: so && SerialLine(x.data);
      assert e == e[..k] + e[k..];
    }
  }

  /** Status coming off the serial line never goes back to it. */
  lemma SerialNeverEchoed(frames: seq<string>, so: bool, c: set<ClientId>, br: set<ClientId>,
                          e: seq<Effect>, after: set<ClientId>)
    requires Performs(SerialBatch(frames), so, c, br, e, after)
    ensures forall x | x in e :: !x.SerialWrite?
  {
    NoSerialWrite(SerialBatch(frames), so, c, br, e, after);
  }

  lemma PublishFirst(t: string, p: string, rest: seq<Action>, so: bool, c: set<ClientId>, br: set<ClientId>,
                     e: seq<Effect>, after: set<ClientId>)
    requires Performs([Publish(t, p)] + rest, so, c, br, e, after)
    ensures e != [] && e[0] == Published(t, p) && Performs(rest, so, c, br, e[1..], after)
  {
    assert ([Publish(t, p)] + rest)[1..] == rest;
  }

  lemma SerialFirst(m: string, rest: seq<Action>, so: bool, c: set<ClientId>, br: set<ClientId>,
                    e: seq<Effect>, after: set<ClientId>)
    requires so && IsBracketed(m) && Performs([ToSerial(m)] + rest, so, c, br, e, after)
    ensures e != [] && e[0] == SerialWrite(m + "\n") && Performs(rest, so, c, br, e[1..], after)
  {
    assert ([ToSerial(m)] + rest)[1..] == rest;
  }

  lemma SerialSkipped(m: string, rest: seq<Action>, so: bool, c: set<ClientId>, br: set<ClientId>,
                      e: seq<Effect>, after: set<ClientId>)
    requires !so && Performs([ToSerial(m)] + rest, so, c, br, e, after)
    ensures Performs(rest, so, c, br, e, after)
  {
    assert ([ToSerial(m)] + rest)[1..] == rest;
    assert e[0..] == e;
  }

  lemma TcpOnly(m: string, so: bool, c: set<ClientId>, br: set<ClientId>, e: seq<Effect>, after: set<ClientId>)
    requires Performs([ToTcp(m)], so, c, br, e, after)
    ensures Delivered(e, c - br, m + "\n") && after == c - br
  {
    assert [ToTcp(m)][1..] == [];
    var k := |c - br|;
    assert e[k..] == [];
    assert e[..k] == e;
  }

  /** Performing a publish followed by a broadcast. */
  lemma PublishThenTcp(acts: seq<Action>, t: string, m: string, so: bool, c: set<ClientId>, br: set<ClientId>,
                       e: seq<Effect>, after: set<ClientId>)
    requires acts == [Publish(t, m)] + [ToTcp(m)] && Performs(acts, so, c, br, e, after)
    ensures e != [] && e[0] == Published(t, m) && Delivered(e[1..], c - br, m + "\n") && after == c - br
  {
    PublishFirst(t, m, [ToTcp(m)], so, c, br, e, after);
    TcpOnly(m, so, c, br, e[1..], after);
  }

  /** Performing a `send_to_serial` followed by a broadcast. */
  lemma SerialThenTcp(acts: seq<Action>, m: string, so: bool, c: set<ClientId>, br: set<ClientId>,
                      e: seq<Effect>, after: set<ClientId>)
    requires IsBracketed(m) && acts == [ToSerial(m), ToTcp(m)] && Performs(acts, so, c, br, e, after)
    ensures var n := if so then 1 else 0;
      |e| >= n && (so ==> e[0] == SerialWrite(m + "\n"))
      && Delivered(e[n..], c - br, m + "\n") && after == c - br
  {
    assert acts == [ToSerial(m)] + [ToTcp(m)];
    if so {
      SerialFirst(m, [ToTcp(m)], so, c, br, e, after);
      TcpOnly(m, so, c, br, e[1..], after);
    } else {
      SerialSkipped(m, [ToTcp(m)], so, c, br, e, after);
      assert e[0..] == e;
      TcpOnly(m, so, c, br, e, after);
    }
  }

  /** Performing `process_outbound`'s actions for a given status topic. */
  lemma OutboundEffects(acts: seq<Action>, st: Option<string>, m: string, so: bool, c: set<ClientId>,
                        br: set<ClientId>, e: seq<Effect>, after: set<ClientId>)
    requires acts == (if st.Some? then [Publish(st.value, m), ToTcp(m)] else [ToTcp(m)])
    requires Performs(acts, so, c, br, e, after)
    ensures after == c - br
    ensures var n := if st.Some? then 1 else 0;
      n <= |e| && (st.Some? ==> e[0] == Published(st.value, m)) && Delivered(e[n..], c - br, m + "\n")
  {
    if st.Some? {
      assert acts == [Publish(st.value, m)] + [ToTcp(m)];
      PublishThenTcp(acts, st.value, m, so, c, br, e, after);
    } else {
      TcpOnly(m, so, c, br, e, after);
      assert e[0..] == e;
    }
  }

  /** A serial frame is published once to its status topic when its content
      is not blank, and is broadcast verbatim to every working client. */
  lemma SerialFrameEffects(f: string, so: bool, c: set<ClientId>, br: set<ClientId>,
                           e: seq<Effect>, after: set<ClientId>)
    requires IsFrameSlice(f) && Performs(SerialFrameActions(f), so, c, br, e, after)
    ensures after == c - br
    ensures var n := if StatusTopic(f).Some? then 1 else 0;
      n <= |e| && (StatusTopic(f).Some? ==> e[0] == Published(StatusTopic(f).value, f))
      && Delivered(e[n..], c - br, f + "\n")
  {
    SerialFrameVerbatim(f);
    OutboundEffects(SerialFrameActions(f), StatusTopic(f), f, so, c, br, e, after);
  }

  /** A TCP command is echoed to the tcp-2560 topic, then written to serial
      when the serial writer exists, then to every working TCP client. */
  lemma TcpCommandEffects(raw: string, so: bool, c: set<ClientId>, br: set<ClientId>,
                          e: seq<Effect>, after: set<ClientId>)
    requires WrapMessage(raw) != "" && Performs(TcpFrameActions(raw), so, c, br, e, after)
    ensures var w := WrapMessage(raw);
      var n := if so then 2 else 1;
      |e| >= n && e[0] == Published(TcpTopic, w)
      && (so ==> e[1] == SerialWrite(w + "\n"))
      && Delivered(e[n..], c - br, w + "\n")
    ensures after == c - br
  {
    var w := WrapMessage(raw);
    WrappedIsBracketed(raw);
    var acts := TcpFrameActions(raw);
    assert acts == [Publish(TcpTopic, w)] + ([ToSerial(w)] + [ToTcp(w)]);
    PublishFirst(TcpTopic, w, [ToSerial(w)] + [ToTcp(w)], so, c, br, e, after);
    assert [ToSerial(w)] + [ToTcp(w)] == [ToSerial(w), ToTcp(w)];
    SerialThenTcp([ToSerial(w), ToTcp(w)], w, so, c, br, e[1..], after);
    if so {
      assert e[1..][1..] == e[2..];
    }
  }

  /** ... so a TCP client that stays connected gets its own command back. */
  lemma TcpEchoesToSender(raw: string, so: bool, c: set<ClientId>, br: set<ClientId>,
                          e: seq<Effect>, after: set<ClientId>, sender: ClientId)
    requires WrapMessage(raw) != "" && Performs(TcpFrameActions(raw), so, c, br, e, after)
    requires sender in c && sender !in br
    ensures TcpWrite(sender, WrapMessage(raw) + "\n") in e
  {
    TcpCommandEffects(raw, so, c, br, e, after);
    ReachesSuffix(e, if so then 2 else 1, c - br, WrapMessage(raw) + "\n", sender);
  }

  /** A client among the targets of a broadcast that ends the effects
      receives its write. */
  lemma ReachesSuffix(e: seq<Effect>, n: nat, targets: set<ClientId>, data: string, who: ClientId)
    requires n <= |e| && Delivered(e[n..], targets, data) && who in targets
    ensures TcpWrite(who, data) in e
  {
    DeliveredReaches(e[n..], targets, data, who);
    var k :| 0 <= k < |e[n..]| && e[n..][k] == TcpWrite(who, data);
    assert e[n + k] == e[n..][k];
  }

  /** An MQTT command is never published back to MQTT; it goes to serial
      when the writer exists, and to every working TCP client. */
  lemma MqttCommandEffects(payload: string, so: bool, c: set<ClientId>, br: set<ClientId>,
                           e: seq<Effect>, after: set<ClientId>)
    requires WrapMessage(payload) != "" && Performs(MqttActions(payload), so, c, br, e, after)
    ensures var w := WrapMessage(payload);
      var n := if so then 1 else 0;
      |e| >= n && (so ==> e[0] == SerialWrite(w + "\n"))
      && Delivered(e[n..], c - br, w + "\n")
    ensures after == c - br
  {
    WrappedIsBracketed(payload);
    SerialThenTcp(MqttActions(payload), WrapMessage(payload), so, c, br, e, after);
  }

  /** Nothing an MQTT command causes is published back to MQTT. */
  lemma MqttNotEchoed(payload: string, so: bool, c: set<ClientId>, br: set<ClientId>,
                      e: seq<Effect>, after: set<ClientId>)
    requires WrapMessage(payload) != "" && Performs(MqttActions(payload), so, c, br, e, after)
    ensures forall x | x in e :: !x.Published?
  {
    MqttCommandEffects(payload, so, c, br, e, after);
    NoPublish(e, if so then 1 else 0, c - br, WrapMessage(payload) + "\n");
  }

  lemma NoPublish(e: seq<Effect>, n: nat, targets: set<ClientId>, data: string)
    requires n <= 1 && n <= |e| && (n == 1 ==> e[0].SerialWrite?) && Delivered(e[n..], targets, data)
    ensures forall x | x in e :: !x.Published?
  {
    DeliveredOnly(e[n..], targets, data);
    forall x | x in e
      ensures !x.Published?
    {
      var i :| 0 <= i < |e| && e[i] == x;
      if i >= n {
        assert e[n..][i - n] == x;
        assert x in e[n..];
      }
    }
  }

  lemma SerialBatchStart(frames: seq<string>, so: bool, c0: set<ClientId>, br: set<ClientId>, l0: seq<Effect>)
    ensures Performs(SerialBatch(frames[..0]), so, c0, br, l0[|l0|..], c0)
  {
    assert frames[..0] == [];
    assert l0[|l0|..] == [];
  }

  lemma SerialBatchEnd(frames: seq<string>, so: bool, c0: set<ClientId>, br: set<ClientId>,
                       e: seq<Effect>, c1: set<ClientId>)
    requires Performs(SerialBatch(frames[..|frames|]), so, c0, br, e, c1)
    ensures Performs(SerialBatch(frames), so, c0, br, e, c1)
  {
    assert frames[..|frames|] == frames;
  }

  /** One more serial frame processed extends the batch's performance. */
  lemma SerialBatchStep(frames: seq<string>, i: nat, so: bool, c0: set<ClientId>, br: set<ClientId>,
                        l0: seq<Effect>, l1: seq<Effect>, l2: seq<Effect>, c1: set<ClientId>, c2: set<ClientId>)
    requires i < |frames| && l0 <= l1 <= l2
    requires Performs(SerialBatch(frames[..i]), so, c0, br, l1[|l0|..], c1)
    requires Performs(SerialFrameActions(frames[i]), so, c1, br, l2[|l1|..], c2)
    ensures Performs(SerialBatch(frames[..i + 1]), so, c0, br, l2[|l0|..], c2)
  {
    assert frames[..i + 1][..i] == frames[..i];
    Then(SerialBatch(frames[..i]), SerialFrameActions(frames[i]), so, c0, br, l0, l1, l2, c1, c2);
  }

  lemma TcpBatchStart(frames: seq<string>, so: bool, c0: set<ClientId>, br: set<ClientId>, l0: seq<Effect>)
    ensures Performs(TcpBatch(frames[..0]), so, c0, br, l0[|l0|..], c0)
  {
    assert frames[..0] == [];
    assert l0[|l0|..] == [];
  }

  lemma TcpBatchEnd(frames: seq<string>, so: bool, c0: set<ClientId>, br: set<ClientId>,
                    e: seq<Effect>, c1: set<ClientId>)
    requires Performs(TcpBatch(frames[..|frames|]), so, c0, br, e, c1)
    ensures Performs(TcpBatch(frames), so, c0, br, e, c1)
  {
    assert frames[..|frames|] == frames;
  }

  /** One more TCP frame relayed extends the batch's performance. */
  lemma TcpBatchStep(frames: seq<string>, i: nat, so: bool, c0: set<ClientId>, br: set<ClientId>,
                     l0: seq<Effect>, l1: seq<Effect>, l2: seq<Effect>, c1: set<ClientId>, c2: set<ClientId>)
    requires i < |frames| && l0 <= l1 <= l2
    requires Performs(TcpBatch(frames[..i]), so, c0, br, l1[|l0|..], c1)
    requires Performs(TcpFrameActions(frames[i]), so, c1, br, l2[|l1|..], c2)
    ensures Performs(TcpBatch(frames[..i + 1]), so, c0, br, l2[|l0|..], c2)
  {
    assert frames[..i + 1][..i] == frames[..i];
    Then(TcpBatch(frames[..i]), TcpFrameActions(frames[i]), so, c0, br, l0, l1, l2, c1, c2);
  }

  /** Worked case: of three clients the second fails its write; the other
      two get the message, the second is dropped, and the next broadcast
      reaches exactly the first and the third. */
  lemma SecondOfThreeFails(m: string, so: bool, e1: seq<Effect>, after1: set<ClientId>,
                           e2: seq<Effect>, after2: set<ClientId>)
    requires Performs([ToTcp(m)], so, {1, 2, 3}, {2}, e1, after1)
    requires Performs([ToTcp(m)], so, after1, {}, e2, after2)
    ensures after1 == {1, 3} && after2 == {1, 3}
    ensures TcpWrite(1, m + "\n") in e1 && TcpWrite(3, m + "\n") in e1
    ensures forall x | x in e1 :: x.TcpWrite? && x.client != 2
    ensures forall x | x in e2 :: x.TcpWrite? && x.client in {1, 3}
    ensures TcpWrite(1, m + "\n") in e2 && TcpWrite(3, m + "\n") in e2
    ensures |e2| == 2
  {
    var d := m + "\n";
    TcpOnly(m, so, {1, 2, 3}, {2}, e1, after1);
    assert {1, 2, 3} - {2} == {1, 3};
    DeliveredReaches(e1, {1, 3}, d, 1);
    DeliveredReaches(e1, {1, 3}, d, 3);
    DeliveredOnly(e1, {1, 3}, d);
    TcpOnly(m, so, after1, {}, e2, after2);
    assert after1 - {} == {1, 3};
    DeliveredReaches(e2, {1, 3}, d, 1);
    DeliveredReaches(e2, {1, 3}, d, 3);
    DeliveredOnly(e2, {1, 3}, d);
    DeliveredSize(e2, {1, 3}, d);
  }

  /** `relay_inbound`'s three steps, as recorded in the log, perform its actions. */
  lemma RelaySteps(msg: string, echo: string, so: bool, c0: set<ClientId>, br: set<ClientId>,
                   l0: seq<Effect>, l1: seq<Effect>, l2: seq<Effect>, l3: seq<Effect>, c3: set<ClientId>)
    requires l1 == l0 + (if echo != "" then [Published(echo, msg)] else [])
    requires l2 == l1 + (if so && IsBracketed(msg) then [SerialWrite(msg + "\n")] else [])
    requires l2 <= l3 && Delivered(l3[|l2|..], c0 - br, msg + "\n") && c3 == c0 - br
    ensures l0 <= l3
    ensures Performs(RelayActions(msg, echo), so, c0, br, l3[|l0|..], c3)
  {
    var pre: seq<Action> := if echo != "" then [Publish(echo, msg)] else [];
    assert l1[|l0|..] == if echo != "" then [Published(echo, msg)] else [];
    if echo != "" {
      PerformsPublish(echo, msg, so, c0, br);
    } else {
      assert Performs(pre, so, c0, br, l1[|l0|..], c0);
    }
    assert l2[|l1|..] == if so && IsBracketed(msg) then [SerialWrite(msg + "\n")] else [];
    PerformsSerial(msg, so, c0, br);
    Then(pre, [ToSerial(msg)], so, c0, br, l0, l1, l2, c0, c0);
    PerformsTcp(msg, so, c0, br, l3[|l2|..]);
    Then(pre + [ToSerial(msg)], [ToTcp(msg)], so, c0, br, l0, l2, l3, c0, c3);
    assert pre + [ToSerial(msg)] + [ToTcp(msg)] == RelayActions(msg, echo);
  }

  /** A command whose `wrap_message` is empty has no effect at all. */
  lemma EmptyCommandDropped(raw: string, so: bool, c: set<ClientId>, br: set<ClientId>,
                            e: seq<Effect>, after: set<ClientId>)
    requires WrapMessage(raw) == ""
    requires Performs(MqttActions(raw), so, c, br, e, after) || Performs(TcpFrameActions(raw), so, c, br, e, after)
    ensures e == [] && after == c
  {
  }

  class Bridge {
    /** Whether `self.serial_writer` is set. */
    var serialOpen: bool
    /** `self.tcp_clients` */
    var tcpClients: set<ClientId>
    /** Everything written so far, in order. */
    var log: seq<Effect>

    constructor ()
      ensures !serialOpen && tcpClients == {} && log == []
    {
      serialOpen := false;
      tcpClients := {};
      log := [];
    }

    /** `send_to_serial`: writes `msg` and a newline only when a writer
        exists and `msg` starts with `<` and ends with `>`. */
    method SendToSerial(msg: string)
      modifies this
      ensures serialOpen == old(serialOpen) && tcpClients == old(tcpClients)
      ensures log == old(log) + (if serialOpen && IsBracketed(msg) then [SerialWrite(msg + "\n")] else [])
    {
      if !serialOpen {
        return;
      }
      if IsBracketed(msg) {
        log := log + [SerialWrite(msg + "\n")];
      }
    }

    /** `broadcast_to_tcp`: writes `msg` and a newline to every client of a
        snapshot of the set, dropping each client whose write fails. */
    method BroadcastToTcp(msg: string, broken: set<ClientId>)
      modifies this
      ensures serialOpen == old(serialOpen)
      ensures tcpClients == old(tcpClients) - broken
      ensures old(log) <= log
      ensures Delivered(log[|old(log)|..], old(tcpClients) - broken, msg + "\n")
      ensures old(tcpClients) == {} ==> log == old(log)
    {
      ghost var c0, l0 := tcpClients, log;
      if tcpClients == {} {
        DeliveredNone(log, c0, broken, msg + "\n");
        return;
      }
      var data := msg + "\n";
      var pending := tcpClients;
      ghost var done: set<ClientId> := {};
      ghost var sent: seq<Effect> := [];
      assert done - broken == {};
      while pending != {}
        invariant pending !! done && pending + done == c0
        invariant serialOpen == old(serialOpen) && log == l0 + sent
        invariant tcpClients == pending + (done - broken)
        invariant Delivered(sent, done - broken, data)
        decreases pending
      {
        var w :| w in pending;
        ClientStep(pending, done, c0, tcpClients, broken, w);
        if w in broken {
          tcpClients := tcpClients - {w};
        } else {
          DeliveredSnoc(sent, done - broken, w, data);
          log := log + [TcpWrite(w, data)];
          sent := sent + [TcpWrite(w, data)];
        }
        pending := pending - {w};
        done := done + {w};
      }
      ClientsDone(pending, done, c0, tcpClients, broken);
      assert log[|l0|..] == sent;
    }

    /** `relay_inbound(msg, mqtt_echo_topic)`; "" stands for no echo topic.
        The serial write comes first: with the lock free, `send_to_serial`
        writes before its first suspension point. */
    method RelayInbound(msg: string, echo: string, broken: set<ClientId>)
      modifies this
      ensures serialOpen == old(serialOpen)
      ensures old(log) <= log
      ensures Performs(RelayActions(msg, echo), old(serialOpen), old(tcpClients), broken, log[|old(log)|..], tcpClients)
    {
      ghost var so, c0, l0 := serialOpen, tcpClients, log;
      if echo != "" {
        log := log + [Published(echo, msg)];
      }
      ghost var l1 := log;
      SendToSerial(msg);
      ghost var l2 := log;
      BroadcastToTcp(msg, broken);
      RelaySteps(msg, echo, so, c0, broken, l0, l1, l2, log, tcpClients);
    }

    /** `process_outbound`: publishes a serial frame to its status topic
        when its content is not blank, then broadcasts it. */
    method ProcessOutbound(msg: string, broken: set<ClientId>)
      modifies this
      ensures serialOpen == old(serialOpen)
      ensures old(log) <= log
      ensures Performs(OutboundActions(msg), old(serialOpen), old(tcpClients), broken, log[|old(log)|..], tcpClients)
    {
      var topic := StatusTopic(msg);
      var pre: seq<Action> := if topic.Some? then [Publish(topic.value, msg)] else [];
      if topic.Some? {
        log := log + [Published(topic.value, msg)];
        PerformsPublish(topic.value, msg, serialOpen, tcpClients, broken);
      }
      assert Performs(pre, serialOpen, tcpClients, broken, log[|old(log)|..], tcpClients);
      ghost var l1, c1 := log, tcpClients;
      BroadcastToTcp(msg, broken);
      PerformsTcp(msg, serialOpen, c1, broken, log[|l1|..]);
      Then(pre, [ToTcp(msg)], serialOpen, old(tcpClients), broken, old(log), l1, log, c1, tcpClients);
    }

    /** The validation part of `on_mqtt_message`, followed by the relay. */
    method OnMqttMessage(payload: string, broken: set<ClientId>)
      modifies this
      ensures serialOpen == old(serialOpen)
      ensures old(log) <= log
      ensures Performs(MqttActions(payload), old(serialOpen), old(tcpClients), broken, log[|old(log)|..], tcpClients)
    {
      var raw := Strip(payload);
      if raw == "" {
        return;
      }
      var clean := WrapMessage(raw);
      if clean == "" {
        return;
      }
      RelayInbound(clean, "", broken);
    }

    /** A serial connection is (re)opened: the writer is set and the read
        buffer starts empty. */
    method OpenSerial() returns (buf: FrameBuffer)
      modifies this
      ensures serialOpen && tcpClients == old(tcpClients) && log == old(log)
      ensures fresh(buf) && buf.pending == ""
    {
      serialOpen := true;
      buf := new FrameBuffer();
    }

    /** The body of `handle_serial`'s frame loop for one frame: strip it
        and, when something is left, hand it to `process_outbound`. */
    method HandleSerialFrame(frame: string, broken: set<ClientId>)
      modifies this
      ensures serialOpen == old(serialOpen)
      ensures old(log) <= log
      ensures Performs(SerialFrameActions(frame), old(serialOpen), old(tcpClients), broken, log[|old(log)|..], tcpClients)
    {
      var msg := Strip(frame);
      if msg != "" {
        ProcessOutbound(msg, broken);
      } else {
        assert log[|old(log)|..] == [];
      }
    }

    /** `handle_serial`'s frame loop over the frames cut from one read. */
    method HandleSerialFrames(frames: seq<string>, broken: set<ClientId>)
      modifies this
      ensures serialOpen == old(serialOpen)
      ensures old(log) <= log
      ensures Performs(SerialBatch(frames), old(serialOpen), old(tcpClients), broken, log[|old(log)|..], tcpClients)
    {
      ghost var so, c0, l0 := serialOpen, tcpClients, log;
      SerialBatchStart(frames, so, c0, broken, l0);
      var i := 0;
      while i < |frames|
        invariant 0 <= i <= |frames|
        invariant serialOpen == so && l0 <= log
        invariant Performs(SerialBatch(frames[..i]), so, c0, broken, log[|l0|..], tcpClients)
      {
        ghost var l1, c1 := log, tcpClients;
        HandleSerialFrame(frames[i], broken);
        SerialBatchStep(frames, i, so, c0, broken, l0, l1, log, c1, tcpClients);
        i := i + 1;
      }
      SerialBatchEnd(frames, so, c0, broken, log[|l0|..], tcpClients);
    }

    /** One read of `handle_serial`: append, cut frames, process each. */
    method OnSerialData(buf: FrameBuffer, data: string, broken: set<ClientId>)
      modifies this, buf
      ensures serialOpen == old(serialOpen)
      ensures buf.pending == Scan(old(buf.pending) + data).rest
      ensures old(log) <= log
      ensures Performs(SerialBatch(Scan(old(buf.pending) + data).frames), old(serialOpen), old(tcpClients),
                       broken, log[|old(log)|..], tcpClients)
    {
      buf.Feed(data);
      var frames := buf.ExtractFrames();
      HandleSerialFrames(frames, broken);
    }

    /** A TCP client connects: it joins the set and gets an empty buffer. */
    method AcceptTcp(c: ClientId) returns (buf: FrameBuffer)
      modifies this
      ensures tcpClients == old(tcpClients) + {c}
      ensures serialOpen == old(serialOpen) && log == old(log)
      ensures fresh(buf) && buf.pending == ""
    {
      tcpClients := tcpClients + {c};
      buf := new FrameBuffer();
    }

    /** The body of `handle_tcp_client`'s frame loop for one frame: wrap it
        and, when something is left, relay it with the tcp-2560 echo. */
    method HandleTcpFrame(raw: string, broken: set<ClientId>)
      modifies this
      ensures serialOpen == old(serialOpen)
      ensures old(log) <= log
      ensures Performs(TcpFrameActions(raw), old(serialOpen), old(tcpClients), broken, log[|old(log)|..], tcpClients)
    {
      var clean := WrapMessage(raw);
      if clean != "" {
        RelayInbound(clean, TcpTopic, broken);
      } else {
        assert log[|old(log)|..] == [];
      }
    }

    /** `handle_tcp_client`'s frame loop over the frames cut from one read. */
    method HandleTcpFrames(frames: seq<string>, broken: set<ClientId>)
      modifies this
      ensures serialOpen == old(serialOpen)
      ensures old(log) <= log
      ensures Performs(TcpBatch(frames), old(serialOpen), old(tcpClients), broken, log[|old(log)|..], tcpClients)
    {
      ghost var so, c0, l0 := serialOpen, tcpClients, log;
      TcpBatchStart(frames, so, c0, broken, l0);
      var i := 0;
      while i < |frames|
        invariant 0 <= i <= |frames|
        invariant serialOpen == so && l0 <= log
        invariant Performs(TcpBatch(frames[..i]), so, c0, broken, log[|l0|..], tcpClients)
      {
        ghost var l1, c1 := log, tcpClients;
        HandleTcpFrame(frames[i], broken);
        TcpBatchStep(frames, i, so, c0, broken, l0, l1, log, c1, tcpClients);
        i := i + 1;
      }
      TcpBatchEnd(frames, so, c0, broken, log[|l0|..], tcpClients);
    }

    /** The line fallback of `handle_tcp_client`: a complete line in a
        buffer without `<` is cut off and relayed when not blank. */
    method HandleTcpLine(buf: FrameBuffer, broken: set<ClientId>)
      modifies this, buf
      ensures serialOpen == old(serialOpen)
      ensures buf.pending == CutLine(old(buf.pending)).rest
      ensures old(log) <= log
      ensures Performs(TcpLineActions(CutLine(old(buf.pending)).line), old(serialOpen), old(tcpClients),
                       broken, log[|old(log)|..], tcpClients)
    {
      var line := buf.TakeLine();
      if line.Some? {
        HandleTcpFrame(line.value, broken);
      } else {
        assert log[|old(log)|..] == [];
      }
    }

    /** One read of `handle_tcp_client`: append, cut and relay frames, then
        the line fallback once. */
    method OnTcpData(buf: FrameBuffer, data: string, broken: set<ClientId>)
      modifies this, buf
      ensures serialOpen == old(serialOpen)
      ensures var s := Scan(old(buf.pending) + data); buf.pending == CutLine(s.rest).rest
      ensures old(log) <= log
      ensures var s := Scan(old(buf.pending) + data);
        Performs(TcpBatch(s.frames) + TcpLineActions(CutLine(s.rest).line), old(serialOpen), old(tcpClients),
                 broken, log[|old(log)|..], tcpClients)
    {
      buf.Feed(data);
      var frames := buf.ExtractFrames();
      ghost var log0, c0 := log, tcpClients;
      HandleTcpFrames(frames, broken);
      ghost var l1, c1 := log, tcpClients;
      ghost var rest := buf.pending;
      HandleTcpLine(buf, broken);
      Then(TcpBatch(frames), TcpLineActions(CutLine(rest).line), serialOpen, c0, broken, log0, l1, log, c1, tcpClients);
    }

    /** A TCP client disconnects (the `finally` of `handle_tcp_client`). */
    method CloseTcp(c: ClientId)
      modifies this
      ensures tcpClients == old(tcpClients) - {c}
      ensures serialOpen == old(serialOpen) && log == old(log)
    {
      tcpClients := tcpClients - {c};
    }
  }
}
