/**
 The message store of an MQTT client connection (struct dimq): the two message lists, the two
 quotas, and a trace of everything the client hands to the network or to the application.

 Every operation is given here as a function from state to state. SessionEngine.dfy holds the
 same operations in the source's own form, loops over the lists of an object, and proves that
 they compute these functions; SessionTheorems.dfy proves what holds over whole runs.
 */
module SessionState {

  /** The states of enum dimq_msg_state that a client's own messages can take. */
  datatype MsgState =
    | Invalid
    | PublishQos1
    | WaitForPuback
    | PublishQos2
    | WaitForPubrec
    | ResendPubrel
    | WaitForPubrel
    | WaitForPubcomp

  /** A struct dimq_message_all. `serial` is the identity of the record (its address in the
      source): message identifiers are reused, records are not. */
  datatype Message = Message(serial: nat, mid: nat, qos: nat, state: MsgState, dup: bool)

  /** Packets handed to the network, and what the application or the peer learned. */
  datatype Event =
    | SentPublish(serial: nat, mid: nat, dup: bool)
    | SentPubrel(mid: nat)
    | SentPuback(mid: nat)
    | SentPubrec(mid: nat)
    | SentPubcomp(mid: nat)
    | GotPubrec(serial: nat)                 // a PUBREC was matched with this record
    | Completed(serial: nat)                 // on_publish: the outgoing record left the list
    | Delivered(serial: nat)                 // on_message for a stored QoS 2 record
    | DeliveredNow(qos: nat)                 // on_message for QoS 0 and QoS 1
    | Dropped(serial: nat)                   // removed without on_message

  /** A struct dimq_msg_data: one direction of the message store. `serial` numbers the records
      created so far. */
  datatype Side = Side(list: seq<Message>, len: int, quota: int, max: nat, serial: nat)

  datatype Client = Client(
    v5: bool, connected: bool, active: bool, lastMid: nat,
    incoming: Side, outgoing: Side, trace: seq<Event>)

  datatype Status = Success | ErrProtocol | ErrNotFound | ErrNoConn | ErrConnRefused | ErrSend

  const DEFAULT_MAXIMUM := 20

  const EMPTY_SIDE := Side([], 0, DEFAULT_MAXIMUM, DEFAULT_MAXIMUM, 0)

  /** dimq_reinitialise */
  function NewClient(v5: bool): Client
  {
    Client(v5, false, false, 0, EMPTY_SIDE, EMPTY_SIDE, [])
  }

  // ----- quotas (lib/util_dimq.c)

  function Incremented(d: Side): Side { if d.quota < d.max then d.(quota := d.quota + 1) else d }

  function Decremented(d: Side): Side { if d.quota > 0 then d.(quota := d.quota - 1) else d }

  function Min(a: int, b: int): int { if a < b then a else b }

  // ----- message__release_to_inflight

  predicate Queued(m: Message) { m.qos > 0 && m.state.Invalid? }

  /** Number of messages still waiting for their first transmission. */
  function QueuedCount(ms: seq<Message>): nat
  {
    if ms == [] then 0
    else QueuedCount(ms[..|ms| - 1]) + (if Queued(ms[|ms| - 1]) then 1 else 0)
  }

  /** Number of messages that occupy the send window. */
  function Inflight(ms: seq<Message>): nat
  {
    if ms == [] then 0
    else Inflight(ms[..|ms| - 1]) + (if ms[|ms| - 1].state.Invalid? then 0 else 1)
  }

  function Started(m: Message): Message
  {
    if m.qos == 1 then m.(state := WaitForPuback)
    else if m.qos == 2 then m.(state := WaitForPubrec)
    else m
  }

  /** The list after the first `n` queued messages have been started, earliest first. */
  function Released(ms: seq<Message>, n: int): (r: seq<Message>)
    ensures |r| == |ms|
    ensures forall j | 0 <= j < |ms| :: r[j] == ms[j] || (Queued(ms[j]) && r[j] == Started(ms[j]))
  {
    if ms == [] then []
    else
      var k := |ms| - 1;
      Released(ms[..k], n) + [if Queued(ms[k]) && QueuedCount(ms[..k]) < n then Started(ms[k]) else ms[k]]
  }

  /** The PUBLISH packets of that release, in list order. */
  function ReleaseEvents(ms: seq<Message>, n: int): seq<Event>
  {
    if ms == [] then []
    else
      var k := |ms| - 1;
      ReleaseEvents(ms[..k], n)
      + if Queued(ms[k]) && QueuedCount(ms[..k]) < n
        then [SentPublish(ms[k].serial, ms[k].mid, ms[k].dup)] else []
  }

  /** How many messages one release may start: the quota, or a single one whose transmission
      then fails when there is no socket. */
  function ReleaseLimit(o: Side, connected: bool): int
  {
    if connected then o.quota else Min(1, o.quota)
  }

  function ReleaseSide(o: Side, connected: bool): Side
  {
    o.(list := Released(o.list, ReleaseLimit(o, connected)),
       quota := if connected && o.quota > 0 then o.quota - Min(QueuedCount(o.list), o.quota) else o.quota)
  }

  function Release(c: Client): Client
  {
    c.(outgoing := ReleaseSide(c.outgoing, c.connected),
       trace := c.trace
                + if c.connected then ReleaseEvents(c.outgoing.list, c.outgoing.quota) else [])
  }

  function ReleaseStatus(o: Side, connected: bool): Status
  {
    if !connected && o.quota > 0 && QueuedCount(o.list) > 0 then ErrNoConn else Success
  }

  // ----- message__queue

  function Appended(d: Side, m: Message): Side { d.(list := d.list + [m], len := d.len + 1) }

  // ----- message__reconnect_reset

  /** What the reset makes of a message that still has a place in the send window. */
  function Restarted(m: Message, quotaOnly: bool): Message
  {
    if quotaOnly then m
    else if m.qos == 1 then m.(state := PublishQos1)
    else if m.qos == 2 then
      if m.state.WaitForPubrec? then m.(state := PublishQos2)
      else if m.state.WaitForPubcomp? then m.(state := ResendPubrel)
      else m
    else m
  }

  function ResetOut(ms: seq<Message>, max: nat, quotaOnly: bool): (r: seq<Message>)
    ensures |r| == |ms|
    ensures forall j | 0 <= j < |ms| ::
              r[j] == if j < max then Restarted(ms[j], quotaOnly) else ms[j].(state := Invalid)
  {
    seq(|ms|, j requires 0 <= j < |ms| =>
      if j < max then Restarted(ms[j], quotaOnly) else ms[j].(state := Invalid))
  }

  /** The records the reset keeps on the incoming side. */
  function OnlyQos2(ms: seq<Message>): seq<Message>
  {
    if ms == [] then []
    else (if ms[0].qos == 2 then [ms[0]] else []) + OnlyQos2(ms[1..])
  }

  function ResetInSide(d: Side): Side
  {
    d.(quota := d.max - Min(|OnlyQos2(d.list)|, d.max), len := |d.list|, list := OnlyQos2(d.list))
  }

  function ResetOutSide(d: Side, quotaOnly: bool): Side
  {
    d.(quota := d.max - Min(|d.list|, d.max), len := |d.list|, list := ResetOut(d.list, d.max, quotaOnly))
  }

  function Reset(c: Client, quotaOnly: bool): Client
  {
    c.(incoming := ResetInSide(c.incoming), outgoing := ResetOutSide(c.outgoing, quotaOnly))
  }

  // ----- message__remove, message__out_update

  /** Index of the first record with this identifier, or the length of the list. */
  function FirstMid(ms: seq<Message>, mid: nat): (i: nat)
    ensures i <= |ms|
    ensures i < |ms| ==> ms[i].mid == mid
    ensures forall j | 0 <= j < i :: ms[j].mid != mid
  {
    if ms == [] then 0 else if ms[0].mid == mid then 0 else 1 + FirstMid(ms[1..], mid)
  }

  function Without(ms: seq<Message>, i: nat): (r: seq<Message>)
    requires i < |ms|
    ensures |r| == |ms| - 1
    ensures forall j | 0 <= j < |r| :: r[j] == if j < i then ms[j] else ms[j + 1]
  {
    ms[..i] + ms[i + 1..]
  }

  function RemoveStatus(ms: seq<Message>, mid: nat, qos: nat): Status
  {
    var i := FirstMid(ms, mid);
    if i == |ms| then ErrNotFound else if ms[i].qos != qos then ErrProtocol else Success
  }

  function Removed(d: Side, mid: nat, qos: nat): Side
  {
    if !RemoveStatus(d.list, mid, qos).Success? then d
    else d.(list := Without(d.list, FirstMid(d.list, mid)), len := d.len - 1)
  }

  function Updated(d: Side, mid: nat, state: MsgState): Side
  {
    if !RemoveStatus(d.list, mid, 2).Success? then d
    else
      var i := FirstMid(d.list, mid);
      d.(list := d.list[i := d.list[i].(state := state)])
  }

  // ----- message__retry_check

  function Retried(m: Message): Message
  {
    match m.state
    case PublishQos1 | PublishQos2 | WaitForPubrel | ResendPubrel | WaitForPubcomp => m.(dup := true)
    case _ => m
  }

  function RetryEvent(m: Message): seq<Event>
  {
    match m.state
    case PublishQos1 | PublishQos2 => [SentPublish(m.serial, m.mid, true)]
    case WaitForPubrel => [SentPubrec(m.mid)]
    case ResendPubrel | WaitForPubcomp => [SentPubrel(m.mid)]
    case _ => []
  }

  function RetryEvents(ms: seq<Message>): seq<Event>
  {
    if ms == [] then [] else RetryEvents(ms[..|ms| - 1]) + RetryEvent(ms[|ms| - 1])
  }

  function RetryList(ms: seq<Message>): (r: seq<Message>)
    ensures |r| == |ms|
    ensures forall j | 0 <= j < |ms| :: r[j] == Retried(ms[j])
  {
    seq(|ms|, j requires 0 <= j < |ms| => Retried(ms[j]))
  }

  function RetryCheck(c: Client): Client
  {
    c.(outgoing := c.outgoing.(list := RetryList(c.outgoing.list)),
       trace := c.trace + RetryEvents(c.outgoing.list))
  }

  // ----- the handlers and API calls, as atomic steps

  /** dimq__mid_generate: a 16-bit counter that skips 0 */
  function NextMid(last: nat): nat
  {
    var m := (last + 1) % 0x1_0000;
    if m == 0 then 1 else m
  }

  function Log(c: Client, e: seq<Event>): Client { c.(trace := c.trace + e) }

  /** The record dimq_publish_v5 builds for QoS 1 or 2. */
  function NewMessage(c: Client, qos: nat): Message
  {
    Message(c.outgoing.serial, NextMid(c.lastMid), qos, Invalid, false)
  }

  /** dimq_publish_v5 up to the release */
  function Enqueued(c: Client, qos: nat): Client
  {
    c.(lastMid := NextMid(c.lastMid),
       outgoing := Appended(c.outgoing, NewMessage(c, qos)).(serial := c.outgoing.serial + 1))
  }

  function Publish(c: Client, qos: nat): Client { Release(Enqueued(c, qos)) }

  // Reason codes of MQTT 5.0, as far as the handlers distinguish them.
  const RC_SUCCESS := 0
  const RC_NO_MATCHING_SUBSCRIBERS := 16
  const RC_UNSPECIFIED := 128
  const RC_IMPLEMENTATION_SPECIFIC := 131
  const RC_NOT_AUTHORIZED := 135
  const RC_TOPIC_NAME_INVALID := 144
  const RC_PACKET_ID_IN_USE := 145
  const RC_PACKET_ID_NOT_FOUND := 146
  const RC_QUOTA_EXCEEDED := 151
  const RC_PAYLOAD_FORMAT_INVALID := 153

  predicate PubrecReason(r: nat)
  {
    || r == RC_SUCCESS || r == RC_NO_MATCHING_SUBSCRIBERS || r == RC_UNSPECIFIED
    || r == RC_IMPLEMENTATION_SPECIFIC || r == RC_NOT_AUTHORIZED || r == RC_TOPIC_NAME_INVALID
    || r == RC_PACKET_ID_IN_USE || r == RC_QUOTA_EXCEEDED
  }

  predicate PubackReason(r: nat) { PubrecReason(r) || r == RC_PAYLOAD_FORMAT_INVALID }

  /** The two reason codes of PUBREL and PUBCOMP. */
  predicate ReleaseReason(r: nat) { r == RC_SUCCESS || r == RC_PACKET_ID_NOT_FOUND }

  /** What a PUBACK (qos 1) or PUBCOMP (qos 2) is checked for before any message is looked up. */
  predicate AckAccepted(c: Client, qos: nat, mid: nat, reason: nat)
  {
    c.active && mid != 0 && (c.v5 ==> if qos == 1 then PubackReason(reason) else ReleaseReason(reason))
  }

  /** The event that reports the completion of the message a removal takes out of the list. */
  function CompletionOf(o: Side, mid: nat, qos: nat): seq<Event>
  {
    if RemoveStatus(o.list, mid, qos).Success? then [Completed(o.list[FirstMid(o.list, mid)].serial)] else []
  }

  /** message__delete and the report to the application */
  function Finish(c: Client, mid: nat, qos: nat): Client
  {
    Log(c.(outgoing := Removed(c.outgoing, mid, qos)), CompletionOf(c.outgoing, mid, qos))
  }

  function Credit(c: Client): Client { c.(outgoing := Incremented(c.outgoing)) }

  /** handle__pubackcomp. The quota is given back before the packet has been looked at. */
  function AckStep(c: Client, qos: nat, mid: nat, reason: nat): Client
  {
    if !c.active then c
    else if !AckAccepted(c, qos, mid, reason) || RemoveStatus(c.outgoing.list, mid, qos).ErrProtocol?
    then Credit(c)
    else Release(Finish(Credit(c), mid, qos))
  }

  function AckStatus(c: Client, qos: nat, mid: nat, reason: nat): Status
  {
    if !AckAccepted(c, qos, mid, reason) || RemoveStatus(c.outgoing.list, mid, qos).ErrProtocol?
    then ErrProtocol else Success
  }

  predicate PubrecAccepted(c: Client, mid: nat, reason: nat)
  {
    c.active && mid != 0 && (c.v5 ==> PubrecReason(reason))
  }

  /** A PUBREC that refuses the message; only MQTT 5.0 has them. */
  predicate Refuses(c: Client, reason: nat) { c.v5 && reason >= 0x80 }

  function PubrecMatch(o: Side, mid: nat): seq<Event>
  {
    if RemoveStatus(o.list, mid, 2).Success? then [GotPubrec(o.list[FirstMid(o.list, mid)].serial)] else []
  }

  /** message__out_update on a PUBREC, and the PUBREL in reply */
  function Received(c: Client, mid: nat): Client
  {
    Log(c.(outgoing := Updated(c.outgoing, mid, WaitForPubcomp)),
        PubrecMatch(c.outgoing, mid) + [SentPubrel(mid)])
  }

  /** handle__pubrec */
  function PubrecStep(c: Client, mid: nat, reason: nat): Client
  {
    if !PubrecAccepted(c, mid, reason) then c
    else if Refuses(c, reason) then Release(Credit(Finish(c, mid, 2)))
    else if RemoveStatus(c.outgoing.list, mid, 2).ErrProtocol? then c
    else Received(c, mid)
  }

  function PubrecStatus(c: Client, mid: nat, reason: nat): Status
  {
    if !PubrecAccepted(c, mid, reason) then ErrProtocol
    else if !Refuses(c, reason) && RemoveStatus(c.outgoing.list, mid, 2).ErrProtocol? then ErrProtocol
    else Success
  }

  /** The event for the stored record that a PUBREL takes out of the list. */
  function DeliveryOf(d: Side, mid: nat, sendOk: bool): seq<Event>
  {
    if RemoveStatus(d.list, mid, 2).Success? then
      var s := d.list[FirstMid(d.list, mid)].serial;
      if sendOk then [Delivered(s)] else [Dropped(s)]
    else []
  }

  predicate PubrelAccepted(c: Client, mid: nat, reason: nat)
  {
    c.active && mid != 0 && (c.v5 ==> ReleaseReason(reason))
  }

  /** handle__pubrel; `sendOk` says whether the PUBCOMP could be sent. */
  function PubrelStep(c: Client, mid: nat, reason: nat, sendOk: bool): Client
  {
    if !PubrelAccepted(c, mid, reason) then c
    else
      Log(c.(incoming := Removed(Incremented(c.incoming), mid, 2)),
          (if sendOk then [SentPubcomp(mid)] else []) + DeliveryOf(c.incoming, mid, sendOk))
  }

  function PubrelStatus(c: Client, mid: nat, reason: nat, sendOk: bool): Status
  {
    if !PubrelAccepted(c, mid, reason) then ErrProtocol
    else if !sendOk then ErrSend
    else if RemoveStatus(c.incoming.list, mid, 2).ErrProtocol? then ErrProtocol
    else Success
  }

  /** handle__publish refuses before anything is stored. */
  predicate IncomingRefused(c: Client, qos: nat, mid: nat)
  {
    !c.active || qos > 2 || (qos > 0 && ((c.v5 && c.incoming.quota == 0) || mid == 0))
  }

  /** handle__publish with QoS 2: the record is stored until its PUBREL arrives */
  function Stored(c: Client, mid: nat, dup: bool): Client
  {
    var d := Decremented(c.incoming);
    Log(c.(incoming := Appended(d, Message(d.serial, mid, 2, WaitForPubrel, dup)).(serial := d.serial + 1)),
        [SentPubrec(mid)])
  }

  /** handle__publish */
  function IncomingStep(c: Client, qos: nat, mid: nat, dup: bool): Client
  {
    if IncomingRefused(c, qos, mid) then c
    else if qos == 0 then Log(c, [DeliveredNow(0)])
    else if qos == 1 then
      Log(c.(incoming := Incremented(Decremented(c.incoming))), [SentPuback(mid), DeliveredNow(1)])
    else Stored(c, mid, dup)
  }

  function IncomingStatus(c: Client, qos: nat, mid: nat): Status
  {
    if IncomingRefused(c, qos, mid) then ErrProtocol else Success
  }

  /** The Receive Maximum of the broker replaces the send maximum, when a CONNACK names one. */
  function WithMaximum(c: Client, newMax: int): Client
  {
    if c.v5 && newMax >= 0 then c.(outgoing := c.outgoing.(max := newMax)) else c
  }

  /** A Receive Maximum of 0 is refused while the properties are read, before anything is changed. */
  predicate ConnackRefused(v5: bool, newMax: int) { v5 && newMax == 0 }

  /** handle__connack */
  function ConnackStep(c: Client, reason: nat, newMax: int): Client
  {
    if ConnackRefused(c.v5, newMax) then c
    else
      var c1 := Reset(WithMaximum(c, newMax), true);
      if reason == 0 then RetryCheck(c1.(active := true)) else c1
  }

  function ConnackStatus(v5: bool, reason: nat, newMax: int): Status
  {
    if ConnackRefused(v5, newMax) then ErrProtocol
    else if reason == 0 then Success else if reason <= 5 then ErrConnRefused else ErrProtocol
  }

  /** dimq__reconnect; `ok` says whether the new socket came up. */
  function ReconnectStep(c: Client, ok: bool): Client
  {
    Reset(c, false).(connected := ok, active := false)
  }

  const UINT16_MAX := 0xFFFF

  /** dimq_int_option with dimq_OPT_SEND_MAXIMUM */
  function SendMaximumStep(c: Client, value: int): Client
  {
    if value < 0 || value > UINT16_MAX then c
    else c.(outgoing := c.outgoing.(max := if value == 0 then UINT16_MAX else value))
  }

  datatype Step =
    | DoPublish(qos: nat)
    | DoReconnect(ok: bool)
    | DoSendMaximum(value: int)
    | SocketLost
    | RecvAck(qos: nat, mid: nat, reason: nat)
    | RecvPubrec(mid: nat, reason: nat)
    | RecvPubrel(mid: nat, reason: nat, sendOk: bool)
    | RecvPublish(qos: nat, mid: nat, dup: bool)
    | RecvConnack(reason: nat, newMax: int)

  function Next(c: Client, s: Step): Client
  {
    match s
    case DoPublish(qos) => Publish(c, qos)
    case DoReconnect(ok) => ReconnectStep(c, ok)
    case DoSendMaximum(v) => SendMaximumStep(c, v)
    case SocketLost => c.(connected := false)
    case RecvAck(qos, mid, reason) => AckStep(c, qos, mid, reason)
    case RecvPubrec(mid, reason) => PubrecStep(c, mid, reason)
    case RecvPubrel(mid, reason, sendOk) => PubrelStep(c, mid, reason, sendOk)
    case RecvPublish(qos, mid, dup) => IncomingStep(c, qos, mid, dup)
    case RecvConnack(reason, newMax) => ConnackStep(c, reason, newMax)
  }

  /** What cannot happen at all: publishing with another QoS through this path, and receiving a
      packet without a socket. */
  predicate Possible(c: Client, s: Step)
  {
    match s
    case DoPublish(qos) => qos == 1 || qos == 2
    case DoReconnect(_) | DoSendMaximum(_) | SocketLost => true
    case RecvAck(qos, _, _) => c.connected && (qos == 1 || qos == 2)
    case RecvConnack(_, newMax) => c.connected && newMax <= UINT16_MAX
    case _ => c.connected
  }

  function Run(c: Client, steps: seq<Step>): Client
  {
    if steps == [] then c else Next(Run(c, steps[..|steps| - 1]), steps[|steps| - 1])
  }

  ghost predicate PossibleRun(c: Client, steps: seq<Step>)
  {
    steps != [] ==>
      PossibleRun(c, steps[..|steps| - 1]) && Possible(Run(c, steps[..|steps| - 1]), steps[|steps| - 1])
  }
}
