/**
 What the message engine keeps over every run: record typing and list lengths, when an outgoing
 message may leave its list, and the conservation of outgoing and incoming messages. The send
 window and the QoS 2 sender rule are in SessionSafety.dfy.
 */
module SessionTheorems {
  import opened SessionState

  // ===== typing of the lists

  predicate OutTyped(m: Message)
  {
    || (m.qos == 1 && (m.state.Invalid? || m.state.PublishQos1? || m.state.WaitForPuback?))
    || (m.qos == 2 && (m.state.Invalid? || m.state.PublishQos2? || m.state.WaitForPubrec?
                       || m.state.ResendPubrel? || m.state.WaitForPubcomp?))
  }

  predicate InTyped(m: Message) { m.qos == 2 && m.state.WaitForPubrel? }

  predicate AllOut(ms: seq<Message>) { forall i | 0 <= i < |ms| :: OutTyped(ms[i]) }

  predicate AllIn(ms: seq<Message>) { forall i | 0 <= i < |ms| :: InTyped(ms[i]) }

  predicate DistinctSerials(ms: seq<Message>, bound: nat)
  {
    && (forall i | 0 <= i < |ms| :: ms[i].serial < bound)
    && (forall i, j | 0 <= i < j < |ms| :: ms[i].serial != ms[j].serial)
  }

  predicate OutOk(o: Side)
  {
    AllOut(o.list) && o.len == |o.list| && o.quota >= 0 && DistinctSerials(o.list, o.serial)
  }

  predicate InOk(d: Side)
  {
    AllIn(d.list) && d.len == |d.list| && d.quota >= 0 && DistinctSerials(d.list, d.serial)
  }

  /** The session typing invariant. */
  predicate Typed(c: Client) { OutOk(c.outgoing) && InOk(c.incoming) }

  lemma {:induction false} OnlyQos2Keeps(ms: seq<Message>)
    requires AllIn(ms)
    ensures OnlyQos2(ms) == ms
  {
    if ms != [] {
      OnlyQos2Keeps(ms[1..]);
    }
  }

  lemma {:induction false} CountsAddUp(ms: seq<Message>)
    requires AllOut(ms)
    ensures QueuedCount(ms) + Inflight(ms) == |ms|
  {
    if ms != [] { CountsAddUp(ms[..|ms| - 1]); }
  }

  lemma ReleaseOk(o: Side, connected: bool)
    requires OutOk(o)
    ensures OutOk(ReleaseSide(o, connected))
  {
  }

  lemma WithoutOk(ms: seq<Message>, i: nat, bound: nat)
    requires i < |ms| && DistinctSerials(ms, bound)
    ensures DistinctSerials(Without(ms, i), bound)
    ensures AllOut(ms) ==> AllOut(Without(ms, i))
    ensures AllIn(ms) ==> AllIn(Without(ms, i))
  {
  }

  lemma RemovedOk(d: Side, mid: nat, qos: nat)
    ensures OutOk(d) ==> OutOk(Removed(d, mid, qos))
    ensures InOk(d) ==> InOk(Removed(d, mid, qos))
  {
    if RemoveStatus(d.list, mid, qos).Success? && DistinctSerials(d.list, d.serial) {
      WithoutOk(d.list, FirstMid(d.list, mid), d.serial);
    }
  }

  lemma UpdatedOk(o: Side, mid: nat)
    requires OutOk(o)
    ensures OutOk(Updated(o, mid, WaitForPubcomp))
  {
  }

  lemma ResetOk(c: Client, quotaOnly: bool)
    requires Typed(c)
    ensures Typed(Reset(c, quotaOnly))
  {
    OnlyQos2Keeps(c.incoming.list);
  }

  lemma RetryOk(o: Side)
    requires OutOk(o)
    ensures OutOk(o.(list := RetryList(o.list)))
  {
  }

  lemma AckOk(c: Client, qos: nat, mid: nat, reason: nat)
    requires Typed(c)
    ensures Typed(AckStep(c, qos, mid, reason))
  {
    if c.active {
      RemovedOk(Incremented(c.outgoing), mid, qos);
      ReleaseOk(Removed(Incremented(c.outgoing), mid, qos), c.connected);
    }
  }

  lemma PubrecOk(c: Client, mid: nat, reason: nat)
    requires Typed(c)
    ensures Typed(PubrecStep(c, mid, reason))
  {
    if PubrecAccepted(c, mid, reason) {
      if Refuses(c, reason) {
        RemovedOk(c.outgoing, mid, 2);
        ReleaseOk(Incremented(Removed(c.outgoing, mid, 2)), c.connected);
      } else {
        UpdatedOk(c.outgoing, mid);
      }
    }
  }

  lemma PubrelOk(c: Client, mid: nat, reason: nat, sendOk: bool)
    requires Typed(c)
    ensures Typed(PubrelStep(c, mid, reason, sendOk))
  {
    if PubrelAccepted(c, mid, reason) { RemovedOk(Incremented(c.incoming), mid, 2); }
  }

  lemma IncomingOk(c: Client, qos: nat, mid: nat, dup: bool)
    requires Typed(c)
    ensures Typed(IncomingStep(c, qos, mid, dup))
  {
    if !IncomingRefused(c, qos, mid) {
      if qos == 2 { assert InOk(Decremented(c.incoming)); }
    }
  }

  lemma ConnackOk(c: Client, reason: nat, newMax: int)
    requires Typed(c)
    ensures Typed(ConnackStep(c, reason, newMax))
  {
    if !ConnackRefused(c.v5, newMax) {
      var c1 := WithMaximum(c, newMax);
      assert Typed(c1);
      ResetOk(c1, true);
      if reason == 0 { RetryOk(Reset(c1, true).outgoing); }
    }
  }

  lemma TypedStep(c: Client, s: Step)
    requires Typed(c) && Possible(c, s)
    ensures Typed(Next(c, s))
  {
    match s
    case DoPublish(qos) => ReleaseOk(Enqueued(c, qos).outgoing, c.connected);
    case DoReconnect(ok) => ResetOk(c, false);
    case RecvAck(qos, mid, reason) => AckOk(c, qos, mid, reason);
    case RecvPubrec(mid, reason) => PubrecOk(c, mid, reason);
    case RecvPubrel(mid, reason, sendOk) => PubrelOk(c, mid, reason, sendOk);
    case RecvPublish(qos, mid, dup) => IncomingOk(c, qos, mid, dup);
    case RecvConnack(reason, newMax) => ConnackOk(c, reason, newMax);
    case DoSendMaximum(_) =>
    case SocketLost =>
  }

  /** Typing in every reachable state. */
  lemma {:induction false} TypedAlways(v5: bool, steps: seq<Step>)
    requires PossibleRun(NewClient(v5), steps)
    ensures Typed(Run(NewClient(v5), steps))
  {
    if steps != [] {
      var before := steps[..|steps| - 1];
      TypedAlways(v5, before);
      TypedStep(Run(NewClient(v5), before), steps[|steps| - 1]);
    }
  }

  // ===== what a step may do to the set of outgoing records

  predicate SameRecords(a: seq<Message>, b: seq<Message>)
  {
    |a| == |b| && forall i | 0 <= i < |a| ::
      a[i].serial == b[i].serial && a[i].mid == b[i].mid && a[i].qos == b[i].qos
  }

  /** The step is the acknowledgement that ends this message's flow: PUBACK for QoS 1; PUBCOMP
      or a refusing PUBREC for QoS 2; with the message's own identifier. */
  predicate EndsFlow(c: Client, s: Step, m: Message)
  {
    || (s.RecvAck? && s.mid == m.mid && s.qos == m.qos && AckAccepted(c, s.qos, s.mid, s.reason))
    || (s.RecvPubrec? && s.mid == m.mid && m.qos == 2 && Refuses(c, s.reason)
        && PubrecAccepted(c, s.mid, s.reason))
  }

  predicate Holds(ms: seq<Message>, serial: nat)
  {
    exists i | 0 <= i < |ms| :: ms[i].serial == serial
  }

  lemma SameRecordsHold(a: seq<Message>, b: seq<Message>, serial: nat)
    requires SameRecords(a, b)
    ensures Holds(a, serial) == Holds(b, serial)
  {
    if Holds(a, serial) { var i :| 0 <= i < |a| && a[i].serial == serial; assert b[i].serial == serial; }
    if Holds(b, serial) { var i :| 0 <= i < |b| && b[i].serial == serial; assert a[i].serial == serial; }
  }

  /** Taking out record `k` leaves every other record in place. */
  lemma WithoutHolds(ms: seq<Message>, k: nat, i: nat)
    requires k < |ms| && i < |ms| && i != k
    ensures Holds(Without(ms, k), ms[i].serial)
  {
    assert Without(ms, k)[if i < k then i else i - 1] == ms[i];
  }

  lemma RemovedHolds(d: Side, mid: nat, qos: nat, i: nat)
    requires i < |d.list|
    ensures Holds(Removed(d, mid, qos).list, d.list[i].serial)
            || (d.list[i].mid == mid && d.list[i].qos == qos)
  {
    if RemoveStatus(d.list, mid, qos).Success? && FirstMid(d.list, mid) != i {
      WithoutHolds(d.list, FirstMid(d.list, mid), i);
    }
  }

  lemma ReleaseHolds(o: Side, connected: bool, serial: nat)
    ensures Holds(ReleaseSide(o, connected).list, serial) == Holds(o.list, serial)
  {
    SameRecordsHold(o.list, ReleaseSide(o, connected).list, serial);
  }

  lemma PublishKeeps(c: Client, qos: nat, i: nat)
    requires i < |c.outgoing.list|
    ensures Holds(Publish(c, qos).outgoing.list, c.outgoing.list[i].serial)
  {
    var c1 := Enqueued(c, qos);
    assert c1.outgoing.list[i] == c.outgoing.list[i];
    ReleaseHolds(c1.outgoing, c.connected, c.outgoing.list[i].serial);
  }

  lemma AckKeepsOthers(c: Client, qos: nat, mid: nat, reason: nat, i: nat)
    requires i < |c.outgoing.list|
    ensures Holds(AckStep(c, qos, mid, reason).outgoing.list, c.outgoing.list[i].serial)
            || (c.outgoing.list[i].mid == mid && c.outgoing.list[i].qos == qos && AckAccepted(c, qos, mid, reason))
  {
    if AckAccepted(c, qos, mid, reason) {
      RemovedHolds(Incremented(c.outgoing), mid, qos, i);
      ReleaseHolds(Removed(Incremented(c.outgoing), mid, qos), c.connected, c.outgoing.list[i].serial);
    }
  }

  lemma PubrecKeepsOthers(c: Client, mid: nat, reason: nat, i: nat)
    requires i < |c.outgoing.list|
    ensures Holds(PubrecStep(c, mid, reason).outgoing.list, c.outgoing.list[i].serial)
            || (c.outgoing.list[i].mid == mid && c.outgoing.list[i].qos == 2 && Refuses(c, reason)
                && PubrecAccepted(c, mid, reason))
  {
    if PubrecAccepted(c, mid, reason) {
      if Refuses(c, reason) {
        RemovedHolds(c.outgoing, mid, 2, i);
        ReleaseHolds(Incremented(Removed(c.outgoing, mid, 2)), c.connected, c.outgoing.list[i].serial);
      } else {
        SameRecordsHold(c.outgoing.list, Updated(c.outgoing, mid, WaitForPubcomp).list, c.outgoing.list[i].serial);
      }
    }
  }

  /** No outgoing loss: a record leaves the list only on the acknowledgement that ends its flow. */
  lemma LeavesOnlyWhenAcknowledged(c: Client, s: Step, i: nat)
    requires Possible(c, s) && i < |c.outgoing.list|
    ensures Holds(Next(c, s).outgoing.list, c.outgoing.list[i].serial) || EndsFlow(c, s, c.outgoing.list[i])
  {
    var list := c.outgoing.list;
    match s
    case DoPublish(qos) => PublishKeeps(c, qos, i);
    case RecvAck(qos, mid, reason) => AckKeepsOthers(c, qos, mid, reason, i);
    case RecvPubrec(mid, reason) => PubrecKeepsOthers(c, mid, reason, i);
    case DoReconnect(_) => SameRecordsHold(list, ResetOutSide(c.outgoing, false).list, list[i].serial);
    case RecvConnack(reason, newMax) =>
      var kept := ResetOutSide(WithMaximum(c, newMax).outgoing, true).list;
      SameRecordsHold(list, kept, list[i].serial);
      SameRecordsHold(kept, RetryList(kept), list[i].serial);
    case DoSendMaximum(_) =>
    case SocketLost =>
    case RecvPubrel(_, _, _) =>
    case RecvPublish(_, _, _) =>
  }

  // ===== conservation of outgoing and incoming records

  function Present(ms: seq<Message>, serial: nat): nat { if Holds(ms, serial) then 1 else 0 }

  /** How often the trace holds an event. */
  function Times(c: Client, e: Event): nat { multiset(c.trace)[e] }

  predicate OutConserved(c: Client, serial: nat)
  {
    Times(c, Completed(serial)) + Present(c.outgoing.list, serial)
      == (if serial < c.outgoing.serial then 1 else 0)
  }

  predicate InConserved(c: Client, serial: nat)
  {
    Times(c, Delivered(serial)) + Times(c, Dropped(serial)) + Present(c.incoming.list, serial)
      == (if serial < c.incoming.serial then 1 else 0)
  }

  /** Every outgoing record accepted so far is either still in the list or has been reported
      complete, exactly once; every stored incoming record is in the list, was delivered once, or
      was dropped once. */
  predicate Conserved(c: Client, serial: nat) { OutConserved(c, serial) && InConserved(c, serial) }

  predicate IsPacket(e: Event)
  {
    e.SentPublish? || e.SentPubrel? || e.SentPubrec? || e.SentPuback? || e.SentPubcomp?
  }

  predicate AllPackets(tr: seq<Event>) { forall i | 0 <= i < |tr| :: IsPacket(tr[i]) }

  lemma {:induction false} ReleaseEventsArePackets(ms: seq<Message>, n: int)
    ensures AllPackets(ReleaseEvents(ms, n))
  {
    if ms != [] { ReleaseEventsArePackets(ms[..|ms| - 1], n); }
  }

  lemma {:induction false} RetryEventsArePackets(ms: seq<Message>)
    ensures AllPackets(RetryEvents(ms))
  {
    if ms != [] { RetryEventsArePackets(ms[..|ms| - 1]); }
  }

  lemma PresentWithout(ms: seq<Message>, i: nat, bound: nat, serial: nat)
    requires i < |ms| && DistinctSerials(ms, bound)
    ensures Present(Without(ms, i), serial) == Present(ms, serial) - (if ms[i].serial == serial then 1 else 0)
  {
    var r := Without(ms, i);
    if Holds(ms, serial) {
      var k :| 0 <= k < |ms| && ms[k].serial == serial;
      if k != i { assert r[if k < i then k else k - 1].serial == serial; }
    }
    if Holds(r, serial) {
      var k :| 0 <= k < |r| && r[k].serial == serial;
      assert ms[if k < i then k else k + 1].serial == serial;
    }
  }

  lemma PresentAppend(ms: seq<Message>, m: Message, serial: nat)
    requires m.serial == serial ==> !Holds(ms, serial)
    ensures Present(ms + [m], serial) == Present(ms, serial) + (if m.serial == serial then 1 else 0)
  {
    if Holds(ms, serial) { var i :| 0 <= i < |ms| && ms[i].serial == serial; assert (ms + [m])[i].serial == serial; }
    if m.serial == serial { assert (ms + [m])[|ms|].serial == serial; }
  }

  lemma PresentRemoved(d: Side, mid: nat, qos: nat, serial: nat)
    requires DistinctSerials(d.list, d.serial) && RemoveStatus(d.list, mid, qos).Success?
    ensures Present(Removed(d, mid, qos).list, serial)
            == Present(d.list, serial) - (if d.list[FirstMid(d.list, mid)].serial == serial then 1 else 0)
  {
    PresentWithout(d.list, FirstMid(d.list, mid), d.serial, serial);
  }

  /** Removing a matched outgoing record and reporting it balance. */
  lemma FinishConserves(c: Client, mid: nat, qos: nat, serial: nat)
    requires Typed(c) && Conserved(c, serial)
    ensures Conserved(Finish(c, mid, qos), serial)
  {
    if RemoveStatus(c.outgoing.list, mid, qos).Success? { PresentRemoved(c.outgoing, mid, qos, serial); }
  }

  /** Packets do not change the balance. */
  lemma PacketsConserve(c: Client, es: seq<Event>, serial: nat)
    requires Conserved(c, serial) && AllPackets(es)
    ensures Conserved(Log(c, es), serial)
  {
    assert Completed(serial) !in es && Delivered(serial) !in es && Dropped(serial) !in es;
  }

  lemma ReleaseConserves(c: Client, serial: nat)
    requires Conserved(c, serial)
    ensures Conserved(Release(c), serial)
  {
    ReleaseEventsArePackets(c.outgoing.list, c.outgoing.quota);
    PacketsConserve(c, if c.connected then ReleaseEvents(c.outgoing.list, c.outgoing.quota) else [], serial);
    ReleaseHolds(c.outgoing, c.connected, serial);
  }

  lemma ResetConserves(c: Client, quotaOnly: bool, serial: nat)
    requires Typed(c) && Conserved(c, serial)
    ensures Conserved(Reset(c, quotaOnly), serial)
  {
    OnlyQos2Keeps(c.incoming.list);
    SameRecordsHold(c.outgoing.list, Reset(c, quotaOnly).outgoing.list, serial);
  }

  /** Taking a stored record out of the list and delivering or dropping it balance. */
  lemma PubrelConserves(c: Client, mid: nat, reason: nat, sendOk: bool, serial: nat)
    requires Typed(c) && Conserved(c, serial) && PubrelAccepted(c, mid, reason)
    ensures Conserved(PubrelStep(c, mid, reason, sendOk), serial)
  {
    var c' := PubrelStep(c, mid, reason, sendOk);
    var head := if sendOk then [SentPubcomp(mid)] else [];
    var es := DeliveryOf(c.incoming, mid, sendOk);
    assert c'.trace == c.trace + head + es;
    assert multiset(c'.trace) == multiset(c.trace) + multiset(head) + multiset(es);
    assert OutConserved(c', serial);
    if RemoveStatus(c.incoming.list, mid, 2).Success? {
      PresentRemoved(Incremented(c.incoming), mid, 2, serial);
      if sendOk { assert InConserved(c', serial); } else { assert InConserved(c', serial); }
    }
  }

  lemma PublishConserves(c: Client, qos: nat, serial: nat)
    requires Typed(c) && Conserved(c, serial)
    ensures Conserved(Publish(c, qos), serial)
  {
    PresentAppend(c.outgoing.list, NewMessage(c, qos), serial);
    ReleaseConserves(Enqueued(c, qos), serial);
  }

  lemma AckConserves(c: Client, qos: nat, mid: nat, reason: nat, serial: nat)
    requires Typed(c) && Conserved(c, serial)
    ensures Conserved(AckStep(c, qos, mid, reason), serial)
  {
    FinishConserves(Credit(c), mid, qos, serial);
    ReleaseConserves(Finish(Credit(c), mid, qos), serial);
  }

  lemma ReceivedConserves(c: Client, mid: nat, serial: nat)
    requires Conserved(c, serial)
    ensures Conserved(Received(c, mid), serial)
  {
    SameRecordsHold(c.outgoing.list, Updated(c.outgoing, mid, WaitForPubcomp).list, serial);
    var es := PubrecMatch(c.outgoing, mid) + [SentPubrel(mid)];
    assert Completed(serial) !in es && Delivered(serial) !in es && Dropped(serial) !in es;
  }

  lemma PubrecConserves(c: Client, mid: nat, reason: nat, serial: nat)
    requires Typed(c) && Conserved(c, serial)
    ensures Conserved(PubrecStep(c, mid, reason), serial)
  {
    if PubrecAccepted(c, mid, reason) {
      if Refuses(c, reason) {
        FinishConserves(c, mid, 2, serial);
        ReleaseConserves(Credit(Finish(c, mid, 2)), serial);
      } else if !RemoveStatus(c.outgoing.list, mid, 2).ErrProtocol? {
        ReceivedConserves(c, mid, serial);
      }
    }
  }

  lemma StoredConserves(c: Client, mid: nat, dup: bool, serial: nat)
    requires Typed(c) && Conserved(c, serial)
    ensures Conserved(Stored(c, mid, dup), serial)
  {
    PresentAppend(c.incoming.list, Message(c.incoming.serial, mid, 2, WaitForPubrel, dup), serial);
  }

  lemma IncomingConserves(c: Client, qos: nat, mid: nat, dup: bool, serial: nat)
    requires Typed(c) && Conserved(c, serial)
    ensures Conserved(IncomingStep(c, qos, mid, dup), serial)
  {
    if !IncomingRefused(c, qos, mid) {
      if qos == 0 {
      } else if qos == 1 {
      } else {
        StoredConserves(c, mid, dup, serial);
      }
    }
  }

  lemma RetryConserves(c: Client, serial: nat)
    requires Conserved(c, serial)
    ensures Conserved(RetryCheck(c), serial)
  {
    RetryEventsArePackets(c.outgoing.list);
    PacketsConserve(c, RetryEvents(c.outgoing.list), serial);
    SameRecordsHold(c.outgoing.list, RetryList(c.outgoing.list), serial);
  }

  lemma ConnackConserves(c: Client, reason: nat, newMax: int, serial: nat)
    requires Typed(c) && Conserved(c, serial)
    ensures Conserved(ConnackStep(c, reason, newMax), serial)
  {
    if !ConnackRefused(c.v5, newMax) {
      var c0 := WithMaximum(c, newMax);
      assert Typed(c0) && Conserved(c0, serial);
      ResetConserves(c0, true, serial);
      if reason == 0 { RetryConserves(Reset(c0, true).(active := true), serial); }
    }
  }

  lemma ConservedStep(c: Client, s: Step, serial: nat)
    requires Typed(c) && Conserved(c, serial)
    ensures Conserved(Next(c, s), serial)
  {
    match s
    case DoPublish(qos) => PublishConserves(c, qos, serial);
    case DoReconnect(ok) => ResetConserves(c, false, serial);
    case RecvAck(qos, mid, reason) => AckConserves(c, qos, mid, reason, serial);
    case RecvPubrec(mid, reason) => PubrecConserves(c, mid, reason, serial);
    case RecvPubrel(mid, reason, sendOk) =>
      if PubrelAccepted(c, mid, reason) { PubrelConserves(c, mid, reason, sendOk, serial); }
    case RecvPublish(qos, mid, dup) => IncomingConserves(c, qos, mid, dup, serial);
    case RecvConnack(reason, newMax) => ConnackConserves(c, reason, newMax, serial);
    case DoSendMaximum(_) =>
    case SocketLost =>
  }

  /** Conservation over every run, with no assumption on the broker: nothing accepted for sending
      is lost or reported twice, and nothing received is delivered twice, across any number of
      reconnections. */
  lemma {:induction false} ConservedAlways(v5: bool, steps: seq<Step>, serial: nat)
    requires PossibleRun(NewClient(v5), steps)
    ensures Conserved(Run(NewClient(v5), steps), serial)
  {
    if steps != [] {
      var before := steps[..|steps| - 1];
      ConservedAlways(v5, before, serial);
      TypedAlways(v5, before);
      ConservedStep(Run(NewClient(v5), before), steps[|steps| - 1], serial);
    }
  }

  // ===== message identifiers

  /** The identifier after n calls of dimq__mid_generate. */
  function MidAfter(last: nat, n: nat): nat { if n == 0 then last else NextMid(MidAfter(last, n - 1)) }

  /** Identifiers run through 1 to 65535 and start again. */
  lemma {:induction false} MidAt(last: nat, n: nat)
    requires 1 <= last <= UINT16_MAX
    ensures MidAfter(last, n) == (last - 1 + n) % UINT16_MAX + 1
  {
    if n > 0 {
      MidAt(last, n - 1);
      NextRemainder(last - 1 + (n - 1));
    }
  }

  lemma NextRemainder(x: nat)
    ensures (x + 1) % UINT16_MAX == if x % UINT16_MAX + 1 == UINT16_MAX then 0 else x % UINT16_MAX + 1
  {
    var q, r := x / UINT16_MAX, x % UINT16_MAX;
    assert x == q * UINT16_MAX + r;
    if r + 1 == UINT16_MAX {
      assert x + 1 == (q + 1) * UINT16_MAX;
    } else {
      assert x + 1 == q * UINT16_MAX + (r + 1);
    }
  }

  lemma CycleDiffers(start: nat, i: nat, j: nat)
    requires 1 <= start <= UINT16_MAX && i < j < i + UINT16_MAX
    ensures 1 <= MidAfter(start, i) <= UINT16_MAX && MidAfter(start, i) != MidAfter(start, j)
  {
    var a, b := start - 1 + i, start - 1 + j;
    MidAt(start, i);
    MidAt(start, j);
    RemaindersDiffer(a, b);
    assert MidAfter(start, i) == a % UINT16_MAX + 1 && MidAfter(start, j) == b % UINT16_MAX + 1;
  }

  /** An identifier is never 0 and does not come again in the next 65534 calls. */
  lemma MidsDiffer(last: nat, i: nat, j: nat)
    requires last <= UINT16_MAX && 1 <= i < j < i + UINT16_MAX
    ensures 1 <= MidAfter(last, i) <= UINT16_MAX && MidAfter(last, i) != MidAfter(last, j)
  {
    MidShift(last, i);
    MidShift(last, j);
    FirstMidRange(last);
    CycleDiffers(MidAfter(last, 1), i - 1, j - 1);
  }

  lemma FirstMidRange(last: nat)
    ensures 1 <= MidAfter(last, 1) <= UINT16_MAX
  {
    assert MidAfter(last, 1) == NextMid(MidAfter(last, 0)) == NextMid(last);
  }

  lemma RemaindersDiffer(a: nat, b: nat)
    requires a < b < a + UINT16_MAX
    ensures a % UINT16_MAX != b % UINT16_MAX
  {
    var q, r := a / UINT16_MAX, b / UINT16_MAX;
    assert a == q * UINT16_MAX + a % UINT16_MAX && b == r * UINT16_MAX + b % UINT16_MAX;
  }

  lemma {:induction false} MidShift(last: nat, n: nat)
    requires n >= 1
    ensures MidAfter(last, n) == MidAfter(MidAfter(last, 1), n - 1)
  {
    if n > 1 { MidShift(last, n - 1); }
  }
}
