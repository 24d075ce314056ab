/**
 The sender never stalls: in every run, whatever the peer does, the message at the head of the
 outgoing list has been started, an empty list leaves quota for the next one, and while the
 connection is up every started message has been handed to the network.
 */
module SessionProgress {
  import opened SessionState
  import opened SessionTheorems
  import opened SessionSafety

  // ===== the head of the list

  /** The head of the list has been started, or the list is empty and there is quota for a message. */
  predicate Flowing(o: Side)
  {
    if o.list == [] then o.quota > 0 else !o.list[0].state.Invalid?
  }

  predicate Alive(c: Client) { Typed(c) && c.outgoing.max > 0 && Flowing(c.outgoing) }

  lemma ReleaseFlows(o: Side, connected: bool)
    requires OutOk(o) && (Flowing(o) || o.quota > 0)
    ensures Flowing(ReleaseSide(o, connected))
  {
    if o.list != [] {
      ReleasedAt(o.list, ReleaseLimit(o, connected), 0);
      assert OutTyped(o.list[0]) && o.list[..0] == [];
    }
  }

  lemma PublishFlows(c: Client, qos: nat)
    requires Alive(c) && (qos == 1 || qos == 2)
    ensures Flowing(Publish(c, qos).outgoing)
  {
    var o := Enqueued(c, qos).outgoing;
    if c.outgoing.list != [] { assert o.list[0] == c.outgoing.list[0]; }
    assert OutOk(o);
    ReleaseFlows(o, c.connected);
  }

  lemma AckFlows(c: Client, qos: nat, mid: nat, reason: nat)
    requires Alive(c)
    ensures Flowing(AckStep(c, qos, mid, reason).outgoing)
  {
    var o := Incremented(c.outgoing);
    if c.active && AckAccepted(c, qos, mid, reason) && !RemoveStatus(o.list, mid, qos).ErrProtocol? {
      RemovedOk(o, mid, qos);
      ReleaseFlows(Removed(o, mid, qos), c.connected);
    }
  }

  lemma PubrecFlows(c: Client, mid: nat, reason: nat)
    requires Alive(c)
    ensures Flowing(PubrecStep(c, mid, reason).outgoing)
  {
    if PubrecAccepted(c, mid, reason) && Refuses(c, reason) {
      RemovedOk(c.outgoing, mid, 2);
      ReleaseFlows(Incremented(Removed(c.outgoing, mid, 2)), c.connected);
    }
  }

  /** Why the maximum matters: a reset keeps the flow exactly when it is not 0. */
  lemma ResetFlowsIff(o: Side, quotaOnly: bool)
    requires OutOk(o) && Flowing(o)
    ensures Flowing(ResetOutSide(o, quotaOnly)) <==> o.max > 0
  {
    if o.list != [] { assert OutTyped(o.list[0]); }
  }

  lemma ConnackFlows(c: Client, reason: nat, newMax: int)
    requires Alive(c)
    ensures Flowing(ConnackStep(c, reason, newMax).outgoing)
  {
    if !ConnackRefused(c.v5, newMax) {
      var o := WithMaximum(c, newMax).outgoing;
      ResetFlowsIff(o, true);
      var list := ResetOutSide(o, true).list;
      if list != [] { assert RetryList(list)[0] == Retried(list[0]); }
    }
  }

  lemma IncomingOnly(c: Client, s: Step)
    requires s.RecvPubrel? || s.RecvPublish?
    ensures Next(c, s).outgoing == c.outgoing && Next(c, s).connected == c.connected && Next(c, s).active == c.active
    ensures c.trace <= Next(c, s).trace
  {
    match s
    case RecvPubrel(mid, reason, sendOk) =>
    case RecvPublish(qos, mid, dup) =>
  }

  /** The send maximum is never 0: a broker cannot announce it, and the option 0 means the largest. */
  lemma MaximumStays(c: Client, s: Step)
    requires c.outgoing.max > 0
    ensures Next(c, s).outgoing.max > 0
  {
    match s
    case DoPublish(qos) =>
    case DoReconnect(ok) =>
    case DoSendMaximum(v) =>
    case SocketLost =>
    case RecvAck(qos, mid, reason) => AckKeepsMaximum(c, qos, mid, reason);
    case RecvPubrec(mid, reason) => PubrecKeepsMaximum(c, mid, reason);
    case RecvPubrel(mid, reason, sendOk) => IncomingOnly(c, s);
    case RecvPublish(qos, mid, dup) => IncomingOnly(c, s);
    case RecvConnack(reason, newMax) => ConnackMaximum(c, reason, newMax);
  }

  lemma AckKeepsMaximum(c: Client, qos: nat, mid: nat, reason: nat)
    ensures AckStep(c, qos, mid, reason).outgoing.max == c.outgoing.max
  {
  }

  lemma PubrecKeepsMaximum(c: Client, mid: nat, reason: nat)
    ensures PubrecStep(c, mid, reason).outgoing.max == c.outgoing.max
  {
  }

  lemma ConnackMaximum(c: Client, reason: nat, newMax: int)
    requires c.outgoing.max > 0
    ensures ConnackStep(c, reason, newMax).outgoing.max > 0
  {
  }

  lemma AliveStep(c: Client, s: Step)
    requires Alive(c) && Possible(c, s)
    ensures Alive(Next(c, s))
  {
    TypedStep(c, s);
    MaximumStays(c, s);
    match s
    case DoPublish(qos) => PublishFlows(c, qos);
    case DoReconnect(ok) => ResetFlowsIff(c.outgoing, false);
    case DoSendMaximum(v) =>
    case SocketLost =>
    case RecvAck(qos, mid, reason) => AckFlows(c, qos, mid, reason);
    case RecvPubrec(mid, reason) => PubrecFlows(c, mid, reason);
    case RecvPubrel(mid, reason, sendOk) => IncomingOnly(c, s);
    case RecvPublish(qos, mid, dup) => IncomingOnly(c, s);
    case RecvConnack(reason, newMax) => ConnackFlows(c, reason, newMax);
  }

  lemma {:induction false} AliveAlways(v5: bool, steps: seq<Step>)
    requires PossibleRun(NewClient(v5), steps)
    ensures Alive(Run(NewClient(v5), steps))
  {
    if steps != [] {
      var before := steps[..|steps| - 1];
      AliveAlways(v5, before);
      AliveStep(Run(NewClient(v5), before), steps[|steps| - 1]);
    }
  }

  // ===== what is started has been sent

  /** A PUBLISH for this record has been handed to the network. */
  predicate Published(tr: seq<Event>, serial: nat)
  {
    exists i | 0 <= i < |tr| :: tr[i].SentPublish? && tr[i].serial == serial
  }

  predicate Waiting(m: Message) { m.state.WaitForPuback? || m.state.WaitForPubrec? }

  predicate Resending(m: Message) { m.state.PublishQos1? || m.state.PublishQos2? }

  /** What the trace must hold for a message in its state: the PUBREC of an acknowledged one; while
      there is a socket the PUBLISH of one that waits for its answer; and once the broker has accepted
      the connection that of one to be sent again. */
  predicate Accounted(connected: bool, active: bool, tr: seq<Event>, m: Message)
  {
    && (Acknowledged(m) ==> GotPubrec(m.serial) in tr)
    && (connected && Waiting(m) ==> Published(tr, m.serial))
    && (connected && active && Resending(m) ==> Published(tr, m.serial))
  }

  predicate AllAccounted(c: Client)
  {
    forall i | 0 <= i < |c.outgoing.list| :: Accounted(c.connected, c.active, c.trace, c.outgoing.list[i])
  }

  /** More events do no harm. */
  lemma AccountedMore(connected: bool, active: bool, tr: seq<Event>, es: seq<Event>, m: Message)
    requires Accounted(connected, active, tr, m)
    ensures Accounted(connected, active, tr + es, m)
  {
    if Published(tr, m.serial) {
      var i :| 0 <= i < |tr| && tr[i].SentPublish? && tr[i].serial == m.serial;
      assert (tr + es)[i] == tr[i];
    }
  }

  lemma AllAccountedMore(c: Client, es: seq<Event>)
    requires AllAccounted(c)
    ensures AllAccounted(Log(c, es))
  {
    forall i | 0 <= i < |c.outgoing.list| ensures Accounted(c.connected, c.active, c.trace + es, c.outgoing.list[i]) {
      AccountedMore(c.connected, c.active, c.trace, es, c.outgoing.list[i]);
    }
  }

  /** A release sends a PUBLISH for every message it starts. */
  lemma {:induction false} ReleaseSends(ms: seq<Message>, n: int, j: nat)
    requires j < |ms| && Released(ms, n)[j] != ms[j]
    ensures Published(ReleaseEvents(ms, n), ms[j].serial)
  {
    var k := |ms| - 1;
    var front := ReleaseEvents(ms[..k], n);
    if j < k {
      assert Released(ms, n)[j] == Released(ms[..k], n)[j];
      ReleaseSends(ms[..k], n, j);
      PublishedMore(front, ReleaseEvents(ms, n)[|front|..], ms[j].serial);
      assert ReleaseEvents(ms, n) == front + ReleaseEvents(ms, n)[|front|..];
    } else {
      assert ReleaseEvents(ms, n)[|front|] == SentPublish(ms[k].serial, ms[k].mid, ms[k].dup);
    }
  }

  lemma PublishedMore(tr: seq<Event>, es: seq<Event>, serial: nat)
    requires Published(tr, serial) || Published(es, serial)
    ensures Published(tr + es, serial)
  {
    if Published(tr, serial) {
      var i :| 0 <= i < |tr| && tr[i].SentPublish? && tr[i].serial == serial;
      assert (tr + es)[i] == tr[i];
    } else {
      var i :| 0 <= i < |es| && es[i].SentPublish? && es[i].serial == serial;
      assert (tr + es)[|tr| + i] == es[i];
    }
  }

  lemma ReleaseAccounts(c: Client)
    requires OutOk(c.outgoing) && AllAccounted(c)
    ensures AllAccounted(Release(c))
  {
    var list, n := c.outgoing.list, ReleaseLimit(c.outgoing, c.connected);
    var es := if c.connected then ReleaseEvents(list, c.outgoing.quota) else [];
    forall i | 0 <= i < |list| ensures Accounted(c.connected, c.active, c.trace + es, Released(list, n)[i]) {
      if Released(list, n)[i] == list[i] {
        AccountedMore(c.connected, c.active, c.trace, es, list[i]);
      } else {
        assert OutTyped(list[i]) && Released(list, n)[i] == Started(list[i]);
        if c.connected {
          ReleaseSends(list, n, i);
          PublishedMore(c.trace, es, list[i].serial);
        }
      }
    }
  }

  lemma FinishAccounts(c: Client, mid: nat, qos: nat)
    requires AllAccounted(c)
    ensures AllAccounted(Finish(c, mid, qos))
  {
    var c1 := c.(outgoing := Removed(c.outgoing, mid, qos));
    assert AllAccounted(c1);
    AllAccountedMore(c1, CompletionOf(c.outgoing, mid, qos));
  }

  lemma PublishAccounts(c: Client, qos: nat)
    requires Typed(c) && AllAccounted(c) && (qos == 1 || qos == 2)
    ensures AllAccounted(Publish(c, qos))
  {
    var c1 := Enqueued(c, qos);
    assert OutOk(c1.outgoing) && AllAccounted(c1);
    ReleaseAccounts(c1);
  }

  lemma AckAccounts(c: Client, qos: nat, mid: nat, reason: nat)
    requires Typed(c) && AllAccounted(c)
    ensures AllAccounted(AckStep(c, qos, mid, reason))
  {
    if AckAccepted(c, qos, mid, reason) && !RemoveStatus(c.outgoing.list, mid, qos).ErrProtocol? {
      assert AllAccounted(Credit(c));
      FinishAccounts(Credit(c), mid, qos);
      RemovedOk(Credit(c).outgoing, mid, qos);
      ReleaseAccounts(Finish(Credit(c), mid, qos));
    }
  }

  lemma PubrecAccounts(c: Client, mid: nat, reason: nat)
    requires Typed(c) && AllAccounted(c)
    ensures AllAccounted(PubrecStep(c, mid, reason))
  {
    if PubrecAccepted(c, mid, reason) {
      if Refuses(c, reason) {
        FinishAccounts(c, mid, 2);
        RemovedOk(c.outgoing, mid, 2);
        assert AllAccounted(Credit(Finish(c, mid, 2)));
        ReleaseAccounts(Credit(Finish(c, mid, 2)));
      } else if !RemoveStatus(c.outgoing.list, mid, 2).ErrProtocol? {
        ReceivedAccounts(c, mid);
      }
    }
  }

  lemma ReceivedAccounts(c: Client, mid: nat)
    requires AllAccounted(c)
    ensures AllAccounted(Received(c, mid))
  {
    var es := PubrecMatch(c.outgoing, mid) + [SentPubrel(mid)];
    var list := Received(c, mid).outgoing.list;
    forall i | 0 <= i < |list| ensures Accounted(c.connected, c.active, c.trace + es, list[i]) {
      if list[i] == c.outgoing.list[i] {
        AccountedMore(c.connected, c.active, c.trace, es, list[i]);
      } else {
        assert (c.trace + es)[|c.trace|] == GotPubrec(list[i].serial);
      }
    }
  }

  /** Retransmission sends a PUBLISH for every message that is to be sent again. */
  lemma {:induction false} RetrySends(ms: seq<Message>, j: nat)
    requires j < |ms| && Resending(ms[j])
    ensures Published(RetryEvents(ms), ms[j].serial)
  {
    var k := |ms| - 1;
    if j < k {
      RetrySends(ms[..k], j);
    } else {
      assert RetryEvent(ms[k])[0] == SentPublish(ms[k].serial, ms[k].mid, true);
    }
    PublishedMore(RetryEvents(ms[..k]), RetryEvent(ms[k]), ms[j].serial);
  }

  lemma ConnackAccounts(c: Client, reason: nat, newMax: int)
    requires AllAccounted(c)
    ensures AllAccounted(ConnackStep(c, reason, newMax))
  {
    if !ConnackRefused(c.v5, newMax) {
      var c1 := Reset(WithMaximum(c, newMax), true);
      assert AllAccounted(c1);
      if reason == 0 { RetryAccounts(c1); }
    }
  }

  lemma RetryAccounts(c: Client)
    requires AllAccounted(c)
    ensures AllAccounted(RetryCheck(c.(active := true)))
  {
    var list, es := c.outgoing.list, RetryEvents(c.outgoing.list);
    forall i | 0 <= i < |list| ensures Accounted(c.connected, true, c.trace + es, Retried(list[i])) {
      AccountedMore(c.connected, c.active, c.trace, es, list[i]);
      if Resending(list[i]) {
        RetrySends(list, i);
        PublishedMore(c.trace, es, list[i].serial);
      }
    }
  }

  /** Reconnecting leaves no message waiting for an answer. */
  lemma ReconnectAccounts(c: Client, ok: bool)
    requires Typed(c) && AllAccounted(c)
    ensures AllAccounted(ReconnectStep(c, ok))
  {
    var list := ReconnectStep(c, ok).outgoing.list;
    forall i | 0 <= i < |list| ensures Accounted(ok, false, c.trace, list[i]) {
      assert OutTyped(c.outgoing.list[i]) && Accounted(c.connected, c.active, c.trace, c.outgoing.list[i]);
    }
  }

  lemma IncomingAccounts(c: Client, s: Step)
    requires AllAccounted(c) && (s.RecvPubrel? || s.RecvPublish?)
    ensures AllAccounted(Next(c, s))
  {
    IncomingOnly(c, s);
    var es := Next(c, s).trace[|c.trace|..];
    assert Next(c, s).trace == c.trace + es;
    AllAccountedMore(c, es);
  }

  lemma AccountedStep(c: Client, s: Step)
    requires Typed(c) && AllAccounted(c) && Possible(c, s)
    ensures AllAccounted(Next(c, s))
  {
    match s
    case DoPublish(qos) => PublishAccounts(c, qos);
    case DoReconnect(ok) => ReconnectAccounts(c, ok);
    case DoSendMaximum(v) =>
    case SocketLost =>
    case RecvAck(qos, mid, reason) => AckAccounts(c, qos, mid, reason);
    case RecvPubrec(mid, reason) => PubrecAccounts(c, mid, reason);
    case RecvPubrel(mid, reason, sendOk) => IncomingAccounts(c, s);
    case RecvPublish(qos, mid, dup) => IncomingAccounts(c, s);
    case RecvConnack(reason, newMax) => ConnackAccounts(c, reason, newMax);
  }

  lemma {:induction false} AccountedAlways(v5: bool, steps: seq<Step>)
    requires PossibleRun(NewClient(v5), steps)
    ensures AllAccounted(Run(NewClient(v5), steps))
  {
    if steps != [] {
      var before := steps[..|steps| - 1];
      AccountedAlways(v5, before);
      TypedAlways(v5, before);
      AccountedStep(Run(NewClient(v5), before), steps[|steps| - 1]);
    }
  }

  // ===== the theorems

  /** Over all runs, with any peer: while the connection is up and accepted, every message that has
      left the waiting state was handed to the network, or its PUBREC has arrived. */
  lemma StartedIsSent(v5: bool, steps: seq<Step>, i: nat)
    requires PossibleRun(NewClient(v5), steps)
    requires
      var c := Run(NewClient(v5), steps);
      c.connected && c.active && i < |c.outgoing.list| && !c.outgoing.list[i].state.Invalid?
    ensures
      var c := Run(NewClient(v5), steps);
      Published(c.trace, c.outgoing.list[i].serial) || GotPubrec(c.outgoing.list[i].serial) in c.trace
  {
    var c := Run(NewClient(v5), steps);
    AccountedAlways(v5, steps);
    TypedAlways(v5, steps);
    assert Accounted(c.connected, c.active, c.trace, c.outgoing.list[i]) && OutTyped(c.outgoing.list[i]);
  }

  /** Over all runs, with any peer: the send maximum is positive; with no message outstanding there is
      quota for the next; and otherwise the first message has been started, which on an accepted
      connection means that it was sent. */
  lemma NeverStalls(v5: bool, steps: seq<Step>)
    requires PossibleRun(NewClient(v5), steps)
    ensures
      var c := Run(NewClient(v5), steps);
      var o := c.outgoing;
      && o.max > 0
      && (o.list == [] ==> o.quota > 0)
      && (o.list != [] ==> !o.list[0].state.Invalid?)
      && (o.list != [] && c.connected && c.active ==>
            Published(c.trace, o.list[0].serial) || GotPubrec(o.list[0].serial) in c.trace)
  {
    AliveAlways(v5, steps);
    var c := Run(NewClient(v5), steps);
    if c.outgoing.list != [] && c.connected && c.active { StartedIsSent(v5, steps, 0); }
  }
}
