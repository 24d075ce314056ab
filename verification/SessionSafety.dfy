/**
 The send window (section 4.9 of MQTT 5.0) and the QoS 2 sender rule (section 4.3.3): once the
 PUBREC for a message has arrived, that message is never published again, in any run and across
 any number of reconnections, as long as the peer and the configuration behave as `Behaved` says.
 */
module SessionSafety {
  import opened SessionState
  import opened SessionTheorems

  // ===== counting

  lemma {:induction false} InflightPrefix(ms: seq<Message>, k: nat)
    requires k <= |ms|
    ensures Inflight(ms[..k]) <= Inflight(ms)
  {
    if k < |ms| {
      InflightPrefix(ms[..|ms| - 1], k);
      assert ms[..|ms| - 1][..k] == ms[..k];
    } else {
      assert ms[..k] == ms;
    }
  }

  lemma {:induction false} InflightBound(ms: seq<Message>, k: nat)
    requires forall j | k <= j < |ms| :: ms[j].state.Invalid?
    ensures Inflight(ms) <= k
  {
    if ms != [] {
      if |ms| <= k {
        InflightAtMostLength(ms);
      } else {
        InflightBound(ms[..|ms| - 1], k);
      }
    }
  }

  lemma {:induction false} InflightAtMostLength(ms: seq<Message>)
    ensures Inflight(ms) <= |ms|
  {
    if ms != [] { InflightAtMostLength(ms[..|ms| - 1]); }
  }

  /** Only the waiting or not waiting of each message matters. */
  lemma {:induction false} InflightSame(a: seq<Message>, b: seq<Message>)
    requires |a| == |b| && forall i | 0 <= i < |a| :: a[i].state.Invalid? == b[i].state.Invalid?
    ensures Inflight(a) == Inflight(b)
  {
    if a != [] { InflightSame(a[..|a| - 1], b[..|b| - 1]); }
  }

  lemma {:induction false} InflightWithout(ms: seq<Message>, i: nat)
    requires i < |ms|
    ensures Inflight(Without(ms, i)) == Inflight(ms) - (if ms[i].state.Invalid? then 0 else 1)
    decreases |ms|
  {
    var k := |ms| - 1;
    if i == k {
      assert Without(ms, i) == ms[..k];
    } else {
      InflightWithout(ms[..k], i);
      assert Without(ms, i)[..k - 1] == Without(ms[..k], i);
    }
  }

  lemma {:induction false} ReleasedPrefix(ms: seq<Message>, n: int, k: nat)
    requires k <= |ms|
    ensures Released(ms, n)[..k] == Released(ms[..k], n)
  {
    if k < |ms| {
      ReleasedPrefix(ms[..|ms| - 1], n, k);
      assert ms[..|ms| - 1][..k] == ms[..k];
      assert Released(ms, n)[..|ms| - 1] == Released(ms[..|ms| - 1], n);
      assert Released(ms, n)[..k] == Released(ms, n)[..|ms| - 1][..k];
    } else {
      assert ms[..k] == ms;
    }
  }

  /** A release starts exactly the queued messages that have fewer than `n` queued ones before them. */
  lemma ReleasedAt(ms: seq<Message>, n: int, j: nat)
    requires j < |ms|
    ensures Released(ms, n)[j]
         == if Queued(ms[j]) && QueuedCount(ms[..j]) < n then Started(ms[j]) else ms[j]
  {
    ReleasedPrefix(ms, n, j + 1);
    assert ms[..j + 1][..j] == ms[..j];
    assert Released(ms, n)[j] == Released(ms[..j + 1], n)[j];
  }

  lemma {:induction false} InflightReleased(ms: seq<Message>, n: nat)
    requires AllOut(ms)
    ensures Inflight(Released(ms, n)) == Inflight(ms) + Min(QueuedCount(ms), n)
  {
    if ms != [] {
      var k := |ms| - 1;
      InflightReleased(ms[..k], n);
      assert Released(ms, n)[..k] == Released(ms[..k], n);
    }
  }

  lemma {:induction false} QueuedReleased(ms: seq<Message>, n: nat)
    requires AllOut(ms)
    ensures QueuedCount(Released(ms, n)) == QueuedCount(ms) - Min(QueuedCount(ms), n)
  {
    CountsAddUp(ms);
    CountsAddUp(Released(ms, n));
    InflightReleased(ms, n);
  }

  /** A release while connected spends one unit of quota per message it starts, takes the earliest
      queued messages first, and leaves one queued only when the quota is used up. */
  lemma ReleaseIsExhaustive(o: Side)
    requires OutOk(o)
    ensures
      var o' := ReleaseSide(o, true);
      && Inflight(o'.list) + o'.quota == Inflight(o.list) + o.quota
      && (QueuedCount(o'.list) > 0 ==> o'.quota == 0)
      && (forall i, j | 0 <= i < j < |o.list| && Queued(o.list[i]) && o'.list[j] != o.list[j] ::
            o'.list[i] == Started(o.list[i]))
  {
    InflightReleased(o.list, o.quota);
    QueuedReleased(o.list, o.quota);
    var list' := ReleaseSide(o, true).list;
    forall i, j | 0 <= i < j < |o.list| && Queued(o.list[i]) && list'[j] != o.list[j]
      ensures list'[i] == Started(o.list[i])
    {
      ReleasedAt(o.list, o.quota, i);
      ReleasedAt(o.list, o.quota, j);
      QueuedPrefix(o.list, i, j);
    }
  }

  lemma {:induction false} QueuedPrefix(ms: seq<Message>, i: nat, j: nat)
    requires i <= j <= |ms|
    ensures QueuedCount(ms[..i]) <= QueuedCount(ms[..j])
    decreases j
  {
    if i < j {
      QueuedPrefix(ms, i, j - 1);
      assert ms[..j][..j - 1] == ms[..j - 1];
    }
  }

  // ===== the send window

  /** Every message that occupies the window sits below the maximum. */
  predicate Below(ms: seq<Message>, max: nat)
  {
    forall i | 0 <= i < |ms| && !ms[i].state.Invalid? :: i < max
  }

  predicate WindowSide(o: Side) { Inflight(o.list) + o.quota <= o.max && Below(o.list, o.max) }

  /** The window bound; it is kept while there is a connection. */
  predicate Window(c: Client) { c.connected ==> WindowSide(c.outgoing) }

  lemma ReleaseKeepsWindow(o: Side)
    requires OutOk(o) && WindowSide(o)
    ensures WindowSide(ReleaseSide(o, true))
  {
    ReleaseIsExhaustive(o);
    var list' := ReleaseSide(o, true).list;
    forall j | 0 <= j < |list'| && !list'[j].state.Invalid?
      ensures j < o.max
    {
      ReleasedAt(o.list, o.quota, j);
      if Queued(o.list[j]) {
        CountsAddUp(o.list[..j]);
        InflightPrefix(o.list, j);
      }
    }
  }

  lemma ResetGivesWindow(o: Side, quotaOnly: bool)
    ensures WindowSide(ResetOutSide(o, quotaOnly))
  {
    var o' := ResetOutSide(o, quotaOnly);
    InflightBound(o'.list, o.max);
    InflightAtMostLength(o'.list);
  }

  /** A message that an acknowledgement takes out was occupying the window. */
  predicate NamesInflight(o: Side, mid: nat, qos: nat)
  {
    var i := FirstMid(o.list, mid);
    i < |o.list| && o.list[i].qos == qos && !o.list[i].state.Invalid?
  }

  /** Giving one unit of quota back for a message that leaves keeps the bound, in either order. */
  lemma AckKeepsWindow(o: Side, mid: nat, qos: nat)
    requires WindowSide(o) && NamesInflight(o, mid, qos)
    ensures WindowSide(Removed(Incremented(o), mid, qos))
    ensures WindowSide(Incremented(Removed(o, mid, qos)))
  {
    InflightWithout(o.list, FirstMid(o.list, mid));
  }

  /** The exact condition under which a PUBACK or PUBCOMP keeps the bound: it is well formed and
      names a message in flight, or the window had room to spare. The quota is given back in every
      case, also for identifier 0 and for reason codes the handler refuses. */
  lemma AckWindowIff(c: Client, qos: nat, mid: nat, reason: nat)
    requires Typed(c) && c.connected && c.active
    ensures
      var o, o' := c.outgoing, AckStep(c, qos, mid, reason).outgoing;
      Inflight(o'.list) + o'.quota <= o'.max <==>
        Inflight(o.list) + Incremented(o).quota
          - (if AckAccepted(c, qos, mid, reason) && NamesInflight(o, mid, qos) then 1 else 0) <= o.max
  {
    var o := Incremented(c.outgoing);
    if RemoveStatus(o.list, mid, qos).Success? { InflightWithout(o.list, FirstMid(o.list, mid)); }
    if !RemoveStatus(o.list, mid, qos).ErrProtocol? {
      RemovedOk(o, mid, qos);
      ReleaseIsExhaustive(Removed(o, mid, qos));
    }
  }

  // ===== the acknowledged messages

  predicate Acknowledged(m: Message) { m.state.WaitForPubcomp? || m.state.ResendPubrel? }

  /** Every message in the list whose PUBREC has arrived is in a state from which only PUBREL is
      sent, and sits below the maximum. */
  predicate AckedKept(c: Client)
  {
    forall i | 0 <= i < |c.outgoing.list| && GotPubrec(c.outgoing.list[i].serial) in c.trace ::
      Acknowledged(c.outgoing.list[i]) && i < c.outgoing.max
  }

  /** Only records that exist can have been acknowledged. */
  predicate AckedExist(c: Client)
  {
    forall i | 0 <= i < |c.trace| && c.trace[i].GotPubrec? :: c.trace[i].serial < c.outgoing.serial
  }

  /** No PUBLISH follows a PUBREC for the same record. */
  predicate NoRepublish(tr: seq<Event>)
  {
    forall i, j | 0 <= i < j < |tr| && tr[i].GotPubrec? && tr[j].SentPublish? :: tr[i].serial != tr[j].serial
  }

  /** Every acknowledged message sits below this maximum. This is what a caller, or a broker
      that announces a Receive Maximum, has to respect. */
  predicate AckedBelow(c: Client, max: nat)
  {
    forall i | 0 <= i < |c.outgoing.list| && GotPubrec(c.outgoing.list[i].serial) in c.trace :: i < max
  }

  predicate Safe(c: Client)
  {
    Typed(c) && Window(c) && AckedKept(c) && AckedExist(c) && NoRepublish(c.trace)
  }

  /**
   What is asked of the peer and of the configuration, step by step:
   acknowledgements that give quota back name a message in flight; a PUBREC that matches a record
   matches one in flight; a new maximum leaves room for the acknowledged messages and, when set
   on a live connection, for the window in use.
   */
  predicate Behaved(c: Client, s: Step)
  {
    match s
    case RecvAck(qos, mid, reason) =>
      c.active ==> AckAccepted(c, qos, mid, reason) && NamesInflight(c.outgoing, mid, qos)
    case RecvPubrec(mid, reason) =>
      PubrecAccepted(c, mid, reason) ==>
        if Refuses(c, reason) then NamesInflight(c.outgoing, mid, 2)
        else RemoveStatus(c.outgoing.list, mid, 2).Success? ==> NamesInflight(c.outgoing, mid, 2)
    case RecvConnack(_, newMax) => ConnackRefused(c.v5, newMax) || AckedBelow(c, WithMaximum(c, newMax).outgoing.max)
    case DoSendMaximum(value) =>
      && AckedBelow(c, SendMaximumStep(c, value).outgoing.max)
      && (c.connected ==> c.outgoing.max <= SendMaximumStep(c, value).outgoing.max)
    case _ => true
  }

  /** Appending events that publish no acknowledged record and acknowledge nothing keeps order. */
  lemma AppendKeepsOrder(tr: seq<Event>, es: seq<Event>)
    requires NoRepublish(tr)
    requires forall j | 0 <= j < |es| :: !es[j].GotPubrec?
    requires forall j | 0 <= j < |es| && es[j].SentPublish? :: GotPubrec(es[j].serial) !in tr
    ensures NoRepublish(tr + es)
  {
  }

  /** The PUBLISH packets of a release are for records that were waiting. */
  lemma {:induction false} ReleasePublishes(ms: seq<Message>, n: int, e: nat)
    requires e < |ReleaseEvents(ms, n)|
    ensures ReleaseEvents(ms, n)[e].SentPublish?
    ensures exists j | 0 <= j < |ms| :: Queued(ms[j]) && ms[j].serial == ReleaseEvents(ms, n)[e].serial
  {
    var k := |ms| - 1;
    if e < |ReleaseEvents(ms[..k], n)| {
      ReleasePublishes(ms[..k], n, e);
      var j :| 0 <= j < k && Queued(ms[..k][j]) && ms[..k][j].serial == ReleaseEvents(ms[..k], n)[e].serial;
      assert Queued(ms[j]);
    } else {
      assert Queued(ms[k]);
    }
  }

  lemma {:induction false} RetryPublishes(ms: seq<Message>, e: nat)
    requires e < |RetryEvents(ms)|
    ensures !RetryEvents(ms)[e].GotPubrec?
    ensures RetryEvents(ms)[e].SentPublish? ==>
      exists j | 0 <= j < |ms| :: (ms[j].state.PublishQos1? || ms[j].state.PublishQos2?)
                                  && ms[j].serial == RetryEvents(ms)[e].serial
  {
    var k := |ms| - 1;
    if e < |RetryEvents(ms[..k])| {
      RetryPublishes(ms[..k], e);
      if RetryEvents(ms)[e].SentPublish? {
        var j :| 0 <= j < k && (ms[..k][j].state.PublishQos1? || ms[..k][j].state.PublishQos2?)
                 && ms[..k][j].serial == RetryEvents(ms[..k])[e].serial;
        assert ms[j] == ms[..k][j];
      }
    } else if RetryEvents(ms)[e].SentPublish? {
      assert ms[k].state.PublishQos1? || ms[k].state.PublishQos2?;
    }
  }

  lemma ReleaseKeepsOrder(c: Client)
    requires AckedKept(c) && NoRepublish(c.trace)
    ensures NoRepublish(Release(c).trace)
  {
    var es := if c.connected then ReleaseEvents(c.outgoing.list, c.outgoing.quota) else [];
    forall j | 0 <= j < |es|
      ensures es[j].SentPublish? && GotPubrec(es[j].serial) !in c.trace
    {
      ReleasePublishes(c.outgoing.list, c.outgoing.quota, j);
    }
    AppendKeepsOrder(c.trace, es);
  }

  /** A release keeps everything. */
  lemma ReleaseSafe(c: Client)
    requires Safe(c)
    ensures Safe(Release(c))
  {
    ReleaseOk(c.outgoing, c.connected);
    if c.connected { ReleaseKeepsWindow(c.outgoing); }
    ReleaseKeepsOrder(c);
    ReleaseAddsNoAck(c);
  }

  lemma ReleaseAddsNoAck(c: Client)
    requires AckedKept(c) && AckedExist(c)
    ensures AckedKept(Release(c)) && AckedExist(Release(c))
  {
    var es := if c.connected then ReleaseEvents(c.outgoing.list, c.outgoing.quota) else [];
    forall j | 0 <= j < |es| ensures !es[j].GotPubrec? { ReleasePublishes(c.outgoing.list, c.outgoing.quota, j); }
    forall s: nat | GotPubrec(s) in Release(c).trace ensures GotPubrec(s) in c.trace {}
  }

  /** Events that publish nothing keep the order; if they acknowledge nothing either, they keep
      what is known about the acknowledged records. */
  lemma QuietEvents(c: Client, es: seq<Event>)
    requires forall j | 0 <= j < |es| :: !es[j].SentPublish?
    ensures NoRepublish(c.trace) ==> NoRepublish(c.trace + es)
    ensures (forall j | 0 <= j < |es| :: !es[j].GotPubrec?) ==>
      (AckedKept(c) ==> AckedKept(Log(c, es))) && (AckedExist(c) ==> AckedExist(Log(c, es)))
  {
    if forall j | 0 <= j < |es| :: !es[j].GotPubrec? {
      forall s: nat | GotPubrec(s) in c.trace + es ensures GotPubrec(s) in c.trace {}
    }
  }

  lemma EnqueuedSafe(c: Client, qos: nat)
    requires Safe(c) && (qos == 1 || qos == 2)
    ensures Safe(Enqueued(c, qos))
  {
    var list := Enqueued(c, qos).outgoing.list;
    assert list[..|list| - 1] == c.outgoing.list;
    assert GotPubrec(c.outgoing.serial) !in c.trace;
  }

  /** Taking out an acknowledged or refused message. */
  lemma FinishKeepsAcked(c: Client, mid: nat, qos: nat)
    requires AckedKept(c) && AckedExist(c) && NoRepublish(c.trace)
    ensures AckedKept(Finish(c, mid, qos)) && AckedExist(Finish(c, mid, qos)) && NoRepublish(Finish(c, mid, qos).trace)
  {
    var c1 := c.(outgoing := Removed(c.outgoing, mid, qos));
    if RemoveStatus(c.outgoing.list, mid, qos).Success? {
      var k := FirstMid(c.outgoing.list, mid);
      forall i | 0 <= i < |c1.outgoing.list| && GotPubrec(c1.outgoing.list[i].serial) in c1.trace
        ensures Acknowledged(c1.outgoing.list[i]) && i < c1.outgoing.max
      {
        var was := if i < k then i else i + 1;
        assert c1.outgoing.list[i] == c.outgoing.list[was];
      }
    }
    QuietEvents(c1, CompletionOf(c.outgoing, mid, qos));
  }

  lemma AckSafe(c: Client, qos: nat, mid: nat, reason: nat)
    requires Safe(c) && c.connected && Behaved(c, RecvAck(qos, mid, reason))
    ensures Safe(AckStep(c, qos, mid, reason))
  {
    if c.active {
      var c1 := Finish(Credit(c), mid, qos);
      RemovedOk(Incremented(c.outgoing), mid, qos);
      AckKeepsWindow(c.outgoing, mid, qos);
      FinishKeepsAcked(Credit(c), mid, qos);
      assert Safe(c1);
      ReleaseSafe(c1);
    }
  }

  lemma RefusedSafe(c: Client, mid: nat)
    requires Safe(c) && c.connected && NamesInflight(c.outgoing, mid, 2)
    ensures Safe(Release(Credit(Finish(c, mid, 2))))
  {
    var c1 := Credit(Finish(c, mid, 2));
    RemovedOk(c.outgoing, mid, 2);
    AckKeepsWindow(c.outgoing, mid, 2);
    FinishKeepsAcked(c, mid, 2);
    assert Safe(c1);
    ReleaseSafe(c1);
  }

  lemma ReceivedKeepsAcked(c: Client, mid: nat)
    requires Safe(c) && c.connected && NamesInflight(c.outgoing, mid, 2)
    ensures AckedKept(Received(c, mid)) && AckedExist(Received(c, mid))
  {
    var i := FirstMid(c.outgoing.list, mid);
    var c' := Received(c, mid);
    forall j | 0 <= j < |c'.outgoing.list| && GotPubrec(c'.outgoing.list[j].serial) in c'.trace
      ensures Acknowledged(c'.outgoing.list[j]) && j < c'.outgoing.max
    {
      if j != i { assert GotPubrec(c.outgoing.list[j].serial) in c.trace; }
    }
  }

  lemma ReceivedSafe(c: Client, mid: nat)
    requires Safe(c) && c.connected
    requires RemoveStatus(c.outgoing.list, mid, 2).Success? ==> NamesInflight(c.outgoing, mid, 2)
    ensures Safe(Received(c, mid))
  {
    var es := PubrecMatch(c.outgoing, mid) + [SentPubrel(mid)];
    QuietEvents(c, es);
    UpdatedOk(c.outgoing, mid);
    InflightSame(c.outgoing.list, Updated(c.outgoing, mid, WaitForPubcomp).list);
    if RemoveStatus(c.outgoing.list, mid, 2).Success? { ReceivedKeepsAcked(c, mid); }
  }

  /** The exact condition under which a reset keeps the acknowledged messages acknowledged: they
      sit below the maximum. One that does not falls back to the waiting state, and the next
      release publishes it again. */
  lemma ResetKeepsAckedIff(c: Client, quotaOnly: bool)
    requires Typed(c)
    requires forall i | 0 <= i < |c.outgoing.list| && GotPubrec(c.outgoing.list[i].serial) in c.trace ::
               Acknowledged(c.outgoing.list[i])
    ensures
      (forall i | 0 <= i < |c.outgoing.list| && GotPubrec(c.outgoing.list[i].serial) in c.trace ::
         Acknowledged(Reset(c, quotaOnly).outgoing.list[i]))
      <==> AckedBelow(c, c.outgoing.max)
  {
    var list, list' := c.outgoing.list, Reset(c, quotaOnly).outgoing.list;
    if AckedBelow(c, c.outgoing.max) {
      forall i | 0 <= i < |list| && GotPubrec(list[i].serial) in c.trace ensures Acknowledged(list'[i]) {
        assert Acknowledged(list[i]) && OutTyped(list[i]);
      }
    } else {
      var i :| 0 <= i < |list| && GotPubrec(list[i].serial) in c.trace && !(i < c.outgoing.max);
      assert list'[i].state.Invalid?;
    }
  }

  /** What a reset and the retransmission after it send for each message: nothing for one that has
      no place in the window or is a QoS 2 message that was never sent, PUBREL for one whose PUBREC
      has arrived, and PUBLISH with DUP for every other, also for a QoS 1 message that was never sent. */
  lemma ResetThenRetry(o: Side, i: nat)
    requires OutOk(o) && i < |o.list|
    ensures
      var m := o.list[i];
      RetryEvent(ResetOutSide(o, false).list[i]) ==
        if i >= o.max || (m.qos == 2 && m.state.Invalid?) then []
        else if Acknowledged(m) then [SentPubrel(m.mid)]
        else [SentPublish(m.serial, m.mid, true)]
  {
    assert OutTyped(o.list[i]);
  }

  lemma ResetSafe(c: Client, quotaOnly: bool)
    requires Typed(c) && AckedExist(c) && NoRepublish(c.trace) && AckedBelow(c, c.outgoing.max)
    requires forall i | 0 <= i < |c.outgoing.list| && GotPubrec(c.outgoing.list[i].serial) in c.trace ::
               Acknowledged(c.outgoing.list[i])
    ensures Safe(Reset(c, quotaOnly)) && WindowSide(Reset(c, quotaOnly).outgoing)
  {
    ResetOk(c, quotaOnly);
    ResetKeepsAckedIff(c, quotaOnly);
    ResetGivesWindow(c.outgoing, quotaOnly);
  }

  lemma RetrySafe(c: Client)
    requires Safe(c)
    ensures Safe(RetryCheck(c))
  {
    var list, es := c.outgoing.list, RetryEvents(c.outgoing.list);
    forall j | 0 <= j < |es|
      ensures !es[j].GotPubrec?
      ensures es[j].SentPublish? ==> GotPubrec(es[j].serial) !in c.trace
    {
      RetryPublishes(list, j);
    }
    AppendKeepsOrder(c.trace, es);
    RetryOk(c.outgoing);
    InflightSame(list, RetryList(list));
    RetryKeepsAcked(c);
  }

  lemma RetryKeepsAcked(c: Client)
    requires AckedKept(c) && AckedExist(c)
    ensures AckedKept(RetryCheck(c)) && AckedExist(RetryCheck(c))
  {
    var es := RetryEvents(c.outgoing.list);
    forall j | 0 <= j < |es| ensures !es[j].GotPubrec? { RetryPublishes(c.outgoing.list, j); }
    forall s: nat | GotPubrec(s) in c.trace + es ensures GotPubrec(s) in c.trace {}
  }

  lemma ConnackSafe(c: Client, reason: nat, newMax: int)
    requires Safe(c) && Behaved(c, RecvConnack(reason, newMax))
    ensures Safe(ConnackStep(c, reason, newMax))
  {
    if !ConnackRefused(c.v5, newMax) {
      var c1 := WithMaximum(c, newMax);
      assert AckedBelow(c1, c1.outgoing.max);
      ResetSafe(c1, true);
      if reason == 0 { RetrySafe(Reset(c1, true).(active := true)); }
    }
  }

  /** The incoming side does not touch the outgoing one. */
  lemma IncomingSideSafe(c: Client, c': Client, es: seq<Event>)
    requires Safe(c) && InOk(c'.incoming)
    requires c'.outgoing == c.outgoing && c'.connected == c.connected && c'.trace == c.trace + es
    requires forall j | 0 <= j < |es| :: !es[j].SentPublish? && !es[j].GotPubrec?
    ensures Safe(c')
  {
    QuietEvents(c, es);
  }

  lemma PubrelSafe(c: Client, mid: nat, reason: nat, sendOk: bool)
    requires Safe(c)
    ensures Safe(PubrelStep(c, mid, reason, sendOk))
  {
    if PubrelAccepted(c, mid, reason) {
      PubrelOk(c, mid, reason, sendOk);
      IncomingSideSafe(c, PubrelStep(c, mid, reason, sendOk),
                       (if sendOk then [SentPubcomp(mid)] else []) + DeliveryOf(c.incoming, mid, sendOk));
    }
  }

  lemma IncomingSafe(c: Client, qos: nat, mid: nat, dup: bool)
    requires Safe(c)
    ensures Safe(IncomingStep(c, qos, mid, dup))
  {
    IncomingOk(c, qos, mid, dup);
    var c' := IncomingStep(c, qos, mid, dup);
    if !IncomingRefused(c, qos, mid) {
      if qos == 0 { IncomingSideSafe(c, c', [DeliveredNow(0)]); }
      else if qos == 1 { IncomingSideSafe(c, c', [SentPuback(mid), DeliveredNow(1)]); }
      else { IncomingSideSafe(c, c', [SentPubrec(mid)]); }
    }
  }

  lemma PubrecSafe(c: Client, mid: nat, reason: nat)
    requires Safe(c) && c.connected && Behaved(c, RecvPubrec(mid, reason))
    ensures Safe(PubrecStep(c, mid, reason))
  {
    if PubrecAccepted(c, mid, reason) {
      if Refuses(c, reason) {
        RefusedSafe(c, mid);
      } else if !RemoveStatus(c.outgoing.list, mid, 2).ErrProtocol? {
        ReceivedSafe(c, mid);
      }
    }
  }

  lemma SafeStep(c: Client, s: Step)
    requires Safe(c) && Possible(c, s) && Behaved(c, s)
    ensures Safe(Next(c, s))
  {
    match s
    case DoPublish(qos) =>
      EnqueuedSafe(c, qos);
      ReleaseSafe(Enqueued(c, qos));
    case DoReconnect(ok) => ResetSafe(c, false);
    case DoSendMaximum(value) =>
    case SocketLost =>
    case RecvAck(qos, mid, reason) => AckSafe(c, qos, mid, reason);
    case RecvPubrec(mid, reason) => PubrecSafe(c, mid, reason);
    case RecvPubrel(mid, reason, sendOk) => PubrelSafe(c, mid, reason, sendOk);
    case RecvPublish(qos, mid, dup) => IncomingSafe(c, qos, mid, dup);
    case RecvConnack(reason, newMax) => ConnackSafe(c, reason, newMax);
  }

  ghost predicate BehavedRun(c: Client, steps: seq<Step>)
  {
    steps != [] ==>
      && BehavedRun(c, steps[..|steps| - 1])
      && Behaved(Run(c, steps[..|steps| - 1]), steps[|steps| - 1])
  }

  lemma {:induction false} SafeAlways(v5: bool, steps: seq<Step>)
    requires PossibleRun(NewClient(v5), steps) && BehavedRun(NewClient(v5), steps)
    ensures Safe(Run(NewClient(v5), steps))
  {
    if steps != [] {
      var before := steps[..|steps| - 1];
      SafeAlways(v5, before);
      SafeStep(Run(NewClient(v5), before), steps[|steps| - 1]);
    }
  }

  /** The QoS 2 sender rule over whole runs. */
  lemma NoPublishAfterPubrec(v5: bool, steps: seq<Step>, i: nat, j: nat)
    requires PossibleRun(NewClient(v5), steps) && BehavedRun(NewClient(v5), steps)
    requires
      var tr := Run(NewClient(v5), steps).trace;
      i < j < |tr| && tr[i].GotPubrec? && tr[j].SentPublish?
    ensures var tr := Run(NewClient(v5), steps).trace; tr[i].serial != tr[j].serial
  {
    SafeAlways(v5, steps);
  }

  /** The send window over whole runs: while connected, the messages in flight and the remaining
      quota together never exceed the maximum. */
  lemma SendWindowAlways(v5: bool, steps: seq<Step>)
    requires PossibleRun(NewClient(v5), steps) && BehavedRun(NewClient(v5), steps)
    ensures
      var c := Run(NewClient(v5), steps);
      c.connected ==> Inflight(c.outgoing.list) + c.outgoing.quota <= c.outgoing.max
  {
    SafeAlways(v5, steps);
  }
}
