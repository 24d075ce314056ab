/**
 What the client owes the network and the application for each packet it accepts, counted in the
 trace: the replies of sections 4.3.1 to 4.3.3 of MQTT 5.0, one each, over every step and every run;
 that nothing else causes them; and what a reconnection sends again.
 */
module SessionReplies {
  import opened SessionState
  import opened SessionTheorems
  import opened SessionProgress

  // ----- counting

  lemma LogTimes(c: Client, es: seq<Event>, e: Event)
    ensures Times(Log(c, es), e) == Times(c, e) + multiset(es)[e]
  {
    assert multiset(c.trace + es) == multiset(c.trace) + multiset(es);
  }

  lemma {:induction false} ReleaseSendsPublishes(ms: seq<Message>, n: int, e: Event)
    requires !e.SentPublish?
    ensures e !in ReleaseEvents(ms, n)
  {
    if ms != [] { ReleaseSendsPublishes(ms[..|ms| - 1], n, e); }
  }

  lemma ReleaseTimes(c: Client, e: Event)
    requires !e.SentPublish?
    ensures Times(Release(c), e) == Times(c, e)
  {
    ReleaseSendsPublishes(c.outgoing.list, c.outgoing.quota, e);
    LogTimes(c, if c.connected then ReleaseEvents(c.outgoing.list, c.outgoing.quota) else [], e);
  }

  /** The first record under this identifier has this QoS, and this is its number. */
  predicate FirstIs(ms: seq<Message>, mid: nat, qos: nat, serial: nat)
  {
    var k := FirstMid(ms, mid);
    k < |ms| && ms[k].qos == qos && ms[k].serial == serial
  }

  lemma FinishTimes(c: Client, mid: nat, qos: nat, e: Event)
    ensures Times(Finish(c, mid, qos), e)
         == Times(c, e) + if e.Completed? && FirstIs(c.outgoing.list, mid, qos, e.serial) then 1 else 0
  {
    LogTimes(c, CompletionOf(c.outgoing, mid, qos), e);
  }

  // ----- what is sent again

  /** The record is to be sent again with this packet: a PUBLISH that is not acknowledged, with the
      DUP flag, or the PUBREL of a message whose PUBREC has arrived. */
  predicate SentAgain(m: Message, e: Event)
  {
    match e
    case SentPublish(serial, mid, dup) =>
      dup && m.serial == serial && m.mid == mid && (m.state.PublishQos1? || m.state.PublishQos2?)
    case SentPubrel(mid) => m.mid == mid && (m.state.ResendPubrel? || m.state.WaitForPubcomp?)
    case _ => false
  }

  function CountAgain(ms: seq<Message>, e: Event): nat
  {
    if ms == [] then 0 else CountAgain(ms[..|ms| - 1], e) + (if SentAgain(ms[|ms| - 1], e) then 1 else 0)
  }

  lemma RetryCount(m: Message, e: Event)
    requires OutTyped(m)
    ensures multiset(RetryEvent(m))[e] == if SentAgain(m, e) then 1 else 0
  {
  }

  lemma {:induction false} RetryCounts(ms: seq<Message>, e: Event)
    requires AllOut(ms)
    ensures multiset(RetryEvents(ms))[e] == CountAgain(ms, e)
  {
    if ms != [] {
      var k := |ms| - 1;
      RetryCounts(ms[..k], e);
      assert OutTyped(ms[k]);
      RetryCount(ms[k], e);
      assert multiset(RetryEvents(ms)) == multiset(RetryEvents(ms[..k])) + multiset(RetryEvent(ms[k]));
    }
  }

  /** The records that keep their place in the send window. */
  function Kept(ms: seq<Message>, max: nat): seq<Message> { if |ms| <= max then ms else ms[..max] }

  lemma {:induction false} ResetCounts(ms: seq<Message>, max: nat, e: Event)
    ensures CountAgain(ResetOut(ms, max, true), e) == CountAgain(Kept(ms, max), e)
  {
    if ms != [] {
      var k := |ms| - 1;
      ResetCounts(ms[..k], max, e);
      assert ResetOut(ms, max, true)[..k] == ResetOut(ms[..k], max, true);
      if |ms| > max { assert Kept(ms, max) == Kept(ms[..k], max); }
    }
  }

  /** The send maximum once the CONNACK has been read. */
  function NewMaximum(c: Client, newMax: int): nat
  {
    if c.v5 && newMax >= 0 then newMax else c.outgoing.max
  }

  predicate Resumes(c: Client, s: Step) { s.RecvConnack? && s.reason == 0 && !(c.v5 && s.newMax == 0) }

  lemma ConnackTimes(c: Client, reason: nat, newMax: int, e: Event)
    requires Typed(c)
    ensures Times(ConnackStep(c, reason, newMax), e)
         == Times(c, e)
            + if Resumes(c, RecvConnack(reason, newMax)) then CountAgain(Kept(c.outgoing.list, NewMaximum(c, newMax)), e) else 0
  {
    if Resumes(c, RecvConnack(reason, newMax)) {
      var again := ResetOut(c.outgoing.list, NewMaximum(c, newMax), true);
      assert ConnackStep(c, reason, newMax).trace == c.trace + RetryEvents(again);
      ResetStaysOut(c.outgoing.list, NewMaximum(c, newMax));
      RetryCounts(again, e);
      ResetCounts(c.outgoing.list, NewMaximum(c, newMax), e);
      LogTimes(c, RetryEvents(again), e);
    }
  }

  lemma ResetStaysOut(ms: seq<Message>, max: nat)
    requires AllOut(ms)
    ensures AllOut(ResetOut(ms, max, true))
  {
    var r := ResetOut(ms, max, true);
    forall i | 0 <= i < |r| ensures OutTyped(r[i]) { assert OutTyped(ms[i]); }
  }

  // ----- what is owed

  /** An incoming PUBLISH that is taken: the connection is up, the QoS is one of three, and for QoS 1
      and 2 there is an identifier and, in MQTT 5.0, receive quota. */
  predicate Taken(c: Client, qos: nat, mid: nat)
  {
    c.active && (qos == 0 || (1 <= qos <= 2 && mid != 0 && (c.v5 ==> c.incoming.quota != 0)))
  }

  /** No outgoing record, or a QoS 2 one, comes first under this identifier. */
  predicate NotQos1(ms: seq<Message>, mid: nat)
  {
    FirstMid(ms, mid) == |ms| || ms[FirstMid(ms, mid)].qos == 2
  }

  /** A PUBREC that is answered with a PUBREL; the identifier may be unknown. */
  predicate Answered(c: Client, mid: nat, reason: nat)
  {
    c.active && mid != 0 && (c.v5 ==> PubrecReason(reason) && reason < 0x80) && NotQos1(c.outgoing.list, mid)
  }

  /** A PUBREC that refuses the message, which is then complete; MQTT 5.0 only. */
  predicate RefusedBy(c: Client, mid: nat, reason: nat)
  {
    c.active && mid != 0 && c.v5 && PubrecReason(reason) && reason >= 0x80
  }

  /** QoS 0 is delivered, QoS 1 acknowledged and delivered, QoS 2 answered with PUBREC. */
  predicate OwedForPublish(c: Client, qos: nat, mid: nat, e: Event)
  {
    Taken(c, qos, mid) &&
    (|| (qos == 0 && e == DeliveredNow(0))
     || (qos == 1 && (e == SentPuback(mid) || e == DeliveredNow(1)))
     || (qos == 2 && e == SentPubrec(mid)))
  }

  /** A PUBREL is answered with PUBCOMP and releases the first record under its identifier, to the
      application or, if the PUBCOMP cannot be sent, to nobody. */
  predicate OwedForPubrel(c: Client, mid: nat, reason: nat, sendOk: bool, e: Event)
  {
    c.active && mid != 0 && (c.v5 ==> ReleaseReason(reason)) &&
    (|| (sendOk && e == SentPubcomp(mid))
     || ((if sendOk then e.Delivered? else e.Dropped?) && FirstIs(c.incoming.list, mid, 2, e.serial)))
  }

  /** A PUBREC is answered with PUBREL and matched with its record, or completes the record. */
  predicate OwedForPubrec(c: Client, mid: nat, reason: nat, e: Event)
  {
    || (Answered(c, mid, reason) && (e == SentPubrel(mid) || (e.GotPubrec? && FirstIs(c.outgoing.list, mid, 2, e.serial))))
    || (RefusedBy(c, mid, reason) && e.Completed? && FirstIs(c.outgoing.list, mid, 2, e.serial))
  }

  /** A PUBACK or PUBCOMP completes its record. */
  predicate OwedForAck(c: Client, qos: nat, mid: nat, reason: nat, e: Event)
  {
    AckAccepted(c, qos, mid, reason) && e.Completed? && FirstIs(c.outgoing.list, mid, qos, e.serial)
  }

  /** What one step owes: each kind of packet its reply, the application the messages that arrive and
      the completion of its own. */
  predicate Owed(c: Client, s: Step, e: Event)
  {
    match s
    case RecvPublish(qos, mid, _) => OwedForPublish(c, qos, mid, e)
    case RecvPubrel(mid, reason, sendOk) => OwedForPubrel(c, mid, reason, sendOk, e)
    case RecvPubrec(mid, reason) => OwedForPubrec(c, mid, reason, e)
    case RecvAck(qos, mid, reason) => OwedForAck(c, qos, mid, reason, e)
    case _ => false
  }

  /** How often one step adds a reply: once when it owes it, and a PUBREL once more for each record
      that a reconnection resumes. */
  function Added(c: Client, s: Step, e: Event): nat
  {
    (if Owed(c, s, e) then 1 else 0)
    + if Resumes(c, s) then CountAgain(Kept(c.outgoing.list, NewMaximum(c, s.newMax)), e) else 0
  }

  lemma ReceivedTimes(c: Client, mid: nat, e: Event)
    requires !e.SentPublish?
    ensures Times(Received(c, mid), e) == Times(c, e)
            + if e == SentPubrel(mid) || (e.GotPubrec? && FirstIs(c.outgoing.list, mid, 2, e.serial)) then 1 else 0
  {
    LogTimes(c, PubrecMatch(c.outgoing, mid) + [SentPubrel(mid)], e);
  }

  lemma PubrecTimes(c: Client, mid: nat, reason: nat, e: Event)
    requires Typed(c) && !e.SentPublish?
    ensures Times(PubrecStep(c, mid, reason), e) == Times(c, e) + if OwedForPubrec(c, mid, reason, e) then 1 else 0
  {
    if PubrecAccepted(c, mid, reason) {
      if Refuses(c, reason) {
        RefusalTimes(c, mid, e);
        assert PubrecStep(c, mid, reason) == Release(Credit(Finish(c, mid, 2)));
      } else if !RemoveStatus(c.outgoing.list, mid, 2).ErrProtocol? {
        ReceivedTimes(c, mid, e);
        assert PubrecStep(c, mid, reason) == Received(c, mid);
      }
    }
  }

  lemma RefusalTimes(c: Client, mid: nat, e: Event)
    requires !e.SentPublish?
    ensures Times(Release(Credit(Finish(c, mid, 2))), e)
         == Times(c, e) + if e.Completed? && FirstIs(c.outgoing.list, mid, 2, e.serial) then 1 else 0
  {
    FinishTimes(c, mid, 2, e);
    ReleaseTimes(Credit(Finish(c, mid, 2)), e);
  }

  lemma AckTimes(c: Client, qos: nat, mid: nat, reason: nat, e: Event)
    requires !e.SentPublish?
    ensures Times(AckStep(c, qos, mid, reason), e) == Times(c, e) + if OwedForAck(c, qos, mid, reason, e) then 1 else 0
  {
    if AckAccepted(c, qos, mid, reason) {
      if RemoveStatus(c.outgoing.list, mid, qos).ErrProtocol? {
        assert AckStep(c, qos, mid, reason) == Credit(c);
      } else {
        AckedTimes(c, qos, mid, e);
        assert AckStep(c, qos, mid, reason) == Release(Finish(Credit(c), mid, qos));
      }
    }
  }

  lemma AckedTimes(c: Client, qos: nat, mid: nat, e: Event)
    requires !e.SentPublish?
    ensures Times(Release(Finish(Credit(c), mid, qos)), e)
         == Times(c, e) + if e.Completed? && FirstIs(c.outgoing.list, mid, qos, e.serial) then 1 else 0
  {
    assert Credit(c).outgoing.list == c.outgoing.list && Credit(c).trace == c.trace;
    FinishTimes(Credit(c), mid, qos, e);
    ReleaseTimes(Finish(Credit(c), mid, qos), e);
  }

  lemma DeliveryCounts(d: Side, mid: nat, sendOk: bool, e: Event)
    ensures multiset(DeliveryOf(d, mid, sendOk))[e]
         == if (if sendOk then e.Delivered? else e.Dropped?) && FirstIs(d.list, mid, 2, e.serial) then 1 else 0
  {
  }

  lemma PubrelTimes(c: Client, mid: nat, reason: nat, sendOk: bool, e: Event)
    ensures Times(PubrelStep(c, mid, reason, sendOk), e)
         == Times(c, e) + if OwedForPubrel(c, mid, reason, sendOk, e) then 1 else 0
  {
    if PubrelAccepted(c, mid, reason) {
      var first, second := if sendOk then [SentPubcomp(mid)] else [], DeliveryOf(c.incoming, mid, sendOk);
      DeliveryCounts(c.incoming, mid, sendOk, e);
      TwoLogs(c, first, second, e);
      assert PubrelStep(c, mid, reason, sendOk).trace == c.trace + (first + second);
    }
  }

  lemma TwoLogs(c: Client, first: seq<Event>, second: seq<Event>, e: Event)
    ensures Times(Log(c, first + second), e) == Times(c, e) + multiset(first)[e] + multiset(second)[e]
  {
    LogTimes(c, first + second, e);
    assert multiset(first + second) == multiset(first) + multiset(second);
  }

  lemma IncomingTimes(c: Client, qos: nat, mid: nat, dup: bool, e: Event)
    ensures Times(IncomingStep(c, qos, mid, dup), e)
         == Times(c, e) + if OwedForPublish(c, qos, mid, e) then 1 else 0
  {
    assert IncomingRefused(c, qos, mid) <==> !Taken(c, qos, mid);
    if Taken(c, qos, mid) {
      TakenTimes(c, qos, mid, dup, e);
      assert multiset(Receipt(qos, mid))[e] == if OwedForPublish(c, qos, mid, e) then 1 else 0;
    }
  }

  /** The answer to a PUBLISH that is taken. */
  function Receipt(qos: nat, mid: nat): seq<Event>
  {
    if qos == 0 then [DeliveredNow(0)] else if qos == 1 then [SentPuback(mid), DeliveredNow(1)] else [SentPubrec(mid)]
  }

  lemma TakenTimes(c: Client, qos: nat, mid: nat, dup: bool, e: Event)
    requires Taken(c, qos, mid)
    ensures Times(IncomingStep(c, qos, mid, dup), e) == Times(c, e) + multiset(Receipt(qos, mid))[e]
  {
    LogTimes(c, Receipt(qos, mid), e);
    assert IncomingStep(c, qos, mid, dup).trace == c.trace + Receipt(qos, mid);
  }

  /** Every step adds exactly the replies it owes. */
  lemma ReplyLaw(c: Client, s: Step, e: Event)
    requires Typed(c) && Possible(c, s) && !e.SentPublish?
    ensures Times(Next(c, s), e) == Times(c, e) + Added(c, s, e)
  {
    match s
    case DoPublish(qos) => ReleaseTimes(Enqueued(c, qos), e);
    case RecvAck(qos, mid, reason) => AckTimes(c, qos, mid, reason, e);
    case RecvPubrec(mid, reason) => PubrecTimes(c, mid, reason, e);
    case RecvPubrel(mid, reason, sendOk) => PubrelTimes(c, mid, reason, sendOk, e);
    case RecvPublish(qos, mid, dup) => IncomingTimes(c, qos, mid, dup, e);
    case RecvConnack(reason, newMax) => ConnackTimes(c, reason, newMax, e);
    case _ =>
  }

  /** The replies owed over a run. */
  function TotalAdded(c: Client, steps: seq<Step>, e: Event): nat
  {
    if steps == [] then 0
    else
      var front := steps[..|steps| - 1];
      TotalAdded(c, front, e) + Added(Run(c, front), steps[|steps| - 1], e)
  }

  /** Over every run the trace holds each reply as often as it was owed. */
  lemma {:induction false} RepliesOverRuns(v5: bool, steps: seq<Step>, e: Event)
    requires PossibleRun(NewClient(v5), steps) && !e.SentPublish?
    ensures Times(Run(NewClient(v5), steps), e) == TotalAdded(NewClient(v5), steps, e)
  {
    if steps != [] {
      var front := steps[..|steps| - 1];
      RepliesOverRuns(v5, front, e);
      TypedAlways(v5, front);
      ReplyLaw(Run(NewClient(v5), front), steps[|steps| - 1], e);
    }
  }

  // ----- the record a PUBREC belongs to

  /** A PUBREC that is answered marks the first record under its identifier, if there is one: it
      waits for PUBCOMP from then on, and nothing else changes in the list. */
  lemma PubrecRecorded(c: Client, mid: nat, reason: nat)
    requires Answered(c, mid, reason)
    ensures
      var o, r, k := c.outgoing, PubrecStep(c, mid, reason).outgoing, FirstMid(c.outgoing.list, mid);
      && |r.list| == |o.list| && r.quota == o.quota
      && forall i | 0 <= i < |o.list| :: r.list[i] == if i == k then o.list[i].(state := WaitForPubcomp) else o.list[i]
  {
  }

  // ----- what a release sends

  /** The record was waiting for its first transmission, is on its way now, and this is its PUBLISH. */
  predicate Starts(m: Message, r: Message, e: Event)
  {
    m.state.Invalid? && (r.state.WaitForPuback? || r.state.WaitForPubrec?) && e == SentPublish(m.serial, m.mid, m.dup)
  }

  function CountStarted(ms: seq<Message>, rs: seq<Message>, e: Event): nat
    requires |ms| == |rs|
  {
    if ms == [] then 0
    else
      var k := |ms| - 1;
      CountStarted(ms[..k], rs[..k], e) + if Starts(ms[k], rs[k], e) then 1 else 0
  }

  lemma {:induction false} ReleaseCounts(ms: seq<Message>, n: int, e: Event)
    requires AllOut(ms)
    ensures multiset(ReleaseEvents(ms, n))[e] == CountStarted(ms, Released(ms, n), e)
  {
    if ms != [] {
      var k := |ms| - 1;
      ReleaseCounts(ms[..k], n, e);
      assert Released(ms, n)[..k] == Released(ms[..k], n);
      assert OutTyped(ms[k]);
      var starts := Queued(ms[k]) && QueuedCount(ms[..k]) < n;
      OneCounts(ms[k], starts, e);
      assert Released(ms, n)[k] == if starts then Started(ms[k]) else ms[k];
      assert ReleaseEvents(ms, n) == ReleaseEvents(ms[..k], n) + PublishIf(ms[k], starts);
      assert multiset(ReleaseEvents(ms, n)) == multiset(ReleaseEvents(ms[..k], n)) + multiset(PublishIf(ms[k], starts));
    }
  }

  function PublishIf(m: Message, starts: bool): seq<Event>
  {
    if starts then [SentPublish(m.serial, m.mid, m.dup)] else []
  }

  lemma OneCounts(m: Message, starts: bool, e: Event)
    requires OutTyped(m) && (starts ==> Queued(m))
    ensures multiset(PublishIf(m, starts))[e] == if Starts(m, if starts then Started(m) else m, e) then 1 else 0
  {
  }

  /** With a connection a release sends one PUBLISH for each record it starts, and nothing else. */
  lemma ReleaseSendsStarted(c: Client, e: Event)
    requires Typed(c) && c.connected
    ensures |Release(c).outgoing.list| == |c.outgoing.list|
    ensures Times(Release(c), e) == Times(c, e) + CountStarted(c.outgoing.list, Release(c).outgoing.list, e)
  {
    ReleaseCounts(c.outgoing.list, c.outgoing.quota, e);
    LogTimes(c, ReleaseEvents(c.outgoing.list, c.outgoing.quota), e);
  }

  predicate SomeStarts(ms: seq<Message>, rs: seq<Message>, e: Event)
    requires |ms| == |rs|
  {
    exists j | 0 <= j < |ms| :: Starts(ms[j], rs[j], e)
  }

  lemma {:induction false} StartedOnce(ms: seq<Message>, rs: seq<Message>, bound: nat, e: Event)
    requires |ms| == |rs| && DistinctSerials(ms, bound)
    ensures CountStarted(ms, rs, e) == if SomeStarts(ms, rs, e) then 1 else 0
  {
    if ms != [] {
      var k := |ms| - 1;
      StartedOnce(ms[..k], rs[..k], bound, e);
      if Starts(ms[k], rs[k], e) {
        assert forall j | 0 <= j < k :: !Starts(ms[..k][j], rs[..k][j], e);
      } else {
        assert SomeStarts(ms, rs, e) <==> SomeStarts(ms[..k], rs[..k], e) by {
          assert forall j | 0 <= j < k :: ms[..k][j] == ms[j] && rs[..k][j] == rs[j];
        }
      }
    }
  }

  /** A record with this number is in flight. */
  predicate UnderWay(ms: seq<Message>, serial: nat)
  {
    exists i | 0 <= i < |ms| :: ms[i].serial == serial && !ms[i].state.Invalid?
  }

  /** A record waits for its acknowledgement that was not under way before, and this is its PUBLISH. */
  predicate Begins(before: seq<Message>, after: seq<Message>, e: Event)
  {
    e.SentPublish? && !UnderWay(before, e.serial) &&
    exists j | 0 <= j < |after| ::
      && (after[j].state.WaitForPuback? || after[j].state.WaitForPubrec?)
      && e == SentPublish(after[j].serial, after[j].mid, after[j].dup)
  }

  /** The records between the removal or addition of one and the release that follows. */
  predicate Between(before: seq<Message>, ms: seq<Message>)
  {
    forall j | 0 <= j < |ms| ::
      ms[j] in before || (ms[j].state.Invalid? && forall i | 0 <= i < |before| :: before[i].serial != ms[j].serial)
  }

  lemma BetweenUnderWay(before: seq<Message>, ms: seq<Message>, j: nat, bound: nat)
    requires DistinctSerials(before, bound) && Between(before, ms) && j < |ms|
    ensures UnderWay(before, ms[j].serial) <==> !ms[j].state.Invalid?
  {
    if ms[j] in before {
      var i :| 0 <= i < |before| && before[i] == ms[j];
    }
  }

  lemma BeginsIff(before: seq<Message>, ms: seq<Message>, n: int, bound: nat, e: Event)
    requires DistinctSerials(before, bound) && Between(before, ms) && AllOut(ms)
    ensures SomeStarts(ms, Released(ms, n), e) <==> Begins(before, Released(ms, n), e)
  {
    var rs := Released(ms, n);
    forall j | 0 <= j < |ms|
      ensures UnderWay(before, ms[j].serial) <==> !ms[j].state.Invalid?
      ensures rs[j].serial == ms[j].serial && rs[j].mid == ms[j].mid && rs[j].dup == ms[j].dup
    {
      BetweenUnderWay(before, ms, j, bound);
    }
  }

  /** What the release after a change sends, against the list before the change. */
  lemma ReleaseBegins(before: seq<Message>, bound: nat, d: Client, e: Event)
    requires DistinctSerials(before, bound) && Between(before, d.outgoing.list) && Typed(d) && d.connected
    ensures Times(Release(d), e) == Times(d, e) + if Begins(before, Release(d).outgoing.list, e) then 1 else 0
  {
    ReleaseSendsStarted(d, e);
    StartedOnce(d.outgoing.list, Release(d).outgoing.list, d.outgoing.serial, e);
    BeginsIff(before, d.outgoing.list, ReleaseLimit(d.outgoing, d.connected), bound, e);
  }

  /** No record comes under way that was not. */
  lemma NothingBegins(before: seq<Message>, after: seq<Message>, e: Event)
    requires |before| == |after|
    requires forall j | 0 <= j < |after| :: after[j].serial == before[j].serial
    requires forall j | 0 <= j < |after| && (after[j].state.WaitForPuback? || after[j].state.WaitForPubrec?) ::
               !before[j].state.Invalid?
    ensures !Begins(before, after, e)
  {
  }

  lemma PublishBegins(c: Client, qos: nat, e: Event)
    requires Typed(c) && (qos == 1 || qos == 2) && e.SentPublish?
    ensures Times(Publish(c, qos), e)
         == Times(c, e) + if c.connected && Begins(c.outgoing.list, Publish(c, qos).outgoing.list, e) then 1 else 0
  {
    var d := Enqueued(c, qos);
    assert d.outgoing.list == c.outgoing.list + [NewMessage(c, qos)];
    assert OutOk(d.outgoing);
    if c.connected {
      ReleaseBegins(c.outgoing.list, c.outgoing.serial, d, e);
    } else {
      assert Release(d).trace == c.trace;
    }
  }

  lemma WithoutBetween(ms: seq<Message>, k: nat)
    requires k < |ms|
    ensures Between(ms, Without(ms, k))
  {
    var r := Without(ms, k);
    forall j | 0 <= j < |r| ensures r[j] in ms { assert r[j] == ms[if j < k then j else j + 1]; }
  }

  /** A message leaves, quota comes back, and a release follows. */
  lemma FinishedBegins(c: Client, d: Client, mid: nat, qos: nat, e: Event)
    requires Typed(c) && c.connected && e.SentPublish? && Typed(d) && d.connected
    requires d.outgoing.list == Removed(c.outgoing, mid, qos).list && Times(d, e) == Times(c, e)
    ensures Times(Release(d), e) == Times(c, e) + if Begins(c.outgoing.list, Release(d).outgoing.list, e) then 1 else 0
  {
    if RemoveStatus(c.outgoing.list, mid, qos).Success? { WithoutBetween(c.outgoing.list, FirstMid(c.outgoing.list, mid)); }
    ReleaseBegins(c.outgoing.list, c.outgoing.serial, d, e);
  }

  lemma AckBegins(c: Client, qos: nat, mid: nat, reason: nat, e: Event)
    requires Typed(c) && c.connected && e.SentPublish?
    ensures Times(AckStep(c, qos, mid, reason), e)
         == Times(c, e) + if Begins(c.outgoing.list, AckStep(c, qos, mid, reason).outgoing.list, e) then 1 else 0
  {
    if AckAccepted(c, qos, mid, reason) && !RemoveStatus(c.outgoing.list, mid, qos).ErrProtocol? {
      var d := Finish(Credit(c), mid, qos);
      FinishTimes(Credit(c), mid, qos, e);
      RemovedOk(Credit(c).outgoing, mid, qos);
      FinishedBegins(c, d, mid, qos, e);
    } else {
      NothingBegins(c.outgoing.list, AckStep(c, qos, mid, reason).outgoing.list, e);
    }
  }

  lemma PubrecBegins(c: Client, mid: nat, reason: nat, e: Event)
    requires Typed(c) && c.connected && e.SentPublish?
    ensures Times(PubrecStep(c, mid, reason), e)
         == Times(c, e) + if Begins(c.outgoing.list, PubrecStep(c, mid, reason).outgoing.list, e) then 1 else 0
  {
    if PubrecAccepted(c, mid, reason) && Refuses(c, reason) {
      var d := Credit(Finish(c, mid, 2));
      FinishTimes(c, mid, 2, e);
      RemovedOk(c.outgoing, mid, 2);
      FinishedBegins(c, d, mid, 2, e);
    } else {
      NothingBegins(c.outgoing.list, PubrecStep(c, mid, reason).outgoing.list, e);
      if PubrecAccepted(c, mid, reason) && !RemoveStatus(c.outgoing.list, mid, 2).ErrProtocol? {
        LogTimes(c, PubrecMatch(c.outgoing, mid) + [SentPubrel(mid)], e);
      }
    }
  }

  /** What a reset, with or without the retransmission, leaves of each record. */
  lemma ResetStarts(ms: seq<Message>, max: nat, quotaOnly: bool, e: Event)
    ensures !Begins(ms, ResetOut(ms, max, quotaOnly), e)
    ensures !Begins(ms, RetryList(ResetOut(ms, max, quotaOnly)), e)
  {
    var r := ResetOut(ms, max, quotaOnly);
    NothingBegins(ms, r, e);
    NothingBegins(ms, RetryList(r), e);
  }

  lemma ResetBegins(c: Client, s: Step, e: Event)
    requires s.RecvConnack? || s.DoReconnect?
    ensures !Begins(c.outgoing.list, Next(c, s).outgoing.list, e)
  {
    var ms := c.outgoing.list;
    NothingBegins(ms, ms, e);
    if s.DoReconnect? {
      ResetStarts(ms, c.outgoing.max, false, e);
    } else if !ConnackRefused(c.v5, s.newMax) {
      ResetStarts(ms, NewMaximum(c, s.newMax), true, e);
    }
  }

  lemma IncomingBegins(c: Client, s: Step, e: Event)
    requires (s.RecvPublish? || s.RecvPubrel?) && e.SentPublish?
    ensures Times(Next(c, s), e) == Times(c, e) && !Begins(c.outgoing.list, Next(c, s).outgoing.list, e)
  {
    IncomingIsQuiet(c, s, e);
    IncomingOnly(c, s);
    NothingBegins(c.outgoing.list, c.outgoing.list, e);
  }

  lemma IncomingIsQuiet(c: Client, s: Step, e: Event)
    requires (s.RecvPublish? || s.RecvPubrel?) && e.SentPublish?
    ensures Times(Next(c, s), e) == Times(c, e)
  {
    NoPublishOwed(c, s, e);
    match s
    case RecvPublish(qos, mid, dup) =>
      IncomingTimes(c, qos, mid, dup, e);
      assert Next(c, s) == IncomingStep(c, qos, mid, dup);
    case RecvPubrel(mid, reason, sendOk) =>
      PubrelTimes(c, mid, reason, sendOk, e);
      assert Next(c, s) == PubrelStep(c, mid, reason, sendOk);
  }

  lemma NoPublishOwed(c: Client, s: Step, e: Event)
    requires e.SentPublish?
    ensures !Owed(c, s, e)
  {
  }

  /** Every step sends a PUBLISH exactly for the records it brings under way, if there is a connection,
      and for those that a reconnection sends again. */
  lemma PublishLaw(c: Client, s: Step, e: Event)
    requires Typed(c) && Possible(c, s) && e.SentPublish?
    ensures Times(Next(c, s), e) == Times(c, e) + Added(c, s, e)
            + if c.connected && Begins(c.outgoing.list, Next(c, s).outgoing.list, e) then 1 else 0
  {
    NoPublishOwed(c, s, e);
    match s
    case DoPublish(qos) => PublishBegins(c, qos, e);
    case RecvAck(qos, mid, reason) => AckBegins(c, qos, mid, reason, e);
    case RecvPubrec(mid, reason) => PubrecBegins(c, mid, reason, e);
    case RecvConnack(reason, newMax) =>
      ConnackTimes(c, reason, newMax, e);
      ResetBegins(c, s, e);
    case DoReconnect(_) => ResetBegins(c, s, e);
    case RecvPublish(_, _, _) => IncomingBegins(c, s, e);
    case RecvPubrel(_, _, _) => IncomingBegins(c, s, e);
    case DoSendMaximum(_) => NothingBegins(c.outgoing.list, c.outgoing.list, e);
    case SocketLost => NothingBegins(c.outgoing.list, c.outgoing.list, e);
  }

  /** Publishing puts one new record at the end, with the next identifier, and starts it if there is
      quota for it and for all that wait before it. */
  lemma PublishStores(c: Client, qos: nat)
    requires Typed(c) && c.connected && (qos == 1 || qos == 2)
    ensures
      var n, r := |c.outgoing.list|, Publish(c, qos).outgoing.list;
      && |r| == n + 1 && SameRecords(c.outgoing.list, r[..n])
      && r[n] == Message(c.outgoing.serial, NextMid(c.lastMid), qos, r[n].state, false)
      && r[n].state == if QueuedCount(c.outgoing.list) >= c.outgoing.quota then Invalid
                       else if qos == 1 then WaitForPuback else WaitForPubrec
  {
    var n, d := |c.outgoing.list|, Enqueued(c, qos);
    assert d.outgoing.list[..n] == c.outgoing.list;
  }

  // ----- what the connection is

  /** The send maximum after a step: set by the application within 16 bits, where 0 means the largest,
      or by an accepted CONNACK of MQTT 5.0 that names one. */
  function MaximumAfter(c: Client, s: Step): nat
  {
    match s
    case DoSendMaximum(value) => if !(0 <= value <= 65535) then c.outgoing.max else if value == 0 then 65535 else value
    case RecvConnack(_, newMax) => if newMax == 0 && c.v5 then c.outgoing.max else NewMaximum(c, newMax)
    case _ => c.outgoing.max
  }

  /** A socket comes with a reconnection and goes with one that fails or is lost; the connection is
      accepted by a CONNACK with reason 0 until the next reconnection. */
  lemma ConnectionLaw(c: Client, s: Step)
    ensures
      var d := Next(c, s);
      && d.v5 == c.v5
      && d.connected == (if s.DoReconnect? then s.ok else c.connected && !s.SocketLost?)
      && d.active == (if s.DoReconnect? then false else c.active || Resumes(c, s))
      && d.outgoing.max == MaximumAfter(c, s) && d.incoming.max == c.incoming.max
  {
    match s
    case RecvAck(qos, mid, reason) => AckKeepsMaximum(c, qos, mid, reason);
    case RecvPubrec(mid, reason) => PubrecKeepsMaximum(c, mid, reason);
    case RecvPublish(_, _, _) => IncomingOnly(c, s);
    case RecvPubrel(_, _, _) => IncomingOnly(c, s);
    case _ =>
  }

  // ----- identifiers of records

  /** The identifier of the record with this number: records get theirs one after the other. */
  function MidOf(serial: nat): nat { MidAfter(0, serial + 1) }

  predicate AllNamed(ms: seq<Message>) { forall i | 0 <= i < |ms| :: ms[i].mid == MidOf(ms[i].serial) }

  /** The PUBLISH of a record carries the record's identifier. */
  predicate PublishNamed(e: Event) { e.SentPublish? ==> e.mid == MidOf(e.serial) }

  /** Every PUBREC matched with a record is followed at once by the PUBREL with its identifier. */
  predicate NamedTrace(tr: seq<Event>)
  {
    && (forall i | 0 <= i < |tr| :: PublishNamed(tr[i]))
    && (forall i | 0 <= i < |tr| && tr[i].GotPubrec? :: i + 1 < |tr| && tr[i + 1] == SentPubrel(MidOf(tr[i].serial)))
  }

  predicate Named(c: Client)
  {
    c.lastMid == MidAfter(0, c.outgoing.serial) && AllNamed(c.outgoing.list) && NamedTrace(c.trace)
  }

  /** Events that leave the trace named: none reports a PUBREC. */
  predicate Plain(es: seq<Event>)
  {
    forall i | 0 <= i < |es| :: !es[i].GotPubrec? && PublishNamed(es[i])
  }

  lemma TraceGrows(tr: seq<Event>, es: seq<Event>)
    requires NamedTrace(tr) && Plain(es)
    ensures NamedTrace(tr + es)
  {
    var all := tr + es;
    forall i | 0 <= i < |all| ensures PublishNamed(all[i]) {
      assert all[i] == if i < |tr| then tr[i] else es[i - |tr|];
    }
    forall i | 0 <= i < |all| && all[i].GotPubrec?
      ensures i + 1 < |all| && all[i + 1] == SentPubrel(MidOf(all[i].serial))
    {
      assert i < |tr|;
      assert all[i] == tr[i] && all[i + 1] == tr[i + 1];
    }
  }

  lemma {:induction false} ReleasePlain(ms: seq<Message>, n: int)
    requires AllNamed(ms)
    ensures Plain(ReleaseEvents(ms, n))
  {
    if ms != [] { ReleasePlain(ms[..|ms| - 1], n); }
  }

  lemma {:induction false} RetryPlain(ms: seq<Message>)
    requires AllNamed(ms)
    ensures Plain(RetryEvents(ms))
  {
    if ms != [] { RetryPlain(ms[..|ms| - 1]); }
  }

  lemma NamedRelease(c: Client)
    requires Named(c)
    ensures Named(Release(c))
  {
    ReleasePlain(c.outgoing.list, c.outgoing.quota);
    TraceGrows(c.trace, if c.connected then ReleaseEvents(c.outgoing.list, c.outgoing.quota) else []);
  }

  lemma NamedFinish(c: Client, mid: nat, qos: nat)
    requires Named(c)
    ensures Named(Finish(c, mid, qos))
  {
    TraceGrows(c.trace, CompletionOf(c.outgoing, mid, qos));
  }

  lemma NamedPublish(c: Client, qos: nat)
    requires Named(c)
    ensures Named(Publish(c, qos))
  {
    var c1 := Enqueued(c, qos);
    assert c1.outgoing.list == c.outgoing.list + [NewMessage(c, qos)];
    assert c1.lastMid == MidOf(c.outgoing.serial);
    NamedRelease(c1);
  }

  lemma NamedReceived(c: Client, mid: nat)
    requires Named(c)
    ensures Named(Received(c, mid))
  {
    var es := PubrecMatch(c.outgoing, mid);
    if es == [] {
      TraceGrows(c.trace, [SentPubrel(mid)]);
      assert es + [SentPubrel(mid)] == [SentPubrel(mid)];
    } else {
      MatchedTrace(c.trace, es[0].serial, mid);
    }
  }

  lemma MatchedTrace(tr: seq<Event>, serial: nat, mid: nat)
    requires NamedTrace(tr) && mid == MidOf(serial)
    ensures NamedTrace(tr + ([GotPubrec(serial)] + [SentPubrel(mid)]))
  {
    var all := tr + ([GotPubrec(serial)] + [SentPubrel(mid)]);
    assert forall i | 0 <= i < |tr| :: all[i] == tr[i];
    assert all[|tr|] == GotPubrec(serial) && all[|tr| + 1] == SentPubrel(mid);
  }

  lemma NamedPubrec(c: Client, mid: nat, reason: nat)
    requires Named(c)
    ensures Named(PubrecStep(c, mid, reason))
  {
    if PubrecAccepted(c, mid, reason) {
      if Refuses(c, reason) {
        NamedFinish(c, mid, 2);
        NamedRelease(Credit(Finish(c, mid, 2)));
      } else if !RemoveStatus(c.outgoing.list, mid, 2).ErrProtocol? {
        NamedReceived(c, mid);
      }
    }
  }

  lemma NamedAck(c: Client, qos: nat, mid: nat, reason: nat)
    requires Named(c)
    ensures Named(AckStep(c, qos, mid, reason))
  {
    if c.active && AckAccepted(c, qos, mid, reason) && !RemoveStatus(c.outgoing.list, mid, qos).ErrProtocol? {
      NamedFinish(Credit(c), mid, qos);
      NamedRelease(Finish(Credit(c), mid, qos));
    }
  }

  lemma NamedReset(c: Client, quotaOnly: bool)
    requires Named(c)
    ensures Named(Reset(c, quotaOnly))
  {
  }

  lemma NamedConnack(c: Client, reason: nat, newMax: int)
    requires Named(c)
    ensures Named(ConnackStep(c, reason, newMax))
  {
    if !ConnackRefused(c.v5, newMax) {
      var c1 := Reset(WithMaximum(c, newMax), true);
      NamedReset(WithMaximum(c, newMax), true);
      RetryPlain(c1.outgoing.list);
      TraceGrows(c.trace, RetryEvents(c1.outgoing.list));
    }
  }

  lemma NamedIncoming(c: Client, s: Step)
    requires Named(c) && (s.RecvPubrel? || s.RecvPublish?)
    ensures Named(Next(c, s))
  {
    if s.RecvPublish? {
      TraceGrows(c.trace, Receipt(s.qos, s.mid));
    } else {
      TraceGrows(c.trace, (if s.sendOk then [SentPubcomp(s.mid)] else []) + DeliveryOf(c.incoming, s.mid, s.sendOk));
    }
  }

  lemma NamedStep(c: Client, s: Step)
    requires Named(c)
    ensures Named(Next(c, s))
  {
    match s
    case DoPublish(qos) => NamedPublish(c, qos);
    case DoReconnect(ok) => NamedReset(c, false);
    case RecvAck(qos, mid, reason) => NamedAck(c, qos, mid, reason);
    case RecvPubrec(mid, reason) => NamedPubrec(c, mid, reason);
    case RecvConnack(reason, newMax) => NamedConnack(c, reason, newMax);
    case RecvPubrel(_, _, _) => NamedIncoming(c, s);
    case RecvPublish(_, _, _) => NamedIncoming(c, s);
    case _ =>
  }

  lemma {:induction false} NamedAlways(v5: bool, steps: seq<Step>)
    ensures Named(Run(NewClient(v5), steps))
  {
    if steps != [] {
      NamedAlways(v5, steps[..|steps| - 1]);
      NamedStep(Run(NewClient(v5), steps[..|steps| - 1]), steps[|steps| - 1]);
    }
  }

  /** Over every run, a PUBREC matched with a record is followed at once by a PUBREL, with the
      identifier under which every PUBLISH of that record was sent. */
  lemma PubrecIsAnswered(v5: bool, steps: seq<Step>, i: nat)
    requires i < |Run(NewClient(v5), steps).trace| && Run(NewClient(v5), steps).trace[i].GotPubrec?
    ensures
      var tr := Run(NewClient(v5), steps).trace;
      && i + 1 < |tr| && tr[i + 1].SentPubrel?
      && forall j | 0 <= j < |tr| && tr[j].SentPublish? && tr[j].serial == tr[i].serial :: tr[j].mid == tr[i + 1].mid
  {
    NamedAlways(v5, steps);
    var tr := Run(NewClient(v5), steps).trace;
    forall j | 0 <= j < |tr| && tr[j].SentPublish? && tr[j].serial == tr[i].serial ensures tr[j].mid == tr[i + 1].mid {
      assert PublishNamed(tr[j]);
    }
  }
}
