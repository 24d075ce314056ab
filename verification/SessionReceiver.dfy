/**
 The QoS 2 receiver: when stored records are delivered, when delivery is exactly once, and
 concrete runs that show what goes wrong outside the stated conditions.
 */
module SessionReceiver {
  import opened SessionState
  import opened SessionTheorems
  import opened SessionSafety

  /** The step from `c` to `d` only extends the trace, and reports no incoming record. */
  predicate Silent(c: Client, d: Client)
  {
    && c.trace <= d.trace
    && forall i | |c.trace| <= i < |d.trace| :: !d.trace[i].Delivered? && !d.trace[i].Dropped?
  }

  lemma SilentTrans(c: Client, d: Client, e: Client)
    requires Silent(c, d) && Silent(d, e)
    ensures Silent(c, e)
  {
  }

  lemma SilentLog(c: Client, es: seq<Event>)
    requires forall i | 0 <= i < |es| :: !es[i].Delivered? && !es[i].Dropped?
    ensures Silent(c, Log(c, es))
  {
  }

  lemma SilentRelease(c: Client)
    ensures Silent(c, Release(c))
  {
    ReleaseEventsArePackets(c.outgoing.list, c.outgoing.quota);
    SilentLog(c, if c.connected then ReleaseEvents(c.outgoing.list, c.outgoing.quota) else []);
  }

  lemma SilentFinish(c: Client, mid: nat, qos: nat)
    ensures Silent(c, Finish(c, mid, qos))
  {
    SilentLog(c, CompletionOf(c.outgoing, mid, qos));
  }

  lemma SilentPubrec(c: Client, mid: nat, reason: nat)
    ensures Silent(c, PubrecStep(c, mid, reason))
  {
    if PubrecAccepted(c, mid, reason) {
      if Refuses(c, reason) {
        SilentFinish(c, mid, 2);
        SilentRelease(Credit(Finish(c, mid, 2)));
        SilentTrans(c, Credit(Finish(c, mid, 2)), PubrecStep(c, mid, reason));
      } else {
        SilentLog(c, PubrecMatch(c.outgoing, mid) + [SentPubrel(mid)]);
      }
    }
  }

  lemma SilentIncoming(c: Client, qos: nat, mid: nat, dup: bool)
    ensures Silent(c, IncomingStep(c, qos, mid, dup))
  {
    if !IncomingRefused(c, qos, mid) {
      if qos == 0 { SilentLog(c, [DeliveredNow(0)]); }
      else if qos == 1 { SilentLog(c, [SentPuback(mid), DeliveredNow(1)]); }
      else { SilentLog(c, [SentPubrec(mid)]); }
    }
  }

  /** Only PUBREL reports incoming QoS 2 records. */
  lemma SilentStep(c: Client, s: Step)
    requires !s.RecvPubrel?
    ensures Silent(c, Next(c, s))
  {
    match s
    case DoPublish(qos) => SilentRelease(Enqueued(c, qos));
    case RecvAck(qos, mid, reason) =>
      if c.active {
        SilentFinish(Credit(c), mid, qos);
        SilentRelease(Finish(Credit(c), mid, qos));
        SilentTrans(c, Finish(Credit(c), mid, qos), Release(Finish(Credit(c), mid, qos)));
      }
    case RecvPubrec(mid, reason) => SilentPubrec(c, mid, reason);
    case RecvPublish(qos, mid, dup) => SilentIncoming(c, qos, mid, dup);
    case RecvConnack(reason, newMax) =>
      var c1 := Reset(WithMaximum(c, newMax), true);
      RetryEventsArePackets(c1.outgoing.list);
      SilentLog(c, RetryEvents(c1.outgoing.list));
    case DoReconnect(_) =>
    case DoSendMaximum(_) =>
    case SocketLost =>
  }

  lemma SilentTimes(c: Client, d: Client, serial: nat)
    requires Silent(c, d)
    ensures Times(d, Delivered(serial)) == Times(c, Delivered(serial))
  {
    var es := d.trace[|c.trace|..];
    assert d.trace == c.trace + es;
    assert Delivered(serial) !in es;
  }

  /** A stored record is handed to the application only by a PUBREL that carries its identifier
      and whose PUBCOMP could be sent. */
  lemma DeliveredOnlyOnPubrel(c: Client, s: Step, serial: nat)
    requires Times(Next(c, s), Delivered(serial)) > Times(c, Delivered(serial))
    ensures s.RecvPubrel? && s.sendOk
    ensures exists i | 0 <= i < |c.incoming.list| ::
              c.incoming.list[i].serial == serial && c.incoming.list[i].mid == s.mid
  {
    if !s.RecvPubrel? {
      SilentStep(c, s);
      SilentTimes(c, Next(c, s), serial);
    } else {
      PubrelDelivers(c, s.mid, s.reason, s.sendOk, serial);
    }
  }

  lemma PubrelDelivers(c: Client, mid: nat, reason: nat, sendOk: bool, serial: nat)
    requires Times(PubrelStep(c, mid, reason, sendOk), Delivered(serial)) > Times(c, Delivered(serial))
    ensures sendOk
    ensures exists i | 0 <= i < |c.incoming.list| ::
              c.incoming.list[i].serial == serial && c.incoming.list[i].mid == mid
  {
    var head := if sendOk then [SentPubcomp(mid)] else [];
    var es := DeliveryOf(c.incoming, mid, sendOk);
    assert Times(PubrelStep(c, mid, reason, sendOk), Delivered(serial))
        <= multiset(c.trace + (head + es))[Delivered(serial)];
    assert multiset(c.trace + (head + es)) == multiset(c.trace) + multiset(head) + multiset(es);
    assert Delivered(serial) in es;
    assert c.incoming.list[FirstMid(c.incoming.list, mid)].serial == serial;
  }

  predicate AtMostOne(ms: seq<Message>, mid: nat)
  {
    forall i, j | 0 <= i < j < |ms| :: ms[i].mid != mid || ms[j].mid != mid
  }

  /** After the first record with an identifier is gone, another one is left exactly when there
      were two. */
  lemma SecondRecordIff(list: seq<Message>, mid: nat)
    requires FirstMid(list, mid) < |list|
    ensures
      var rest := Without(list, FirstMid(list, mid));
      FirstMid(rest, mid) == |rest| <==> AtMostOne(list, mid)
  {
    var k := FirstMid(list, mid);
    var rest := Without(list, k);
    if AtMostOne(list, mid) {
      forall j | 0 <= j < |rest| ensures rest[j].mid != mid {
        assert rest[j] == list[if j < k then j else j + 1];
      }
    } else {
      var i, j :| 0 <= i < j < |list| && list[i].mid == mid && list[j].mid == mid;
      assert rest[j - 1].mid == mid;
    }
  }

  /** A repeated PUBREL delivers nothing more exactly when no second record was stored under the
      same identifier. */
  lemma RepeatedPubrelIff(c: Client, mid: nat, reason: nat)
    requires Typed(c) && PubrelAccepted(c, mid, reason)
    ensures
      var c1 := PubrelStep(c, mid, reason, true);
      Silent(c1, PubrelStep(c1, mid, reason, true)) <==> AtMostOne(c.incoming.list, mid)
  {
    var c1 := PubrelStep(c, mid, reason, true);
    PubrelOk(c, mid, reason, true);
    AnotherPubrel(c1, mid, reason);
    if FirstMid(c.incoming.list, mid) < |c.incoming.list| {
      SecondRecordIff(c.incoming.list, mid);
      TakesFirst(c, mid, reason);
    }
  }

  lemma TakesFirst(c: Client, mid: nat, reason: nat)
    requires InOk(c.incoming) && PubrelAccepted(c, mid, reason)
    requires FirstMid(c.incoming.list, mid) < |c.incoming.list|
    ensures PubrelStep(c, mid, reason, true).incoming.list == Without(c.incoming.list, FirstMid(c.incoming.list, mid))
  {
  }

  lemma AnotherPubrel(c: Client, mid: nat, reason: nat)
    requires InOk(c.incoming) && PubrelAccepted(c, mid, reason)
    ensures Silent(c, PubrelStep(c, mid, reason, true)) <==> FirstMid(c.incoming.list, mid) == |c.incoming.list|
  {
    var d := PubrelStep(c, mid, reason, true);
    assert d.trace == c.trace + ([SentPubcomp(mid)] + DeliveryOf(c.incoming, mid, true));
    if FirstMid(c.incoming.list, mid) < |c.incoming.list| {
      assert d.trace[|c.trace| + 1].Delivered?;
    }
  }

  // ===== exactly once

  predicate DistinctMids(ms: seq<Message>)
  {
    forall i, j | 0 <= i < j < |ms| :: ms[i].mid != ms[j].mid
  }

  /** No PUBLISH reuses an identifier that still awaits its PUBREL, and PUBCOMP can be sent. */
  predicate Orderly(c: Client, s: Step)
  {
    && (s.RecvPublish? && s.qos == 2 ==> FirstMid(c.incoming.list, s.mid) == |c.incoming.list|)
    && (s.RecvPubrel? ==> s.sendOk)
  }

  ghost predicate OrderlyRun(c: Client, steps: seq<Step>)
  {
    steps != [] ==>
      && OrderlyRun(c, steps[..|steps| - 1])
      && Orderly(Run(c, steps[..|steps| - 1]), steps[|steps| - 1])
  }

  predicate NothingDropped(c: Client) { forall i | 0 <= i < |c.trace| :: !c.trace[i].Dropped? }

  lemma OutgoingSteps(c: Client, s: Step)
    requires s.DoPublish? || s.RecvAck? || s.RecvPubrec?
    ensures Next(c, s).incoming == c.incoming
  {
    match s
    case RecvPubrec(mid, reason) =>
      if PubrecAccepted(c, mid, reason) { if Refuses(c, reason) {} else {} }
    case RecvAck(qos, mid, reason) => if c.active {}
    case DoPublish(_) =>
  }

  predicate StoresOrTakes(c: Client, s: Step, list': seq<Message>)
  {
    var list := c.incoming.list;
    || list' == list
    || (s.RecvPublish? && s.qos == 2
        && list' == list + [Message(c.incoming.serial, s.mid, 2, WaitForPubrel, s.dup)])
    || (s.RecvPubrel? && FirstMid(list, s.mid) < |list| && list' == Without(list, FirstMid(list, s.mid)))
  }

  lemma IncomingStores(c: Client, qos: nat, mid: nat, dup: bool)
    ensures StoresOrTakes(c, RecvPublish(qos, mid, dup), IncomingStep(c, qos, mid, dup).incoming.list)
  {
    if !IncomingRefused(c, qos, mid) { if qos == 0 {} else if qos == 1 {} else {} }
  }

  /** What a step can do to the stored records. */
  lemma IncomingList(c: Client, s: Step)
    requires InOk(c.incoming)
    ensures StoresOrTakes(c, s, Next(c, s).incoming.list)
  {
    OnlyQos2Keeps(c.incoming.list);
    match s
    case RecvPublish(qos, mid, dup) => IncomingStores(c, qos, mid, dup);
    case RecvPubrel(mid, reason, sendOk) =>
      if PubrelAccepted(c, mid, reason) {
        if FirstMid(c.incoming.list, mid) < |c.incoming.list| { TakesFirst(c, mid, reason); }
      }
    case RecvPubrec(mid, reason) => OutgoingSteps(c, s);
    case RecvAck(qos, mid, reason) => OutgoingSteps(c, s);
    case DoPublish(_) => OutgoingSteps(c, s);
    case RecvConnack(reason, newMax) => if reason == 0 {}
    case DoReconnect(_) =>
    case DoSendMaximum(_) =>
    case SocketLost =>
  }

  lemma OrderlyStep(c: Client, s: Step)
    requires Typed(c) && Orderly(c, s)
    requires DistinctMids(c.incoming.list) && NothingDropped(c)
    ensures DistinctMids(Next(c, s).incoming.list) && NothingDropped(Next(c, s))
  {
    IncomingList(c, s);
    if s.RecvPubrel? {
      PubrelDropsNothing(c, s.mid, s.reason);
    } else {
      SilentStep(c, s);
    }
  }

  lemma PubrelDropsNothing(c: Client, mid: nat, reason: nat)
    requires NothingDropped(c)
    ensures NothingDropped(PubrelStep(c, mid, reason, true))
  {
    if PubrelAccepted(c, mid, reason) {
      var es := [SentPubcomp(mid)] + DeliveryOf(c.incoming, mid, true);
      assert forall i | 0 <= i < |es| :: !es[i].Dropped?;
    }
  }

  lemma {:induction false} OrderlyAlways(v5: bool, steps: seq<Step>)
    requires PossibleRun(NewClient(v5), steps) && OrderlyRun(NewClient(v5), steps)
    ensures
      var c := Run(NewClient(v5), steps);
      DistinctMids(c.incoming.list) && NothingDropped(c)
  {
    if steps != [] {
      var before := steps[..|steps| - 1];
      OrderlyAlways(v5, before);
      TypedAlways(v5, before);
      OrderlyStep(Run(NewClient(v5), before), steps[|steps| - 1]);
    }
  }

  /** Exactly once: in an orderly run, a stored record has been delivered once if it has left the
      list and not at all while it is still there; and no two stored records share an identifier,
      so repeating a PUBREL delivers nothing. */
  lemma DeliveredExactlyOnce(v5: bool, steps: seq<Step>, serial: nat)
    requires PossibleRun(NewClient(v5), steps) && OrderlyRun(NewClient(v5), steps)
    requires serial < Run(NewClient(v5), steps).incoming.serial
    ensures
      var c := Run(NewClient(v5), steps);
      && Times(c, Delivered(serial)) == (if Holds(c.incoming.list, serial) then 0 else 1)
      && forall mid: nat :: AtMostOne(c.incoming.list, mid)
  {
    var c := Run(NewClient(v5), steps);
    ConservedAlways(v5, steps, serial);
    OrderlyAlways(v5, steps);
    assert Dropped(serial) !in c.trace;
  }

  // ===== what happens outside the conditions

  /** One more step at the end of a run. */
  lemma Extend(c: Client, steps: seq<Step>, s: Step)
    ensures Run(c, steps + [s]) == Next(Run(c, steps), s)
    ensures PossibleRun(c, steps) && Possible(Run(c, steps), s) ==> PossibleRun(c, steps + [s])
  {
    assert (steps + [s])[..|steps|] == steps;
  }

  const CONNECTED := NewClient(true).(connected := true, active := true)
  const CONNECT := [DoReconnect(true), RecvConnack(0, -1)]

  /** A connected MQTT 5.0 client with nothing stored. */
  lemma Connects()
    ensures PossibleRun(NewClient(true), CONNECT) && Run(NewClient(true), CONNECT) == CONNECTED
  {
    Extend(NewClient(true), [], DoReconnect(true));
    Extend(NewClient(true), [DoReconnect(true)], RecvConnack(0, -1));
    assert CONNECT == [DoReconnect(true)] + [RecvConnack(0, -1)];
  }

  const REPEATED_PUBLISH := [
    DoReconnect(true), RecvConnack(0, -1),
    RecvPublish(2, 7, false), RecvPublish(2, 7, true),
    RecvPubrel(7, 0, true), RecvPubrel(7, 0, true)]

  const FIRST_COPY := Message(0, 7, 2, WaitForPubrel, false)
  const SECOND_COPY := Message(1, 7, 2, WaitForPubrel, true)

  const STORED_TWICE := CONNECT + [RecvPublish(2, 7, false)] + [RecvPublish(2, 7, true)]

  /** Both copies of a repeated PUBLISH are stored. */
  lemma RepetitionIsStored()
    ensures PossibleRun(NewClient(true), STORED_TWICE)
    ensures Run(NewClient(true), STORED_TWICE)
         == CONNECTED.(incoming := Side([FIRST_COPY, SECOND_COPY], 2, 18, 20, 2), trace := [SentPubrec(7), SentPubrec(7)])
  {
    Connects();
    Extend(NewClient(true), CONNECT, RecvPublish(2, 7, false));
    Extend(NewClient(true), CONNECT + [RecvPublish(2, 7, false)], RecvPublish(2, 7, true));
  }

  /** A PUBREL for the first stored record delivers it and keeps the others. */
  lemma DeliversFirst(c: Client, m: Message)
    requires c.active && c.connected && c.incoming.list != [] && c.incoming.list[0] == m && m.mid == 7 && m.qos == 2
    ensures
      var d := Next(c, RecvPubrel(7, 0, true));
      && d.active && d.connected && d.incoming.list == c.incoming.list[1..]
      && d.trace == c.trace + [SentPubcomp(7), Delivered(m.serial)]
  {
    var list := c.incoming.list;
    assert FirstMid(list, 7) == 0 && Without(list, 0) == list[1..];
    assert [SentPubcomp(7)] + [Delivered(m.serial)] == [SentPubcomp(7), Delivered(m.serial)];
  }

  /** A broker that repeats a PUBLISH makes the application receive it twice: handle__publish
      stores the repetition as a second record. */
  lemma RepeatedPublishDeliversTwice()
    ensures PossibleRun(NewClient(true), REPEATED_PUBLISH)
    ensures
      var tr := Run(NewClient(true), REPEATED_PUBLISH).trace;
      Delivered(0) in tr && Delivered(1) in tr
  {
    RepetitionIsStored();
    var c := Run(NewClient(true), STORED_TWICE);
    Extend(NewClient(true), STORED_TWICE, RecvPubrel(7, 0, true));
    DeliversFirst(c, FIRST_COPY);
    assert c.incoming.list[1..] == [SECOND_COPY];
    var d := Next(c, RecvPubrel(7, 0, true));
    Extend(NewClient(true), STORED_TWICE + [RecvPubrel(7, 0, true)], RecvPubrel(7, 0, true));
    DeliversFirst(d, SECOND_COPY);
    var tr := Next(d, RecvPubrel(7, 0, true)).trace;
    assert tr[|c.trace| + 1] == Delivered(0) && tr[|d.trace| + 1] == Delivered(1);
    assert STORED_TWICE + [RecvPubrel(7, 0, true)] + [RecvPubrel(7, 0, true)] == REPEATED_PUBLISH;
  }

  const SHRUNK_MAXIMUM := [
    DoReconnect(true), RecvConnack(0, -1), DoPublish(2), DoPublish(2), RecvPubrec(2, 0),
    DoReconnect(true), RecvConnack(0, 1), RecvAck(2, 1, 0)]

  const MSG_A := Message(0, 1, 2, WaitForPubrec, false)
  const MSG_B := Message(1, 2, 2, WaitForPubrec, false)

  lemma TwoPublished()
    ensures
      var s := CONNECT + [DoPublish(2)] + [DoPublish(2)];
      && PossibleRun(NewClient(true), s)
      && Run(NewClient(true), s) == CONNECTED.(outgoing := Side([MSG_A, MSG_B], 2, 18, 20, 2), lastMid := 2,
                                               trace := [SentPublish(0, 1, false), SentPublish(1, 2, false)])
  {
    Connects();
    Extend(NewClient(true), CONNECT, DoPublish(2));
    var c3 := Run(NewClient(true), CONNECT + [DoPublish(2)]);
    assert c3 == CONNECTED.(outgoing := Side([MSG_A], 1, 19, 20, 1), lastMid := 1, trace := [SentPublish(0, 1, false)]);
    Extend(NewClient(true), CONNECT + [DoPublish(2)], DoPublish(2));
    assert [MSG_A, MSG_B][..1] == [MSG_A];
  }

  const TWO_PUBLISHED := CONNECT + [DoPublish(2)] + [DoPublish(2)]
  const ACKNOWLEDGED := TWO_PUBLISHED + [RecvPubrec(2, 0)]
  const RECONNECTED := ACKNOWLEDGED + [DoReconnect(true)]
  const DEMOTED := RECONNECTED + [RecvConnack(0, 1)]

  /** The PUBREC for the second message has arrived. */
  lemma SecondIsAcknowledged()
    ensures
      var c := Run(NewClient(true), ACKNOWLEDGED);
      && PossibleRun(NewClient(true), ACKNOWLEDGED) && c.active && c.connected && c.v5 && GotPubrec(1) in c.trace
      && c.outgoing == Side([MSG_A, MSG_B.(state := WaitForPubcomp)], 2, 18, 20, 2)
  {
    TwoPublished();
    var c := Run(NewClient(true), TWO_PUBLISHED);
    Extend(NewClient(true), TWO_PUBLISHED, RecvPubrec(2, 0));
    assert Next(c, RecvPubrec(2, 0)).trace[|c.trace|] == GotPubrec(1);
  }

  lemma StillAcknowledged()
    ensures
      var c := Run(NewClient(true), RECONNECTED);
      && PossibleRun(NewClient(true), RECONNECTED) && c.connected && c.v5 && GotPubrec(1) in c.trace
      && c.outgoing == Side([Message(0, 1, 2, PublishQos2, false), MSG_B.(state := ResendPubrel)], 2, 18, 20, 2)
  {
    SecondIsAcknowledged();
    var c := Run(NewClient(true), ACKNOWLEDGED);
    Extend(NewClient(true), ACKNOWLEDGED, DoReconnect(true));
    TwoRestarted(c.outgoing);
    assert Next(c, DoReconnect(true)).outgoing == ResetOutSide(c.outgoing, false) && Next(c, DoReconnect(true)).trace == c.trace;
  }

  lemma TwoRestarted(o: Side)
    requires o == Side([MSG_A, MSG_B.(state := WaitForPubcomp)], 2, 18, 20, 2)
    ensures ResetOutSide(o, false)
         == Side([Message(0, 1, 2, PublishQos2, false), MSG_B.(state := ResendPubrel)], 2, 18, 20, 2)
  {
    var r := ResetOut(o.list, o.max, false);
    assert r[0] == Message(0, 1, 2, PublishQos2, false) && r[1] == MSG_B.(state := ResendPubrel);
    assert r == [r[0], r[1]];
  }

  /** After the reconnection the broker announces room for one message only, and the reset puts
      the acknowledged second message back among those waiting for their first transmission. */
  lemma AcknowledgedIsDemoted()
    ensures
      var c := Run(NewClient(true), DEMOTED);
      && PossibleRun(NewClient(true), DEMOTED) && c.active && c.connected && c.v5 && GotPubrec(1) in c.trace
      && c.outgoing == Side([Message(0, 1, 2, PublishQos2, true), MSG_B.(state := Invalid)], 2, 0, 1, 2)
  {
    StillAcknowledged();
    var c := Run(NewClient(true), RECONNECTED);
    Extend(NewClient(true), RECONNECTED, RecvConnack(0, 1));
    var i :| 0 <= i < |c.trace| && c.trace[i] == GotPubrec(1);
    assert Next(c, RecvConnack(0, 1)).trace[i] == GotPubrec(1);
  }

  lemma PublishedAgain(before: seq<Event>, serial: nat, mid: nat, e: Event)
    requires GotPubrec(serial) in before
    ensures !NoRepublish(before + [e] + [SentPublish(serial, mid, false)])
  {
    var tr := before + [e] + [SentPublish(serial, mid, false)];
    var i :| 0 <= i < |before| && before[i] == GotPubrec(serial);
    assert tr[i] == GotPubrec(serial) && tr[|before| + 1] == SentPublish(serial, mid, false);
  }

  /** A broker that lowers its Receive Maximum below the place of an acknowledged message makes
      the client publish that message again after its PUBREC: the condition of `Behaved` on
      CONNACK is needed. */
  lemma ShrunkMaximumRepublishes()
    ensures PossibleRun(NewClient(true), SHRUNK_MAXIMUM)
    ensures !NoRepublish(Run(NewClient(true), SHRUNK_MAXIMUM).trace)
  {
    assert DEMOTED + [RecvAck(2, 1, 0)] == SHRUNK_MAXIMUM;
    AcknowledgedIsDemoted();
    Republished(DEMOTED);
  }

  lemma Republished(steps: seq<Step>)
    requires PossibleRun(NewClient(true), steps)
    requires
      var c := Run(NewClient(true), steps);
      && c.active && c.connected && c.v5 && GotPubrec(1) in c.trace
      && c.outgoing == Side([Message(0, 1, 2, PublishQos2, true), MSG_B.(state := Invalid)], 2, 0, 1, 2)
    ensures PossibleRun(NewClient(true), steps + [RecvAck(2, 1, 0)])
    ensures !NoRepublish(Run(NewClient(true), steps + [RecvAck(2, 1, 0)]).trace)
  {
    var c := Run(NewClient(true), steps);
    Extend(NewClient(true), steps, RecvAck(2, 1, 0));
    DemotedIsPublished(c);
    PublishedAgain(c.trace, 1, 2, Completed(0));
  }

  lemma DemotedIsPublished(c: Client)
    requires c.active && c.connected && c.v5
    requires c.outgoing == Side([Message(0, 1, 2, PublishQos2, true), MSG_B.(state := Invalid)], 2, 0, 1, 2)
    ensures Next(c, RecvAck(2, 1, 0)).trace == c.trace + [Completed(0)] + [SentPublish(1, 2, false)]
  {
    var list := c.outgoing.list;
    assert FirstMid(list, 1) == 0 && Without(list, 0) == [MSG_B.(state := Invalid)];
    var waiting := Finish(Credit(c), 1, 2);
    assert waiting.outgoing == Side([MSG_B.(state := Invalid)], 1, 1, 1, 2);
    assert waiting.trace == c.trace + [Completed(0)];
    assert ReleaseEvents(waiting.outgoing.list, 1) == [SentPublish(1, 2, false)] by {
      assert waiting.outgoing.list[..0] == [];
    }
    assert Next(c, RecvAck(2, 1, 0)) == Release(waiting);
  }

  const FULL := [DoReconnect(true)] + [RecvConnack(0, 1)] + [DoPublish(1)]
  const OVERFULL := [DoReconnect(true), RecvConnack(0, 1), DoPublish(1), RecvAck(1, 7, 0), DoPublish(1)]

  /** One message in flight fills a window of one. */
  lemma WindowFills()
    ensures
      var c := Run(NewClient(true), FULL);
      && PossibleRun(NewClient(true), FULL) && c.active && c.connected && c.v5 && c.lastMid == 1
      && c.outgoing == Side([Message(0, 1, 1, WaitForPuback, false)], 1, 0, 1, 1)
  {
    Extend(NewClient(true), [], DoReconnect(true));
    Extend(NewClient(true), [DoReconnect(true)], RecvConnack(0, 1));
    Extend(NewClient(true), [DoReconnect(true)] + [RecvConnack(0, 1)], DoPublish(1));
    assert [] + [DoReconnect(true)] == [DoReconnect(true)];
  }

  /** A PUBACK for an identifier that is not in use. */
  lemma StrayAck(c: Client)
    requires c.active && c.connected && c.v5
    requires c.outgoing == Side([Message(0, 1, 1, WaitForPuback, false)], 1, 0, 1, 1)
    ensures Next(c, RecvAck(1, 7, 0)).outgoing == c.outgoing.(quota := 1)
    ensures Next(c, RecvAck(1, 7, 0)).connected && Next(c, RecvAck(1, 7, 0)).lastMid == c.lastMid
  {
    var list := c.outgoing.list;
    assert list[1..] == [] && FirstMid(list, 7) == 1;
    var credited := Credit(c);
    assert credited.outgoing == c.outgoing.(quota := 1);
    var finished := Finish(credited, 7, 1);
    assert finished.outgoing == credited.outgoing && finished.connected;
    NothingQueued(finished.outgoing);
    assert Next(c, RecvAck(1, 7, 0)) == Release(finished);
  }

  lemma NothingQueued(o: Side)
    requires |o.list| == 1 && !Queued(o.list[0])
    ensures ReleaseSide(o, true) == o
  {
    assert o.list[..0] == [] && o.list == [o.list[0]];
    assert Released(o.list, o.quota) == [] + [o.list[0]] && QueuedCount(o.list) == 0;
  }

  lemma SecondInFlight(c: Client)
    requires c.connected && c.lastMid == 1
    requires c.outgoing == Side([Message(0, 1, 1, WaitForPuback, false)], 1, 1, 1, 1)
    ensures Inflight(Next(c, DoPublish(1)).outgoing.list) == 2 && Next(c, DoPublish(1)).outgoing.max == 1
  {
    var a, b := Message(0, 1, 1, WaitForPuback, false), Message(1, 2, 1, Invalid, false);
    assert Enqueued(c, 1).outgoing == Side([a, b], 2, 1, 1, 2);
    assert [a, b][..1] == [a] && [a][..0] == [];
    assert Released([a, b], 1) == [a, Started(b)];
    assert [a, Started(b)][..1] == [a];
  }

  /** A PUBACK that names no message in flight gives quota back for nothing: with room for one message
      two are in flight. */
  lemma StrayAckOverfillsWindow()
    ensures PossibleRun(NewClient(true), OVERFULL)
    ensures
      var o := Run(NewClient(true), OVERFULL).outgoing;
      Inflight(o.list) == 2 && o.max == 1
  {
    WindowFills();
    var c := Run(NewClient(true), FULL);
    Extend(NewClient(true), FULL, RecvAck(1, 7, 0));
    StrayAck(c);
    Extend(NewClient(true), FULL + [RecvAck(1, 7, 0)], DoPublish(1));
    SecondInFlight(Next(c, RecvAck(1, 7, 0)));
    assert FULL + [RecvAck(1, 7, 0)] + [DoPublish(1)] == OVERFULL;
  }
}
