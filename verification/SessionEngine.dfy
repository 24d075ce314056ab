/**
 The message engine in the source's own form: an object with the two message lists, counters and
 quotas, and methods that walk the lists and update them. Every method is proved to compute the
 function of the same operation in SessionState.
 */
module SessionEngine {
  import opened SessionState
  import opened SessionSafety

  class Session {
    const v5: bool
    var connected: bool
    var active: bool
    var lastMid: nat

    var inList: seq<Message>
    var inLen: int
    var inQuota: int
    var inMax: nat
    var inSerial: nat

    var outList: seq<Message>
    var outLen: int
    var outQuota: int
    var outMax: nat
    var outSerial: nat

    var trace: seq<Event>

    function In(): Side
      reads this
    {
      Side(inList, inLen, inQuota, inMax, inSerial)
    }

    function Out(): Side
      reads this
    {
      Side(outList, outLen, outQuota, outMax, outSerial)
    }

    function State(): Client
      reads this
    {
      Client(v5, connected, active, lastMid, In(), Out(), trace)
    }

    constructor (v5: bool)
      ensures State() == NewClient(v5)
    {
      this.v5 := v5;
      connected, active, lastMid := false, false, 0;
      inList, inLen, inQuota, inMax, inSerial := [], 0, DEFAULT_MAXIMUM, DEFAULT_MAXIMUM, 0;
      outList, outLen, outQuota, outMax, outSerial := [], 0, DEFAULT_MAXIMUM, DEFAULT_MAXIMUM, 0;
      trace := [];
    }

    // ----- lib/util_dimq.c

    method IncrementSendQuota()
      modifies this`outQuota
      ensures Out() == Incremented(old(Out()))
    {
      if outQuota < outMax { outQuota := outQuota + 1; }
    }

    method DecrementSendQuota()
      modifies this`outQuota
      ensures Out() == Decremented(old(Out()))
    {
      if outQuota > 0 { outQuota := outQuota - 1; }
    }

    method IncrementReceiveQuota()
      modifies this`inQuota
      ensures In() == Incremented(old(In()))
    {
      if inQuota < inMax { inQuota := inQuota + 1; }
    }

    method DecrementReceiveQuota()
      modifies this`inQuota
      ensures In() == Decremented(old(In()))
    {
      if inQuota > 0 { inQuota := inQuota - 1; }
    }

    // ----- lib/messages_dimq.c

    /** message__release_to_inflight: walk the list, start waiting messages while there is quota,
        stop at the first transmission that fails. */
    method ReleaseToInflight() returns (rc: Status)
      modifies this`outList, this`outQuota, this`trace
      ensures State() == Release(old(State()))
      ensures rc == ReleaseStatus(old(Out()), connected)
    {
      ghost var goal := Outcome(Out(), connected, trace, 0);
      OutcomeIsRelease(Out(), connected, trace);
      var i := 0;
      while i < |outList|
        invariant 0 <= i <= |outList| && Outcome(Out(), connected, trace, i) == goal
      {
        var done;
        rc, done := ReleaseAt(i);
        if done { return; }
        i := i + 1;
      }
      rc := Success;
      OutcomeAtEnd(Out(), connected, trace);
    }

    /** One turn of the walk. */
    method ReleaseAt(i: nat) returns (rc: Status, done: bool)
      requires i < |outList|
      modifies this`outList, this`outQuota, this`trace
      ensures |outList| == |old(outList)|
      ensures Outcome(old(Out()), connected, old(trace), i)
           == if done then (Out(), trace, rc) else Outcome(Out(), connected, trace, i + 1)
    {
      rc, done := Success, outQuota <= 0;
      if outQuota > 0 && Queued(outList[i]) {
        var cur := outList[i];
        Start(i);
        rc := SendPublish(cur.serial, cur.mid, cur.dup);
        done := rc != Success;
        if !done {
          DecrementSendQuota();
          ghost var rest := Walk(Out(), connected, i + 1).1;
          assert (old(trace) + [SentPublish(cur.serial, cur.mid, cur.dup)]) + rest
              == old(trace) + ([SentPublish(cur.serial, cur.mid, cur.dup)] + rest);
        }
      }
      assert old(trace) + [] == old(trace);
    }

    /** The state a message is given just before its first transmission. */
    method Start(i: nat)
      requires i < |outList|
      modifies this`outList
      ensures outList == old(outList)[i := Started(old(outList)[i])]
    {
      if outList[i].qos == 1 {
        outList := outList[i := outList[i].(state := WaitForPuback)];
      } else if outList[i].qos == 2 {
        outList := outList[i := outList[i].(state := WaitForPubrec)];
      }
    }

    /** send__publish: it fails exactly when there is no socket. */
    method SendPublish(serial: nat, mid: nat, dup: bool) returns (rc: Status)
      modifies this`trace
      ensures rc == if connected then Success else ErrNoConn
      ensures trace == old(trace) + if connected then [SentPublish(serial, mid, dup)] else []
    {
      if !connected { return ErrNoConn; }
      trace := trace + [SentPublish(serial, mid, dup)];
      return Success;
    }

    /** message__queue for outgoing messages */
    method QueueOut(m: Message) returns (rc: Status)
      modifies this`outList, this`outLen, this`outQuota, this`trace
      ensures State() == Release(old(State().(outgoing := Appended(Out(), m))))
      ensures rc == ReleaseStatus(old(Appended(Out(), m)), connected)
    {
      outList := outList + [m];
      outLen := outLen + 1;
      assert Out() == Appended(old(Out()), m);
      rc := ReleaseToInflight();
    }

    /** message__queue for incoming messages: the release does nothing in this direction */
    method QueueIn(m: Message)
      modifies this`inList, this`inLen
      ensures In() == Appended(old(In()), m)
    {
      inList := inList + [m];
      inLen := inLen + 1;
    }

    /** The incoming half of message__reconnect_reset. */
    method ResetIncoming()
      modifies this`inList, this`inLen, this`inQuota
      ensures In() == ResetInSide(old(In()))
    {
      ghost var list := inList;
      inQuota := inMax;
      inLen := 0;
      var i := 0;
      while i < |inList|
        invariant 0 <= i <= |inList| && inLen + |inList| - i == |list|
        invariant inList[..i] + OnlyQos2(inList[i..]) == OnlyQos2(list)
        invariant inQuota == inMax - Min(i, inMax)
        decreases |inList| - i
      {
        inLen := inLen + 1;
        if inList[i].qos != 2 {
          DropsOne(inList, i);
          inList := inList[..i] + inList[i + 1..];
        } else {
          KeepsOne(inList, i);
          DecrementReceiveQuota();
          i := i + 1;
        }
      }
      assert inList[..i] == inList && inList[i..] == [];
    }

    static lemma DropsOne(ms: seq<Message>, i: nat)
      requires i < |ms| && ms[i].qos != 2
      ensures
        var r := ms[..i] + ms[i + 1..];
        r[..i] + OnlyQos2(r[i..]) == ms[..i] + OnlyQos2(ms[i..])
    {
      var r := ms[..i] + ms[i + 1..];
      assert r[..i] == ms[..i] && r[i..] == ms[i..][1..];
    }

    static lemma KeepsOne(ms: seq<Message>, i: nat)
      requires i < |ms| && ms[i].qos == 2
      ensures ms[..i + 1] + OnlyQos2(ms[i + 1..]) == ms[..i] + OnlyQos2(ms[i..])
    {
      assert ms[i + 1..] == ms[i..][1..] && ms[..i + 1] == ms[..i] + [ms[i]];
    }

    /** The outgoing half of message__reconnect_reset. */
    method ResetOutgoing(quotaOnly: bool)
      modifies this`outList, this`outLen, this`outQuota
      ensures Out() == ResetOutSide(old(Out()), quotaOnly)
    {
      ghost var list := outList;
      outQuota := outMax;
      outLen := 0;
      var i := 0;
      while i < |outList|
        invariant 0 <= i == outLen <= |outList| == |list|
        invariant outQuota == outMax - Min(i, outMax)
        invariant forall j | 0 <= j < i ::
                    outList[j] == if j < outMax then Restarted(list[j], quotaOnly) else list[j].(state := Invalid)
        invariant forall j | i <= j < |list| :: outList[j] == list[j]
      {
        var m := outList[i];
        outLen := outLen + 1;
        if outQuota != 0 {
          DecrementSendQuota();
          if !quotaOnly {
            if m.qos == 1 {
              outList := outList[i := m.(state := PublishQos1)];
            } else if m.qos == 2 {
              if m.state.WaitForPubrec? {
                outList := outList[i := m.(state := PublishQos2)];
              } else if m.state.WaitForPubcomp? {
                outList := outList[i := m.(state := ResendPubrel)];
              }
            }
          }
        } else {
          outList := outList[i := m.(state := Invalid)];
        }
        i := i + 1;
      }
    }

    /** message__reconnect_reset */
    method ReconnectReset(quotaOnly: bool)
      modifies this
      ensures State() == Reset(old(State()), quotaOnly)
    {
      ResetIncoming();
      ResetOutgoing(quotaOnly);
    }

    /** message__remove for outgoing messages; `m` is the record that was taken out. */
    method RemoveOut(mid: nat, qos: nat) returns (rc: Status, m: Message)
      modifies this`outList, this`outLen
      ensures Out() == Removed(old(Out()), mid, qos)
      ensures rc == RemoveStatus(old(outList), mid, qos)
      ensures rc.Success? ==> m == old(outList)[FirstMid(old(outList), mid)]
    {
      m := Message(0, 0, 0, Invalid, false);
      var i := 0;
      while i < |outList|
        invariant 0 <= i <= |outList|
        invariant outList == old(outList) && outLen == old(outLen)
        invariant forall j | 0 <= j < i :: outList[j].mid != mid
      {
        if outList[i].mid == mid {
          assert FirstMid(outList, mid) == i;
          if outList[i].qos != qos { return ErrProtocol, m; }
          m := outList[i];
          outList := outList[..i] + outList[i + 1..];
          outLen := outLen - 1;
          return Success, m;
        }
        i := i + 1;
      }
      return ErrNotFound, m;
    }

    /** message__remove for incoming messages, which the handlers call with QoS 2 */
    method RemoveIn(mid: nat) returns (rc: Status, m: Message)
      modifies this`inList, this`inLen
      ensures In() == Removed(old(In()), mid, 2)
      ensures rc == RemoveStatus(old(inList), mid, 2)
      ensures rc.Success? ==> m == old(inList)[FirstMid(old(inList), mid)]
    {
      m := Message(0, 0, 0, Invalid, false);
      var i := 0;
      while i < |inList|
        invariant 0 <= i <= |inList|
        invariant inList == old(inList) && inLen == old(inLen)
        invariant forall j | 0 <= j < i :: inList[j].mid != mid
      {
        if inList[i].mid == mid {
          assert FirstMid(inList, mid) == i;
          if inList[i].qos != 2 { return ErrProtocol, m; }
          m := inList[i];
          inList := inList[..i] + inList[i + 1..];
          inLen := inLen - 1;
          return Success, m;
        }
        i := i + 1;
      }
      return ErrNotFound, m;
    }

    /** message__out_update, which the handlers call with QoS 2. The PUBREC it records is entered
        in the trace here. */
    method OutUpdate(mid: nat, state: MsgState) returns (rc: Status)
      modifies this`outList, this`trace
      ensures Out() == Updated(old(Out()), mid, state)
      ensures trace == old(trace) + PubrecMatch(old(Out()), mid)
      ensures rc == RemoveStatus(old(outList), mid, 2)
    {
      var i := 0;
      while i < |outList|
        invariant 0 <= i <= |outList|
        invariant outList == old(outList) && trace == old(trace)
        invariant forall j | 0 <= j < i :: outList[j].mid != mid
      {
        if outList[i].mid == mid {
          assert FirstMid(outList, mid) == i;
          if outList[i].qos != 2 { return ErrProtocol; }
          trace := trace + [GotPubrec(outList[i].serial)];
          outList := outList[i := outList[i].(state := state)];
          return Success;
        }
        i := i + 1;
      }
      return ErrNotFound;
    }

    /** message__retry_check */
    method Retry()
      modifies this`outList, this`trace
      ensures State() == RetryCheck(old(State()))
    {
      ghost var list, tr := outList, trace;
      var i := 0;
      while i < |outList|
        invariant 0 <= i <= |outList| == |list|
        invariant forall j | 0 <= j < |list| :: outList[j] == if j < i then Retried(list[j]) else list[j]
        invariant trace == tr + RetryEvents(list[..i])
      {
        assert list[..i + 1][..i] == list[..i];
        assert (tr + RetryEvents(list[..i])) + RetryEvent(list[i]) == tr + (RetryEvents(list[..i]) + RetryEvent(list[i]));
        RetryAt(i);
        i := i + 1;
      }
      assert list[..i] == list;
      assert outList == RetryList(list);
    }

    /** What is sent again depends on the message's state. */
    method RetryAt(i: nat)
      requires i < |outList|
      modifies this`outList, this`trace
      ensures outList == old(outList)[i := Retried(old(outList)[i])]
      ensures trace == old(trace) + RetryEvent(old(outList)[i])
    {
      var m := outList[i];
      match m.state {
        case PublishQos1 | PublishQos2 =>
          outList := outList[i := m.(dup := true)];
          trace := trace + [SentPublish(m.serial, m.mid, true)];
        case WaitForPubrel =>
          outList := outList[i := m.(dup := true)];
          trace := trace + [SentPubrec(m.mid)];
        case ResendPubrel | WaitForPubcomp =>
          outList := outList[i := m.(dup := true)];
          trace := trace + [SentPubrel(m.mid)];
        case _ =>
      }
    }

    // ----- handlers and API calls

    /** dimq__mid_generate */
    method GenerateMid()
      modifies this`lastMid
      ensures lastMid == NextMid(old(lastMid)) && 1 <= lastMid <= UINT16_MAX
    {
      lastMid := (lastMid + 1) % 0x1_0000;
      if lastMid == 0 { lastMid := lastMid + 1; }
    }

    /** message__delete and the report to the application */
    method FinishOut(mid: nat, qos: nat) returns (rc: Status)
      modifies this`outList, this`outLen, this`trace
      ensures State() == Finish(old(State()), mid, qos)
      ensures rc == RemoveStatus(old(outList), mid, qos)
    {
      var m;
      rc, m := RemoveOut(mid, qos);
      if rc == Success { trace := trace + [Completed(m.serial)]; }
    }

    /** dimq_publish_v5 with QoS 1 or 2 */
    method PublishMessage(qos: nat) returns (rc: Status, mid: nat)
      requires qos == 1 || qos == 2
      modifies this
      ensures State() == Next(old(State()), DoPublish(qos)) && mid == lastMid
      ensures rc == ReleaseStatus(Enqueued(old(State()), qos).outgoing, connected)
    {
      GenerateMid();
      mid := lastMid;
      var m := Message(outSerial, mid, qos, Invalid, false);
      outSerial := outSerial + 1;
      assert State().(outgoing := Appended(Out(), m)) == Enqueued(old(State()), qos);
      rc := QueueOut(m);
    }

    /** handle__pubackcomp: `qos` is 1 for PUBACK and 2 for PUBCOMP */
    method HandlePubackComp(qos: nat, mid: nat, reason: nat) returns (rc: Status)
      requires qos == 1 || qos == 2
      modifies this
      ensures State() == Next(old(State()), RecvAck(qos, mid, reason))
      ensures rc == AckStatus(old(State()), qos, mid, reason)
    {
      if !active { return ErrProtocol; }
      IncrementSendQuota();
      if mid == 0 { return ErrProtocol; }
      if v5 {
        if qos == 1 {
          if !PubackReason(reason) { return ErrProtocol; }
        } else if !ReleaseReason(reason) { return ErrProtocol; }
      }
      assert State() == Credit(old(State()));
      rc := FinishOut(mid, qos);
      if rc != Success && rc != ErrNotFound { return rc; }
      assert State() == Finish(Credit(old(State())), mid, qos);
      var _ := ReleaseToInflight();
      return Success;
    }

    /** handle__pubrec */
    method HandlePubrec(mid: nat, reason: nat) returns (rc: Status)
      modifies this
      ensures State() == Next(old(State()), RecvPubrec(mid, reason))
      ensures rc == PubrecStatus(old(State()), mid, reason)
    {
      if !active { return ErrProtocol; }
      if mid == 0 { return ErrProtocol; }
      if v5 && !PubrecReason(reason) { return ErrProtocol; }
      if reason < 0x80 || !v5 {
        rc := OutUpdate(mid, WaitForPubcomp);
      } else {
        rc := FinishOut(mid, 2);
        IncrementSendQuota();
        assert State() == Credit(Finish(old(State()), mid, 2));
        var _ := ReleaseToInflight();
        return Success;
      }
      if rc != ErrNotFound && rc != Success { return rc; }
      trace := trace + [SentPubrel(mid)];
      assert State() == Received(old(State()), mid);
      return Success;
    }

    /** message__remove on a PUBREL, and the delivery of the record unless the reply failed */
    method TakeStored(mid: nat, deliver: bool) returns (rc: Status)
      modifies this`inList, this`inLen, this`trace
      ensures In() == Removed(old(In()), mid, 2)
      ensures trace == old(trace) + DeliveryOf(old(In()), mid, deliver)
      ensures rc == RemoveStatus(old(inList), mid, 2)
    {
      var m;
      rc, m := RemoveIn(mid);
      if rc == Success {
        trace := trace + [if deliver then Delivered(m.serial) else Dropped(m.serial)];
      }
    }

    /** handle__pubrel; `sendOk` stands for the outcome of send__pubcomp */
    method HandlePubrel(mid: nat, reason: nat, sendOk: bool) returns (rc: Status)
      modifies this
      ensures State() == Next(old(State()), RecvPubrel(mid, reason, sendOk))
      ensures rc == PubrelStatus(old(State()), mid, reason, sendOk)
    {
      if !active { return ErrProtocol; }
      if mid == 0 { return ErrProtocol; }
      if v5 && !ReleaseReason(reason) { return ErrProtocol; }
      IncrementReceiveQuota();
      ghost var d := In();
      assert d == Incremented(old(In())) && d.list == old(inList);
      if !sendOk {
        rc := TakeStored(mid, false);
        assert In() == Removed(d, mid, 2) && trace == old(trace) + ([] + DeliveryOf(old(In()), mid, false));
        return ErrSend;
      }
      trace := trace + [SentPubcomp(mid)];
      rc := TakeStored(mid, true);
      assert In() == Removed(d, mid, 2) && trace == old(trace) + ([SentPubcomp(mid)] + DeliveryOf(old(In()), mid, true));
      if rc == ErrNotFound { return Success; }
    }

    /** handle__publish */
    method HandlePublish(qos: nat, mid: nat, dup: bool) returns (rc: Status)
      modifies this
      ensures State() == Next(old(State()), RecvPublish(qos, mid, dup))
      ensures rc == IncomingStatus(old(State()), qos, mid)
    {
      if !active { return ErrProtocol; }
      if qos > 0 {
        if v5 && inQuota == 0 { return ErrProtocol; }
        if mid == 0 { return ErrProtocol; }
      }
      if qos == 0 {
        trace := trace + [DeliveredNow(0)];
      } else if qos == 1 {
        DecrementReceiveQuota();
        IncrementReceiveQuota();
        trace := trace + [SentPuback(mid)];
        trace := trace + [DeliveredNow(1)];
      } else if qos == 2 {
        DecrementReceiveQuota();
        trace := trace + [SentPubrec(mid)];
        QueueIn(Message(inSerial, mid, 2, WaitForPubrel, dup));
        inSerial := inSerial + 1;
      } else {
        return ErrProtocol;
      }
      return Success;
    }

    /** handle__connack; a negative `newMax` stands for a CONNACK without a Receive Maximum */
    method HandleConnack(reason: nat, newMax: int) returns (rc: Status)
      modifies this
      ensures State() == Next(old(State()), RecvConnack(reason, newMax))
      ensures rc == ConnackStatus(v5, reason, newMax)
    {
      if v5 && newMax == 0 { return ErrProtocol; }
      ghost var c := WithMaximum(State(), newMax);
      if v5 && newMax >= 0 { outMax := newMax; }
      outQuota := outMax;
      assert State() == c.(outgoing := c.outgoing.(quota := c.outgoing.max));
      ReconnectReset(true);
      assert State() == Reset(c, true);
      if reason == 0 {
        active := true;
        Retry();
        return Success;
      } else if reason <= 5 {
        return ErrConnRefused;
      } else {
        return ErrProtocol;
      }
    }

    /** dimq__reconnect, after dimq__connect_init for a fresh connection; `ok` stands for the
        outcome of opening the socket */
    method Reconnect(viaConnect: bool, ok: bool)
      modifies this
      ensures State() == Next(old(State()), DoReconnect(ok))
    {
      if viaConnect {
        inQuota := inMax;
        outQuota := outMax;
      }
      ReconnectReset(false);
      connected := ok;
      active := false;
    }

    /** dimq_int_option with dimq_OPT_SEND_MAXIMUM */
    method SetSendMaximum(value: int)
      modifies this`outMax
      ensures State() == Next(old(State()), DoSendMaximum(value))
    {
      if value < 0 || value > UINT16_MAX { return; }
      if value == 0 { outMax := UINT16_MAX; } else { outMax := value; }
    }
  }

  /** The walk of a release from position `i` on: the side it leaves and the packets it sends. */
  function Walk(o: Side, connected: bool, i: nat): (Side, seq<Event>)
    requires i <= |o.list|
    decreases |o.list| - i
  {
    if i == |o.list| || o.quota <= 0 then (o, [])
    else if !Queued(o.list[i]) then Walk(o, connected, i + 1)
    else
      var m, o1 := o.list[i], o.(list := o.list[i := Started(o.list[i])]);
      if !connected then (o1, [])
      else
        var (r, es) := Walk(Decremented(o1), connected, i + 1);
        (r, [SentPublish(m.serial, m.mid, m.dup)] + es)
  }

  function WalkStatus(o: Side, connected: bool, i: nat): Status
    requires i <= |o.list|
    decreases |o.list| - i
  {
    if i == |o.list| || o.quota <= 0 then Success
    else if !Queued(o.list[i]) then WalkStatus(o, connected, i + 1)
    else if !connected then ErrNoConn
    else WalkStatus(Decremented(o.(list := o.list[i := Started(o.list[i])])), connected, i + 1)
  }

  /** Where a walk from place i ends: the side, everything sent, and the status. */
  function Outcome(o: Side, connected: bool, trace: seq<Event>, i: nat): (Side, seq<Event>, Status)
    requires i <= |o.list|
  {
    (Walk(o, connected, i).0, trace + Walk(o, connected, i).1, WalkStatus(o, connected, i))
  }

  lemma OutcomeAtEnd(o: Side, connected: bool, trace: seq<Event>)
    ensures Outcome(o, connected, trace, |o.list|) == (o, trace, Success)
  {
    assert trace + [] == trace;
  }

  lemma OutcomeIsRelease(o: Side, connected: bool, trace: seq<Event>)
    ensures Outcome(o, connected, trace, 0)
         == (ReleaseSide(o, connected), trace + (if connected then ReleaseEvents(o.list, o.quota) else []), ReleaseStatus(o, connected))
  {
    WalkIsRelease(o, connected);
  }

  /** The list and quota of side `o` after a release has looked at its first `i` messages. */
  predicate Walked(o: Side, connected: bool, i: nat, list: seq<Message>, quota: int)
    requires i <= |o.list|
  {
    && list == Released(o.list[..i], ReleaseLimit(o, connected)) + o.list[i..]
    && (o.quota <= 0 ==> i == 0)
    && (o.quota > 0 ==> quota >= 0)
    && quota == o.quota - QueuedCount(o.list[..i])
    && (!connected ==> QueuedCount(o.list[..i]) == 0)
  }

  /** Looking at one more message while there is quota. */
  lemma WalkOn(o: Side, connected: bool, i: nat, list: seq<Message>, quota: int)
    requires i < |o.list| && Walked(o, connected, i, list, quota) && quota > 0
    ensures |list| == |o.list| && list[i] == o.list[i]
    ensures !Queued(list[i]) ==> Walked(o, connected, i + 1, list, quota)
    ensures Queued(list[i]) && connected ==> Walked(o, connected, i + 1, list[i := Started(list[i])], quota - 1)
    ensures Queued(list[i]) && !connected ==>
      && QueuedCount(o.list) > 0
      && ReleaseSide(o, connected) == o.(list := list[i := Started(list[i])], quota := quota)
    ensures ReleaseEvents(o.list[..i + 1], o.quota) == ReleaseEvents(o.list[..i], o.quota)
        + if Queued(list[i]) then [SentPublish(list[i].serial, list[i].mid, list[i].dup)] else []
  {
    var limit := ReleaseLimit(o, connected);
    assert o.list[..i + 1][..i] == o.list[..i];
    var item := if Queued(o.list[i]) then Started(o.list[i]) else o.list[i];
    assert Released(o.list[..i + 1], limit) == Released(o.list[..i], limit) + [item];
    assert list[i := item] == Released(o.list[..i + 1], limit) + o.list[i + 1..];
    if Queued(list[i]) && !connected { StopsAfter(o.list, i + 1, limit); }
  }

  /** The walk is over: at the end of the list, or when the quota is used up. */
  lemma WalkEnds(o: Side, connected: bool, i: nat, list: seq<Message>, quota: int)
    requires i <= |o.list| && Walked(o, connected, i, list, quota) && (i == |o.list| || quota <= 0)
    ensures ReleaseSide(o, connected) == o.(list := list, quota := quota)
    ensures connected ==> ReleaseEvents(o.list, o.quota) == ReleaseEvents(o.list[..i], o.quota)
    ensures ReleaseStatus(o, connected) == Success
  {
    if i == |o.list| {
      assert o.list[..i] == o.list;
    } else {
      StopsAfter(o.list, i, ReleaseLimit(o, connected));
      StopsEvents(o.list, i, o.quota);
    }
  }

  /** Once as many messages have been started as may be, the rest of the list stays as it is. */
  lemma StopsAfter(list: seq<Message>, i: nat, limit: int)
    requires i <= |list| && QueuedCount(list[..i]) >= limit
    ensures Released(list, limit) == Released(list[..i], limit) + list[i..]
    ensures QueuedCount(list) >= QueuedCount(list[..i])
  {
    QueuedPrefix(list, i, |list|);
    assert list[..|list|] == list;
    ReleasedPrefix(list, limit, i);
    forall j | i <= j < |list| ensures Released(list, limit)[j] == list[j] {
      QueuedPrefix(list, i, j);
      ReleasedAt(list, limit, j);
    }
  }

  lemma {:induction false} StopsEvents(list: seq<Message>, i: nat, limit: int)
    requires i <= |list| && QueuedCount(list[..i]) >= limit
    ensures ReleaseEvents(list, limit) == ReleaseEvents(list[..i], limit)
    decreases |list|
  {
    if i == |list| {
      assert list[..i] == list;
    } else {
      var k := |list| - 1;
      assert list[..k][..i] == list[..i];
      StopsEvents(list[..k], i, limit);
      QueuedPrefix(list, i, k);
    }
  }

  /** What is left of the walk, from place i with this list and quota, ends as the release does. */
  predicate WalksTo(o: Side, connected: bool, i: nat, list: seq<Message>, quota: int)
    requires i <= |o.list| == |list|
  {
    var o' := o.(list := list, quota := quota);
    && Walk(o', connected, i).0 == ReleaseSide(o, connected)
    && (connected ==> ReleaseEvents(o.list[..i], o.quota) + Walk(o', connected, i).1 == ReleaseEvents(o.list, o.quota))
    && (!connected ==> Walk(o', connected, i).1 == [])
    && WalkStatus(o', connected, i) == ReleaseStatus(o, connected)
  }

  lemma WalkSends(o: Side, i: nat, list: seq<Message>, quota: int)
    requires i < |o.list| == |list| && quota > 0 && Queued(list[i])
    requires ReleaseEvents(o.list[..i + 1], o.quota)
          == ReleaseEvents(o.list[..i], o.quota) + [SentPublish(list[i].serial, list[i].mid, list[i].dup)]
    requires WalksTo(o, true, i + 1, list[i := Started(list[i])], quota - 1)
    ensures WalksTo(o, true, i, list, quota)
  {
    var m, list' := list[i], list[i := Started(list[i])];
    var es := Walk(o.(list := list', quota := quota - 1), true, i + 1).1;
    assert Decremented(o.(list := list', quota := quota)) == o.(list := list', quota := quota - 1);
    assert Walk(o.(list := list, quota := quota), true, i).1 == [SentPublish(m.serial, m.mid, m.dup)] + es;
    assert ReleaseEvents(o.list[..i], o.quota) + ([SentPublish(m.serial, m.mid, m.dup)] + es)
        == ReleaseEvents(o.list[..i + 1], o.quota) + es;
  }

  lemma {:induction false} WalkFrom(o: Side, connected: bool, i: nat, list: seq<Message>, quota: int)
    requires i <= |o.list| && Walked(o, connected, i, list, quota)
    ensures |list| == |o.list| && WalksTo(o, connected, i, list, quota)
    decreases |o.list| - i
  {
    if i == |o.list| || quota <= 0 {
      WalkStops(o, connected, i, list, quota);
    } else {
      WalkOn(o, connected, i, list, quota);
      if !Queued(list[i]) {
        WalkFrom(o, connected, i + 1, list, quota);
        WalkSkips(o, connected, i, list, quota);
      } else if connected {
        WalkFrom(o, connected, i + 1, list[i := Started(list[i])], quota - 1);
        WalkSends(o, i, list, quota);
      } else {
        WalkFails(o, i, list, quota);
      }
    }
  }

  lemma WalkStops(o: Side, connected: bool, i: nat, list: seq<Message>, quota: int)
    requires i <= |o.list| && Walked(o, connected, i, list, quota) && (i == |o.list| || quota <= 0)
    ensures |list| == |o.list| && WalksTo(o, connected, i, list, quota)
  {
    WalkEnds(o, connected, i, list, quota);
    assert |list| == |o.list|;
    assert Walk(o.(list := list, quota := quota), connected, i) == (o.(list := list, quota := quota), []);
    assert ReleaseEvents(o.list[..i], o.quota) + [] == ReleaseEvents(o.list[..i], o.quota);
  }

  lemma WalkSkips(o: Side, connected: bool, i: nat, list: seq<Message>, quota: int)
    requires i < |o.list| == |list| && quota > 0 && !Queued(list[i])
    requires ReleaseEvents(o.list[..i + 1], o.quota) == ReleaseEvents(o.list[..i], o.quota) + []
    requires WalksTo(o, connected, i + 1, list, quota)
    ensures WalksTo(o, connected, i, list, quota)
  {
    var o' := o.(list := list, quota := quota);
    assert Walk(o', connected, i) == Walk(o', connected, i + 1);
    assert ReleaseEvents(o.list[..i], o.quota) + [] == ReleaseEvents(o.list[..i], o.quota);
  }

  lemma WalkFails(o: Side, i: nat, list: seq<Message>, quota: int)
    requires i < |o.list| == |list| && quota > 0 && o.quota > 0 && Queued(list[i]) && QueuedCount(o.list) > 0
    requires ReleaseSide(o, false) == o.(list := list[i := Started(list[i])], quota := quota)
    ensures WalksTo(o, false, i, list, quota)
  {
    assert Walk(o.(list := list, quota := quota), false, i) == (o.(list := list[i := Started(list[i])], quota := quota), []);
  }

  lemma WalkIsRelease(o: Side, connected: bool)
    ensures Walk(o, connected, 0).0 == ReleaseSide(o, connected)
    ensures Walk(o, connected, 0).1 == if connected then ReleaseEvents(o.list, o.quota) else []
    ensures WalkStatus(o, connected, 0) == ReleaseStatus(o, connected)
  {
    assert o.list[..0] == [] && o.(list := o.list, quota := o.quota) == o;
    WalkFrom(o, connected, 0, o.list, o.quota);
  }
}
