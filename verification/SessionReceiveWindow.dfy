/**
 The receive quota against the stored records. Every PUBREL that is accepted gives quota back, also
 one that names no stored record; apart from those the quota is exactly what the Receive Maximum
 leaves, and a reset brings it back to that.
 */
module SessionReceiveWindow {
  import opened SessionState
  import opened SessionTheorems
  import opened SessionReceiver

  /** Quota and stored records make up the maximum. */
  predicate Balanced(d: Side) { d.quota + |d.list| == d.max }

  /** There is never less quota than the stored records leave. */
  predicate Enough(d: Side) { 0 <= d.quota <= d.max <= d.quota + |d.list| }

  /** The PUBREL is accepted and names no stored record, while there are others. */
  predicate StrayPubrel(c: Client, s: Step)
  {
    && s.RecvPubrel? && PubrelAccepted(c, s.mid, s.reason)
    && FirstMid(c.incoming.list, s.mid) == |c.incoming.list| && c.incoming.list != []
  }

  /** A PUBLISH taken without any quota left; MQTT 5.0 does not allow it. */
  predicate TakenWithoutQuota(c: Client, s: Step)
  {
    s.RecvPublish? && !IncomingRefused(c, s.qos, s.mid) && s.qos > 0 && c.incoming.quota == 0
  }

  /** A reset makes quota and stored records equal the maximum when the records fit; otherwise there
      is no quota. */
  lemma ResetBalances(d: Side)
    requires InOk(d)
    ensures ResetInSide(d).list == d.list && ResetInSide(d).max == d.max
    ensures Balanced(ResetInSide(d)) <==> |d.list| <= d.max
    ensures |d.list| > d.max ==> ResetInSide(d).quota == 0
  {
    OnlyQos2Keeps(d.list);
  }

  lemma PubrelBalance(c: Client, mid: nat, reason: nat, sendOk: bool)
    requires Typed(c)
    ensures
      var d, s := PubrelStep(c, mid, reason, sendOk).incoming, RecvPubrel(mid, reason, sendOk);
      && (Balanced(c.incoming) ==> (Balanced(d) <==> !StrayPubrel(c, s)))
      && (Enough(c.incoming) ==> Enough(d))
  {
    if PubrelAccepted(c, mid, reason) {
      var k := FirstMid(c.incoming.list, mid);
      if k < |c.incoming.list| { assert InTyped(c.incoming.list[k]); }
    }
  }

  lemma IncomingBalance(c: Client, qos: nat, mid: nat, dup: bool)
    requires Typed(c)
    ensures
      var d, s := IncomingStep(c, qos, mid, dup).incoming, RecvPublish(qos, mid, dup);
      && (Balanced(c.incoming) && 0 < c.incoming.max ==> (Balanced(d) <==> !TakenWithoutQuota(c, s)))
      && (Enough(c.incoming) ==> Enough(d))
  {
    if !IncomingRefused(c, qos, mid) { if qos == 0 {} else if qos == 1 {} else {} }
  }

  lemma ResetSteps(c: Client, s: Step)
    requires Typed(c) && (s.DoReconnect? || s.RecvConnack?)
    ensures Enough(c.incoming) ==> Enough(Next(c, s).incoming)
    ensures Balanced(c.incoming) ==> Balanced(Next(c, s).incoming)
  {
    ResetBalances(c.incoming);
    if s.RecvConnack? && !ConnackRefused(c.v5, s.newMax) {
      assert ConnackStep(c, s.reason, s.newMax).incoming == ResetInSide(c.incoming);
    }
  }

  /** The two steps that unbalance the quota, and no others. */
  lemma BalanceIff(c: Client, s: Step)
    requires Typed(c) && 0 < c.incoming.max
    ensures Balanced(c.incoming) ==> (Balanced(Next(c, s).incoming) <==> !StrayPubrel(c, s) && !TakenWithoutQuota(c, s))
    ensures Enough(c.incoming) ==> Enough(Next(c, s).incoming)
    ensures Next(c, s).incoming.max == c.incoming.max && Next(c, s).v5 == c.v5
  {
    match s
    case RecvPublish(qos, mid, dup) => IncomingBalance(c, qos, mid, dup);
    case RecvPubrel(mid, reason, sendOk) => PubrelBalance(c, mid, reason, sendOk);
    case RecvPubrec(mid, reason) => OutgoingSteps(c, s);
    case RecvAck(qos, mid, reason) => OutgoingSteps(c, s);
    case DoPublish(_) => OutgoingSteps(c, s);
    case RecvConnack(_, _) => ResetSteps(c, s);
    case DoReconnect(_) => ResetSteps(c, s);
    case DoSendMaximum(_) =>
    case SocketLost =>
  }

  ghost predicate NoStray(c: Client, steps: seq<Step>)
  {
    steps != [] ==>
      && NoStray(c, steps[..|steps| - 1])
      && !StrayPubrel(Run(c, steps[..|steps| - 1]), steps[|steps| - 1])
  }

  /** Over every run the quota is at least what the stored records leave of the maximum. */
  lemma {:induction false} QuotaIsEnough(v5: bool, steps: seq<Step>)
    requires PossibleRun(NewClient(v5), steps)
    ensures
      var c := Run(NewClient(v5), steps);
      Enough(c.incoming) && c.incoming.max == DEFAULT_MAXIMUM && c.v5 == v5
  {
    if steps != [] {
      var front := steps[..|steps| - 1];
      QuotaIsEnough(v5, front);
      TypedAlways(v5, front);
      BalanceIff(Run(NewClient(v5), front), steps[|steps| - 1]);
    }
  }

  /** In MQTT 5.0, while the broker sends no stray PUBREL, it is exactly that. */
  lemma {:induction false} QuotaIsExact(steps: seq<Step>)
    requires PossibleRun(NewClient(true), steps) && NoStray(NewClient(true), steps)
    ensures Balanced(Run(NewClient(true), steps).incoming)
  {
    if steps != [] {
      var front, s := steps[..|steps| - 1], steps[|steps| - 1];
      var c := Run(NewClient(true), front);
      QuotaIsExact(front);
      QuotaIsEnough(true, front);
      TypedAlways(true, front);
      BalanceIff(c, s);
    }
  }

  /** Then a QoS 2 PUBLISH with an identifier is stored exactly when fewer records than the Receive
      Maximum are. */
  lemma StoredIffRoom(steps: seq<Step>, mid: nat, dup: bool)
    requires PossibleRun(NewClient(true), steps) && NoStray(NewClient(true), steps)
    requires Run(NewClient(true), steps).active && mid != 0
    ensures
      var c := Run(NewClient(true), steps);
      |Next(c, RecvPublish(2, mid, dup)).incoming.list| == |c.incoming.list| + 1 <==> |c.incoming.list| < DEFAULT_MAXIMUM
  {
    QuotaIsExact(steps);
    QuotaIsEnough(true, steps);
  }
}
