/** The agent's send queue (conn_msg.c) and the sender that drains it (conn_ws.c). */
module AgentQueue {
  import opened Wrappers
  import opened Model

  // ---------- The objects ----------

  datatype SendResult = Nothing | Sent(frame: seq<Msg>) | Dropped(frame: seq<Msg>) | Failed

  class Conn {
    var sendMsgs: seq<Msg>
    /** Registered callbacks: topic and function. */
    var recvCbs: seq<(string, int)>

    constructor ()
      ensures sendMsgs == [] && recvCbs == []
    {
      sendMsgs, recvCbs := [], [];
    }

    method MsgAdd(m: Msg)
      modifies this`sendMsgs
      ensures sendMsgs == old(sendMsgs) + [m]
    {
      sendMsgs := sendMsgs + [m];
    }

    method Sub(topic: string, func: int)
      modifies this
      ensures recvCbs == old(recvCbs) + [(topic, func)]
      ensures sendMsgs == old(sendMsgs) + [Msg(SUB, topic, None, None, None, None)]
    {
      recvCbs := recvCbs + [(topic, func)];
      MsgAdd(Msg(SUB, topic, None, None, None, None));
    }

    /** Removes the first registration of the pair; only then is the topic unsubscribed. */
    method Unsub(topic: string, func: int)
      modifies this
      ensures (topic, func) !in old(recvCbs) ==> recvCbs == old(recvCbs) && sendMsgs == old(sendMsgs)
      ensures (topic, func) in old(recvCbs) ==>
                && sendMsgs == old(sendMsgs) + [Msg(UNSUB, topic, None, None, None, None)]
                && exists i :: 0 <= i < |old(recvCbs)| && old(recvCbs)[i] == (topic, func)
                               && (topic, func) !in old(recvCbs)[..i]
                               && recvCbs == old(recvCbs)[..i] + old(recvCbs)[i + 1..]
    {
      var i := 0;
      while i < |recvCbs| && recvCbs[i] != (topic, func)
        invariant 0 <= i <= |recvCbs| && (topic, func) !in recvCbs[..i]
      {
        i := i + 1;
      }
      if i < |recvCbs| {
        recvCbs := recvCbs[..i] + recvCbs[i + 1..];
        MsgAdd(Msg(UNSUB, topic, None, None, None, None));
      } else {
        assert recvCbs[..i] == recvCbs;
      }
    }

    /** One call of the sender. Encoding may fail, which frees the batch; sending may fail, which puts
        it back behind whatever producers enqueued meanwhile. */
    method WsSend(encodes: bool, sends: bool, meanwhile: seq<Msg>) returns (r: SendResult)
      modifies this`sendMsgs
      ensures old(sendMsgs) == [] ==> r == Nothing && sendMsgs == []
      ensures old(sendMsgs) != [] ==>
                match r
                case Nothing => false
                case Sent(f) => encodes && sends && f == old(sendMsgs) && sendMsgs == meanwhile
                case Dropped(f) => !encodes && f == old(sendMsgs) && sendMsgs == meanwhile
                case Failed => encodes && !sends && sendMsgs == meanwhile + old(sendMsgs)
    {
      var msgs := sendMsgs;
      if msgs == [] {
        return Nothing;
      }
      sendMsgs := [];
      var i := 0;
      while i < |meanwhile|
        invariant 0 <= i <= |meanwhile| && sendMsgs == meanwhile[..i]
      {
        MsgAdd(meanwhile[i]);
        i := i + 1;
      }
      if !encodes {
        return Dropped(msgs);
      } else if !sends {
        sendMsgs := sendMsgs + msgs;
        return Failed;
      }
      return Sent(msgs);
    }
  }

  // ---------- Producers and the sender, interleaved ----------

  /** Messages are named by their position in the order of enqueueing. */
  datatype Queue = Queue(added: nat, queued: seq<nat>, inFlight: Option<seq<nat>>, sent: seq<nat>, dropped: seq<nat>)

  datatype Step = Add | Take | SendOk | SendFail | EncodeFail

  predicate CanStep(q: Queue, s: Step)
  {
    match s
    case Add => true
    case Take => q.inFlight.None? && q.queued != []
    case _ => q.inFlight.Some?
  }

  function After(q: Queue, s: Step): Queue
    requires CanStep(q, s)
  {
    match s
    case Add => q.(added := q.added + 1, queued := q.queued + [q.added])
    case Take => q.(queued := [], inFlight := Some(q.queued))
    case SendOk => q.(inFlight := None, sent := q.sent + q.inFlight.value)
    case SendFail => q.(inFlight := None, queued := q.queued + q.inFlight.value)
    case EncodeFail => q.(inFlight := None, dropped := q.dropped + q.inFlight.value)
  }

  const EMPTY := Queue(0, [], None, [], [])

  ghost predicate IsRun(ss: seq<Step>)
  {
    ss == [] || (IsRun(ss[..|ss| - 1]) && CanStep(Run(ss[..|ss| - 1]), ss[|ss| - 1]))
  }

  function Run(ss: seq<Step>): Queue
  {
    if ss == [] then EMPTY
    else
      var q := Run(ss[..|ss| - 1]);
      if CanStep(q, ss[|ss| - 1]) then After(q, ss[|ss| - 1]) else q
  }

  function Flight(q: Queue): seq<nat> { if q.inFlight.Some? then q.inFlight.value else [] }

  /** Everything still known, in the order in which it leaves. */
  function Line(q: Queue): seq<nat> { q.sent + Flight(q) + q.queued }

  function Upto(n: nat): seq<nat> { if n == 0 then [] else Upto(n - 1) + [n - 1] }

  /** Where messages can be. */
  function Places(q: Queue): multiset<nat>
  {
    multiset(q.queued) + multiset(Flight(q)) + multiset(q.sent) + multiset(q.dropped)
  }

  lemma NoPlaces()
    ensures Places(EMPTY) == multiset{} && Upto(0) == []
  {
  }

  /** Nothing is lost or duplicated: each enqueued message is queued, in flight, sent, or was dropped by
      a failed encoding, exactly once. */
  lemma {:induction false} Conserved(ss: seq<Step>)
    ensures var q := Run(ss);
            multiset(Upto(q.added)) == Places(q)
  {
    hide CanStep, After, Places;
    if ss == [] {
      NoPlaces();
    } else {
      Conserved(ss[..|ss| - 1]);
      var q := Run(ss[..|ss| - 1]);
      if CanStep(q, ss[|ss| - 1]) {
        StepConserves(q, ss[|ss| - 1]);
      }
    }
  }

  /** A step moves messages between the four places, or adds one to the queue. */
  lemma StepConserves(q: Queue, s: Step)
    requires CanStep(q, s)
    ensures var q' := After(q, s);
            && (s.Add? ==> q'.added == q.added + 1 && Places(q') == Places(q) + multiset{q.added})
            && (!s.Add? ==> q'.added == q.added && Places(q') == Places(q))
  {
  }

  // ---------- The steps and the sender's method ----------

  /** The messages that the positions stand for. */
  function Named(ids: seq<nat>, all: seq<Msg>): (ms: seq<Msg>)
    requires forall i :: 0 <= i < |ids| ==> ids[i] < |all|
    ensures |ms| == |ids| && forall i :: 0 <= i < |ids| ==> ms[i] == all[ids[i]]
  {
    seq(|ids|, i requires 0 <= i < |ids| => all[ids[i]])
  }

  /** Producers enqueue `k` messages. */
  function Added(q: Queue, k: nat): Queue
  {
    if k == 0 then q else After(Added(q, k - 1), Add)
  }

  lemma {:induction false} AddedAre(q: Queue, k: nat)
    requires q.queued == []
    ensures var m := Added(q, k);
            && m == q.(added := q.added + k, queued := m.queued) && |m.queued| == k
            && forall i :: 0 <= i < k ==> m.queued[i] == q.added + i
  {
    if k > 0 {
      AddedAre(q, k - 1);
    }
  }

  /** One call of WsSend is a Take, an Add for each message enqueued meanwhile, and an outcome: what the call
      leaves in the queue is what these steps leave there, and the frame is what they take. */
  lemma WsSendIsSteps(q: Queue, all: seq<Msg>, meanwhile: seq<Msg>)
    requires q.inFlight.None? && q.queued != [] && q.added == |all|
    requires forall i :: 0 <= i < |q.queued| ==> q.queued[i] < q.added
    ensures var m, all' := Added(After(q, Take), |meanwhile|), all + meanwhile;
            && m.added == |all'| && m.inFlight == Some(q.queued)
            && (forall i :: 0 <= i < |m.queued| ==> m.queued[i] < |all'|)
            && (forall i :: 0 <= i < |m.queued + q.queued| ==> (m.queued + q.queued)[i] < |all'|)
            && Named(q.queued, all') == Named(q.queued, all)
            && After(m, SendOk) == m.(inFlight := None, sent := q.sent + q.queued)
            && After(m, EncodeFail) == m.(inFlight := None, dropped := q.dropped + q.queued)
            && After(m, SendFail) == m.(inFlight := None, queued := m.queued + q.queued)
            && Named(m.queued, all') == meanwhile
            && Named(m.queued + q.queued, all') == meanwhile + Named(q.queued, all)
  {
    hide Added, Named;
    AddedAre(After(q, Take), |meanwhile|);
    var m := Added(After(q, Take), |meanwhile|);
    NamedPieces(m.queued, q.queued, all, meanwhile);
  }

  lemma NamedPieces(fresher: seq<nat>, older: seq<nat>, all: seq<Msg>, more: seq<Msg>)
    requires |fresher| == |more| && forall i :: 0 <= i < |more| ==> fresher[i] == |all| + i
    requires forall i :: 0 <= i < |older| ==> older[i] < |all|
    ensures forall i :: 0 <= i < |fresher + older| ==> (fresher + older)[i] < |all + more|
    ensures Named(fresher, all + more) == more && Named(older, all + more) == Named(older, all)
    ensures Named(fresher + older, all + more) == more + Named(older, all)
  {
    assert forall i :: 0 <= i < |older| ==> (fresher + older)[|fresher| + i] == older[i];
  }

  // ---------- Order ----------

  ghost predicate Increasing(s: seq<nat>)
  {
    forall i, j :: 0 <= i < j < |s| ==> s[i] < s[j]
  }

  /** A failed send found newer messages in the queue. */
  ghost predicate Overtaken(ss: seq<Step>)
  {
    if ss == [] then false
    else
      var n := |ss| - 1;
      Overtaken(ss[..n]) || (ss[n].SendFail? && Run(ss[..n]).inFlight.Some? && Run(ss[..n]).queued != [])
  }

  /** What is queued while a batch is in flight was enqueued after that batch. */
  ghost predicate Newer(q: Queue)
  {
    && (forall i :: 0 <= i < |Line(q)| ==> Line(q)[i] < q.added)
    && (q.inFlight.Some? ==> q.inFlight.value != [] && Before(q.inFlight.value, q.queued))
  }

  ghost predicate Before(a: seq<nat>, b: seq<nat>)
  {
    forall i, j :: 0 <= i < |a| && 0 <= j < |b| ==> a[i] < b[j]
  }

  lemma StepNewer(q: Queue, s: Step)
    requires CanStep(q, s) && Newer(q)
    ensures Newer(After(q, s))
  {
    var q' := After(q, s);
    forall i | 0 <= i < |Line(q')| ensures Line(q')[i] < q'.added {
      assert Line(q')[i] in q.sent || Line(q')[i] in Flight(q) || Line(q')[i] in q.queued || Line(q')[i] == q.added;
      LineHas(q, Line(q')[i]);
    }
    if s.Add? && q.inFlight.Some? {
      forall i | 0 <= i < |q.inFlight.value| ensures q.inFlight.value[i] < q.added {
        LineHas(q, q.inFlight.value[i]);
      }
    }
  }

  lemma LineHas(q: Queue, x: nat)
    ensures x in Line(q) <==> x in q.sent || x in Flight(q) || x in q.queued
    ensures Newer(q) && x in Line(q) ==> x < q.added
  {
  }

  lemma {:induction false} AlwaysNewer(ss: seq<Step>)
    ensures Newer(Run(ss))
  {
    if ss != [] {
      AlwaysNewer(ss[..|ss| - 1]);
      var q := Run(ss[..|ss| - 1]);
      if CanStep(q, ss[|ss| - 1]) {
        StepNewer(q, ss[|ss| - 1]);
      }
    }
  }

  /** One step keeps the line in order unless it puts a batch back behind newer messages, and never
      restores an order that was lost. */
  lemma StepOrder(q: Queue, s: Step)
    requires CanStep(q, s) && Newer(q) && !s.EncodeFail?
    ensures Increasing(Line(After(q, s))) <==> Increasing(Line(q)) && !(s.SendFail? && q.queued != [])
  {
    var q' := After(q, s);
    match s
    case Add =>
      assert Line(q') == Line(q) + [q.added];
      assert forall i :: 0 <= i < |Line(q)| ==> Line(q')[i] == Line(q)[i];
    case Take =>
      assert Line(q') == Line(q);
    case SendOk =>
      assert Line(q') == Line(q);
    case SendFail =>
      var a, f, b := q.sent, q.inFlight.value, q.queued;
      assert Line(q) == a + f + b && Line(q') == a + (b + f);
      if b == [] {
        assert Line(q') == Line(q);
      } else {
        var x, y := |a|, |a| + |b|;
        assert Line(q')[x] == b[0] && Line(q')[y] == f[0];
      }
  }

  /** Without a failed encoding, messages leave in the order they were enqueued if and only if no send
      failed while newer messages were already queued. */
  lemma {:induction false} InOrder(ss: seq<Step>)
    requires IsRun(ss) && EncodeFail !in ss
    ensures Increasing(Line(Run(ss))) <==> !Overtaken(ss)
  {
    hide Increasing, Newer, After, Line;
    if ss != [] {
      var n := |ss| - 1;
      InOrder(ss[..n]);
      AlwaysNewer(ss[..n]);
      StepOrder(Run(ss[..n]), ss[n]);
    } else {
      NoLine();
    }
  }

  /** A failed send while a newer message was queued: the newer one leaves first. */
  lemma {:induction false} FailedSendReorders()
    ensures var ss := [Add, Take, Add, SendFail, Take, SendOk]; IsRun(ss) && Run(ss).sent == [1, 0]
  {
    var ss := [Add, Take, Add, SendFail, Take, SendOk];
    assert ss[..1] == [Add] && [Add][..0] == [];
    assert ss[..2][..1] == ss[..1] && ss[..3][..2] == ss[..2] && ss[..4][..3] == ss[..3] && ss[..5][..4] == ss[..4];
    assert Run(ss[..1]) == EMPTY.(added := 1, queued := [0]);
    assert Run(ss[..2]) == EMPTY.(added := 1, inFlight := Some([0]));
    assert Run(ss[..3]) == EMPTY.(added := 2, queued := [1], inFlight := Some([0]));
    assert Run(ss[..4]) == EMPTY.(added := 2, queued := [1, 0]);
    assert Run(ss[..5]) == EMPTY.(added := 2, inFlight := Some([1, 0]));
    assert IsRun(ss[..2]) && IsRun(ss[..4]);
  }

  lemma NoLine()
    ensures Increasing(Line(EMPTY))
  {
  }

  /** On a run in which nothing failed, what was sent, is in flight and is queued is, in that order, exactly
      the sequence that was enqueued. */
  lemma {:induction false} FirstInFirstOut(ss: seq<Step>)
    requires IsRun(ss) && EncodeFail !in ss && !Overtaken(ss)
    ensures Line(Run(ss)) == Upto(Run(ss).added)
  {
    if ss != [] {
      FirstInFirstOut(ss[..|ss| - 1]);
    }
  }
}
