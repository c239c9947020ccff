/** What the record table guarantees over every run of puts and scans. */
module DevdbRuns {
  import opened Wrappers
  import opened Devdb
  import opened Model

  /** One publication of a record: which, at which version of its value, with which value, when, and
      the message handed to the send queue. */
  datatype Pub = Pub(rec: nat, version: nat, value: string, time: int, msg: Msg)

  /** The table with its history: how often each record's value changed, and what was published. */
  datatype History = History(recs: seq<Rec>, versions: seq<nat>, log: seq<Pub>)

  datatype Event = Put(e: Entry, now: int) | Scan(now: int)

  function Version(h: History, i: nat): nat
  {
    if i < |h.versions| then h.versions[i] else 0
  }

  function PutH(h: History, e: Entry, now: int): History
  {
    var i := Find(h.recs, e);
    var versions :=
      if i >= |h.recs| then h.versions + [0]
      else if i < |h.versions| && h.recs[i].value != e.value then h.versions[i := h.versions[i] + 1]
      else h.versions;
    h.(recs := PutRec(h.recs, e, now), versions := versions)
  }

  /** The scan reaches record `i`. */
  function ScanOne(h: History, i: nat, now: int): History
    requires i < |h.recs|
  {
    if Due(h.recs[i], now) then
      h.(recs := h.recs[i := h.recs[i].(sentAt := now)],
         log := h.log + [Pub(i, Version(h, i), h.recs[i].value, now, RecordMsg(h.recs[i]))])
    else h
  }

  function ScanH(h: History, n: nat, now: int): (r: History)
    requires n <= |h.recs|
    ensures |r.recs| == |h.recs| && r.versions == h.versions
  {
    if n == 0 then h else ScanOne(ScanH(h, n - 1, now), n - 1, now)
  }

  function After(h: History, e: Event): History
  {
    match e
    case Put(entry, now) => PutH(h, entry, now)
    case Scan(now) => ScanH(h, |h.recs|, now)
  }

  function Run(es: seq<Event>): History
  {
    if es == [] then History([], [], []) else After(Run(es[..|es| - 1]), es[|es| - 1])
  }

  /** The clock never goes back, starts at the interval or later, and stays below its limit. */
  ghost predicate ClockOk(es: seq<Event>)
  {
    && (forall i :: 0 <= i < |es| ==> MAX_SEND_INTERVAL <= es[i].now < CLOCK_LIMIT)
    && (forall i, j :: 0 <= i < j < |es| ==> es[i].now <= es[j].now)
  }

  /** The step-by-step scan is the scan of the table. */
  lemma {:induction false} ScanHIsScan(h: History, n: nat, now: int)
    requires n <= |h.recs|
    ensures ScanH(h, n, now).recs == Scanned(h.recs[..n], now) + h.recs[n..]
  {
    hide Due, RecordMsg;
    if n > 0 {
      ScanHIsScan(h, n - 1, now);
      var r := ScanH(h, n - 1, now).recs;
      assert r[n - 1] == h.recs[n - 1];
      assert Scanned(h.recs[..n], now) == Scanned(h.recs[..n - 1], now) + [Scanned(h.recs[..n], now)[n - 1]];
    }
  }

  function LogMsgs(log: seq<Pub>): (r: seq<Msg>)
    ensures |r| == |log|
  {
    seq(|log|, i requires 0 <= i < |log| => log[i].msg)
  }

  /** The history records exactly the messages that the scan hands to the send queue. */
  lemma {:induction false} ScanHLogsMsgs(h: History, n: nat, now: int)
    requires n <= |h.recs|
    ensures LogMsgs(ScanH(h, n, now).log) == LogMsgs(h.log) + ScanMsgs(h.recs[..n], now)
  {
    hide Due, RecordMsg;
    if n > 0 {
      var before := ScanH(h, n - 1, now);
      ScanHLogsMsgs(h, n - 1, now);
      ScanHIsScan(h, n - 1, now);
      assert before.recs[n - 1] == h.recs[n - 1];
      ScanMsgsStep(h.recs, now, n - 1);
      var after := ScanH(h, n, now);
      if Due(h.recs[n - 1], now) {
        assert LogMsgs(after.log) == LogMsgs(before.log) + [RecordMsg(h.recs[n - 1])];
      }
    } else {
      NothingToScan(now);
    }
  }

  /** The last publication of a record. */
  function LastPub(log: seq<Pub>, i: nat): Option<Pub>
  {
    if log == [] then None
    else if log[|log| - 1].rec == i then Some(log[|log| - 1])
    else LastPub(log[..|log| - 1], i)
  }

  // ---------- The invariant ----------

  /** A stamped record was last published with its current value, at the time of the stamp; an
      unstamped one has not been published since its value last changed. */
  ghost predicate Faithful(h: History, i: nat)
    requires i < |h.recs| && |h.versions| == |h.recs|
  {
    var r := h.recs[i];
    if r.sentAt != 0 then
      var p := LastPub(h.log, i);
      p.Some? && p.value.version == h.versions[i] && p.value.value == r.value && p.value.time == r.sentAt
    else forall b :: 0 <= b < |h.log| && h.log[b].rec == i ==> h.log[b].version < h.versions[i]
  }

  ghost predicate LogOk(h: History)
    requires |h.versions| == |h.recs|
  {
    && (forall b :: 0 <= b < |h.log| ==> h.log[b].rec < |h.recs| && h.log[b].version <= h.versions[h.log[b].rec])
    && (forall b :: 0 <= b < |h.log| && h.log[b].version == h.versions[h.log[b].rec] ==>
          h.log[b].time <= h.recs[h.log[b].rec].sentAt)
  }

  /** Publications of one record at one version are at least the interval apart. */
  ghost predicate Spaced(log: seq<Pub>)
  {
    forall a, b :: 0 <= a < b < |log| && log[a].rec == log[b].rec && log[a].version == log[b].version ==>
                     log[b].time - log[a].time >= MAX_SEND_INTERVAL
  }

  ghost predicate TimesOk(h: History, clock: int)
  {
    forall i :: 0 <= i < |h.recs| ==> 0 <= h.recs[i].sentAt <= clock && 0 <= h.recs[i].updatedAt <= clock
  }

  ghost predicate Inv(h: History, clock: int)
  {
    && |h.versions| == |h.recs|
    && (forall i :: 0 <= i < |h.recs| ==> Faithful(h, i))
    && LogOk(h)
    && Spaced(h.log)
    && TimesOk(h, clock)
  }

  lemma LastPubAppend(log: seq<Pub>, p: Pub, i: nat)
    ensures LastPub(log + [p], i) == if p.rec == i then Some(p) else LastPub(log, i)
  {
    assert (log + [p])[..|log|] == log;
  }

  lemma PutKeeps(h: History, e: Entry, now: int, clock: int)
    requires Inv(h, clock) && 0 <= clock <= now
    ensures Inv(PutH(h, e, now), now)
  {
    hide Same;
    var i := Find(h.recs, e);
    var h' := PutH(h, e, now);
    assert i < |h.recs| ==> Faithful(h, i);
    assert i < |h.recs| && e.append ==> h.recs[i].value == e.value by {
      SameValue(h.recs, e);
    }
    forall k | 0 <= k < |h'.recs| ensures Faithful(h', k) {
      if k < |h.recs| {
        assert Faithful(h, k);
      }
    }
  }

  lemma SameValue(recs: seq<Rec>, e: Entry)
    ensures var i := Find(recs, e); i < |recs| && e.append ==> recs[i].value == e.value
  {
  }

  /** One record of a scan: it is published only when its last publication is far enough back. */
  lemma ScanOneKeeps(h: History, i: nat, now: int)
    requires Inv(h, now) && i < |h.recs| && MAX_SEND_INTERVAL <= now < CLOCK_LIMIT
    ensures Inv(ScanOne(h, i, now), now)
    ensures ScanOne(h, i, now).recs[i].sentAt != 0
  {
    hide RecordMsg;
    var h' := ScanOne(h, i, now);
    var r := h.recs[i];
    assert Faithful(h, i) && 0 <= r.sentAt <= now;
    assert Since(now, r.sentAt) == now - r.sentAt;
    if Due(r, now) {
      var p := Pub(i, h.versions[i], r.value, now, RecordMsg(r));
      forall k | 0 <= k < |h'.recs| ensures Faithful(h', k) {
        assert Faithful(h, k);
        LastPubAppend(h.log, p, k);
      }
      SpacedAppend(h, p);
    }
  }

  lemma SpacedAppend(h: History, p: Pub)
    requires |h.versions| == |h.recs| && LogOk(h) && Spaced(h.log)
    requires p.rec < |h.recs| && p.version == h.versions[p.rec]
    requires p.time - h.recs[p.rec].sentAt >= MAX_SEND_INTERVAL
    ensures Spaced(h.log + [p])
  {
  }

  lemma {:induction false} ScanKeeps(h: History, n: nat, now: int)
    requires Inv(h, now) && n <= |h.recs| && MAX_SEND_INTERVAL <= now < CLOCK_LIMIT
    ensures Inv(ScanH(h, n, now), now)
    ensures forall i :: 0 <= i < n ==> ScanH(h, n, now).recs[i].sentAt != 0
  {
    hide Inv, Due;
    if n > 0 {
      ScanKeeps(h, n - 1, now);
      ScanOneKeeps(ScanH(h, n - 1, now), n - 1, now);
    }
  }

  lemma InvLater(h: History, clock: int, now: int)
    requires Inv(h, clock) && clock <= now
    ensures Inv(h, now)
  {
  }

  function Clock(es: seq<Event>): int
  {
    if es == [] then 0 else es[|es| - 1].now
  }

  lemma {:induction false} RunKeeps(es: seq<Event>)
    requires ClockOk(es)
    ensures Inv(Run(es), Clock(es))
  {
    hide PutH, ScanH, Faithful, LogOk, Spaced;
    if es != [] {
      var n := |es| - 1;
      RunKeeps(es[..n]);
      var before := Run(es[..n]);
      assert Clock(es[..n]) <= es[n].now;
      match es[n]
      case Put(e, now) => PutKeeps(before, e, now, Clock(es[..n]));
      case Scan(now) =>
        InvLater(before, Clock(es[..n]), now);
        ScanKeeps(before, |before.recs|, now);
    } else {
      Empty();
    }
  }

  lemma Empty()
    ensures Inv(History([], [], []), 0)
  {
  }

  // ---------- The guarantees ----------

  /** No update is lost: a record stamped as sent was last published with the value it has now. */
  lemma SentMeansCurrent(es: seq<Event>, i: nat)
    requires ClockOk(es) && i < |Run(es).recs| && Run(es).recs[i].sentAt != 0
    ensures var p := LastPub(Run(es).log, i); p.Some? && p.value.value == Run(es).recs[i].value
  {
    RunKeeps(es);
    assert Faithful(Run(es), i);
  }

  /** After every scan each record's last published value is its current one. */
  lemma ScanPublishesAll(es: seq<Event>, i: nat)
    requires ClockOk(es) && es != [] && es[|es| - 1].Scan? && i < |Run(es).recs|
    ensures var p := LastPub(Run(es).log, i); p.Some? && p.value.value == Run(es).recs[i].value
  {
    var n := |es| - 1;
    var before := Run(es[..n]);
    RunKeeps(es[..n]);
    InvLater(before, Clock(es[..n]), es[n].now);
    ScanKeeps(before, |before.recs|, es[n].now);
    SentMeansCurrent(es, i);
  }

  /** Two publications of one record with no change of its value between them are at least the
      resend interval apart. */
  lemma ResendsAreSpaced(es: seq<Event>)
    requires ClockOk(es)
    ensures Spaced(Run(es).log)
  {
    RunKeeps(es);
  }

  // ---------- What a scan publishes, on events ----------

  /** Event `k` puts record `i`, or adds it. */
  predicate PutsTo(es: seq<Event>, k: nat, i: nat)
  {
    k < |es| && es[k].Put? && Find(Run(es[..k]).recs, es[k].e) == i
  }

  /** When the record was last put. */
  function LastPut(es: seq<Event>, i: nat): Option<int>
  {
    if es == [] then None
    else if PutsTo(es, |es| - 1, i) then Some(es[|es| - 1].now)
    else LastPut(es[..|es| - 1], i)
  }

  lemma PutMoves(h: History, e: Entry, now: int)
    ensures var i, h' := Find(h.recs, e), PutH(h, e, now);
            && i < |h'.recs| && h'.recs[i].updatedAt == now && h'.log == h.log
            && |h'.recs| == (if i < |h.recs| then |h.recs| else |h.recs| + 1)
            && forall k :: 0 <= k < |h.recs| && k != i ==> h'.recs[k] == h.recs[k]
  {
    hide Find;
  }

  lemma {:induction false} ScanKeepsUpdates(h: History, n: nat, now: int)
    requires n <= |h.recs|
    ensures forall k :: 0 <= k < |h.recs| ==> ScanH(h, n, now).recs[k].updatedAt == h.recs[k].updatedAt
  {
    hide Due;
    if n > 0 {
      ScanKeepsUpdates(h, n - 1, now);
    }
  }

  /** The update time of a record is the time of its last put. */
  lemma {:induction false} UpdatedAtLastPut(es: seq<Event>, i: nat)
    requires i < |Run(es).recs|
    ensures LastPut(es, i) == Some(Run(es).recs[i].updatedAt)
  {
    hide PutH, ScanH, Find;
    if es != [] {
      var n := |es| - 1;
      var before := Run(es[..n]);
      match es[n]
      case Put(e, now) =>
        PutMoves(before, e, now);
        if Find(before.recs, e) != i {
          UpdatedAtLastPut(es[..n], i);
        }
      case Scan(now) =>
        ScanKeepsUpdates(before, |before.recs|, now);
        UpdatedAtLastPut(es[..n], i);
    }
  }

  lemma {:induction false} LastPutIsEvent(es: seq<Event>, i: nat)
    requires LastPut(es, i).Some?
    ensures exists k: nat :: PutsTo(es, k, i) && es[k].now == LastPut(es, i).value
  {
    hide Run, Find;
    var n := |es| - 1;
    if PutsTo(es, n, i) {
    } else {
      LastPutIsEvent(es[..n], i);
      var k: nat :| PutsTo(es[..n], k, i) && es[..n][k].now == LastPut(es[..n], i).value;
      assert es[..n][..k] == es[..k];
      assert PutsTo(es, k, i);
    }
  }

  /** A scan adds to the history one publication, at its own time, for each record that is due, and no other. */
  lemma {:induction false} ScanLog(h: History, n: nat, now: int)
    requires n <= |h.recs|
    ensures var log := ScanH(h, n, now).log;
            && |h.log| <= |log| && log[..|h.log|] == h.log
            && (forall b :: |h.log| <= b < |log| ==> log[b].rec < n && log[b].time == now)
            && (forall i :: 0 <= i < n ==> (Due(h.recs[i], now) <==> Adds(log, |h.log|, i)))
            && (forall a, b :: |h.log| <= a < b < |log| ==> log[a].rec != log[b].rec)
  {
    hide Due, ScanH, Adds;
    if n == 0 {
      NothingScanned(h, now);
    } else {
      ScanLog(h, n - 1, now);
      var log := ScanH(h, n - 1, now).log;
      var p := ScanStep(h, n, now);
      NotAdded(log, |h.log|, n - 1);
      AddsMore(log, p, |h.log|);
      assert log[..|h.log|] == h.log ==> (log + [p])[..|h.log|] == h.log;
    }
  }

  lemma NothingScanned(h: History, now: int)
    ensures ScanH(h, 0, now) == h
  {
  }

  lemma ScanStep(h: History, n: nat, now: int) returns (p: Pub)
    requires 0 < n <= |h.recs|
    ensures p.rec == n - 1 && p.time == now
    ensures var log := ScanH(h, n - 1, now).log;
            ScanH(h, n, now).log == if Due(h.recs[n - 1], now) then log + [p] else log
  {
    hide Due, RecordMsg;
    var before := ScanH(h, n - 1, now);
    ScanHIsScan(h, n - 1, now);
    assert before.recs[n - 1] == h.recs[n - 1];
    p := Pub(n - 1, Version(before, n - 1), before.recs[n - 1].value, now, RecordMsg(before.recs[n - 1]));
  }

  /** From its entry `from` on, the history publishes the record. */
  ghost predicate Adds(log: seq<Pub>, from: nat, i: nat)
  {
    exists b :: from <= b < |log| && log[b].rec == i
  }

  lemma NotAdded(log: seq<Pub>, from: nat, i: nat)
    requires forall b :: from <= b < |log| ==> log[b].rec < i
    ensures !Adds(log, from, i)
  {
  }

  lemma AddsMore(log: seq<Pub>, p: Pub, from: nat)
    requires from <= |log|
    ensures forall i: nat :: Adds(log + [p], from, i) <==> Adds(log, from, i) || i == p.rec
  {
    forall i: nat ensures Adds(log + [p], from, i) <==> Adds(log, from, i) || i == p.rec {
      if b :| from <= b < |log| && log[b].rec == i {
        assert (log + [p])[b].rec == i;
      }
      assert (log + [p])[|log|] == p;
    }
  }

  /** A scan publishes a record exactly when its present value has not been published yet, or its last
      publication is at least 20000 ms back and not later than its last put. */
  lemma {:induction false} ScanPublishesExactly(es: seq<Event>, i: nat)
    requires ClockOk(es) && es != [] && es[|es| - 1].Scan?
    requires var before := Run(es[..|es| - 1]); i < |before.recs|
    ensures var n := |es| - 1;
            var before, p, put := Run(es[..n]), LastPub(Run(es[..n]).log, i), LastPut(es[..n], i);
            && put.Some? && i < |before.versions| && |before.log| <= |Run(es).log|
            && (Adds(Run(es).log, |before.log|, i)
                <==> p.None? || p.value.version != before.versions[i]
                     || (es[n].now - p.value.time >= 20000 && p.value.time <= put.value))
  {
    hide PutH, ScanH, LastPut, LogOk, Spaced;
    var n := |es| - 1;
    var before, now := Run(es[..n]), es[n].now;
    RunKeeps(es[..n]);
    InvLater(before, Clock(es[..n]), now);
    assert Faithful(before, i);
    UpdatedAtLastPut(es[..n], i);
    ScanLog(before, |before.recs|, now);
    LastPubIn(before.log, i);
    var r := before.recs[i];
    assert Since(now, r.sentAt) == now - r.sentAt;
  }

  lemma {:induction false} LastPubIn(log: seq<Pub>, i: nat)
    ensures LastPub(log, i).Some? ==> exists b :: 0 <= b < |log| && log[b].rec == i && LastPub(log, i).value == log[b]
  {
    if log != [] && log[|log| - 1].rec != i {
      LastPubIn(log[..|log| - 1], i);
    }
  }

  /** No publication is later than the stamp, or than the put that took the stamp back. */
  ghost predicate NotAfter(h: History)
  {
    forall b :: 0 <= b < |h.log| ==>
      && h.log[b].rec < |h.recs|
      && var r := h.recs[h.log[b].rec];
         if r.sentAt != 0 then h.log[b].time <= r.sentAt else h.log[b].time <= r.updatedAt
  }

  lemma PutNotAfter(h: History, e: Entry, now: int)
    requires NotAfter(h) && forall b :: 0 <= b < |h.log| ==> h.log[b].time <= now
    ensures NotAfter(PutH(h, e, now))
  {
    hide Find, Same;
    PutMoves(h, e, now);
  }

  lemma {:induction false} ScanNotAfter(h: History, n: nat, now: int)
    requires n <= |h.recs| && NotAfter(h) && now != 0 && forall b :: 0 <= b < |h.log| ==> h.log[b].time <= now
    ensures var h' := ScanH(h, n, now); NotAfter(h') && forall b :: 0 <= b < |h'.log| ==> h'.log[b].time <= now
  {
    hide Due, RecordMsg;
    if n > 0 {
      ScanNotAfter(h, n - 1, now);
    }
  }

  /** Between two publications of one record there is a put of it, at a time not before the first of them. */
  ghost predicate PutBetween(es: seq<Event>, p: Pub, q: Pub)
  {
    exists k: nat :: PutsTo(es, k, p.rec) && p.time <= es[k].now <= q.time
  }

  lemma PutBetweenStays(es: seq<Event>, p: Pub, q: Pub)
    requires es != [] && PutBetween(es[..|es| - 1], p, q)
    ensures PutBetween(es, p, q)
  {
    hide Run, Find;
    var n := |es| - 1;
    var k: nat :| PutsTo(es[..n], k, p.rec) && p.time <= es[..n][k].now <= q.time;
    assert es[..n][..k] == es[..k];
    assert PutsTo(es, k, p.rec);
  }

  /** Over every run: a record that is published again was put in the meantime, or at the very moment of the
      earlier publication. What is not put is not sent for ever. */
  lemma {:induction false} ResendNeedsPut(es: seq<Event>)
    requires ClockOk(es)
    ensures NotAfter(Run(es)) && forall b :: 0 <= b < |Run(es).log| ==> Run(es).log[b].time <= Clock(es)
    ensures forall a, b :: 0 <= a < b < |Run(es).log| && Run(es).log[a].rec == Run(es).log[b].rec ==>
              PutBetween(es, Run(es).log[a], Run(es).log[b])
  {
    hide PutH, ScanH, PutBetween, Find, Due;
    if es != [] {
      var n := |es| - 1;
      var before, now := Run(es[..n]), es[n].now;
      ResendNeedsPut(es[..n]);
      var log := Run(es).log;
      match es[n] {
        case Put(e, _) =>
          PutNotAfter(before, e, now);
          PutMoves(before, e, now);
        case Scan(_) =>
          ScanNotAfter(before, |before.recs|, now);
          ScanLog(before, |before.recs|, now);
      }
      forall a, b | 0 <= a < b < |log| && log[a].rec == log[b].rec ensures PutBetween(es, log[a], log[b]) {
        if b < |before.log| {
          assert log[a] == before.log[a] && log[b] == before.log[b];
          PutBetweenStays(es, log[a], log[b]);
        } else {
          assert a < |before.log| && log[a] == before.log[a];
          ResentAfterPut(es, log[a], log[b]);
        }
      }
    }
  }

  /** A scan publishes again what was put since. */
  lemma ResentAfterPut(es: seq<Event>, p: Pub, q: Pub)
    requires ClockOk(es) && es != [] && es[|es| - 1].Scan?
    requires var before := Run(es[..|es| - 1]);
             && NotAfter(before) && p in before.log && p.rec == q.rec && p.rec < |before.recs|
             && Due(before.recs[p.rec], es[|es| - 1].now) && q.time == es[|es| - 1].now
    ensures PutBetween(es, p, q)
  {
    hide Run, Find;
    var n := |es| - 1;
    var before := Run(es[..n]);
    var b :| 0 <= b < |before.log| && before.log[b] == p;
    UpdatedAtLastPut(es[..n], p.rec);
    LastPutIsEvent(es[..n], p.rec);
    var k: nat :| PutsTo(es[..n], k, p.rec) && es[..n][k].now == before.recs[p.rec].updatedAt;
    assert es[..n][..k] == es[..k];
    assert PutsTo(es, k, p.rec) && es[k].now <= es[n].now;
  }
}
