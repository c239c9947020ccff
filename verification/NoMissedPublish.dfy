/** Under every interleaving, an open subscriber gets at least once every value that stays stored. */
module NoMissedPublish {
  import opened Interleaving
  import S = Store
  import Database
  import Pattern
  import Model

  // ---------- Structure ----------

  /** What is settled stays so until a publication of the value begins anew. */
  lemma HistoryKept(s: State, e: Event, c: Conn, t: string, v: string)
    requires Enabled(s, e) && Settled(s, c, t, v)
    ensures Settled(Next(s, e), c, t, v) || (t, v) in Started(s, e)
  {
    hide Pattern.Matches, S.Selected, CacheAfter, RowsAfterAll, HalfDone, Visible, Recipients, PhaseAfter;
    hide Owned, Mail, MailFor, MailOfAll, FoundCached, FoundRows, SubsWithout, Published;
  }

  /** A publication that begins is the connection's own, or on its way to it. */
  lemma StartedIsDelivered(s: State, e: Event, c: Conn, t: string, v: string)
    requires Enabled(s, e) && (t, v) in Started(s, e) && c in Next(s, e).threads && Live(Next(s, e).threads[c])
    ensures Delivered(Next(s, e), c, t, v)
  {
    hide Pattern.Matches, S.Selected, CacheAfter, RowsAfterAll, HalfDone, Visible, Recipients, Renewed;
    hide Mail, MailFor, MailOfAll, FoundCached, FoundRows, SubsWithout;
    var s' := Next(s, e);
    var items := s'.threads[e.c].items;
    if e.TakeWill? {
      assert Publishes(items[0], t, v);
    } else {
      var i :| i in items && !i.Del? && (i.topic, i.value) == (t, v);
      var j :| 0 <= j < |items| && items[j] == i;
      assert Publishes(items[j], t, v);
    }
    assert PendingAt(s'.threads[e.c], c, t, v);
    assert e.StartPub? ==> (e.c, t, v) in s'.own;
  }

  lemma OneMoves(s: State, e: Event)
    requires Enabled(s, e)
    ensures e.c in Next(s, e).threads && Next(s, e).threads == s.threads[e.c := Next(s, e).threads[e.c]]
  {
    hide Pattern.Matches, S.Selected, CacheAfter, RowsAfterAll, HalfDone, Visible, Recipients;
    hide Owned, Mail, MailFor, MailOfAll, FoundCached, FoundRows, SubsWithout, Published;
  }

  /** A step moves only the handler that takes it. */
  lemma OthersStay(s: State, e: Event)
    requires Enabled(s, e)
    ensures var s' := Next(s, e);
            s'.threads.Keys == s.threads.Keys + {e.c}
            && forall d :: d in s.threads && d != e.c ==> s'.threads[d] == s.threads[d]
  {
    hide Next, Enabled;
    OneMoves(s, e);
  }

  lemma OwnWellFormed(s: State, e: Event)
    requires Enabled(s, e) && (e.c in s.threads ==> WellFormed(s.threads[e.c]))
    ensures WellFormed(Next(s, e).threads[e.c])
  {
    hide Pattern.Matches, S.Selected, CacheAfter, RowsAfterAll, HalfDone, Visible, Recipients;
    hide Owned, Mail, MailFor, MailOfAll, FoundCached, FoundRows, SubsWithout, Published;
  }

  // ---------- What is on its way arrives ----------

  /** A value that the acting handler held for another subscriber is still held, sent, or recorded as lost. */
  lemma PendingKept(s: State, e: Event, c: Conn, p: string, t: string, v: string)
    requires Structure(s) && Enabled(s, e) && e.c in s.threads && e.c != c
    requires Subscriber(s, c, p) && Pattern.Matches(p, t) && PendingAt(s.threads[e.c], c, t, v)
    ensures Delivered(Next(s, e), c, t, v)
  {
    hide Pattern.Matches, S.Selected, CacheAfter, RowsAfterAll, OwnKnown;
    var ph, s' := s.threads[e.c], Next(s, e);
    match e
    case TouchCache(_) =>
      assert PendingAt(s'.threads[e.c], c, t, v);
    case Commit(_) =>
      assert PendingAt(s'.threads[e.c], c, t, v);
    case Dispatch(_) =>
      DispatchKeeps(s, e.c, c, p, t, v);
    case StartSend(_) =>
      assert PendingAt(s'.threads[e.c], c, t, v);
    case SendTo(_, to) =>
      if to != c {
        assert PendingAt(s'.threads[e.c], c, t, v);
      }
    case SendFails(_) =>
      assert (c, t, v) in ph.box;
    case EndSend(_) =>
    case DbFails(_, _, _) =>
      var j :| 0 <= j < |ph.items| && Publishes(ph.items[j], t, v);
      LostMail(s, ph.items, j, c, p, t, v);
    case _ =>
  }

  lemma LostMail(s: State, items: seq<Item>, j: nat, c: Conn, p: string, t: string, v: string)
    requires j < |items| && Publishes(items[j], t, v)
    requires Subscriber(s, c, p) && Pattern.Matches(p, t)
    ensures (c, t, v) in MailOfAll(s.subs, items)
  {
    hide Pattern.Matches, Recipients;
    assert items[j] in items;
    IsRecipient(s.subs, items[j], p, c);
  }

  lemma IsRecipient(subs: set<(string, Conn)>, i: Item, p: string, c: Conn)
    requires (p, c) in subs && !i.Del? && Pattern.Matches(p, i.topic)
    ensures c in Recipients(subs, i)
  {
    assert (p, c).1 in Recipients(subs, i);
  }

  lemma DispatchKeeps(s: State, d: Conn, c: Conn, p: string, t: string, v: string)
    requires Structure(s) && Enabled(s, Dispatch(d)) && d != c
    requires Subscriber(s, c, p) && Pattern.Matches(p, t) && PendingAt(s.threads[d], c, t, v)
    ensures Delivered(Next(s, Dispatch(d)), c, t, v)
  {
    hide Pattern.Matches, Recipients, OwnKnown;
    var ph, s' := s.threads[d], Next(s, Dispatch(d));
    var i := ph.items[ph.next];
    if Publishes(i, t, v) {
      IsRecipient(s.subs, i, p, c);
      assert (c, t, v) in s'.threads[d].box;
    }
    assert PendingAt(s'.threads[d], c, t, v);
  }

  /** What a connection has collected for itself stays collected until it is sent. */
  lemma MineKept(s: State, e: Event, c: Conn, t: string, v: string)
    requires Enabled(s, e) && c in s.threads && MineAt(s.threads[c], t, v) && Live(Next(s, e).threads[c])
    ensures Delivered(Next(s, e), c, t, v)
  {
    if e.c == c {
      OwnMineKept(s, e, t, v);
    } else {
      hide Next, Enabled;
      OthersStay(s, e);
    }
  }

  lemma OwnMineKept(s: State, e: Event, t: string, v: string)
    requires Enabled(s, e) && e.c in s.threads && MineAt(s.threads[e.c], t, v) && Live(Next(s, e).threads[e.c])
    ensures MineAt(Next(s, e).threads[e.c], t, v) || (e.c, t, v) in Next(s, e).sent
  {
    hide Pattern.Matches, S.Selected, CacheAfter, RowsAfterAll, HalfDone, Visible, Recipients;
    assert e.Reply? ==> (t, v) in s.threads[e.c].mine && (e.c, t, v) in Next(s, e).sent;
  }

  lemma DeliveredKept(s: State, e: Event, c: Conn, p: string, t: string, v: string)
    requires Structure(s) && Enabled(s, e)
    requires Subscriber(s, c, p) && Pattern.Matches(p, t) && Live(Next(s, e).threads[c])
    requires Delivered(s, c, t, v)
    ensures Delivered(Next(s, e), c, t, v)
  {
    hide Pattern.Matches, S.Selected, PendingAt, MineAt, Live, Next, Enabled, Structure, Settled, Started;
    OthersStay(s, e);
    if Settled(s, c, t, v) {
      HistoryKept(s, e, c, t, v);
      if (t, v) in Started(s, e) {
        StartedIsDelivered(s, e, c, t, v);
      }
    } else if MineAt(s.threads[c], t, v) {
      MineKept(s, e, c, t, v);
    } else {
      var d :| d in s.threads && d != c && PendingAt(s.threads[d], c, t, v);
      if d == e.c {
        PendingKept(s, e, c, p, t, v);
      }
    }
  }

  // ---------- A stored value stays covered ----------

  /** Before the step the connection was a subscriber too, or the step is its own SUB. */
  lemma SubscriberBefore(s: State, e: Event, c: Conn, p: string)
    requires Enabled(s, e) && Lifecycle(s) && Subscriber(Next(s, e), c, p)
    ensures Subscriber(s, c, p) || (e == Answer(c) && s.threads[c].asks[s.threads[c].next] == Sub(p))
  {
    if c == e.c {
      OwnSubscription(s, e, p);
    } else {
      hide Next, Enabled, WillsOnce;
      OthersStay(s, e);
      OtherSubs(s, e, (p, c));
      assert (p, c) in s.subs ==> (p, c).1 in s.threads;
    }
  }

  lemma OwnSubscription(s: State, e: Event, p: string)
    requires Enabled(s, e) && TablesOpen(s) && Subscriber(Next(s, e), e.c, p)
    ensures Subscriber(s, e.c, p) || (e.Answer? && s.threads[e.c].asks[s.threads[e.c].next] == Sub(p))
  {
    OwnSubsStep(s, e, p);
    hide Enabled, Next;
    assert (p, e.c) in s.subs ==> (p, e.c).1 in s.threads && KeepsSubs(s.threads[(p, e.c).1]);
  }

  lemma OwnSubsStep(s: State, e: Event, p: string)
    requires Enabled(s, e) && (p, e.c) in Next(s, e).subs && Live(Next(s, e).threads[e.c])
    requires (p, e.c) in s.subs ==> e.c in s.threads && KeepsSubs(s.threads[e.c])
    ensures ((p, e.c) in s.subs && Live(s.threads[e.c]))
            || (e.Answer? && s.threads[e.c].asks[s.threads[e.c].next] == Sub(p))
  {
    hide Pattern.Matches, S.Selected, CacheAfter, RowsAfterAll, HalfDone, Visible, Recipients;
    hide FoundCached, FoundRows, Published;
  }

  /** A registered SUB reads the cache next, then the rows. */
  lemma SubWillRead(s: State, c: Conn, p: string, t: string)
    requires Enabled(s, Answer(c)) && s.threads[c].asks[s.threads[c].next] == Sub(p)
    ensures Pattern.Matches(p, t) ==> WillReadCache(Next(s, Answer(c)).threads[c], t)
    ensures S.Selected(p, t) ==> WillReadRows(Next(s, Answer(c)).threads[c], t)
  {
    hide Pattern.Matches, S.Selected;
  }

  /** A cached value that is about to be read is read, or still about to be. */
  lemma CacheReadKept(s: State, e: Event, c: Conn, t: string)
    requires Enabled(s, e) && c in s.threads && WillReadCache(s.threads[c], t) && t in s.cache
    requires Live(Next(s, e).threads[c])
    ensures Delivered(Next(s, e), c, t, s.cache[t]) || WillReadCache(Next(s, e).threads[c], t)
  {
    if e.c == c {
      OwnCacheRead(s, e, t);
    } else {
      hide Next, Enabled;
      OthersStay(s, e);
    }
  }

  lemma OwnCacheRead(s: State, e: Event, t: string)
    requires Enabled(s, e) && e.c in s.threads && WillReadCache(s.threads[e.c], t) && t in s.cache
    requires Live(Next(s, e).threads[e.c])
    ensures MineAt(Next(s, e).threads[e.c], t, s.cache[t])
  {
    hide Pattern.Matches, S.Selected, CacheAfter, RowsAfterAll, HalfDone, Visible, Recipients;
  }

  lemma RowsReadKept(s: State, e: Event, c: Conn, r: (string, string))
    requires Enabled(s, e) && c in s.threads && WillReadRows(s.threads[c], r.0) && r in s.rows
    requires Live(Next(s, e).threads[c])
    ensures Delivered(Next(s, e), c, r.0, r.1) || WillReadRows(Next(s, e).threads[c], r.0)
  {
    if e.c == c {
      OwnRowsRead(s, e, r);
    } else {
      hide Next, Enabled;
      OthersStay(s, e);
    }
  }

  lemma OwnRowsRead(s: State, e: Event, r: (string, string))
    requires Enabled(s, e) && e.c in s.threads && WillReadRows(s.threads[e.c], r.0) && r in s.rows
    requires Live(Next(s, e).threads[e.c])
    ensures MineAt(Next(s, e).threads[e.c], r.0, r.1) || WillReadRows(Next(s, e).threads[e.c], r.0)
  {
    hide Pattern.Matches, S.Selected, CacheAfter, RowsAfterAll, HalfDone, Visible, Recipients;
    hide Owned, Mail, MailFor, MailOfAll, FoundCached, SubsWithout;
  }

  /** What a subscriber is about to store itself stays known to it. */
  lemma OwnKnownKept(s: State, e: Event, c: Conn, p: string)
    requires Structure(s) && Enabled(s, e) && c in Next(s, e).threads && Live(Next(s, e).threads[c])
    requires c != e.c || !e.StartPub? ==> Subscriber(s, c, p)
    ensures OwnKnown(Next(s, e), c, p)
  {
    hide Pattern.Matches, S.Selected, PendingAt, MineAt, Live, Next, Enabled, Settled, Started, Delivered;
    OthersStay(s, e);
    SavingBefore(s, e);
    var s' := Next(s, e);
    if s'.threads[c].Saving? {
      forall i | i in s'.threads[c].items && !i.Del? && Pattern.Matches(p, i.topic)
        ensures Delivered(s', c, i.topic, i.value)
      {
        if c == e.c && e.StartPub? {
          StartedIsDelivered(s, e, c, i.topic, i.value);
        } else {
          assert OwnKnown(s, c, p);
          DeliveredKept(s, e, c, p, i.topic, i.value);
        }
      }
    }
  }

  /** A live handler that saves after a step has begun to, or was saving the same items. */
  lemma SavingBefore(s: State, e: Event)
    requires Enabled(s, e)
    ensures var ph := Next(s, e).threads[e.c];
            ph.Saving? && Live(ph) ==>
              if e.StartPub? then forall i :: i in ph.items && !i.Del? ==> (i.topic, i.value) in Started(s, e)
              else e.c in s.threads && s.threads[e.c].Saving? && s.threads[e.c].items == ph.items
  {
    hide Pattern.Matches, S.Selected, CacheAfter, RowsAfterAll, HalfDone, Visible, Recipients;
    hide Owned, Mail, MailFor, MailOfAll, FoundCached, FoundRows, SubsWithout;
  }

  lemma {:induction false} StructureKept(s: State, e: Event)
    requires Structure(s) && Lifecycle(s) && Enabled(s, e)
    ensures Structure(Next(s, e))
  {
    hide Enabled, Next, Lifecycle, OwnKnown, WellFormed, Live;
    OthersStay(s, e);
    OwnWellFormed(s, e);
    var s' := Next(s, e);
    forall c, p | Subscriber(s', c, p) ensures OwnKnown(s', c, p) {
      SubscriberBefore(s, e, c, p);
      if Subscriber(s, c, p) {
        OwnKnownKept(s, e, c, p);
      } else {
        AnswerNotSaving(s, c, p);
      }
    }
  }

  lemma AnswerNotSaving(s: State, c: Conn, p: string)
    requires Enabled(s, Answer(c))
    ensures OwnKnown(Next(s, Answer(c)), c, p)
  {
  }

  /** A value the step caches was cached before, or is on its way to the subscriber or known to it. */
  lemma CachedBefore(s: State, e: Event, c: Conn, p: string, t: string)
    requires Structure(s) && Lifecycle(s) && Enabled(s, e)
    requires Subscriber(Next(s, e), c, p) && t in Next(s, e).cache && Pattern.Matches(p, t)
    ensures (t in s.cache && s.cache[t] == Next(s, e).cache[t]) || Delivered(Next(s, e), c, t, Next(s, e).cache[t])
  {
    hide Next, Enabled, Live, Lifecycle, Structure, Pattern.Matches;
    SubscriberBefore(s, e, c, p);
    CachedByItem(s, e, t);
    if e.TouchCache? {
      var ph := s.threads[e.c];
      var i := ph.items[ph.next];
      if i.Retain? && i.topic == t {
        ItemIsDelivered(s, e, c, p, ph.next);
      }
    }
  }

  lemma CachedByItem(s: State, e: Event, t: string)
    requires Enabled(s, e) && t in Next(s, e).cache
    ensures e.TouchCache? ==>
              e.c in s.threads && s.threads[e.c].Saving? && s.threads[e.c].next < |s.threads[e.c].items|
    ensures (t in s.cache && s.cache[t] == Next(s, e).cache[t])
            || (e.TouchCache? && var ph := s.threads[e.c]; ph.items[ph.next] == Retain(t, Next(s, e).cache[t]))
  {
    hide Pattern.Matches, S.Selected, RowsAfterAll, HalfDone, Visible, Recipients, PhaseAfter;
    hide Owned, Mail, MailFor, MailOfAll, FoundCached, FoundRows, SubsWithout, Published;
  }

  /** What a saving handler stores is on its way to every other subscriber, and known to its own. */
  lemma ItemIsDelivered(s: State, e: Event, c: Conn, p: string, j: nat)
    requires Structure(s) && Enabled(s, e) && (e.TouchCache? || e.Commit?) && j < |s.threads[e.c].items|
    requires Subscriber(s, c, p) && Live(Next(s, e).threads[c])
    requires var i := s.threads[e.c].items[j]; !i.Del? && Pattern.Matches(p, i.topic)
    ensures var i := s.threads[e.c].items[j]; Delivered(Next(s, e), c, i.topic, i.value)
  {
    hide Pattern.Matches, S.Selected, RowsAfterAll, CacheAfter, Live, WellFormed, MineAt, Settled;
    var ph, s' := s.threads[e.c], Next(s, e);
    var i := ph.items[j];
    if c == e.c {
      hide Next, Enabled, PendingAt, Delivered;
      assert i in ph.items && OwnKnown(s, c, p);
      DeliveredKept(s, e, c, p, i.topic, i.value);
    } else {
      assert Publishes(i, i.topic, i.value);
      assert PendingAt(s'.threads[e.c], c, i.topic, i.value);
    }
  }

  lemma {:induction false} RowsFrom(rows: set<(string, string)>, items: seq<Item>, r: (string, string))
    requires r in RowsAfterAll(rows, items)
    ensures r in rows || exists j :: 0 <= j < |items| && Publishes(items[j], r.0, r.1)
  {
    hide Pattern.Matches, S.Selected;
    if items != [] {
      var n := |items| - 1;
      if r in RowsAfterAll(rows, items[..n]) {
        RowsFrom(rows, items[..n], r);
        if j :| 0 <= j < n && Publishes(items[..n][j], r.0, r.1) {
          assert Publishes(items[j], r.0, r.1);
        }
      } else {
        assert Publishes(items[n], r.0, r.1);
      }
    }
  }

  lemma RowBefore(s: State, e: Event, c: Conn, p: string, r: (string, string))
    requires Structure(s) && Lifecycle(s) && Enabled(s, e)
    requires Subscriber(Next(s, e), c, p) && r in Next(s, e).rows && Pattern.Matches(p, r.0)
    ensures r in s.rows || Delivered(Next(s, e), c, r.0, r.1)
  {
    hide Next, Enabled, Live, Lifecycle, Structure, Pattern.Matches;
    SubscriberBefore(s, e, c, p);
    RowByCommit(s, e, r);
    if r !in s.rows {
      if j :| 0 <= j < |s.threads[e.c].items| && Publishes(s.threads[e.c].items[j], r.0, r.1) {
        ItemIsDelivered(s, e, c, p, j);
      } else {
        var left := s.open[e.c].items;
        var j :| 0 <= j < |left| && Publishes(left[j], r.0, r.1);
        LostMail(s, left, j, c, p, r.0, r.1);
      }
    }
  }

  lemma RowByCommit(s: State, e: Event, r: (string, string))
    requires Enabled(s, e) && r in Next(s, e).rows
    ensures r !in s.rows ==>
              && e.Commit? && e.c in s.threads && s.threads[e.c].Saving?
              && ((exists j :: 0 <= j < |s.threads[e.c].items| && Publishes(s.threads[e.c].items[j], r.0, r.1))
                  || (e.c in s.open && MailOfAll(s.subs, s.open[e.c].items) <= Next(s, e).lost
                      && exists j :: 0 <= j < |s.open[e.c].items| && Publishes(s.open[e.c].items[j], r.0, r.1)))
  {
    hide Pattern.Matches, S.Selected, CacheAfter, RowsAfterAll, HalfDone, Recipients, PhaseAfter;
    hide Owned, Mail, MailFor, MailOfAll, FoundCached, FoundRows, SubsWithout, Published;
    if e.Commit? {
      var base := if e.c in s.open then Visible(s.rows, s.open[e.c]) else s.rows;
      RowsFrom(base, s.threads[e.c].items, r);
      if e.c in s.open && r in base {
        RowsFrom(s.rows, s.open[e.c].items, r);
      }
    }
  }

  lemma CacheCoveredKept(s: State, e: Event)
    requires Structure(s) && Lifecycle(s) && CacheCovered(s) && Enabled(s, e)
    ensures CacheCovered(Next(s, e))
  {
    hide Pattern.Matches, S.Selected, CacheAfter, RowsAfterAll, HalfDone, Visible, Recipients;
    hide Next, Enabled, Lifecycle, Live;
    hide PendingAt, MineAt, WillReadCache, Delivered;
    var s' := Next(s, e);
    forall c, p, t | Subscriber(s', c, p) && t in s'.cache && Pattern.Matches(p, t)
      ensures Delivered(s', c, t, s'.cache[t]) || WillReadCache(s'.threads[c], t)
    {
      CachedBefore(s, e, c, p, t);
      SubscriberBefore(s, e, c, p);
      if !Delivered(s', c, t, s'.cache[t]) {
        if !Subscriber(s, c, p) {
          SubWillRead(s, c, p, t);
        } else if Delivered(s, c, t, s.cache[t]) {
          DeliveredKept(s, e, c, p, t, s.cache[t]);
        } else {
          CacheReadKept(s, e, c, t);
        }
      }
    }
  }

  lemma RowsCoveredKept(s: State, e: Event)
    requires Structure(s) && Lifecycle(s) && RowsCovered(s) && Enabled(s, e)
    ensures RowsCovered(Next(s, e))
  {
    hide Pattern.Matches, CacheAfter, RowsAfterAll, HalfDone, Visible, Recipients;
    hide Next, Enabled, Lifecycle, Live, Database.Like;
    hide PendingAt, MineAt, WillReadRows, Delivered;
    var s' := Next(s, e);
    forall c, p, r | Subscriber(s', c, p) && r in s'.rows && S.Selected(p, r.0)
      ensures Delivered(s', c, r.0, r.1) || WillReadRows(s'.threads[c], r.0)
    {
      RowBefore(s, e, c, p, r);
      SubscriberBefore(s, e, c, p);
      if !Delivered(s', c, r.0, r.1) {
        if !Subscriber(s, c, p) {
          SubWillRead(s, c, p, r.0);
        } else if Delivered(s, c, r.0, r.1) {
          DeliveredKept(s, e, c, p, r.0, r.1);
        } else {
          RowsReadKept(s, e, c, r);
        }
      }
    }
  }

  // ---------- Connection lifecycle ----------

  lemma ConnsOpenKept(s: State, e: Event)
    requires TablesOpen(s) && Enabled(s, e)
    ensures forall c :: c in Next(s, e).conns ==> c in Next(s, e).threads && KeepsConn(Next(s, e).threads[c])
  {
    hide Enabled, Next, KeepsSubs, KeepsConn, KeepsWill;
    OthersStay(s, e);
    OtherConns(s, e);
    if e.c in Next(s, e).conns {
      OwnConn(s, e);
    }
  }

  lemma OwnConn(s: State, e: Event)
    requires Enabled(s, e) && e.c in Next(s, e).conns
    requires e.c in s.conns ==> e.c in s.threads && KeepsConn(s.threads[e.c])
    ensures KeepsConn(Next(s, e).threads[e.c])
  {
    hide Pattern.Matches, S.Selected, CacheAfter, RowsAfterAll, HalfDone, Visible, Recipients;
    hide Owned, Mail, MailFor, MailOfAll, FoundCached, FoundRows, SubsWithout, Published;
  }

  lemma OtherConns(s: State, e: Event)
    requires Enabled(s, e)
    ensures forall c :: c in Next(s, e).conns && c != e.c ==> c in s.conns
  {
    hide Pattern.Matches, S.Selected, CacheAfter, RowsAfterAll, HalfDone, Visible, Recipients, PhaseAfter;
    hide Owned, Mail, MailFor, MailOfAll, FoundCached, FoundRows, SubsWithout, Published;
  }

  lemma SubsOpenKept(s: State, e: Event)
    requires TablesOpen(s) && Enabled(s, e)
    ensures forall x :: x in Next(s, e).subs ==> x.1 in Next(s, e).threads && KeepsSubs(Next(s, e).threads[x.1])
  {
    hide Enabled, Next, KeepsSubs, KeepsConn, KeepsWill;
    OthersStay(s, e);
    forall x | x in Next(s, e).subs ensures x.1 in Next(s, e).threads && KeepsSubs(Next(s, e).threads[x.1]) {
      if x.1 == e.c {
        OwnSubs(s, e, x);
      } else {
        OtherSubs(s, e, x);
      }
    }
  }

  lemma OwnSubs(s: State, e: Event, x: (string, Conn))
    requires Enabled(s, e) && x in Next(s, e).subs && x.1 == e.c
    requires x in s.subs ==> e.c in s.threads && KeepsSubs(s.threads[e.c])
    ensures KeepsSubs(Next(s, e).threads[e.c])
  {
    hide Pattern.Matches, S.Selected, CacheAfter, RowsAfterAll, HalfDone, Visible, Recipients, Published;
  }

  lemma OtherSubs(s: State, e: Event, x: (string, Conn))
    requires Enabled(s, e) && x in Next(s, e).subs && x.1 != e.c
    ensures x in s.subs
  {
    hide Pattern.Matches, S.Selected, CacheAfter, RowsAfterAll, HalfDone, Visible, Recipients, Published;
  }

  lemma WillsOpenKept(s: State, e: Event)
    requires TablesOpen(s) && Enabled(s, e)
    ensures forall c :: c in Next(s, e).wills ==> c in Next(s, e).threads && KeepsWill(Next(s, e).threads[c])
  {
    hide Enabled, Next, KeepsSubs, KeepsConn, KeepsWill;
    OthersStay(s, e);
    OtherWills(s, e);
    if e.c in Next(s, e).wills {
      OwnWill(s, e);
    }
  }

  lemma OwnWill(s: State, e: Event)
    requires Enabled(s, e) && e.c in Next(s, e).wills
    requires e.c in s.wills ==> e.c in s.threads && KeepsWill(s.threads[e.c])
    ensures KeepsWill(Next(s, e).threads[e.c])
  {
    hide Pattern.Matches, S.Selected, CacheAfter, RowsAfterAll, HalfDone, Visible, Recipients;
    hide Owned, Mail, MailFor, MailOfAll, FoundCached, FoundRows, SubsWithout, Published;
  }

  lemma OtherWills(s: State, e: Event)
    requires Enabled(s, e)
    ensures forall c :: c in Next(s, e).wills && c != e.c ==> c in s.wills
  {
    hide Pattern.Matches, S.Selected, CacheAfter, RowsAfterAll, HalfDone, Visible, Recipients, PhaseAfter;
    hide Owned, Mail, MailFor, MailOfAll, FoundCached, FoundRows, SubsWithout, Published;
  }

  lemma WillsOnceKept(s: State, e: Event)
    requires Structure(s) && WillsOnce(s) && Enabled(s, e)
    ensures WillsOnce(Next(s, e))
  {
    hide Enabled, Next, WillOnce;
    forall c ensures WillOnce(Next(s, e), c) {
      assert WillOnce(s, c);
      if c == e.c {
        OwnWillOnce(s, e);
      } else {
        OtherWillOnce(s, e, c);
      }
    }
  }

  /** Only taking a last will and storing it change the record of last wills. */
  lemma WillRecord(s: State, e: Event)
    requires Enabled(s, e)
    ensures Next(s, e).taken == if e.TakeWill? && e.c in s.wills then s.taken[e.c := s.wills[e.c]] else s.taken
    ensures Next(s, e).willed
            == if e.TouchCache? && AtWill(s.threads[e.c]) then s.willed + multiset{e.c} else s.willed
  {
    hide Pattern.Matches, S.Selected, CacheAfter, RowsAfterAll, HalfDone, Visible, Recipients, PhaseAfter;
    hide Owned, Mail, MailFor, MailOfAll, FoundCached, FoundRows, SubsWithout, Published;
  }

  lemma OtherWillOnce(s: State, e: Event, c: Conn)
    requires Enabled(s, e) && c != e.c && WillOnce(s, c)
    ensures WillOnce(Next(s, e), c)
  {
    hide Next, Enabled;
    OthersStay(s, e);
    WillRecord(s, e);
  }

  lemma OwnWillOnce(s: State, e: Event)
    requires Structure(s) && Enabled(s, e) && WillOnce(s, e.c)
    ensures WillOnce(Next(s, e), e.c)
  {
    hide Pattern.Matches, S.Selected, CacheAfter, RowsAfterAll, HalfDone, Visible, Recipients, OwnKnown, Published;
    hide Owned, Mail, MailFor, MailOfAll, FoundCached, FoundRows, SubsWithout, Effect;
    WillRecord(s, e);
    assert e.c in s.threads ==> WellFormed(s.threads[e.c]);
  }

  // ---------- Whole runs ----------

  ghost predicate Inv(s: State)
  {
    Structure(s) && Lifecycle(s) && CacheCovered(s) && RowsCovered(s)
  }

  lemma InvKept(s: State, e: Event)
    requires Inv(s) && Enabled(s, e)
    ensures Inv(Next(s, e))
  {
    hide Structure, WillsOnce, CacheCovered, RowsCovered, Enabled, Next, KeepsConn, KeepsSubs, KeepsWill;
    StructureKept(s, e);
    ConnsOpenKept(s, e);
    SubsOpenKept(s, e);
    WillsOpenKept(s, e);
    WillsOnceKept(s, e);
    CacheCoveredKept(s, e);
    RowsCoveredKept(s, e);
  }

  /** The state that the run has reached before its event `i`. */
  function At(rows: set<(string, string)>, es: seq<Event>, i: nat): State
    requires i <= |es|
  {
    Reached(Init(rows), es[..i])
  }

  function End(rows: set<(string, string)>, es: seq<Event>): State
  {
    Reached(Init(rows), es)
  }

  /** Whatever rows the server finds when it starts. */
  lemma {:induction false} InvOverRun(rows: set<(string, string)>, es: seq<Event>)
    requires IsRun(Init(rows), es)
    ensures Inv(End(rows, es))
  {
    hide Next, Enabled;
    if es != [] {
      InvOverRun(rows, es[..|es| - 1]);
      hide Inv;
      InvKept(End(rows, es[..|es| - 1]), es[|es| - 1]);
    }
  }

  lemma {:induction false} PrefixIsRun(rows: set<(string, string)>, es: seq<Event>, n: nat)
    requires IsRun(Init(rows), es) && n <= |es|
    ensures IsRun(Init(rows), es[..n])
    ensures n < |es| ==> Enabled(At(rows, es, n), es[n]) && At(rows, es, n + 1) == Next(At(rows, es, n), es[n])
  {
    hide Enabled, Next;
    if n == |es| {
      assert es[..n] == es;
    } else {
      var m := |es| - 1;
      PrefixIsRun(rows, es[..m], n);
      assert es[..m][..n] == es[..n];
      assert es[..n + 1][..n] == es[..n];
      if n < m {
        assert es[..m][..n + 1] == es[..n + 1];
      } else {
        assert es[..n + 1] == es;
      }
    }
  }

  /** Every handler waits for a frame or has ended. */
  ghost predicate Quiet(s: State)
  {
    forall c :: c in s.threads ==> s.threads[c].Idle? || s.threads[c].Gone?
  }

  // ---------- What the record of a run says of its events ----------

  /** The step sends this value to the connection, in a publication or in an answer. */
  predicate Sends(s: State, e: Event, c: Conn, t: string, v: string)
    requires Enabled(s, e)
  {
    match e
    case SendTo(d, to) => to == c && (c, t, v) in s.threads[d].box
    case Reply(d) => d == c && (t, v) in s.threads[d].mine
    case _ => false
  }

  /** The connection itself begins to publish the value. */
  predicate Begins(e: Event, c: Conn, t: string, v: string)
  {
    e.StartPub? && e.c == c && exists i :: i in e.batch && Publishes(i, t, v)
  }

  /** Somebody begins to publish the value, in a batch or as a last will. */
  predicate Starts(s: State, e: Event, t: string, v: string)
  {
    match e
    case StartPub(_, batch) => exists i :: i in batch && Publishes(i, t, v)
    case TakeWill(c) => c in s.wills && s.wills[c] == (t, v)
    case _ => false
  }

  lemma StartsIs(s: State, e: Event, t: string, v: string)
    ensures Starts(s, e, t, v) <==> (t, v) in Started(s, e)
  {
    if e.StartPub? {
      PublishedIs(e.batch, t, v);
    }
  }

  lemma PublishedIs(items: seq<Item>, t: string, v: string)
    ensures (t, v) in Published(items) <==> exists i :: i in items && Publishes(i, t, v)
  {
    if i :| i in items && Publishes(i, t, v) {
      assert (i.topic, i.value) in Published(items);
    }
  }

  /** The items publish the value, and the connection subscribes to a pattern that matches it. */
  ghost predicate Owes(s: State, items: seq<Item>, c: Conn, t: string, v: string)
  {
    && (exists i :: i in items && Publishes(i, t, v))
    && (exists p :: (p, c) in s.subs && Pattern.Matches(p, t))
  }

  lemma OwesIs(s: State, items: seq<Item>, c: Conn, t: string, v: string)
    ensures Owes(s, items, c, t, v) <==> (c, t, v) in MailOfAll(s.subs, items)
  {
    hide Pattern.Matches;
    if Owes(s, items, c, t, v) {
      var i, p :| i in items && Publishes(i, t, v) && (p, c) in s.subs && Pattern.Matches(p, t);
      IsRecipient(s.subs, i, p, c);
      assert (c, i.topic, i.value) in MailOfAll(s.subs, items);
    }
    if (c, t, v) in MailOfAll(s.subs, items) {
      var i :| i in items && !i.Del? && c in Recipients(s.subs, i) && i.topic == t && i.value == v;
      var x :| x in s.subs && Pattern.Matches(x.0, t) && x.1 == c;
      assert (x.0, c) in s.subs;
    }
  }

  /** The step fails while its handler still has the value to send to this very connection: a send with
      the value in that connection's outbox, or a database call for a batch that publishes the value while
      the connection subscribes to it; or the step commits, with a last will, what such a failed batch had
      stored, and tells nobody. */
  ghost predicate FailsFor(s: State, e: Event, c: Conn, t: string, v: string)
    requires Enabled(s, e)
  {
    match e
    case SendFails(d) => (c, t, v) in s.threads[d].box
    case DbFails(d, _, _) => s.threads[d].Saving? && Owes(s, s.threads[d].items, c, t, v)
    case Commit(d) => d in s.open && Owes(s, s.open[d].items, c, t, v)
    case _ => false
  }

  /** Nobody begins to publish the value after event `i`. */
  ghost predicate NoneSince(rows: set<(string, string)>, es: seq<Event>, i: nat, t: string, v: string)
  {
    forall j :: i < j < |es| ==> !Starts(At(rows, es, j), es[j], t, v)
  }

  /** Since the value was last published by anyone, it was sent to the connection; or it was this
      connection that published it. */
  ghost predicate Got(rows: set<(string, string)>, es: seq<Event>, c: Conn, t: string, v: string)
  {
    exists i: nat :: i < |es| && Enabled(At(rows, es, i), es[i]) && NoneSince(rows, es, i, t, v)
                     && (Sends(At(rows, es, i), es[i], c, t, v) || Begins(es[i], c, t, v))
  }

  /** Since the value was last published by anyone, an operation failed that still had to send it to this
      very connection. */
  ghost predicate Failed(rows: set<(string, string)>, es: seq<Event>, c: Conn, t: string, v: string)
  {
    exists i: nat :: i < |es| && Enabled(At(rows, es, i), es[i]) && NoneSince(rows, es, i, t, v)
                     && FailsFor(At(rows, es, i), es[i], c, t, v)
  }

  lemma SettledStep(s: State, e: Event, c: Conn, t: string, v: string)
    requires Enabled(s, e) && Settled(Next(s, e), c, t, v)
    ensures Sends(s, e, c, t, v) || Begins(e, c, t, v) || FailsFor(s, e, c, t, v)
            || (Settled(s, c, t, v) && !Starts(s, e, t, v))
  {
    hide Pattern.Matches, S.Selected, CacheAfter, RowsAfterAll, HalfDone, Visible, Recipients, PhaseAfter, Published;
    hide MailOfAll, Mail, FoundCached, FoundRows, SubsWithout, Owes, Started, Starts;
    StartsIs(s, e, t, v);
    RecordStep(s, e, c, t, v);
    if e.StartPub? {
      PublishedIs(e.batch, t, v);
    }
    if e.DbFails? && s.threads[e.c].Saving? {
      OwesIs(s, s.threads[e.c].items, c, t, v);
    }
    if e.Commit? && e.c in s.open {
      OwesIs(s, s.open[e.c].items, c, t, v);
    }
  }

  /** What the step leaves on record was there before, or the step puts it there. */
  lemma RecordStep(s: State, e: Event, c: Conn, t: string, v: string)
    requires Enabled(s, e) && Settled(Next(s, e), c, t, v)
    ensures Sends(s, e, c, t, v)
            || (e.StartPub? && e.c == c && (t, v) in Published(e.batch))
            || (e.SendFails? && (c, t, v) in s.threads[e.c].box)
            || (e.DbFails? && s.threads[e.c].Saving? && (c, t, v) in MailOfAll(s.subs, s.threads[e.c].items))
            || (e.Commit? && e.c in s.open && (c, t, v) in MailOfAll(s.subs, s.open[e.c].items))
            || (Settled(s, c, t, v) && (t, v) !in Started(s, e))
  {
    hide Pattern.Matches, S.Selected, CacheAfter, RowsAfterAll, HalfDone, Visible, Recipients, PhaseAfter, Published;
    hide MailOfAll, Mail, FoundCached, FoundRows, SubsWithout;
  }

  /** What is on record happened in the run, and no publication of the value began since. */
  lemma {:induction false} SettledBy(rows: set<(string, string)>, es: seq<Event>, c: Conn, t: string, v: string)
    requires IsRun(Init(rows), es) && Settled(End(rows, es), c, t, v)
    ensures Got(rows, es, c, t, v) || Failed(rows, es, c, t, v)
  {
    hide Enabled, Next, Settled, Starts, Sends, Begins, FailsFor;
    if es == [] {
      NothingSettled(rows, c, t, v);
    } else {
      var n := |es| - 1;
      PrefixIsRun(rows, es, n);
      assert es[..n + 1] == es;
      SettledStep(At(rows, es, n), es[n], c, t, v);
      if Settled(At(rows, es, n), c, t, v) && !Starts(At(rows, es, n), es[n], t, v) {
        SettledBy(rows, es[..n], c, t, v);
        if Got(rows, es[..n], c, t, v) {
          GotEarlier(rows, es, c, t, v);
        } else {
          FailedEarlier(rows, es, c, t, v);
        }
      } else {
        assert NoneSince(rows, es, n, t, v);
      }
    }
  }

  lemma NothingSettled(rows: set<(string, string)>, c: Conn, t: string, v: string)
    ensures !Settled(Init(rows), c, t, v)
  {
  }

  lemma EarlierPrefixes(rows: set<(string, string)>, es: seq<Event>, i: nat, t: string, v: string)
    requires i < |es| - 1 && NoneSince(rows, es[..|es| - 1], i, t, v)
    requires !Starts(At(rows, es, |es| - 1), es[|es| - 1], t, v)
    ensures NoneSince(rows, es, i, t, v) && At(rows, es, i) == At(rows, es[..|es| - 1], i)
  {
    hide Reached, Starts;
    var n := |es| - 1;
    forall j: nat | j <= n ensures es[..n][..j] == es[..j] {
    }
    forall j | i < j < |es| ensures !Starts(At(rows, es, j), es[j], t, v) {
      if j < n {
        assert !Starts(At(rows, es[..n], j), es[..n][j], t, v);
      }
    }
  }

  lemma GotEarlier(rows: set<(string, string)>, es: seq<Event>, c: Conn, t: string, v: string)
    requires es != [] && Got(rows, es[..|es| - 1], c, t, v)
    requires !Starts(At(rows, es, |es| - 1), es[|es| - 1], t, v)
    ensures Got(rows, es, c, t, v)
  {
    hide Enabled, At, NoneSince, Sends, Begins, Starts;
    var n := |es| - 1;
    var i: nat :| i < n && Enabled(At(rows, es[..n], i), es[..n][i]) && NoneSince(rows, es[..n], i, t, v)
                  && (Sends(At(rows, es[..n], i), es[..n][i], c, t, v) || Begins(es[..n][i], c, t, v));
    EarlierPrefixes(rows, es, i, t, v);
  }

  lemma FailedEarlier(rows: set<(string, string)>, es: seq<Event>, c: Conn, t: string, v: string)
    requires es != [] && Failed(rows, es[..|es| - 1], c, t, v)
    requires !Starts(At(rows, es, |es| - 1), es[|es| - 1], t, v)
    ensures Failed(rows, es, c, t, v)
  {
    hide Enabled, At, NoneSince, FailsFor, Starts;
    var n := |es| - 1;
    var i: nat :| i < n && Enabled(At(rows, es[..n], i), es[..n][i]) && NoneSince(rows, es[..n], i, t, v)
                  && FailsFor(At(rows, es[..n], i), es[..n][i], c, t, v);
    EarlierPrefixes(rows, es, i, t, v);
  }

  /** Conversely what a connection got is still on record at the end. */
  lemma GotIsOnRecord(rows: set<(string, string)>, es: seq<Event>, c: Conn, t: string, v: string)
    requires IsRun(Init(rows), es) && Got(rows, es, c, t, v)
    ensures (c, t, v) in End(rows, es).sent + End(rows, es).own
  {
    hide Enabled, End, At, IsRun, Sends, Begins, Starts;
    var i: nat :| i < |es| && Enabled(At(rows, es, i), es[i]) && NoneSince(rows, es, i, t, v)
                  && (Sends(At(rows, es, i), es[i], c, t, v) || Begins(es[i], c, t, v));
    StaysOnRecord(rows, es, i, |es|, c, t, v);
    WholeRun(rows, es);
  }

  lemma WholeRun(rows: set<(string, string)>, es: seq<Event>)
    ensures At(rows, es, |es|) == End(rows, es)
  {
    assert es[..|es|] == es;
  }

  lemma {:induction false} StaysOnRecord(
    rows: set<(string, string)>, es: seq<Event>, i: nat, n: nat, c: Conn, t: string, v: string)
    requires IsRun(Init(rows), es) && i < n <= |es| && Enabled(At(rows, es, i), es[i]) && NoneSince(rows, es, i, t, v)
    requires Sends(At(rows, es, i), es[i], c, t, v) || Begins(es[i], c, t, v)
    ensures (c, t, v) in At(rows, es, n).sent + At(rows, es, n).own
    decreases n
  {
    hide Enabled, Next, At, IsRun, Sends, Begins, Starts;
    PrefixIsRun(rows, es, n - 1);
    if i < n - 1 {
      StaysOnRecord(rows, es, i, n - 1, c, t, v);
      RecordKept(At(rows, es, n - 1), es[n - 1], c, t, v);
    } else {
      Recorded(At(rows, es, i), es[i], c, t, v);
    }
  }

  lemma RecordKept(s: State, e: Event, c: Conn, t: string, v: string)
    requires Enabled(s, e) && (c, t, v) in s.sent + s.own && !Starts(s, e, t, v)
    ensures (c, t, v) in Next(s, e).sent + Next(s, e).own
  {
    hide Pattern.Matches, S.Selected, CacheAfter, RowsAfterAll, HalfDone, Visible, Recipients, PhaseAfter;
    hide Owned, Mail, MailFor, MailOfAll, FoundCached, FoundRows, SubsWithout, Published, Starts;
    StartsIs(s, e, t, v);
  }

  lemma Recorded(s: State, e: Event, c: Conn, t: string, v: string)
    requires Enabled(s, e) && (Sends(s, e, c, t, v) || Begins(e, c, t, v))
    ensures (c, t, v) in Next(s, e).sent + Next(s, e).own
  {
    hide Pattern.Matches, S.Selected, CacheAfter, RowsAfterAll, HalfDone, Visible, Recipients, PhaseAfter, Published;
    hide Mail, MailOfAll, FoundCached, FoundRows, SubsWithout;
    assert Sends(s, e, c, t, v) && e.Reply? ==> (t, v) in s.threads[c].mine;
    if e.StartPub? {
      PublishedIs(e.batch, t, v);
    }
  }

  // ---------- No missed publication ----------

  /** After every run, from whatever rows it starts with, once all handlers are quiet: every open
      subscriber has got each value now cached or stored on a topic it subscribes to, and got it since the
      last time that anyone published that value there; the one exception is a step of the run, since that
      last time, that failed while it still had this value to send to this connection. */
  lemma {:induction false} NoMissedPublish(rows: set<(string, string)>, es: seq<Event>, c: Conn, p: string)
    requires IsRun(Init(rows), es) && Quiet(End(rows, es)) && Subscriber(End(rows, es), c, p)
    ensures var s := End(rows, es);
            && (forall t :: t in s.cache && Pattern.Matches(p, t) ==>
                  Got(rows, es, c, t, s.cache[t]) || Failed(rows, es, c, t, s.cache[t]))
            && (forall r :: r in s.rows && S.Selected(p, r.0) ==>
                  Got(rows, es, c, r.0, r.1) || Failed(rows, es, c, r.0, r.1))
  {
    hide Pattern.Matches, S.Selected, End, IsRun, Got, Failed, Settled, Structure, Lifecycle;
    InvOverRun(rows, es);
    var s := End(rows, es);
    forall t | t in s.cache && Pattern.Matches(p, t)
      ensures Got(rows, es, c, t, s.cache[t]) || Failed(rows, es, c, t, s.cache[t])
    {
      assert Delivered(s, c, t, s.cache[t]) || WillReadCache(s.threads[c], t);
      SettledBy(rows, es, c, t, s.cache[t]);
    }
    forall r | r in s.rows && S.Selected(p, r.0) ensures Got(rows, es, c, r.0, r.1) || Failed(rows, es, c, r.0, r.1) {
      assert Delivered(s, c, r.0, r.1) || WillReadRows(s.threads[c], r.0);
      SettledBy(rows, es, c, r.0, r.1);
    }
  }

  /** No step of the run failed while it had the value to send to the connection. */
  ghost predicate NoFailureFor(rows: set<(string, string)>, es: seq<Event>, c: Conn, t: string, v: string)
  {
    forall i: nat :: i < |es| && Enabled(At(rows, es, i), es[i]) ==> !FailsFor(At(rows, es, i), es[i], c, t, v)
  }

  /** Over the plain alphabet this covers every stored topic that the pattern matches, unless the topic
      ends in a newline: a connection misses no value for which no step failed on its way to it, whatever
      else failed in the run. */
  lemma {:induction false} NoMissedPublishWithoutFailures(
    rows: set<(string, string)>, es: seq<Event>, c: Conn, p: string, t: string, v: string)
    requires IsRun(Init(rows), es) && Quiet(End(rows, es)) && Subscriber(End(rows, es), c, p)
    requires Pattern.Plain(p) && Pattern.Matches(p, t) && NoFailureFor(rows, es, c, t, v)
    requires var s := End(rows, es);
             (t in s.cache && s.cache[t] == v) || ((t, v) in s.rows && !Model.EndsWith(t, "\n"))
    ensures Got(rows, es, c, t, v)
  {
    hide Pattern.Matches, End, IsRun, Got;
    NoMissedPublish(rows, es, c, p);
    var s := End(rows, es);
    if (t, v) in s.rows && !Model.EndsWith(t, "\n") {
      Database.PrefilterLosesNothing(p, t);
      assert S.Selected(p, (t, v).0);
    }
  }

  // ---------- The end of a connection ----------

  /** A connection that has ended stays ended, and is in no table. */
  lemma {:induction false} GoneForGood(rows: set<(string, string)>, es: seq<Event>, n: nat, c: Conn)
    requires IsRun(Init(rows), es) && n <= |es|
    requires c in At(rows, es, n).threads && At(rows, es, n).threads[c].Gone?
    ensures var s := End(rows, es);
            && c in s.threads && s.threads[c].Gone?
            && c !in s.conns && c !in s.wills && forall p :: (p, c) !in s.subs
  {
    GoneStays(rows, es, n, c);
    hide End, IsRun;
    InvOverRun(rows, es);
    OutOfTables(End(rows, es), c);
  }

  lemma {:induction false} GoneStays(rows: set<(string, string)>, es: seq<Event>, n: nat, c: Conn)
    requires n <= |es|
    requires c in At(rows, es, n).threads && At(rows, es, n).threads[c].Gone?
    ensures c in End(rows, es).threads && End(rows, es).threads[c].Gone?
    decreases |es|
  {
    hide Enabled, Next;
    if n == |es| {
      assert es[..n] == es;
    } else {
      var m := |es| - 1;
      assert es[..m][..n] == es[..n];
      GoneStays(rows, es[..m], n, c);
      var before := End(rows, es[..m]);
      if Enabled(before, es[m]) {
        GoneIsLast(before, es[m], c);
        OthersStay(before, es[m]);
      }
    }
  }

  lemma GoneIsLast(s: State, e: Event, c: Conn)
    requires Enabled(s, e) && c in s.threads && s.threads[c].Gone?
    ensures e.c != c
  {
  }

  lemma OutOfTables(s: State, c: Conn)
    requires TablesOpen(s) && c in s.threads && s.threads[c].Gone?
    ensures c !in s.conns && c !in s.wills && forall p :: (p, c) !in s.subs
  {
    forall p ensures (p, c) !in s.subs {
      assert (p, c) in s.subs ==> KeepsSubs(s.threads[(p, c).1]);
    }
  }
}
