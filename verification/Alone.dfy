/** A frame that no other step interrupts has in the interleaved model exactly the effect of the atomic one: on
    the stored values, on who is to be sent what, and on what a query is answered with. */
module Alone {
  import opened Interleaving
  import opened Agreement
  import opened Model
  import S = Store
  import Pattern

  lemma Extended(s: State, es: seq<Event>, e: Event)
    requires IsRun(s, es) && Enabled(Reached(s, es), e)
    ensures IsRun(s, es + [e]) && Reached(s, es + [e]) == Next(Reached(s, es), e)
  {
    assert (es + [e])[..|es|] == es;
  }

  // ---------- A batch of publications and deletions ----------

  function CacheAfterAll(cache: map<string, string>, items: seq<Item>): map<string, string>
  {
    if items == [] then cache else CacheAfter(CacheAfterAll(cache, items[..|items| - 1]), items[|items| - 1])
  }

  /** The steps of storing `n` items. */
  function Touches(es: seq<Event>, c: Conn, n: nat): seq<Event>
  {
    if n == 0 then es else Touches(es, c, n - 1) + [TouchCache(c)]
  }

  function Dispatches(es: seq<Event>, c: Conn, n: nat): seq<Event>
  {
    if n == 0 then es else Dispatches(es, c, n - 1) + [Dispatch(c)]
  }

  lemma {:induction false} Touched(s: State, es: seq<Event>, c: Conn, items: seq<Item>, n: nat)
    requires IsRun(s, es) && n <= |items|
    requires var r := Reached(s, es); c in r.threads && r.threads[c] == Saving(items, 0, false)
    ensures IsRun(s, Touches(es, c, n))
    ensures var r := Reached(s, es);
            Reached(s, Touches(es, c, n)) == r.(cache := CacheAfterAll(r.cache, items[..n]),
                                                threads := r.threads[c := Saving(items, n, false)])
  {
    hide IsRun, Reached, CacheAfter;
    var r := Reached(s, es);
    if n == 0 {
      assert r.threads == r.threads[c := Saving(items, 0, false)];
    } else {
      Touched(s, es, c, items, n - 1);
      var before := Touches(es, c, n - 1);
      Extended(s, before, TouchCache(c));
      assert items[..n][..n - 1] == items[..n - 1];
      assert Reached(s, Touches(es, c, n)).threads == r.threads[c := Saving(items, n, false)];
    }
  }

  /** What the batch owes: each value that it publishes, to each other connection with a pattern that matches. */
  ghost predicate Owed(subs: set<(string, Conn)>, c: Conn, items: seq<Item>, x: (Conn, string, string))
  {
    && x.0 != c && (exists i :: i in items && Publishes(i, x.1, x.2))
    && exists p :: (p, x.0) in subs && Pattern.Matches(p, x.1)
  }

  lemma OwedMore(subs: set<(string, Conn)>, c: Conn, items: seq<Item>, n: nat, x: (Conn, string, string))
    requires n < |items|
    ensures Owed(subs, c, items[..n + 1], x)
            <==> Owed(subs, c, items[..n], x) || x in Mail(Recipients(subs, items[n]) - {c}, items[n])
  {
    hide Pattern.Matches;
    assert items[..n + 1] == items[..n] + [items[n]];
    if x in Mail(Recipients(subs, items[n]) - {c}, items[n]) {
      var y :| y in subs && Pattern.Matches(y.0, items[n].topic) && y.1 == x.0;
      assert (y.0, x.0) in subs && Publishes(items[n], x.1, x.2);
    }
    if Owed(subs, c, items[..n + 1], x) && !Owed(subs, c, items[..n], x) {
      var p :| (p, x.0) in subs && Pattern.Matches(p, x.1);
      assert Publishes(items[n], x.1, x.2) && (p, x.0).1 in Recipients(subs, items[n]);
    }
  }

  lemma {:induction false} Dispatched(s: State, es: seq<Event>, c: Conn, items: seq<Item>, n: nat)
    returns (box: set<(Conn, string, string)>)
    requires IsRun(s, es) && n <= |items|
    requires var r := Reached(s, es); c in r.threads && r.threads[c] == Dispatching(items, 0, {}, false)
    ensures IsRun(s, Dispatches(es, c, n))
    ensures var r := Reached(s, es);
            Reached(s, Dispatches(es, c, n)) == r.(threads := r.threads[c := Dispatching(items, n, box, false)])
    ensures forall x :: x in box <==> Owed(Reached(s, es).subs, c, items[..n], x)
  {
    hide IsRun, Reached, Enabled, Next, Recipients, Mail, Owed;
    var r := Reached(s, es);
    if n == 0 {
      box := {};
      NothingOwed(r.subs, c);
      assert r.threads == r.threads[c := Dispatching(items, 0, {}, false)];
    } else {
      var was := Dispatched(s, es, c, items, n - 1);
      var before := Dispatches(es, c, n - 1);
      DispatchStep(Reached(s, before), c, items, n - 1, was);
      Extended(s, before, Dispatch(c));
      box := was + Mail(Recipients(r.subs, items[n - 1]) - {c}, items[n - 1]);
      forall x ensures x in box <==> Owed(r.subs, c, items[..n], x) {
        OwedMore(r.subs, c, items, n - 1, x);
      }
      assert Reached(s, Dispatches(es, c, n)).threads == r.threads[c := Dispatching(items, n, box, false)];
    }
  }

  lemma DispatchStep(q: State, c: Conn, items: seq<Item>, n: nat, box: set<(Conn, string, string)>)
    requires c in q.threads && n < |items| && q.threads[c] == Dispatching(items, n, box, false)
    ensures Enabled(q, Dispatch(c))
    ensures var mail := Mail(Recipients(q.subs, items[n]) - {c}, items[n]);
            Next(q, Dispatch(c)) == q.(threads := q.threads[c := Dispatching(items, n + 1, box + mail, false)])
  {
    hide Recipients, Mail;
  }

  lemma NothingOwed(subs: set<(string, Conn)>, c: Conn)
    ensures forall x :: !Owed(subs, c, [], x)
  {
  }

  lemma {:induction false} CacheAllAgrees(st: S.Store, ms: seq<Msg>)
    requires S.Valid(st) && Storable(ms)
    ensures S.Valid(S.Save(st, ms))
    ensures CacheValues(S.Save(st, ms).cache) == CacheAfterAll(CacheValues(st.cache), ItemsOf(ms))
  {
    hide S.SaveOne, CacheValues, CacheAfter, S.Valid;
    S.SaveKeepsValid(st, ms);
    if ms != [] {
      var n := |ms| - 1;
      CacheAllAgrees(st, ms[..n]);
      CacheAgrees(S.Save(st, ms[..n]), ms[n]);
      assert ItemsOf(ms)[..n] == ItemsOf(ms[..n]);
    }
  }

  /** The steps of publishing a batch, up to the sending. */
  function PublishSteps(c: Conn, items: seq<Item>): seq<Event>
  {
    Dispatches(Touches([StartPub(c, items)], c, |items|) + [Commit(c)], c, |items|) + [StartSend(c)]
  }

  /** A batch that runs alone can take its steps one after the other, leaves the values that storing it atomically
      leaves, in the cache and in the table, and goes on to send each value that it publishes to exactly the
      other connections that subscribe to a pattern that matches its topic. */
  lemma {:induction false} PublishAgrees(s: State, c: Conn, st: S.Store, ms: seq<Msg>)
    requires c in s.threads && s.threads[c].Idle? && c !in s.open && S.Valid(st) && Storable(ms)
    requires s.cache == CacheValues(st.cache) && s.rows == RowValues(st.rows)
    ensures IsRun(s, PublishSteps(c, ItemsOf(ms))) && S.Valid(S.Save(st, ms))
    ensures var r := Reached(s, PublishSteps(c, ItemsOf(ms)));
            && r.cache == CacheValues(S.Save(st, ms).cache)
            && r.rows == RowValues(S.Save(st, ms).rows)
            && r.subs == s.subs && c in r.threads && r.threads[c].Sending? && !r.threads[c].dying
            && forall x :: x in r.threads[c].box <==> Owed(s.subs, c, ItemsOf(ms), x)
  {
    hide IsRun, Reached, CacheAfter, RowsAfterAll, CacheAfterAll, CacheValues, RowValues;
    hide Owed, Published, Owned, Renewed, S.Valid, S.Save;
    var items := ItemsOf(ms);
    NothingRun(s);
    Extended(s, [], StartPub(c, items));
    var es := [] + [StartPub(c, items)];
    assert es == [StartPub(c, items)];
    Started(s, c, items);
    Touched(s, es, c, items, |items|);
    assert items[..|items|] == items;
    var touched := Touches(es, c, |items|);
    Extended(s, touched, Commit(c));
    Committed(Reached(s, touched), c, items);
    var box := Dispatched(s, touched + [Commit(c)], c, items, |items|);
    var all := Dispatches(touched + [Commit(c)], c, |items|);
    Extended(s, all, StartSend(c));
    CacheAllAgrees(st, ms);
    BatchAgrees(st, ms);
  }

  lemma NothingRun(s: State)
    ensures IsRun(s, []) && Reached(s, []) == s
  {
  }

  lemma Started(s: State, c: Conn, items: seq<Item>)
    requires c in s.threads && s.threads[c].Idle?
    ensures Enabled(s, StartPub(c, items))
    ensures var r := Next(s, StartPub(c, items));
            && r.cache == s.cache && r.rows == s.rows && r.subs == s.subs && r.open == s.open
            && c in r.threads && r.threads[c] == Saving(items, 0, false)
  {
  }

  lemma Committed(s: State, c: Conn, items: seq<Item>)
    requires c in s.threads && s.threads[c] == Saving(items, |items|, false) && c !in s.open
    ensures Enabled(s, Commit(c))
    ensures var r := Next(s, Commit(c));
            && r.cache == s.cache && r.rows == RowsAfterAll(s.rows, items) && r.subs == s.subs
            && c in r.threads && r.threads[c] == Dispatching(items, 0, {}, false)
  {
    hide RowsAfterAll;
  }

  // ---------- A batch of queries ----------

  /** The steps of answering one query. */
  function AskSteps(c: Conn, a: Ask): seq<Event>
  {
    if a.Unsub? then [Answer(c)] else [Answer(c), ReadCache(c), ReadRows(c)]
  }

  function AnswerSteps(es: seq<Event>, c: Conn, asks: seq<Ask>): seq<Event>
  {
    if asks == [] then es
    else AnswerSteps(es, c, asks[..|asks| - 1]) + AskSteps(c, asks[|asks| - 1])
  }

  function SubsAfter(subs: set<(string, Conn)>, c: Conn, asks: seq<Ask>): set<(string, Conn)>
  {
    if asks == [] then subs
    else
      var before := SubsAfter(subs, c, asks[..|asks| - 1]);
      match asks[|asks| - 1]
      case Get(_) => before
      case Sub(p) => before + {(p, c)}
      case Unsub(p) => before - {(p, c)}
  }

  /** Some GET or SUB finds the value. */
  ghost predicate FoundFor(cache: map<string, string>, rows: set<(string, string)>, asks: seq<Ask>, y: (string, string))
  {
    exists a :: a in asks && !a.Unsub?
      && ((y.0 in cache && cache[y.0] == y.1 && Pattern.Matches(a.pattern, y.0))
          || (y in rows && S.Selected(a.pattern, y.0)))
  }

  lemma SubsMore(subs: set<(string, Conn)>, c: Conn, asks: seq<Ask>, n: nat)
    requires n < |asks|
    ensures SubsAfter(subs, c, asks[..n + 1])
            == match asks[n]
               case Get(_) => SubsAfter(subs, c, asks[..n])
               case Sub(p) => SubsAfter(subs, c, asks[..n]) + {(p, c)}
               case Unsub(p) => SubsAfter(subs, c, asks[..n]) - {(p, c)}
  {
    assert asks[..n + 1][..n] == asks[..n] && asks[..n + 1] != [];
  }

  lemma FoundMore(cache: map<string, string>, rows: set<(string, string)>, asks: seq<Ask>, n: nat, y: (string, string))
    requires n < |asks|
    ensures FoundFor(cache, rows, asks[..n + 1], y)
            <==> FoundFor(cache, rows, asks[..n], y)
                 || (!asks[n].Unsub? && y in FoundCached(cache, asks[n].pattern) + FoundRows(rows, asks[n].pattern))
  {
    hide Pattern.Matches, S.Selected;
    assert asks[..n + 1] == asks[..n] + [asks[n]];
  }

  /** The state while the connection answers alone. */
  ghost predicate Answered(r: State, q: State, c: Conn, asks: seq<Ask>, n: nat)
    requires n <= |asks|
  {
    && q.cache == r.cache && q.rows == r.rows && q.sent == r.sent
    && q.subs == SubsAfter(r.subs, c, asks[..n])
    && c in q.threads && q.threads[c].Answering? && q.threads[c].asks == asks && q.threads[c].next == n
    && forall y :: y in q.threads[c].mine <==> FoundFor(r.cache, r.rows, asks[..n], y)
  }

  lemma {:induction false} AnswersOne(s: State, es: seq<Event>, r: State, c: Conn, asks: seq<Ask>, n: nat)
    requires IsRun(s, es) && n < |asks| && Answered(r, Reached(s, es), c, asks, n)
    ensures IsRun(s, es + AskSteps(c, asks[n]))
    ensures Answered(r, Reached(s, es + AskSteps(c, asks[n])), c, asks, n + 1)
  {
    hide IsRun, Reached, FoundFor, FoundCached, FoundRows, Pattern.Matches, S.Selected, Enabled, Next, SubsAfter;
    var q := Reached(s, es);
    Extended(s, es, Answer(c));
    AnswerStep(q, c, asks, n);
    var q1 := Next(q, Answer(c));
    if !asks[n].Unsub? {
      ReadSteps(q1, c, asks, n);
      Extended(s, es + [Answer(c)], ReadCache(c));
      Extended(s, es + [Answer(c)] + [ReadCache(c)], ReadRows(c));
      assert es + AskSteps(c, asks[n]) == es + [Answer(c)] + [ReadCache(c)] + [ReadRows(c)];
    }
    var q' := Reached(s, es + AskSteps(c, asks[n]));
    SubsMore(r.subs, c, asks, n);
    forall y ensures y in q'.threads[c].mine <==> FoundFor(r.cache, r.rows, asks[..n + 1], y) {
      FoundMore(r.cache, r.rows, asks, n, y);
    }
  }

  lemma AnswerStep(q: State, c: Conn, asks: seq<Ask>, n: nat)
    requires n < |asks| && c in q.threads && q.threads[c].Answering?
    requires q.threads[c].asks == asks && q.threads[c].next == n
    ensures Enabled(q, Answer(c))
    ensures var q' := Next(q, Answer(c));
            && q'.cache == q.cache && q'.rows == q.rows && q'.sent == q.sent
            && q'.subs == (match asks[n]
                           case Get(_) => q.subs
                           case Sub(p) => q.subs + {(p, c)}
                           case Unsub(p) => q.subs - {(p, c)})
            && c in q'.threads
            && q'.threads[c] == if asks[n].Unsub? then Answering(asks, n + 1, q.threads[c].mine)
                                else ReadingCache(asks, n, q.threads[c].mine)
  {
  }

  lemma ReadSteps(q: State, c: Conn, asks: seq<Ask>, n: nat)
    requires n < |asks| && c in q.threads && q.threads[c].ReadingCache?
    requires q.threads[c].asks == asks && q.threads[c].next == n
    ensures Enabled(q, ReadCache(c)) && Enabled(Next(q, ReadCache(c)), ReadRows(c))
    ensures var q' := Next(Next(q, ReadCache(c)), ReadRows(c));
            && q'.cache == q.cache && q'.rows == q.rows && q'.sent == q.sent && q'.subs == q.subs && c in q'.threads
            && q'.threads[c] == Answering(asks, n + 1, q.threads[c].mine + FoundCached(q.cache, asks[n].pattern)
                                                       + FoundRows(q.rows, asks[n].pattern))
  {
    hide FoundCached, FoundRows;
  }

  lemma {:induction false} AnswersAll(s: State, es: seq<Event>, r: State, c: Conn, asks: seq<Ask>, n: nat)
    requires IsRun(s, es) && n <= |asks| && Answered(r, Reached(s, es), c, asks, 0)
    ensures IsRun(s, AnswerSteps(es, c, asks[..n]))
    ensures Answered(r, Reached(s, AnswerSteps(es, c, asks[..n])), c, asks, n)
  {
    hide IsRun, Reached, Answered;
    if n > 0 {
      assert asks[..n][..n - 1] == asks[..n - 1];
      AnswersAll(s, es, r, c, asks, n - 1);
      AnswersOne(s, AnswerSteps(es, c, asks[..n - 1]), r, c, asks, n - 1);
    }
  }

  /** A batch of queries that runs alone can take its steps one after the other; it is then sent exactly what one
      of its GETs or SUBs finds in the cache or in the table, and its SUBs and UNSUBs count in their order. */
  lemma {:induction false} QueryAgrees(s: State, c: Conn, asks: seq<Ask>)
    requires c in s.threads && s.threads[c].Idle?
    ensures var es := AnswerSteps([StartAsk(c, asks)], c, asks) + [Reply(c)];
            && IsRun(s, es)
            && var r := Reached(s, es);
               && r.cache == s.cache && r.rows == s.rows && r.subs == SubsAfter(s.subs, c, asks)
               && c in r.threads && r.threads[c].Idle?
               && forall d, t, v :: (d, t, v) in r.sent
                    <==> (d, t, v) in s.sent || (d == c && FoundFor(s.cache, s.rows, asks, (t, v)))
  {
    hide IsRun, Reached, FoundFor, SubsAfter;
    NothingRun(s);
    Asked(s, c, asks);
    Extended(s, [], StartAsk(c, asks));
    var es := [] + [StartAsk(c, asks)];
    assert es == [StartAsk(c, asks)];
    AnswersAll(s, es, s, c, asks, |asks|);
    assert asks[..|asks|] == asks;
    var q := Reached(s, AnswerSteps(es, c, asks));
    Extended(s, AnswerSteps(es, c, asks), Reply(c));
    Replied(q, c);
  }

  lemma Asked(s: State, c: Conn, asks: seq<Ask>)
    requires c in s.threads && s.threads[c].Idle?
    ensures Enabled(s, StartAsk(c, asks)) && Answered(s, Next(s, StartAsk(c, asks)), c, asks, 0)
  {
    assert asks[..0] == [];
  }

  lemma Replied(q: State, c: Conn)
    requires c in q.threads && q.threads[c].Answering? && q.threads[c].next == |q.threads[c].asks|
    ensures Enabled(q, Reply(c))
    ensures var r := Next(q, Reply(c));
            && r.cache == q.cache && r.rows == q.rows && r.subs == q.subs && c in r.threads && r.threads[c].Idle?
            && forall d, t, v :: (d, t, v) in r.sent
                 <==> (d, t, v) in q.sent || (d == c && (t, v) in q.threads[c].mine)
  {
    var mine := q.threads[c].mine;
    forall d, t, v ensures (d, t, v) in Owned(c, mine) <==> d == c && (t, v) in mine {
      if (t, v) in mine {
        assert (c, (t, v).0, (t, v).1) in Owned(c, mine);
      }
    }
  }
}
