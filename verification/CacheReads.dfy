/** What a query does to the retain cache: reduction merges the cached messages with table rows that
    were loaded beside them (broker.py load_msgs with proto/util.py reduce_msgs). */
module CacheReads {
  import opened Wrappers
  import opened Model
  import opened Broker
  import S = Store
  import P = StoreProperties
  import Database
  import Pattern
  import Reduce

  lemma {:induction false} LoadedMembers(st: S.Store, ms: seq<Msg>, x: Msg)
    ensures x in Loaded(st, ms) <==> exists i :: 0 <= i < |ms| && Asks(ms[i]) && x in S.Load(st, ms[i].topic)
  {
    hide S.Load;
    if ms != [] {
      var n := |ms| - 1;
      LoadedMembers(st, ms[..n], x);
      assert Loaded(st, ms) == Loaded(st, ms[..n]) + (if Asks(ms[n]) then S.Load(st, ms[n].topic) else []);
      if i :| 0 <= i < |ms| && Asks(ms[i]) && x in S.Load(st, ms[i].topic) {
        assert i < n ==> ms[..n][i] == ms[i];
      }
    }
  }

  /** The query asks for the topic. */
  ghost predicate Queried(ms: seq<Msg>, topic: string)
  {
    exists i :: 0 <= i < |ms| && Asks(ms[i]) && Pattern.Matches(ms[i].topic, topic)
  }

  /** The query loads an older row with the topic and value of this cached message. */
  ghost predicate OlderTwin(st: S.Store, ms: seq<Msg>, c: Msg)
    requires c.typ.PUB? && Complete(c)
  {
    exists r, i :: r in st.rows && r.topic == c.topic && r.value == c.value.value && r.createdAt < c.createdAt.value
                   && 0 <= i < |ms| && Asks(ms[i]) && S.Selected(ms[i].topic, c.topic)
  }

  lemma {:induction false} GroupIsPublications(st: S.Store, ms: seq<Msg>, c: Msg)
    requires S.Valid(st) && c in st.cache
    ensures Reduce.AllPublications(Reduce.GroupOf(Loaded(st, ms), Reduce.GroupKey(c)))
  {
    hide Loaded;
    var list := Loaded(st, ms);
    var k := Reduce.GroupKey(c);
    var g := Reduce.GroupOf(list, k);
    Reduce.GroupHasKey(list, k);
    LoadedPublications(st, ms);
    forall i | 0 <= i < |g| ensures g[i].typ.PUB? && Complete(g[i]) {
      assert g[i] in g;
    }
  }

  /** A cached message that is queried stands in its own group. */
  lemma {:induction false} QueriedIsLoaded(st: S.Store, ms: seq<Msg>, c: Msg)
    requires c in st.cache && Queried(ms, c.topic)
    ensures c in Reduce.GroupOf(Loaded(st, ms), Reduce.GroupKey(c))
  {
    hide Loaded, S.Load, Reduce.GroupKey, Pattern.Matches;
    var i :| 0 <= i < |ms| && Asks(ms[i]) && Pattern.Matches(ms[i].topic, c.topic);
    P.LoadMembers(st, ms[i].topic, c);
    LoadedMembers(st, ms, c);
    Reduce.GroupMembers(Loaded(st, ms), Reduce.GroupKey(c));
  }

  lemma {:induction false} LoadedComesFrom(st: S.Store, ms: seq<Msg>, x: Msg) returns (i: nat)
    requires x in Loaded(st, ms)
    ensures i < |ms| && Asks(ms[i]) && Pattern.Matches(ms[i].topic, x.topic)
    ensures x in st.cache || exists r :: r in st.rows && S.Selected(ms[i].topic, r.topic) && x == S.MsgOf(r)
  {
    hide Loaded, S.Load, Pattern.Matches, Database.Like;
    LoadedMembers(st, ms, x);
    i :| 0 <= i < |ms| && Asks(ms[i]) && x in S.Load(st, ms[i].topic);
    P.LoadMembers(st, ms[i].topic, x);
  }

  /** A group member other than the cached message is an older or newer row of the same topic and value. */
  lemma {:induction false} GroupOlder(st: S.Store, ms: seq<Msg>, c: Msg, x: Msg)
    requires S.Valid(st) && c in st.cache
    requires x in Reduce.GroupOf(Loaded(st, ms), Reduce.GroupKey(c)) && x.createdAt.Some?
    requires x.createdAt.value < c.createdAt.value
    ensures OlderTwin(st, ms, c) && Queried(ms, c.topic)
  {
    hide Loaded, Pattern.Matches, Database.Like;
    Reduce.GroupHasKey(Loaded(st, ms), Reduce.GroupKey(c));
    var i := LoadedComesFrom(st, ms, x);
    P.CachedUnique(st.cache, c);
    assert x.typ == c.typ && x.topic == c.topic && x.value == c.value;
    if x !in st.cache {
      var r :| r in st.rows && S.Selected(ms[i].topic, r.topic) && x == S.MsgOf(r);
    }
  }

  lemma {:induction false} OlderTwinLoaded(st: S.Store, ms: seq<Msg>, c: Msg) returns (x: Msg)
    requires c in st.cache && c.typ.PUB? && Complete(c) && OlderTwin(st, ms, c)
    ensures x in Reduce.GroupOf(Loaded(st, ms), Reduce.GroupKey(c))
    ensures x.createdAt.Some? && x.createdAt.value < c.createdAt.value && Queried(ms, c.topic)
  {
    hide Loaded, S.Load, Pattern.Matches, Database.Like;
    var r, i :| r in st.rows && r.topic == c.topic && r.value == c.value.value && r.createdAt < c.createdAt.value
                && 0 <= i < |ms| && Asks(ms[i]) && S.Selected(ms[i].topic, c.topic);
    x := S.MsgOf(r);
    P.LoadMembers(st, ms[i].topic, x);
    LoadedMembers(st, ms, x);
    Reduce.GroupMembers(Loaded(st, ms), Reduce.GroupKey(c));
  }

  /** A query leaves the creation time of a cached message alone if and only if it does not load an
      older row with the same topic and value. */
  lemma {:induction false} ReadKeepsCreation(st: S.Store, ms: seq<Msg>, c: Msg)
    requires S.Valid(st) && c in st.cache
    ensures Refreshed(c, Loaded(st, ms)).createdAt == c.createdAt <==> !OlderTwin(st, ms, c)
  {
    hide Loaded, Reduce.GroupKey, OlderTwin, Queried, Reduce.MergeAll;
    var g := Reduce.GroupOf(Loaded(st, ms), Reduce.GroupKey(c));
    GroupIsPublications(st, ms, c);
    if OlderTwin(st, ms, c) {
      var x := OlderTwinLoaded(st, ms, c);
      Reduce.MergeAllBounds(g);
      var j :| 0 <= j < |g| && g[j] == x;
    } else if g != [] {
      Reduce.MergeAllBounds(g);
      var m := Reduce.MergeAll(g);
      assert g[0] in g;
      assert Queried(ms, c.topic) by {
        GroupQueried(st, ms, c);
      }
      QueriedIsLoaded(st, ms, c);
      var j :| 0 <= j < |g| && g[j] == c;
      var i :| 0 <= i < |g| && g[i].createdAt == m.createdAt;
      assert g[i] in g;
      if g[i].createdAt.value < c.createdAt.value {
        GroupOlder(st, ms, c, g[i]);
      }
    }
  }

  lemma {:induction false} GroupQueried(st: S.Store, ms: seq<Msg>, c: Msg)
    requires Reduce.GroupOf(Loaded(st, ms), Reduce.GroupKey(c)) != [] && c.typ.PUB?
    ensures Queried(ms, c.topic)
  {
    hide Loaded, Pattern.Matches, Database.Like;
    var k := Reduce.GroupKey(c);
    var x := Reduce.GroupOf(Loaded(st, ms), k)[0];
    Reduce.GroupHasKey(Loaded(st, ms), k);
    assert x in Reduce.GroupOf(Loaded(st, ms), k);
    var i := LoadedComesFrom(st, ms, x);
  }

  // ---------- Runs of stores and queries ----------

  datatype Event = Write(m: Msg) | Query(asked: seq<Msg>)

  function After(st: S.Store, e: Event): S.Store
    requires e.Write? ==> Complete(e.m)
  {
    match e
    case Write(m) => S.SaveOne(st, m)
    case Query(asked) => S.Store(AfterRead(st.cache, Loaded(st, asked)), st.rows)
  }

  ghost predicate AllWritable(es: seq<Event>)
  {
    forall i :: 0 <= i < |es| && es[i].Write? ==> Complete(es[i].m)
  }

  function Run(st: S.Store, es: seq<Event>): S.Store
    requires AllWritable(es)
  {
    if es == [] then st else After(Run(st, es[..|es| - 1]), es[|es| - 1])
  }

  /** The creation time that the writes alone give the topic. */
  function Expected(created: Option<int>, t: string, es: seq<Event>): Option<int>
    requires AllWritable(es)
  {
    if es == [] then created
    else
      var before := Expected(created, t, es[..|es| - 1]);
      match es[|es| - 1]
      case Write(m) => P.RetainedAfter(before, t, m)
      case Query(_) => before
  }

  /** No query of the run loads an older row with the cached value of the topic. */
  ghost predicate NoOlderTwin(st: S.Store, es: seq<Event>, t: string)
    requires AllWritable(es) && S.Valid(st)
    decreases |es|
  {
    if es == [] then true
    else
      var n := |es| - 1;
      RunKeepsValid(st, es[..n]);
      var before := Run(st, es[..n]);
      && NoOlderTwin(st, es[..n], t)
      && (es[n].Query? ==> forall c :: c in before.cache && c.topic == t ==> !OlderTwin(before, es[n].asked, c))
  }

  lemma {:induction false} RunKeepsValid(st: S.Store, es: seq<Event>)
    requires AllWritable(es) && S.Valid(st)
    ensures S.Valid(Run(st, es))
  {
    hide S.Valid, S.SaveOne, AfterRead, Loaded;
    if es != [] {
      var n := |es| - 1;
      RunKeepsValid(st, es[..n]);
      var before := Run(st, es[..n]);
      match es[n]
      case Write(m) => S.SaveOneKeepsValid(before, m);
      case Query(asked) =>
        LoadedPublications(before, asked);
        RefreshedStaysValid(before, Loaded(before, asked));
    }
  }

  lemma {:induction false} RefreshedTopic(c: Msg, loaded: seq<Msg>)
    ensures Refreshed(c, loaded).topic == c.topic
  {
    var k := Reduce.GroupKey(c);
    var g := Reduce.GroupOf(loaded, k);
    Reduce.GroupHasKey(loaded, k);
    if g != [] {
      Reduce.MergeAllShape(g);
      assert g[0] in g;
    }
  }

  lemma {:induction false} QueryStep(st: S.Store, asked: seq<Msg>, t: string)
    requires S.Valid(st)
    requires forall c :: c in st.cache && c.topic == t ==> !OlderTwin(st, asked, c)
    ensures P.CachedCreation(AfterRead(st.cache, Loaded(st, asked)), t) == P.CachedCreation(st.cache, t)
  {
    hide Loaded, Refreshed, OlderTwin;
    var cache' := AfterRead(st.cache, Loaded(st, asked));
    forall i | 0 <= i < |st.cache| ensures cache'[i].topic == st.cache[i].topic {
      RefreshedTopic(st.cache[i], Loaded(st, asked));
    }
    var i := S.Position(st.cache, t);
    P.PositionIs(cache', t, i);
    if i < |st.cache| {
      ReadKeepsCreation(st, asked, st.cache[i]);
    }
  }

  /** Over every run of writes and queries in which no query loads an older row with the value cached
      for the topic, a retained topic shows the creation time of its first RETAIN since its removal. */
  lemma {:induction false} RetainedCreationOverRuns(st: S.Store, es: seq<Event>, t: string)
    requires AllWritable(es) && S.Valid(st) && NoOlderTwin(st, es, t)
    ensures P.CachedCreation(Run(st, es).cache, t) == Expected(P.CachedCreation(st.cache, t), t, es)
  {
    hide S.Valid, S.SaveOne, AfterRead, Loaded, OlderTwin, P.CachedCreation, P.RetainedAfter;
    if es != [] {
      var n := |es| - 1;
      RunKeepsValid(st, es[..n]);
      RetainedCreationOverRuns(st, es[..n], t);
      var before := Run(st, es[..n]);
      match es[n]
      case Write(m) => P.RetainedStep(before, m, t);
      case Query(asked) => QueryStep(before, asked, t);
    }
  }

  function ValueAt(mode: PublishMode, time: int): Msg
  {
    Msg(PUB, "/a", Some("v"), Some(time), Some(time), Some(mode))
  }

  lemma PersistedThenRetained()
    ensures var st := S.SaveOne(S.SaveOne(S.Store([], []), ValueAt(PERSIST, 1)), ValueAt(RETAIN, 5));
            S.Valid(st) && st.cache == [ValueAt(RETAIN, 5)] && st.rows == [Database.Row("/a", "v", 1, 1, PERSIST)]
  {
  }

  lemma ExpectedTime()
    ensures P.RetainedAfter(P.RetainedAfter(None, "/a", ValueAt(PERSIST, 1)), "/a", ValueAt(RETAIN, 5)) == Some(5)
  {
  }

  lemma OnlyCached(c: Msg, loaded: seq<Msg>)
    requires Refreshed(c, loaded).topic == c.topic
    ensures P.CachedCreation(AfterRead([c], loaded), c.topic) == Refreshed(c, loaded).createdAt
  {
    hide Refreshed;
    P.PositionIs(AfterRead([c], loaded), c.topic, 0);
  }

  lemma OneMore(st: S.Store, es: seq<Event>, e: Event, t: string)
    requires AllWritable(es) && (e.Write? ==> Complete(e.m))
    ensures AllWritable(es + [e]) && Run(st, es + [e]) == After(Run(st, es), e)
    ensures Expected(None, t, es + [e])
            == if e.Write? then P.RetainedAfter(Expected(None, t, es), t, e.m) else Expected(None, t, es)
  {
    hide After, P.RetainedAfter;
    assert (es + [e])[..|es|] == es;
  }

  /** A value persisted at time 1 and retained at time 5 shows 1 once anyone has asked for it. */
  lemma {:induction false} ReadChangesCreation()
    ensures var asked := [Msg(GET, "/a", None, None, None, None)];
            var es := [] + [Write(ValueAt(PERSIST, 1))] + [Write(ValueAt(RETAIN, 5))] + [Query(asked)];
            && AllWritable(es) && Expected(None, "/a", es) == Some(5)
            && P.CachedCreation(Run(S.Store([], []), es).cache, "/a") != Some(5)
  {
    hide Loaded, Refreshed, S.SaveOne, P.RetainedAfter, P.CachedCreation, Pattern.Matches, S.Selected;
    hide AfterRead, Run, Expected;
    var asked := [Msg(GET, "/a", None, None, None, None)];
    var p, r := ValueAt(PERSIST, 1), ValueAt(RETAIN, 5);
    var st0 := S.Store([], []);
    var st := S.SaveOne(S.SaveOne(st0, p), r);
    PersistedThenRetained();
    ExpectedTime();
    NothingRun(st0);
    OneMore(st0, [], Write(p), "/a");
    OneMore(st0, [] + [Write(p)], Write(r), "/a");
    OneMore(st0, [] + [Write(p)] + [Write(r)], Query(asked), "/a");
    P.SelectedItself("/a");
    OlderRow(st, asked, r);
    ReadKeepsCreation(st, asked, r);
    RefreshedTopic(r, Loaded(st, asked));
    OnlyCached(r, Loaded(st, asked));
  }

  lemma NothingRun(st: S.Store)
    ensures Run(st, []) == st && Expected(None, "/a", []) == None
  {
  }

  lemma OlderRow(st: S.Store, asked: seq<Msg>, c: Msg)
    requires asked == [Msg(GET, "/a", None, None, None, None)] && S.Selected("/a", "/a")
    requires c == ValueAt(RETAIN, 5) && st.rows == [Database.Row("/a", "v", 1, 1, PERSIST)]
    ensures OlderTwin(st, asked, c)
  {
    hide S.Selected;
    assert st.rows[0] in st.rows && Asks(asked[0]);
  }
}
