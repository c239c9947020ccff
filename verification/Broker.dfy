/** The broker (broker.py), each call running on its own. */
module Broker {
  import opened Wrappers
  import opened Model
  import opened Seqs
  import opened Messages
  import opened SendQueue
  import S = Store
  import Database
  import T = Table
  import Pattern
  import Reduce

  /** `c` holds a subscription whose pattern matches the topic. */
  ghost predicate Subscribed(sub: map<string, set<Connection>>, c: Connection, topic: string)
  {
    exists p :: p in sub && c in sub[p] && Pattern.Matches(p, topic)
  }

  /** A list without the element at `i` is the cache without that topic. */
  lemma {:induction false} DropAt(cache: seq<Msg>, topic: string, i: nat)
    requires S.OnePerTopic(cache) && i == S.Position(cache, topic)
    ensures S.CacheDrop(cache, topic) == if i < |cache| then cache[..i] + cache[i + 1..] else cache
  {
    var f := S.OtherTopic(topic);
    if i < |cache| {
      assert cache == cache[..i] + [cache[i]] + cache[i + 1..];
      FilterConcat(f, cache[..i] + [cache[i]], cache[i + 1..]);
      FilterConcat(f, cache[..i], [cache[i]]);
      FilterOne(f, cache[i]);
      FilterAll(f, cache[..i]);
      FilterAll(f, cache[i + 1..]);
    } else {
      FilterAll(f, cache);
    }
  }

  /** What get_subs is asked about: a PUB's topic, or a DEL's pattern. */
  datatype Target = Topic(topic: string) | Wild(pattern: string)

  /** The messages of a batch that a connection is sent: publications on its topics. */
  ghost predicate Wants(sub: map<string, set<Connection>>, c: Connection, m: Msg)
  {
    m.typ.PUB? && Subscribed(sub, c, m.topic)
  }

  ghost function Wanted(sub: map<string, set<Connection>>, c: Connection, ms: seq<Msg>): seq<Msg>
  {
    if ms == [] then []
    else Wanted(sub, c, ms[..|ms| - 1]) + (if Wants(sub, c, ms[|ms| - 1]) then [ms[|ms| - 1]] else [])
  }

  /** The same selection on the message objects, `ms` being their contents. */
  ghost function Picked(sub: map<string, set<Connection>>, c: Connection, batch: seq<NetfindMessage>, ms: seq<Msg>)
    : seq<NetfindMessage>
    requires |batch| == |ms|
  {
    if ms == [] then []
    else Picked(sub, c, batch[..|ms| - 1], ms[..|ms| - 1])
         + (if Wants(sub, c, ms[|ms| - 1]) then [batch[|ms| - 1]] else [])
  }

  lemma {:induction false} PickedAreWanted(sub: map<string, set<Connection>>, c: Connection, batch: seq<NetfindMessage>)
    ensures Snap(Picked(sub, c, batch, Snap(batch))) == Wanted(sub, c, Snap(batch))
    ensures forall m :: m in Picked(sub, c, batch, Snap(batch)) ==> m in batch
  {
    if batch != [] {
      var n := |batch| - 1;
      assert Snap(batch)[..n] == Snap(batch[..n]);
      PickedAreWanted(sub, c, batch[..n]);
    }
  }

  lemma SelectOneMore(sub: map<string, set<Connection>>, c: Connection,
                      batch: seq<NetfindMessage>, ms: seq<Msg>, i: nat)
    requires |batch| == |ms| && i < |ms|
    ensures Wanted(sub, c, ms[..i + 1]) == Wanted(sub, c, ms[..i]) + (if Wants(sub, c, ms[i]) then [ms[i]] else [])
    ensures Picked(sub, c, batch[..i + 1], ms[..i + 1])
            == Picked(sub, c, batch[..i], ms[..i]) + (if Wants(sub, c, ms[i]) then [batch[i]] else [])
  {
    assert ms[..i + 1][..i] == ms[..i] && batch[..i + 1][..i] == batch[..i];
  }

  lemma SelectNone(sub: map<string, set<Connection>>, c: Connection)
    ensures Wanted(sub, c, []) == [] && Picked(sub, c, [], []) == []
  {
  }

  /** A selection has no equal keys when the batch has none. */
  lemma {:induction false} WantedDistinct(sub: map<string, set<Connection>>, c: Connection, ms: seq<Msg>)
    requires DistinctKeys(ms)
    ensures DistinctKeys(Wanted(sub, c, ms))
    ensures forall m :: m in Wanted(sub, c, ms) ==> m in ms
  {
    if ms != [] {
      WantedDistinct(sub, c, ms[..|ms| - 1]);
      var w := Wanted(sub, c, ms[..|ms| - 1]);
      forall i | 0 <= i < |w| ensures Reduce.GroupKey(w[i]) != Reduce.GroupKey(ms[|ms| - 1]) {
        assert w[i] in ms[..|ms| - 1];
      }
    }
  }

  /** The keys of the publications that a connection is sent: whether it wants one depends on its key only. */
  ghost function WantedKeys(sub: map<string, set<Connection>>, c: Connection): iset<Reduce.Key>
  {
    iset k: Reduce.Key | k.rank == PUB.Rank() && Subscribed(sub, c, k.topic)
  }

  lemma WantsByKey(sub: map<string, set<Connection>>, c: Connection, m: Msg)
    ensures Wants(sub, c, m) <==> Reduce.GroupKey(m) in WantedKeys(sub, c)
  {
    hide Subscribed;
  }

  lemma {:induction false} SelectionByKey(sub: map<string, set<Connection>>, c: Connection,
                                          batch: seq<NetfindMessage>, ms: seq<Msg>)
    requires |batch| == |ms|
    ensures Picked(sub, c, batch, ms) == PickBy(batch, ms, WantedKeys(sub, c))
    decreases |ms|
  {
    hide Wants, WantedKeys, Reduce.GroupKey;
    if ms != [] {
      var n := |ms| - 1;
      WantsByKey(sub, c, ms[n]);
      SelectionByKey(sub, c, batch[..n], ms[..n]);
    }
  }

  lemma {:induction false} WantedByKey(sub: map<string, set<Connection>>, c: Connection, ms: seq<Msg>)
    ensures Wanted(sub, c, ms) == ValuesBy(ms, WantedKeys(sub, c))
  {
    hide Wants, WantedKeys, Reduce.GroupKey;
    if ms != [] {
      var n := |ms| - 1;
      WantsByKey(sub, c, ms[n]);
      WantedByKey(sub, c, ms[..n]);
    }
  }

  /** Delivery is exact for every batch: the frame sent to a connection has strictly increasing keys and,
      under each key of a publication whose topic matches at least one of its patterns, the merge of all
      the batch's messages with that key; nothing else. */
  lemma {:induction false} FrameHoldsWanted(sub: map<string, set<Connection>>, c: Connection, ms: seq<Msg>)
    ensures var frame := Reduce.ReduceMsgs(Wanted(sub, c, ms));
            && Reduce.StrictlySorted(frame)
            && forall k :: Reduce.GroupOf(frame, k)
                           == if k.rank == PUB.Rank() && Subscribed(sub, c, k.topic)
                              then Reduce.Merged(Reduce.GroupOf(ms, k)) else []
  {
    hide Wanted, ValuesBy, Subscribed, Reduce.ReduceMsgs, Reduce.GroupKey, Reduce.GroupOf, Reduce.StrictlySorted;
    WantedByKey(sub, c, ms);
    Reduce.ReduceIsReduction(Wanted(sub, c, ms));
    forall k ensures Reduce.GroupOf(Wanted(sub, c, ms), k)
                     == if k in WantedKeys(sub, c) then Reduce.GroupOf(ms, k) else [] {
      GroupBy(ms, WantedKeys(sub, c), k);
    }
  }

  /** Some connection other than the sender is sent this message. */
  ghost predicate ToldOf(sub: map<string, set<Connection>>, conn: set<Connection>, sender: Connection?, m: Msg)
  {
    exists d :: d in conn && d != sender && Wants(sub, d, m)
  }

  /** What a cached object holds after a batch has been sent: the merge of its group, when it is the
      group's first object in the batch and someone was sent it. */
  ghost function AfterDelivery(batch: seq<NetfindMessage>, out: seq<Msg>, o: NetfindMessage, c: Msg, told: bool): Msg
    requires |batch| == |out|
  {
    var x := FirstAt(out, Reduce.GroupKey(c));
    if told && x < |out| && batch[x] == o && Reduce.GroupOf(out, Reduce.GroupKey(c)) != []
    then Reduce.MergeAll(Reduce.GroupOf(out, Reduce.GroupKey(c))) else c
  }

  /** The message takes the topic out of the cache, or puts itself there. */
  predicate TakesTopic(m: Msg, t: string)
  {
    || (m.typ.PUB? && m.topic == t && m.mode != Some(SEND))
    || (m.typ.DEL? && Pattern.Matches(m.topic, t))
  }

  /** The place in a batch of the message whose object the cache holds for a topic afterwards, if it is one
      of the batch. */
  function CachedFrom(ms: seq<Msg>, t: string): Option<nat>
  {
    if ms == [] then None
    else
      var n := |ms| - 1;
      if !TakesTopic(ms[n], t) then CachedFrom(ms[..n], t)
      else if ms[n].typ.PUB? && ms[n].mode == Some(RETAIN) then Some(n) else None
  }

  /** What the cache holds for a message once the batch has been sent: the merge of the message's group, when
      it comes from the first of its group in the batch and someone was sent it. */
  ghost function AfterSending(ms: seq<Msg>, out: seq<Msg>, c: Msg, told: bool): Msg
  {
    var k := Reduce.GroupKey(c);
    var x := FirstAt(out, k);
    if told && x < |out| && CachedFrom(ms, c.topic) == Some(x) && Reduce.GroupOf(out, k) != []
    then Reduce.MergeAll(Reduce.GroupOf(out, k)) else c
  }

  /** The cached objects that are of the batch are those that CachedFrom names. */
  ghost predicate Provenance(msgs: seq<NetfindMessage>, cache: seq<Msg>, batch: seq<NetfindMessage>, ms: seq<Msg>)
  {
    |msgs| == |cache|
    && forall i, x :: 0 <= i < |msgs| && 0 <= x < |batch| ==>
         (msgs[i] == batch[x] <==> CachedFrom(ms, cache[i].topic) == Some(x))
  }

  lemma DeliveredIsSent(msgs: seq<NetfindMessage>, cache: seq<Msg>, batch: seq<NetfindMessage>, ms: seq<Msg>,
                        out: seq<Msg>, i: nat, told: bool)
    requires Provenance(msgs, cache, batch, ms) && |batch| == |out| && i < |msgs|
    ensures AfterDelivery(batch, out, msgs[i], cache[i], told) == AfterSending(ms, out, cache[i], told)
  {
    hide Reduce.GroupKey, Reduce.GroupOf, Reduce.MergeAll, CachedFrom;
  }

  lemma NoTopicLeft(cache: seq<Msg>, msgs: seq<NetfindMessage>, topic: string)
    requires Snap(msgs) == S.CacheDrop(cache, topic)
    ensures forall m :: m in msgs ==> m.data.topic != topic
  {
    FilterMembers(S.OtherTopic(topic), cache);
    hide Filter;
    forall j | 0 <= j < |msgs| ensures msgs[j].data.topic != topic {
      assert Snap(msgs)[j] in Snap(msgs);
    }
  }

  lemma NoProvenance(msgs: seq<NetfindMessage>, cache: seq<Msg>, batch: seq<NetfindMessage>, ms: seq<Msg>)
    requires |msgs| == |cache|
    ensures Provenance(msgs, cache, batch[..0], ms[..0])
  {
  }

  /** One message of the batch is stored: it is in the cache if it is retained, and no other object is whose
      topic it takes. */
  lemma ProvenanceStep(was: seq<NetfindMessage>, wasCache: seq<Msg>, msgs: seq<NetfindMessage>, cache: seq<Msg>,
                       batch: seq<NetfindMessage>, ms: seq<Msg>, i: nat)
    requires i < |batch| == |ms| && forall a, b :: 0 <= a < b < |batch| ==> batch[a] != batch[b]
    requires Provenance(was, wasCache, batch[..i], ms[..i]) && |msgs| == |cache|
    requires forall j :: 0 <= j < |msgs| && msgs[j] == batch[i] ==>
               ms[i].typ.PUB? && ms[i].mode == Some(RETAIN) && cache[j].topic == ms[i].topic
    requires forall j :: 0 <= j < |msgs| && msgs[j] != batch[i] ==>
               !TakesTopic(ms[i], cache[j].topic) && msgs[j] in was
    requires forall j, k :: 0 <= j < |msgs| && 0 <= k < |was| && msgs[j] == was[k] && msgs[j] != batch[i] ==>
               cache[j] == wasCache[k]
    ensures Provenance(msgs, cache, batch[..i + 1], ms[..i + 1])
  {
    hide Pattern.Matches;
    assert ms[..i + 1][..i] == ms[..i];
    CachedFromBelow(ms[..i]);
    forall j, x | 0 <= j < |msgs| && 0 <= x <= i
      ensures msgs[j] == batch[x] <==> CachedFrom(ms[..i + 1], cache[j].topic) == Some(x)
    {
      if msgs[j] != batch[i] {
        var k :| 0 <= k < |was| && was[k] == msgs[j];
        assert CachedFrom(ms[..i + 1], cache[j].topic) == CachedFrom(ms[..i], wasCache[k].topic);
        assert x < i ==> batch[..i][x] == batch[x];
      }
    }
  }

  lemma {:induction false} CachedFromBelow(ms: seq<Msg>)
    ensures forall t :: CachedFrom(ms, t).Some? ==> CachedFrom(ms, t).value < |ms|
  {
    if ms != [] {
      CachedFromBelow(ms[..|ms| - 1]);
    }
  }

  lemma NothingSent(c: Msg, told: bool)
    ensures AfterSending([], [], c, told) == c
  {
  }

  lemma DeliveredOne(batch: seq<NetfindMessage>, out: seq<Msg>, o: NetfindMessage, c: Msg, told: bool)
    requires |batch| == |out| && forall i, j :: 0 <= i < j < |batch| ==> batch[i] != batch[j]
    requires forall x :: 0 <= x < |batch| && batch[x] == o ==>
               out[x] == c && o.data == if told then MergedAt(out, x) else out[x]
    requires o !in batch ==> o.data == c
    ensures o.data == AfterDelivery(batch, out, o, c, told)
  {
    hide Reduce.GroupKey, Reduce.GroupOf, Reduce.MergeAll, FirstAt;
    if o in batch {
      var x :| 0 <= x < |batch| && batch[x] == o;
      var f := FirstAt(out, Reduce.GroupKey(c));
      assert f < |out| && batch[f] == o ==> f == x;
    }
  }

  lemma NothingMergedDistinct(batch: seq<NetfindMessage>, out: seq<Msg>, o: NetfindMessage, c: Msg, told: bool)
    requires |batch| == |out| && DistinctKeys(out)
    requires forall x :: 0 <= x < |batch| && batch[x] == o ==> out[x] == c
    ensures AfterDelivery(batch, out, o, c, told) == c
  {
    hide Reduce.GroupKey, Reduce.GroupOf, FirstAt, DistinctKeys;
    var k := Reduce.GroupKey(c);
    var x := FirstAt(out, k);
    if x < |out| && batch[x] == o {
      OneInGroup(out, k);
      Reduce.GroupHolds(out, x);
      assert Reduce.GroupOf(out, k) == [c];
    }
  }

  lemma {:induction false} WantedMembers(sub: map<string, set<Connection>>, c: Connection, ms: seq<Msg>)
    ensures forall m :: m in Wanted(sub, c, ms) <==> m in ms && Wants(sub, c, m)
  {
    hide Wants;
    if ms != [] {
      WantedMembers(sub, c, ms[..|ms| - 1]);
      assert ms == ms[..|ms| - 1] + [ms[|ms| - 1]];
    }
  }

  /** Delivery is exact: the frame sent for a batch without equal keys holds precisely the publications
      whose topic matches at least one of the connection's patterns, each once, however many match. */
  lemma {:induction false} FrameIsExact(sub: map<string, set<Connection>>, c: Connection, ms: seq<Msg>)
    requires DistinctKeys(ms)
    ensures var frame := Reduce.ReduceMsgs(Wanted(sub, c, ms));
            && Reduce.StrictlySorted(frame)
            && forall m :: m in frame <==>
                 m in ms && m.typ.PUB? && exists p :: p in sub && c in sub[p] && Pattern.Matches(p, m.topic)
  {
    hide Wanted, Reduce.ReduceMsgs, Reduce.GroupKey, Pattern.Matches, Reduce.StrictlySorted;
    WantedDistinct(sub, c, ms);
    WantedMembers(sub, c, ms);
    ReductionOfDistinct(Wanted(sub, c, ms));
  }

  // ---------- What a GET/SUB/UNSUB batch does ----------

  predicate Asks(m: Msg) { m.typ.GET? || m.typ.SUB? }

  predicate AnyAsks(ms: seq<Msg>)
  {
    if ms == [] then false else AnyAsks(ms[..|ms| - 1]) || Asks(ms[|ms| - 1])
  }

  function PatternSubs(sub: map<string, set<Connection>>, p: string): set<Connection>
  {
    if p in sub then sub[p] else {}
  }

  function SubAfterOne(sub: map<string, set<Connection>>, c: Connection, m: Msg): map<string, set<Connection>>
  {
    if m.typ.SUB? then sub[m.topic := PatternSubs(sub, m.topic) + {c}]
    else if m.typ.UNSUB? then sub[m.topic := PatternSubs(sub, m.topic) - {c}]
    else sub
  }

  function SubAfter(sub: map<string, set<Connection>>, c: Connection, ms: seq<Msg>): map<string, set<Connection>>
  {
    if ms == [] then sub else SubAfterOne(SubAfter(sub, c, ms[..|ms| - 1]), c, ms[|ms| - 1])
  }

  /** Everything loaded for a batch, in order. */
  function Loaded(st: S.Store, ms: seq<Msg>): seq<Msg>
  {
    if ms == [] then []
    else Loaded(st, ms[..|ms| - 1]) + (if Asks(ms[|ms| - 1]) then S.Load(st, ms[|ms| - 1].topic) else [])
  }

  lemma NothingAsked(st: S.Store, sub: map<string, set<Connection>>, c: Connection)
    ensures SubAfter(sub, c, []) == sub && Loaded(st, []) == [] && !AnyAsks([])
  {
  }

  lemma OneMoreAsked(st: S.Store, sub: map<string, set<Connection>>, c: Connection, ms: seq<Msg>, i: nat)
    requires i < |ms|
    ensures SubAfter(sub, c, ms[..i + 1]) == SubAfterOne(SubAfter(sub, c, ms[..i]), c, ms[i])
    ensures Loaded(st, ms[..i + 1]) == Loaded(st, ms[..i]) + (if Asks(ms[i]) then S.Load(st, ms[i].topic) else [])
    ensures AnyAsks(ms[..i + 1]) <==> AnyAsks(ms[..i]) || Asks(ms[i])
  {
    assert ms[..i + 1][..i] == ms[..i];
  }

  lemma {:induction false} NothingLoaded(st: S.Store, ms: seq<Msg>)
    requires !AnyAsks(ms)
    ensures Loaded(st, ms) == []
  {
    if ms != [] {
      NothingLoaded(st, ms[..|ms| - 1]);
    }
  }

  lemma {:induction false} LoadedPublications(st: S.Store, ms: seq<Msg>)
    requires S.Valid(st)
    ensures S.AllComplete(Loaded(st, ms))
  {
    if ms != [] {
      LoadedPublications(st, ms[..|ms| - 1]);
      FilterMembers(S.MatchedBy(ms[|ms| - 1].topic), st.cache);
      var l := S.Load(st, ms[|ms| - 1].topic);
      forall i | 0 <= i < |l| ensures Complete(l[i]) {
        assert i < |Filter(S.MatchedBy(ms[|ms| - 1].topic), st.cache)| ==> l[i] in st.cache;
      }
    }
  }

  /** What one cached object holds after the outbox `all` has been reduced. */
  lemma {:induction false} RefreshedOne(all: seq<NetfindMessage>, list: seq<Msg>, m: NetfindMessage, c: Msg)
    requires |all| == |list|
    requires var f := FirstAt(list, Reduce.GroupKey(c)); f < |list| ==> all[f] == m
    requires forall x :: 0 <= x < |all| && all[x] == m ==> list[x] == c
    requires forall x :: 0 <= x < |all| ==> all[x].data == DataAfter(all, list, x)
    requires m !in all ==> m.data == c
    ensures m.data == Refreshed(c, list)
  {
    hide Reduce.GroupKey, Reduce.MergeAll, Reduce.GroupOf, FirstAt;
    var k := Reduce.GroupKey(c);
    var f := FirstAt(list, k);
    if f < |list| {
      assert list[f] == c;
      Reduce.GroupHolds(list, f);
      assert all[f].data == DataAfter(all, list, f);
    } else {
      forall x | 0 <= x < |all| ensures all[x] != m {
        assert Reduce.GroupKey(list[x]) != k;
      }
      Reduce.GroupNone(list, k);
    }
  }

  /** Reading merges into each cached message whatever was loaded under its key. */
  function AfterRead(cache: seq<Msg>, loaded: seq<Msg>): (r: seq<Msg>)
    ensures |r| == |cache|
  {
    seq(|cache|, i requires 0 <= i < |cache| => Refreshed(cache[i], loaded))
  }

  function Refreshed(c: Msg, loaded: seq<Msg>): Msg
  {
    var g := Reduce.GroupOf(loaded, Reduce.GroupKey(c));
    if g == [] then c else Reduce.MergeAll(g)
  }

  /** A cached message whose key occurs in the list is the first object with that key. */
  ghost predicate Leads(cached: seq<NetfindMessage>, list: seq<NetfindMessage>)
    reads cached, list
  {
    forall m :: m in cached ==> LeadsOne(m, list)
  }

  ghost predicate LeadsOne(m: NetfindMessage, list: seq<NetfindMessage>)
    reads m, list
  {
    var f := FirstAt(Snap(list), Reduce.GroupKey(m.data));
    f < |list| ==> list[f] == m
  }

  lemma NothingLeads(cached: seq<NetfindMessage>)
    ensures Leads(cached, [])
  {
  }

  lemma FirstAtIs(s: seq<Msg>, k: Reduce.Key, f: nat)
    requires f <= |s| && (forall y :: 0 <= y < f ==> Reduce.GroupKey(s[y]) != k)
    requires f < |s| ==> Reduce.GroupKey(s[f]) == k
    ensures FirstAt(s, k) == f
  {
    hide FirstAt, Reduce.GroupKey;
  }

  lemma LeadsConcat(cached: seq<NetfindMessage>, a: seq<NetfindMessage>, b: seq<NetfindMessage>)
    requires Leads(cached, a) && Leads(cached, b)
    ensures Leads(cached, a + b)
  {
    forall m | m in cached ensures LeadsOne(m, a + b) {
      LeadsConcatOne(m, a, b);
    }
  }

  lemma LeadsConcatOne(m: NetfindMessage, a: seq<NetfindMessage>, b: seq<NetfindMessage>)
    requires LeadsOne(m, a) && LeadsOne(m, b)
    ensures LeadsOne(m, a + b)
  {
    hide FirstAt, Reduce.GroupKey, Snap;
    var k := Reduce.GroupKey(m.data);
    var f, g := FirstAt(Snap(a), k), FirstAt(Snap(b), k);
    FirstAtIs(Snap(a + b), k, if f < |a| then f else |a| + g);
  }

  // ---------- Last wills ----------

  function WillAfter(lwt: map<Connection, (string, string)>, c: Connection, ms: seq<Msg>)
    : map<Connection, (string, string)>
  {
    if ms == [] then lwt
    else
      var m := ms[|ms| - 1];
      WillAfter(lwt, c, ms[..|ms| - 1])[c := (m.topic, if m.value.Some? then m.value.value else "")]
  }

  /** The last message of a batch is the connection's last will; every other connection keeps its own. */
  lemma {:induction false} LastWillWins(lwt: map<Connection, (string, string)>, c: Connection, ms: seq<Msg>)
    ensures ms == [] ==> WillAfter(lwt, c, ms) == lwt
    ensures ms != [] && ms[|ms| - 1].value.Some? ==>
              var m := ms[|ms| - 1];
              c in WillAfter(lwt, c, ms) && WillAfter(lwt, c, ms)[c] == (m.topic, m.value.value)
    ensures forall d :: d != c ==>
              && (d in WillAfter(lwt, c, ms) <==> d in lwt)
              && (d in lwt ==> WillAfter(lwt, c, ms)[d] == lwt[d])
  {
    if ms != [] {
      LastWillWins(lwt, c, ms[..|ms| - 1]);
    }
  }

  /** The message that publishes a last will. */
  function Will(will: (string, string), created: int, updated: int): Msg
  {
    Msg(PUB, will.0, Some(will.1), Some(created), Some(updated), Some(RETAIN))
  }

  /** A published last will is retained: it is cached under its topic with its value, and no row changes. */
  lemma WillIsCached(st: S.Store, will: (string, string), created: int, updated: int)
    requires S.Valid(st)
    ensures var after := S.SaveOne(st, Will(will, created, updated));
            && after.rows == st.rows
            && exists c :: c in after.cache && c.typ.PUB? && c.topic == will.0 && c.value == Some(will.1)
                           && c.updatedAt == Some(updated) && c.mode == Some(RETAIN)
    ensures forall c :: c in S.SaveOne(st, Will(will, created, updated)).cache && c.topic == will.0 ==>
              c.value == Some(will.1)
  {
    hide S.Position;
    var m := Will(will, created, updated);
    var put := S.Stamp(st, m);
    var i := S.Position(st.cache, will.0);
    var after := S.SaveOne(st, m);
    assert after.cache[i] == put && put in after.cache;
    S.SaveOneKeepsValid(st, m);
    forall c | c in after.cache && c.topic == will.0 ensures c.value == Some(will.1) {
      var j :| 0 <= j < |after.cache| && after.cache[j] == c;
      assert i == j;
    }
  }

  lemma SaveSingle(st: S.Store, m: Msg)
    requires Complete(m)
    ensures S.AllComplete([m]) && DistinctKeys([m])
    ensures S.Save(st, [m]) == S.SaveOne(st, m) && S.Stamped(st, [m]) == [S.Stamp(st, m)]
  {
    hide S.SaveOne, S.Stamp;
    assert [m][..0] == [];
    assert S.Save(st, []) == st && S.Stamped(st, []) == [];
  }

  lemma {:induction false} WantedSingle(st: S.Store, sub: map<string, set<Connection>>, d: Connection, m: Msg)
    requires S.Valid(st) && Complete(m) && m.typ.PUB?
    ensures var out := [S.Stamp(st, m)];
            Wanted(sub, d, out) == (if Subscribed(sub, d, m.topic) then out else []) && Reduce.ReduceMsgs(out) == out
  {
    hide Subscribed, S.Valid;
    StampShape(st, m);
    var s := S.Stamp(st, m);
    assert [s][..0] == [];
    assert Wanted(sub, d, []) == [];
    Reduce.ReduceIsReduction([s]);
    forall k {
      Reduce.GroupOfOne(s, k);
    }
    Reduce.ReductionIsUnique([s], [s], [s]);
  }

  method OldestTime(rows: seq<Database.Row>) returns (t: int)
    requires rows != []
    ensures t == S.MinCreated(rows)
  {
    var i := |rows| - 1;
    t := rows[i].createdAt;
    assert rows[i..] == [rows[i]];
    while i > 0
      invariant 0 <= i < |rows|
      invariant t == S.MinCreated(rows[i..])
    {
      i := i - 1;
      assert rows[i..][1..] == rows[i + 1..];
      t := Reduce.Min(rows[i].createdAt, t);
    }
    assert rows[0..] == rows;
  }

  method FindValue(rows: seq<Database.Row>, value: string) returns (found: Option<Database.Row>)
    ensures found == S.FirstWithValue(rows, value)
  {
    var i := 0;
    assert rows[0..] == rows;
    while i < |rows|
      invariant 0 <= i <= |rows|
      invariant S.FirstWithValue(rows, value) == S.FirstWithValue(rows[i..], value)
    {
      if rows[i].value == value {
        return Some(rows[i]);
      }
      assert rows[i..][1..] == rows[i + 1..];
      i := i + 1;
    }
    return None;
  }

  class Broker {
    /** The retain cache in dictionary order. */
    var msgs: seq<NetfindMessage>
    var conn: set<Connection>
    var sub: map<string, set<Connection>>
    var lwt: map<Connection, (string, string)>
    const db: T.Table

    constructor ()
      ensures Valid() && Contents() == S.Store([], []) && conn == {} && sub == map[] && lwt == map[]
      ensures fresh(db)
    {
      msgs := [];
      conn := {};
      sub := map[];
      lwt := map[];
      db := new T.Table();
    }

    function Contents(): S.Store
      reads this, db, msgs
    {
      S.Store(Snap(msgs), db.rows)
    }

    /** The store keeps its keys unique; only open connections subscribe or leave a last will. */
    ghost predicate Valid()
      reads this, db, msgs
    {
      && S.Valid(Contents())
      && (forall p :: p in sub ==> sub[p] <= conn)
      && lwt.Keys <= conn
    }

    // ---------- save_msgs ----------

    method FindCached(topic: string) returns (i: nat)
      ensures i == S.Position(Snap(msgs), topic)
    {
      i := 0;
      while i < |msgs| && msgs[i].data.topic != topic
        invariant i <= |msgs|
        invariant forall k :: 0 <= k < i ==> msgs[k].data.topic != topic
      {
        i := i + 1;
      }
      PositionAt(Snap(msgs), topic, i);
    }

    method PopCached(topic: string)
      requires Valid()
      modifies this`msgs
      ensures Snap(msgs) == S.CacheDrop(old(Snap(msgs)), topic)
      ensures forall m :: m in msgs ==> m in old(msgs) && m.data.topic != topic
    {
      var i := FindCached(topic);
      DropAt(Snap(msgs), topic, i);
      ghost var cache := Snap(msgs);
      if i < |msgs| {
        SnapRemove(msgs, i);
        msgs := msgs[..i] + msgs[i + 1..];
      }
      NoTopicLeft(cache, msgs, topic);
    }

    method SaveRetained(msg: NetfindMessage)
      requires Valid() && msg !in msgs && Complete(msg.data) && msg.data.typ.PUB? && msg.data.mode.value.RETAIN?
      modifies this`msgs, msg
      ensures Contents() == S.SaveOne(old(Contents()), old(msg.data))
      ensures msg.data == S.Stamp(old(Contents()), old(msg.data))
      ensures forall m :: m in msgs ==> m in old(msgs) || m == msg
      ensures msg in msgs && msg.data.topic == old(msg.data.topic)
    {
      var i := FindCached(msg.data.topic);
      if i < |msgs| {
        msg.data := msg.data.(createdAt := msgs[i].data.createdAt);
        msgs := msgs[i := msg];
      } else {
        msgs := msgs + [msg];
      }
      assert msgs[i] == msg;
    }

    method SavePersistent(msg: NetfindMessage)
      requires Valid() && msg !in msgs && Complete(msg.data) && msg.data.typ.PUB?
      requires msg.data.mode.value.PERSIST? || msg.data.mode.value.APPEND?
      modifies this`msgs, db, msg
      ensures Contents() == S.SaveOne(old(Contents()), old(msg.data))
      ensures msg.data == S.Stamp(old(Contents()), old(msg.data))
      ensures forall m :: m in msgs ==> m in old(msgs) && m.data.topic != old(msg.data.topic)
    {
      hide S.Position, S.Upsert, S.LikeRows, S.CacheDrop, S.DropOthers, S.MinCreated, S.FirstWithValue, S.Valid, Snap;
      PopCached(msg.data.topic);
      var prev := db.GetTopic(msg.data.topic);
      if msg.data.mode.value.PERSIST? {
        if prev != [] {
          var oldest := OldestTime(prev);
          msg.data := msg.data.(createdAt := Some(oldest));
        }
        db.DeleteOther(msg.data.topic, msg.data.value.value);
      } else {
        var found := FindValue(prev, msg.data.value.value);
        if found.Some? {
          msg.data := msg.data.(createdAt := Some(found.value.createdAt));
        }
      }
      db.Put(msg.data);
    }

    method DeleteMatching(p: string, value: Option<string>)
      requires Valid()
      modifies this`msgs, db
      ensures Snap(msgs) == Filter(S.UnmatchedBy(p), old(Snap(msgs)))
      ensures db.rows == S.DelRows(old(db.rows), p, value)
      ensures forall m :: m in msgs ==> m in old(msgs) && !Pattern.Matches(p, m.data.topic)
    {
      hide Snap, Pattern.Matches, Filter;
      var i := 0;
      while i < |msgs|
        invariant 0 <= i <= |msgs|
        invariant Filter(S.UnmatchedBy(p), Snap(msgs)) == Filter(S.UnmatchedBy(p), old(Snap(msgs)))
        invariant forall k :: 0 <= k < i ==> !Pattern.Matches(p, msgs[k].data.topic)
        invariant forall m :: m in msgs ==> m in old(msgs)
        invariant db.rows == old(db.rows)
        decreases |msgs| - i
      {
        if Pattern.Matches(p, msgs[i].data.topic) {
          FilterRemove(S.UnmatchedBy(p), Snap(msgs), i);
          SnapRemove(msgs, i);
          msgs := msgs[..i] + msgs[i + 1..];
        } else {
          i := i + 1;
        }
      }
      FilterAll(S.UnmatchedBy(p), Snap(msgs));
      db.DeletePattern(p, value);
    }

    method SaveMessage(msg: NetfindMessage)
      requires Valid() && msg !in msgs && Complete(msg.data)
      modifies this`msgs, db, msg
      ensures Valid()
      ensures Contents() == S.SaveOne(old(Contents()), old(msg.data))
      ensures msg.data == S.Stamp(old(Contents()), old(msg.data))
      ensures forall m :: m in msgs ==> m in old(msgs) || m == msg
      ensures msg in msgs ==> old(msg.data).typ.PUB? && old(msg.data).mode == Some(RETAIN)
      ensures forall m :: m in msgs && m != msg ==> !TakesTopic(old(msg.data), m.data.topic)
      ensures msg in msgs ==> msg.data.topic == old(msg.data.topic)
    {
      hide S.Position, S.Upsert, S.LikeRows, S.DelRows;
      S.SaveOneKeepsValid(Contents(), msg.data);
      match msg.data.typ
      case PUB =>
        if msg.data.mode.value.RETAIN? {
          SaveRetained(msg);
        } else if !msg.data.mode.value.SEND? {
          SavePersistent(msg);
        }
      case DEL =>
        DeleteMatching(msg.data.topic, msg.data.value);
      case _ =>
    }

    /** One message of a batch. */
    method SaveAt(batch: seq<NetfindMessage>, i: nat, ghost vals: seq<Msg>)
      requires Valid() && i < |batch| == |vals| && forall a, b :: 0 <= a < b < |batch| ==> batch[a] != batch[b]
      requires batch[i] !in msgs && Complete(batch[i].data) && batch[i].data == vals[i]
      requires Provenance(msgs, Snap(msgs), batch[..i], vals[..i])
      modifies this`msgs, db, batch[i]
      ensures Valid()
      ensures Contents() == S.SaveOne(old(Contents()), vals[i])
      ensures batch[i].data == S.Stamp(old(Contents()), vals[i])
      ensures forall m :: m in msgs ==> m in old(msgs) || m == batch[i]
      ensures Provenance(msgs, Snap(msgs), batch[..i + 1], vals[..i + 1])
    {
      hide S.SaveOne, S.Stamp, S.Valid, Complete, CachedFrom, TakesTopic, Provenance;
      ghost var was, cache := msgs, Snap(msgs);
      SaveMessage(batch[i]);
      ProvenanceStep(was, cache, msgs, Snap(msgs), batch, vals, i);
    }

    /** A batch is stored message by message, and each message leaves with its stored creation time. */
    method SaveMsgs(batch: seq<NetfindMessage>)
      requires Valid() && FreshBatch(batch)
      modifies this`msgs, db, batch
      ensures Valid()
      ensures S.AllComplete(old(Snap(batch)))
      ensures Contents() == S.Save(old(Contents()), old(Snap(batch)))
      ensures Snap(batch) == S.Stamped(old(Contents()), old(Snap(batch)))
      ensures forall m :: m in msgs ==> m in old(msgs) || m in batch
      ensures Provenance(msgs, Snap(msgs), batch, old(Snap(batch)))
    {
      hide S.SaveOne, S.Stamp, S.Valid, Snap, Complete, CachedFrom, TakesTopic, Provenance;
      ghost var vals := Snap(batch);
      NoProvenance(msgs, Snap(msgs), batch, vals);
      var i := 0;
      while i < |batch|
        invariant 0 <= i <= |batch| && Valid()
        invariant Contents() == S.Save(old(Contents()), vals[..i])
        invariant forall k :: i <= k < |batch| ==> batch[k].data == vals[k] && batch[k] !in msgs
        invariant Snap(batch[..i]) == S.Stamped(old(Contents()), vals[..i])
        invariant forall m :: m in msgs ==> m in old(msgs) || m in batch[..i]
        invariant Provenance(msgs, Snap(msgs), batch[..i], vals[..i])
      {
        assert vals[..i + 1][..i] == vals[..i];
        assert batch[..i + 1] == batch[..i] + [batch[i]];
        SaveAt(batch, i, vals);
        SnapAppend(batch[..i], batch[i]);
        i := i + 1;
      }
      assert vals[..i] == vals && batch[..i] == batch;
    }

    // ---------- accept_pub_del ----------

    method GetSubs(target: Target) returns (out: set<Connection>)
      ensures target.Topic? ==> forall c :: c in out <==> Subscribed(sub, c, target.topic)
      ensures target.Wild? ==> out == {}
    {
      hide Pattern.Matches;
      out := {};
      var left := sub.Keys;
      while left != {}
        invariant left <= sub.Keys
        invariant target.Wild? ==> out == {}
        invariant target.Topic? ==> forall c :: c in out <==>
                    exists p :: p in sub && p !in left && c in sub[p] && Pattern.Matches(p, target.topic)
      {
        var p :| p in left;
        if target.Topic? && Pattern.Matches(p, target.topic) {
          out := out + sub[p];
        }
        left := left - {p};
      }
    }

    /** Puts one message in the outbox of each subscriber. */
    method Enqueue(queue: SendQueue, subs: set<Connection>, m: NetfindMessage, ghost all: set<Connection>)
      modifies queue
      ensures forall c :: c in all ==> Box(queue.msgs, c) == Box(old(queue.msgs), c) + (if c in subs then [m] else [])
      ensures queue.msgs.Keys == old(queue.msgs.Keys) + subs
    {
      var left := subs;
      while left != {}
        invariant left <= subs
        invariant forall c :: c in all ==>
                    Box(queue.msgs, c) == Box(old(queue.msgs), c) + (if c in subs - left then [m] else [])
        invariant queue.msgs.Keys == old(queue.msgs.Keys) + (subs - left)
      {
        var c :| c in left;
        queue.Append(c, m);
        left := left - {c};
      }
    }

    /** The outboxes of a stored batch. */
    method Dispatch(batch: seq<NetfindMessage>) returns (queue: SendQueue)
      requires Valid()
      ensures fresh(queue)
      ensures forall c :: c in conn ==> Box(queue.msgs, c) == Picked(sub, c, batch, Snap(batch))
      ensures forall c :: c in conn ==> (c in queue.msgs <==> Wanted(sub, c, Snap(batch)) != [])
      ensures queue.msgs.Keys <= conn
    {
      hide Wants, Subscribed, S.Valid, Snap, Wanted, Picked, Box;
      queue := new SendQueue();
      ghost var ms := Snap(batch);
      forall c | c in conn
        ensures Box(queue.msgs, c) == Picked(sub, c, [], []) && Wanted(sub, c, []) == []
      {
        SelectNone(sub, c);
        NoBox(c);
      }
      var i := 0;
      while i < |batch|
        invariant 0 <= i <= |batch|
        invariant fresh(queue)
        invariant forall c :: c in conn ==> Box(queue.msgs, c) == Picked(sub, c, batch[..i], ms[..i])
        invariant forall c :: c in conn ==> (c in queue.msgs <==> Wanted(sub, c, ms[..i]) != [])
        invariant queue.msgs.Keys <= conn
      {
        var m := batch[i].data;
        var subs := GetSubs(if m.typ.PUB? then Topic(m.topic) else Wild(m.topic));
        SubsAreOpen(subs, m);
        Enqueue(queue, subs, batch[i], conn);
        forall c | c in conn {
          SelectOneMore(sub, c, batch, ms, i);
        }
        i := i + 1;
      }
      assert ms[..i] == ms && batch[..i] == batch;
    }

    lemma SubsAreOpen(subs: set<Connection>, m: Msg)
      requires Valid()
      requires m.typ.PUB? ==> forall c :: c in subs <==> Subscribed(sub, c, m.topic)
      requires !m.typ.PUB? ==> subs == {}
      ensures subs <= conn
      ensures forall c :: c in conn ==> (c in subs <==> Wants(sub, c, m))
    {
    }

    /** Stores a batch and fills the outboxes: each open connection but the sender gets what it wants. */
    method Prepare(sender: Connection?, batch: seq<NetfindMessage>) returns (queue: SendQueue)
      requires Valid() && FreshBatch(batch)
      modifies this`msgs, db, batch
      ensures Valid()
      ensures S.AllComplete(old(Snap(batch))) && S.AllComplete(Snap(batch))
      ensures Contents() == S.Save(old(Contents()), old(Snap(batch)))
      ensures Snap(batch) == S.Stamped(old(Contents()), old(Snap(batch)))
      ensures fresh(queue) && queue.msgs.Keys <= conn
      ensures forall c :: c in conn ==> (c in queue.msgs <==> c != sender && Wanted(sub, c, Snap(batch)) != [])
      ensures forall c :: c in queue.msgs ==> queue.msgs[c] == PickBy(batch, Snap(batch), WantedKeys(sub, c))
      ensures forall c, m :: c in queue.msgs && m in queue.msgs[c] ==> m in batch
      ensures forall m :: m in msgs ==> m in old(msgs) || m in batch
      ensures Provenance(msgs, Snap(msgs), batch, old(Snap(batch)))
    {
      hide S.SaveOne, S.Stamp, S.Valid, Snap, Complete, Reduce.GroupKey, Reduce.ReduceMsgs, S.Save, S.Stamped;
      hide Provenance;
      hide Wanted, Picked, PickBy, ValuesBy, WantedKeys;
      ghost var vals := Snap(batch);
      SaveMsgs(batch);
      StampedShape(old(Contents()), vals);
      queue := Dispatch(batch);
      queue.Discard(sender);
      forall c | c in queue.msgs
        ensures queue.msgs[c] == PickBy(batch, Snap(batch), WantedKeys(sub, c))
        ensures forall m :: m in queue.msgs[c] ==> m in batch
      {
        assert queue.msgs[c] == Picked(sub, c, batch, Snap(batch));
        SelectionByKey(sub, c, batch, Snap(batch));
        PickedAreWanted(sub, c, batch);
      }
    }

    /** Sends the outboxes of a stored batch: to each connection the reduction of what it wants. */
    method Deliver(sender: Connection?, queue: SendQueue, batch: seq<NetfindMessage>)
      requires Valid() && S.AllComplete(Snap(batch)) && queue.msgs.Keys <= conn
      requires forall i, j :: 0 <= i < j < |batch| ==> batch[i] != batch[j]
      requires forall c :: c in conn ==> (c in queue.msgs <==> c != sender && Wanted(sub, c, Snap(batch)) != [])
      requires forall c :: c in queue.msgs ==> queue.msgs[c] == PickBy(batch, Snap(batch), WantedKeys(sub, c))
      requires forall c, m :: c in queue.msgs && m in queue.msgs[c] ==> m in batch
      modifies batch, conn
      ensures Valid()
      ensures forall c :: c in conn ==>
                c.sent == old(c.sent)
                          + (if c == sender || Wanted(sub, c, old(Snap(batch))) == [] then []
                             else [Reduce.ReduceMsgs(Wanted(sub, c, old(Snap(batch))))])
      ensures forall i :: 0 <= i < |msgs| ==>
                msgs[i].data == AfterDelivery(batch, old(Snap(batch)), msgs[i], old(msgs[i].data),
                                              ToldOf(sub, conn, sender, old(msgs[i].data)))
    {
      hide S.Valid, Complete, Snap, Reduce.GroupKey, Reduce.ReduceMsgs, DataAfter, Wanted, PickBy, ValuesBy, WantedKeys;
      hide Wants, MergedAt, AfterDelivery;
      ghost var all, out := (set m | m in batch), Snap(batch);
      ghost var wants := map c | c in queue.msgs :: WantedKeys(sub, c);
      forall m | m in all ensures Complete(m.data) {
        CompleteMember(batch, m);
      }
      ghost var cache := Snap(msgs);
      forall c | c in conn ensures Wanted(sub, c, out) == ValuesBy(out, WantedKeys(sub, c)) {
        WantedByKey(sub, c, out);
      }
      queue.Send(all, batch, wants);
      SameKeysStayValid(cache, Snap(msgs), db.rows);
      forall x | 0 <= x < |batch|
        ensures batch[x].data == if ToldOf(sub, conn, sender, out[x]) then MergedAt(out, x) else out[x]
      {
        ToldIsQueued(sender, queue, out, wants, x);
      }
      forall i | 0 <= i < |msgs|
        ensures msgs[i].data == AfterDelivery(batch, out, msgs[i], cache[i], ToldOf(sub, conn, sender, cache[i]))
      {
        DeliveredOne(batch, out, msgs[i], cache[i], ToldOf(sub, conn, sender, cache[i]));
      }
    }

    /** A message stands in some outbox exactly when someone other than the sender wants it. */
    lemma ToldIsQueued(sender: Connection?, queue: SendQueue, out: seq<Msg>,
                       wants: map<Connection, iset<Reduce.Key>>, x: nat)
      requires x < |out| && queue.msgs.Keys <= conn
      requires forall c :: c in conn ==> (c in queue.msgs <==> c != sender && Wanted(sub, c, out) != [])
      requires wants.Keys == queue.msgs.Keys && forall c :: c in wants ==> wants[c] == WantedKeys(sub, c)
      ensures (exists c :: c in queue.msgs && Reduce.GroupKey(out[x]) in wants[c])
              <==> ToldOf(sub, conn, sender, out[x])
    {
      hide Wanted, WantedKeys, Wants, Reduce.GroupKey;
      forall c | c in conn
        ensures Wants(sub, c, out[x]) <==> Reduce.GroupKey(out[x]) in WantedKeys(sub, c)
        ensures Wants(sub, c, out[x]) ==> Wanted(sub, c, out) != []
      {
        WantsByKey(sub, c, out[x]);
        WantedMembers(sub, c, out);
      }
    }

    /** Storing a batch and telling subscribers. The store changes as Save says, and each connection other
        than the sender is sent one frame, the reduction of the publications that match at least one of its
        patterns; the sender is sent nothing. Sending merges groups of equal keys into their first objects,
        which the cache may hold. */
    method AcceptPubDel(sender: Connection?, batch: seq<NetfindMessage>)
      requires Valid() && FreshBatch(batch)
      modifies this`msgs, db, batch, conn
      ensures Valid() && S.AllComplete(old(Snap(batch)))
      ensures forall m :: m in msgs ==> m in old(msgs) || m in batch
      ensures db.rows == S.Save(old(Contents()), old(Snap(batch))).rows
      ensures var out := S.Stamped(old(Contents()), old(Snap(batch)));
              forall c :: c in conn ==>
                c.sent == old(c.sent)
                          + (if c == sender || Wanted(sub, c, out) == [] then []
                             else [Reduce.ReduceMsgs(Wanted(sub, c, out))])
      ensures var cache := S.Save(old(Contents()), old(Snap(batch))).cache;
              var out := S.Stamped(old(Contents()), old(Snap(batch)));
              && |msgs| == |cache| && |out| == |batch|
              && forall i :: 0 <= i < |msgs| ==>
                   msgs[i].data == AfterSending(old(Snap(batch)), out, cache[i], ToldOf(sub, conn, sender, cache[i]))
      ensures DistinctKeys(old(Snap(batch))) ==> Contents() == S.Save(old(Contents()), old(Snap(batch)))
    {
      hide S.SaveOne, S.Stamp, S.Valid, Snap, Complete, Reduce.GroupKey, Reduce.ReduceMsgs, S.Save, S.Stamped, Wanted;
      hide DistinctKeys, DataAfter, Wants, Subscribed, Pattern.Matches, PickBy, WantedKeys, AfterDelivery, ToldOf;
      hide AfterSending, Provenance;
      ghost var st, vals := Contents(), Snap(batch);
      var queue := Prepare(sender, batch);
      ghost var out, cache := Snap(batch), Snap(msgs);
      assert SameObjects(batch, out, msgs, cache);
      Deliver(sender, queue, batch);
      forall i | 0 <= i < |msgs|
        ensures msgs[i].data == AfterSending(vals, out, cache[i], ToldOf(sub, conn, sender, cache[i]))
      {
        DeliveredIsSent(msgs, cache, batch, vals, out, i, ToldOf(sub, conn, sender, cache[i]));
      }
      if DistinctKeys(vals) {
        StampedDistinct(st, vals);
        forall i | 0 <= i < |msgs| ensures msgs[i].data == cache[i] {
          NothingMergedDistinct(batch, out, msgs[i], cache[i], ToldOf(sub, conn, sender, cache[i]));
        }
        assert Snap(msgs) == cache;
      }
    }

    // ---------- load_msgs and accept_get_sub_unsub ----------

    method LoadCached(p: string) returns (out: seq<NetfindMessage>)
      ensures Snap(out) == Filter(S.MatchedBy(p), Snap(msgs))
      ensures forall m :: m in out <==> m in msgs && Pattern.Matches(p, m.data.topic)
    {
      hide Pattern.Matches;
      out := [];
      var i := 0;
      while i < |msgs|
        invariant 0 <= i <= |msgs|
        invariant Snap(out) == Filter(S.MatchedBy(p), Snap(msgs)[..i])
        invariant forall m :: m in out <==> m in msgs[..i] && Pattern.Matches(p, m.data.topic)
      {
        FilterStep(S.MatchedBy(p), Snap(msgs), i);
        if Pattern.Matches(p, msgs[i].data.topic) {
          SnapAppend(out, msgs[i]);
          out := out + [msgs[i]];
        }
        i := i + 1;
      }
      assert Snap(msgs)[..i] == Snap(msgs) && msgs[..i] == msgs;
    }

    method LoadRows(p: string) returns (out: seq<NetfindMessage>)
      ensures Snap(out) == S.MsgsOf(S.PatternRows(db.rows, p))
      ensures fresh(out)
    {
      hide Pattern.Matches, S.LikeRows;
      out := [];
      var found := db.GetPattern(p);
      var i := 0;
      while i < |found|
        invariant 0 <= i <= |found| && fresh(out)
        invariant Snap(out) == S.MsgsOf(Filter(S.RowMatchedBy(p), found[..i]))
      {
        FilterStep(S.RowMatchedBy(p), found, i);
        if Pattern.Matches(p, found[i].topic) {
          var m := new NetfindMessage(S.MsgOf(found[i]));
          SnapAppend(out, m);
          out := out + [m];
        }
        i := i + 1;
      }
      assert found[..i] == found;
    }

    /** The cached messages themselves, followed by new objects for the stored rows. */
    method LoadMsgs(p: string) returns (out: seq<NetfindMessage>)
      requires Valid()
      ensures Snap(out) == S.Load(Contents(), p)
      ensures forall m :: m in out ==> m in msgs || fresh(m)
      ensures Leads(msgs, out)
    {
      hide Pattern.Matches, Snap, Filter, S.PatternRows, Reduce.GroupKey;
      var cached := LoadCached(p);
      var stored := LoadRows(p);
      out := cached + stored;
      SnapConcat(cached, stored);
      forall i | 0 <= i < |msgs| ensures LeadsOne(msgs[i], out) {
        var f := FirstAt(Snap(out), Reduce.GroupKey(msgs[i].data));
        if f < |out| {
          FoundMatches(Contents(), p, cached, stored, f);
          CachedComesFirst(Contents().cache, msgs, cached, p, out, f, i);
        }
      }
    }

    method Subscribe(c: Connection, p: string)
      requires Valid() && c in conn
      modifies this`sub
      ensures Valid() && sub == old(sub)[p := PatternSubs(old(sub), p) + {c}]
    {
      hide S.Valid;
      sub := sub[p := PatternSubs(sub, p) + {c}];
    }

    method Unsubscribe(c: Connection, p: string)
      requires Valid()
      modifies this`sub
      ensures Valid() && sub == old(sub)[p := PatternSubs(old(sub), p) - {c}]
    {
      hide S.Valid;
      sub := sub[p := PatternSubs(sub, p) - {c}];
    }

    /** One message of a GET/SUB/UNSUB batch; a SUB registers before it loads. */
    method CollectOne(c: Connection, m: Msg, queue: SendQueue, ghost all: seq<NetfindMessage>)
      returns (ghost more: seq<NetfindMessage>)
      requires Valid() && c in conn && Leads(msgs, all)
      requires Box(queue.msgs, c) == all && queue.msgs.Keys <= {c}
      modifies this`sub, queue
      ensures Valid() && sub == SubAfterOne(old(sub), c, m) && Leads(msgs, more)
      ensures queue.msgs == if Asks(m) then map[c := more] else old(queue.msgs)
      ensures Snap(more) == Snap(all) + (if Asks(m) then S.Load(Contents(), m.topic) else [])
      ensures if Asks(m) then forall x :: x in more ==> x in all || x in msgs || fresh(x) else more == all
    {
      hide S.Load, S.Valid, Snap, Leads, Valid, LeadsOne, Pattern.Matches, FirstAt, Reduce.GroupKey;
      more := all;
      if Asks(m) {
        if m.typ.SUB? {
          Subscribe(c, m.topic);
        }
        var out := LoadMsgs(m.topic);
        queue.Extend(c, out);
        LeadsConcat(msgs, all, out);
        SnapConcat(all, out);
        more := all + out;
      } else if m.typ.UNSUB? {
        Unsubscribe(c, m.topic);
      }
    }

    /** Works through a batch of GET, SUB and UNSUB messages. */
    method Collect(c: Connection, batch: seq<NetfindMessage>) returns (queue: SendQueue, ghost all: seq<NetfindMessage>)
      requires Valid() && c in conn
      modifies this`sub
      ensures Valid() && sub == SubAfter(old(sub), c, Snap(batch))
      ensures fresh(queue) && queue.msgs == if AnyAsks(Snap(batch)) then map[c := all] else map[]
      ensures Snap(all) == Loaded(Contents(), Snap(batch))
      ensures forall m :: m in all ==> m in msgs || fresh(m)
      ensures Leads(msgs, all)
    {
      hide S.Load, S.Valid, Snap, Leads, SubAfter, SubAfterOne, Loaded, AnyAsks, Asks, Valid, LeadsOne;
      hide Pattern.Matches, FirstAt, Reduce.GroupKey;
      queue := new SendQueue();
      ghost var vals := Snap(batch);
      all := [];
      NothingLeads(msgs);
      NothingAsked(Contents(), sub, c);
      var i := 0;
      while i < |batch|
        invariant 0 <= i <= |batch| && Valid() && fresh(queue)
        invariant sub == SubAfter(old(sub), c, vals[..i])
        invariant queue.msgs == if AnyAsks(vals[..i]) then map[c := all] else map[]
        invariant !AnyAsks(vals[..i]) ==> all == []
        invariant Snap(all) == Loaded(Contents(), vals[..i])
        invariant forall m :: m in all ==> m in msgs || fresh(m)
        invariant Leads(msgs, all)
      {
        OneMoreAsked(Contents(), old(sub), c, vals, i);
        all := CollectOne(c, batch[i].data, queue, all);
        i := i + 1;
      }
      assert vals[..i] == vals;
    }

    /** Sends the outbox of a GET/SUB/UNSUB batch. */
    method SendAnswers(c: Connection, queue: SendQueue, ghost all: seq<NetfindMessage>)
      requires Valid() && c in conn
      requires queue.msgs == map[c := all] || (queue.msgs == map[] && all == [])
      requires S.AllComplete(Snap(all)) && Leads(msgs, all)
      modifies c, msgs, all
      ensures c.sent == old(c.sent) + (if c in old(queue.msgs) then [Reduce.ReduceMsgs(old(Snap(all)))] else [])
      ensures forall i :: 0 <= i < |msgs| ==> msgs[i].data == Refreshed(old(msgs[i].data), old(Snap(all)))
    {
      hide S.Valid, Snap, Reduce.GroupKey, Reduce.ReduceMsgs, Complete, DataAfter, Refreshed, FirstAt, DistinctKeys;
      ghost var list := Snap(all);
      ghost var cache := Snap(msgs);
      forall m | m in all ensures Complete(m.data) {
        CompleteMember(all, m);
      }
      forall i | 0 <= i < |msgs|
        ensures var f := FirstAt(list, Reduce.GroupKey(cache[i])); f < |list| ==> all[f] == msgs[i]
      {
        assert LeadsOne(msgs[i], all);
      }
      queue.Send(set m | m in all, [], map[]);
      assert forall x :: 0 <= x < |all| ==> all[x].data == DataAfter(all, list, x) by {
        if c in queue.msgs {
          assert queue.msgs.Keys == {c};
        }
      }
      forall i | 0 <= i < |msgs| ensures msgs[i].data == Refreshed(cache[i], list) {
        RefreshedOne(all, list, msgs[i], cache[i]);
      }
    }

    /** Unsubscribing, subscribing and loading, in the order of the batch. The connection is sent the
        reduction of everything loaded; the cached messages merge with what was loaded beside them. */
    method AcceptGetSubUnsub(c: Connection, batch: seq<NetfindMessage>)
      requires Valid() && c in conn
      modifies this`sub, c, msgs
      ensures Valid()
      ensures sub == SubAfter(old(sub), c, old(Snap(batch)))
      ensures c.sent == old(c.sent)
                        + (if AnyAsks(old(Snap(batch)))
                           then [Reduce.ReduceMsgs(Loaded(old(Contents()), old(Snap(batch))))] else [])
      ensures Snap(msgs) == AfterRead(old(Snap(msgs)), Loaded(old(Contents()), old(Snap(batch))))
    {
      hide S.Load, S.Valid, Snap, Reduce.GroupKey, Reduce.ReduceMsgs, Complete;
      hide SubAfter, Loaded, AnyAsks, Leads, Refreshed;
      ghost var vals := Snap(batch);
      ghost var st := Contents();
      ghost var all;
      var queue;
      queue, all := Collect(c, batch);
      LoadedPublications(st, vals);
      if !AnyAsks(vals) {
        NothingLoaded(st, vals);
      }
      assert c in queue.msgs <==> AnyAsks(vals);
      assert forall x :: 0 <= x < |all| ==> all[x] in msgs || fresh(all[x]);
      SendAnswers(c, queue, all);
      assert Snap(msgs) == AfterRead(st.cache, Loaded(st, vals));
      RefreshedStaysValid(st, Loaded(st, vals));
    }

    // ---------- connections and last wills ----------

    method AddConnection(c: Connection)
      requires Valid()
      modifies this`conn
      ensures Valid() && conn == old(conn) + {c}
    {
      hide S.Valid;
      conn := conn + {c};
    }

    /** The last message of the batch sets the last will. */
    method AcceptLwt(c: Connection, batch: seq<NetfindMessage>)
      requires Valid() && c in conn && forall m :: m in batch ==> Complete(m.data) && m.data.typ.LWT?
      modifies this`lwt
      ensures Valid() && lwt == WillAfter(old(lwt), c, Snap(batch))
    {
      hide S.Valid;
      var i := 0;
      while i < |batch|
        invariant 0 <= i <= |batch|
        invariant lwt == WillAfter(old(lwt), c, Snap(batch)[..i])
        invariant lwt.Keys <= conn
      {
        lwt := lwt[c := (batch[i].data.topic, batch[i].data.value.value)];
        assert Snap(batch)[..i + 1][..i] == Snap(batch)[..i];
        i := i + 1;
      }
      assert Snap(batch)[..i] == Snap(batch);
    }

    /** Closing a connection: it leaves every subscriber set, and its last will, if it had one, is
        published as a RETAIN to those that remain. */
    method DelConnection(c: Connection, created: int, updated: int)
      requires Valid()
      modifies this`msgs, this`conn, this`sub, this`lwt, db, conn
      ensures Valid() && conn == old(conn) - {c} && lwt == old(lwt) - {c}
      ensures sub.Keys == old(sub).Keys && forall p :: p in sub ==> sub[p] == old(sub)[p] - {c}
      ensures c !in old(lwt) ==> Contents() == old(Contents()) && forall d :: d in conn ==> d.sent == old(d.sent)
      ensures c in old(lwt) ==>
                var will := Will(old(lwt)[c], created, updated);
                && Contents() == S.SaveOne(old(Contents()), will)
                && forall d :: d in conn ==>
                     d.sent == old(d.sent)
                               + (if Subscribed(sub, d, will.topic) then [[S.Stamp(old(Contents()), will)]] else [])
    {
      hide S.Valid, S.SaveOne, S.Stamp, Pattern.Matches, Reduce.GroupKey, Subscribed, Wanted;
      hide Reduce.ReduceMsgs, S.Save, S.Stamped;
      conn := conn - {c};
      RemoveSubscriber(c);
      var will := if c in lwt then Some(lwt[c]) else None;
      lwt := lwt - {c};
      if will.Some? {
        var msg := new NetfindMessage(Will(will.value, created, updated));
        ghost var st := Contents();
        ghost var one := [msg.data];
        assert Snap([msg]) == one;
        AcceptPubDel(null, [msg]);
        SaveSingle(st, one[0]);
        forall d | d in conn
          ensures d.sent == old(d.sent) + (if Subscribed(sub, d, one[0].topic) then [[S.Stamp(st, one[0])]] else [])
        {
          WantedSingle(st, sub, d, one[0]);
        }
      }
    }

    method RemoveSubscriber(c: Connection)
      modifies this`sub
      ensures sub.Keys == old(sub).Keys && forall p :: p in sub ==> sub[p] == old(sub)[p] - {c}
    {
      var left := sub.Keys;
      while left != {}
        invariant left <= old(sub).Keys && sub.Keys == old(sub).Keys
        invariant forall p :: p in sub ==> sub[p] == if p in left then old(sub)[p] else old(sub)[p] - {c}
      {
        var p :| p in left;
        sub := sub[p := sub[p] - {c}];
        left := left - {p};
      }
    }

    /** The messages of a batch are separate objects that the cache does not hold yet. */
    ghost predicate FreshBatch(batch: seq<NetfindMessage>)
      reads this, batch
    {
      && (forall i, j :: 0 <= i < j < |batch| ==> batch[i] != batch[j])
      && (forall m :: m in batch ==> m !in msgs && Complete(m.data))
    }
  }

  lemma PositionAt(cache: seq<Msg>, topic: string, i: nat)
    requires i <= |cache| && forall k :: 0 <= k < i ==> cache[k].topic != topic
    requires i < |cache| ==> cache[i].topic == topic
    ensures S.Position(cache, topic) == i
  {
  }

  /** Merging changes no key, so the store stays valid. */
  lemma SameKeysStayValid(cache: seq<Msg>, cache': seq<Msg>, rows: seq<Database.Row>)
    requires S.Valid(S.Store(cache, rows)) && |cache| == |cache'|
    requires forall i :: 0 <= i < |cache| ==>
               cache'[i] == cache[i] || (Complete(cache'[i]) && Reduce.GroupKey(cache'[i]) == Reduce.GroupKey(cache[i]))
    ensures S.Valid(S.Store(cache', rows))
  {
    forall i | 0 <= i < |cache|
      ensures cache'[i].topic == cache[i].topic && cache'[i].typ.PUB? && Complete(cache'[i])
    {
      assert cache[i] in cache;
    }
  }

  lemma RefreshedStaysValid(st: S.Store, loaded: seq<Msg>)
    requires S.Valid(st) && S.AllComplete(loaded)
    ensures S.Valid(S.Store(AfterRead(st.cache, loaded), st.rows))
  {
    var cache' := AfterRead(st.cache, loaded);
    forall i | 0 <= i < |st.cache|
      ensures cache'[i] == st.cache[i]
              || (Complete(cache'[i]) && Reduce.GroupKey(cache'[i]) == Reduce.GroupKey(st.cache[i]))
    {
      var k := Reduce.GroupKey(st.cache[i]);
      var g := Reduce.GroupOf(loaded, k);
      Reduce.GroupHasKey(loaded, k);
      if g != [] {
        Reduce.MergeAllShape(g);
        assert g[0] in g;
      }
    }
    SameKeysStayValid(st.cache, cache', st.rows);
  }

  lemma CompleteMember(batch: seq<NetfindMessage>, m: NetfindMessage)
    requires S.AllComplete(Snap(batch)) && m in batch
    ensures Complete(m.data)
  {
    var i :| 0 <= i < |batch| && batch[i] == m;
    assert Snap(batch)[i] == m.data;
  }

  /** Storing changes nothing of a message but its creation time. */
  lemma {:induction false} StampedShape(st: S.Store, ms: seq<Msg>)
    requires S.AllComplete(ms) && S.Valid(st)
    ensures |S.Stamped(st, ms)| == |ms|
    ensures forall i :: 0 <= i < |ms| ==>
              var s := S.Stamped(st, ms)[i];
              s == ms[i].(createdAt := s.createdAt) && Complete(s) && Reduce.GroupKey(s) == Reduce.GroupKey(ms[i])
  {
    if ms != [] {
      var n := |ms| - 1;
      StampedShape(st, ms[..n]);
      S.SaveKeepsValid(st, ms[..n]);
      StampShape(S.Save(st, ms[..n]), ms[n]);
    }
  }

  lemma StampedDistinct(st: S.Store, ms: seq<Msg>)
    requires S.AllComplete(ms) && S.Valid(st) && DistinctKeys(ms)
    ensures DistinctKeys(S.Stamped(st, ms))
  {
    hide Reduce.GroupKey, S.Stamped, Complete, S.Valid;
    StampedShape(st, ms);
  }

  /** `a` and `b` are contents of the same objects where these coincide. */
  ghost predicate SameObjects(s: seq<NetfindMessage>, a: seq<Msg>, t: seq<NetfindMessage>, b: seq<Msg>)
  {
    |a| == |s| && |b| == |t|
    && forall x, i :: 0 <= x < |s| && 0 <= i < |t| && s[x] == t[i] ==> a[x] == b[i]
  }

  lemma StampShape(st: S.Store, m: Msg)
    requires Complete(m) && S.Valid(st)
    ensures var s := S.Stamp(st, m);
            s == m.(createdAt := s.createdAt) && Complete(s) && Reduce.GroupKey(s) == Reduce.GroupKey(m)
  {
    if m.typ.PUB? {
      S.StampIsPublication(st, m);
    }
  }

  /** Whatever load_msgs returns matches the pattern. */
  lemma FoundMatches(st: S.Store, p: string, cached: seq<NetfindMessage>, stored: seq<NetfindMessage>, y: nat)
    requires y < |cached + stored|
    requires Snap(cached) == Filter(S.MatchedBy(p), st.cache) && Snap(stored) == S.MsgsOf(S.PatternRows(st.rows, p))
    ensures Pattern.Matches(p, (cached + stored)[y].data.topic)
  {
    FilterMembers(S.MatchedBy(p), st.cache);
    FilterMembers(S.RowMatchedBy(p), S.LikeRows(st.rows, Database.LikeQuery(p)));
    if y < |cached| {
      assert Snap(cached)[y] in Filter(S.MatchedBy(p), st.cache);
    } else {
      var rows := S.PatternRows(st.rows, p);
      assert Snap(stored)[y - |cached|] == S.MsgOf(rows[y - |cached|]);
      assert rows[y - |cached|] in rows;
    }
  }

  lemma CachedComesFirst(cache: seq<Msg>, msgs: seq<NetfindMessage>, cached: seq<NetfindMessage>, p: string,
                         out: seq<NetfindMessage>, f: nat, i: nat)
    requires Snap(msgs) == cache && S.OnePerTopic(cache) && i < |msgs|
    requires f == FirstAt(Snap(out), Reduce.GroupKey(msgs[i].data)) && f < |out|
    requires cached <= out && forall m :: m in cached <==> m in msgs && Pattern.Matches(p, m.data.topic)
    requires Pattern.Matches(p, out[f].data.topic)
    ensures out[f] == msgs[i]
  {
    hide Pattern.Matches, FirstAt, Snap;
    assert Reduce.GroupKey(Snap(out)[f]) == Reduce.GroupKey(msgs[i].data);
    assert out[f].data.topic == msgs[i].data.topic;
    assert msgs[i] in cached;
    var x :| 0 <= x < |cached| && cached[x] == msgs[i];
    assert Snap(out)[x] == msgs[i].data;
    assert f <= x;
    assert out[f] == cached[f] && out[f] in msgs;
    var j :| 0 <= j < |msgs| && msgs[j] == out[f];
    assert cache[j].topic == cache[i].topic;
  }
}
