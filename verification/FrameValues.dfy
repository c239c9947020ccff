/** Which of several values published on one topic a frame leaves behind: reduction sorts the frame, so it
    is the greatest value and not the last one listed (util.py reduce_msgs with websocket.py and broker.py). */
module FrameValues {
  import opened Wrappers
  import opened Text
  import opened Model
  import opened Seqs
  import opened Frame
  import opened FrameEffects
  import S = Store
  import P = StoreProperties
  import Database
  import Pattern
  import Reduce

  ghost predicate Published(frame: seq<Msg>, u: string, v: string)
  {
    exists m :: m in frame && m.typ.PUB? && m.topic == u && m.value == Some(v)
  }

  /** The greatest value, in the order of Python strings, that the frame publishes on a topic. */
  ghost predicate IsGreatest(frame: seq<Msg>, u: string, v: string)
  {
    Published(frame, u, v) && forall w :: Published(frame, u, w) ==> w == v || Reduce.StrLess(w, v)
  }

  lemma GreatestUnique(frame: seq<Msg>, u: string, v: string, w: string)
    requires IsGreatest(frame, u, v) && IsGreatest(frame, u, w)
    ensures v == w
  {
    Reduce.StrLessTotal(v, w);
  }

  function Renamed(u: string, name: string): string { ReplacePair(u, '/', '@', "/" + name) }

  /** Every publication of the frame that ends up on the topic names it alike. */
  ghost predicate Alone(frame: seq<Msg>, name: string, u: string)
  {
    forall m :: m in frame && m.typ.PUB? && Renamed(m.topic, name) == Renamed(u, name) ==> m.topic == u
  }

  /** The frame publishes the value on the topic, and this is the greatest mode in which it does. */
  ghost predicate Strongest(frame: seq<Msg>, u: string, v: string, mode: PublishMode)
  {
    && (exists m :: m in frame && m.typ.PUB? && m.topic == u && m.value == Some(v) && m.mode == Some(mode))
    && (forall m :: m in frame && m.typ.PUB? && m.topic == u && m.value == Some(v) && m.mode.Some? ==>
          m.mode.value.Rank() <= mode.Rank())
  }

  lemma StrongestUnique(frame: seq<Msg>, u: string, v: string, a: PublishMode, b: PublishMode)
    requires Strongest(frame, u, v, a) && Strongest(frame, u, v, b)
    ensures a == b
  {
  }

  predicate On(m: Msg, t: string) { m.typ.PUB? && m.topic == t }

  // ---------- The ordered frame ----------

  lemma ReducedValue(frame: seq<Msg>, name: string, u: string, i: nat)
    requires S.AllComplete(frame) && Alone(frame, name, u)
    requires i < |Ordered(frame, name)| && On(Ordered(frame, name)[i], Renamed(u, name))
    ensures var m, r := Ordered(frame, name)[i], Reduce.ReduceMsgs(frame);
            && i < |r| && r[i].topic == u && m.value == r[i].value
            && m.value.Some? && m.mode.Some? && Strongest(frame, u, m.value.value, m.mode.value)
  {
    hide Reduce.ReduceMsgs, ReplacePair, Reduce.GroupOf;
    var r := Reduce.ReduceMsgs(frame);
    Reduce.ReduceIsReduction(frame);
    var j := Reduce.ReductionKey(frame, r, i);
    KeyOfPub(frame[j], r[i]);
    assert frame[j] in frame;
    var k := Reduce.GroupKey(r[i]);
    var g := Reduce.GroupOf(frame, k);
    Reduce.GroupMembers(frame, k);
    forall x | 0 <= x < |g| ensures g[x] in frame && g[x].typ.PUB? && Complete(g[x])
      && g[x].topic == u && g[x].value == r[i].value
    {
      assert g[x] in g && g[x] in frame;
      KeyOfPub(g[x], r[i]);
    }
    Reduce.ReducedPublication(frame, i);
    forall m | m in frame && m.typ.PUB? && m.topic == u && m.value == r[i].value && m.mode.Some?
      ensures m.mode.value.Rank() <= r[i].mode.value.Rank()
    {
      assert m in g;
      var x :| 0 <= x < |g| && g[x] == m;
    }
  }

  lemma KeyOfPub(a: Msg, b: Msg)
    requires Reduce.GroupKey(a) == Reduce.GroupKey(b) && b.typ.PUB?
    ensures a.typ.PUB? && a.topic == b.topic && a.value == b.value
  {
  }

  /** Every published value is still there. */
  lemma OrderedHasValue(frame: seq<Msg>, name: string, u: string, v: string)
    requires Published(frame, u, v)
    ensures exists m :: m in Ordered(frame, name) && On(m, Renamed(u, name)) && m.value == Some(v)
  {
    hide ReplacePair, Reduce.ReduceMsgs, Reduce.MergeAll, Reduce.GroupOf;
    var r, ordered := Reduce.ReduceMsgs(frame), Ordered(frame, name);
    Reduce.ReduceIsReduction(frame);
    var m :| m in frame && m.typ.PUB? && m.topic == u && m.value == Some(v);
    var j :| 0 <= j < |frame| && frame[j] == m;
    var k := Reduce.GroupKey(m);
    Reduce.GroupHolds(frame, j);
    Reduce.GroupHasKey(r, k);
    var x := Reduce.MergeAll(Reduce.GroupOf(frame, k));
    assert x in Reduce.GroupOf(r, k);
    var i :| 0 <= i < |r| && r[i] == x;
    KeyOfPub(x, m);
    assert ordered[i] in ordered;
  }

  predicate Less(a: Msg, b: Msg, t: string)
  {
    On(a, t) && On(b, t) ==> a.value.Some? && b.value.Some? && Reduce.StrLess(a.value.value, b.value.value)
  }

  /** Publications on the topic come in increasing order of their values. */
  ghost predicate Ascending(ms: seq<Msg>, t: string)
  {
    forall i, j :: 0 <= i < j < |ms| ==> Less(ms[i], ms[j], t)
  }

  lemma OrderedAscending(frame: seq<Msg>, name: string, u: string)
    requires S.AllComplete(frame) && Alone(frame, name, u)
    ensures Ascending(Ordered(frame, name), Renamed(u, name))
  {
    hide Reduce.ReduceMsgs, ReplacePair, S.AllComplete, Alone, Strongest;
    var r, ordered, t := Reduce.ReduceMsgs(frame), Ordered(frame, name), Renamed(u, name);
    Reduce.ReduceIsReduction(frame);
    forall i, j | 0 <= i < j < |ordered| ensures Less(ordered[i], ordered[j], t) {
      if On(ordered[i], t) && On(ordered[j], t) {
        ReducedValue(frame, name, u, i);
        ReducedValue(frame, name, u, j);
        KeyOfSame(r[i], r[j]);
      }
    }
  }

  lemma KeyOfSame(a: Msg, b: Msg)
    requires a.typ.PUB? && b.typ.PUB? && a.topic == b.topic && a.value.Some? && b.value.Some?
    requires Reduce.KeyLess(Reduce.GroupKey(a), Reduce.GroupKey(b))
    ensures Reduce.StrLess(a.value.value, b.value.value)
  {
    Reduce.StrLessTotal(a.topic, b.topic);
  }

  lemma {:induction false} FilterAscending(f: Msg -> bool, ms: seq<Msg>, t: string)
    requires Ascending(ms, t)
    ensures Ascending(Filter(f, ms), t)
  {
    hide Less;
    if ms != [] {
      FilterAscending(f, ms[1..], t);
      FilterMembers(f, ms[1..]);
      var rest := Filter(f, ms[1..]);
      forall j | 0 <= j < |rest| ensures Less(ms[0], rest[j], t) {
        assert rest[j] in ms[1..];
        var x :| 0 <= x < |ms[1..]| && ms[1..][x] == rest[j];
        assert ms[x + 1] == rest[j];
      }
    }
  }

  /** A publication on the topic with this value and mode. */
  predicate Has(m: Msg, t: string, v: string, mode: PublishMode)
  {
    On(m, t) && m.value == Some(v) && m.mode == Some(mode)
  }

  /** What the broker is given: on the topic, in increasing order, each value once in its greatest mode. */
  lemma PublicationsOn(frame: seq<Msg>, name: string, u: string)
    requires S.AllComplete(frame) && Alone(frame, name, u)
    ensures var pubs, t := Publications(frame, name), Renamed(u, name);
            && Ascending(pubs, t)
            && (forall m :: m in pubs ==> m.typ.PUB?)
            && (forall v, mode :: Strongest(frame, u, v, mode) <==> exists m :: m in pubs && Has(m, t, v, mode))
            && (forall m :: m in pubs && On(m, t) ==> m.value.Some? && m.mode.Some?)
  {
    hide Ordered, Reduce.StrLess, S.AllComplete, Alone, Strongest, ReplacePair, Renamed;
    var ordered, pubs, t := Ordered(frame, name), Publications(frame, name), Renamed(u, name);
    FilterMembers(IsPub(), ordered);
    OrderedAscending(frame, name, u);
    FilterAscending(IsPub(), ordered, t);
    forall m | m in pubs && On(m, t)
      ensures m.value.Some? && m.mode.Some? && Strongest(frame, u, m.value.value, m.mode.value)
    {
      var i :| 0 <= i < |ordered| && ordered[i] == m;
      ReducedValue(frame, name, u, i);
    }
    forall v, mode | Strongest(frame, u, v, mode) ensures exists m :: m in pubs && Has(m, t, v, mode) {
      StrongestPublished(frame, u, v, mode);
      OrderedHasValue(frame, name, u, v);
      var m :| m in ordered && On(m, t) && m.value == Some(v);
      assert m in pubs;
      StrongestUnique(frame, u, v, mode, m.mode.value);
    }
  }

  lemma StrongestPublished(frame: seq<Msg>, u: string, v: string, mode: PublishMode)
    requires Strongest(frame, u, v, mode)
    ensures Published(frame, u, v)
  {
  }

  // ---------- What a list of publications leaves ----------

  predicate Kept(m: Msg, t: string) { On(m, t) && m.mode.Some? && !m.mode.value.SEND? }

  /** The last publication on the topic that is not just sent. */
  function LastKept(ms: seq<Msg>, t: string): (r: Option<Msg>)
    ensures r.Some? ==> r.value in ms && Kept(r.value, t)
    ensures r.None? ==> forall m :: m in ms ==> !Kept(m, t)
  {
    if ms == [] then None
    else if Kept(ms[|ms| - 1], t) then Some(ms[|ms| - 1])
    else
      assert ms == ms[..|ms| - 1] + [ms[|ms| - 1]];
      LastKept(ms[..|ms| - 1], t)
  }

  lemma {:induction false} LastIsGreatest(ms: seq<Msg>, t: string, m: Msg)
    requires Ascending(ms, t) && m in ms && Kept(m, t) && m.value.Some?
    ensures LastKept(ms, t).Some?
    ensures var l := LastKept(ms, t).value;
            l.value == m.value || (l.value.Some? && Reduce.StrLess(m.value.value, l.value.value))
  {
    hide Reduce.StrLess;
    var n := |ms| - 1;
    assert ms == ms[..n] + [ms[n]];
    if Kept(ms[n], t) {
      var i :| 0 <= i < |ms| && ms[i] == m;
      assert i < n ==> Less(ms[i], ms[n], t);
    } else {
      LastIsGreatest(ms[..n], t, m);
    }
  }

  /** The last publication that is not just sent decides what the cache holds. */
  lemma {:induction false} SavedCache(st: S.Store, ms: seq<Msg>, t: string)
    requires S.Valid(st) && S.AllComplete(ms) && forall m :: m in ms ==> m.typ.PUB?
    ensures var c, l := S.Cached(S.Save(st, ms).cache, t), LastKept(ms, t);
            if l.None? then c == S.Cached(st.cache, t)
            else if l.value.mode == Some(RETAIN) then c.Some? && c.value.value == l.value.value
            else c == None
  {
    hide S.Valid, S.SaveOne, S.Cached;
    if ms != [] {
      var n := |ms| - 1;
      var before := S.Save(st, ms[..n]);
      S.SaveKeepsValid(st, ms[..n]);
      assert ms[n] in ms;
      SavedCache(st, ms[..n], t);
      if ms[n].topic != t {
        OthersKeepCached(before, ms[n], t);
      } else {
        OwnCached(before, ms[n]);
      }
    }
  }

  lemma OwnCached(st: S.Store, m: Msg)
    requires S.Valid(st) && Complete(m) && m.typ.PUB?
    ensures var c := S.Cached(S.SaveOne(st, m).cache, m.topic);
            match m.mode.value
            case SEND => c == S.Cached(st.cache, m.topic)
            case RETAIN => c.Some? && c.value.value == m.value
            case _ => c == None
  {
    hide S.Position, S.UpsertMsg;
    if m.mode == Some(RETAIN) {
      P.RetainExact(st, m, m.topic);
    } else if m.mode != Some(SEND) {
      P.CachedAfterFilter(S.OtherTopic(m.topic), st.cache, m.topic);
      CachedHasTopic(st.cache, m.topic);
    }
  }

  lemma CachedHasTopic(cache: seq<Msg>, t: string)
    ensures S.Cached(cache, t).Some? ==> S.Cached(cache, t).value.topic == t
  {
  }

  lemma OthersKeepCached(st: S.Store, m: Msg, t: string)
    requires S.Valid(st) && Complete(m) && m.typ.PUB? && m.topic != t
    ensures S.Cached(S.SaveOne(st, m).cache, t) == S.Cached(st.cache, t)
  {
    hide S.Position, S.UpsertMsg;
    var i := S.Position(st.cache, t);
    if m.mode == Some(RETAIN) {
      P.RetainExact(st, m, t);
    } else if m.mode != Some(SEND) {
      P.CachedAfterFilter(S.OtherTopic(m.topic), st.cache, t);
    }
  }

  ghost predicate HasRow(rows: seq<Database.Row>, t: string, v: string)
  {
    exists r :: r in rows && r.topic == t && r.value == v
  }

  predicate Replaces(m: Msg, t: string, v: string) { On(m, t) && m.mode == Some(PERSIST) && m.value != Some(v) }

  predicate Stores(m: Msg, t: string, v: string) { Has(m, t, v, PERSIST) || Has(m, t, v, APPEND) }

  /** The list stores the value and does not replace it afterwards. */
  ghost predicate StoredBy(ms: seq<Msg>, t: string, v: string)
  {
    exists j :: 0 <= j < |ms| && Stores(ms[j], t, v) && forall k :: j < k < |ms| ==> !Replaces(ms[k], t, v)
  }

  ghost predicate ReplacedBy(ms: seq<Msg>, t: string, v: string)
  {
    exists k :: 0 <= k < |ms| && Replaces(ms[k], t, v)
  }

  lemma OneMoreStored(ms: seq<Msg>, t: string, v: string)
    requires ms != []
    ensures var n := |ms| - 1;
            && (StoredBy(ms, t, v) <==> Stores(ms[n], t, v) || (StoredBy(ms[..n], t, v) && !Replaces(ms[n], t, v)))
            && (ReplacedBy(ms, t, v) <==> Replaces(ms[n], t, v) || ReplacedBy(ms[..n], t, v))
  {
    hide Stores, Replaces;
    var n := |ms| - 1;
    if StoredBy(ms[..n], t, v) && !Replaces(ms[n], t, v) {
      var j :| 0 <= j < n && Stores(ms[..n][j], t, v) && forall k :: j < k < n ==> !Replaces(ms[..n][k], t, v);
      forall k | j < k < |ms| ensures !Replaces(ms[k], t, v) {
        assert k < n ==> ms[..n][k] == ms[k];
      }
      assert Stores(ms[j], t, v);
    }
    if StoredBy(ms, t, v) && !Stores(ms[n], t, v) {
      var j :| 0 <= j < |ms| && Stores(ms[j], t, v) && forall k :: j < k < |ms| ==> !Replaces(ms[k], t, v);
      assert Stores(ms[..n][j], t, v);
    }
    if ReplacedBy(ms[..n], t, v) {
      var k :| 0 <= k < n && Replaces(ms[..n][k], t, v);
      assert Replaces(ms[k], t, v);
    }
    if ReplacedBy(ms, t, v) && !Replaces(ms[n], t, v) {
      var k :| 0 <= k < |ms| && Replaces(ms[k], t, v);
      assert Replaces(ms[..n][k], t, v);
    }
  }

  lemma {:induction false} SavedRows(st: S.Store, ms: seq<Msg>, t: string, v: string)
    requires S.Valid(st) && S.AllComplete(ms) && forall m :: m in ms ==> m.typ.PUB?
    ensures HasRow(S.Save(st, ms).rows, t, v)
            <==> StoredBy(ms, t, v) || (HasRow(st.rows, t, v) && !ReplacedBy(ms, t, v))
  {
    hide S.Valid, S.SaveOne, HasRow, StoredBy, ReplacedBy, Stores, Replaces;
    if ms == [] {
      NothingStored(t, v);
    } else {
      var n := |ms| - 1;
      assert ms[n] in ms;
      S.SaveKeepsValid(st, ms[..n]);
      SavedRows(st, ms[..n], t, v);
      OneMoreStored(ms, t, v);
      RowsAfterOne(S.Save(st, ms[..n]), ms[n], t, v);
    }
  }

  lemma NothingStored(t: string, v: string)
    ensures !StoredBy([], t, v) && !ReplacedBy([], t, v)
  {
  }

  lemma RowsAfterOne(st: S.Store, m: Msg, t: string, v: string)
    requires S.Valid(st) && Complete(m) && m.typ.PUB?
    ensures HasRow(S.SaveOne(st, m).rows, t, v)
            <==> Stores(m, t, v) || (HasRow(st.rows, t, v) && !Replaces(m, t, v))
    ensures Stores(m, t, v) ==> !Replaces(m, t, v)
  {
    if m.topic != t {
      OthersKeepRows(st, m, t);
    } else if m.mode == Some(PERSIST) || m.mode == Some(APPEND) {
      hide S.SaveOne;
      P.PersistentExact(st, m);
    }
  }

  lemma OthersKeepRows(st: S.Store, m: Msg, t: string)
    requires S.Valid(st) && Complete(m) && m.typ.PUB? && m.topic != t
    ensures forall r: Database.Row :: r.topic == t ==> (r in S.SaveOne(st, m).rows <==> r in st.rows)
  {
    if m.mode != Some(SEND) && m.mode != Some(RETAIN) {
      P.PersistentExact(st, m);
    }
  }

  // ---------- Whole frames, in any modes ----------

  /** Some DEL of the frame matches the cached topic. */
  ghost predicate Uncaches(frame: seq<Msg>, name: string, t: string)
  {
    exists m :: m in frame && m.typ.DEL? && Pattern.Matches(Name(m, name).topic, t)
  }

  /** The greatest value that the frame publishes on the topic other than to send it, and its mode. */
  ghost predicate GreatestKept(frame: seq<Msg>, u: string, g: string, mode: PublishMode)
  {
    && Strongest(frame, u, g, mode) && !mode.SEND?
    && forall v, other :: Strongest(frame, u, v, other) && !other.SEND? ==> v == g || Reduce.StrLess(v, g)
  }

  ghost predicate OnlySent(frame: seq<Msg>, u: string)
  {
    forall v, mode :: Strongest(frame, u, v, mode) ==> mode.SEND?
  }

  /** What any frame leaves in the cache for a topic: nothing if one of its DELs matches; what was there if it
      only sends the topic; and otherwise the greatest value that it publishes there not only to send it, each
      value taken in its greatest mode, is cached if that mode is RETAIN, and nothing is if it is not. */
  lemma FrameCaches(st: S.Store, frame: seq<Msg>, name: string, u: string)
    requires S.Valid(st) && S.AllComplete(frame) && Alone(frame, name, u)
    ensures S.AllComplete(Batch(frame, name))
    ensures var t := Renamed(u, name);
            var c := S.Cached(S.Save(st, Batch(frame, name)).cache, t);
            && (Uncaches(frame, name, t) ==> c == None)
            && (!Uncaches(frame, name, t) && OnlySent(frame, u) ==> c == S.Cached(st.cache, t))
            && (!OnlySent(frame, u) ==>
                  exists g, mode ::
                    (GreatestKept(frame, u, g, mode)
                     && (!Uncaches(frame, name, t) ==>
                           if mode.RETAIN? then c.Some? && c.value.value == Some(g) else c == None)))
  {
    hide S.Save, S.Valid, Ordered, Renamed, Publications, Batch, S.Cached, Reduce.StrLess, Deletes;
    hide Pattern.Matches, Strongest, Uncaches, Alone;
    var t, pubs := Renamed(u, name), Publications(frame, name);
    BatchComplete(frame, name);
    PublicationsOn(frame, name, u);
    SavedCache(st, pubs, t);
    AfterDels(st, frame, name, t);
    var l := LastKept(pubs, t);
    if l.Some? {
      var g, mode := l.value.value.value, l.value.mode.value;
      assert Has(l.value, t, g, mode);
      forall v, other | Strongest(frame, u, v, other) && !other.SEND? ensures v == g || Reduce.StrLess(v, g) {
        var m :| m in pubs && Has(m, t, v, other);
        LastIsGreatest(pubs, t, m);
      }
      assert GreatestKept(frame, u, g, mode);
    } else {
      forall v, mode | Strongest(frame, u, v, mode) ensures mode.SEND? {
        var m :| m in pubs && Has(m, t, v, mode);
        assert !Kept(m, t);
      }
    }
  }

  /** The cached message after the DELs of the frame. */
  lemma AfterDels(st: S.Store, frame: seq<Msg>, name: string, t: string)
    requires S.Valid(st) && S.AllComplete(frame)
    ensures S.AllComplete(Batch(frame, name)) && S.AllComplete(Publications(frame, name))
    ensures S.Cached(S.Save(st, Batch(frame, name)).cache, t)
            == if Uncaches(frame, name, t) then None
               else S.Cached(S.Save(st, Publications(frame, name)).cache, t)
  {
    hide S.Save, S.Valid, Ordered, Name, Publications, Batch, S.Cached, Deletes, Pattern.Matches;
    FrameDeletesExactly(st, frame, name);
    ValidAfter(st, frame, name);
    var stored, after := S.Save(st, Publications(frame, name)), S.Save(st, Batch(frame, name));
    CachedMember(stored.cache, after.cache, t, Uncaches(frame, name, t));
  }

  lemma ValidAfter(st: S.Store, frame: seq<Msg>, name: string)
    requires S.Valid(st) && S.AllComplete(frame)
    ensures S.AllComplete(Batch(frame, name)) && S.AllComplete(Publications(frame, name))
    ensures S.OnePerTopic(S.Save(st, Publications(frame, name)).cache)
    ensures S.OnePerTopic(S.Save(st, Batch(frame, name)).cache) && S.UniqueRows(S.Save(st, Batch(frame, name)).rows)
  {
    hide S.Save, Ordered, Publications, Batch;
    BatchComplete(frame, name);
    S.SaveKeepsValid(st, Publications(frame, name));
    S.SaveKeepsValid(st, Batch(frame, name));
  }

  /** A topic's cached message is found wherever it stands in the cache. */
  lemma CachedMember(before: seq<Msg>, after: seq<Msg>, t: string, gone: bool)
    requires forall c :: c in after && c.topic == t <==> c in before && c.topic == t && !gone
    requires S.OnePerTopic(before) && S.OnePerTopic(after)
    ensures S.Cached(after, t) == if gone then None else S.Cached(before, t)
  {
    hide S.Position;
    var i, j := S.Position(before, t), S.Position(after, t);
    if j < |after| {
      assert after[j] in after;
      P.CachedUnique(before, after[j]);
    }
    if i < |before| {
      assert before[i] in before;
    }
  }

  /** The frame stores the value, taken in its greatest mode, and no greater value replaces it. */
  ghost predicate StoresValue(frame: seq<Msg>, u: string, v: string)
  {
    && (Strongest(frame, u, v, PERSIST) || Strongest(frame, u, v, APPEND))
    && forall x :: Strongest(frame, u, x, PERSIST) ==> !Reduce.StrLess(v, x)
  }

  /** What any frame leaves in the table for a topic: the values that it publishes there PERSIST or APPEND and
      that are not below a PERSIST value of it; and the values that were there, if it has no other PERSIST
      value for the topic; but none that it deletes. */
  lemma FrameStores(st: S.Store, frame: seq<Msg>, name: string, u: string, v: string)
    requires S.Valid(st) && S.AllComplete(frame) && Alone(frame, name, u)
    ensures S.AllComplete(Batch(frame, name))
    ensures var t := Renamed(u, name);
            HasRow(S.Save(st, Batch(frame, name)).rows, t, v)
            <==> !Deletes(frame, name, t, v)
                 && (StoresValue(frame, u, v)
                     || (HasRow(st.rows, t, v) && forall x :: Strongest(frame, u, x, PERSIST) ==> x == v))
  {
    hide S.Save, S.Valid, Ordered, Renamed, Publications, Batch, Reduce.StrLess, Deletes, Pattern.Matches;
    hide Strongest, Alone, StoredBy, ReplacedBy;
    var t, pubs := Renamed(u, name), Publications(frame, name);
    BatchComplete(frame, name);
    PublicationsOn(frame, name, u);
    SavedRows(st, pubs, t, v);
    FrameDeletesExactly(st, frame, name);
    StoredInFrame(frame, pubs, t, u, v);
    ReplacedInFrame(frame, pubs, t, u, v);
  }

  /** In increasing order, a value is replaced exactly by the greater ones. */
  lemma StoredInFrame(frame: seq<Msg>, pubs: seq<Msg>, t: string, u: string, v: string)
    requires Ascending(pubs, t)
    requires forall x, mode :: Strongest(frame, u, x, mode) <==> exists m :: m in pubs && Has(m, t, x, mode)
    requires forall m :: m in pubs && On(m, t) ==> m.value.Some? && m.mode.Some?
    ensures StoredBy(pubs, t, v) <==> StoresValue(frame, u, v)
  {
    hide Strongest, Reduce.StrLess;
    if StoredBy(pubs, t, v) {
      var j :| 0 <= j < |pubs| && Stores(pubs[j], t, v) && forall k :: j < k < |pubs| ==> !Replaces(pubs[k], t, v);
      assert pubs[j] in pubs;
      forall x | Strongest(frame, u, x, PERSIST) ensures !Reduce.StrLess(v, x) {
        var m :| m in pubs && Has(m, t, x, PERSIST);
        var k :| 0 <= k < |pubs| && pubs[k] == m;
        LessOrSame(pubs, t, j, k);
        Reduce.StrLessTotal(v, x);
      }
    }
    if StoresValue(frame, u, v) {
      var m :| m in pubs && Stores(m, t, v);
      var j :| 0 <= j < |pubs| && pubs[j] == m;
      forall k | j < k < |pubs| ensures !Replaces(pubs[k], t, v) {
        assert pubs[k] in pubs && Less(pubs[j], pubs[k], t);
        assert On(pubs[k], t) && pubs[k].mode == Some(PERSIST) ==> Has(pubs[k], t, pubs[k].value.value, PERSIST);
      }
    }
  }

  lemma ReplacedInFrame(frame: seq<Msg>, pubs: seq<Msg>, t: string, u: string, v: string)
    requires forall x, mode :: Strongest(frame, u, x, mode) <==> exists m :: m in pubs && Has(m, t, x, mode)
    requires forall m :: m in pubs && On(m, t) ==> m.value.Some? && m.mode.Some?
    ensures ReplacedBy(pubs, t, v) <==> exists x :: Strongest(frame, u, x, PERSIST) && x != v
  {
    hide Strongest;
    if ReplacedBy(pubs, t, v) {
      var k :| 0 <= k < |pubs| && Replaces(pubs[k], t, v);
      assert pubs[k] in pubs && Has(pubs[k], t, pubs[k].value.value, PERSIST);
      assert Strongest(frame, u, pubs[k].value.value, PERSIST) && pubs[k].value.value != v;
    }
    if x :| Strongest(frame, u, x, PERSIST) && x != v {
      var m :| m in pubs && Has(m, t, x, PERSIST);
      var k :| 0 <= k < |pubs| && pubs[k] == m;
      assert Replaces(pubs[k], t, v);
    }
  }

  lemma LessOrSame(ms: seq<Msg>, t: string, j: nat, k: nat)
    requires Ascending(ms, t) && j < |ms| && k < |ms|
    ensures j == k || Less(ms[j], ms[k], t) || Less(ms[k], ms[j], t)
    ensures k < j ==> Less(ms[k], ms[j], t)
  {
  }

  // ---------- Frames that publish a topic in one mode ----------

  /** Every publication of the frame that ends up on the topic names it alike and has this mode. */
  ghost predicate OnlyPublished(frame: seq<Msg>, name: string, u: string, mode: PublishMode)
  {
    Alone(frame, name, u) && forall m :: m in frame && m.typ.PUB? && m.topic == u ==> m.mode == Some(mode)
  }

  lemma OnlyMode(frame: seq<Msg>, name: string, u: string, mode: PublishMode)
    requires OnlyPublished(frame, name, u, mode)
    ensures forall v, other :: Strongest(frame, u, v, other) <==> other == mode && Published(frame, u, v)
  {
  }

  /** When a frame publishes a topic RETAIN, whatever else it holds: unless one of its DELs matches the
      topic, the greatest value that it published there is cached; so any of its publications there, the
      last one listed included, is the one cached if and only if its value is that greatest one. */
  lemma FrameRetainsGreatest(st: S.Store, frame: seq<Msg>, name: string, i: nat)
    requires S.Valid(st) && S.AllComplete(frame) && i < |frame| && frame[i].typ.PUB?
    requires OnlyPublished(frame, name, frame[i].topic, RETAIN)
    ensures S.AllComplete(Batch(frame, name))
    ensures var u := frame[i].topic;
            var t := Renamed(u, name);
            var c := S.Cached(S.Save(st, Batch(frame, name)).cache, t);
            if Uncaches(frame, name, t) then c.None?
            else c.Some? && c.value.value.Some? && IsGreatest(frame, u, c.value.value.value)
                 && (c.value.value == frame[i].value <==> IsGreatest(frame, u, frame[i].value.value))
  {
    hide S.Save, S.Valid, Renamed, Batch, S.Cached, Reduce.StrLess, Uncaches, Strongest, Alone;
    var u, v := frame[i].topic, frame[i].value.value;
    assert frame[i] in frame;
    OnlyMode(frame, name, u, RETAIN);
    assert Published(frame, u, v) && Strongest(frame, u, v, RETAIN);
    FrameCaches(st, frame, name, u);
    GreatestKeptIs(frame, name, u, RETAIN);
    if IsGreatest(frame, u, v) {
      forall g | IsGreatest(frame, u, g) ensures g == v {
        GreatestUnique(frame, u, v, g);
      }
    }
  }

  lemma GreatestKeptIs(frame: seq<Msg>, name: string, u: string, mode: PublishMode)
    requires OnlyPublished(frame, name, u, mode) && !mode.SEND?
    ensures forall g, other :: GreatestKept(frame, u, g, other) <==> other == mode && IsGreatest(frame, u, g)
  {
    hide Strongest, Published, Reduce.StrLess, Alone;
    OnlyMode(frame, name, u, mode);
  }

  /** Likewise PERSIST: the greatest value is the topic's only row, unless the frame deletes that very
      value; so any published value, the last one listed included, is stored afterwards if and only if it is
      the greatest one and not deleted. */
  lemma FramePersistsGreatest(st: S.Store, frame: seq<Msg>, name: string, i: nat)
    requires S.Valid(st) && S.AllComplete(frame) && i < |frame| && frame[i].typ.PUB?
    requires OnlyPublished(frame, name, frame[i].topic, PERSIST)
    ensures S.AllComplete(Batch(frame, name))
    ensures var u, v := frame[i].topic, frame[i].value.value;
            var t := Renamed(u, name);
            var rs := P.TopicRows(S.Save(st, Batch(frame, name)).rows, t);
            && (exists g :: IsGreatest(frame, u, g) &&
                  if Deletes(frame, name, t, g) then rs == [] else |rs| == 1 && rs[0].topic == t && rs[0].value == g)
            && ((exists r :: r in rs && r.value == v) <==> IsGreatest(frame, u, v) && !Deletes(frame, name, t, v))
  {
    var u, v := frame[i].topic, frame[i].value.value;
    var t := Renamed(u, name);
    assert frame[i] in frame && Published(frame, u, v);
    hide S.Save, S.Valid, Renamed, Batch, Reduce.StrLess, Deletes, Strongest, Alone, Published, Uncaches;
    OnlyMode(frame, name, u, PERSIST);
    assert Strongest(frame, u, v, PERSIST);
    FrameCaches(st, frame, name, u);
    GreatestKeptIs(frame, name, u, PERSIST);
    var g :| IsGreatest(frame, u, g);
    var rows := S.Save(st, Batch(frame, name)).rows;
    hide IsGreatest, HasRow, P.TopicRows;
    forall w ensures HasRow(rows, t, w) <==> w == g && !Deletes(frame, name, t, g) {
      OnlyGreatestStored(st, frame, name, u, g, w);
    }
    ValidAfter(st, frame, name);
    RowValues(rows, t, g, Deletes(frame, name, t, g));
    OnlyValue(rows, t, g, Deletes(frame, name, t, g));
    ValueOfOnly(P.TopicRows(rows, t), g, Deletes(frame, name, t, g), v);
    if IsGreatest(frame, u, v) {
      GreatestUnique(frame, u, v, g);
    }
  }

  lemma ValueOfOnly(rs: seq<Database.Row>, g: string, gone: bool, v: string)
    requires if gone then rs == [] else |rs| == 1 && rs[0].value == g
    ensures (exists r :: r in rs && r.value == v) <==> v == g && !gone
  {
    assert !gone ==> rs[0] in rs;
  }

  lemma OnlyGreatestStored(st: S.Store, frame: seq<Msg>, name: string, u: string, g: string, w: string)
    requires S.Valid(st) && S.AllComplete(frame) && OnlyPublished(frame, name, u, PERSIST)
    requires IsGreatest(frame, u, g)
    ensures S.AllComplete(Batch(frame, name))
    ensures var t := Renamed(u, name);
            HasRow(S.Save(st, Batch(frame, name)).rows, t, w) <==> w == g && !Deletes(frame, name, t, g)
  {
    hide S.Save, S.Valid, Renamed, Batch, Reduce.StrLess, Deletes, Strongest, Alone, Published, HasRow;
    FrameStores(st, frame, name, u, w);
    hide StoresValue;
    OnlyModeStores(frame, name, u, w);
    OneGreatest(frame, u, g, w);
  }

  lemma OnlyModeStores(frame: seq<Msg>, name: string, u: string, w: string)
    requires OnlyPublished(frame, name, u, PERSIST)
    ensures StoresValue(frame, u, w)
            <==> Published(frame, u, w) && forall x :: Published(frame, u, x) ==> !Reduce.StrLess(w, x)
    ensures (forall x :: Strongest(frame, u, x, PERSIST) ==> x == w) <==> forall x :: Published(frame, u, x) ==> x == w
  {
    hide Reduce.StrLess, Strongest, Alone, Published;
    OnlyMode(frame, name, u, PERSIST);
    assert forall x :: Published(frame, u, x) <==> Strongest(frame, u, x, PERSIST);
  }

  lemma OneGreatest(frame: seq<Msg>, u: string, g: string, w: string)
    requires IsGreatest(frame, u, g)
    ensures (Published(frame, u, w) && forall x :: Published(frame, u, x) ==> !Reduce.StrLess(w, x)) <==> w == g
    ensures (forall x :: Published(frame, u, x) ==> x == w) ==> w == g
  {
    hide Published, Reduce.StrLess;
    forall x | Published(frame, u, x) ensures !Reduce.StrLess(g, x) {
      Reduce.StrLessTotal(g, x);
    }
    Reduce.StrLessTotal(w, g);
  }

  lemma RowValues(rows: seq<Database.Row>, t: string, g: string, gone: bool)
    requires forall w :: HasRow(rows, t, w) <==> w == g && !gone
    ensures forall r :: r in rows && r.topic == t ==> r.value == g && !gone
    ensures !gone ==> exists r :: r in rows && r.topic == t
  {
    forall r | r in rows && r.topic == t ensures r.value == g && !gone {
      assert HasRow(rows, t, r.value);
    }
    assert !gone ==> HasRow(rows, t, g);
  }

  lemma OnlyValue(rows: seq<Database.Row>, t: string, g: string, gone: bool)
    requires S.UniqueRows(rows)
    requires forall r :: r in rows && r.topic == t ==> r.value == g && !gone
    requires !gone ==> exists r :: r in rows && r.topic == t
    ensures var rs := P.TopicRows(rows, t);
            if gone then rs == [] else |rs| == 1 && rs[0].topic == t && rs[0].value == g
  {
    var f := P.OfTopic(t);
    var rs := Filter(f, rows);
    FilterMembers(f, rows);
    S.FilterKeepsUniqueRows(f, rows);
    forall i | 0 <= i < |rs| ensures rs[i].topic == t && rs[i].value == g && !gone {
      assert rs[i] in rs;
    }
    assert |rs| > 0 ==> rs[0].topic == t && rs[0].value == g && !gone;
    FirstTwoDiffer(rs);
    if !gone {
      var r :| r in rows && r.topic == t;
      assert r in rs;
    }
  }

  lemma FirstTwoDiffer(rs: seq<Database.Row>)
    requires S.UniqueRows(rs)
    ensures |rs| > 1 ==> rs[0].topic != rs[1].topic || rs[0].value != rs[1].value
  {
  }

  function Value(v: string, mode: PublishMode): Msg { Msg(PUB, "/a", Some(v), Some(1), Some(1), Some(mode)) }

  /** A concrete loss: of "b" and then "a" for one topic, "b" is kept. */
  lemma LastListedIsLost(st: S.Store)
    requires S.Valid(st)
    ensures var frame := [Value("b", RETAIN), Value("a", RETAIN)];
            && S.AllComplete(Batch(frame, "n"))
            && var c := S.Cached(S.Save(st, Batch(frame, "n")).cache, "/a"); c.Some? && c.value.value == Some("b")
    ensures var frame := [Value("b", PERSIST), Value("a", PERSIST)];
            && S.AllComplete(Batch(frame, "n"))
            && var rs := P.TopicRows(S.Save(st, Batch(frame, "n")).rows, "/a"); |rs| == 1 && rs[0].value == "b"
  {
    hide S.Save, S.Valid, Ordered, Publications, Batch, S.Cached, P.TopicRows;
    ReplacePairNone("/a", '/', '@', "/" + "n");
    PairFrame(RETAIN);
    PairFrame(PERSIST);
    FrameRetainsGreatest(st, [Value("b", RETAIN), Value("a", RETAIN)], "n", 1);
    FramePersistsGreatest(st, [Value("b", PERSIST), Value("a", PERSIST)], "n", 1);
  }

  lemma PairFrame(mode: PublishMode)
    ensures var frame := [Value("b", mode), Value("a", mode)];
            && OnlyPublished(frame, "n", "/a", mode)
            && (forall t :: !Uncaches(frame, "n", t)) && (forall t, v :: !Deletes(frame, "n", t, v))
            && forall g :: IsGreatest(frame, "/a", g) ==> g == "b"
  {
    hide ReplacePair;
    var frame := [Value("b", mode), Value("a", mode)];
    assert frame[0] in frame && Published(frame, "/a", "b");
    assert !Reduce.StrLess("b", "a");
    forall g | IsGreatest(frame, "/a", g) ensures g == "b" {
      assert g == "b" || Reduce.StrLess("b", g);
    }
  }
}
