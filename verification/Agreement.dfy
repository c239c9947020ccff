/** The two models of the broker agree: the steps of the interleaved one are the effects of the atomic one. */
module Agreement {
  import opened Wrappers
  import opened Model
  import opened Seqs
  import I = Interleaving
  import P = StoreProperties
  import S = Store
  import Database
  import Pattern

  function ItemOf(m: Msg): I.Item
    requires Complete(m) && (m.typ.PUB? || m.typ.DEL?)
  {
    if m.typ.DEL? then I.Del(m.topic, m.value)
    else match m.mode.value
      case SEND => I.Send(m.topic, m.value.value)
      case RETAIN => I.Retain(m.topic, m.value.value)
      case PERSIST => I.Persist(m.topic, m.value.value)
      case APPEND => I.Append(m.topic, m.value.value)
  }

  /** What a batch handed to accept_pub_del consists of. */
  ghost predicate Storable(ms: seq<Msg>)
  {
    forall i :: 0 <= i < |ms| ==> Complete(ms[i]) && (ms[i].typ.PUB? || ms[i].typ.DEL?)
  }

  function ItemsOf(ms: seq<Msg>): (r: seq<I.Item>)
    requires Storable(ms)
    ensures |r| == |ms|
  {
    seq(|ms|, i requires 0 <= i < |ms| => ItemOf(ms[i]))
  }

  /** The rows without their times. */
  function RowValues(rows: seq<Database.Row>): set<(string, string)>
  {
    set r | r in rows :: (r.topic, r.value)
  }

  function Topics(cache: seq<Msg>): set<string>
  {
    set c | c in cache :: c.topic
  }

  lemma CachedMember(cache: seq<Msg>, t: string)
    ensures t in Topics(cache) <==> S.Cached(cache, t).Some?
    ensures S.Cached(cache, t).Some? ==> S.Cached(cache, t).value in cache
  {
  }

  /** The cached value of each topic. */
  function CacheValues(cache: seq<Msg>): map<string, string>
    requires S.Publications(cache)
  {
    map t | t in Topics(cache) :: ValueOf(cache, t)
  }

  function ValueOf(cache: seq<Msg>, t: string): string
    requires S.Publications(cache) && t in Topics(cache)
  {
    CachedMember(cache, t);
    S.Cached(cache, t).value.value.value
  }

  lemma RowsAgree(st: S.Store, m: Msg)
    requires S.Valid(st) && Complete(m) && (m.typ.PUB? || m.typ.DEL?)
    ensures RowValues(S.SaveOne(st, m).rows) == I.RowsAfter(RowValues(st.rows), ItemOf(m))
  {
    hide S.SaveOne, S.Selected;
    if m.typ.DEL? {
      P.DelExact(st, m);
    } else if m.mode.value.PERSIST? || m.mode.value.APPEND? {
      P.PersistentExact(st, m);
    } else {
      OtherModes(st, m);
    }
    var before, after := RowValues(st.rows), RowValues(S.SaveOne(st, m).rows);
    forall x ensures x in after <==> x in I.RowsAfter(before, ItemOf(m)) {
      if x in after {
        var r :| r in S.SaveOne(st, m).rows && (r.topic, r.value) == x;
      }
      if x in before {
        var r :| r in st.rows && (r.topic, r.value) == x;
      }
    }
  }

  lemma OtherModes(st: S.Store, m: Msg)
    requires Complete(m) && m.typ.PUB? && (m.mode.value.SEND? || m.mode.value.RETAIN?)
    ensures S.SaveOne(st, m).rows == st.rows
    ensures m.mode.value.SEND? ==> S.SaveOne(st, m) == st
  {
  }

  /** The cached value of a topic, if it has one. */
  function CachedValue(cache: seq<Msg>, t: string): Option<string>
    requires S.Publications(cache)
  {
    if t in Topics(cache) then Some(ValueOf(cache, t)) else None
  }

  lemma CachedValueIs(cache: seq<Msg>, t: string)
    requires S.Publications(cache)
    ensures CachedValue(cache, t) == if S.Cached(cache, t).Some? then S.Cached(cache, t).value.value else None
  {
    hide Topics, S.Cached;
    CachedMember(cache, t);
  }

  lemma CachedValueAgrees(st: S.Store, m: Msg, t: string)
    requires S.Valid(st) && Complete(m) && (m.typ.PUB? || m.typ.DEL?) && S.Valid(S.SaveOne(st, m))
    ensures CachedValue(S.SaveOne(st, m).cache, t)
            == match ItemOf(m)
               case Send(_, _) => CachedValue(st.cache, t)
               case Retain(u, v) => if t == u then Some(v) else CachedValue(st.cache, t)
               case Persist(u, _) => if t == u then None else CachedValue(st.cache, t)
               case Append(u, _) => if t == u then None else CachedValue(st.cache, t)
               case Del(p, _) => if Pattern.Matches(p, t) then None else CachedValue(st.cache, t)
  {
    hide Filter, S.Cached, CachedValue, Pattern.Matches, S.Upsert, S.LikeRows, S.DropOthers, S.DelRows;
    CachedValueIs(st.cache, t);
    CachedValueIs(S.SaveOne(st, m).cache, t);
    CachedMember(st.cache, t);
    CachedTopic(st.cache, t);
    if m.typ.DEL? {
      P.CachedAfterFilter(S.UnmatchedBy(m.topic), st.cache, t);
    } else if m.mode.value.RETAIN? {
      P.RetainExact(st, m, t);
    } else if !m.mode.value.SEND? {
      P.CachedAfterFilter(S.OtherTopic(m.topic), st.cache, t);
    }
  }

  lemma CachedTopic(cache: seq<Msg>, t: string)
    ensures S.Cached(cache, t).Some? ==> S.Cached(cache, t).value.topic == t
  {
  }

  function Lookup(cache: map<string, string>, t: string): Option<string>
  {
    if t in cache then Some(cache[t]) else None
  }

  lemma SameMaps(a: map<string, string>, b: map<string, string>)
    requires forall t :: Lookup(a, t) == Lookup(b, t)
    ensures a == b
  {
    forall t ensures t in a <==> t in b ensures t in a && t in b ==> a[t] == b[t] {
      assert Lookup(a, t) == Lookup(b, t);
    }
  }

  lemma LookupIs(cache: seq<Msg>, t: string)
    requires S.Publications(cache)
    ensures Lookup(CacheValues(cache), t) == CachedValue(cache, t)
  {
    hide ValueOf, Topics;
  }

  lemma LookupAfter(cache: map<string, string>, i: I.Item, t: string)
    ensures Lookup(I.CacheAfter(cache, i), t)
            == match i
               case Send(_, _) => Lookup(cache, t)
               case Retain(u, v) => if t == u then Some(v) else Lookup(cache, t)
               case Persist(u, _) => if t == u then None else Lookup(cache, t)
               case Append(u, _) => if t == u then None else Lookup(cache, t)
               case Del(p, _) => if Pattern.Matches(p, t) then None else Lookup(cache, t)
  {
    hide Pattern.Matches;
  }

  lemma CacheAgrees(st: S.Store, m: Msg)
    requires S.Valid(st) && Complete(m) && (m.typ.PUB? || m.typ.DEL?)
    ensures S.Valid(S.SaveOne(st, m))
    ensures CacheValues(S.SaveOne(st, m).cache) == I.CacheAfter(CacheValues(st.cache), ItemOf(m))
  {
    S.SaveOneKeepsValid(st, m);
    hide S.SaveOne, S.Valid, ValueOf, Pattern.Matches, ItemOf;
    hide CacheValues, I.CacheAfter, CachedValue;
    var before, after := CacheValues(st.cache), CacheValues(S.SaveOne(st, m).cache);
    var expected := I.CacheAfter(before, ItemOf(m));
    hide Lookup;
    forall t ensures Lookup(after, t) == Lookup(expected, t) {
      CachedValueAgrees(st, m, t);
      LookupIs(st.cache, t);
      LookupIs(S.SaveOne(st, m).cache, t);
      LookupAfter(before, ItemOf(m), t);
    }
    SameMaps(after, expected);
  }

  /** One message: the cache step and the row effect of the interleaved broker are those of the store. */
  lemma MessageAgrees(st: S.Store, m: Msg)
    requires S.Valid(st) && Complete(m) && (m.typ.PUB? || m.typ.DEL?)
    ensures S.Valid(S.SaveOne(st, m))
    ensures CacheValues(S.SaveOne(st, m).cache) == I.CacheAfter(CacheValues(st.cache), ItemOf(m))
    ensures RowValues(S.SaveOne(st, m).rows) == I.RowsAfter(RowValues(st.rows), ItemOf(m))
  {
    hide S.SaveOne;
    CacheAgrees(st, m);
    RowsAgree(st, m);
  }

  /** A whole batch: the rows that the commit makes visible are those of the atomic broker. */
  lemma {:induction false} BatchAgrees(st: S.Store, ms: seq<Msg>)
    requires S.Valid(st) && Storable(ms)
    ensures RowValues(S.Save(st, ms).rows) == I.RowsAfterAll(RowValues(st.rows), ItemsOf(ms))
  {
    hide S.SaveOne, RowValues, I.RowsAfter;
    if ms != [] {
      var n := |ms| - 1;
      BatchAgrees(st, ms[..n]);
      S.SaveKeepsValid(st, ms[..n]);
      RowsAgree(S.Save(st, ms[..n]), ms[n]);
      assert ItemsOf(ms)[..n] == ItemsOf(ms[..n]);
    }
  }

  /** A query: what the two reads of the interleaved broker find is what load_msgs returns. */
  lemma LoadAgrees(st: S.Store, p: string)
    requires S.Valid(st)
    ensures (set m | m in S.Load(st, p) && m.value.Some? :: (m.topic, m.value.value))
            == I.FoundCached(CacheValues(st.cache), p) + I.FoundRows(RowValues(st.rows), p)
  {
    hide S.Load, S.Selected, Pattern.Matches;
    var loaded := set m | m in S.Load(st, p) && m.value.Some? :: (m.topic, m.value.value);
    var found := I.FoundCached(CacheValues(st.cache), p) + I.FoundRows(RowValues(st.rows), p);
    forall x | x in loaded ensures x in found {
      var m :| m in S.Load(st, p) && m.value.Some? && (m.topic, m.value.value) == x;
      P.LoadMembers(st, p, m);
      if m in st.cache {
        P.CachedUnique(st.cache, m);
        CachedMember(st.cache, m.topic);
      }
    }
    forall x | x in found ensures x in loaded {
      if x in I.FoundRows(RowValues(st.rows), p) {
        var r :| r in st.rows && (r.topic, r.value) == x;
        P.LoadMembers(st, p, S.MsgOf(r));
      } else {
        CachedMember(st.cache, x.0);
        P.LoadMembers(st, p, S.Cached(st.cache, x.0).value);
      }
    }
  }
}
