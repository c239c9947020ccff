/** What the broker stores (broker.py save_msgs and load_msgs), as a function of each message. */
module Store {
  import opened Wrappers
  import opened Model
  import opened Seqs
  import opened Database
  import Pattern
  import Reduce

  /** The retain cache in dictionary order, and the table in row order. */
  datatype Store = Store(cache: seq<Msg>, rows: seq<Row>)

  // ---------- Conditions on cached messages and rows ----------

  function OtherTopic(topic: string): Msg -> bool { (m: Msg) => m.topic != topic }

  function MatchedBy(p: string): Msg -> bool { (m: Msg) => Pattern.Matches(p, m.topic) }

  function UnmatchedBy(p: string): Msg -> bool { (m: Msg) => !Pattern.Matches(p, m.topic) }

  function LikeQueried(query: string): Row -> bool { (r: Row) => Like(query, r.topic) }

  function RowMatchedBy(p: string): Row -> bool { (r: Row) => Pattern.Matches(p, r.topic) }

  function RowSelectedBy(p: string): Row -> bool { (r: Row) => Selected(p, r.topic) }

  function NotOtherValue(topic: string, value: string): Row -> bool
  {
    (r: Row) => !(r.topic == topic && r.value != value)
  }

  /** What a DEL leaves. */
  function Spared(p: string, value: Option<string>): Row -> bool
  {
    (r: Row) => !(Selected(p, r.topic) && (value.None? || r.value == value.value))
  }

  // ---------- The retain cache: one message a topic ----------

  ghost predicate OnePerTopic(cache: seq<Msg>)
  {
    forall i, j :: 0 <= i < j < |cache| ==> cache[i].topic != cache[j].topic
  }

  function Position(cache: seq<Msg>, topic: string): (i: nat)
    ensures i <= |cache|
    ensures i < |cache| ==> cache[i].topic == topic
    ensures forall k :: 0 <= k < i ==> cache[k].topic != topic
  {
    if cache == [] || cache[0].topic == topic then 0 else 1 + Position(cache[1..], topic)
  }

  function Cached(cache: seq<Msg>, topic: string): Option<Msg>
  {
    var i := Position(cache, topic);
    if i < |cache| then Some(cache[i]) else None
  }

  /** Assignment to a dictionary entry keeps its place, or adds it last. */
  function CachePut(cache: seq<Msg>, m: Msg): seq<Msg>
  {
    var i := Position(cache, m.topic);
    if i < |cache| then cache[i := m] else cache + [m]
  }

  function CacheDrop(cache: seq<Msg>, topic: string): seq<Msg>
  {
    Filter(OtherTopic(topic), cache)
  }

  // ---------- The table: one row a (topic, value) ----------

  ghost predicate UniqueRows(rows: seq<Row>)
  {
    forall i, j :: 0 <= i < j < |rows| ==> rows[i].topic != rows[j].topic || rows[i].value != rows[j].value
  }

  function RowAt(rows: seq<Row>, topic: string, value: string): (i: nat)
    ensures i <= |rows|
    ensures i < |rows| ==> rows[i].topic == topic && rows[i].value == value
    ensures forall k :: 0 <= k < i ==> !(rows[k].topic == topic && rows[k].value == value)
  {
    if rows == [] || (rows[0].topic == topic && rows[0].value == value) then 0
    else 1 + RowAt(rows[1..], topic, value)
  }

  /** INSERT ... ON CONFLICT DO UPDATE: an existing row keeps its creation time. */
  function Upsert(rows: seq<Row>, r: Row): seq<Row>
  {
    var i := RowAt(rows, r.topic, r.value);
    if i < |rows| then rows[i := rows[i].(updatedAt := r.updatedAt, mode := r.mode)] else rows + [r]
  }

  function DropOthers(rows: seq<Row>, topic: string, value: string): seq<Row>
  {
    Filter(NotOtherValue(topic, value), rows)
  }

  /** db.get with a plain topic: every row whose topic is LIKE it. */
  function LikeRows(rows: seq<Row>, query: string): seq<Row>
  {
    Filter(LikeQueried(query), rows)
  }

  /** The topics that both the query and the regular expression of a pattern accept. */
  predicate Selected(p: string, topic: string)
  {
    Like(LikeQuery(p), topic) && Pattern.Matches(p, topic)
  }

  /** db.get with a pattern, and the check that follows it. */
  function PatternRows(rows: seq<Row>, p: string): seq<Row>
  {
    Filter(RowMatchedBy(p), LikeRows(rows, LikeQuery(p)))
  }

  function MinCreated(rows: seq<Row>): int
    requires rows != []
  {
    if |rows| == 1 then rows[0].createdAt else Reduce.Min(rows[0].createdAt, MinCreated(rows[1..]))
  }

  /** The first row that carries this value. */
  function FirstWithValue(rows: seq<Row>, value: string): Option<Row>
  {
    if rows == [] then None else if rows[0].value == value then Some(rows[0]) else FirstWithValue(rows[1..], value)
  }

  // ---------- save_msgs ----------

  function RowOf(m: Msg): Row
    requires m.typ.PUB? && Complete(m)
  {
    Row(m.topic, m.value.value, m.createdAt.value, m.updatedAt.value, m.mode.value)
  }

  function MsgOf(r: Row): Msg
  {
    Msg(PUB, r.topic, Some(r.value), Some(r.createdAt), Some(r.updatedAt), Some(r.mode))
  }

  /** The message as it will be sent on: with the creation time found in the store. */
  function Stamp(st: Store, m: Msg): Msg
    requires Complete(m)
  {
    if !m.typ.PUB? then m
    else match m.mode.value
      case SEND => m
      case RETAIN =>
        var prev := Cached(st.cache, m.topic);
        if prev.Some? then m.(createdAt := prev.value.createdAt) else m
      case PERSIST =>
        var prev := LikeRows(st.rows, m.topic);
        if prev != [] then m.(createdAt := Some(MinCreated(prev))) else m
      case APPEND =>
        var prev := FirstWithValue(LikeRows(st.rows, m.topic), m.value.value);
        if prev.Some? then m.(createdAt := Some(prev.value.createdAt)) else m
  }

  function SaveOne(st: Store, m: Msg): Store
    requires Complete(m)
  {
    match m.typ
    case PUB =>
      (match m.mode.value
       case SEND => st
       case RETAIN => st.(cache := CachePut(st.cache, Stamp(st, m)))
       case PERSIST =>
         Store(CacheDrop(st.cache, m.topic),
               UpsertMsg(DropOthers(st.rows, m.topic, m.value.value), Stamp(st, m)))
       case APPEND =>
         Store(CacheDrop(st.cache, m.topic), UpsertMsg(st.rows, Stamp(st, m))))
    case DEL =>
      Store(Filter(UnmatchedBy(m.topic), st.cache), DelRows(st.rows, m.topic, m.value))
    case _ => st
  }

  function UpsertMsg(rows: seq<Row>, m: Msg): seq<Row>
  {
    if m.typ.PUB? && Complete(m) then Upsert(rows, RowOf(m)) else rows
  }

  /** Rows of the selected topics go; with a value given, only those that carry it. */
  function DelRows(rows: seq<Row>, p: string, value: Option<string>): seq<Row>
  {
    Filter(Spared(p, value), rows)
  }

  ghost predicate AllComplete(ms: seq<Msg>)
  {
    forall i :: 0 <= i < |ms| ==> Complete(ms[i])
  }

  /** The store after a batch. */
  function Save(st: Store, ms: seq<Msg>): Store
    requires AllComplete(ms)
  {
    if ms == [] then st else SaveOne(Save(st, ms[..|ms| - 1]), ms[|ms| - 1])
  }

  /** The batch as it is sent on. */
  function Stamped(st: Store, ms: seq<Msg>): seq<Msg>
    requires AllComplete(ms)
  {
    if ms == [] then []
    else Stamped(st, ms[..|ms| - 1]) + [Stamp(Save(st, ms[..|ms| - 1]), ms[|ms| - 1])]
  }

  // ---------- load_msgs ----------

  function MsgsOf(rows: seq<Row>): (r: seq<Msg>)
    ensures |r| == |rows|
    ensures forall i :: 0 <= i < |rows| ==> r[i] == MsgOf(rows[i])
  {
    seq(|rows|, i requires 0 <= i < |rows| => MsgOf(rows[i]))
  }

  function Load(st: Store, p: string): seq<Msg>
  {
    Filter(MatchedBy(p), st.cache) + MsgsOf(PatternRows(st.rows, p))
  }

  // ---------- What every step keeps ----------

  ghost predicate Valid(st: Store)
  {
    && OnePerTopic(st.cache)
    && UniqueRows(st.rows)
    && Publications(st.cache)
  }

  ghost predicate Publications(ms: seq<Msg>)
  {
    forall m :: m in ms ==> m.typ.PUB? && Complete(m)
  }

  lemma {:induction false} FilterKeepsOnePerTopic(f: Msg -> bool, cache: seq<Msg>)
    requires OnePerTopic(cache)
    ensures OnePerTopic(Filter(f, cache))
  {
    if cache != [] {
      FilterKeepsOnePerTopic(f, cache[1..]);
      FilterMembers(f, cache[1..]);
      var rest := Filter(f, cache[1..]);
      forall i | 0 <= i < |rest| ensures rest[i].topic != cache[0].topic {
        assert rest[i] in cache[1..];
      }
    }
  }

  lemma {:induction false} FilterKeepsUniqueRows(f: Row -> bool, rows: seq<Row>)
    requires UniqueRows(rows)
    ensures UniqueRows(Filter(f, rows))
  {
    if rows != [] {
      FilterKeepsUniqueRows(f, rows[1..]);
      FilterMembers(f, rows[1..]);
      var rest := Filter(f, rows[1..]);
      forall i | 0 <= i < |rest| ensures rest[i].topic != rows[0].topic || rest[i].value != rows[0].value {
        assert rest[i] in rows[1..];
      }
    }
  }

  lemma FilterKeepsPublications(f: Msg -> bool, ms: seq<Msg>)
    requires Publications(ms)
    ensures Publications(Filter(f, ms))
  {
    FilterMembers(f, ms);
  }

  lemma PutKeepsCache(cache: seq<Msg>, m: Msg)
    requires OnePerTopic(cache) && Publications(cache) && m.typ.PUB? && Complete(m)
    ensures OnePerTopic(CachePut(cache, m)) && Publications(CachePut(cache, m))
  {
  }

  lemma StampIsPublication(st: Store, m: Msg)
    requires Publications(st.cache) && m.typ.PUB? && Complete(m)
    ensures var s := Stamp(st, m); Complete(s) && s == m.(createdAt := s.createdAt)
  {
  }

  lemma UpsertKeepsUnique(rows: seq<Row>, r: Row)
    requires UniqueRows(rows)
    ensures UniqueRows(Upsert(rows, r))
  {
  }

  /** Every message keeps one cached message a topic and one row a (topic, value). */
  lemma SaveOneKeepsValid(st: Store, m: Msg)
    requires Valid(st) && Complete(m)
    ensures Valid(SaveOne(st, m))
  {
    hide Filter, Stamp, CachePut, Upsert, Selected, Pattern.Matches;
    if m.typ.DEL? {
      FilterKeepsOnePerTopic(UnmatchedBy(m.topic), st.cache);
      FilterKeepsPublications(UnmatchedBy(m.topic), st.cache);
      FilterKeepsUniqueRows(Spared(m.topic, m.value), st.rows);
    } else if m.typ.PUB? && (m.mode.value.PERSIST? || m.mode.value.APPEND?) {
      FilterKeepsOnePerTopic(OtherTopic(m.topic), st.cache);
      FilterKeepsPublications(OtherTopic(m.topic), st.cache);
      FilterKeepsUniqueRows(NotOtherValue(m.topic, m.value.value), st.rows);
      StampIsPublication(st, m);
      UpsertKeepsUnique(st.rows, RowOf(Stamp(st, m)));
      UpsertKeepsUnique(DropOthers(st.rows, m.topic, m.value.value), RowOf(Stamp(st, m)));
    } else if m.typ.PUB? && m.mode.value.RETAIN? {
      StampIsPublication(st, m);
      PutKeepsCache(st.cache, Stamp(st, m));
    }
  }

  lemma {:induction false} SaveKeepsValid(st: Store, ms: seq<Msg>)
    requires Valid(st) && AllComplete(ms)
    ensures Valid(Save(st, ms))
  {
    if ms != [] {
      SaveKeepsValid(st, ms[..|ms| - 1]);
      SaveOneKeepsValid(Save(st, ms[..|ms| - 1]), ms[|ms| - 1]);
    }
  }
}
