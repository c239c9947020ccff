/** Deletion is exact, and creation times survive updates. */
module StoreProperties {
  import opened Wrappers
  import opened Model
  import opened Seqs
  import opened Database
  import opened Store
  import Pattern

  // ---------- DEL ----------

  /** Nothing stored matches the pattern. */
  ghost predicate Clear(st: Store, p: string)
  {
    && (forall c :: c in st.cache ==> !Pattern.Matches(p, c.topic))
    && (forall r :: r in st.rows ==> !Selected(p, r.topic))
  }

  lemma PatternRowsSelected(rows: seq<Row>, p: string)
    ensures PatternRows(rows, p) == Filter(RowSelectedBy(p), rows)
  {
    FilterTwice(RowMatchedBy(p), LikeQueried(LikeQuery(p)), RowSelectedBy(p), rows);
  }

  /** Loading a pattern finds nothing exactly when nothing stored matches it. */
  lemma LoadEmpty(st: Store, p: string)
    ensures Load(st, p) == [] <==> Clear(st, p)
  {
    var cached, rows := Filter(MatchedBy(p), st.cache), Filter(RowSelectedBy(p), st.rows);
    PatternRowsSelected(st.rows, p);
    FilterMembers(MatchedBy(p), st.cache);
    FilterMembers(RowSelectedBy(p), st.rows);
    assert Load(st, p) == cached + MsgsOf(rows);
    if Load(st, p) == [] {
      assert |cached| + |MsgsOf(rows)| == 0;
    }
    if Clear(st, p) {
      FilterNone(MatchedBy(p), st.cache);
      FilterNone(RowSelectedBy(p), st.rows);
    }
  }

  /** What loading a pattern returns. */
  lemma LoadMembers(st: Store, p: string, x: Msg)
    ensures x in Load(st, p) <==>
            (x in st.cache && Pattern.Matches(p, x.topic))
            || exists r :: r in st.rows && Selected(p, r.topic) && x == MsgOf(r)
  {
    var rows := PatternRows(st.rows, p);
    PatternRowsSelected(st.rows, p);
    FilterMembers(MatchedBy(p), st.cache);
    FilterMembers(RowSelectedBy(p), st.rows);
    if r :| r in st.rows && Selected(p, r.topic) && x == MsgOf(r) {
      assert r in rows;
      var i :| 0 <= i < |rows| && rows[i] == r;
      assert MsgsOf(rows)[i] == x;
    }
    if x in MsgsOf(rows) {
      var i :| 0 <= i < |rows| && MsgsOf(rows)[i] == x;
      assert rows[i] in rows;
    }
  }

  lemma {:induction false} CachedUnique(cache: seq<Msg>, c: Msg)
    requires OnePerTopic(cache) && c in cache
    ensures forall x :: x in cache && x.topic == c.topic ==> x == c
  {
    var b :| 0 <= b < |cache| && cache[b] == c;
    forall x | x in cache && x.topic == c.topic ensures x == c {
      var a :| 0 <= a < |cache| && cache[a] == x;
    }
  }

  /** DEL: with no value, the pattern then loads nothing; with a value, only rows that carry it go, but
      every matching cached message goes. What the pattern does not match keeps its place. */
  lemma DelExact(st: Store, m: Msg)
    requires m.typ.DEL?
    ensures var st' := SaveOne(st, m);
            && (m.value.None? ==> Load(st', m.topic) == [])
            && (forall c :: c in st'.cache <==> c in st.cache && !Pattern.Matches(m.topic, c.topic))
            && (forall r :: r in st'.rows <==>
                  r in st.rows && !(Selected(m.topic, r.topic) && (m.value.None? || r.value == m.value.value)))
            && Filter(UnmatchedBy(m.topic), st'.cache) == Filter(UnmatchedBy(m.topic), st.cache)
            && Filter(RowUnselectedBy(m.topic), st'.rows) == Filter(RowUnselectedBy(m.topic), st.rows)
  {
    var st' := SaveOne(st, m);
    FilterMembers(UnmatchedBy(m.topic), st.cache);
    FilterMembers(Spared(m.topic, m.value), st.rows);
    FilterIgnores(UnmatchedBy(m.topic), UnmatchedBy(m.topic), st.cache);
    FilterIgnores(RowUnselectedBy(m.topic), Spared(m.topic, m.value), st.rows);
    LoadEmpty(st', m.topic);
  }

  function RowUnselectedBy(p: string): Row -> bool { (r: Row) => !Selected(p, r.topic) }

  /** Over the plain alphabet, and with no topic that ends in a newline, the rows that go are exactly
      those the regular expression matches: the LIKE query hides none from the deletion. */
  lemma DelMatchesRegex(st: Store, m: Msg)
    requires m.typ.DEL? && m.value.None? && Pattern.Plain(m.topic)
    requires forall r :: r in st.rows ==> !EndsWith(r.topic, "\n")
    ensures forall r :: r in SaveOne(st, m).rows <==> r in st.rows && !Pattern.Matches(m.topic, r.topic)
  {
    DelExact(st, m);
    forall r | r in st.rows ensures Selected(m.topic, r.topic) <==> Pattern.Matches(m.topic, r.topic) {
      PrefilterLosesNothing(m.topic, r.topic);
    }
  }

  lemma DelKeepsClear(st: Store, m: Msg, p: string)
    requires Complete(m) && !m.typ.PUB? && Clear(st, p)
    ensures Clear(SaveOne(st, m), p)
  {
    if m.typ.DEL? {
      DelExact(st, m);
    }
  }

  /** In a batch ordered by message type, a DEL without a value has the last word: whatever the batch
      also publishes, nothing that matches the pattern remains. */
  lemma {:induction false} DelWinsInBatch(st: Store, ms: seq<Msg>, i: nat)
    requires AllComplete(ms) && i < |ms| && ms[i].typ.DEL? && ms[i].value.None?
    requires forall j, k :: 0 <= j < k < |ms| ==> ms[j].typ.Rank() <= ms[k].typ.Rank()
    ensures Load(Save(st, ms), ms[i].topic) == []
  {
    hide SaveOne, Load, Pattern.Matches;
    var n := |ms| - 1;
    var before := Save(st, ms[..n]);
    var p := ms[i].topic;
    if i == n {
      DelExact(before, ms[n]);
    } else {
      DelWinsInBatch(st, ms[..n], i);
      LoadEmpty(before, p);
      assert ms[i].typ.Rank() <= ms[n].typ.Rank();
      DelKeepsClear(before, ms[n], p);
      LoadEmpty(Save(st, ms), p);
    }
  }

  // ---------- Creation times of persisted topics ----------

  function OfTopic(t: string): Row -> bool { (r: Row) => r.topic == t }

  function TopicRows(rows: seq<Row>, t: string): seq<Row> { Filter(OfTopic(t), rows) }

  /** What a topic that is only ever published PERSIST should hold. */
  datatype Held = Nothing | Held(value: string, createdAt: int)

  /** The first PERSIST since the topic was last deleted sets the creation time. */
  function HeldAfter(h: Held, t: string, m: Msg): Held
    requires Complete(m)
  {
    if m.typ.PUB? && m.mode.value.PERSIST? && m.topic == t then
      Held(m.value.value, if h.Held? then h.createdAt else m.createdAt.value)
    else if m.typ.DEL? && h.Held? && Selected(m.topic, t) && (m.value.None? || m.value.value == h.value) then
      Nothing
    else h
  }

  function HeldAfterAll(h: Held, t: string, ms: seq<Msg>): Held
    requires AllComplete(ms)
  {
    if ms == [] then h else HeldAfter(HeldAfterAll(h, t, ms[..|ms| - 1]), t, ms[|ms| - 1])
  }

  ghost predicate Holds(rows: seq<Row>, t: string, h: Held)
  {
    var rs := TopicRows(rows, t);
    if h.Nothing? then rs == []
    else |rs| == 1 && rs[0].topic == t && rs[0].value == h.value && rs[0].createdAt == h.createdAt
  }

  /** No other topic in the table is LIKE this one. */
  ghost predicate Isolated(rows: seq<Row>, t: string)
  {
    forall r :: r in rows && Like(t, r.topic) ==> r.topic == t
  }

  /** A plain topic selects itself. */
  lemma SelectedItself(t: string)
    requires Pattern.PlainTopic(t)
    ensures Selected(t, t)
  {
    hide Pattern.Matches, Like;
    Pattern.MatchesItself(t);
    LikeSelf(t);
    LikeQueryPlain(t);
  }

  /** Updating or adding a row of another topic leaves this topic's rows alone. */
  lemma UpsertOtherTopic(rows: seq<Row>, r: Row, t: string)
    requires r.topic != t
    ensures TopicRows(Upsert(rows, r), t) == TopicRows(rows, t)
  {
    var i := RowAt(rows, r.topic, r.value);
    if i < |rows| {
      var r' := rows[i].(updatedAt := r.updatedAt, mode := r.mode);
      assert rows == rows[..i] + [rows[i]] + rows[i + 1..];
      assert rows[i := r'] == rows[..i] + [r'] + rows[i + 1..];
      FilterAround(OfTopic(t), rows[..i], rows[i], rows[i + 1..]);
      FilterAround(OfTopic(t), rows[..i], r', rows[i + 1..]);
    } else {
      FilterConcat(OfTopic(t), rows, [r]);
      FilterOne(OfTopic(t), r);
    }
  }

  lemma FilterAround(f: Row -> bool, a: seq<Row>, x: Row, b: seq<Row>)
    ensures Filter(f, a + [x] + b) == Filter(f, a) + (if f(x) then [x] else []) + Filter(f, b)
  {
    FilterConcat(f, a + [x], b);
    FilterConcat(f, a, [x]);
    FilterOne(f, x);
  }

  /** Updating or adding the topic's only row. */
  lemma UpsertOnlyRow(rows: seq<Row>, r: Row)
    requires var rs := TopicRows(rows, r.topic);
             rs == [] || (|rs| == 1 && rs[0].topic == r.topic && rs[0].value == r.value)
    ensures var rs := TopicRows(rows, r.topic);
            TopicRows(Upsert(rows, r), r.topic)
            == if rs == [] then [r] else [rs[0].(updatedAt := r.updatedAt, mode := r.mode)]
  {
    hide Filter, RowAt;
    var t := r.topic;
    var rs := TopicRows(rows, t);
    var i := RowAt(rows, t, r.value);
    FilterMembers(OfTopic(t), rows);
    if rs != [] {
      assert rs[0] in rs && rs[0] in rows;
    }
    if i < |rows| {
      var r' := rows[i].(updatedAt := r.updatedAt, mode := r.mode);
      assert rows[i] in rs;
      assert rs == [rows[i]];
      assert rows == rows[..i] + [rows[i]] + rows[i + 1..];
      assert rows[i := r'] == rows[..i] + [r'] + rows[i + 1..];
      FilterAround(OfTopic(t), rows[..i], rows[i], rows[i + 1..]);
      FilterAround(OfTopic(t), rows[..i], r', rows[i + 1..]);
      assert Filter(OfTopic(t), rows[..i]) == [] && Filter(OfTopic(t), rows[i + 1..]) == [];
    } else {
      FilterConcat(OfTopic(t), rows, [r]);
      FilterOne(OfTopic(t), r);
    }
  }

  function OfTopicAndValue(t: string, v: string): Row -> bool { (r: Row) => r.topic == t && r.value == v }

  /** Over the rows: nothing stored under a topic that is LIKE the message's own is older than the topic's
      row; and when the topic has no row, the oldest of them, if there are any, is as old as the message. */
  ghost predicate NoOlderNeighbour(rows: seq<Row>, m: Msg, h: Held)
    requires Complete(m) && m.typ.PUB?
  {
    var kept := if h.Held? then h.createdAt else m.createdAt.value;
    && (forall r :: r in rows && Like(m.topic, r.topic) ==> kept <= r.createdAt)
    && (h.Nothing? ==>
          || (forall r :: r in rows ==> !Like(m.topic, r.topic))
          || (exists r :: r in rows && Like(m.topic, r.topic) && r.createdAt == kept))
  }

  lemma {:induction false} MinCreatedIsLeast(rows: seq<Row>)
    requires rows != []
    ensures forall r :: r in rows ==> MinCreated(rows) <= r.createdAt
    ensures exists r :: r in rows && r.createdAt == MinCreated(rows)
  {
    if |rows| > 1 {
      MinCreatedIsLeast(rows[1..]);
      assert rows == [rows[0]] + rows[1..];
    } else {
      assert rows[0] in rows;
    }
  }

  /** The creation time that the lookup for a PERSIST finds, in terms of the rows. */
  lemma LookupAgrees(rows: seq<Row>, m: Msg, h: Held)
    requires Complete(m) && m.typ.PUB? && Holds(rows, m.topic, h)
    ensures NoOlderNeighbour(rows, m, h) <==>
            var prev := LikeRows(rows, m.topic);
            prev == [] || MinCreated(prev) == (if h.Held? then h.createdAt else m.createdAt.value)
  {
    hide Filter, Like, MinCreated;
    var prev := LikeRows(rows, m.topic);
    FilterMembers(LikeQueried(m.topic), rows);
    if h.Held? {
      LookupFinds(rows, m.topic, h);
    }
    if prev != [] {
      assert prev[0] in prev;
      MinCreatedIsLeast(prev);
    }
  }

  /** Dropping the other values leaves the topic's row only if it carries the value. */
  lemma KeptTopicRows(rows: seq<Row>, t: string, v: string, h: Held)
    requires Holds(rows, t, h)
    ensures TopicRows(DropOthers(rows, t, v), t) == if h.Held? && h.value == v then TopicRows(rows, t) else []
  {
    hide Filter;
    var rs := TopicRows(rows, t);
    FilterTwice(OfTopic(t), NotOtherValue(t, v), OfTopicAndValue(t, v), rows);
    FilterTwice(OfTopicAndValue(t, v), OfTopic(t), OfTopicAndValue(t, v), rows);
    assert TopicRows(DropOthers(rows, t, v), t) == Filter(OfTopicAndValue(t, v), rs);
    if h.Held? {
      assert rs == [rs[0]];
      FilterOne(OfTopicAndValue(t, v), rs[0]);
    } else {
      FilterNothing(OfTopicAndValue(t, v));
    }
  }

  lemma FilterNothing(f: Row -> bool)
    ensures Filter(f, []) == []
  {
  }

  /** The lookup finds at least the topic's own row. */
  lemma LookupFinds(rows: seq<Row>, t: string, h: Held)
    requires Holds(rows, t, h) && h.Held?
    ensures exists r :: r in LikeRows(rows, t) && r.createdAt == h.createdAt
  {
    hide Filter, Like;
    LikeSelf(t);
    FilterMembers(OfTopic(t), rows);
    FilterMembers(LikeQueried(t), rows);
    assert TopicRows(rows, t)[0] in TopicRows(rows, t);
    assert TopicRows(rows, t)[0] in LikeRows(rows, t);
  }

  /** A PERSIST updates the topic's row or replaces it by the stamped message. */
  lemma PersistTopicRows(st: Store, m: Msg, h: Held)
    requires m.typ.PUB? && Complete(m) && m.mode.value.PERSIST? && Holds(st.rows, m.topic, h)
    ensures Complete(Stamp(st, m)) && Stamp(st, m).typ.PUB?
    ensures TopicRows(SaveOne(st, m).rows, m.topic)
            == if h.Held? && h.value == m.value.value
               then [TopicRows(st.rows, m.topic)[0].(updatedAt := m.updatedAt.value, mode := PERSIST)]
               else [RowOf(Stamp(st, m))]
  {
    hide Filter, Like, Upsert, MinCreated;
    KeptTopicRows(st.rows, m.topic, m.value.value, h);
    UpsertOnlyRow(DropOthers(st.rows, m.topic, m.value.value), RowOf(Stamp(st, m)));
  }

  /** Exactly when a PERSIST keeps the creation time: the value is stored already, or no row whose topic is
      LIKE this one is older. */
  lemma PersistCreationExact(st: Store, m: Msg, h: Held)
    requires m.typ.PUB? && Complete(m) && m.mode.value.PERSIST? && Holds(st.rows, m.topic, h)
    ensures Holds(SaveOne(st, m).rows, m.topic, HeldAfter(h, m.topic, m))
            <==> (h.Held? && h.value == m.value.value) || NoOlderNeighbour(st.rows, m, h)
  {
    hide TopicRows, LikeRows, SaveOne, NoOlderNeighbour;
    LookupAgrees(st.rows, m, h);
    if h.Held? {
      LookupFinds(st.rows, m.topic, h);
    }
    PersistTopicRows(st, m, h);
  }

  /** A row whose topic only looks alike to LIKE gives its creation time away. */
  lemma {:induction false} NeighbourGivesCreation()
    ensures var st := Store([], [Row("/axb", "v", 5, 5, PERSIST)]);
            var m := Msg(PUB, "/a_b", Some("w"), Some(9), Some(9), Some(PERSIST));
            Holds(st.rows, "/a_b", Nothing) && !Holds(SaveOne(st, m).rows, "/a_b", Held("w", 9))
  {
    var st := Store([], [Row("/axb", "v", 5, 5, PERSIST)]);
    var m := Msg(PUB, "/a_b", Some("w"), Some(9), Some(9), Some(PERSIST));
    var r := st.rows[0];
    FilterOne(OfTopic("/a_b"), r);
    assert st.rows == [r];
    NeighbourIsLike();
    assert r in st.rows;
    PersistCreationExact(st, m, Nothing);
  }

  lemma NeighbourIsLike()
    ensures Like("/a_b", "/axb")
  {
    assert "/a_b"[1..] == "a_b" && "/axb"[1..] == "axb";
    assert "a_b"[1..] == "_b" && "axb"[1..] == "xb";
    assert "_b"[1..] == "b" && "xb"[1..] == "b";
    LikeSelf("b");
  }

  /** The creation time stored for a topic and value. */
  function CreatedAt(rows: seq<Row>, t: string, v: string): Option<int>
  {
    var i := RowAt(rows, t, v);
    if i < |rows| then Some(rows[i].createdAt) else None
  }

  lemma CreatedAfterUpsert(rows: seq<Row>, r: Row)
    ensures var was := CreatedAt(rows, r.topic, r.value);
            CreatedAt(Upsert(rows, r), r.topic, r.value) == if was.Some? then was else Some(r.createdAt)
  {
    var j, up := RowAt(rows, r.topic, r.value), Upsert(rows, r);
    assert up[j].topic == r.topic && up[j].value == r.value;
    assert forall x :: 0 <= x < j ==> up[x] == rows[x];
    hide RowAt;
    assert RowAt(up, r.topic, r.value) == j;
  }

  lemma CreatedAfterDrop(rows: seq<Row>, t: string, v: string)
    requires UniqueRows(rows)
    ensures CreatedAt(DropOthers(rows, t, v), t, v) == CreatedAt(rows, t, v)
  {
    hide Filter, RowAt;
    var kept := DropOthers(rows, t, v);
    var i, j := RowAt(rows, t, v), RowAt(kept, t, v);
    FilterMembers(NotOtherValue(t, v), rows);
    if i < |rows| {
      assert rows[i] in rows && rows[i] in kept;
    }
    if j < |kept| {
      assert kept[j] in kept && kept[j] in rows;
    }
  }

  lemma StoredIsLike(rows: seq<Row>, t: string, v: string)
    requires CreatedAt(rows, t, v).Some?
    ensures exists r :: r in LikeRows(rows, t) && CreatedAt(rows, t, v) == Some(r.createdAt)
  {
    hide Filter, Like;
    LikeSelf(t);
    FilterMembers(LikeQueried(t), rows);
    assert rows[RowAt(rows, t, v)] in LikeRows(rows, t);
  }

  /** What a PERSIST sends on is what it stores exactly when its value is new, or no row whose topic is LIKE
      its own is older than the row of this topic and value. */
  lemma PersistSendsWhatIsStored(st: Store, m: Msg)
    requires Valid(st) && m.typ.PUB? && Complete(m) && m.mode.value.PERSIST?
    ensures var was := CreatedAt(st.rows, m.topic, m.value.value);
            CreatedAt(SaveOne(st, m).rows, m.topic, m.value.value) == Stamp(st, m).createdAt
            <==> was.None? || forall r :: r in st.rows && Like(m.topic, r.topic) ==> was.value <= r.createdAt
  {
    hide Filter, LikeRows, CreatedAt, Upsert, MinCreated, Like;
    var t, v := m.topic, m.value.value;
    CreatedAfterDrop(st.rows, t, v);
    CreatedAfterUpsert(DropOthers(st.rows, t, v), RowOf(Stamp(st, m)));
    if CreatedAt(st.rows, t, v).Some? {
      StoredIsLike(st.rows, t, v);
      OldestLike(st.rows, t);
    }
  }

  lemma OldestLike(rows: seq<Row>, t: string)
    requires LikeRows(rows, t) != []
    ensures forall r :: r in LikeRows(rows, t) <==> r in rows && Like(t, r.topic)
    ensures forall r :: r in LikeRows(rows, t) ==> MinCreated(LikeRows(rows, t)) <= r.createdAt
    ensures exists r :: r in LikeRows(rows, t) && r.createdAt == MinCreated(LikeRows(rows, t))
  {
    hide Filter, MinCreated, Like;
    FilterMembers(LikeQueried(t), rows);
    MinCreatedIsLeast(LikeRows(rows, t));
  }

  /** The place of the first row that carries the value under a topic LIKE this one. */
  function FirstLike(rows: seq<Row>, t: string, v: string): (i: nat)
    ensures i <= |rows|
    ensures i < |rows| ==> Like(t, rows[i].topic) && rows[i].value == v
    ensures forall k :: 0 <= k < i ==> !(Like(t, rows[k].topic) && rows[k].value == v)
  {
    if rows == [] || (Like(t, rows[0].topic) && rows[0].value == v) then 0 else 1 + FirstLike(rows[1..], t, v)
  }

  lemma {:induction false} FirstLikeIsFound(rows: seq<Row>, t: string, v: string)
    ensures FirstWithValue(LikeRows(rows, t), v)
            == if FirstLike(rows, t, v) < |rows| then Some(rows[FirstLike(rows, t, v)]) else None
  {
    hide Like;
    if rows != [] {
      FirstLikeIsFound(rows[1..], t, v);
      var rest := LikeRows(rows[1..], t);
      if Like(t, rows[0].topic) {
        assert LikeRows(rows, t) == [rows[0]] + rest;
        assert LikeRows(rows, t)[1..] == rest;
      } else {
        assert LikeRows(rows, t) == rest;
      }
    }
  }

  /** The same for an APPEND: its value is new, or the first row in the table that carries the value under
      a topic LIKE its own is as old as the row of this topic and value. */
  lemma AppendSendsWhatIsStored(st: Store, m: Msg)
    requires Valid(st) && m.typ.PUB? && Complete(m) && m.mode.value.APPEND?
    ensures var was := CreatedAt(st.rows, m.topic, m.value.value);
            var first := FirstLike(st.rows, m.topic, m.value.value);
            CreatedAt(SaveOne(st, m).rows, m.topic, m.value.value) == Stamp(st, m).createdAt
            <==> was.None? || (first < |st.rows| && st.rows[first].createdAt == was.value)
  {
    hide Filter, LikeRows, CreatedAt, Upsert, FirstWithValue, FirstLike;
    var t, v := m.topic, m.value.value;
    FirstLikeIsFound(st.rows, t, v);
    if CreatedAt(st.rows, t, v).Some? {
      StoredIsFirstLike(st.rows, t, v);
    }
    CreatedAfterUpsert(st.rows, RowOf(Stamp(st, m)));
  }

  lemma StoredIsFirstLike(rows: seq<Row>, t: string, v: string)
    requires CreatedAt(rows, t, v).Some?
    ensures FirstLike(rows, t, v) <= RowAt(rows, t, v) < |rows|
  {
    hide Like, FirstLike, RowAt;
    LikeSelf(t);
  }

  /** A neighbour's creation time is sent on with a value whose own row keeps another. */
  lemma {:induction false} NeighbourIsSent(mode: PublishMode)
    requires mode == PERSIST || mode == APPEND
    ensures var st := Store([], [Row("/axb", "w", 1, 1, APPEND), Row("/a_b", "w", 5, 5, APPEND)]);
            var m := Msg(PUB, "/a_b", Some("w"), Some(9), Some(9), Some(mode));
            CreatedAt(SaveOne(st, m).rows, "/a_b", "w") != Stamp(st, m).createdAt
  {
    var st := Store([], [Row("/axb", "w", 1, 1, APPEND), Row("/a_b", "w", 5, 5, APPEND)]);
    var m := Msg(PUB, "/a_b", Some("w"), Some(9), Some(9), Some(mode));
    NeighbourIsLike();
    hide SaveOne, Stamp, Like;
    assert st.rows[0] in st.rows && CreatedAt(st.rows, "/a_b", "w") == Some(5);
    if mode == PERSIST {
      PersistSendsWhatIsStored(st, m);
    } else {
      AppendSendsWhatIsStored(st, m);
    }
  }

  // ---------- Which creation time is sent and stored ----------

  /** The oldest creation time under a topic LIKE this one. */
  ghost predicate OldestIs(rows: seq<Row>, t: string, created: int)
  {
    && (exists r :: r in rows && Like(t, r.topic) && r.createdAt == created)
    && (forall r :: r in rows && Like(t, r.topic) ==> created <= r.createdAt)
  }

  /** A message is sent on as it came but for its creation time: a SEND keeps its own; a RETAIN takes that of
      the topic's cached message, if there is one; a PERSIST the oldest under a topic LIKE its own, if there is
      any; an APPEND that of the first row with its value under a topic LIKE its own, if there is one. */
  lemma SentCreation(st: Store, m: Msg)
    requires Valid(st) && m.typ.PUB? && Complete(m)
    ensures var s := Stamp(st, m);
            && s == m.(createdAt := s.createdAt)
            && match m.mode.value
               case SEND => s.createdAt == m.createdAt
               case RETAIN =>
                 if exists c :: c in st.cache && c.topic == m.topic
                 then exists c :: c in st.cache && c.topic == m.topic && s.createdAt == c.createdAt
                 else s.createdAt == m.createdAt
               case PERSIST =>
                 if exists r :: r in st.rows && Like(m.topic, r.topic)
                 then s.createdAt.Some? && OldestIs(st.rows, m.topic, s.createdAt.value)
                 else s.createdAt == m.createdAt
               case APPEND =>
                 var first := FirstLike(st.rows, m.topic, m.value.value);
                 s.createdAt == if first < |st.rows| then Some(st.rows[first].createdAt) else m.createdAt
  {
    hide Filter, Like, LikeRows, MinCreated, FirstWithValue, FirstLike, Position;
    StampIsPublication(st, m);
    match m.mode.value
    case SEND =>
    case RETAIN => CachedIs(st.cache, m.topic);
    case PERSIST => LikeIs(st.rows, m.topic);
    case APPEND => FirstLikeIsFound(st.rows, m.topic, m.value.value);
  }

  lemma CachedIs(cache: seq<Msg>, t: string)
    ensures Cached(cache, t).Some? <==> exists c :: c in cache && c.topic == t
    ensures Cached(cache, t).Some? ==> Cached(cache, t).value in cache && Cached(cache, t).value.topic == t
  {
    hide Position;
    if c :| c in cache && c.topic == t {
      var i :| 0 <= i < |cache| && cache[i] == c;
    }
  }

  lemma LikeIs(rows: seq<Row>, t: string)
    ensures LikeRows(rows, t) != [] <==> exists r :: r in rows && Like(t, r.topic)
    ensures LikeRows(rows, t) != [] ==> OldestIs(rows, t, MinCreated(LikeRows(rows, t)))
  {
    hide Filter, Like, MinCreated;
    FilterMembers(LikeQueried(t), rows);
    if LikeRows(rows, t) != [] {
      assert LikeRows(rows, t)[0] in LikeRows(rows, t);
      OldestLike(rows, t);
    }
  }

  /** What a PERSIST or APPEND stores with its value: the creation time of the row of this topic and value, if
      there is one, and else the one it sends. */
  lemma StoredCreation(st: Store, m: Msg)
    requires Valid(st) && m.typ.PUB? && Complete(m) && (m.mode.value.PERSIST? || m.mode.value.APPEND?)
    ensures var was := CreatedAt(st.rows, m.topic, m.value.value);
            CreatedAt(SaveOne(st, m).rows, m.topic, m.value.value)
            == if was.Some? then was else Stamp(st, m).createdAt
  {
    hide Filter, LikeRows, CreatedAt, Upsert, MinCreated, FirstWithValue, Like;
    CreatedAfterDrop(st.rows, m.topic, m.value.value);
    if m.mode.value.PERSIST? {
      CreatedAfterUpsert(DropOthers(st.rows, m.topic, m.value.value), RowOf(Stamp(st, m)));
    } else {
      CreatedAfterUpsert(st.rows, RowOf(Stamp(st, m)));
    }
  }

  /** An APPEND, all told: the row of its topic and value keeps its creation time if there was one; otherwise it
      gets that of the first row with the value under a topic LIKE its own; otherwise the message's own. */
  lemma AppendCreationExact(st: Store, m: Msg)
    requires Valid(st) && m.typ.PUB? && Complete(m) && m.mode.value.APPEND?
    ensures var t, v := m.topic, m.value.value;
            var was, first := CreatedAt(st.rows, t, v), FirstLike(st.rows, t, v);
            CreatedAt(SaveOne(st, m).rows, t, v)
            == if was.Some? then was
               else if first < |st.rows| then Some(st.rows[first].createdAt)
               else m.createdAt
  {
    hide SaveOne, Stamp, CreatedAt, FirstLike, Valid;
    SentCreation(st, m);
    StoredCreation(st, m);
  }

  lemma CreatedIs(rows: seq<Row>, t: string, v: string, created: int)
    requires UniqueRows(rows)
    ensures CreatedAt(rows, t, v) == Some(created)
            <==> exists r :: r in rows && r.topic == t && r.value == v && r.createdAt == created
  {
    hide RowAt;
    var i := RowAt(rows, t, v);
    if r :| r in rows && r.topic == t && r.value == v && r.createdAt == created {
      var j :| 0 <= j < |rows| && rows[j] == r;
      assert i == j;
    }
  }

  lemma SameCreated(a: seq<Row>, b: seq<Row>, t: string, v: string)
    requires UniqueRows(a) && UniqueRows(b)
    requires forall r: Row :: r.topic == t && r.value == v ==> (r in a <==> r in b)
    ensures CreatedAt(a, t, v) == CreatedAt(b, t, v)
  {
    hide CreatedAt;
    if CreatedAt(a, t, v).Some? {
      CreatedIs(a, t, v, CreatedAt(a, t, v).value);
      CreatedIs(b, t, v, CreatedAt(a, t, v).value);
    }
    if CreatedAt(b, t, v).Some? {
      CreatedIs(a, t, v, CreatedAt(b, t, v).value);
      CreatedIs(b, t, v, CreatedAt(b, t, v).value);
    }
  }

  /** The creation time that an appended value should have: that of its first APPEND since it was deleted. */
  function AppendedAfter(created: Option<int>, t: string, v: string, m: Msg): Option<int>
    requires Complete(m)
  {
    if m.typ.PUB? && m.mode.value.APPEND? && m.topic == t && m.value.value == v then
      if created.Some? then created else m.createdAt
    else if m.typ.DEL? && Selected(m.topic, t) && (m.value.None? || m.value.value == v) then None
    else created
  }

  function AppendedAfterAll(created: Option<int>, t: string, v: string, ms: seq<Msg>): Option<int>
    requires AllComplete(ms)
  {
    if ms == [] then created else AppendedAfter(AppendedAfterAll(created, t, v, ms[..|ms| - 1]), t, v, ms[|ms| - 1])
  }

  /** The topic is never published PERSIST, and no published topic other than itself is LIKE it. */
  ghost predicate AppendOnly(ms: seq<Msg>, t: string)
    requires AllComplete(ms)
  {
    forall i :: 0 <= i < |ms| && ms[i].typ.PUB? ==>
      && (Like(t, ms[i].topic) ==> ms[i].topic == t)
      && (ms[i].topic == t ==> !ms[i].mode.value.PERSIST?)
  }

  lemma OwnAppend(st: Store, m: Msg)
    requires Valid(st) && m.typ.PUB? && Complete(m) && m.mode.value.APPEND? && Isolated(st.rows, m.topic)
    ensures var was := CreatedAt(st.rows, m.topic, m.value.value);
            CreatedAt(SaveOne(st, m).rows, m.topic, m.value.value) == if was.Some? then was else m.createdAt
  {
    hide SaveOne, Like, FirstLike, RowAt;
    AppendCreationExact(st, m);
    var t, v := m.topic, m.value.value;
    var first := FirstLike(st.rows, t, v);
    if first < |st.rows| {
      assert st.rows[first] in st.rows && st.rows[first].topic == t && st.rows[first].value == v;
      assert RowAt(st.rows, t, v) < |st.rows|;
    }
  }

  lemma OtherMessage(st: Store, m: Msg, t: string, v: string)
    requires Valid(st) && Complete(m) && UniqueRows(SaveOne(st, m).rows)
    requires m.typ.PUB? && m.topic == t ==> !m.mode.value.PERSIST?
    requires !(m.typ.PUB? && m.mode.value.APPEND? && m.topic == t && m.value.value == v)
    ensures CreatedAt(SaveOne(st, m).rows, t, v) == AppendedAfter(CreatedAt(st.rows, t, v), t, v, m)
  {
    hide CreatedAt, Selected, Filter, Upsert;
    if m.typ.DEL? {
      DelExact(st, m);
      if Selected(m.topic, t) && (m.value.None? || m.value.value == v) {
        NoneCreated(SaveOne(st, m).rows, t, v);
      } else {
        SameCreated(st.rows, SaveOne(st, m).rows, t, v);
      }
    } else if m.typ.PUB? && (m.mode.value.PERSIST? || m.mode.value.APPEND?) {
      PersistentExact(st, m);
      SameCreated(st.rows, SaveOne(st, m).rows, t, v);
    }
  }

  lemma NoneCreated(rows: seq<Row>, t: string, v: string)
    requires UniqueRows(rows) && forall r :: r in rows ==> r.topic != t || r.value != v
    ensures CreatedAt(rows, t, v) == None
  {
    hide CreatedAt;
    if CreatedAt(rows, t, v).Some? {
      CreatedIs(rows, t, v, CreatedAt(rows, t, v).value);
    }
  }

  /** Over every run of messages, a value of a topic that is only ever appended (and has no LIKE neighbour) has
      the creation time of its first APPEND since it was last deleted, and is stored exactly while it has one. */
  lemma {:induction false} AppendKeepsCreation(st: Store, ms: seq<Msg>, t: string, v: string)
    requires Valid(st) && AllComplete(ms) && AppendOnly(ms, t) && Isolated(st.rows, t)
    ensures Isolated(Save(st, ms).rows, t)
    ensures CreatedAt(Save(st, ms).rows, t, v) == AppendedAfterAll(CreatedAt(st.rows, t, v), t, v, ms)
  {
    hide SaveOne, CreatedAt, Isolated, Valid;
    if ms != [] {
      var n := |ms| - 1;
      var m := ms[n];
      AppendKeepsCreation(st, ms[..n], t, v);
      SaveKeepsValid(st, ms[..n]);
      var before := Save(st, ms[..n]);
      SaveOneKeepsIsolated(before, m, t);
      if m.typ.PUB? && m.mode.value.APPEND? && m.topic == t && m.value.value == v {
        OwnAppend(before, m);
      } else {
        SaveOneKeepsValid(before, m);
        ValidRows(SaveOne(before, m));
        OtherMessage(before, m, t, v);
      }
    }
  }

  lemma ValidRows(st: Store)
    requires Valid(st)
    ensures UniqueRows(st.rows)
  {
  }

  // ---------- Exactly what a publication stores ----------

  lemma UpsertMembers(rows: seq<Row>, r: Row)
    requires UniqueRows(rows)
    ensures exists x :: x in Upsert(rows, r) && x.topic == r.topic && x.value == r.value
                        && x.updatedAt == r.updatedAt && x.mode == r.mode
    ensures forall x: Row :: x.topic != r.topic || x.value != r.value ==> (x in Upsert(rows, r) <==> x in rows)
  {
    var i, up := RowAt(rows, r.topic, r.value), Upsert(rows, r);
    assert up[i] in up;
    forall x: Row | x.topic != r.topic || x.value != r.value ensures x in up <==> x in rows {
      if x in rows {
        var j :| 0 <= j < |rows| && rows[j] == x;
        assert up[j] == x;
      }
    }
  }

  /** A PERSIST or APPEND takes its topic out of the cache and stores its value with the message's
      update time and mode; a PERSIST removes the topic's other values; nothing else changes. */
  lemma PersistentExact(st: Store, m: Msg)
    requires Valid(st) && m.typ.PUB? && Complete(m) && (m.mode.value.PERSIST? || m.mode.value.APPEND?)
    ensures var st', t, v := SaveOne(st, m), m.topic, m.value.value;
            && (forall c :: c in st'.cache <==> c in st.cache && c.topic != t)
            && (exists r :: r in st'.rows && r.topic == t && r.value == v
                            && r.updatedAt == m.updatedAt.value && r.mode == m.mode.value)
            && (forall r: Row :: r.topic != t || r.value != v ==>
                  (r in st'.rows <==> r in st.rows && (r.topic != t || m.mode.value.APPEND?)))
  {
    hide Filter, Upsert, LikeRows, MinCreated, FirstWithValue;
    var t, v := m.topic, m.value.value;
    FilterMembers(OtherTopic(t), st.cache);
    var kept := if m.mode.value.PERSIST? then DropOthers(st.rows, t, v) else st.rows;
    FilterMembers(NotOtherValue(t, v), st.rows);
    FilterKeepsUniqueRows(NotOtherValue(t, v), st.rows);
    UpsertMembers(kept, RowOf(Stamp(st, m)));
  }

  /** A RETAIN caches the message under its topic, keeping the creation time found there; nothing else changes. */
  lemma RetainExact(st: Store, m: Msg, t: string)
    requires m.typ.PUB? && Complete(m) && m.mode.value.RETAIN?
    ensures SaveOne(st, m).rows == st.rows
    ensures Cached(SaveOne(st, m).cache, t)
            == if t != m.topic then Cached(st.cache, t)
               else if Cached(st.cache, t).Some? then Some(m.(createdAt := Cached(st.cache, t).value.createdAt))
               else Some(m)
  {
    hide Cached, Position;
    CachedAfterPut(st.cache, Stamp(st, m), t);
  }

  lemma IsolatedHasNoOlder(rows: seq<Row>, m: Msg, h: Held)
    requires m.typ.PUB? && Complete(m) && Isolated(rows, m.topic) && Holds(rows, m.topic, h)
    ensures NoOlderNeighbour(rows, m, h)
  {
    hide Filter, Like;
    FilterMembers(OfTopic(m.topic), rows);
    forall r | r in rows && Like(m.topic, r.topic) ensures h.Held? && r.createdAt == h.createdAt {
      assert r in TopicRows(rows, m.topic);
    }
  }

  /** PERSIST on an isolated topic: the other value goes, and the row keeps or inherits the creation time. */
  lemma PersistHolds(st: Store, m: Msg, h: Held)
    requires m.typ.PUB? && Complete(m) && m.mode.value.PERSIST?
    requires Holds(st.rows, m.topic, h) && Isolated(st.rows, m.topic)
    ensures Holds(SaveOne(st, m).rows, m.topic, HeldAfter(h, m.topic, m))
  {
    hide SaveOne, HeldAfter, Isolated;
    IsolatedHasNoOlder(st.rows, m, h);
    PersistCreationExact(st, m, h);
  }

  lemma DelHolds(st: Store, m: Msg, t: string, h: Held)
    requires m.typ.DEL? && Holds(st.rows, t, h)
    ensures Holds(SaveOne(st, m).rows, t, HeldAfter(h, t, m))
  {
    var rs := TopicRows(st.rows, t);
    var f, g := OfTopic(t), Spared(m.topic, m.value);
    var both := (r: Row) => f(r) && g(r);
    FilterTwice(f, g, both, st.rows);
    FilterTwice(g, f, both, st.rows);
    assert TopicRows(SaveOne(st, m).rows, t) == Filter(g, rs);
    if h.Held? {
      assert rs == [rs[0]];
      FilterOne(g, rs[0]);
    }
  }

  lemma OtherTopicHolds(st: Store, m: Msg, t: string, h: Held)
    requires m.typ.PUB? && Complete(m) && m.topic != t && Publications(st.cache) && Holds(st.rows, t, h)
    ensures Holds(SaveOne(st, m).rows, t, h)
  {
    var s := Stamp(st, m);
    StampIsPublication(st, m);
    if m.mode.value.PERSIST? {
      FilterIgnores(OfTopic(t), NotOtherValue(m.topic, m.value.value), st.rows);
      UpsertOtherTopic(DropOthers(st.rows, m.topic, m.value.value), RowOf(s), t);
    } else if m.mode.value.APPEND? {
      UpsertOtherTopic(st.rows, RowOf(s), t);
    }
  }

  /** A message leaves the topic isolated when its own topic is not LIKE it. */
  lemma SaveOneKeepsIsolated(st: Store, m: Msg, t: string)
    requires Complete(m) && Isolated(st.rows, t)
    requires m.typ.PUB? && Like(t, m.topic) ==> m.topic == t
    ensures Isolated(SaveOne(st, m).rows, t)
  {
    hide Filter, Like, Stamp, Cached, LikeRows, Position, Selected;
    if m.typ.DEL? {
      FilterMembers(Spared(m.topic, m.value), st.rows);
    } else if m.typ.PUB? && (m.mode.value.PERSIST? || m.mode.value.APPEND?) {
      FilterMembers(NotOtherValue(m.topic, m.value.value), st.rows);
      var kept := if m.mode.value.PERSIST? then DropOthers(st.rows, m.topic, m.value.value) else st.rows;
      StampTopic(st, m);
      UpsertTopics(kept, Stamp(st, m));
    }
  }

  lemma StampTopic(st: Store, m: Msg)
    requires Complete(m)
    ensures Stamp(st, m).topic == m.topic
  {
  }

  lemma UpsertTopics(rows: seq<Row>, m: Msg)
    ensures forall r :: r in UpsertMsg(rows, m) ==> r.topic == m.topic || r in rows
  {
    hide RowAt;
    if m.typ.PUB? && Complete(m) {
      var i := RowAt(rows, m.topic, m.value.value);
      assert i < |rows| ==> rows[i].topic == m.topic;
    }
  }

  /** The messages a topic's creation time is about: it is never published APPEND, and no published
      topic other than itself is LIKE it. */
  ghost predicate PersistOnly(ms: seq<Msg>, t: string)
    requires AllComplete(ms)
  {
    forall i :: 0 <= i < |ms| && ms[i].typ.PUB? ==>
      && (Like(t, ms[i].topic) ==> ms[i].topic == t)
      && (ms[i].topic == t ==> !ms[i].mode.value.APPEND?)
  }

  /** Over every run of messages, a topic only ever published PERSIST has at most one row: the last
      value, with the creation time of the first PERSIST since the topic was last deleted. */
  lemma {:induction false} PersistKeepsCreation(st: Store, ms: seq<Msg>, t: string, h: Held)
    requires Valid(st) && AllComplete(ms) && PersistOnly(ms, t)
    requires Isolated(st.rows, t) && Holds(st.rows, t, h)
    ensures Isolated(Save(st, ms).rows, t)
    ensures Holds(Save(st, ms).rows, t, HeldAfterAll(h, t, ms))
  {
    if ms != [] {
      var n := |ms| - 1;
      var m := ms[n];
      PersistKeepsCreation(st, ms[..n], t, h);
      SaveKeepsValid(st, ms[..n]);
      var before, h' := Save(st, ms[..n]), HeldAfterAll(h, t, ms[..n]);
      SaveOneKeepsIsolated(before, m, t);
      if m.typ.DEL? {
        DelHolds(before, m, t, h');
      } else if m.typ.PUB? && m.topic != t {
        OtherTopicHolds(before, m, t, h');
      } else if m.typ.PUB? && m.mode.value.PERSIST? {
        PersistHolds(before, m, h');
      }
    }
  }

  // ---------- Creation times of retained topics ----------

  /** The creation time a retained topic should show: that of its first RETAIN since it was removed. */
  function RetainedAfter(created: Option<int>, t: string, m: Msg): Option<int>
    requires Complete(m)
  {
    if m.typ.PUB? && m.topic == t then
      match m.mode.value
      case SEND => created
      case RETAIN => if created.Some? then created else m.createdAt
      case _ => None
    else if m.typ.DEL? && Pattern.Matches(m.topic, t) then None
    else created
  }

  function RetainedAfterAll(created: Option<int>, t: string, ms: seq<Msg>): Option<int>
    requires AllComplete(ms)
  {
    if ms == [] then created else RetainedAfter(RetainedAfterAll(created, t, ms[..|ms| - 1]), t, ms[|ms| - 1])
  }

  /** The creation time of the cached message of a topic. */
  function CachedCreation(cache: seq<Msg>, t: string): Option<int>
  {
    var c := Cached(cache, t);
    if c.Some? then c.value.createdAt else None
  }

  lemma {:induction false} CachedAfterFilter(f: Msg -> bool, cache: seq<Msg>, t: string)
    requires OnePerTopic(cache)
    ensures Cached(Filter(f, cache), t)
            == if Cached(cache, t).Some? && f(Cached(cache, t).value) then Cached(cache, t) else None
  {
    hide Position, Cached;
    if cache == [] {
      NothingCached([], t);
    } else {
      var rest := cache[1..];
      CachedAfterFilter(f, rest, t);
      CachedTail(cache, t);
      if f(cache[0]) {
        assert Filter(f, cache) == [cache[0]] + Filter(f, rest);
        CachedTail(Filter(f, cache), t);
        assert Filter(f, cache)[1..] == Filter(f, rest);
      } else {
        assert Filter(f, cache) == Filter(f, rest);
      }
      if cache[0].topic == t {
        NothingCached(rest, t);
      }
    }
  }

  lemma NothingCached(cache: seq<Msg>, t: string)
    requires forall i :: 0 <= i < |cache| ==> cache[i].topic != t
    ensures Cached(cache, t) == None
  {
  }

  lemma CachedTail(cache: seq<Msg>, t: string)
    requires cache != []
    ensures Cached(cache, t) == if cache[0].topic == t then Some(cache[0]) else Cached(cache[1..], t)
  {
  }

  lemma CachedAfterPut(cache: seq<Msg>, m: Msg, t: string)
    ensures Cached(CachePut(cache, m), t) == if m.topic == t then Some(m) else Cached(cache, t)
  {
    var i := Position(cache, m.topic);
    var put := CachePut(cache, m);
    var j := Position(cache, t);
    if m.topic == t {
      PositionIs(put, t, i);
    } else {
      PositionIs(put, t, if j < |cache| then j else |put|);
    }
  }

  lemma PositionIs(cache: seq<Msg>, t: string, i: nat)
    requires i <= |cache| && forall k :: 0 <= k < i ==> cache[k].topic != t
    requires i < |cache| ==> cache[i].topic == t
    ensures Position(cache, t) == i
  {
  }

  /** One message moves the cached creation time exactly as RetainedAfter says. */
  lemma RetainedStep(st: Store, m: Msg, t: string)
    requires Valid(st) && Complete(m)
    ensures CachedCreation(SaveOne(st, m).cache, t) == RetainedAfter(CachedCreation(st.cache, t), t, m)
  {
    var i := Position(st.cache, t);
    assert i < |st.cache| ==> st.cache[i] in st.cache;
    if m.typ.DEL? {
      CachedAfterFilter(UnmatchedBy(m.topic), st.cache, t);
    } else if m.typ.PUB? && m.mode.value.RETAIN? {
      CachedAfterPut(st.cache, Stamp(st, m), t);
    } else if m.typ.PUB? && !m.mode.value.SEND? {
      CachedAfterFilter(OtherTopic(m.topic), st.cache, t);
    }
  }

  /** Over every run of messages, a retained topic shows the creation time of its first RETAIN since
      it was last removed, and is cached exactly while it has one. */
  lemma {:induction false} RetainKeepsCreation(st: Store, ms: seq<Msg>, t: string)
    requires Valid(st) && AllComplete(ms)
    ensures CachedCreation(Save(st, ms).cache, t) == RetainedAfterAll(CachedCreation(st.cache, t), t, ms)
  {
    if ms != [] {
      var n := |ms| - 1;
      RetainKeepsCreation(st, ms[..n], t);
      SaveKeepsValid(st, ms[..n]);
      RetainedStep(Save(st, ms[..n]), ms[n], t);
    }
  }
}
