/** The database object (db.py): each statement's effect on the stored rows. */
module Table {
  import opened Wrappers
  import opened Model
  import opened Seqs
  import opened Database
  import opened Store
  import Pattern

  function NotIn(topics: set<string>, value: Option<string>): Row -> bool
  {
    (r: Row) => !(r.topic in topics && (value.None? || r.value == value.value))
  }

  class Table {
    var rows: seq<Row>

    constructor ()
      ensures rows == []
    {
      rows := [];
    }

    /** `get` with a plain topic. */
    method GetTopic(topic: string) returns (out: seq<Row>)
      ensures out == LikeRows(rows, topic)
    {
      out := LikeRows(rows, topic);
    }

    /** `get` with a pattern. */
    method GetPattern(p: string) returns (out: seq<Row>)
      ensures out == LikeRows(rows, LikeQuery(p))
    {
      out := LikeRows(rows, LikeQuery(p));
    }

    method Put(m: Msg)
      requires m.typ.PUB? && Complete(m)
      modifies this
      ensures rows == Upsert(old(rows), RowOf(m))
    {
      var i := 0;
      while i < |rows| && !(rows[i].topic == m.topic && rows[i].value == m.value.value)
        invariant 0 <= i <= |rows|
        invariant forall k :: 0 <= k < i ==> !(rows[k].topic == m.topic && rows[k].value == m.value.value)
      {
        i := i + 1;
      }
      RowAtIs(rows, m.topic, m.value.value, i);
      if i < |rows| {
        rows := rows[i := rows[i].(updatedAt := m.updatedAt.value, mode := m.mode.value)];
      } else {
        rows := rows + [RowOf(m)];
      }
    }

    method DeleteTopic(topic: string)
      modifies this
      ensures rows == Filter(NotIn({topic}, None), old(rows))
    {
      rows := Filter(NotIn({topic}, None), rows);
    }

    method DeleteValue(topic: string, value: string)
      modifies this
      ensures rows == Filter(NotIn({topic}, Some(value)), old(rows))
    {
      rows := Filter(NotIn({topic}, Some(value)), rows);
    }

    method DeleteOther(topic: string, value: string)
      modifies this
      ensures rows == DropOthers(old(rows), topic, value)
    {
      rows := DropOthers(rows, topic, value);
    }

    /** The DEL branch: one statement for each row that the pattern selects. */
    method DeletePattern(p: string, value: Option<string>)
      modifies this
      ensures rows == DelRows(old(rows), p, value)
    {
      var found := GetPattern(p);
      ghost var before := rows;
      ghost var gone: set<string> := {};
      NothingGone(before, value);
      var k := 0;
      while k < |found|
        invariant 0 <= k <= |found|
        invariant rows == Filter(NotIn(gone, value), before)
        invariant forall t :: t in gone <==>
                    exists x :: 0 <= x < k && Pattern.Matches(p, found[x].topic) && found[x].topic == t
      {
        if Pattern.Matches(p, found[k].topic) {
          if value.Some? {
            DeleteValue(found[k].topic, value.value);
          } else {
            DeleteTopic(found[k].topic);
          }
          OneMoreGone(before, gone, found[k].topic, value);
          gone := gone + {found[k].topic};
        }
        k := k + 1;
      }
      AllGone(before, found, gone, p, value);
    }
  }

  lemma RowAtIs(rows: seq<Row>, topic: string, value: string, i: nat)
    requires i <= |rows|
    requires forall k :: 0 <= k < i ==> !(rows[k].topic == topic && rows[k].value == value)
    requires i < |rows| ==> rows[i].topic == topic && rows[i].value == value
    ensures RowAt(rows, topic, value) == i
  {
  }

  lemma NothingGone(rows: seq<Row>, value: Option<string>)
    ensures Filter(NotIn({}, value), rows) == rows
  {
    FilterAll(NotIn({}, value), rows);
  }

  lemma OneMoreGone(rows: seq<Row>, gone: set<string>, topic: string, value: Option<string>)
    ensures Filter(NotIn({topic}, value), Filter(NotIn(gone, value), rows))
            == Filter(NotIn(gone + {topic}, value), rows)
  {
    FilterTwice(NotIn({topic}, value), NotIn(gone, value), NotIn(gone + {topic}, value), rows);
  }

  /** Deleting by topic, for each selected row, removes what DelRows removes. */
  lemma AllGone(rows: seq<Row>, found: seq<Row>, gone: set<string>, p: string, value: Option<string>)
    requires found == LikeRows(rows, LikeQuery(p))
    requires forall t :: t in gone <==>
               exists x :: 0 <= x < |found| && Pattern.Matches(p, found[x].topic) && found[x].topic == t
    ensures Filter(NotIn(gone, value), rows) == DelRows(rows, p, value)
  {
    FilterMembers(LikeQueried(LikeQuery(p)), rows);
    forall r | r in rows ensures r.topic in gone <==> Selected(p, r.topic) {
      if Selected(p, r.topic) {
        assert r in found;
        var x :| 0 <= x < |found| && found[x] == r;
        assert Pattern.Matches(p, found[x].topic) && found[x].topic == r.topic;
      }
      if r.topic in gone {
        var x :| 0 <= x < |found| && Pattern.Matches(p, found[x].topic) && found[x].topic == r.topic;
        assert found[x] in found;
      }
    }
    FilterSame(NotIn(gone, value), Spared(p, value), rows);
  }
}
