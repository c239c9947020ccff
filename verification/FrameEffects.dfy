/** What one frame leaves in the store, said over the frame as it was received: which deletions count, and
    which of several values published on one topic is kept (websocket.py with util.py reduce_msgs). */
module FrameEffects {
  import opened Wrappers
  import opened Text
  import opened Model
  import opened Seqs
  import opened Messages
  import opened Frame
  import SQ = SendQueue
  import S = Store
  import P = StoreProperties
  import Database
  import Pattern
  import Reduce

  function IsPub(): Msg -> bool { (m: Msg) => m.typ.PUB? }

  function IsDel(): Msg -> bool { (m: Msg) => m.typ.DEL? }

  /** What accept_pub_del is handed, and its publications alone. */
  function Batch(frame: seq<Msg>, name: string): seq<Msg>
  {
    Filter(IsPubDel(), Ordered(frame, name))
  }

  function Publications(frame: seq<Msg>, name: string): seq<Msg>
  {
    Filter(IsPub(), Ordered(frame, name))
  }

  lemma BatchComplete(frame: seq<Msg>, name: string)
    requires S.AllComplete(frame)
    ensures S.AllComplete(Batch(frame, name)) && S.AllComplete(Publications(frame, name))
    ensures S.AllComplete(Filter(IsDel(), Ordered(frame, name)))
  {
    hide Reduce.ReduceMsgs, ReplacePair, Complete;
    ReducedComplete(frame);
    var ordered := Ordered(frame, name);
    forall m | m in ordered ensures Complete(m) {
      var i :| 0 <= i < |ordered| && ordered[i] == m;
      NamedComplete(Reduce.ReduceMsgs(frame)[i], name);
    }
    AllOfMembers(IsPubDel(), ordered);
    AllOfMembers(IsPub(), ordered);
    AllOfMembers(IsDel(), ordered);
  }

  lemma NamedComplete(m: Msg, name: string)
    requires Complete(m)
    ensures Complete(Name(m, name))
  {
  }

  lemma AllOfMembers(f: Msg -> bool, ms: seq<Msg>)
    requires forall m :: m in ms ==> Complete(m)
    ensures S.AllComplete(Filter(f, ms))
  {
    hide Complete;
    FilterMembers(f, ms);
    var s := Filter(f, ms);
    forall i | 0 <= i < |s| ensures Complete(s[i]) {
      assert s[i] in s;
    }
  }

  // ---------- Publications first, deletions after ----------

  lemma {:induction false} PubsThenDels(ms: seq<Msg>)
    requires TypeOrdered(ms)
    ensures Filter(IsPubDel(), ms) == Filter(IsPub(), ms) + Filter(IsDel(), ms)
  {
    if ms != [] {
      var rest := ms[1..];
      PubsThenDels(rest);
      if ms[0].typ.DEL? {
        forall i | 0 <= i < |rest| ensures !rest[i].typ.PUB? {
          assert ms[0].typ.Rank() <= ms[i + 1].typ.Rank();
        }
        FilterNone(IsPub(), rest);
      }
    }
  }

  lemma {:induction false} SaveConcat(st: S.Store, a: seq<Msg>, b: seq<Msg>)
    requires S.AllComplete(a) && S.AllComplete(b) && S.AllComplete(a + b)
    ensures S.Save(st, a + b) == S.Save(S.Save(st, a), b)
  {
    hide S.SaveOne;
    if b == [] {
      assert a + b == a;
    } else {
      var n := |b| - 1;
      assert (a + b)[..|a + b| - 1] == a + b[..n];
      SaveConcat(st, a, b[..n]);
    }
  }

  /** Some deletion of the list hits the row; some deletion hits the cached topic. */
  ghost predicate Hit(dels: seq<Msg>, t: string, v: string)
  {
    exists d :: d in dels && S.Selected(d.topic, t) && (d.value.None? || d.value.value == v)
  }

  ghost predicate HitCached(dels: seq<Msg>, t: string)
  {
    exists d :: d in dels && Pattern.Matches(d.topic, t)
  }

  lemma {:induction false} DelsExact(st: S.Store, dels: seq<Msg>)
    requires S.AllComplete(dels) && forall d :: d in dels ==> d.typ.DEL?
    ensures forall r :: r in S.Save(st, dels).rows <==> r in st.rows && !Hit(dels, r.topic, r.value)
    ensures forall c :: c in S.Save(st, dels).cache <==> c in st.cache && !HitCached(dels, c.topic)
  {
    hide S.SaveOne, S.Selected, Pattern.Matches;
    if dels != [] {
      var n := |dels| - 1;
      DelsExact(st, dels[..n]);
      P.DelExact(S.Save(st, dels[..n]), dels[n]);
      forall t, v
        ensures Hit(dels, t, v) <==>
                Hit(dels[..n], t, v)
                || (S.Selected(dels[n].topic, t) && (dels[n].value.None? || dels[n].value.value == v))
        ensures HitCached(dels, t) <==> HitCached(dels[..n], t) || Pattern.Matches(dels[n].topic, t)
      {
        HitMore(dels, t, v);
      }
    }
  }

  lemma HitMore(dels: seq<Msg>, t: string, v: string)
    requires dels != []
    ensures var n := |dels| - 1;
            Hit(dels, t, v) <==>
            Hit(dels[..n], t, v) || (S.Selected(dels[n].topic, t) && (dels[n].value.None? || dels[n].value.value == v))
    ensures var n := |dels| - 1;
            HitCached(dels, t) <==> HitCached(dels[..n], t) || Pattern.Matches(dels[n].topic, t)
  {
    hide S.Selected, Pattern.Matches;
    var n := |dels| - 1;
    assert dels == dels[..n] + [dels[n]];
  }

  // ---------- Which deletions of a frame count ----------

  /** The first DEL of its topic in the frame; reduction keeps no other, since the key of a DEL leaves out
      its value. */
  ghost predicate FirstDel(frame: seq<Msg>, i: nat)
    requires i < |frame|
  {
    && frame[i].typ.DEL?
    && forall j :: 0 <= j < i ==> !(frame[j].typ.DEL? && frame[j].topic == frame[i].topic)
  }

  lemma DelKey(a: Msg, b: Msg)
    requires b.typ.DEL?
    ensures Reduce.GroupKey(a) == Reduce.GroupKey(b) <==> a.typ.DEL? && a.topic == b.topic
  {
  }

  lemma FirstDelAt(frame: seq<Msg>, i: nat)
    requires i < |frame| && frame[i].typ.DEL?
    ensures FirstAt(frame, Reduce.GroupKey(frame[i])) < |frame|
    ensures FirstDel(frame, i) <==> FirstAt(frame, Reduce.GroupKey(frame[i])) == i
    ensures FirstDel(frame, FirstAt(frame, Reduce.GroupKey(frame[i])))
  {
    hide Reduce.GroupKey, FirstAt;
    var f := FirstAt(frame, Reduce.GroupKey(frame[i]));
    forall j | 0 <= j < |frame|
      ensures Reduce.GroupKey(frame[j]) == Reduce.GroupKey(frame[i])
              <==> frame[j].typ.DEL? && frame[j].topic == frame[i].topic
    {
      DelKey(frame[j], frame[i]);
    }
  }

  /** Reduction keeps the first DEL of each topic, as it is. */
  lemma ReducedDel(frame: seq<Msg>, d: Msg)
    requires d.typ.DEL?
    ensures d in Reduce.ReduceMsgs(frame) <==> exists i :: 0 <= i < |frame| && FirstDel(frame, i) && frame[i] == d
  {
    hide Reduce.ReduceMsgs, Reduce.GroupKey, FirstAt, Reduce.MergeAll, Reduce.GroupOf, FirstDel;
    var out, k := Reduce.ReduceMsgs(frame), Reduce.GroupKey(d);
    Reduce.ReduceIsReduction(frame);
    Reduce.GroupMembers(out, k);
    Reduce.GroupHasKey(frame, k);
    var f, g := FirstAt(frame, k), Reduce.GroupOf(frame, k);
    if f < |frame| {
      SQ.GroupFrom(frame, k, f);
      assert g[0] == frame[f];
      DelKey(frame[f], d);
      Reduce.MergeAllShape(g);
      FirstDelAt(frame, f);
      assert Reduce.GroupOf(out, k) == [frame[f]];
    } else {
      Reduce.GroupNone(frame, k);
    }
    if i :| 0 <= i < |frame| && FirstDel(frame, i) && frame[i] == d {
      FirstIs(frame, i);
      FirstDelAt(frame, i);
    }
  }

  lemma FirstIs(frame: seq<Msg>, i: nat)
    requires i < |frame| && FirstDel(frame, i)
    ensures frame[i].typ.DEL?
  {
  }

  /** The frame deletes this topic's value: by the first DEL of some topic in it. */
  ghost predicate Deletes(frame: seq<Msg>, name: string, t: string, v: string)
  {
    exists i :: 0 <= i < |frame| && FirstDel(frame, i) && S.Selected(Name(frame[i], name).topic, t)
                && (frame[i].value.None? || frame[i].value.value == v)
  }

  lemma OrderedDel(frame: seq<Msg>, name: string, d: Msg)
    requires d.typ.DEL?
    ensures d in Ordered(frame, name)
            <==> exists i :: 0 <= i < |frame| && FirstDel(frame, i) && Name(frame[i], name) == d
  {
    hide Reduce.ReduceMsgs, ReplacePair, FirstDel;
    var r, ordered := Reduce.ReduceMsgs(frame), Ordered(frame, name);
    if d in ordered {
      var i :| 0 <= i < |ordered| && ordered[i] == d;
      ReducedDel(frame, r[i]);
    }
    if i :| 0 <= i < |frame| && FirstDel(frame, i) && Name(frame[i], name) == d {
      FirstIs(frame, i);
      ReducedDel(frame, frame[i]);
      var j :| 0 <= j < |r| && r[j] == frame[i];
      assert ordered[j] == d;
    }
  }

  lemma DeletesAreHits(frame: seq<Msg>, name: string, t: string, v: string)
    ensures Deletes(frame, name, t, v) <==> Hit(Filter(IsDel(), Ordered(frame, name)), t, v)
  {
    hide Ordered, S.Selected, FirstDel, ReplacePair;
    var dels := Filter(IsDel(), Ordered(frame, name));
    FilterMembers(IsDel(), Ordered(frame, name));
    if Deletes(frame, name, t, v) {
      var i :| 0 <= i < |frame| && FirstDel(frame, i) && S.Selected(Name(frame[i], name).topic, t)
               && (frame[i].value.None? || frame[i].value.value == v);
      FirstIs(frame, i);
      OrderedDel(frame, name, Name(frame[i], name));
      assert Name(frame[i], name) in dels;
    }
    if Hit(dels, t, v) {
      var d :| d in dels && S.Selected(d.topic, t) && (d.value.None? || d.value.value == v);
      OrderedDel(frame, name, d);
    }
  }

  lemma CachedHits(frame: seq<Msg>, name: string, t: string)
    ensures HitCached(Filter(IsDel(), Ordered(frame, name)), t)
            <==> exists m :: m in frame && m.typ.DEL? && Pattern.Matches(Name(m, name).topic, t)
  {
    hide Ordered, Pattern.Matches, ReplacePair;
    var ordered := Ordered(frame, name);
    FilterMembers(IsDel(), ordered);
    if d :| d in Filter(IsDel(), ordered) && Pattern.Matches(d.topic, t) {
      OrderedHas(frame, name, DEL, d.topic);
      assert exists m :: m in ordered && m.typ == DEL && m.topic == d.topic;
    }
    if m :| m in frame && m.typ.DEL? && Pattern.Matches(Name(m, name).topic, t) {
      OrderedHas(frame, name, DEL, Name(m, name).topic);
    }
  }

  /** Exactly what a frame deletes, whatever else it holds and in whatever order: its publications are
      stored first; then the first DEL of each topic in the frame removes the rows it selects, with its own
      value only if it carries one; every DEL removes the cached messages it matches. */
  lemma FrameDeletesExactly(st: S.Store, frame: seq<Msg>, name: string)
    requires S.AllComplete(frame)
    ensures S.AllComplete(Batch(frame, name)) && S.AllComplete(Publications(frame, name))
    ensures forall r :: r in S.Save(st, Batch(frame, name)).rows <==>
              r in S.Save(st, Publications(frame, name)).rows && !Deletes(frame, name, r.topic, r.value)
    ensures forall c :: c in S.Save(st, Batch(frame, name)).cache <==>
              c in S.Save(st, Publications(frame, name)).cache
              && !exists m :: m in frame && m.typ.DEL? && Pattern.Matches(Name(m, name).topic, c.topic)
  {
    hide Ordered, S.Save, Deletes, Hit, HitCached, Pattern.Matches, Name, Complete;
    BatchComplete(frame, name);
    var ordered := Ordered(frame, name);
    var dels := Filter(IsDel(), ordered);
    OrderedByType(frame, name);
    PubsThenDels(ordered);
    FilterMembers(IsDel(), ordered);
    var stored := S.Save(st, Publications(frame, name));
    SaveConcat(st, Publications(frame, name), dels);
    DelsExact(stored, dels);
    forall r: Database.Row ensures Deletes(frame, name, r.topic, r.value) <==> Hit(dels, r.topic, r.value) {
      DeletesAreHits(frame, name, r.topic, r.value);
    }
    forall c: Msg ensures HitCached(dels, c.topic) <==>
                          exists m :: m in frame && m.typ.DEL? && Pattern.Matches(Name(m, name).topic, c.topic) {
      CachedHits(frame, name, c.topic);
    }
  }

  /** A DEL with no value that is the first of its topic in the frame leaves nothing that its pattern
      matches, whatever the same frame publishes and in whatever order. */
  lemma FrameDeletes(st: S.Store, frame: seq<Msg>, name: string, i: nat)
    requires i < |frame| && S.AllComplete(frame) && FirstDel(frame, i) && frame[i].value.None?
    ensures S.AllComplete(Batch(frame, name))
    ensures S.Load(S.Save(st, Batch(frame, name)), Name(frame[i], name).topic) == []
  {
    hide Ordered, S.Save, S.Load, Pattern.Matches, Name, S.Selected, Batch, Publications;
    FrameDeletesExactly(st, frame, name);
    var after, p := S.Save(st, Batch(frame, name)), Name(frame[i], name).topic;
    assert frame[i] in frame;
    P.LoadEmpty(after, p);
  }

  /** A value longer than any that the frame deletes. */
  function Unlisted(frame: seq<Msg>): (v: string)
    ensures forall m :: m in frame && m.value.Some? ==> |m.value.value| < |v|
  {
    if frame == [] then "x"
    else
      var v, last := Unlisted(frame[..|frame| - 1]), frame[|frame| - 1];
      if last.value.Some? then v + last.value.value + "x" else v
  }

  /** A frame deletes every value of a topic if and only if some DEL that is the first of its own topic in
      the frame selects it and carries no value. */
  lemma DeletesEveryValue(frame: seq<Msg>, name: string, t: string)
    ensures (forall v :: Deletes(frame, name, t, v))
            <==> exists i :: 0 <= i < |frame| && FirstDel(frame, i) && S.Selected(Name(frame[i], name).topic, t)
                             && frame[i].value.None?
  {
    hide S.Selected, Name, FirstDel;
    if forall v :: Deletes(frame, name, t, v) {
      var v := Unlisted(frame);
      assert Deletes(frame, name, t, v);
      var i :| 0 <= i < |frame| && FirstDel(frame, i) && S.Selected(Name(frame[i], name).topic, t)
               && (frame[i].value.None? || frame[i].value.value == v);
      FirstIs(frame, i);
      assert frame[i] in frame;
    }
  }

  /** When no DEL of another topic selects it, a topic is deleted in full by the DELs of one topic if and
      only if the first of them in the frame carries no value. */
  lemma DeletesInFull(frame: seq<Msg>, name: string, t: string, f: nat)
    requires f < |frame| && FirstDel(frame, f) && S.Selected(Name(frame[f], name).topic, t)
    requires forall m :: m in frame && m.typ.DEL? && m.topic != frame[f].topic ==> !S.Selected(Name(m, name).topic, t)
    ensures (forall v :: Deletes(frame, name, t, v)) <==> frame[f].value.None?
  {
    hide S.Selected, Name;
    DeletesEveryValue(frame, name, t);
    forall i | 0 <= i < |frame| && FirstDel(frame, i) && S.Selected(Name(frame[i], name).topic, t) ensures i == f {
      assert frame[i] in frame;
    }
  }

  /** A concrete loss: after a DEL of one value, a second DEL of the same topic in the same frame has no
      effect, even one that asks for everything to be deleted. */
  lemma SecondDeleteIsLost(second: Option<string>)
    ensures var frame := [Msg(DEL, "/a", Some("x"), None, None, None), Msg(DEL, "/a", second, None, None, None)];
            var st := S.Store([], [Database.Row("/a", "x", 1, 1, PERSIST), Database.Row("/a", "y", 2, 2, APPEND)]);
            && S.AllComplete(Batch(frame, "n"))
            && (forall r :: r in S.Save(st, Batch(frame, "n")).rows <==> r == st.rows[1])
            && S.Load(S.Save(st, Batch(frame, "n")), "/a") != []
  {
    hide Ordered, S.Save, S.Load, Pattern.Matches, Batch, Publications, Database.Like;
    var frame := [Msg(DEL, "/a", Some("x"), None, None, None), Msg(DEL, "/a", second, None, None, None)];
    var st := S.Store([], [Database.Row("/a", "x", 1, 1, PERSIST), Database.Row("/a", "y", 2, 2, APPEND)]);
    FrameDeletesExactly(st, frame, "n");
    NothingPublished(st, frame, "n");
    P.SelectedItself("/a");
    ReplacePairNone("/a", '/', '@', "/" + "n");
    assert FirstDel(frame, 0) && !FirstDel(frame, 1);
    assert Name(frame[0], "n").topic == "/a";
    assert Deletes(frame, "n", "/a", "x") && !Deletes(frame, "n", "/a", "y");
    assert st.rows[0] in st.rows && st.rows[1] in st.rows;
    P.LoadEmpty(S.Save(st, Batch(frame, "n")), "/a");
  }

  lemma NothingPublished(st: S.Store, frame: seq<Msg>, name: string)
    requires S.AllComplete(frame) && forall m :: m in frame ==> !m.typ.PUB?
    ensures S.AllComplete(Publications(frame, name)) && S.Save(st, Publications(frame, name)) == st
  {
    hide Ordered, ReplacePair;
    BatchComplete(frame, name);
    var ordered := Ordered(frame, name);
    forall i | 0 <= i < |ordered| ensures !ordered[i].typ.PUB? {
      OrderedHas(frame, name, PUB, ordered[i].topic);
    }
    FilterNone(IsPub(), ordered);
  }
}
