/** What a GET or SUB is answered with, said over the messages and what is stored (broker.py
    accept_get_sub_unsub and load_msgs, websocket.py). */
module Answers {
  import opened Wrappers
  import opened Model
  import opened Seqs
  import opened SendQueue
  import opened Broker
  import opened Frame
  import CR = CacheReads
  import S = Store
  import P = StoreProperties
  import Pattern
  import Reduce

  /** The batch holds a GET or SUB of this pattern. */
  ghost predicate AsksFor(ms: seq<Msg>, p: string)
  {
    exists m :: m in ms && (m.typ == GET || m.typ == SUB) && m.topic == p
  }

  /** The pattern finds this value under this topic, in the cache or in the table. */
  ghost predicate FoundBy(st: S.Store, p: string, t: string, v: string)
  {
    || (exists c :: c in st.cache && c.topic == t && c.value == Some(v) && Pattern.Matches(p, t))
    || (exists r :: r in st.rows && r.topic == t && r.value == v && S.Selected(p, t))
  }

  /** Something is sent exactly for a batch with a GET or a SUB. */
  lemma {:induction false} AnsweredWhenAsked(ms: seq<Msg>)
    ensures AnyAsks(ms) <==> exists m :: m in ms && (m.typ == GET || m.typ == SUB)
  {
    if ms != [] {
      var n := |ms| - 1;
      AnsweredWhenAsked(ms[..n]);
      assert ms == ms[..n] + [ms[n]];
    }
  }

  /** What a batch loads: the cached messages that the pattern of one of its GETs or SUBs matches, and for each
      row that one of them selects a message with the row's topic, value, times and mode. */
  lemma LoadedExactly(st: S.Store, ms: seq<Msg>, x: Msg)
    ensures x in Loaded(st, ms) <==>
            exists p :: AsksFor(ms, p) &&
              ((x in st.cache && Pattern.Matches(p, x.topic))
               || exists r :: r in st.rows && S.Selected(p, r.topic)
                    && x == Msg(PUB, r.topic, Some(r.value), Some(r.createdAt), Some(r.updatedAt), Some(r.mode)))
  {
    hide Loaded, S.Load, Pattern.Matches, S.Selected;
    CR.LoadedMembers(st, ms, x);
    if x in Loaded(st, ms) {
      var i :| 0 <= i < |ms| && Asks(ms[i]) && x in S.Load(st, ms[i].topic);
      P.LoadMembers(st, ms[i].topic, x);
      assert ms[i] in ms && AsksFor(ms, ms[i].topic);
    }
    forall p | AsksFor(ms, p) ensures x in S.Load(st, p) ==> x in Loaded(st, ms) {
      var m :| m in ms && (m.typ == GET || m.typ == SUB) && m.topic == p;
      var i :| 0 <= i < |ms| && ms[i] == m;
    }
    forall p ensures x in S.Load(st, p) <==>
                     (x in st.cache && Pattern.Matches(p, x.topic))
                     || exists r :: r in st.rows && S.Selected(p, r.topic) && x == S.MsgOf(r) {
      P.LoadMembers(st, p, x);
    }
  }

  /** Reduction keeps the topics and values of publications, and adds none. */
  lemma ReducedPairs(ms: seq<Msg>, t: string, v: string)
    ensures (exists x :: x in Reduce.ReduceMsgs(ms) && x.typ.PUB? && x.topic == t && x.value == Some(v))
            <==> exists x :: x in ms && x.typ.PUB? && x.topic == t && x.value == Some(v)
  {
    hide Reduce.ReduceMsgs, Reduce.GroupOf, Reduce.MergeAll;
    var r, k := Reduce.ReduceMsgs(ms), Reduce.Key(PUB.Rank(), t, Some(v));
    Reduce.ReduceIsReduction(ms);
    Reduce.GroupMembers(ms, k);
    Reduce.GroupMembers(r, k);
    forall x: Msg ensures Reduce.GroupKey(x) == k <==> x.typ.PUB? && x.topic == t && x.value == Some(v) {
      PublicationKey(x, t, v);
    }
    if x :| x in r && Reduce.GroupKey(x) == k {
      assert Reduce.GroupOf(ms, k) != [];
      assert Reduce.GroupOf(ms, k)[0] in Reduce.GroupOf(ms, k);
    }
    if x :| x in ms && Reduce.GroupKey(x) == k {
      assert x in Reduce.GroupOf(ms, k);
      assert Reduce.GroupOf(r, k)[0] in Reduce.GroupOf(r, k);
    }
  }

  lemma PublicationKey(x: Msg, t: string, v: string)
    ensures Reduce.GroupKey(x) == Reduce.Key(PUB.Rank(), t, Some(v))
            <==> x.typ.PUB? && x.topic == t && x.value == Some(v)
  {
  }

  /** The answer to a batch holds exactly the topics and values that one of its GETs or SUBs finds stored: so a
      new subscriber is sent everything stored that its pattern matches. */
  lemma AnswerHolds(st: S.Store, ms: seq<Msg>, t: string, v: string)
    requires S.Valid(st)
    ensures (exists x :: x in Reduce.ReduceMsgs(Loaded(st, ms)) && x.typ.PUB? && x.topic == t && x.value == Some(v))
            <==> exists p :: AsksFor(ms, p) && FoundBy(st, p, t, v)
  {
    hide Loaded, Reduce.ReduceMsgs, Pattern.Matches, S.Selected, AsksFor;
    ReducedPairs(Loaded(st, ms), t, v);
    if x :| x in Loaded(st, ms) && x.typ.PUB? && x.topic == t && x.value == Some(v) {
      LoadedExactly(st, ms, x);
    }
    if p :| AsksFor(ms, p) && FoundBy(st, p, t, v) {
      if c :| c in st.cache && c.topic == t && c.value == Some(v) && Pattern.Matches(p, t) {
        LoadedExactly(st, ms, c);
      } else {
        var r :| r in st.rows && r.topic == t && r.value == v && S.Selected(p, t);
        LoadedExactly(st, ms, S.MsgOf(r));
      }
    }
  }

  /** The frame holds a GET or SUB that becomes this pattern once the client's name is filled in. */
  ghost predicate FrameAsksFor(frame: seq<Msg>, name: string, p: string)
  {
    exists m :: m in frame && (m.typ == GET || m.typ == SUB) && Name(m, name).topic == p
  }

  lemma FrameAsks(frame: seq<Msg>, name: string, p: string)
    ensures AsksFor(Filter(IsGetSubUnsub(), Ordered(frame, name)), p) <==> FrameAsksFor(frame, name, p)
  {
    hide Ordered, Name;
    var asked := Filter(IsGetSubUnsub(), Ordered(frame, name));
    FilterMembers(IsGetSubUnsub(), Ordered(frame, name));
    OrderedHas(frame, name, GET, p);
    OrderedHas(frame, name, SUB, p);
    if m :| m in Ordered(frame, name) && (m.typ == GET || m.typ == SUB) && m.topic == p {
      assert m in asked;
    }
  }

  /** A whole frame, in any order: it is answered exactly when it holds a GET or a SUB, and the answer holds
      exactly what one of them finds in the store after the frame's own publications and deletions. */
  lemma FrameAnswered(left: S.Store, frame: seq<Msg>, name: string, t: string, v: string)
    requires S.Valid(left)
    ensures var asked := Filter(IsGetSubUnsub(), Ordered(frame, name));
            && (AnyAsks(asked) <==> exists m :: m in frame && (m.typ == GET || m.typ == SUB))
            && ((exists x :: x in Reduce.ReduceMsgs(Loaded(left, asked)) && x.typ.PUB? && x.topic == t
                               && x.value == Some(v))
                <==> exists p :: FrameAsksFor(frame, name, p) && FoundBy(left, p, t, v))
  {
    hide Ordered, Name, Loaded, FoundBy, Reduce.ReduceMsgs, AnyAsks;
    var asked := Filter(IsGetSubUnsub(), Ordered(frame, name));
    AnswerHolds(left, asked, t, v);
    AnsweredWhenAsked(asked);
    forall p ensures AsksFor(asked, p) <==> FrameAsksFor(frame, name, p) {
      FrameAsks(frame, name, p);
    }
    if m :| m in asked && (m.typ == GET || m.typ == SUB) {
      assert AsksFor(asked, m.topic) && FrameAsksFor(frame, name, m.topic);
    }
    if m :| m in frame && (m.typ == GET || m.typ == SUB) {
      assert FrameAsksFor(frame, name, Name(m, name).topic) && AsksFor(asked, Name(m, name).topic);
    }
  }

  /** Nobody else's subscriptions change. */
  lemma {:induction false} OthersStaySubscribed(
    sub: map<string, set<Connection>>, c: Connection, d: Connection, ms: seq<Msg>, p: string)
    requires d != c
    ensures d in PatternSubs(SubAfter(sub, c, ms), p) <==> d in PatternSubs(sub, p)
  {
    if ms != [] {
      OthersStaySubscribed(sub, c, d, ms[..|ms| - 1], p);
    }
  }
}
