/** Nobody is sent what it did not ask for: every value that is sent anywhere, in any interleaved run, goes
    back to a publication and a subscription, or to a query (broker.py get_subs, accept_pub_del and
    accept_get_sub_unsub). */
module Deliveries {
  import opened Interleaving
  import opened NoMissedPublish
  import S = Store
  import Pattern

  type Rows = set<(string, string)>

  // ---------- Where a batch comes from ----------

  /** The connection's handler begins to publish these items: a batch of its own, or its last will. */
  predicate BeginsBatch(s: State, e: Event, d: Conn, items: seq<Item>, dying: bool)
  {
    if dying then e == TakeWill(d) && d in s.wills && items == [Retain(s.wills[d].0, s.wills[d].1)]
    else e.StartPub? && e.c == d && e.batch == items
  }

  /** Event `i` began these items, and the handler has begun no others since. */
  ghost predicate Begun(rows: Rows, es: seq<Event>, i: nat, d: Conn, items: seq<Item>, dying: bool)
  {
    && i < |es| && BeginsBatch(At(rows, es, i), es[i], d, items, dying)
    && forall k :: i < k < |es| ==> es[k].c != d || !(es[k].StartPub? || es[k].TakeWill?)
  }

  /** The step puts the value in the outbox of this connection: it is the batch's next item, the connection
      subscribes to a pattern that matches its topic, and it is not the publisher's own. */
  ghost predicate Invites(s: State, d: Conn, c: Conn, t: string, v: string)
  {
    && d in s.threads && s.threads[d].Dispatching? && s.threads[d].next < |s.threads[d].items|
    && Publishes(s.threads[d].items[s.threads[d].next], t, v)
    && (exists p :: (p, c) in s.subs && Pattern.Matches(p, t))
    && (c == d ==> s.threads[d].dying)
  }

  /** Event `j` queued the value for this connection, for the batch that the handler still works on. */
  ghost predicate Queued(rows: Rows, es: seq<Event>, j: nat, d: Conn, c: Conn, t: string, v: string)
  {
    && j < |es| && es[j] == Dispatch(d) && Invites(At(rows, es, j), d, c, t, v)
    && var ph := At(rows, es, j).threads[d];
       exists i: nat :: i < j && Begun(rows, es, i, d, ph.items, ph.dying)
  }

  // ---------- Where an answer comes from ----------

  /** The step reads the value for a GET or SUB of the connection whose pattern matches it. */
  predicate Finds(s: State, e: Event, c: Conn, t: string, v: string)
  {
    c in s.threads && e.c == c &&
    match s.threads[c]
    case ReadingCache(asks, next, _) =>
      e.ReadCache? && next < |asks| && !asks[next].Unsub? && Pattern.Matches(asks[next].pattern, t)
      && t in s.cache && s.cache[t] == v
    case ReadingRows(asks, next, _) =>
      e.ReadRows? && next < |asks| && !asks[next].Unsub? && S.Selected(asks[next].pattern, t) && (t, v) in s.rows
    case _ => false
  }

  /** Event `j` found the value for the queries that the handler still answers. */
  ghost predicate Found(rows: Rows, es: seq<Event>, j: nat, c: Conn, t: string, v: string)
  {
    && j < |es| && Finds(At(rows, es, j), es[j], c, t, v)
    && forall k :: j < k < |es| ==> es[k].c != c || !es[k].StartAsk?
  }

  // ---------- The invariant ----------

  ghost predicate Explained(rows: Rows, es: seq<Event>, d: Conn, ph: Phase)
  {
    match ph
    case Saving(items, _, dying) => SomeBegun(rows, es, d, items, dying)
    case Dispatching(items, _, box, dying) =>
      SomeBegun(rows, es, d, items, dying) && BoxExplained(rows, es, d, box)
    case Sending(box, _) => BoxExplained(rows, es, d, box)
    case Answering(_, _, mine) => MineExplained(rows, es, d, mine)
    case ReadingCache(asks, next, mine) => next < |asks| && !asks[next].Unsub? && MineExplained(rows, es, d, mine)
    case ReadingRows(asks, next, mine) => next < |asks| && !asks[next].Unsub? && MineExplained(rows, es, d, mine)
    case _ => true
  }

  ghost predicate SomeBegun(rows: Rows, es: seq<Event>, d: Conn, items: seq<Item>, dying: bool)
  {
    exists i: nat :: Begun(rows, es, i, d, items, dying)
  }

  ghost predicate BoxExplained(rows: Rows, es: seq<Event>, d: Conn, box: set<(Conn, string, string)>)
  {
    forall x :: x in box ==> exists j: nat :: Queued(rows, es, j, d, x.0, x.1, x.2)
  }

  ghost predicate MineExplained(rows: Rows, es: seq<Event>, c: Conn, mine: set<(string, string)>)
  {
    forall y :: y in mine ==> exists j: nat :: Found(rows, es, j, c, y.0, y.1)
  }

  /** What an earlier event did stays its doing. */
  lemma Earlier(rows: Rows, es: seq<Event>, i: nat)
    requires i < |es|
    ensures i < |es| - 1 ==> At(rows, es, i) == At(rows, es[..|es| - 1], i)
    ensures i == |es| - 1 ==> At(rows, es, i) == End(rows, es[..|es| - 1])
  {
    assert i < |es| - 1 ==> es[..|es| - 1][..i] == es[..i];
  }

  lemma BegunBefore(rows: Rows, es: seq<Event>, i: nat, d: Conn, items: seq<Item>, dying: bool)
    requires es != [] && Begun(rows, es[..|es| - 1], i, d, items, dying)
    requires es[|es| - 1].c != d || !(es[|es| - 1].StartPub? || es[|es| - 1].TakeWill?)
    ensures Begun(rows, es, i, d, items, dying)
  {
    hide At;
    Earlier(rows, es, i);
  }

  lemma QueuedBefore(rows: Rows, es: seq<Event>, j: nat, d: Conn, c: Conn, t: string, v: string)
    requires es != [] && Queued(rows, es[..|es| - 1], j, d, c, t, v)
    requires es[|es| - 1].c != d || !(es[|es| - 1].StartPub? || es[|es| - 1].TakeWill?)
    ensures Queued(rows, es, j, d, c, t, v)
  {
    hide At, Begun, Pattern.Matches;
    Earlier(rows, es, j);
    var s := At(rows, es[..|es| - 1], j);
    var i: nat :| i < j && Begun(rows, es[..|es| - 1], i, d, s.threads[d].items, s.threads[d].dying);
    BegunBefore(rows, es, i, d, s.threads[d].items, s.threads[d].dying);
  }

  lemma FoundBefore(rows: Rows, es: seq<Event>, j: nat, c: Conn, t: string, v: string)
    requires es != [] && Found(rows, es[..|es| - 1], j, c, t, v)
    requires es[|es| - 1].c != c || !es[|es| - 1].StartAsk?
    ensures Found(rows, es, j, c, t, v)
  {
    hide At, Finds;
    Earlier(rows, es, j);
  }

  lemma BoxBefore(rows: Rows, es: seq<Event>, d: Conn, box: set<(Conn, string, string)>)
    requires es != [] && BoxExplained(rows, es[..|es| - 1], d, box)
    requires es[|es| - 1].c != d || !(es[|es| - 1].StartPub? || es[|es| - 1].TakeWill?)
    ensures BoxExplained(rows, es, d, box)
  {
    hide Queued;
    forall x | x in box ensures exists j: nat :: Queued(rows, es, j, d, x.0, x.1, x.2) {
      var j: nat :| Queued(rows, es[..|es| - 1], j, d, x.0, x.1, x.2);
      QueuedBefore(rows, es, j, d, x.0, x.1, x.2);
    }
  }

  lemma MineBefore(rows: Rows, es: seq<Event>, c: Conn, mine: set<(string, string)>)
    requires es != [] && MineExplained(rows, es[..|es| - 1], c, mine)
    requires es[|es| - 1].c != c || !es[|es| - 1].StartAsk?
    ensures MineExplained(rows, es, c, mine)
  {
    hide Found;
    forall y | y in mine ensures exists j: nat :: Found(rows, es, j, c, y.0, y.1) {
      var j: nat :| Found(rows, es[..|es| - 1], j, c, y.0, y.1);
      FoundBefore(rows, es, j, c, y.0, y.1);
    }
  }

  /** A handler that did not move, or moved on within its batch or its queries. */
  lemma SomeBegunBefore(rows: Rows, es: seq<Event>, d: Conn, items: seq<Item>, dying: bool)
    requires es != [] && SomeBegun(rows, es[..|es| - 1], d, items, dying)
    requires es[|es| - 1].c != d || !(es[|es| - 1].StartPub? || es[|es| - 1].TakeWill?)
    ensures SomeBegun(rows, es, d, items, dying)
  {
    hide Begun;
    var i: nat :| Begun(rows, es[..|es| - 1], i, d, items, dying);
    BegunBefore(rows, es, i, d, items, dying);
  }

  lemma OtherExplained(rows: Rows, es: seq<Event>, d: Conn, ph: Phase)
    requires es != [] && es[|es| - 1].c != d && Explained(rows, es[..|es| - 1], d, ph)
    ensures Explained(rows, es, d, ph)
  {
    hide Begun, BoxExplained, MineExplained;
    match ph
    case Saving(items, _, dying) => SomeBegunBefore(rows, es, d, items, dying);
    case Dispatching(items, _, box, dying) =>
      SomeBegunBefore(rows, es, d, items, dying);
      BoxBefore(rows, es, d, box);
    case Sending(box, _) => BoxBefore(rows, es, d, box);
    case Answering(_, _, mine) => MineBefore(rows, es, d, mine);
    case ReadingCache(_, _, mine) => MineBefore(rows, es, d, mine);
    case ReadingRows(_, _, mine) => MineBefore(rows, es, d, mine);
    case _ =>
  }

  // ---------- The step of a handler ----------

  /** The last event of the run queues what it adds to the outbox. */
  lemma DispatchQueues(rows: Rows, es: seq<Event>, d: Conn, x: (Conn, string, string))
    requires es != [] && es[|es| - 1] == Dispatch(d) && Enabled(End(rows, es[..|es| - 1]), Dispatch(d))
    requires Explained(rows, es[..|es| - 1], d, End(rows, es[..|es| - 1]).threads[d])
    requires var s := End(rows, es[..|es| - 1]);
             x in PhaseAfter(s, Dispatch(d)).box && x !in s.threads[d].box
    ensures Queued(rows, es, |es| - 1, d, x.0, x.1, x.2)
  {
    hide At, End, Begun, BoxExplained, Invites;
    var n := |es| - 1;
    var s := End(rows, es[..n]);
    Earlier(rows, es, n);
    DispatchInvites(s, d, x);
    SomeBegunBefore(rows, es, d, s.threads[d].items, s.threads[d].dying);
    var i: nat :| Begun(rows, es, i, d, s.threads[d].items, s.threads[d].dying);
    BegunIsEarlier(rows, es, i, d, s.threads[d].items, s.threads[d].dying);
  }

  lemma BegunIsEarlier(rows: Rows, es: seq<Event>, i: nat, d: Conn, items: seq<Item>, dying: bool)
    requires Begun(rows, es, i, d, items, dying) && es[|es| - 1] == Dispatch(d)
    ensures i < |es| - 1
  {
  }

  lemma DispatchInvites(s: State, d: Conn, x: (Conn, string, string))
    requires Enabled(s, Dispatch(d)) && x in PhaseAfter(s, Dispatch(d)).box && x !in s.threads[d].box
    ensures Invites(s, d, x.0, x.1, x.2)
  {
    hide Pattern.Matches;
    var item := s.threads[d].items[s.threads[d].next];
    var y :| y in s.subs && Pattern.Matches(y.0, item.topic) && y.1 == x.0;
    assert (y.0, x.0) in s.subs;
  }

  /** The last event of the run finds what it adds to the answer. */
  lemma ReadFinds(rows: Rows, es: seq<Event>, c: Conn, y: (string, string))
    requires es != [] && (es[|es| - 1] == ReadCache(c) || es[|es| - 1] == ReadRows(c))
    requires Enabled(End(rows, es[..|es| - 1]), es[|es| - 1])
    requires Explained(rows, es[..|es| - 1], c, End(rows, es[..|es| - 1]).threads[c])
    requires var s := End(rows, es[..|es| - 1]);
             y in PhaseAfter(s, es[|es| - 1]).mine && y !in s.threads[c].mine
    ensures Found(rows, es, |es| - 1, c, y.0, y.1)
  {
    hide At, End, Pattern.Matches, S.Selected, MineExplained;
    Earlier(rows, es, |es| - 1);
  }

  lemma OwnExplained(rows: Rows, es: seq<Event>)
    requires es != [] && Enabled(End(rows, es[..|es| - 1]), es[|es| - 1])
    requires var s, e := End(rows, es[..|es| - 1]), es[|es| - 1];
             e.c in s.threads ==> Explained(rows, es[..|es| - 1], e.c, s.threads[e.c])
    ensures var s, e := End(rows, es[..|es| - 1]), es[|es| - 1]; Explained(rows, es, e.c, PhaseAfter(s, e))
  {
    hide At, End, Begun, Queued, Found, Pattern.Matches, S.Selected, BoxExplained, MineExplained;
    hide HalfDone, Recipients, Mail, MailFor, FoundCached, FoundRows;
    var s, e := End(rows, es[..|es| - 1]), es[|es| - 1];
    var ph := if e.c in s.threads then s.threads[e.c] else Idle;
    match e
    case StartPub(d, batch) => BeginsNow(rows, es, d, batch, false);
    case TakeWill(d) =>
      if d in s.wills {
        BeginsNow(rows, es, d, [Retain(s.wills[d].0, s.wills[d].1)], true);
      }
    case TouchCache(d) => SomeBegunBefore(rows, es, d, ph.items, ph.dying);
    case Commit(d) =>
      SomeBegunBefore(rows, es, d, ph.items, ph.dying);
      EmptyExplained(rows, es, d);
    case Dispatch(d) =>
      SomeBegunBefore(rows, es, d, ph.items, ph.dying);
      DispatchExplained(rows, es, d);
    case StartSend(d) => BoxBefore(rows, es, d, ph.box);
    case SendTo(d, to) =>
      BoxBefore(rows, es, d, ph.box);
      LessExplained(rows, es, d, ph.box, to);
    case StartAsk(d, _) => EmptyExplained(rows, es, d);
    case Answer(d) => MineBefore(rows, es, d, ph.mine);
    case ReadCache(d) => ReadExplained(rows, es, d);
    case ReadRows(d) => ReadExplained(rows, es, d);
    case _ =>
  }

  lemma BeginsNow(rows: Rows, es: seq<Event>, d: Conn, items: seq<Item>, dying: bool)
    requires es != [] && BeginsBatch(End(rows, es[..|es| - 1]), es[|es| - 1], d, items, dying)
    ensures Begun(rows, es, |es| - 1, d, items, dying)
  {
    Earlier(rows, es, |es| - 1);
  }

  lemma EmptyExplained(rows: Rows, es: seq<Event>, d: Conn)
    ensures BoxExplained(rows, es, d, {}) && MineExplained(rows, es, d, {})
  {
  }

  lemma LessExplained(rows: Rows, es: seq<Event>, d: Conn, box: set<(Conn, string, string)>, to: Conn)
    requires BoxExplained(rows, es, d, box)
    ensures BoxExplained(rows, es, d, box - MailFor(box, to))
  {
    hide Queued;
  }

  lemma DispatchExplained(rows: Rows, es: seq<Event>, d: Conn)
    requires es != [] && es[|es| - 1] == Dispatch(d) && Enabled(End(rows, es[..|es| - 1]), Dispatch(d))
    requires Explained(rows, es[..|es| - 1], d, End(rows, es[..|es| - 1]).threads[d])
    ensures BoxExplained(rows, es, d, PhaseAfter(End(rows, es[..|es| - 1]), Dispatch(d)).box)
  {
    hide At, End, Begun, Queued, Pattern.Matches, Recipients, Mail;
    var s := End(rows, es[..|es| - 1]);
    BoxBefore(rows, es, d, s.threads[d].box);
    var box := PhaseAfter(s, Dispatch(d)).box;
    forall x | x in box ensures exists j: nat :: Queued(rows, es, j, d, x.0, x.1, x.2) {
      if x !in s.threads[d].box {
        DispatchQueues(rows, es, d, x);
      }
    }
  }

  lemma ReadExplained(rows: Rows, es: seq<Event>, c: Conn)
    requires es != [] && (es[|es| - 1] == ReadCache(c) || es[|es| - 1] == ReadRows(c))
    requires Enabled(End(rows, es[..|es| - 1]), es[|es| - 1])
    requires Explained(rows, es[..|es| - 1], c, End(rows, es[..|es| - 1]).threads[c])
    ensures MineExplained(rows, es, c, PhaseAfter(End(rows, es[..|es| - 1]), es[|es| - 1]).mine)
  {
    hide At, End, Found, Pattern.Matches, S.Selected, FoundCached, FoundRows;
    var s, e := End(rows, es[..|es| - 1]), es[|es| - 1];
    MineBefore(rows, es, c, s.threads[c].mine);
    var mine := PhaseAfter(s, e).mine;
    forall y | y in mine ensures exists j: nat :: Found(rows, es, j, c, y.0, y.1) {
      if y !in s.threads[c].mine {
        ReadFinds(rows, es, c, y);
      }
    }
  }

  lemma {:induction false} AllExplained(rows: Rows, es: seq<Event>, d: Conn)
    requires IsRun(Init(rows), es) && d in End(rows, es).threads
    ensures Explained(rows, es, d, End(rows, es).threads[d])
  {
    hide Enabled, Next, Explained, At;
    if es != [] {
      var n := |es| - 1;
      var s, e := End(rows, es[..n]), es[n];
      OthersStay(s, e);
      if d in s.threads {
        AllExplained(rows, es[..n], d);
      }
      if e.c == d {
        OwnExplained(rows, es);
        Moves(s, e);
      } else {
        OtherExplained(rows, es, d, s.threads[d]);
      }
    }
  }

  lemma Moves(s: State, e: Event)
    requires Enabled(s, e)
    ensures Next(s, e).threads[e.c] == PhaseAfter(s, e)
  {
    hide PhaseAfter, Effect;
  }

  // ---------- Safety ----------

  /** Over every run: a value sent to a connection in a publication was queued by an earlier event, when it
      was the next item of the batch that this publisher has begun last; at that moment the connection
      subscribed to a pattern that matches its topic, and it was not the publisher itself, unless for its
      last will. A value sent in an answer was found by an earlier event, in the cache or the table, for a
      GET or SUB of that connection whose pattern matches it, among the queries it asked last. */
  lemma {:induction false} OnlyWhatWasAskedFor(rows: Rows, es: seq<Event>, n: nat, c: Conn, t: string, v: string)
    requires IsRun(Init(rows), es) && n < |es|
    requires Enabled(At(rows, es, n), es[n]) && Sends(At(rows, es, n), es[n], c, t, v)
    ensures es[n].SendTo? ==> es[n].to == c && exists j: nat :: j < n && Queued(rows, es[..n], j, es[n].c, c, t, v)
    ensures es[n].Reply? ==> es[n].c == c && exists j: nat :: j < n && Found(rows, es[..n], j, c, t, v)
    ensures es[n].SendTo? || es[n].Reply?
  {
    hide Queued, Found, Enabled, Next, Sends;
    PrefixIsRun(rows, es, n);
    var s := At(rows, es, n);
    SendsWhatItHolds(s, es[n], c, t, v);
    AllExplained(rows, es[..n], es[n].c);
    if es[n].SendTo? {
      var j: nat :| Queued(rows, es[..n], j, es[n].c, c, t, v);
      InRange(rows, es[..n], j, es[n].c, c, t, v);
    } else {
      var j: nat :| Found(rows, es[..n], j, c, t, v);
      InRange(rows, es[..n], j, c, c, t, v);
    }
  }

  lemma SendsWhatItHolds(s: State, e: Event, c: Conn, t: string, v: string)
    requires Enabled(s, e) && Sends(s, e, c, t, v)
    ensures e.c in s.threads
    ensures (e.SendTo? && e.to == c && s.threads[e.c].Sending? && (c, t, v) in s.threads[e.c].box)
            || (e.Reply? && e.c == c && s.threads[c].Answering? && (t, v) in s.threads[c].mine)
  {
    hide HalfDone;
  }

  lemma InRange(rows: Rows, es: seq<Event>, j: nat, d: Conn, c: Conn, t: string, v: string)
    ensures Queued(rows, es, j, d, c, t, v) ==> j < |es|
    ensures Found(rows, es, j, c, t, v) ==> j < |es|
  {
  }

  // ---------- Subscriptions ----------

  /** The step registers the pattern for the connection. */
  predicate Registers(s: State, e: Event, c: Conn, p: string)
  {
    && e == Answer(c) && c in s.threads && s.threads[c].Answering? && s.threads[c].next < |s.threads[c].asks|
    && s.threads[c].asks[s.threads[c].next] == Sub(p)
  }

  /** The step ends it: an UNSUB of this pattern, or the end of the connection. */
  predicate Unregisters(s: State, e: Event, c: Conn, p: string)
  {
    || e == DropSubs(c)
    || (&& e == Answer(c) && c in s.threads && s.threads[c].Answering? && s.threads[c].next < |s.threads[c].asks|
        && s.threads[c].asks[s.threads[c].next] == Unsub(p))
  }

  /** Event `i` registered the pattern, and nothing since has ended it. */
  ghost predicate Registered(rows: Rows, es: seq<Event>, i: nat, c: Conn, p: string)
  {
    && i < |es| && Registers(At(rows, es, i), es[i], c, p)
    && forall k :: i < k < |es| ==> !Unregisters(At(rows, es, k), es[k], c, p)
  }

  lemma SubsTable(s: State, e: Event)
    requires Enabled(s, e)
    ensures e.Answer? ==>
              && e.c in s.threads && s.threads[e.c].Answering? && s.threads[e.c].next < |s.threads[e.c].asks|
              && Next(s, e).subs == match s.threads[e.c].asks[s.threads[e.c].next]
                                    case Get(_) => s.subs
                                    case Sub(p) => s.subs + {(p, e.c)}
                                    case Unsub(p) => s.subs - {(p, e.c)}
    ensures e.DropSubs? ==> Next(s, e).subs == SubsWithout(s.subs, e.c)
    ensures !e.Answer? && !e.DropSubs? ==> Next(s, e).subs == s.subs
  {
    hide Pattern.Matches, S.Selected, CacheAfter, RowsAfterAll, HalfDone, Visible, Recipients, PhaseAfter;
    hide Owned, Mail, MailFor, MailOfAll, FoundCached, FoundRows, Published, SubsWithout;
  }

  lemma SubsStep(s: State, e: Event, c: Conn, p: string)
    requires Enabled(s, e)
    ensures (p, c) in Next(s, e).subs
            <==> Registers(s, e, c, p) || ((p, c) in s.subs && !Unregisters(s, e, c, p))
  {
    hide Enabled, Next;
    SubsTable(s, e);
  }

  /** After every run a connection subscribes to a pattern if and only if a SUB of it was answered, and neither
      an UNSUB of it nor the end of the connection came after that. */
  lemma {:induction false} SubscribedByEvents(rows: Rows, es: seq<Event>, c: Conn, p: string)
    requires IsRun(Init(rows), es)
    ensures (p, c) in End(rows, es).subs <==> exists i: nat :: Registered(rows, es, i, c, p)
  {
    hide Enabled, Next, Registers, Unregisters, Registered;
    if es == [] {
      NothingRegistered(rows, c, p);
    } else {
      var n := |es| - 1;
      SubscribedByEvents(rows, es[..n], c, p);
      SubsStep(End(rows, es[..n]), es[n], c, p);
      RegisteredStep(rows, es, c, p);
    }
  }

  lemma NothingRegistered(rows: Rows, c: Conn, p: string)
    ensures forall i: nat :: !Registered(rows, [], i, c, p)
  {
  }

  lemma RegisteredStep(rows: Rows, es: seq<Event>, c: Conn, p: string)
    requires es != []
    ensures var n := |es| - 1;
            (exists i: nat :: Registered(rows, es, i, c, p))
            <==> Registers(At(rows, es, n), es[n], c, p)
                 || (!Unregisters(At(rows, es, n), es[n], c, p)
                     && exists i: nat :: Registered(rows, es[..n], i, c, p))
  {
    hide Registers, Unregisters, At;
    var n := |es| - 1;
    forall k: nat | k < n ensures At(rows, es, k) == At(rows, es[..n], k) {
      Earlier(rows, es, k);
    }
    if Registers(At(rows, es, n), es[n], c, p) {
      assert Registered(rows, es, n, c, p);
    }
    if i: nat :| Registered(rows, es, i, c, p) {
      assert i < n ==> Registered(rows, es[..n], i, c, p);
    }
    if i: nat :| Registered(rows, es[..n], i, c, p) {
      assert !Unregisters(At(rows, es, n), es[n], c, p) ==> Registered(rows, es, i, c, p);
    }
  }
}
