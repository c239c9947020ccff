/** The broker under concurrency: the handlers of all connections interleave, one step for each block
    under a lock, each table read, each commit and each frame sent (broker.py, websocket.py). */
module Interleaving {
  import opened Wrappers
  import S = Store
  import Pattern

  type Conn = nat

  /** A PUB by mode, or a DEL with its optional value. */
  datatype Item =
    | Send(topic: string, value: string)
    | Retain(topic: string, value: string)
    | Persist(topic: string, value: string)
    | Append(topic: string, value: string)
    | Del(pattern: string, only: Option<string>)

  datatype Ask = Get(pattern: string) | Sub(pattern: string) | Unsub(pattern: string)

  /** Where a connection's handler stands. A dying handler publishes the last will, with no sender. */
  datatype Phase =
    | Idle
    | Saving(items: seq<Item>, next: nat, dying: bool)
    | Dispatching(items: seq<Item>, next: nat, box: set<(Conn, string, string)>, dying: bool)
    | Sending(box: set<(Conn, string, string)>, dying: bool)
    | Answering(asks: seq<Ask>, next: nat, mine: set<(string, string)>)
    | ReadingCache(asks: seq<Ask>, next: nat, mine: set<(string, string)>)
    | ReadingRows(asks: seq<Ask>, next: nat, mine: set<(string, string)>)
    | LeavingConns
    | LeavingSubs
    | LeavingWills
    | Gone

  /** What a transaction had done when a call in it failed: the items it had finished, and the rows that the
      next one had already removed. Nothing rolls it back while its handler lives. */
  datatype Left = Left(items: seq<Item>, removed: set<(string, string)>)

  /** The four shared tables, the committed rows and the transactions left open, and what the run has done.
      For each connection and value, since a publication of that value was last begun: was it sent there, did
      the connection begin that publication itself, did an operation that carried it there fail. For each
      connection: which last will was taken, and how often it was stored. */
  datatype State = State(
    cache: map<string, string>,
    rows: set<(string, string)>,
    open: map<Conn, Left>,
    conns: set<Conn>,
    subs: set<(string, Conn)>,
    wills: map<Conn, (string, string)>,
    threads: map<Conn, Phase>,
    sent: set<(Conn, string, string)>,
    own: set<(Conn, string, string)>,
    lost: set<(Conn, string, string)>,
    taken: map<Conn, (string, string)>,
    willed: multiset<Conn>)

  /** The server starts with the rows of its database and nothing else. */
  function Init(rows: set<(string, string)>): State
  {
    State(map[], rows, map[], {}, {}, map[], map[], {}, {}, {}, map[], multiset{})
  }

  datatype Event =
    | Open(c: Conn)
    | StartPub(c: Conn, batch: seq<Item>)
    | TouchCache(c: Conn)
    | Commit(c: Conn)
    | Dispatch(c: Conn)
    | StartSend(c: Conn)
    | SendTo(c: Conn, to: Conn)
    | SendFails(c: Conn)
    | EndSend(c: Conn)
    | StartAsk(c: Conn, asked: seq<Ask>)
    | Answer(c: Conn)
    | ReadCache(c: Conn)
    | ReadRows(c: Conn)
    | Reply(c: Conn)
    | ReplyFails(c: Conn)
    | SetWill(c: Conn, topic: string, value: string)
    | Close(c: Conn)
    | DbFails(c: Conn, done: nat, removed: set<(string, string)>)
    | DropConn(c: Conn)
    | DropSubs(c: Conn)
    | TakeWill(c: Conn)

  // ---------- The effect of a batch ----------

  predicate Publishes(i: Item, t: string, v: string)
  {
    !i.Del? && i.topic == t && i.value == v
  }

  function Published(items: seq<Item>): set<(string, string)>
  {
    set i | i in items && !i.Del? :: (i.topic, i.value)
  }

  function CacheAfter(cache: map<string, string>, i: Item): map<string, string>
  {
    match i
    case Send(_, _) => cache
    case Retain(t, v) => cache[t := v]
    case Persist(t, _) => cache - {t}
    case Append(t, _) => cache - {t}
    case Del(p, _) => map t | t in cache && !Pattern.Matches(p, t) :: cache[t]
  }

  function RowsAfter(rows: set<(string, string)>, i: Item): set<(string, string)>
  {
    match i
    case Send(_, _) => rows
    case Retain(_, _) => rows
    case Persist(t, v) => (set r | r in rows && !(r.0 == t && r.1 != v)) + {(t, v)}
    case Append(t, v) => rows + {(t, v)}
    case Del(p, only) => set r | r in rows && !(S.Selected(p, r.0) && (only.None? || r.1 == only.value))
  }

  /** The transaction that the commit makes visible. */
  function RowsAfterAll(rows: set<(string, string)>, items: seq<Item>): set<(string, string)>
  {
    if items == [] then rows else RowsAfter(RowsAfterAll(rows, items[..|items| - 1]), items[|items| - 1])
  }

  /** What the open transaction of a failed batch adds to the next commit of its handler, that of the last
      will. */
  function Visible(rows: set<(string, string)>, left: Left): set<(string, string)>
  {
    RowsAfterAll(rows, left.items) - left.removed
  }

  /** get_subs: everyone with a pattern that matches; a DEL reaches no one. */
  function Recipients(subs: set<(string, Conn)>, i: Item): set<Conn>
  {
    if i.Del? then {} else set x | x in subs && Pattern.Matches(x.0, i.topic) :: x.1
  }

  // ---------- What the steps collect ----------

  /** Values, as sent to or published by one connection. */
  function Owned(c: Conn, values: set<(string, string)>): set<(Conn, string, string)>
  {
    set x | x in values :: (c, x.0, x.1)
  }

  function Mail(to: set<Conn>, i: Item): set<(Conn, string, string)>
  {
    if i.Del? then {} else set d | d in to :: (d, i.topic, i.value)
  }

  function MailFor(box: set<(Conn, string, string)>, to: Conn): set<(Conn, string, string)>
  {
    set x | x in box && x.0 == to
  }

  /** Everyone to whom the publications of a batch were to go. */
  function MailOfAll(subs: set<(string, Conn)>, items: seq<Item>): set<(Conn, string, string)>
  {
    set i, d | i in items && !i.Del? && d in Recipients(subs, i) :: (d, i.topic, i.value)
  }

  /** What is on record of other values. */
  function Without(record: set<(Conn, string, string)>, values: set<(string, string)>): set<(Conn, string, string)>
  {
    set x | x in record && (x.1, x.2) !in values
  }

  /** A publication of these values begins: what happened to them before is forgotten. */
  function Renewed(s: State, values: set<(string, string)>): State
  {
    s.(sent := Without(s.sent, values), own := Without(s.own, values), lost := Without(s.lost, values))
  }

  function FoundCached(cache: map<string, string>, p: string): set<(string, string)>
  {
    set t | t in cache && Pattern.Matches(p, t) :: (t, cache[t])
  }

  function FoundRows(rows: set<(string, string)>, p: string): set<(string, string)>
  {
    set r | r in rows && S.Selected(p, r.0)
  }

  function SubsWithout(subs: set<(string, Conn)>, c: Conn): set<(string, Conn)>
  {
    set x | x in subs && x.1 != c
  }

  // ---------- Steps ----------

  /** A failing call leaves the items before it done, and rows removed that its own item removes. */
  predicate HalfDone(items: seq<Item>, done: nat, removed: set<(string, string)>)
  {
    forall r :: r in removed ==> done < |items| && r !in RowsAfter({r}, items[done])
  }

  predicate Enabled(s: State, e: Event)
  {
    if e.Open? then e.c !in s.threads
    else
      e.c in s.threads &&
      var ph := s.threads[e.c];
      match e
      case StartPub(_, _) => ph.Idle?
      case TouchCache(_) => ph.Saving? && ph.next < |ph.items|
      case Commit(_) => ph.Saving? && ph.next == |ph.items|
      case Dispatch(_) => ph.Dispatching? && ph.next < |ph.items|
      case StartSend(_) => ph.Dispatching? && ph.next == |ph.items|
      case SendTo(_, _) => ph.Sending?
      case SendFails(_) => ph.Sending? && ph.box != {}
      case EndSend(_) => ph.Sending? && ph.box == {}
      case StartAsk(_, _) => ph.Idle?
      case Answer(_) => ph.Answering? && ph.next < |ph.asks|
      case ReadCache(_) => ph.ReadingCache? && ph.next < |ph.asks|
      case ReadRows(_) => ph.ReadingRows? && ph.next < |ph.asks|
      case Reply(_) => ph.Answering? && ph.next == |ph.asks|
      case ReplyFails(_) => ph.Answering? && ph.next == |ph.asks|
      case SetWill(_, _, _) => ph.Idle?
      case Close(_) => ph.Idle?
      case DbFails(_, done, removed) =>
        || (ph.Saving? && ph.next > 0 && ph.next - 1 <= done <= ph.next <= |ph.items|
            && HalfDone(ph.items, done, removed))
        || ph.ReadingRows?
      case DropConn(_) => ph.LeavingConns?
      case DropSubs(_) => ph.LeavingSubs?
      case TakeWill(_) => ph.LeavingWills?
  }

  /** An exception ends the handler: it goes on to leave, unless it was leaving already. */
  function Raised(dying: bool): Phase
  {
    if dying then Gone else LeavingConns
  }

  /** Where the step takes the handler that makes it. */
  function PhaseAfter(s: State, e: Event): Phase
    requires Enabled(s, e)
  {
    if e.Open? then Idle
    else
      var ph := s.threads[e.c];
      match e
      case StartPub(_, batch) => Saving(batch, 0, false)
      case TouchCache(_) => Saving(ph.items, ph.next + 1, ph.dying)
      case Commit(_) => Dispatching(ph.items, 0, {}, ph.dying)
      case Dispatch(c) =>
        var to := Recipients(s.subs, ph.items[ph.next]) - (if ph.dying then {} else {c});
        Dispatching(ph.items, ph.next + 1, ph.box + Mail(to, ph.items[ph.next]), ph.dying)
      case StartSend(_) => Sending(ph.box, ph.dying)
      case SendTo(_, to) => Sending(ph.box - MailFor(ph.box, to), ph.dying)
      case SendFails(_) => Raised(ph.dying)
      case EndSend(_) => if ph.dying then Gone else Idle
      case StartAsk(_, asked) => Answering(asked, 0, {})
      case Answer(_) =>
        if ph.asks[ph.next].Unsub? then Answering(ph.asks, ph.next + 1, ph.mine)
        else ReadingCache(ph.asks, ph.next, ph.mine)
      case ReadCache(_) =>
        ReadingRows(ph.asks, ph.next, ph.mine + FoundCached(s.cache, ph.asks[ph.next].pattern))
      case ReadRows(_) =>
        Answering(ph.asks, ph.next + 1, ph.mine + FoundRows(s.rows, ph.asks[ph.next].pattern))
      case Reply(_) => Idle
      case ReplyFails(_) => LeavingConns
      case SetWill(_, _, _) => Idle
      case Close(_) => LeavingConns
      case DbFails(_, _, _) => if ph.Saving? then Raised(ph.dying) else LeavingConns
      case DropConn(_) => LeavingSubs
      case DropSubs(_) => LeavingWills
      case TakeWill(c) =>
        if c in s.wills then Saving([Retain(s.wills[c].0, s.wills[c].1)], 0, true) else Gone
  }

  /** The values that the step begins to publish. */
  function Started(s: State, e: Event): set<(string, string)>
  {
    match e
    case StartPub(_, batch) => Published(batch)
    case TakeWill(c) => if c in s.wills then {s.wills[c]} else {}
    case _ => {}
  }

  /** What the step does to the tables, and adds to the record of the run. */
  function Effect(s: State, e: Event): State
    requires Enabled(s, e)
  {
    match e
    case Open(c) => s.(conns := s.conns + {c})
    case StartPub(c, batch) =>
      var renewed := Renewed(s, Published(batch));
      renewed.(own := renewed.own + Owned(c, Published(batch)))
    case TouchCache(c) =>
      var ph := s.threads[c];
      s.(cache := CacheAfter(s.cache, ph.items[ph.next]),
         willed := if ph.dying && ph.next == 0 then s.willed + multiset{c} else s.willed)
    case Commit(c) =>
      if c in s.open then
        s.(rows := RowsAfterAll(Visible(s.rows, s.open[c]), s.threads[c].items), open := s.open - {c},
           lost := s.lost + MailOfAll(s.subs, s.open[c].items))
      else s.(rows := RowsAfterAll(s.rows, s.threads[c].items))
    case SendTo(c, to) => s.(sent := s.sent + MailFor(s.threads[c].box, to))
    case SendFails(c) => s.(lost := s.lost + s.threads[c].box)
    case Answer(c) =>
      (match s.threads[c].asks[s.threads[c].next]
       case Get(_) => s
       case Sub(p) => s.(subs := s.subs + {(p, c)})
       case Unsub(p) => s.(subs := s.subs - {(p, c)}))
    case Reply(c) => s.(sent := s.sent + Owned(c, s.threads[c].mine))
    case SetWill(c, t, v) => s.(wills := s.wills[c := (t, v)])
    case DbFails(c, done, removed) =>
      if s.threads[c].Saving? then
        s.(lost := s.lost + MailOfAll(s.subs, s.threads[c].items),
           open := s.open[c := Left(s.threads[c].items[..done], removed)])
      else s
    case DropConn(c) => s.(conns := s.conns - {c})
    case DropSubs(c) => s.(subs := SubsWithout(s.subs, c))
    case TakeWill(c) =>
      if c in s.wills then
        Renewed(s, {s.wills[c]}).(wills := s.wills - {c}, taken := s.taken[c := s.wills[c]])
      else s
    case _ => s
  }

  function Next(s: State, e: Event): State
    requires Enabled(s, e)
  {
    Effect(s, e).(threads := s.threads[e.c := PhaseAfter(s, e)])
  }

  ghost predicate IsRun(s: State, es: seq<Event>)
  {
    if es == [] then true
    else IsRun(s, es[..|es| - 1]) && Enabled(Reached(s, es[..|es| - 1]), es[|es| - 1])
  }

  function Reached(s: State, es: seq<Event>): State
  {
    if es == [] then s
    else
      var before := Reached(s, es[..|es| - 1]);
      if Enabled(before, es[|es| - 1]) then Next(before, es[|es| - 1]) else before
  }

  // ---------- Invariants ----------

  /** The handler serves an open connection. */
  predicate Live(ph: Phase)
  {
    match ph
    case Saving(_, _, dying) => !dying
    case Dispatching(_, _, _, dying) => !dying
    case Sending(_, dying) => !dying
    case LeavingConns => false
    case LeavingSubs => false
    case LeavingWills => false
    case Gone => false
    case _ => true
  }

  ghost predicate WellFormed(ph: Phase)
  {
    match ph
    case Saving(items, next, dying) => next <= |items| && (dying ==> |items| == 1 && items[0].Retain?)
    case Dispatching(items, next, _, _) => next <= |items|
    case Answering(asks, next, _) => next <= |asks|
    case ReadingCache(asks, next, _) => next < |asks|
    case ReadingRows(asks, next, _) => next < |asks|
    case _ => true
  }

  ghost predicate Structure(s: State)
  {
    && (forall c :: c in s.threads ==> WellFormed(s.threads[c]))
    && (forall c, p :: Subscriber(s, c, p) ==> OwnKnown(s, c, p))
  }

  /** What a subscriber is about to store of its own matching publications is its own, or has reached it
      some other way. */
  ghost predicate OwnKnown(s: State, c: Conn, p: string)
    requires c in s.threads
  {
    s.threads[c].Saving? ==>
      forall i :: i in s.threads[c].items && !i.Del? && Pattern.Matches(p, i.topic) ==>
        Delivered(s, c, i.topic, i.value)
  }

  /** The handler will still hand this value to connection `c`, or to whoever subscribes by then. */
  ghost predicate PendingAt(ph: Phase, c: Conn, t: string, v: string)
  {
    match ph
    case Saving(items, _, _) => exists j :: 0 <= j < |items| && Publishes(items[j], t, v)
    case Dispatching(items, next, box, _) =>
      (c, t, v) in box || exists j :: next <= j < |items| && Publishes(items[j], t, v)
    case Sending(box, _) => (c, t, v) in box
    case _ => false
  }

  predicate MineAt(ph: Phase, t: string, v: string)
  {
    match ph
    case Answering(_, _, mine) => (t, v) in mine
    case ReadingCache(_, _, mine) => (t, v) in mine
    case ReadingRows(_, _, mine) => (t, v) in mine
    case _ => false
  }

  /** The value was sent to the connection, came from it, or was dropped by a failure. */
  predicate Settled(s: State, c: Conn, t: string, v: string)
  {
    (c, t, v) in s.sent || (c, t, v) in s.own || (c, t, v) in s.lost
  }

  /** The value is settled, or on its way to the connection. */
  ghost predicate Delivered(s: State, c: Conn, t: string, v: string)
    requires c in s.threads
  {
    || Settled(s, c, t, v)
    || MineAt(s.threads[c], t, v)
    || exists d :: d in s.threads && d != c && PendingAt(s.threads[d], c, t, v)
  }

  predicate WillReadCache(ph: Phase, t: string)
  {
    ph.ReadingCache? && ph.next < |ph.asks| && Pattern.Matches(ph.asks[ph.next].pattern, t)
  }

  predicate WillReadRows(ph: Phase, t: string)
  {
    (ph.ReadingCache? || ph.ReadingRows?) && ph.next < |ph.asks| && S.Selected(ph.asks[ph.next].pattern, t)
  }

  ghost predicate Subscriber(s: State, c: Conn, p: string)
  {
    (p, c) in s.subs && c in s.threads && Live(s.threads[c])
  }

  /** No open subscriber is owed a cached value without a step under way that brings it. */
  ghost predicate CacheCovered(s: State)
  {
    forall c, p, t :: Subscriber(s, c, p) && t in s.cache && Pattern.Matches(p, t) ==>
                        Delivered(s, c, t, s.cache[t]) || WillReadCache(s.threads[c], t)
  }

  ghost predicate RowsCovered(s: State)
  {
    forall c, p, r :: Subscriber(s, c, p) && r in s.rows && S.Selected(p, r.0) ==>
                        Delivered(s, c, r.0, r.1) || WillReadRows(s.threads[c], r.0)
  }

  /** Handlers that have not yet dropped their connection, subscriptions, or last will. */
  predicate KeepsConn(ph: Phase) { Live(ph) || ph.LeavingConns? }

  predicate KeepsSubs(ph: Phase) { KeepsConn(ph) || ph.LeavingSubs? }

  predicate KeepsWill(ph: Phase) { KeepsSubs(ph) || ph.LeavingWills? }

  /** Only open connections, and those on their way out, are connected, subscribe, or have a will set. */
  ghost predicate TablesOpen(s: State)
  {
    && (forall c :: c in s.conns ==> c in s.threads && KeepsConn(s.threads[c]))
    && (forall x :: x in s.subs ==> x.1 in s.threads && KeepsSubs(s.threads[x.1]))
    && (forall c :: c in s.wills ==> c in s.threads && KeepsWill(s.threads[c]))
  }

  /** A last will is taken once, on leaving, and then stored exactly once. */
  ghost predicate WillsOnce(s: State)
  {
    forall c: Conn :: WillOnce(s, c)
  }

  ghost predicate WillOnce(s: State, c: Conn)
  {
    && (c in s.taken ==> c in s.threads && TookWill(s.threads[c]))
    && (c in s.threads && TookWill(s.threads[c]) && !s.threads[c].Gone? ==> c in s.taken)
    && s.willed[c] == (if c in s.taken && !AtWill(s.threads[c]) then 1 else 0)
    && (c in s.taken && AtWill(s.threads[c]) ==> s.threads[c].items == [Retain(s.taken[c].0, s.taken[c].1)])
  }

  ghost predicate Lifecycle(s: State)
  {
    TablesOpen(s) && WillsOnce(s)
  }

  /** The handler is publishing its last will, or has ended. */
  predicate TookWill(ph: Phase)
  {
    match ph
    case Saving(_, _, dying) => dying
    case Dispatching(_, _, _, dying) => dying
    case Sending(_, dying) => dying
    case Gone => true
    case _ => false
  }

  /** The last will is taken but not stored yet. */
  predicate AtWill(ph: Phase)
  {
    ph.Saving? && ph.dying && ph.next == 0
  }
}
