/** End to end: the agent's record table, its send queue, the network and the server's table, with
    appended records under any keys (devdb_thread.c, conn_ws.c, websocket.py, broker.py, db.py). */
module Convergence {
  import opened Wrappers
  import opened Text
  import opened Bytes
  import opened Model
  import opened Seqs
  import D = Devdb
  import F = Frame
  import S = Store
  import Reduce

  /** The agent, the frames under way, and the server. */
  datatype World = World(
    recs: seq<D.Rec>, queued: seq<Msg>, inFlight: Option<seq<Msg>>, network: seq<seq<Msg>>, store: S.Store)

  /** A failed send may still have delivered its frame. */
  datatype Event =
    | Put(e: D.Entry, now: int)
    | ScanRecord(i: nat, now: int)
    | Take
    | SendOk
    | SendFail(arrived: bool)
    | Receive

  type Pair = (string, string)

  function PairOf(m: Msg): Pair { (m.topic, if m.value.Some? then m.value.value else "") }

  function RecPair(r: D.Rec): Pair { PairOf(D.RecordMsg(r)) }

  /** The pair under which the server stores a message: with its client's name filled in. */
  function NamedPair(name: string, m: Msg): Pair { PairOf(F.Name(m, name)) }

  function Pairs(ms: seq<Msg>): set<Pair> { set m | m in ms :: PairOf(m) }

  function RowPairs(rows: seq<S.Database.Row>): set<Pair> { set r | r in rows :: (r.topic, r.value) }

  /** What the server makes of a list of messages: it drops invalid ones and fills in the client's name. */
  function Good(name: string, ms: seq<Msg>): set<Pair> { set m | m in ms && IsValid(m) :: NamedPair(name, m) }

  /** What the server's table should hold. */
  function Image(name: string, recs: seq<D.Rec>): set<Pair>
  {
    set r | r in recs && IsValid(D.RecordMsg(r)) :: NamedPair(name, D.RecordMsg(r))
  }

  /** A message as the agent sends it for an appended record. */
  predicate Appended(m: Msg)
  {
    m.typ.PUB? && Complete(m) && m.mode == Some(APPEND)
  }

  lemma RecordIsAppended(r: D.Rec)
    requires r.append
    ensures Appended(D.RecordMsg(r))
  {
  }

  // ---------- The server's step ----------

  function Valid(): Msg -> bool { (m: Msg) => IsValid(m) }

  /** What the server stores of a received frame: invalid messages are dropped first. */
  function Stored(frame: seq<Msg>, name: string): seq<Msg>
  {
    Filter(F.IsPubDel(), F.Ordered(Filter(Valid(), frame), name))
  }

  ghost predicate AllAppended(ms: seq<Msg>)
  {
    forall m :: m in ms ==> Appended(m)
  }

  /** Reduction and naming keep the named pairs of an appended frame. */
  lemma OrderedAppended(frame: seq<Msg>, name: string)
    requires AllAppended(frame)
    ensures var o := F.Ordered(frame, name);
            && Filter(F.IsPubDel(), o) == o && AllAppended(o)
            && forall p :: p in Pairs(o) <==> exists m :: m in frame && NamedPair(name, m) == p
  {
    hide Reduce.ReduceMsgs, Reduce.GroupKey, ReplacePair;
    var r, o := Reduce.ReduceMsgs(frame), F.Ordered(frame, name);
    forall i | 0 <= i < |r|
      ensures Appended(o[i]) && exists m :: m in frame && NamedPair(name, m) == PairOf(o[i])
    {
      ReducedAppended(frame, i);
      var m :| m in frame && PairOf(m) == PairOf(r[i]);
      SamePairNamed(name, m, r[i]);
    }
    FilterAll(F.IsPubDel(), o);
    forall m | m in frame ensures NamedPair(name, m) in Pairs(o) {
      var x := KeptPair(frame, m);
      var i :| 0 <= i < |r| && r[i] == x;
      SamePairNamed(name, m, x);
      assert o[i] in o;
    }
  }

  lemma SamePairNamed(name: string, a: Msg, b: Msg)
    requires PairOf(a) == PairOf(b)
    ensures NamedPair(name, a) == NamedPair(name, b)
  {
  }

  lemma ReducedAppended(frame: seq<Msg>, i: nat)
    requires AllAppended(frame) && i < |Reduce.ReduceMsgs(frame)|
    ensures var x := Reduce.ReduceMsgs(frame)[i]; Appended(x) && exists m :: m in frame && PairOf(m) == PairOf(x)
  {
    hide Reduce.ReduceMsgs;
    var r := Reduce.ReduceMsgs(frame);
    Reduce.ReduceIsReduction(frame);
    var k := Reduce.GroupKey(r[i]);
    var g := Reduce.GroupOf(frame, k);
    Reduce.GroupHolds(r, i);
    assert Reduce.GroupOf(r, k) == Reduce.Merged(g);
    assert g != [] && r[i] == Reduce.MergeAll(g);
    Reduce.GroupHasKey(frame, k);
    assert forall j :: 0 <= j < |g| ==> g[j] in g;
    Reduce.MergeAllShape(g);
    Reduce.MergeAllBounds(g);
    assert g[0] in frame && PairOf(g[0]) == PairOf(r[i]);
  }

  lemma KeptPair(frame: seq<Msg>, m: Msg) returns (x: Msg)
    requires AllAppended(frame) && m in frame
    ensures x in Reduce.ReduceMsgs(frame) && PairOf(x) == PairOf(m)
  {
    hide Reduce.ReduceMsgs;
    var r := Reduce.ReduceMsgs(frame);
    var k := Reduce.GroupKey(m);
    var j :| 0 <= j < |frame| && frame[j] == m;
    Reduce.ReduceIsReduction(frame);
    Reduce.GroupHolds(frame, j);
    x := Reduce.MergeAll(Reduce.GroupOf(frame, k));
    assert x in Reduce.GroupOf(r, k);
    Reduce.GroupHasKey(r, k);
  }

  lemma UpsertPairs(rows: seq<S.Database.Row>, r: S.Database.Row)
    ensures RowPairs(S.Upsert(rows, r)) == RowPairs(rows) + {(r.topic, r.value)}
  {
    var i := S.RowAt(rows, r.topic, r.value);
    var up := S.Upsert(rows, r);
    forall x | x in rows ensures (x.topic, x.value) in RowPairs(up) {
      var j :| 0 <= j < |rows| && rows[j] == x;
      assert up[j].topic == x.topic && up[j].value == x.value && up[j] in up;
    }
    if i < |rows| {
      assert up[i] in up && rows[i] in rows;
    } else {
      assert up[|rows|] in up;
    }
    forall x | x in up ensures (x.topic, x.value) in RowPairs(rows) + {(r.topic, r.value)} {
      var j :| 0 <= j < |up| && up[j] == x;
      if j < |rows| {
        assert rows[j] in rows;
      }
    }
  }

  lemma SaveOneAppended(st: S.Store, m: Msg)
    requires S.Valid(st) && Appended(m)
    ensures RowPairs(S.SaveOne(st, m).rows) == RowPairs(st.rows) + {PairOf(m)}
  {
    hide RowPairs, S.Upsert, S.LikeRows, S.FirstWithValue;
    S.StampIsPublication(st, m);
    UpsertPairs(st.rows, S.RowOf(S.Stamp(st, m)));
  }

  /** APPEND adds its pair to the table and touches no other: in any order, any number of times. */
  lemma {:induction false} SaveAppended(st: S.Store, ms: seq<Msg>)
    requires S.Valid(st) && AllAppended(ms)
    ensures S.AllComplete(ms) && RowPairs(S.Save(st, ms).rows) == RowPairs(st.rows) + Pairs(ms)
  {
    hide RowPairs, S.SaveOne, S.Valid, HasPair, PairOf;
    assert forall i :: 0 <= i < |ms| ==> ms[i] in ms;
    if ms == [] {
      assert Pairs(ms) == {};
    } else {
      var n := |ms| - 1;
      var m := ms[n];
      assert ms == ms[..n] + [m];
      PairsConcat(ms[..n], [m]);
      OnePair(m);
      SaveAppended(st, ms[..n]);
      S.SaveKeepsValid(st, ms[..n]);
      SaveOneAppended(S.Save(st, ms[..n]), m);
    }
  }

  lemma OnePair(m: Msg)
    ensures Pairs([m]) == {PairOf(m)}
  {
  }

  lemma PairsConcat(a: seq<Msg>, b: seq<Msg>)
    ensures Pairs(a + b) == Pairs(a) + Pairs(b)
  {
    hide PairOf;
    assert forall m :: m in a + b <==> m in a || m in b;
  }

  /** What a frame adds to the table: the good pairs of its messages. */
  lemma {:induction false} StoredPairs(st: S.Store, frame: seq<Msg>, name: string)
    requires S.Valid(st) && AllAppended(frame)
    ensures var batch := Stored(frame, name);
            && S.AllComplete(batch) && S.Valid(S.Save(st, batch))
            && RowPairs(S.Save(st, batch).rows) == RowPairs(st.rows) + Good(name, frame)
  {
    hide Appended, RowPairs, NamedPair, PairOf, S.Valid, S.Save, F.Ordered, IsValid;
    var valid := Filter(Valid(), frame);
    FilterMembers(Valid(), frame);
    OrderedAppended(valid, name);
    var o := F.Ordered(valid, name);
    SaveAppended(st, o);
    S.SaveKeepsValid(st, o);
    forall p ensures p in Pairs(o) <==> p in Good(name, frame) {
      if m :| m in valid && NamedPair(name, m) == p {
        assert m in frame && IsValid(m);
      }
    }
    assert Pairs(o) == Good(name, frame);
  }

  // ---------- Steps ----------

  /** Any record may be put, whatever its key, as long as it is appended. */
  predicate Enabled(w: World, e: Event)
  {
    match e
    case Put(entry, _) => entry.append
    case ScanRecord(i, _) => i < |w.recs|
    case Take => w.inFlight.None? && w.queued != []
    case SendOk => w.inFlight.Some?
    case SendFail(_) => w.inFlight.Some?
    case Receive => w.network != []
  }

  ghost function After(name: string, w: World, e: Event): World
    requires Enabled(w, e)
  {
    match e
    case Put(entry, now) => w.(recs := D.PutRec(w.recs, entry, now))
    case ScanRecord(i, now) =>
      if D.Due(w.recs[i], now) then
        w.(recs := w.recs[i := w.recs[i].(sentAt := now)], queued := w.queued + [D.RecordMsg(w.recs[i])])
      else w
    case Take => w.(queued := [], inFlight := Some(w.queued))
    case SendOk => w.(inFlight := None, network := w.network + [w.inFlight.value])
    case SendFail(arrived) =>
      w.(inFlight := None, queued := w.queued + w.inFlight.value,
         network := if arrived then w.network + [w.inFlight.value] else w.network)
    case Receive =>
      var batch := Stored(w.network[0], name);
      if S.AllComplete(batch) then w.(network := w.network[1..], store := S.Save(w.store, batch)) else w
  }

  /** The agent starts empty; the server may already hold rows. */
  function Start(st: S.Store): World { World([], [], None, [], st) }

  /** A run from this store, of an agent that the server knows under this name. */
  ghost predicate IsRun(name: string, st: S.Store, es: seq<Event>)
  {
    es == [] || (IsRun(name, st, es[..|es| - 1]) && Enabled(Run(name, st, es[..|es| - 1]), es[|es| - 1]))
  }

  ghost function Run(name: string, st: S.Store, es: seq<Event>): World
  {
    if es == [] then Start(st)
    else
      var w := Run(name, st, es[..|es| - 1]);
      if Enabled(w, es[|es| - 1]) then After(name, w, es[|es| - 1]) else w
  }

  // ---------- The invariant ----------

  function Flight(w: World): seq<Msg> { if w.inFlight.Some? then w.inFlight.value else [] }

  ghost predicate Distinct(recs: seq<D.Rec>)
  {
    && (forall r :: r in recs ==> r.append)
    && (forall i, j :: 0 <= i < j < |recs| ==>
          !(recs[i].net == recs[j].net && recs[i].dev == recs[j].dev
            && recs[i].key == recs[j].key && recs[i].value == recs[j].value))
  }

  /** A list of messages carries only the agent's records. */
  ghost predicate Carries(name: string, recs: seq<D.Rec>, ms: seq<Msg>)
  {
    AllAppended(ms) && Good(name, ms) <= Image(name, recs)
  }

  ghost predicate OnlyRecords(name: string, base: set<Pair>, w: World)
  {
    && Carries(name, w.recs, w.queued)
    && Carries(name, w.recs, Flight(w))
    && (forall i :: 0 <= i < |w.network| ==> Carries(name, w.recs, w.network[i]))
    && base <= RowPairs(w.store.rows) <= base + Image(name, w.recs)
  }

  /** Where a record's pair may be found once the record has been stamped. */
  ghost predicate Somewhere(name: string, w: World, p: Pair)
  {
    || p in Good(name, w.queued) || p in Good(name, Flight(w)) || p in RowPairs(w.store.rows)
    || exists i :: 0 <= i < |w.network| && p in Good(name, w.network[i])
  }

  ghost predicate StampedIsSomewhere(name: string, w: World)
  {
    forall r :: r in w.recs && r.sentAt != 0 && IsValid(D.RecordMsg(r)) ==>
      Somewhere(name, w, NamedPair(name, D.RecordMsg(r)))
  }

  /** The server holds what it started with, and of the agent's records only what was sent. */
  ghost predicate Inv(name: string, base: set<Pair>, w: World)
  {
    S.Valid(w.store) && Distinct(w.recs) && OnlyRecords(name, base, w) && StampedIsSomewhere(name, w)
  }

  lemma GoodConcat(name: string, a: seq<Msg>, b: seq<Msg>)
    ensures Good(name, a + b) == Good(name, a) + Good(name, b)
    ensures AllAppended(a + b) <==> AllAppended(a) && AllAppended(b)
  {
    hide NamedPair, IsValid, Appended;
    assert forall m :: m in a + b <==> m in a || m in b;
  }

  lemma {:induction false} PutKeeps(name: string, base: set<Pair>, w: World, e: D.Entry, now: int)
    requires Inv(name, base, w) && Enabled(w, Put(e, now))
    ensures Inv(name, base, After(name, w, Put(e, now)))
  {
    hide S.Valid, D.RecordMsg, NamedPair, IsValid, AllAppended, Good;
    var w' := After(name, w, Put(e, now));
    PutDistinct(w.recs, e, now);
    PutImage(name, w.recs, e, now);
    forall r | r in w'.recs && r.sentAt != 0 && IsValid(D.RecordMsg(r))
      ensures Somewhere(name, w', NamedPair(name, D.RecordMsg(r)))
    {
      var x := PutStamped(w.recs, e, now, r);
      assert Somewhere(name, w, NamedPair(name, D.RecordMsg(x)));
    }
  }

  lemma PutDistinct(recs: seq<D.Rec>, e: D.Entry, now: int)
    requires Distinct(recs) && e.append
    ensures Distinct(D.PutRec(recs, e, now))
  {
    var i := D.Find(recs, e);
    var recs' := D.PutRec(recs, e, now);
    forall r | r in recs' ensures r.append {
      var j :| 0 <= j < |recs'| && recs'[j] == r;
      assert j < |recs| ==> recs[j] in recs;
    }
  }

  /** An appending put changes no record's message but for its times. */
  lemma UpdatedMsg(r: D.Rec, e: D.Entry, now: int)
    requires e.append && r.append && D.Same(r, e)
    ensures var r' := D.Updated(r, e, now);
            && (IsValid(D.RecordMsg(r')) <==> IsValid(D.RecordMsg(r)))
            && forall name :: NamedPair(name, D.RecordMsg(r')) == NamedPair(name, D.RecordMsg(r))
  {
    hide D.FullTopic, D.Truncate, ReplacePair;
  }

  lemma PutImage(name: string, recs: seq<D.Rec>, e: D.Entry, now: int)
    requires Distinct(recs) && e.append
    ensures Image(name, recs) <= Image(name, D.PutRec(recs, e, now))
  {
    hide D.RecordMsg, D.Updated, NamedPair, IsValid;
    var recs' := D.PutRec(recs, e, now);
    forall r | r in recs && IsValid(D.RecordMsg(r)) ensures NamedPair(name, D.RecordMsg(r)) in Image(name, recs') {
      var j :| 0 <= j < |recs| && recs[j] == r;
      if D.Find(recs, e) == j {
        UpdatedMsg(r, e, now);
      }
      assert recs'[j] in recs';
    }
  }

  /** A record stamped after an appending put was stamped before it, with the same pair. */
  lemma PutStamped(recs: seq<D.Rec>, e: D.Entry, now: int, r: D.Rec) returns (x: D.Rec)
    requires Distinct(recs) && e.append && r in D.PutRec(recs, e, now) && r.sentAt != 0
    ensures x in recs && x.sentAt != 0 && (IsValid(D.RecordMsg(x)) <==> IsValid(D.RecordMsg(r)))
    ensures forall name :: NamedPair(name, D.RecordMsg(x)) == NamedPair(name, D.RecordMsg(r))
  {
    hide D.RecordMsg, NamedPair, IsValid;
    var recs' := D.PutRec(recs, e, now);
    var j :| 0 <= j < |recs'| && recs'[j] == r;
    x := recs[j];
    if D.Find(recs, e) == j {
      UpdatedMsg(x, e, now);
    }
  }

  lemma StampKeepsRecords(name: string, recs: seq<D.Rec>, i: nat, now: int)
    requires Distinct(recs) && i < |recs|
    ensures var recs' := recs[i := recs[i].(sentAt := now)];
            Distinct(recs') && Image(name, recs') == Image(name, recs)
  {
    hide NamedPair, IsValid, D.RecordMsg, Image;
    var recs' := recs[i := recs[i].(sentAt := now)];
    StampKeepsMsg(recs[i], now);
    ImageWithin(name, recs, recs');
    ImageWithin(name, recs', recs);
    forall r | r in recs' ensures r.append {
      var j :| 0 <= j < |recs'| && recs'[j] == r;
      assert recs[j] in recs;
    }
  }

  /** The image depends on the records' messages only. */
  lemma ImageWithin(name: string, a: seq<D.Rec>, b: seq<D.Rec>)
    requires |a| == |b| && forall j :: 0 <= j < |a| ==> D.RecordMsg(a[j]) == D.RecordMsg(b[j])
    ensures Image(name, a) <= Image(name, b)
  {
    hide NamedPair, IsValid, D.RecordMsg;
    forall r | r in a && IsValid(D.RecordMsg(r)) ensures NamedPair(name, D.RecordMsg(r)) in Image(name, b) {
      var j :| 0 <= j < |a| && a[j] == r;
      assert b[j] in b;
    }
  }

  lemma StampKeepsMsg(r: D.Rec, now: int)
    ensures D.RecordMsg(r.(sentAt := now)) == D.RecordMsg(r)
  {
  }

  lemma {:induction false} ScanKeeps(name: string, base: set<Pair>, w: World, i: nat, now: int)
    requires Inv(name, base, w) && i < |w.recs|
    ensures Inv(name, base, After(name, w, ScanRecord(i, now)))
  {
    hide S.Valid, D.Due, Appended, IsValid, NamedPair, D.RecordMsg;
    if D.Due(w.recs[i], now) {
      var w' := After(name, w, ScanRecord(i, now));
      var m := D.RecordMsg(w.recs[i]);
      assert w.recs[i] in w.recs;
      RecordIsAppended(w.recs[i]);
      StampKeepsMsg(w.recs[i], now);
      StampKeepsRecords(name, w.recs, i, now);
      GoodConcat(name, w.queued, [m]);
      assert Good(name, [m]) == if IsValid(m) then {NamedPair(name, m)} else {};
      forall r | r in w'.recs && r.sentAt != 0 && IsValid(D.RecordMsg(r))
        ensures Somewhere(name, w', NamedPair(name, D.RecordMsg(r)))
      {
        var j :| 0 <= j < |w'.recs| && w'.recs[j] == r;
        if j != i {
          assert r in w.recs && Somewhere(name, w, NamedPair(name, D.RecordMsg(r)));
        }
      }
    }
  }

  lemma {:induction false} SenderKeeps(name: string, base: set<Pair>, w: World, e: Event)
    requires Inv(name, base, w) && Enabled(w, e) && (e.Take? || e.SendOk? || e.SendFail?)
    ensures Inv(name, base, After(name, w, e))
  {
    hide S.Valid, Distinct, Image, Appended, RowPairs, NamedPair, Good, AllAppended, IsValid, D.RecordMsg;
    var w' := After(name, w, e);
    GoodConcat(name, w.queued, Flight(w));
    NoPairs(name);
    forall r | r in w'.recs && r.sentAt != 0 && IsValid(D.RecordMsg(r))
      ensures Somewhere(name, w', NamedPair(name, D.RecordMsg(r)))
    {
      assert Somewhere(name, w, NamedPair(name, D.RecordMsg(r)));
      MovedOn(name, w, e, NamedPair(name, D.RecordMsg(r)));
    }
  }

  lemma NoPairs(name: string)
    ensures Pairs([]) == {} && Good(name, []) == {} && AllAppended([])
  {
  }

  lemma MovedOn(name: string, w: World, e: Event, p: Pair)
    requires Enabled(w, e) && (e.Take? || e.SendOk? || e.SendFail?) && Somewhere(name, w, p)
    ensures Somewhere(name, After(name, w, e), p)
  {
    hide NamedPair, IsValid, Good;
    var w' := After(name, w, e);
    GoodConcat(name, w.queued, Flight(w));
    NoPairs(name);
    if i :| 0 <= i < |w.network| && p in Good(name, w.network[i]) {
      assert w'.network[i] == w.network[i];
    } else if e.SendOk? && p in Good(name, Flight(w)) {
      assert w'.network[|w.network|] == w.inFlight.value;
    }
  }

  /** The server's step moves the good pairs of one frame into the table. */
  lemma ReceiveKeeps(name: string, base: set<Pair>, w: World)
    requires Inv(name, base, w) && Enabled(w, Receive)
    ensures Inv(name, base, After(name, w, Receive))
    ensures RowPairs(After(name, w, Receive).store.rows) == RowPairs(w.store.rows) + Good(name, w.network[0])
    ensures After(name, w, Receive).network == w.network[1..]
  {
    hide Distinct, Image, Appended, RowPairs, NamedPair, Good, S.Valid, S.Save, Stored, IsValid, D.RecordMsg;
    assert Carries(name, w.recs, w.network[0]);
    StoredPairs(w.store, w.network[0], name);
    var w' := After(name, w, Receive);
    forall r | r in w'.recs && r.sentAt != 0 && IsValid(D.RecordMsg(r))
      ensures Somewhere(name, w', NamedPair(name, D.RecordMsg(r)))
    {
      var p := NamedPair(name, D.RecordMsg(r));
      assert Somewhere(name, w, p);
      if i :| 0 <= i < |w.network| && p in Good(name, w.network[i]) {
        if i > 0 {
          assert w'.network[i - 1] == w.network[i];
        }
      }
    }
  }

  lemma {:induction false} StepKeeps(name: string, base: set<Pair>, w: World, e: Event)
    requires Inv(name, base, w) && Enabled(w, e)
    ensures Inv(name, base, After(name, w, e))
  {
    hide Inv, Enabled, After;
    match e
    case Put(entry, now) => PutKeeps(name, base, w, entry, now);
    case ScanRecord(i, now) =>
      assert i < |w.recs| by {
        ScanInRange(w, e);
      }
      ScanKeeps(name, base, w, i, now);
    case Take => SenderKeeps(name, base, w, e);
    case SendOk => SenderKeeps(name, base, w, e);
    case SendFail(_) => SenderKeeps(name, base, w, e);
    case Receive => ReceiveKeeps(name, base, w);
  }

  lemma ScanInRange(w: World, e: Event)
    requires Enabled(w, e) && e.ScanRecord?
    ensures e.i < |w.recs|
  {
  }

  lemma {:induction false} RunKeeps(name: string, st: S.Store, es: seq<Event>)
    requires S.Valid(st) && IsRun(name, st, es)
    ensures Inv(name, RowPairs(st.rows), Run(name, st, es))
  {
    hide Enabled, After;
    if es == [] {
      NoPairs(name);
    } else {
      RunKeeps(name, st, es[..|es| - 1]);
      hide Inv, RowPairs;
      StepKeeps(name, RowPairs(st.rows), Run(name, st, es[..|es| - 1]), es[|es| - 1]);
    }
  }

  // ---------- Convergence ----------

  /** Nothing is under way. */
  predicate Drained(w: World)
  {
    w.queued == [] && w.inFlight.None? && w.network == []
  }

  /** Over every schedule of puts, scans, batches, failed and repeated sends and server frames: once
      every record has been stamped by a scan and the queue and network are drained, the server holds
      exactly the (topic, value) pairs it started with and, of each record whose message it accepts, the
      pair with the client's name filled in. */
  lemma {:induction false} Converges(name: string, st: S.Store, es: seq<Event>)
    requires S.Valid(st) && IsRun(name, st, es) && Drained(Run(name, st, es))
    requires forall r :: r in Run(name, st, es).recs ==> r.sentAt != 0
    ensures RowPairs(Run(name, st, es).store.rows) == RowPairs(st.rows) + Image(name, Run(name, st, es).recs)
  {
    hide Run, IsRun, NamedPair, RowPairs, IsValid, D.RecordMsg;
    RunKeeps(name, st, es);
    NoPairs(name);
    var w := Run(name, st, es);
    forall p | p in Image(name, w.recs) ensures p in RowPairs(w.store.rows) {
      var r :| r in w.recs && IsValid(D.RecordMsg(r)) && NamedPair(name, D.RecordMsg(r)) == p;
      assert Somewhere(name, w, NamedPair(name, D.RecordMsg(r)));
    }
  }

  // ---------- Scans stamp ----------

  /** The clock shows neither zero nor more than 64 bits when the table is scanned. */
  predicate ClockOk(e: Event)
  {
    match e
    case Put(_, now) => 0 <= now < D.CLOCK_LIMIT
    case ScanRecord(_, now) => 0 < now < D.CLOCK_LIMIT
    case _ => true
  }

  ghost predicate TimesOk(w: World)
  {
    forall i :: 0 <= i < |w.recs| ==> w.recs[i].updatedAt >= 0
  }

  lemma TimesKept(name: string, w: World, e: Event)
    requires Enabled(w, e) && ClockOk(e) && TimesOk(w)
    ensures TimesOk(After(name, w, e))
  {
    hide D.FullTopic, D.RecordMsg, Stored, D.Due;
  }

  /** A scan of the record stamps it, once the clock is past the resend interval. */
  lemma ScanStamps(name: string, w: World, i: nat, now: int)
    requires i < |w.recs| && D.MAX_SEND_INTERVAL <= now < D.CLOCK_LIMIT && w.recs[i].updatedAt >= 0
    ensures After(name, w, ScanRecord(i, now)).recs[i].sentAt != 0
  {
  }

  /** A stamp is never taken back. */
  lemma StampStays(name: string, w: World, e: Event, i: nat)
    requires Enabled(w, e) && ClockOk(e) && i < |w.recs| && w.recs[i].sentAt != 0
    ensures i < |After(name, w, e).recs| && After(name, w, e).recs[i].sentAt != 0
  {
    hide D.FullTopic, D.RecordMsg, Stored, D.Due;
  }

  /** The run scans the record at a time past the resend interval. */
  ghost predicate ScannedIn(es: seq<Event>, i: nat)
  {
    exists k :: 0 <= k < |es| && es[k].ScanRecord? && es[k].i == i && es[k].now >= D.MAX_SEND_INTERVAL
  }

  lemma {:induction false} ScannedIsStamped(name: string, st: S.Store, es: seq<Event>, i: nat)
    requires IsRun(name, st, es) && forall k :: 0 <= k < |es| ==> ClockOk(es[k])
    ensures TimesOk(Run(name, st, es))
    ensures ScannedIn(es, i) ==> i < |Run(name, st, es).recs| && Run(name, st, es).recs[i].sentAt != 0
  {
    hide After, Enabled, TimesOk;
    if es == [] {
      StartOk(st);
    } else {
      var n := |es| - 1;
      ScannedIsStamped(name, st, es[..n], i);
      var w, e := Run(name, st, es[..n]), es[n];
      TimesKept(name, w, e);
      if ScannedIn(es[..n], i) {
        StampStays(name, w, e, i);
      } else if e.ScanRecord? && e.i == i && e.now >= D.MAX_SEND_INTERVAL {
        ScanInRange(w, e);
        TimeOk(w, i);
        ScanStamps(name, w, i, e.now);
        SameLength(name, w, e);
      } else {
        assert forall k :: 0 <= k < n ==> es[..n][k] == es[k];
      }
    }
  }

  lemma StartOk(st: S.Store)
    ensures TimesOk(Start(st))
  {
  }

  lemma TimeOk(w: World, i: nat)
    requires TimesOk(w) && i < |w.recs|
    ensures w.recs[i].updatedAt >= 0
  {
  }

  lemma SameLength(name: string, w: World, e: Event)
    requires Enabled(w, e) && e.ScanRecord?
    ensures |After(name, w, e).recs| == |w.recs|
  {
  }

  /** So a full scan is enough: when the run has scanned each record that the table holds at its end, in
      any order and beside any other steps, and everything is drained, the server has converged. */
  lemma {:induction false} ScannedThenDrained(name: string, st: S.Store, es: seq<Event>)
    requires S.Valid(st) && IsRun(name, st, es) && Drained(Run(name, st, es))
    requires forall k :: 0 <= k < |es| ==> ClockOk(es[k])
    requires forall i :: 0 <= i < |Run(name, st, es).recs| ==> ScannedIn(es, i)
    ensures RowPairs(Run(name, st, es).store.rows) == RowPairs(st.rows) + Image(name, Run(name, st, es).recs)
  {
    hide Run, IsRun, ScannedIn, Image;
    var w := Run(name, st, es);
    forall r | r in w.recs ensures r.sentAt != 0 {
      var i :| 0 <= i < |w.recs| && w.recs[i] == r;
      ScannedIsStamped(name, st, es, i);
    }
    Converges(name, st, es);
  }

  // ---------- Every put arrives ----------

  function EntryOf(r: D.Rec): D.Entry { D.Entry(r.net, r.dev, r.key, r.value, r.append) }

  /** The message of an entry, but for its times. */
  function EntryMsg(e: D.Entry): Msg { D.RecordMsg(D.Rec(e.net, e.dev, e.key, e.value, e.append, 0, 0, 0)) }

  /** Everything put in the run. */
  ghost function PutIn(es: seq<Event>): set<D.Entry> { set k | 0 <= k < |es| && es[k].Put? :: es[k].e }

  ghost function Entries(recs: seq<D.Rec>): set<D.Entry> { set r | r in recs :: EntryOf(r) }

  lemma PutMore(es: seq<Event>)
    requires es != []
    ensures var n := |es| - 1; PutIn(es) == PutIn(es[..n]) + if es[n].Put? then {es[n].e} else {}
  {
    var n := |es| - 1;
    forall k | 0 <= k < n && es[k].Put? ensures es[k].e in PutIn(es[..n]) {
      assert es[..n][k] == es[k];
    }
    forall x | x in PutIn(es[..n]) ensures x in PutIn(es) {
      var k :| 0 <= k < n && es[..n][k].Put? && es[..n][k].e == x;
      assert es[k].Put? && es[k].e == x;
    }
  }

  lemma EntriesAfterPut(recs: seq<D.Rec>, e: D.Entry, now: int)
    requires Distinct(recs) && e.append
    ensures Entries(D.PutRec(recs, e, now)) == Entries(recs) + {e}
  {
    var i, recs' := D.Find(recs, e), D.PutRec(recs, e, now);
    assert i < |recs| ==> recs[i] in recs && EntryOf(recs'[i]) == EntryOf(recs[i]) == e;
    assert i == |recs| ==> EntryOf(recs'[i]) == e;
    forall r | r in recs ensures EntryOf(r) in Entries(recs') {
      var j :| 0 <= j < |recs| && recs[j] == r;
      assert recs'[j] in recs' && EntryOf(recs'[j]) == EntryOf(r);
    }
    forall r | r in recs' ensures EntryOf(r) in Entries(recs) + {e} {
      var j :| 0 <= j < |recs'| && recs'[j] == r;
      assert j < |recs| ==> recs[j] in recs && EntryOf(recs[j]) == EntryOf(r);
    }
    assert recs'[i] in recs';
  }

  lemma EntriesAfter(name: string, w: World, e: Event)
    requires Enabled(w, e) && Distinct(w.recs)
    ensures Entries(After(name, w, e).recs) == Entries(w.recs) + if e.Put? then {e.e} else {}
  {
    hide D.Due, D.RecordMsg, Stored, Distinct, D.PutRec;
    if e.Put? {
      EntriesAfterPut(w.recs, e.e, e.now);
    } else if e.ScanRecord? {
      var recs' := After(name, w, e).recs;
      forall j | 0 <= j < |recs'| ensures EntryOf(recs'[j]) == EntryOf(w.recs[j]) {
      }
      SameEntries(w.recs, recs');
      SameEntries(recs', w.recs);
    }
  }

  lemma SameEntries(a: seq<D.Rec>, b: seq<D.Rec>)
    requires |a| == |b| && forall j :: 0 <= j < |a| ==> EntryOf(a[j]) == EntryOf(b[j])
    ensures Entries(a) <= Entries(b)
  {
    forall r | r in a ensures EntryOf(r) in Entries(b) {
      var j :| 0 <= j < |a| && a[j] == r;
      assert b[j] in b;
    }
  }

  /** The table holds what was put, each once, whatever the scans did. */
  lemma {:induction false} RecordsArePuts(name: string, st: S.Store, es: seq<Event>)
    requires S.Valid(st) && IsRun(name, st, es)
    ensures Entries(Run(name, st, es).recs) == PutIn(es) && Distinct(Run(name, st, es).recs)
  {
    hide Enabled, After, Distinct, Entries, PutIn;
    RunKeeps(name, st, es);
    InvDistinct(name, RowPairs(st.rows), Run(name, st, es));
    if es == [] {
      NothingPut();
    } else {
      RecordsArePuts(name, st, es[..|es| - 1]);
      EntriesAfter(name, Run(name, st, es[..|es| - 1]), es[|es| - 1]);
      PutMore(es);
    }
  }

  lemma InvDistinct(name: string, base: set<Pair>, w: World)
    requires Inv(name, base, w)
    ensures Distinct(w.recs)
  {
  }

  lemma NothingPut()
    ensures PutIn([]) == {} && Entries([]) == {}
  {
  }

  /** The image of a table depends on its entries only. */
  lemma ImageOfEntries(name: string, recs: seq<D.Rec>, p: Pair)
    ensures p in Image(name, recs)
            <==> exists e :: e in Entries(recs) && IsValid(EntryMsg(e)) && NamedPair(name, EntryMsg(e)) == p
  {
    hide NamedPair, IsValid, D.RecordMsg;
    forall r ensures && (IsValid(D.RecordMsg(r)) <==> IsValid(EntryMsg(EntryOf(r))))
                     && NamedPair(name, D.RecordMsg(r)) == NamedPair(name, EntryMsg(EntryOf(r))) {
      MsgOfEntry(name, r);
    }
    if p in Image(name, recs) {
      var r :| r in recs && IsValid(D.RecordMsg(r)) && NamedPair(name, D.RecordMsg(r)) == p;
      assert EntryOf(r) in Entries(recs);
    }
  }

  lemma MsgOfEntry(name: string, r: D.Rec)
    ensures IsValid(D.RecordMsg(r)) <==> IsValid(EntryMsg(EntryOf(r)))
    ensures NamedPair(name, D.RecordMsg(r)) == NamedPair(name, EntryMsg(EntryOf(r)))
  {
    hide D.FullTopic, D.Truncate, ReplacePair;
  }

  /** In terms of what happened alone: after such a run the server holds, beside what it started with, the named
      pair of every entry that was put and whose message it accepts, and nothing else. */
  lemma {:induction false} EveryPutArrives(name: string, st: S.Store, es: seq<Event>, p: Pair)
    requires S.Valid(st) && IsRun(name, st, es) && Drained(Run(name, st, es))
    requires forall k :: 0 <= k < |es| ==> ClockOk(es[k])
    requires forall i :: 0 <= i < |Run(name, st, es).recs| ==> ScannedIn(es, i)
    ensures p in RowPairs(Run(name, st, es).store.rows)
            <==> p in RowPairs(st.rows)
                 || exists k :: 0 <= k < |es| && es[k].Put? && IsValid(EntryMsg(es[k].e))
                      && NamedPair(name, EntryMsg(es[k].e)) == p
  {
    hide Run, IsRun, ScannedIn, Image, Entries, RowPairs, NamedPair, IsValid, EntryMsg;
    ScannedThenDrained(name, st, es);
    RecordsArePuts(name, st, es);
    ImageOfEntries(name, Run(name, st, es).recs, p);
    forall x ensures x in PutIn(es) <==> exists k :: 0 <= k < |es| && es[k].Put? && es[k].e == x {
    }
  }

  // ---------- Which records arrive as they are ----------

  /** Filling in the name leaves a topic alone exactly when there is nothing to fill in, or the name is "@". */
  lemma {:induction false} NameLeavesTopic(s: string, name: string)
    ensures ReplacePair(s, '/', '@', "/" + name) == s <==> !HasPair(s, '/', '@') || name == "@"
  {
    if HasPair(s, '/', '@') {
      if name == "@" {
        AtIsItself(s);
      } else {
        NameChanges(s, name);
      }
    } else {
      ReplacePairNone(s, '/', '@', "/" + name);
    }
  }

  lemma {:induction false} AtIsItself(s: string)
    ensures ReplacePair(s, '/', '@', "/" + "@") == s
  {
    if |s| >= 2 {
      AtIsItself(s[1..]);
      AtIsItself(s[2..]);
      assert s == s[..2] + s[2..] && s == [s[0]] + s[1..];
    }
  }

  /** Every replacement changes the length by the same amount, or the second character. */
  lemma {:induction false} NameLengths(s: string, name: string)
    ensures |name| >= 1 ==> |ReplacePair(s, '/', '@', "/" + name)| >= |s|
    ensures |name| >= 2 && HasPair(s, '/', '@') ==> |ReplacePair(s, '/', '@', "/" + name)| > |s|
    ensures |name| == 0 ==> |ReplacePair(s, '/', '@', "/" + name)| <= |s|
    ensures |name| == 0 && HasPair(s, '/', '@') ==> |ReplacePair(s, '/', '@', "/" + name)| < |s|
  {
    if |s| >= 2 {
      NameLengths(s[1..], name);
      NameLengths(s[2..], name);
      PairInTail(s);
    }
  }

  lemma PairInTail(s: string)
    requires |s| >= 2
    ensures HasPair(s, '/', '@') ==> (s[0] == '/' && s[1] == '@') || HasPair(s[1..], '/', '@')
  {
    if i :| 0 <= i < |s| - 1 && s[i] == '/' && s[i + 1] == '@' {
      assert i > 0 ==> s[1..][i - 1] == '/' && s[1..][i] == '@';
    }
  }

  lemma {:induction false} NameChanges(s: string, name: string)
    requires HasPair(s, '/', '@') && name != "@"
    ensures ReplacePair(s, '/', '@', "/" + name) != s
  {
    NameLengths(s, name);
    if |name| == 1 {
      PairInTail(s);
      var t := ReplacePair(s, '/', '@', "/" + name);
      if s[0] == '/' && s[1] == '@' {
        assert t[1] == name[0];
      } else {
        NameChanges(s[1..], name);
        assert t == [s[0]] + ReplacePair(s[1..], '/', '@', "/" + name);
        assert t[1..] == ReplacePair(s[1..], '/', '@', "/" + name);
      }
    }
  }

  /** The pairs of two records of the table differ, as long as their topics fit the buffer; and so do the
      pairs that the server stores for them, unless there is a name to fill in. */
  lemma {:induction false} ImageIsFaithful(name: string, st: S.Store, es: seq<Event>, i: nat, j: nat)
    requires S.Valid(st) && IsRun(name, st, es) && i < j < |Run(name, st, es).recs|
    requires var recs := Run(name, st, es).recs;
             && |D.FullTopic(recs[i].net, recs[i].dev, recs[i].key)| <= D.TOPIC_LIMIT
             && |D.FullTopic(recs[j].net, recs[j].dev, recs[j].key)| <= D.TOPIC_LIMIT
    ensures var a, b := D.RecordMsg(Run(name, st, es).recs[i]), D.RecordMsg(Run(name, st, es).recs[j]);
            && PairOf(a) != PairOf(b)
            && (!HasPair(a.topic, '/', '@') && !HasPair(b.topic, '/', '@') ==> NamedPair(name, a) != NamedPair(name, b))
  {
    hide Run, IsRun, RowPairs, D.FullTopic;
    RunKeeps(name, st, es);
    var recs := Run(name, st, es).recs;
    var a, b := D.RecordMsg(recs[i]), D.RecordMsg(recs[j]);
    if PairOf(a) == PairOf(b) {
      D.TopicInjective(recs[i], recs[j]);
    }
    NameLeavesTopic(a.topic, name);
    NameLeavesTopic(b.topic, name);
  }

  /** Exactly when a record's own pair is in the image of the table: its message is valid and holds no name
      to fill in (or the name is "@"), or the server stores another record under this very pair. */
  lemma OwnPairInImage(name: string, recs: seq<D.Rec>, r: D.Rec)
    requires r in recs
    ensures RecPair(r) in Image(name, recs)
            <==> (IsValid(D.RecordMsg(r)) && (!HasPair(D.RecordMsg(r).topic, '/', '@') || name == "@"))
                 || exists x :: x in recs && D.RecordMsg(x) != D.RecordMsg(r) && IsValid(D.RecordMsg(x))
                                && NamedPair(name, D.RecordMsg(x)) == RecPair(r)
  {
    hide IsValid, ReplacePair, HasPair;
    NameLeavesTopic(D.RecordMsg(r).topic, name);
  }

  /** A record under a key with a wildcard in it, as a service label can bring it, is never stored; one under
      a key with "/@" is stored under another topic only. */
  lemma KeysThatDoNotArrive(net: Mac, dev: Mac, name: string)
    ensures var r := D.Rec(net, dev, "ip/udp/5353/mdns/[x/+y]/protocol", "_tcp", true, 1, 1, 0);
            !IsValid(D.RecordMsg(r)) && Image(name, [r]) == {}
    ensures var r := D.Rec(net, dev, "ip/udp/5353/mdns/[x/@y]/protocol", "_tcp", true, 1, 1, 0);
            name != "@" ==> RecPair(r) !in Image(name, [r])
  {
    hide ReplacePair, IsValid;
    WildcardIsInvalid(net, dev);
    var r := D.Rec(net, dev, "ip/udp/5353/mdns/[x/@y]/protocol", "_tcp", true, 1, 1, 0);
    AtInTopic(net, dev);
    OwnPairInImage(name, [r], r);
  }

  /** A character pair of the key stands in the topic. */
  lemma KeyInTopic(net: Mac, dev: Mac, key: string, i: nat, c: char)
    requires i + 1 < |key| && |key| <= 100 && key[i] == '/' && key[i + 1] == c
    ensures D.Truncate(D.FullTopic(net, dev, key)) == D.FullTopic(net, dev, key)
    ensures HasPair(D.FullTopic(net, dev, key), '/', c)
  {
    hide BytesText;
    BytesTextLength(net, "");
    BytesTextLength(dev, "");
    var t := D.FullTopic(net, dev, key);
    assert t[42..] == key;
    assert t[42 + i] == t[42..][i] && t[42 + i + 1] == t[42..][i + 1];
  }

  lemma WildcardIsInvalid(net: Mac, dev: Mac)
    ensures var r := D.Rec(net, dev, "ip/udp/5353/mdns/[x/+y]/protocol", "_tcp", true, 1, 1, 0);
            !IsValid(D.RecordMsg(r))
  {
    hide D.FullTopic, D.Truncate;
    KeyInTopic(net, dev, "ip/udp/5353/mdns/[x/+y]/protocol", 19, '+');
  }

  lemma AtInTopic(net: Mac, dev: Mac)
    ensures var r := D.Rec(net, dev, "ip/udp/5353/mdns/[x/@y]/protocol", "_tcp", true, 1, 1, 0);
            HasPair(D.RecordMsg(r).topic, '/', '@')
  {
    hide D.FullTopic, D.Truncate;
    KeyInTopic(net, dev, "ip/udp/5353/mdns/[x/@y]/protocol", 19, '@');
  }
}
