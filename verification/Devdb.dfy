/** The agent's record table (devdb.c) and the publishing loop over it (devdb_thread.c). */
module Devdb {
  import opened Wrappers
  import opened Bytes
  import opened Model

  const MAX_SEND_INTERVAL := 20000
  const TOPIC_LIMIT := 512
  const CLOCK_LIMIT := 0x1_0000_0000_0000_0000

  datatype Rec = Rec(
    net: Mac, dev: Mac, key: string, value: string, append: bool,
    createdAt: int, updatedAt: int, sentAt: int)

  /** Time since `t`, in unsigned 64-bit arithmetic. */
  function Since(now: int, t: int): int
  {
    (now - t) % CLOCK_LIMIT
  }

  // ---------- devdb_put ----------

  datatype Entry = Entry(net: Mac, dev: Mac, key: string, value: string, append: bool)

  predicate Same(r: Rec, e: Entry)
  {
    r.net == e.net && r.dev == e.dev && r.key == e.key && (e.append ==> r.value == e.value)
  }

  function Find(recs: seq<Rec>, e: Entry): (i: nat)
    ensures i <= |recs|
    ensures forall k :: 0 <= k < i ==> !Same(recs[k], e)
    ensures i < |recs| ==> Same(recs[i], e)
  {
    if recs == [] || Same(recs[0], e) then 0 else 1 + Find(recs[1..], e)
  }

  /** A changed value of a replacing record is due at once. */
  function Updated(r: Rec, e: Entry, now: int): Rec
  {
    r.(value := e.value, append := e.append, updatedAt := now,
       sentAt := if !e.append && r.value != e.value then 0 else r.sentAt)
  }

  function PutRec(recs: seq<Rec>, e: Entry, now: int): seq<Rec>
  {
    var i := Find(recs, e);
    if i < |recs| then recs[i := Updated(recs[i], e, now)]
    else recs + [Rec(e.net, e.dev, e.key, e.value, e.append, now, now, 0)]
  }

  // ---------- The scan ----------

  /** Not sent within the interval, and updated since it was last sent. */
  predicate Due(r: Rec, now: int)
  {
    !(Since(now, r.sentAt) < MAX_SEND_INTERVAL) && !(r.sentAt > r.updatedAt)
  }

  /** The topic before it is cut to the size of its buffer. */
  function FullTopic(net: Mac, dev: Mac, key: string): string
  {
    "/network/" + BytesText(net, "") + "/device/" + BytesText(dev, "") + "/" + key
  }

  function Truncate(s: string): string
  {
    if |s| <= TOPIC_LIMIT then s else s[..TOPIC_LIMIT]
  }

  function RecordMsg(r: Rec): Msg
  {
    Msg(PUB, Truncate(FullTopic(r.net, r.dev, r.key)), Some(r.value), Some(r.createdAt), Some(r.updatedAt),
        Some(if r.append then APPEND else PERSIST))
  }

  function Scanned(recs: seq<Rec>, now: int): (r: seq<Rec>)
    ensures |r| == |recs|
    ensures forall i :: 0 <= i < |recs| ==> r[i] == if Due(recs[i], now) then recs[i].(sentAt := now) else recs[i]
  {
    seq(|recs|, i requires 0 <= i < |recs| => if Due(recs[i], now) then recs[i].(sentAt := now) else recs[i])
  }

  function ScanMsgs(recs: seq<Rec>, now: int): seq<Msg>
  {
    if recs == [] then []
    else ScanMsgs(recs[..|recs| - 1], now)
         + (if Due(recs[|recs| - 1], now) then [RecordMsg(recs[|recs| - 1])] else [])
  }

  lemma NothingToScan(now: int)
    ensures ScanMsgs([], now) == []
  {
  }

  lemma ScanMsgsStep(recs: seq<Rec>, now: int, i: nat)
    requires i < |recs|
    ensures ScanMsgs(recs[..i + 1], now)
            == ScanMsgs(recs[..i], now) + (if Due(recs[i], now) then [RecordMsg(recs[i])] else [])
  {
    assert recs[..i + 1][..i] == recs[..i];
  }

  /** A put, field by field. A record is the same if its addresses and key are, and for an appending put its
      value too. Without such a record the entry is added, unsent; otherwise the first such record takes the
      value, the kind and the time, and is to be sent anew if a replacing put changed its value. Nothing else
      changes. */
  lemma PutExact(recs: seq<Rec>, e: Entry, now: int)
    ensures var recs' := PutRec(recs, e, now);
            if forall k :: 0 <= k < |recs| ==>
                 !(recs[k].net == e.net && recs[k].dev == e.dev && recs[k].key == e.key
                   && (e.append ==> recs[k].value == e.value))
            then recs' == recs + [Rec(e.net, e.dev, e.key, e.value, e.append, now, now, 0)]
            else
              exists i :: 0 <= i < |recs| == |recs'|
                && recs[i].net == e.net && recs[i].dev == e.dev && recs[i].key == e.key
                && (e.append ==> recs[i].value == e.value)
                && (forall k :: 0 <= k < i ==>
                      !(recs[k].net == e.net && recs[k].dev == e.dev && recs[k].key == e.key
                        && (e.append ==> recs[k].value == e.value)))
                && recs'[i] == Rec(e.net, e.dev, e.key, e.value, e.append, recs[i].createdAt, now,
                                   if e.append || recs[i].value == e.value then recs[i].sentAt else 0)
                && forall k :: 0 <= k < |recs| && k != i ==> recs'[k] == recs[k]
  {
    hide Find;
    var i := Find(recs, e);
    if i < |recs| {
      assert Same(recs[i], e);
    } else {
      forall k | 0 <= k < |recs|
        ensures !(recs[k].net == e.net && recs[k].dev == e.dev && recs[k].key == e.key
                  && (e.append ==> recs[k].value == e.value))
      {
        assert !Same(recs[k], e);
      }
    }
  }

  /** The message of a record, character by character: its topic is "/network/", the network's address,
      "/device/", the device's address, "/" and the key, cut to 512 characters, with addresses as small
      hexadecimal digits; the rest are its value, times and kind. */
  lemma RecordMessage(r: Rec, k: nat)
    requires k < 6
    ensures var m, t := RecordMsg(r), FullTopic(r.net, r.dev, r.key);
            && m.typ.PUB? && m.value == Some(r.value) && m.createdAt == Some(r.createdAt)
            && m.updatedAt == Some(r.updatedAt) && m.mode == Some(if r.append then APPEND else PERSIST)
            && m.topic == (if |t| <= 512 then t else t[..512])
            && |t| == 42 + |r.key| && t[..9] == "/network/" && t[21..29] == "/device/" && t[41..] == "/" + r.key
            && t[9 + 2 * k] == DIGITS[r.net[k] / 16] && t[10 + 2 * k] == DIGITS[r.net[k] % 16]
            && t[29 + 2 * k] == DIGITS[r.dev[k] / 16] && t[30 + 2 * k] == DIGITS[r.dev[k] % 16]
  {
    hide BytesText, Place;
    BytesTextLength(r.net, "");
    BytesTextLength(r.dev, "");
    BytesTextAt(r.net, "", k);
    BytesTextAt(r.dev, "", k);
    PlaceWithout(k);
    var t := FullTopic(r.net, r.dev, r.key);
    assert t[9..21] == BytesText(r.net, "") && t[29..41] == BytesText(r.dev, "");
  }

  lemma {:induction false} PlaceWithout(k: nat)
    ensures Place(0, k) == 2 * k
  {
    if k > 0 {
      PlaceWithout(k - 1);
    }
  }

  /** Whatever was put is due again exactly when the interval since its last publication has passed:
      an update is never held back longer, and a signal is only posted for a record that is due. */
  lemma {:induction false} PutMakesDue(recs: seq<Rec>, e: Entry, now: int, later: int)
    requires 0 <= now <= later < CLOCK_LIMIT
    requires forall i :: 0 <= i < |recs| ==> 0 <= recs[i].sentAt <= now
    ensures var r := PutRec(recs, e, now)[Find(recs, e)];
            && r.value == e.value && r.updatedAt == now
            && (Due(r, later) <==> later - r.sentAt >= MAX_SEND_INTERVAL)
            && (Since(now, r.sentAt) > MAX_SEND_INTERVAL ==> Due(r, now))
  {
    hide Find;
    var r := PutRec(recs, e, now)[Find(recs, e)];
    assert 0 <= r.sentAt <= now;
  }

  // ---------- The objects ----------

  class Record {
    const net: Mac
    const dev: Mac
    const key: string
    var value: string
    var append: bool
    const createdAt: int
    var updatedAt: int
    var sentAt: int

    constructor (e: Entry, now: int)
      ensures Val() == Rec(e.net, e.dev, e.key, e.value, e.append, now, now, 0)
    {
      net, dev, key, value, append := e.net, e.dev, e.key, e.value, e.append;
      createdAt, updatedAt, sentAt := now, now, 0;
    }

    function Val(): Rec
      reads this
    {
      Rec(net, dev, key, value, append, createdAt, updatedAt, sentAt)
    }
  }

  function Vals(s: seq<Record>): (r: seq<Rec>)
    reads s
    ensures |r| == |s| && forall i :: 0 <= i < |s| ==> r[i] == s[i].Val()
  {
    seq(|s|, i requires 0 <= i < |s| reads s => s[i].Val())
  }

  lemma FindIs(recs: seq<Rec>, e: Entry, i: nat)
    requires i <= |recs| && forall k :: 0 <= k < i ==> !Same(recs[k], e)
    requires i < |recs| ==> Same(recs[i], e)
    ensures Find(recs, e) == i
  {
  }

  class Devdb {
    var records: seq<Record>
    /** Messages handed to the connection's send queue, in order. */
    var outbox: seq<Msg>
    /** Signals to the publishing thread that were posted. */
    var signals: nat

    ghost predicate Valid()
      reads this
    {
      forall i, j :: 0 <= i < j < |records| ==> records[i] != records[j]
    }

    constructor ()
      ensures Valid() && records == [] && outbox == [] && signals == 0
    {
      records, outbox, signals := [], [], 0;
    }

    /** Finds or adds the record, and signals when it has not been sent within the interval. */
    method Put(e: Entry, now: int)
      requires Valid()
      modifies this, records
      ensures Valid()
      ensures Vals(records) == PutRec(old(Vals(records)), e, now)
      ensures outbox == old(outbox)
      ensures signals == old(signals)
                         + (var vals := old(Vals(records));
                            if Since(now, PutRec(vals, e, now)[Find(vals, e)].sentAt) > MAX_SEND_INTERVAL then 1 else 0)
    {
      hide Vals, Find, Since;
      ghost var vals := Vals(records);
      var i := 0;
      while i < |records| && !Same(records[i].Val(), e)
        invariant 0 <= i <= |records|
        invariant forall k :: 0 <= k < i ==> !Same(records[k].Val(), e)
      {
        i := i + 1;
      }
      FindIs(vals, e, i);
      if i == |records| {
        var r := new Record(e, now);
        records := records + [r];
      } else {
        var r := records[i];
        if !e.append && r.value != e.value {
          r.sentAt := 0;
        }
        r.value := e.value;
        r.append := e.append;
        r.updatedAt := now;
      }
      assert Vals(records) == PutRec(vals, e, now);
      if Since(now, records[i].sentAt) > MAX_SEND_INTERVAL {
        signals := signals + 1;
      }
    }

    /** Publishes every record that is due, in table order, and stamps it. */
    method Scan(now: int)
      requires Valid()
      modifies this`outbox, records
      ensures Valid()
      ensures Vals(records) == Scanned(old(Vals(records)), now)
      ensures outbox == old(outbox) + ScanMsgs(old(Vals(records)), now)
    {
      hide Due, RecordMsg, Vals, ScanMsgs;
      ghost var vals := Vals(records);
      NothingToScan(now);
      var i := 0;
      while i < |records|
        invariant 0 <= i <= |records|
        invariant forall k :: i <= k < |records| ==> records[k].Val() == vals[k]
        invariant forall k :: 0 <= k < i ==>
                    records[k].Val() == if Due(vals[k], now) then vals[k].(sentAt := now) else vals[k]
        invariant outbox == old(outbox) + ScanMsgs(vals[..i], now)
      {
        ScanMsgsStep(vals, now, i);
        var r := records[i];
        assert r.Val() == vals[i];
        if Due(r.Val(), now) {
          outbox := outbox + [RecordMsg(r.Val())];
          r.sentAt := now;
        }
        i := i + 1;
      }
      assert vals[..i] == vals;
      assert Vals(records) == Scanned(vals, now);
    }
  }

  // ---------- Topics tell records apart ----------

  /** Below the size of the topic buffer, the topic determines the addresses and the key. */
  lemma TopicInjective(a: Rec, b: Rec)
    requires |FullTopic(a.net, a.dev, a.key)| <= TOPIC_LIMIT && |FullTopic(b.net, b.dev, b.key)| <= TOPIC_LIMIT
    requires RecordMsg(a).topic == RecordMsg(b).topic
    ensures a.net == b.net && a.dev == b.dev && a.key == b.key
  {
    hide BytesText;
    BytesTextLength(a.net, "");
    BytesTextLength(b.net, "");
    BytesTextLength(a.dev, "");
    BytesTextLength(b.dev, "");
    var s, t := FullTopic(a.net, a.dev, a.key), FullTopic(b.net, b.dev, b.key);
    assert s[9..21] == BytesText(a.net, "") && t[9..21] == BytesText(b.net, "");
    assert s[29..41] == BytesText(a.dev, "") && t[29..41] == BytesText(b.dev, "");
    assert s[42..] == a.key && t[42..] == b.key;
    BytesTextInjective(a.net, b.net, "");
    BytesTextInjective(a.dev, b.dev, "");
  }
}
