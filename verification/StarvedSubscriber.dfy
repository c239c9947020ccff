/** The failure clause cannot be dropped: one failed send starves every subscriber after it. */
module StarvedSubscriber {
  import opened Interleaving
  import opened NoMissedPublish
  import S = Store
  import Pattern

  const INIT := Init({})

  lemma Extend(es: seq<Event>, e: Event)
    requires IsRun(INIT, es) && Enabled(Reached(INIT, es), e)
    ensures IsRun(INIT, es + [e]) && Reached(INIT, es + [e]) == Next(Reached(INIT, es), e)
  {
    assert (es + [e])[..|es|] == es;
  }

  /** A new connection registers for "/a". */
  lemma {:induction false} Registers(es: seq<Event>, c: Conn) returns (es': seq<Event>)
    requires IsRun(INIT, es) && c !in Reached(INIT, es).threads
    ensures IsRun(INIT, es')
    ensures var s := Reached(INIT, es);
            Reached(INIT, es') == s.(
              conns := s.conns + {c}, subs := s.subs + {("/a", c)},
              threads := s.threads[c := ReadingCache([Sub("/a")], 0, {})])
  {
    hide IsRun, Reached, Pattern.Matches, S.Selected;
    es' := es + [Open(c)];
    Extend(es, Open(c));
    Extend(es', StartAsk(c, [Sub("/a")]));
    es' := es' + [StartAsk(c, [Sub("/a")])];
    Extend(es', Answer(c));
    es' := es' + [Answer(c)];
    assert Reached(INIT, es').threads == Reached(INIT, es).threads[c := ReadingCache([Sub("/a")], 0, {})];
  }

  /** A new connection subscribes to "/a" while nothing is stored. */
  lemma {:induction false} Subscribes(es: seq<Event>, c: Conn) returns (es': seq<Event>)
    requires IsRun(INIT, es)
    requires var s := Reached(INIT, es); c !in s.threads && s.cache == map[] && s.rows == {}
    ensures IsRun(INIT, es')
    ensures var s := Reached(INIT, es);
            Reached(INIT, es') == s.(
              conns := s.conns + {c}, subs := s.subs + {("/a", c)}, threads := s.threads[c := Idle])
  {
    hide IsRun, Reached, Pattern.Matches, S.Selected;
    var s := Reached(INIT, es);
    es' := Registers(es, c);
    Extend(es', ReadCache(c));
    es' := es' + [ReadCache(c)];
    assert Reached(INIT, es').threads[c] == ReadingRows([Sub("/a")], 0, {});
    Extend(es', ReadRows(c));
    es' := es' + [ReadRows(c)];
    assert Reached(INIT, es').threads[c] == Answering([Sub("/a")], 1, {});
    Extend(es', Reply(c));
    es' := es' + [Reply(c)];
    assert Reached(INIT, es').sent == s.sent;
    assert Reached(INIT, es').threads == s.threads[c := Idle];
  }

  /** A new connection retains "x" on "/a". */
  lemma {:induction false} Retains(es: seq<Event>, c: Conn) returns (es': seq<Event>)
    requires IsRun(INIT, es) && c !in Reached(INIT, es).threads && c !in Reached(INIT, es).open
    ensures IsRun(INIT, es')
    ensures var s := Reached(INIT, es);
            Reached(INIT, es') == Renewed(s, {("/a", "x")}).(
              conns := s.conns + {c}, cache := s.cache["/a" := "x"],
              own := Without(s.own, {("/a", "x")}) + {(c, "/a", "x")},
              threads := s.threads[c := Dispatching([Retain("/a", "x")], 0, {}, false)])
  {
    hide IsRun, Reached, Pattern.Matches, S.Selected;
    var s := Reached(INIT, es);
    var batch := [Retain("/a", "x")];
    es' := es;
    Extend(es', Open(c));
    es' := es' + [Open(c)];
    Extend(es', StartPub(c, batch));
    es' := es' + [StartPub(c, batch)];
    assert Published(batch) == {("/a", "x")};
    assert Reached(INIT, es').own == Without(s.own, {("/a", "x")}) + {(c, "/a", "x")};
    Extend(es', TouchCache(c));
    es' := es' + [TouchCache(c)];
    Extend(es', Commit(c));
    es' := es' + [Commit(c)];
    assert batch[..0] == [] && RowsAfterAll(s.rows, batch) == s.rows;
    assert Reached(INIT, es').threads == s.threads[c := Dispatching(batch, 0, {}, false)];
  }

  /** It then fills its outboxes. */
  lemma {:induction false} Publishes(es: seq<Event>, c: Conn)
    returns (es': seq<Event>, box: set<(Conn, string, string)>)
    requires IsRun(INIT, es) && c !in Reached(INIT, es).threads && c !in Reached(INIT, es).open
    ensures IsRun(INIT, es')
    ensures var s := Reached(INIT, es);
            Reached(INIT, es') == Renewed(s, {("/a", "x")}).(
              conns := s.conns + {c}, cache := s.cache["/a" := "x"],
              own := Without(s.own, {("/a", "x")}) + {(c, "/a", "x")},
              threads := s.threads[c := Sending(box, false)])
    ensures Pattern.Matches("/a", "/a") ==>
              forall d :: ("/a", d) in Reached(INIT, es).subs && d != c ==> (d, "/a", "x") in box
  {
    hide IsRun, Reached, Pattern.Matches, S.Selected;
    var s := Reached(INIT, es);
    es' := Retains(es, c);
    Extend(es', Dispatch(c));
    es' := es' + [Dispatch(c)];
    box := Reached(INIT, es').threads[c].box;
    forall d | ("/a", d) in s.subs && d != c && Pattern.Matches("/a", "/a") ensures (d, "/a", "x") in box {
      assert ("/a", d).1 in Recipients(s.subs, Retain("/a", "x"));
    }
    Extend(es', StartSend(c));
    es' := es' + [StartSend(c)];
    assert Reached(INIT, es').threads == s.threads[c := Sending(box, false)];
  }

  /** A send fails, and the publisher's handler leaves. */
  lemma {:induction false} Fails(es: seq<Event>, c: Conn) returns (es': seq<Event>)
    requires IsRun(INIT, es)
    requires var s := Reached(INIT, es);
             c in s.threads && s.threads[c].Sending? && !s.threads[c].dying && s.threads[c].box != {}
    requires c !in Reached(INIT, es).wills
    ensures IsRun(INIT, es')
    ensures var s, s' := Reached(INIT, es), Reached(INIT, es');
            && s'.cache == s.cache && s'.sent == s.sent && s'.own == s.own && s'.threads == s.threads[c := Gone]
            && forall x :: x in s.subs && x.1 != c ==> x in s'.subs
  {
    hide IsRun, Reached, Pattern.Matches, S.Selected;
    es' := es;
    Extend(es', SendFails(c));
    es' := es' + [SendFails(c)];
    Extend(es', DropConn(c));
    es' := es' + [DropConn(c)];
    Extend(es', DropSubs(c));
    es' := es' + [DropSubs(c)];
    Extend(es', TakeWill(c));
    es' := es' + [TakeWill(c)];
    assert Reached(INIT, es').threads == Reached(INIT, es).threads[c := Gone];
  }

  /** A run in which publisher 1 fails to reach one of its two subscribers: both handlers are idle
      and subscribed at the end, the value is still cached, and subscriber 3 never got it. */
  lemma {:induction false} FailedSendStarves() returns (es: seq<Event>)
    ensures IsRun(INIT, es) && Quiet(End({}, es))
    ensures var s := End({}, es);
            && Subscriber(s, 3, "/a") && Pattern.Matches("/a", "/a")
            && "/a" in s.cache && s.cache["/a"] == "x"
    ensures !Got({}, es, 3, "/a", "x")
  {
    hide IsRun, Reached, Pattern.Matches, Next, Enabled, Got;
    Pattern.MatchesItself("/a");
    Start();
    es := Subscribes([], 2);
    es := Subscribes(es, 3);
    assert ("/a", 3) in Reached(INIT, es).subs;
    ghost var box;
    es, box := Publishes(es, 1);
    assert (3, "/a", "x") in box;
    es := Fails(es, 1);
    assert ("/a", 3) in Reached(INIT, es).subs;
    if Got({}, es, 3, "/a", "x") {
      GotIsOnRecord({}, es, 3, "/a", "x");
    }
  }

  lemma Start()
    ensures IsRun(INIT, []) && Reached(INIT, []) == INIT
  {
  }
}
