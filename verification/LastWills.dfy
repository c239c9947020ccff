/** The life of a last will over whole interleaved runs (broker.py del_connection): the will set last is
    stored by exactly one step, after its connection has left. */
module LastWills {
  import opened Wrappers
  import opened Interleaving
  import opened NoMissedPublish
  import S = Store
  import Pattern

  /** The step stores the connection's last will. */
  predicate StoresWill(s: State, e: Event, c: Conn)
  {
    e == TouchCache(c) && c in s.threads && AtWill(s.threads[c])
  }

  function StoreSteps(rows: set<(string, string)>, es: seq<Event>, c: Conn): set<nat>
  {
    set m: nat | m < |es| && StoresWill(At(rows, es, m), es[m], c)
  }

  /** The will that the connection set last, unless it was taken since. */
  function LastSet(es: seq<Event>, c: Conn): Option<(string, string)>
  {
    if es == [] then None
    else
      var e := es[|es| - 1];
      if e.SetWill? && e.c == c then Some((e.topic, e.value))
      else if e == TakeWill(c) then None
      else LastSet(es[..|es| - 1], c)
  }

  lemma {:induction false} LastSetIsOnRecord(rows: set<(string, string)>, es: seq<Event>, c: Conn)
    requires IsRun(Init(rows), es)
    ensures var s := End(rows, es); LastSet(es, c) == if c in s.wills then Some(s.wills[c]) else None
  {
    hide Enabled, Next;
    if es != [] {
      var n := |es| - 1;
      LastSetIsOnRecord(rows, es[..n], c);
      WillsStep(End(rows, es[..n]), es[n], c);
    }
  }

  lemma WillsStep(s: State, e: Event, c: Conn)
    requires Enabled(s, e)
    ensures var s' := Next(s, e);
            && (e.SetWill? && e.c == c ==> c in s'.wills && s'.wills[c] == (e.topic, e.value))
            && (e == TakeWill(c) ==> c !in s'.wills)
            && (!(e.SetWill? && e.c == c) && e != TakeWill(c) ==>
                  (c in s'.wills <==> c in s.wills) && (c in s.wills ==> s'.wills[c] == s.wills[c]))
  {
    hide Pattern.Matches, S.Selected, CacheAfter, RowsAfterAll, HalfDone, Visible, Recipients, PhaseAfter;
    hide Owned, Mail, MailFor, MailOfAll, FoundCached, FoundRows, SubsWithout, Published;
  }

  /** The record counts the storing steps. */
  lemma {:induction false} StoreStepsCounted(rows: set<(string, string)>, es: seq<Event>, c: Conn)
    requires IsRun(Init(rows), es)
    ensures End(rows, es).willed[c] == |StoreSteps(rows, es, c)|
  {
    hide Enabled, Next, StoresWill;
    if es == [] {
      assert StoreSteps(rows, es, c) == {};
    } else {
      var n := |es| - 1;
      StoreStepsCounted(rows, es[..n], c);
      WilledStep(End(rows, es[..n]), es[n], c);
      StoreStepsExtend(rows, es, c);
      var before := StoreSteps(rows, es[..n], c);
      if StoresWill(At(rows, es, n), es[n], c) {
        assert n !in before;
      }
    }
  }

  lemma StoreStepsExtend(rows: set<(string, string)>, es: seq<Event>, c: Conn)
    requires es != []
    ensures var n := |es| - 1;
            StoreSteps(rows, es, c)
            == StoreSteps(rows, es[..n], c) + (if StoresWill(At(rows, es, n), es[n], c) then {n} else {})
  {
    hide StoresWill, Reached;
    var n := |es| - 1;
    forall m: nat | m < n ensures At(rows, es, m) == At(rows, es[..n], m) {
      assert es[..n][..m] == es[..m];
    }
    forall m: nat | m < n
      ensures m in StoreSteps(rows, es[..n], c) <==> StoresWill(At(rows, es, m), es[m], c)
    {
    }
  }

  lemma WilledStep(s: State, e: Event, c: Conn)
    requires Enabled(s, e)
    ensures Next(s, e).willed[c] == s.willed[c] + if StoresWill(s, e, c) then 1 else 0
  {
    hide Next, Enabled;
    EnabledHere(s, e);
    WillRecord(s, e);
  }

  lemma EnabledHere(s: State, e: Event)
    requires Enabled(s, e)
    ensures e.TouchCache? ==> e.c in s.threads
  {
  }

  /** A will once taken stays the one on record. */
  lemma {:induction false} TakenStays(rows: set<(string, string)>, es: seq<Event>, n: nat, m: nat, c: Conn)
    requires IsRun(Init(rows), es) && n < m <= |es| && es[n] == TakeWill(c)
    ensures c in At(rows, es, m).taken <==> c in At(rows, es, n).wills
    ensures c in At(rows, es, n).wills ==> At(rows, es, m).taken[c] == At(rows, es, n).wills[c]
    decreases m
  {
    hide Enabled, Next, At, IsRun, Structure, TablesOpen, CacheCovered, RowsCovered;
    PrefixIsRun(rows, es, m - 1);
    InvAt(rows, es, m - 1);
    var s, e := At(rows, es, m - 1), es[m - 1];
    WillRecord(s, e);
    assert WillOnce(s, c);
    if n == m - 1 {
      TakingFirst(s, c);
    } else {
      TakenStays(rows, es, n, m - 1, c);
      TakenBy(rows, es, n, m - 1, c);
      if e == TakeWill(c) {
        TakingFirst(s, c);
      }
    }
  }

  lemma InvAt(rows: set<(string, string)>, es: seq<Event>, n: nat)
    requires IsRun(Init(rows), es) && n <= |es|
    ensures Inv(At(rows, es, n))
  {
    PrefixIsRun(rows, es, n);
    InvOverRun(rows, es[..n]);
  }

  lemma TakingFirst(s: State, c: Conn)
    requires Enabled(s, TakeWill(c)) && WillOnce(s, c)
    ensures c !in s.taken && !TookWill(s.threads[c])
  {
  }

  /** Once it has come to its last will, a connection never comes to it again. */
  lemma {:induction false} TakenBy(rows: set<(string, string)>, es: seq<Event>, n: nat, m: nat, c: Conn)
    requires IsRun(Init(rows), es) && n < m <= |es| && es[n] == TakeWill(c)
    ensures c in At(rows, es, m).threads && TookWill(At(rows, es, m).threads[c])
    decreases m
  {
    hide Enabled, Next, At, IsRun, TookWill;
    PrefixIsRun(rows, es, m - 1);
    var s, e := At(rows, es, m - 1), es[m - 1];
    OthersStay(s, e);
    if n < m - 1 {
      TakenBy(rows, es, n, m - 1, c);
    }
    if e.c == c {
      TookStep(s, e);
    }
  }

  lemma TookStep(s: State, e: Event)
    requires Enabled(s, e) && (e.TakeWill? || (e.c in s.threads && TookWill(s.threads[e.c])))
    ensures TookWill(Next(s, e).threads[e.c])
  {
    hide Pattern.Matches, S.Selected, CacheAfter, RowsAfterAll, HalfDone, Visible, Recipients, Effect;
    hide Owned, Mail, MailFor, MailOfAll, FoundCached, FoundRows, SubsWithout, Published;
  }

  lemma OneElement(x: set<nat>) returns (m: nat)
    requires |x| == 1
    ensures x == {m}
  {
    m :| m in x;
    var rest := x - {m};
    assert |rest| == 0;
  }

  /** From its setting to its end: when a connection comes to take its last will and has ended by the end
      of the run, then the will it set last is stored by exactly one step of the run, after that; the step
      caches the topic and value that were set; and without a will set nothing is ever stored for it. */
  lemma {:induction false} WillLifecycle(rows: set<(string, string)>, es: seq<Event>, n: nat, c: Conn)
    requires IsRun(Init(rows), es) && n < |es| && es[n] == TakeWill(c)
    requires c in End(rows, es).threads && End(rows, es).threads[c].Gone?
    ensures LastSet(es[..n], c).None? ==> StoreSteps(rows, es, c) == {}
    ensures LastSet(es[..n], c).Some? ==>
              exists m: nat :: n < m < |es| && StoreSteps(rows, es, c) == {m}
                && var w := LastSet(es[..n], c).value; At(rows, es, m + 1).cache == At(rows, es, m).cache[w.0 := w.1]
  {
    hide Enabled, Next, IsRun, StoresWill, Reached, LastSet;
    PrefixIsRun(rows, es, n);
    LastSetIsOnRecord(rows, es[..n], c);
    TakenStays(rows, es, n, |es|, c);
    WholeRun(rows, es);
    InvOverRun(rows, es);
    assert WillOnce(End(rows, es), c);
    StoreStepsCounted(rows, es, c);
    if LastSet(es[..n], c).Some? {
      var m := OneElement(StoreSteps(rows, es, c));
      assert m in StoreSteps(rows, es, c);
      StoredAfterTaking(rows, es, n, m, c);
    }
  }

  /** A connection that has ended came to take its last will, so the above is about all of them. */
  lemma {:induction false} EndsByTaking(rows: set<(string, string)>, es: seq<Event>, c: Conn)
    requires IsRun(Init(rows), es)
    requires c in End(rows, es).threads && TookWill(End(rows, es).threads[c])
    ensures exists n :: 0 <= n < |es| && es[n] == TakeWill(c)
  {
    hide Enabled, Next, TookWill;
    if es != [] {
      var m := |es| - 1;
      var s, e := End(rows, es[..m]), es[m];
      OthersStay(s, e);
      if e.c == c && e != TakeWill(c) {
        TookBefore(s, e);
      }
      if e != TakeWill(c) {
        EndsByTaking(rows, es[..m], c);
        var n :| 0 <= n < m && es[..m][n] == TakeWill(c);
        assert es[n] == TakeWill(c);
      }
    }
  }

  lemma TookBefore(s: State, e: Event)
    requires Enabled(s, e) && !e.TakeWill? && TookWill(Next(s, e).threads[e.c])
    ensures e.c in s.threads && TookWill(s.threads[e.c])
  {
    hide Pattern.Matches, S.Selected, CacheAfter, RowsAfterAll, HalfDone, Visible, Recipients, Effect;
    hide Owned, Mail, MailFor, MailOfAll, FoundCached, FoundRows, SubsWithout, Published;
  }

  lemma StoredAfterTaking(rows: set<(string, string)>, es: seq<Event>, n: nat, m: nat, c: Conn)
    requires IsRun(Init(rows), es) && n < |es| && es[n] == TakeWill(c) && c in At(rows, es, n).wills
    requires m < |es| && StoresWill(At(rows, es, m), es[m], c)
    ensures n < m
    ensures var w := At(rows, es, n).wills[c]; At(rows, es, m + 1).cache == At(rows, es, m).cache[w.0 := w.1]
  {
    hide Enabled, Next, At, IsRun, TablesOpen, CacheCovered, RowsCovered, Structure;
    PrefixIsRun(rows, es, m);
    InvAt(rows, es, m);
    WillIsRetained(At(rows, es, m), c);
    if m < n {
      StaysTaken(rows, es, m, n, c);
      PrefixIsRun(rows, es, n);
      InvAt(rows, es, n);
      assert WillOnce(At(rows, es, n), c);
      TakingFirst(At(rows, es, n), c);
    } else {
      TakenStays(rows, es, n, m, c);
    }
  }

  lemma {:induction false} StaysTaken(rows: set<(string, string)>, es: seq<Event>, m: nat, n: nat, c: Conn)
    requires IsRun(Init(rows), es) && m <= n <= |es| && c in At(rows, es, m).taken
    ensures c in At(rows, es, n).taken
    decreases n
  {
    hide Enabled, Next, At, IsRun;
    if m < n {
      StaysTaken(rows, es, m, n - 1, c);
      PrefixIsRun(rows, es, n - 1);
      WillRecord(At(rows, es, n - 1), es[n - 1]);
    }
  }

  /** The step that stores a last will caches exactly the topic and value that were taken. */
  lemma WillIsRetained(s: State, c: Conn)
    requires Structure(s) && WillsOnce(s) && c in s.threads && AtWill(s.threads[c])
    ensures Enabled(s, TouchCache(c)) && c in s.taken
    ensures Next(s, TouchCache(c)).cache == s.cache[s.taken[c].0 := s.taken[c].1]
  {
    assert WellFormed(s.threads[c]) && WillOnce(s, c);
  }
}
