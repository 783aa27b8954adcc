/**
  For every request and every state of it: exactly when it is sure to answer with the copy of record,
  whatever all other requests, indexers and lost writes still do.
 */
module RequestWindow {
  import opened Basics
  import opened ObjectStore
  import opened Service
  import opened Consistency
  import opened StrongConsistency
  import opened Counterexamples

  /** However this run goes on, if the request answers for the version then it does so with the chosen copy. */
  ghost predicate AlwaysChosen(r: Run, pid: nat, e: Endpoint, v: ModuleVersion) {
    forall r' ::
      Continues(r, r') && pid in Last(r').procs && AnswersFor(Last(r').procs[pid], e, v)
      ==> Committed(Last(r'), v) && Last(r').procs[pid].answer == View(e, Chosen(Last(r'), v))
  }

  predicate AnswersFor(p: Proc, e: Endpoint, v: ModuleVersion) {
    p.Answered? && p.e == e && p.asked == Some(v) && p.v == v
  }

  /** The request has missed, and may still find the concat object, or create it. */
  predicate InFlight(p: Proc, e: Endpoint, v: ModuleVersion) {
    || p == Looking(e, v, false)
    || p == Fetching(e, Some(v))
    || (p.Creating? && p.e == e && p.asked == Some(v) && p.v == v)
    || p == Rechecking(e, Some(v), v, true)
  }

  /** The request will not answer for the version: it gave up, or the go command reported another version. */
  predicate Elsewhere(p: Proc, v: ModuleVersion) {
    p == Stopped || ((p.Creating? || p.Rechecking? || p.Answered? || p.NotFound?) && p.v != v)
  }

  /** The concat object is there to stay, and reports what the copy of record does. */
  ghost predicate AnchoredFor(s: State, e: Endpoint, v: ModuleVersion) {
    Anchored(s, v) && Committed(s, v) && View(e, CellOf(s, v).concat.value) == View(e, Chosen(s, v))
  }

  ghost predicate Safe(s: State, p: Proc, e: Endpoint, v: ModuleVersion) {
    || (p == Looking(e, v, true) && (Exists(CellOf(s, v), FirstLookup(e)) || AnchoredFor(s, e, v)))
    || (InFlight(p, e, v) && AnchoredFor(s, e, v))
    || p == Rechecking(e, Some(v), v, false)
    || (Committed(s, v) && p == Answered(e, Some(v), v, View(e, Chosen(s, v))))
    || Elsewhere(p, v)
  }

  // ---------- safe requests stay safe ----------

  lemma AnchoredForStep(s: State, ev: Event, e: Endpoint, v: ModuleVersion)
    requires Inv(s) && Enabled(s, ev) && AnchoredFor(s, e, v)
    ensures AnchoredFor(Next(s, ev), e, v)
  {
    AnchoredStep(s, ev, v);
    StepKeepsInv(s, ev);
    assert Extends(CellOf(s, v), LogOf(s, v), CellOf(Next(s, ev), v), LogOf(Next(s, ev), v));
  }

  /** A lookup that is sure to find something gives the chosen view. */
  lemma SureLookup(c: Cell, log: seq<Copy>, kind: ObjectKind, e: Endpoint)
    requires CellOk(c, log) && Exists(c, kind) && IsVersionEndpoint(e)
    requires kind == FirstLookup(e) || (kind == Concat && log != [] && View(e, c.concat.value) == View(e, log[0]))
    ensures log != [] && Lookup(c, kind, e) == Some(View(e, log[0]))
  {
    if kind != Concat {
      FoundIsLogged(c, log, kind, e);
    }
  }

  /** A lookup of the request itself. */
  lemma SafeLook(s: State, pid: nat, e: Endpoint, v: ModuleVersion)
    requires Inv(s) && Enabled(s, Look(pid)) && IsVersionEndpoint(e) && Safe(s, s.procs[pid], e, v)
    ensures Safe(Next(s, Look(pid)), Next(s, Look(pid)).procs[pid], e, v)
  {
    var p, t := s.procs[pid], Next(s, Look(pid));
    var c, log := CellOf(s, v), LogOf(s, v);
    assert CellOk(c, log) && ProcOk(s, p);
    assert CellOf(t, v) == c && LogOf(t, v) == log;
    if p == Looking(e, v, true) && !Exists(c, FirstLookup(e)) {
      AnchoredForStep(s, Look(pid), e, v);
    } else if p == Looking(e, v, true) || p == Rechecking(e, Some(v), v, false) {
      SureLookup(c, log, FirstLookup(e), e);
    } else if InFlight(p, e, v) {
      SureLookup(c, log, Concat, e);
    }
  }

  /** Any other step of the request itself. */
  lemma SafeMove(s: State, ev: Event, pid: nat, e: Endpoint, v: ModuleVersion)
    requires Enabled(s, ev) && !ev.Deliver? && ev.pid == pid && ev != Look(pid) && IsVersionEndpoint(e)
    requires pid in s.procs && Safe(s, s.procs[pid], e, v)
    ensures var p, p' := s.procs[pid], Next(s, ev).procs[pid];
            p' == p || Elsewhere(p', v) || (InFlight(p, e, v) && InFlight(p', e, v))
  {}

  lemma SafeStep(s: State, ev: Event, pid: nat, e: Endpoint, v: ModuleVersion)
    requires Inv(s) && Enabled(s, ev) && IsVersionEndpoint(e)
    requires pid in s.procs && Safe(s, s.procs[pid], e, v)
    ensures pid in Next(s, ev).procs && Safe(Next(s, ev), Next(s, ev).procs[pid], e, v)
  {
    OnlyOwnEventsMove(s, ev, pid);
    if ev == Look(pid) {
      SafeLook(s, pid, e, v);
    } else {
      if !ev.Deliver? && ev.pid == pid {
        SafeMove(s, ev, pid, e, v);
      }
      SafePersists(s, ev, Next(s, ev).procs[pid], e, v);
    }
  }

  /** What others do cannot make a state of the request unsafe. */
  lemma SafePersists(s: State, ev: Event, p: Proc, e: Endpoint, v: ModuleVersion)
    requires Inv(s) && Enabled(s, ev) && IsVersionEndpoint(e) && Safe(s, p, e, v)
    ensures Safe(Next(s, ev), p, e, v)
  {
    StepKeepsInv(s, ev);
    assert Extends(CellOf(s, v), LogOf(s, v), CellOf(Next(s, ev), v), LogOf(Next(s, ev), v));
    if AnchoredFor(s, e, v) {
      AnchoredForStep(s, ev, e, v);
    }
  }

  lemma {:induction false} SafeStays(r: Run, i: nat, k: nat, pid: nat, e: Endpoint, v: ModuleVersion)
    requires IsRun(r) && i <= k && At(r, k) && IsVersionEndpoint(e)
    requires pid in r.states[i].procs && Safe(r.states[i], r.states[i].procs[pid], e, v)
    ensures pid in r.states[k].procs && Safe(r.states[k], r.states[k].procs[pid], e, v)
    decreases k - i
  {
    if i < k {
      SafeStays(r, i, k - 1, pid, e, v);
      Reachable(r, k - 1);
      assert StepAt(r, k - 1);
      SafeStep(r.states[k - 1], r.events[k - 1], pid, e, v);
    }
  }

  lemma SafeIsAlwaysChosen(r: Run, pid: nat, e: Endpoint, v: ModuleVersion)
    requires IsRun(r) && IsVersionEndpoint(e) && pid in Last(r).procs && Safe(Last(r), Last(r).procs[pid], e, v)
    ensures AlwaysChosen(r, pid, e, v)
  {
    forall r' | Continues(r, r') && pid in Last(r').procs && AnswersFor(Last(r').procs[pid], e, v)
      ensures Committed(Last(r'), v) && Last(r').procs[pid].answer == View(e, Chosen(Last(r'), v))
    {
      assert r'.states[|r.events|] == Last(r);
      SafeStays(r', |r.events|, |r'.events|, pid, e, v);
    }
  }

  // ---------- and the others can go wrong ----------

  /** A request that came without a version creates the concat object with any copy. */
  lemma Recreate(r: Run, pid: nat, v: ModuleVersion, copy: Copy) returns (r': Run, ix: nat)
    requires IsRun(r) && pid in Last(r).procs && !Exists(CellOf(Last(r), v), Concat)
    ensures Continues(r, r') && pid in Last(r').procs && Last(r').procs[pid] == Last(r).procs[pid]
    ensures CellOf(Last(r'), v).concat == Some(copy) && LogOf(Last(r'), v) == LogOf(Last(r), v) + [copy]
    ensures ix in Last(r').procs && Last(r').procs[ix].Indexing? && Last(r').procs[ix].v == v
  {
    var n := FreshPid(Last(r));
    ix := n + 1;
    var r1 := Extend(r, ArriveUnresolved(n, Info));
    assert CellOf(Last(r1), v) == CellOf(Last(r), v) && LogOf(Last(r1), v) == LogOf(Last(r), v);
    r' := Create(r1, n, ix, v, copy);
  }

  /** A version that is committed and whose concat object is not there to stay can lose it. */
  lemma LoseConcat(r: Run, pid: nat, v: ModuleVersion) returns (r': Run)
    requires IsRun(r) && pid in Last(r).procs && !Last(r).procs[pid].Indexing? && Committed(Last(r), v)
    requires !Anchored(Last(r), v)
    ensures Continues(r, r') && pid in Last(r').procs && Last(r').procs[pid] == Last(r).procs[pid]
    ensures Committed(Last(r'), v) && !Exists(CellOf(Last(r'), v), Concat)
    ensures forall ev :: ev in r'.events[|r.events|..] ==> !ev.ListPage?
  {
    r' := r;
    if Exists(CellOf(Last(r), v), Concat) {
      if BeingIndexed(Last(r), v) {
        var ix :| ix in Last(r).procs && Last(r).procs[ix].Indexing? && Last(r).procs[ix].v == v;
        r' := IndexerFinishes(r, ix);
      } else {
        r' := Extend(r, Deliver(DeleteConcat(v)));
      }
    }
    assert r'.states[|r.events|] == Last(r);
    VersionGrows(r', |r.events|, |r'.events|, v);
  }

  /** Any other copy than the chosen one. */
  function Another(c: Copy): (d: Copy)
    ensures forall e :: View(e, c) != View(e, d)
  {
    Copy(c.time + 1, c.goMod + [0], c.zip + [0])
  }

  /** Whatever else is going on, a concat object with another copy can appear. */
  lemma WrongConcatAppears(r: Run, pid: nat, e: Endpoint, v: ModuleVersion) returns (r': Run)
    requires IsRun(r) && pid in Last(r).procs && !Last(r).procs[pid].Indexing? && !AnchoredFor(Last(r), e, v)
    ensures Continues(r, r') && pid in Last(r').procs && Last(r').procs[pid] == Last(r).procs[pid]
    ensures Exists(CellOf(Last(r'), v), Concat) && Committed(Last(r'), v)
    ensures View(e, CellOf(Last(r'), v).concat.value) != View(e, Chosen(Last(r'), v))
  {
    var r1 := r;
    if !Committed(Last(r), v) {
      Reachable(r, |r.events|);
      assert CellOk(CellOf(Last(r), v), LogOf(Last(r), v));
      var ix;
      r1, ix := Recreate(r, pid, v, Copy(0, [], []));
      assert BeingIndexed(Last(r1), v);
    }
    if Anchored(Last(r1), v) {
      r' := r1;
    } else {
      var r2 := LoseConcat(r1, pid, v);
      var ix;
      r', ix := Recreate(r2, pid, v, Another(Chosen(Last(r2), v)));
    }
  }

  /** A request that is refused the creation looks for the concat object again. */
  lemma RefusedLooks(r: Run, pid: nat, e: Endpoint, v: ModuleVersion) returns (r': Run)
    requires IsRun(r) && IsVersionEndpoint(e) && pid in Last(r).procs && Exists(CellOf(Last(r), v), Concat)
    requires var p := Last(r).procs[pid]; p.Creating? && p.e == e && p.asked == Some(v) && p.v == v
    ensures Continues(r, r') && CellOf(Last(r'), v) == CellOf(Last(r), v) && LogOf(Last(r'), v) == LogOf(Last(r), v)
    ensures pid in Last(r').procs && Last(r').procs[pid] == Rechecking(e, Some(v), v, true)
  {
    r' := Extend(r, Refuse(pid));
  }

  lemma FetchesAndLooks(r: Run, pid: nat, e: Endpoint, v: ModuleVersion) returns (r': Run)
    requires IsRun(r) && IsVersionEndpoint(e) && pid in Last(r).procs && Exists(CellOf(Last(r), v), Concat)
    requires Last(r).procs[pid] == Fetching(e, Some(v))
    ensures Continues(r, r') && CellOf(Last(r'), v) == CellOf(Last(r), v) && LogOf(Last(r'), v) == LogOf(Last(r), v)
    ensures pid in Last(r').procs && Last(r').procs[pid] == Rechecking(e, Some(v), v, true)
  {
    var r1 := Extend(r, Download(pid, v, Copy(0, [], [])));
    assert CellOf(Last(r1), v) == CellOf(Last(r), v) && LogOf(Last(r1), v) == LogOf(Last(r), v);
    r' := RefusedLooks(r1, pid, e, v);
  }

  /** A request in flight that meets a concat object can answer from it. */
  lemma AnswersFromConcat(r: Run, pid: nat, e: Endpoint, v: ModuleVersion) returns (r': Run)
    requires IsRun(r) && IsVersionEndpoint(e) && pid in Last(r).procs && InFlight(Last(r).procs[pid], e, v)
    requires Exists(CellOf(Last(r), v), Concat)
    ensures Continues(r, r') && pid in Last(r').procs && LogOf(Last(r'), v) == LogOf(Last(r), v)
    ensures Last(r').procs[pid] == Answered(e, Some(v), v, View(e, CellOf(Last(r), v).concat.value))
  {
    var p, r1 := Last(r).procs[pid], r;
    if p.Fetching? {
      r1 := FetchesAndLooks(r, pid, e, v);
    } else if p.Creating? {
      r1 := RefusedLooks(r, pid, e, v);
    }
    r' := Extend(r1, Look(pid));
  }

  lemma InFlightCanGoWrong(r: Run, pid: nat, e: Endpoint, v: ModuleVersion)
    requires IsRun(r) && IsVersionEndpoint(e) && pid in Last(r).procs && InFlight(Last(r).procs[pid], e, v)
    requires !AnchoredFor(Last(r), e, v)
    ensures !AlwaysChosen(r, pid, e, v)
  {
    var r1 := WrongConcatAppears(r, pid, e, v);
    var r2 := AnswersFromConcat(r1, pid, e, v);
    assert Continues(r, r2) && AnswersFor(Last(r2).procs[pid], e, v);
  }

  // ---------- the exact conditions ----------

  /** A request that has missed is sure to be right exactly if the concat object is there to stay and agrees. */
  lemma InFlightIsSafeIff(r: Run, pid: nat, e: Endpoint, v: ModuleVersion)
    requires IsRun(r) && IsVersionEndpoint(e) && pid in Last(r).procs && InFlight(Last(r).procs[pid], e, v)
    ensures AlwaysChosen(r, pid, e, v) <==> AnchoredFor(Last(r), e, v)
  {
    if AnchoredFor(Last(r), e, v) {
      SafeIsAlwaysChosen(r, pid, e, v);
    } else {
      InFlightCanGoWrong(r, pid, e, v);
    }
  }

  /** In an incomplete version that is committed the concat object can only go through an indexer at work. */
  lemma IncompleteIsAnchored(s: State, e: Endpoint, v: ModuleVersion)
    requires Inv(s) && Committed(s, v) && !Complete(CellOf(s, v))
    ensures AnchoredFor(s, e, v) <==> !BeingIndexed(s, v)
  {
    assert CellOk(CellOf(s, v), LogOf(s, v));
    assert DeleteConcat(v) in s.sent ==> WriteOk(s, DeleteConcat(v));
  }

  /**
    The promise, exactly. A request for a version that has not looked yet is sure to answer with the copy of
    record if and only if the object of its first lookup exists, or the version is committed and no indexer
    is at work on it.
   */
  lemma RequestIsSafeIff(r: Run, pid: nat, e: Endpoint, v: ModuleVersion)
    requires IsRun(r) && IsVersionEndpoint(e) && pid in Last(r).procs && Last(r).procs[pid] == Looking(e, v, true)
    ensures AlwaysChosen(r, pid, e, v) <==>
            Exists(CellOf(Last(r), v), FirstLookup(e)) || (Committed(Last(r), v) && !BeingIndexed(Last(r), v))
  {
    var s := Last(r);
    Reachable(r, |r.events|);
    if Committed(s, v) && !Exists(CellOf(s, v), FirstLookup(e)) {
      IncompleteIsAnchored(s, e, v);
    }
    if Exists(CellOf(s, v), FirstLookup(e)) || AnchoredFor(s, e, v) {
      SafeIsAlwaysChosen(r, pid, e, v);
      if !Exists(CellOf(s, v), FirstLookup(e)) {
        assert Committed(s, v);
      }
    } else {
      MissedCanGoWrong(r, pid, e, v);
    }
  }

  /** Such a request looks once, in vain, and is in flight. */
  lemma MissedCanGoWrong(r: Run, pid: nat, e: Endpoint, v: ModuleVersion)
    requires IsRun(r) && IsVersionEndpoint(e) && pid in Last(r).procs && Last(r).procs[pid] == Looking(e, v, true)
    requires !Exists(CellOf(Last(r), v), FirstLookup(e)) && !AnchoredFor(Last(r), e, v)
    ensures !AlwaysChosen(r, pid, e, v)
  {
    var r1 := Extend(r, Look(pid));
    assert Last(r1).procs[pid] == Looking(e, v, false);
    assert CellOf(Last(r1), v) == CellOf(Last(r), v) && LogOf(Last(r1), v) == LogOf(Last(r), v);
    if BeingIndexed(Last(r), v) {
      var ix :| ix in Last(r).procs && Last(r).procs[ix].Indexing? && Last(r).procs[ix].v == v;
      assert Last(r1).procs[ix] == Last(r).procs[ix];
    }
    InFlightCanGoWrong(r1, pid, e, v);
    var r2 :| Continues(r1, r2) && pid in Last(r2).procs && AnswersFor(Last(r2).procs[pid], e, v)
              && !(Committed(Last(r2), v) && Last(r2).procs[pid].answer == View(e, Chosen(Last(r2), v)));
    assert Continues(r, r2);
  }
}
