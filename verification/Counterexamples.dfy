/** Runs that show which unconditional promises go further than the handlers do. */
module Counterexamples {
  import opened Basics
  import opened ObjectStore
  import opened Service
  import opened Consistency
  import opened StrongConsistency

  /** How many writes an indexer has before it. */
  function WritesLeft(stage: Stage): nat {
    match stage
    case AtGoMod => 3
    case AtZip => 2
    case AtDelete => 1
  }

  /** A definite reply to a write of this process. */
  predicate OwnWrite(ev: Event, ix: nat) {
    (ev.Succeed? || ev.Refuse?) && ev.pid == ix
  }

  /** One write of an indexer, whether the object is there already or not. */
  lemma IndexerWrites(r: Run, ix: nat) returns (r': Run, ev: Event)
    requires IsRun(r) && ix in Last(r).procs && Last(r).procs[ix].Indexing?
    ensures Continues(r, r') && r'.events == r.events + [ev] && OwnWrite(ev, ix)
    ensures var p := Last(r).procs[ix];
            && Last(r').procs == Last(r).procs[ix := NextStage(p)]
            && (p.stage == AtDelete ==> !Exists(CellOf(Last(r'), p.v), Concat))
  {
    var p := Last(r).procs[ix];
    var w := Pending(p).value;
    var child := FreshPid(Last(r));
    ev := if w.DeleteConcat? || !Exists(CellOf(Last(r), w.v), Target(w)) then Succeed(ix, child) else Refuse(ix);
    r' := Extend(r, ev);
  }

  /** An indexer does all its writes, after which the concat object is gone. */
  lemma {:induction false} IndexerFinishes(r: Run, ix: nat) returns (r': Run)
    requires IsRun(r) && ix in Last(r).procs && Last(r).procs[ix].Indexing?
    ensures Continues(r, r') && Last(r').procs == Last(r).procs[ix := Stopped]
    ensures forall ev :: ev in r'.events[|r.events|..] ==> OwnWrite(ev, ix)
    ensures !Exists(CellOf(Last(r'), Last(r).procs[ix].v), Concat)
    decreases WritesLeft(Last(r).procs[ix].stage)
  {
    var r1, ev := IndexerWrites(r, ix);
    if Last(r).procs[ix].stage == AtDelete {
      r' := r1;
    } else {
      r' := IndexerFinishes(r1, ix);
      assert r'.events[|r.events|..] == [ev] + r'.events[|r1.events|..];
    }
  }

  // ---------- a request that overlaps the move ----------

  /** A request looks twice and finds nothing. */
  lemma MissTwice(r: Run, pid: nat, e: Endpoint, v: ModuleVersion) returns (r': Run)
    requires IsRun(r) && !Committed(Last(r), v) && IsVersionEndpoint(e)
    requires pid in Last(r).procs && Last(r).procs[pid] == Looking(e, v, true)
    ensures Continues(r, r') && !Committed(Last(r'), v)
    ensures Last(r').procs == Last(r).procs[pid := Fetching(e, Some(v))]
  {
    Reachable(r, |r.events|);
    assert CellOk(CellOf(Last(r), v), LogOf(Last(r), v));
    r' := Extend(r, Look(pid));
    assert Last(r').procs[pid] == Looking(e, v, false) && CellOf(Last(r'), v) == EMPTY;
    r' := Extend(r', Look(pid));
  }

  /** A request downloads a copy and creates the concat object; its indexer is about to start. */
  lemma Create(r: Run, pid: nat, ix: nat, v: ModuleVersion, copy: Copy) returns (r': Run)
    requires IsRun(r) && pid in Last(r).procs && Last(r).procs[pid].Fetching? && Last(r).procs[pid].e != WarmUp
    requires ix !in Last(r).procs && !Exists(CellOf(Last(r), v), Concat)
    ensures Continues(r, r') && LogOf(Last(r'), v) == LogOf(Last(r), v) + [copy]
    ensures CellOf(Last(r'), v).concat == Some(copy)
    ensures var p := Last(r).procs[pid];
            Last(r').procs == Last(r).procs[pid := Answered(p.e, p.asked, v, View(p.e, copy))]
                                           [ix := Indexing(v, copy, AtGoMod)]
  {
    r' := Extend(r, Download(pid, v, copy));
    assert CellOf(Last(r'), v) == CellOf(Last(r), v) && LogOf(Last(r'), v) == LogOf(Last(r), v);
    r' := Extend(r', Succeed(pid, ix));
  }

  /** A request arrives and is answered from its first lookup. */
  lemma AskComplete(r: Run, pid: nat, e: Endpoint, v: ModuleVersion) returns (r': Run)
    requires IsRun(r) && pid !in Last(r).procs && IsVersionEndpoint(e) && Complete(CellOf(Last(r), v))
    ensures Continues(r, r') && Committed(Last(r), v)
    ensures Last(r').procs == Last(r).procs[pid := Answered(e, Some(v), v, View(e, Chosen(Last(r), v)))]
  {
    Reachable(r, |r.events|);
    FoundIsLogged(CellOf(Last(r), v), LogOf(Last(r), v), FirstLookup(e), e);
    r' := Extend(r, Arrive(pid, e, v));
    assert CellOf(Last(r'), v) == CellOf(Last(r), v) && Last(r').procs[pid] == Looking(e, v, true);
    r' := Extend(r', Look(pid));
  }

  /** While a request waits for its download, another one commits the first copy and it is moved. */
  lemma CommitBehindARequest(r: Run, pid: nat, other: Endpoint, v: ModuleVersion, copy: Copy) returns (r': Run, n: nat)
    requires IsRun(r) && !Committed(Last(r), v) && IsVersionEndpoint(other) && pid in Last(r).procs
    ensures Continues(r, r') && n !in Last(r).procs && n != pid
    ensures pid in Last(r').procs && Last(r').procs[pid] == Last(r).procs[pid]
    ensures n in Last(r').procs && Last(r').procs[n] == Answered(other, Some(v), v, View(other, copy))
    ensures Committed(Last(r'), v) && Chosen(Last(r'), v) == copy
    ensures Complete(CellOf(Last(r'), v)) && !Exists(CellOf(Last(r'), v), Concat)
  {
    n := FreshPid(Last(r));
    var r1 := Extend(r, Arrive(n, other, v));
    assert LogOf(Last(r1), v) == LogOf(Last(r), v) && Last(r1).procs[n] == Looking(other, v, true);
    var r2 := MissTwice(r1, n, other, v);
    Reachable(r2, |r2.events|);
    assert CellOk(CellOf(Last(r2), v), LogOf(Last(r2), v));
    var r3 := Create(r2, n, n + 1, v, copy);
    r' := IndexerFinishes(r3, n + 1);
    OneCopy(r3, r', v, copy);
  }

  /** Once the concat object of a version with one creation is gone the version is complete. */
  lemma OneCopy(r: Run, r': Run, v: ModuleVersion, copy: Copy)
    requires IsRun(r) && Continues(r, r') && LogOf(Last(r), v) == [copy] && !Exists(CellOf(Last(r'), v), Concat)
    ensures Complete(CellOf(Last(r'), v)) && Committed(Last(r'), v) && Chosen(Last(r'), v) == copy
  {
    assert r'.states[|r.events|] == Last(r);
    VersionGrows(r', |r.events|, |r'.events|, v);
  }

  /**
    In every state in which a version is not committed and a request for it has yet to look, that request (pid)
    can still answer with a second download after another one (n) has reported a first one; a later request
    of the same kind (q) reports the first one again.
   */
  lemma ClaimFailsWithoutCondition(r: Run, pid: nat, e: Endpoint, other: Endpoint, v: ModuleVersion, first: Copy,
                                   second: Copy)
    returns (r': Run, n: nat, q: nat)
    requires IsRun(r) && !Committed(Last(r), v) && IsVersionEndpoint(e) && IsVersionEndpoint(other)
    requires pid in Last(r).procs && Last(r).procs[pid] == Looking(e, v, true)
    requires View(e, first) != View(e, second)
    ensures Continues(r, r') && |{pid, n, q}| == 3 && {pid, n, q} <= Last(r').procs.Keys
    ensures Last(r').procs[n] == Answered(other, Some(v), v, View(other, first))
    ensures Last(r').procs[pid] == Answered(e, Some(v), v, View(e, second))
    ensures Last(r').procs[q] == Answered(e, Some(v), v, View(e, first))
  {
    var r1 := MissTwice(r, pid, e, v);
    var r2;
    r2, n := CommitBehindARequest(r1, pid, other, v, first);
    q := FreshPid(Last(r2));
    var r3 := Create(r2, pid, q + 1, v, second);
    VersionGrows(r3, |r2.events|, |r3.events|, v);
    assert r3.states[|r2.events|] == Last(r2);
    r' := AskComplete(r3, q, e, v);
  }

  /** A request misses once, the version is moved, and it misses again. */
  lemma MissAroundTheMove(r: Run, pid: nat, ix: nat, e: Endpoint, v: ModuleVersion) returns (r': Run)
    requires IsRun(r) && Committed(Last(r), v) && IsVersionEndpoint(e) && !Exists(CellOf(Last(r), v), FirstLookup(e))
    requires pid in Last(r).procs && Last(r).procs[pid] == Looking(e, v, true)
    requires ix in Last(r).procs && Last(r).procs[ix].Indexing? && Last(r).procs[ix].v == v
    ensures Continues(r, r') && pid in Last(r').procs && Last(r').procs[pid] == Fetching(e, Some(v))
    ensures Complete(CellOf(Last(r'), v)) && !Exists(CellOf(Last(r'), v), Concat)
  {
    var r1 := Extend(r, Look(pid));
    assert Last(r1).procs[pid] == Looking(e, v, false) && Last(r1).procs[ix] == Last(r).procs[ix];
    var r2 := IndexerFinishes(r1, ix);
    var r3 := Extend(r2, Look(pid));
    assert r3.states[|r.events|] == Last(r) && CellOf(Last(r3), v) == CellOf(Last(r2), v);
    VersionGrows(r3, |r.events|, |r3.events|, v);
    r' := r3;
  }

  /**
    In every state in which an indexer is at work on a version and a request for it has yet to look for an object
    that is not there, that request can still answer with any second download; a later one of its kind (q)
    reports the copy of record.
   */
  lemma ClaimFailsWhileMoving(r: Run, pid: nat, ix: nat, e: Endpoint, v: ModuleVersion, second: Copy)
    returns (r': Run, q: nat)
    requires IsRun(r) && Committed(Last(r), v) && IsVersionEndpoint(e) && !Exists(CellOf(Last(r), v), FirstLookup(e))
    requires pid in Last(r).procs && Last(r).procs[pid] == Looking(e, v, true)
    requires ix in Last(r).procs && Last(r).procs[ix].Indexing? && Last(r).procs[ix].v == v
    requires View(e, second) != View(e, Chosen(Last(r), v))
    ensures Continues(r, r') && pid != q && {pid, q} <= Last(r').procs.Keys
    ensures Last(r').procs[pid] == Answered(e, Some(v), v, View(e, second))
    ensures Last(r').procs[q] == Answered(e, Some(v), v, View(e, Chosen(Last(r), v)))
  {
    var r1 := MissAroundTheMove(r, pid, ix, e, v);
    q := FreshPid(Last(r1));
    var r2 := Create(r1, pid, q + 1, v, second);
    assert r2.states[|r.events|] == Last(r) && r2.states[|r1.events|] == Last(r1);
    VersionGrows(r2, |r.events|, |r2.events|, v);
    VersionGrows(r2, |r1.events|, |r2.events|, v);
    r' := AskComplete(r2, q, e, v);
  }

  // ---------- a listing that races the move ----------

  /** Request 0 commits a copy, its indexer (1) has not started, and listing 2 arrives. */
  lemma ListArrivesAfterCommit(v: ModuleVersion, copy: Copy) returns (r: Run)
    ensures IsRun(r) && LogOf(Last(r), v) == [copy] && CellOf(Last(r), v) == Cell(Some(copy), None, None)
    ensures Last(r).cells.Keys == {v} && {0, 1, 2} <= Last(r).procs.Keys && 3 !in Last(r).procs
    ensures Last(r).procs[0] == Answered(Info, None, v, TimeOf(copy.time))
    ensures Last(r).procs[1] == Indexing(v, copy, AtGoMod)
    ensures Last(r).procs[2] == Listing(v.path, Scan(iset{}, false), Scan(iset{}, false), {})
  {
    r := Run([INIT], []);
    r := Extend(r, ArriveUnresolved(0, Info));
    r := Extend(r, Download(0, v, copy));
    r := Extend(r, Succeed(0, 1));
    r := Extend(r, ListArrive(2, v.path));
  }

  /** Nothing but version v is stored; indexer 1 is at work on it and listing 2 is under way. */
  ghost predicate Moving(r: Run, v: ModuleVersion, copy: Copy, stage: Stage) {
    && IsRun(r) && Last(r).cells.Keys == {v}
    && {1, 2} <= Last(r).procs.Keys && 3 !in Last(r).procs && Last(r).procs[1] == Indexing(v, copy, stage)
    && CellOf(Last(r), v) == Cell(Some(copy),
                                  if stage == AtGoMod then None else Some(GoModObject(copy.time, copy.goMod)),
                                  if stage == AtDelete then Some(copy.zip) else None)
  }

  lemma MoveOn(r: Run, v: ModuleVersion, copy: Copy, stage: Stage) returns (r': Run)
    requires Moving(r, v, copy, stage) && stage != AtDelete
    ensures Continues(r, r') && |r'.states| == |r.states| + 1
    ensures Moving(r', v, copy, if stage == AtGoMod then AtZip else AtDelete) && Last(r').procs[2] == Last(r).procs[2]
  {
    r' := Extend(r, Succeed(1, 3));
  }

  /** The three writes of indexer 1, which leave the listing alone. */
  lemma Move(r: Run, v: ModuleVersion, copy: Copy) returns (r': Run)
    requires Moving(r, v, copy, AtGoMod)
    ensures Continues(r, r') && |r'.states| == |r.states| + 3 && Last(r').cells.Keys == {v}
    ensures 2 in Last(r').procs && Last(r').procs[2] == Last(r).procs[2] && CellOf(Last(r'), v).concat == None
  {
    var r1 := MoveOn(r, v, copy, AtGoMod);
    var r2 := MoveOn(r1, v, copy, AtZip);
    r' := Extend(r2, Succeed(1, 3));
  }

  /** The listing reads its only gomod page before the move. */
  lemma GoModPageBeforeMove(v: ModuleVersion, copy: Copy) returns (r: Run, a: nat)
    ensures IsRun(r) && At(r, a) && a < |r.events| && Committed(r.states[a], v) && 2 in r.states[a].procs
    ensures r.states[a].procs[2] == Listing(v.path, Scan(iset{}, false), Scan(iset{}, false), {})
    ensures Moving(r, v, copy, AtGoMod)
    ensures Last(r).procs[2] == Listing(v.path, Scan(iset{}, true), Scan(iset{}, false), {})
  {
    r := ListArrivesAfterCommit(v, copy);
    a := |r.events|;
    r := Extend(r, ListPage(2, GoMod, iset{}, true));
  }

  /**
    Why the order of the two page sequences matters: if the gomod pages are read before the move and the
    concat pages after it, a version committed before the listing started (step a) is not in the result.
   */
  lemma ListCanMissCommitted(v: ModuleVersion, copy: Copy) returns (r: Run, a: nat)
    ensures IsRun(r) && At(r, a) && Committed(r.states[a], v) && 2 in r.states[a].procs
    ensures r.states[a].procs[2] == Listing(v.path, Scan(iset{}, false), Scan(iset{}, false), {})
    ensures 2 in Last(r).procs && Last(r).procs[2] == Listed(v.path, {}, {})
  {
    r, a := GoModPageBeforeMove(v, copy);
    r := Move(r, v, copy);
    r := Extend(r, ListPage(2, Concat, iset{}, true));
    assert Last(r).procs[2] == Listing(v.path, Scan(iset{}, true), Scan(iset{}, true), {});
    r := Extend(r, ListReturn(2, {}));
  }
}
