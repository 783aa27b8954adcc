/** What a request does on its way: it looks before it downloads, and left alone it gets to its answer. */
module RequestPaths {
  import opened Basics
  import opened ObjectStore
  import opened Service
  import opened Consistency
  import opened StrongConsistency
  import opened Counterexamples

  // ---------- looking before downloading ----------

  /** At step i the request looks for an object and it is not there. */
  ghost predicate MissesAt(r: Run, i: nat, pid: nat, v: ModuleVersion, kind: ObjectKind) {
    i < |r.events| && i < |r.states| && r.events[i] == Look(pid) && !Exists(CellOf(r.states[i], v), kind)
  }

  /** The object that an endpoint serves in the end. */
  function FinalObject(e: Endpoint): ObjectKind {
    if e == ZipFile then Zip else GoMod
  }

  /** The object that has to be missing first; only a latest request begins with the concat object. */
  function LooksFirst(e: Endpoint): ObjectKind {
    if e == Latest then Concat else FinalObject(e)
  }

  /** The object that has to be missing next; background caching does not look again. */
  function LooksNext(e: Endpoint): ObjectKind {
    if e == Latest then GoMod else Concat
  }

  ghost predicate MissedFirst(r: Run, a: nat, k: nat, pid: nat, e: Endpoint, v: ModuleVersion) {
    exists j :: a < j < k && MissesAt(r, j, pid, v, LooksFirst(e))
  }

  ghost predicate MissedAll(r: Run, a: nat, k: nat, pid: nat, e: Endpoint, v: ModuleVersion) {
    if e == WarmUp then MissedFirst(r, a, k, pid, e, v)
    else exists i :: a < i < k && MissesAt(r, i, pid, v, LooksNext(e)) && MissedFirst(r, a, i, pid, e, v)
  }

  /** How far a request that arrived at step a has come at step k. */
  ghost predicate OnItsWay(r: Run, a: nat, k: nat, pid: nat, e: Endpoint, v: ModuleVersion)
    requires At(r, k)
  {
    && pid in r.states[k].procs
    && var p := r.states[k].procs[pid];
       && (p.Looking? ==> p.e == e && p.v == v && (p.first || (e != WarmUp && MissedFirst(r, a, k, pid, e, v))))
       && (p.Fetching? ==> MissedAll(r, a, k, pid, e, v))
  }

  /** Misses stay behind. */
  lemma MissesRemain(r: Run, a: nat, k: nat, pid: nat, e: Endpoint, v: ModuleVersion)
    ensures MissedFirst(r, a, k, pid, e, v) ==> MissedFirst(r, a, k + 1, pid, e, v)
    ensures MissedAll(r, a, k, pid, e, v) ==> MissedAll(r, a, k + 1, pid, e, v)
  {
    if MissedFirst(r, a, k, pid, e, v) {
      var j :| a < j < k && MissesAt(r, j, pid, v, LooksFirst(e));
      assert a < j < k + 1;
    }
    if e != WarmUp && MissedAll(r, a, k, pid, e, v) {
      var i :| a < i < k && MissesAt(r, i, pid, v, LooksNext(e)) && MissedFirst(r, a, i, pid, e, v);
      assert a < i < k + 1;
    }
  }

  /** A request that is not answered by a lookup has missed the object. */
  lemma LookStep(s: State, pid: nat, e: Endpoint, v: ModuleVersion)
    requires pid in s.procs && s.procs[pid].Looking? && s.procs[pid].e == e && s.procs[pid].v == v
    requires e == WarmUp ==> s.procs[pid].first
    ensures var p, p' := s.procs[pid], Next(s, Look(pid)).procs[pid];
            && (p'.Looking? ==>
                  p' == Looking(e, v, false) && p.first && e != WarmUp && !Exists(CellOf(s, v), LooksFirst(e)))
            && (p'.Fetching? ==> if p.first then e == WarmUp && !Exists(CellOf(s, v), LooksFirst(e))
                                 else !Exists(CellOf(s, v), LooksNext(e)))
  {}

  /** Nothing else leads to a lookup or to a download. */
  lemma OtherSteps(s: State, ev: Event, pid: nat)
    requires Enabled(s, ev) && pid in s.procs && (ev != Look(pid) || !s.procs[pid].Looking?)
    ensures var p' := Next(s, ev).procs[pid]; p'.Looking? || p'.Fetching? ==> p' == s.procs[pid]
  {}

  lemma OnItsWayStep(r: Run, a: nat, k: nat, pid: nat, e: Endpoint, v: ModuleVersion)
    requires IsRun(r) && a < k && At(r, k + 1) && OnItsWay(r, a, k, pid, e, v)
    ensures OnItsWay(r, a, k + 1, pid, e, v)
  {
    assert StepAt(r, k);
    var s, ev := r.states[k], r.events[k];
    OnlyOwnEventsMove(s, ev, pid);
    MissesRemain(r, a, k, pid, e, v);
    if ev == Look(pid) && s.procs[pid].Looking? {
      LookStep(s, pid, e, v);
      assert !Exists(CellOf(s, v), LooksFirst(e)) ==> MissesAt(r, k, pid, v, LooksFirst(e));
      assert !Exists(CellOf(s, v), LooksNext(e)) ==> MissesAt(r, k, pid, v, LooksNext(e));
    } else {
      OtherSteps(s, ev, pid);
    }
  }

  lemma {:induction false} StaysOnItsWay(r: Run, a: nat, k: nat, pid: nat, e: Endpoint, v: ModuleVersion)
    requires IsRun(r) && a < k && At(r, k) && r.events[a] == Arrive(pid, e, v)
    ensures OnItsWay(r, a, k, pid, e, v)
    decreases k
  {
    if k == a + 1 {
      assert StepAt(r, a);
    } else {
      StaysOnItsWay(r, a, k - 1, pid, e, v);
      OnItsWayStep(r, a, k - 1, pid, e, v);
    }
  }

  /**
    A request that arrived for a version downloads only after it has looked, and found nothing, in both places:
    for the final object and then for the concat object, a latest request the other way round. Background
    caching looks for the gomod object only.
   */
  lemma DownloadsOnlyAfterMisses(r: Run, a: nat, k: nat, pid: nat, e: Endpoint, v: ModuleVersion)
    returns (j: nat, i: nat)
    requires IsRun(r) && a < k < |r.events| && r.events[a] == Arrive(pid, e, v)
    requires r.events[k].Download? && r.events[k].pid == pid
    ensures a < j <= i < k && MissesAt(r, j, pid, v, LooksFirst(e))
    ensures e != WarmUp ==> j < i && MissesAt(r, i, pid, v, LooksNext(e))
  {
    StaysOnItsWay(r, a, k, pid, e, v);
    assert StepAt(r, k);
    if e == WarmUp {
      j :| a < j < k && MissesAt(r, j, pid, v, LooksFirst(e));
      i := j;
    } else {
      i :| a < i < k && MissesAt(r, i, pid, v, LooksNext(e)) && MissedFirst(r, a, i, pid, e, v);
      j :| a < j < i && MissesAt(r, j, pid, v, LooksFirst(e));
    }
  }

  lemma {:induction false} AnchoredStays(r: Run, i: nat, k: nat, v: ModuleVersion)
    requires IsRun(r) && i <= k && At(r, k) && Anchored(r.states[i], v)
    ensures Anchored(r.states[k], v)
    decreases k - i
  {
    if i < k {
      AnchoredStays(r, i, k - 1, v);
      assert StepAt(r, k - 1);
      AnchoredStep(r.states[k - 1], r.events[k - 1], v);
    }
  }

  /** A stored version whose concat object is there to stay is never downloaded for a client who asks for it. */
  lemma AnchoredIsNotDownloaded(r: Run, a: nat, k: nat, pid: nat, e: Endpoint, v: ModuleVersion)
    requires IsRun(r) && a < k < |r.events| && r.events[a] == Arrive(pid, e, v) && e != WarmUp
    requires Anchored(r.states[a], v)
    ensures !(r.events[k].Download? && r.events[k].pid == pid)
  {
    if r.events[k].Download? && r.events[k].pid == pid {
      var j, i := DownloadsOnlyAfterMisses(r, a, k, pid, e, v);
      AnchoredStays(r, a, if e == Latest then j else i, v);
    }
  }

  // ---------- getting to the answer ----------

  /** How many steps of its own a process has before it at most. */
  function StepsLeft(p: Proc): nat {
    match p
    case Looking(_, _, first) => if first then 6 else 5
    case Fetching(_, _) => 4
    case Creating(_, _, _, _) => 3
    case Rechecking(_, _, _, first) => if first then 2 else 1
    case Indexing(_, _, stage) => WritesLeft(stage)
    case _ => 0
  }

  predicate IsBackground(p: Proc) {
    p.Indexing? || p.Listing? || p.Listed? || p.Stopped? || p.e == WarmUp
  }

  /** A step of the process itself, with a definite outcome. */
  predicate OwnStep(ev: Event, pid: nat) {
    !ev.Deliver? && ev.pid == pid && !ev.Lose? && !ev.Stop?
  }

  /**
    Every step brings a request closer to its answer and an indexer
    closer to its end; there is no other way to end.
   */
  lemma OwnStepsMakeProgress(s: State, ev: Event, pid: nat)
    requires Inv(s) && Enabled(s, ev) && OwnStep(ev, pid) && pid in s.procs && StepsLeft(s.procs[pid]) > 0
    ensures var p, p' := s.procs[pid], Next(s, ev).procs[pid];
            && StepsLeft(p') < StepsLeft(p)
            && (StepsLeft(p') == 0 ==> if IsBackground(p) then p' == Stopped else p'.Answered? && p'.e == p.e)
            && (StepsLeft(p') > 0 ==> (IsBackground(p') <==> IsBackground(p)) && (!p.Indexing? ==> p'.e == p.e))
  {
    var p := s.procs[pid];
    assert ProcOk(s, p);
    if p.Rechecking? && !p.first {
      assert CellOk(CellOf(s, p.v), LogOf(s, p.v));
    }
  }

  /** Such a step is always possible. */
  lemma OwnStepIsPossible(s: State, pid: nat, copy: Copy, v: ModuleVersion) returns (ev: Event)
    requires pid in s.procs && StepsLeft(s.procs[pid]) > 0
    ensures Enabled(s, ev) && OwnStep(ev, pid)
  {
    var p := s.procs[pid];
    if p.Looking? || p.Rechecking? {
      ev := Look(pid);
    } else if p.Fetching? {
      ev := Download(pid, v, copy);
    } else {
      var w := Pending(p).value;
      var child := FreshPid(s);
      ev := if w.DeleteConcat? || !Exists(CellOf(s, w.v), Target(w)) then Succeed(pid, child) else Refuse(pid);
    }
  }

  /** Left alone, a request gets to an answer in at most six steps of its own, from every state of every run. */
  lemma {:induction false} LeftAloneItAnswers(r: Run, pid: nat) returns (r': Run)
    requires IsRun(r) && pid in Last(r).procs && StepsLeft(Last(r).procs[pid]) > 0 && !IsBackground(Last(r).procs[pid])
    ensures Continues(r, r') && |r'.events| <= |r.events| + StepsLeft(Last(r).procs[pid])
    ensures forall i :: |r.events| <= i < |r'.events| ==> OwnStep(r'.events[i], pid)
    ensures pid in Last(r').procs && Last(r').procs[pid].Answered? && Last(r').procs[pid].e == Last(r).procs[pid].e
    decreases StepsLeft(Last(r).procs[pid])
  {
    var v := ModuleVersion("", "", false);
    var ev := OwnStepIsPossible(Last(r), pid, Copy(0, [], []), v);
    Reachable(r, |r.events|);
    OwnStepsMakeProgress(Last(r), ev, pid);
    OnlyOwnEventsMove(Last(r), ev, pid);
    var r1 := Extend(r, ev);
    if StepsLeft(Last(r1).procs[pid]) == 0 {
      r' := r1;
    } else {
      r' := LeftAloneItAnswers(r1, pid);
    }
  }

  /** Background caching answers nobody. */
  lemma WarmUpNeverAnswers(r: Run, k: nat, pid: nat)
    requires IsRun(r) && At(r, k) && pid in r.states[k].procs && r.states[k].procs[pid].Answered?
    ensures r.states[k].procs[pid].e != WarmUp
  {
    Reachable(r, k);
    assert ProcOk(r.states[k], r.states[k].procs[pid]);
  }

  /** A creation that is confirmed starts an indexer, which left alone completes the version and removes the object. */
  lemma CreationLeadsToCompletion(r: Run, pid: nat, child: nat) returns (r': Run)
    requires IsRun(r) && Enabled(Last(r), Succeed(pid, child)) && Last(r).procs[pid].Creating?
    ensures Continues(r, r') && |r'.events| > |r.events| && r'.events[|r.events|] == Succeed(pid, child)
    ensures forall ev :: ev in r'.events[|r.events| + 1..] ==> OwnWrite(ev, child)
    ensures Complete(CellOf(Last(r'), Last(r).procs[pid].v)) && !Exists(CellOf(Last(r'), Last(r).procs[pid].v), Concat)
  {
    var v := Last(r).procs[pid].v;
    var r1 := Extend(r, Succeed(pid, child));
    r' := IndexerFinishes(r1, child);
    assert r'.states[|r1.events|] == Last(r1);
    VersionGrows(r', |r1.events|, |r'.events|, v);
    assert r1.events[|r.events|] == Succeed(pid, child);
  }
}
