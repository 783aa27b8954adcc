/** Listing the versions of a private module while indexers move them from "concat/" to "gomod/". */
module ServiceList {
  import opened ObjectStore
  import opened Service
  import opened Consistency
  import opened StrongConsistency

  ghost predicate Covers(scan: Scan, v: ModuleVersion) {
    scan.done || v in scan.covered
  }

  /** The process is a listing of v's module, running or finished. */
  ghost predicate ListsModuleOf(p: Proc, v: ModuleVersion) {
    (p.Listing? || p.Listed?) && p.path == v.path
  }

  ghost predicate Untouched(p: Proc) {
    p.Listing? && p.goModScan == Scan(iset{}, false) && p.concatScan == Scan(iset{}, false)
  }

  /** A listing changes only by reading a page, by returning and by stopping. */
  lemma ListingStep(s: State, ev: Event, pid: nat)
    requires Enabled(s, ev) && pid in s.procs && (s.procs[pid].Listing? || s.procs[pid].Listed?)
    ensures var p, p' := s.procs[pid], Next(s, ev).procs[pid];
            || p' == p || (p.Listing? && p' == Stopped)
            || (ev.ListPage? && ev.pid == pid && p' == AfterPage(s, p, ev.kind, ev.range, ev.last))
            || (p.Listing? && p.goModScan.done && p.concatScan.done &&
                p'.Listed? && p'.path == p.path && p'.names == p.names)
  {
    OnlyOwnEventsMove(s, ev, pid);
  }

  /**
    What a listing that started at step a knows at step k: of the versions whose gomod object was there
    at the start, it has named all that its gomod pages covered.
   */
  ghost predicate GoModCaught(p: Proc, v: ModuleVersion) {
    || p == Stopped
    || (ListsModuleOf(p, v) && (p.Listed? || Covers(p.goModScan, v) ==> v in p.names))
  }

  lemma GoModCatchStep(s: State, ev: Event, pid: nat, v: ModuleVersion)
    requires Enabled(s, ev) && pid in s.procs && GoModCaught(s.procs[pid], v)
    requires !v.pseudo && Exists(CellOf(s, v), GoMod)
    ensures pid in Next(s, ev).procs && GoModCaught(Next(s, ev).procs[pid], v)
  {
    OnlyOwnEventsMove(s, ev, pid);
    if s.procs[pid] != Stopped {
      ListingStep(s, ev, pid);
    }
  }

  lemma {:induction false} GoModPagesCatch(r: Run, a: nat, k: nat, pid: nat, v: ModuleVersion)
    requires IsRun(r) && a <= k && At(r, k) && pid in r.states[a].procs
    requires GoModCaught(r.states[a].procs[pid], v) && !v.pseudo && Exists(CellOf(r.states[a], v), GoMod)
    ensures pid in r.states[k].procs && GoModCaught(r.states[k].procs[pid], v)
    decreases k - a
  {
    if a < k {
      GoModPagesCatch(r, a, k - 1, pid, v);
      VersionGrows(r, a, k - 1, v);
      assert StepAt(r, k - 1);
      GoModCatchStep(r.states[k - 1], r.events[k - 1], pid, v);
    }
  }

  /** The same for a concat object that stays in place all the time. */
  ghost predicate ConcatCaught(p: Proc, v: ModuleVersion) {
    || p == Stopped
    || (ListsModuleOf(p, v) && (p.Listed? || Covers(p.concatScan, v) ==> v in p.names))
  }

  lemma {:induction false} ConcatPagesCatch(r: Run, a: nat, k: nat, pid: nat, v: ModuleVersion)
    requires IsRun(r) && a <= k && At(r, k) && pid in r.states[a].procs
    requires ConcatCaught(r.states[a].procs[pid], v) && !v.pseudo
    requires forall i :: a <= i < k ==> Exists(CellOf(r.states[i], v), Concat)
    ensures pid in r.states[k].procs && ConcatCaught(r.states[k].procs[pid], v)
    decreases k - a
  {
    if a < k {
      ConcatPagesCatch(r, a, k - 1, pid, v);
      assert StepAt(r, k - 1);
      var s, ev := r.states[k - 1], r.events[k - 1];
      OnlyOwnEventsMove(s, ev, pid);
      if s.procs[pid] != Stopped {
        ListingStep(s, ev, pid);
      } else {
        assert r.states[k].procs[pid] == Stopped;
      }
    }
  }

  /**
    A listing that returns without error names every non-pseudo version whose gomod object existed when
    it started, and every one whose concat object existed from its start to its end.
   */
  lemma ListContainsStable(r: Run, a: nat, b: nat, pid: nat, v: ModuleVersion)
    requires IsRun(r) && a <= b && At(r, b) && pid in r.states[a].procs && pid in r.states[b].procs
    requires Untouched(r.states[a].procs[pid]) && r.states[a].procs[pid].path == v.path && !v.pseudo
    requires r.states[b].procs[pid].Listed?
    requires Exists(CellOf(r.states[a], v), GoMod) ||
             (forall i :: a <= i < b ==> Exists(CellOf(r.states[i], v), Concat))
    ensures v in r.states[b].procs[pid].names
  {
    if Exists(CellOf(r.states[a], v), GoMod) {
      GoModPagesCatch(r, a, b, pid, v);
    } else {
      ConcatPagesCatch(r, a, b, pid, v);
    }
  }

  /** The pages of the two kinds are read in a harmless order as far as v is concerned. */
  ghost predicate InOrder(p: Proc, v: ModuleVersion) {
    p.Listing? && Covers(p.goModScan, v) ==> Covers(p.concatScan, v)
  }

  /** So it is at step i. */
  ghost predicate InOrderAt(r: Run, i: int, pid: nat, v: ModuleVersion) {
    At(r, i) && pid in r.states[i].procs ==> InOrder(r.states[i].procs[pid], v)
  }

  /**
    A version that was committed when the listing started is named, or no gomod page has covered it yet;
    and if a concat page passed over it without naming it, its gomod object is there to be found.
   */
  ghost predicate StillToCome(s: State, p: Proc, v: ModuleVersion) {
    || p == Stopped
    || (ListsModuleOf(p, v) &&
        (v in p.names ||
         (p.Listing? && !Covers(p.goModScan, v) && (Covers(p.concatScan, v) ==> Complete(CellOf(s, v))))))
  }

  lemma OrderedStep(s: State, ev: Event, pid: nat, v: ModuleVersion)
    requires Inv(s) && Enabled(s, ev) && pid in s.procs && Committed(s, v) && !v.pseudo
    requires StillToCome(s, s.procs[pid], v) && InOrder(Next(s, ev).procs[pid], v)
    ensures pid in Next(s, ev).procs && StillToCome(Next(s, ev), Next(s, ev).procs[pid], v)
  {
    OnlyOwnEventsMove(s, ev, pid);
    CompleteOrConcat(s, ev, v);
    if s.procs[pid] != Stopped {
      ListingStep(s, ev, pid);
    }
  }

  /** A committed version is complete, and stays so, or has its concat object. */
  lemma CompleteOrConcat(s: State, ev: Event, v: ModuleVersion)
    requires Inv(s) && Enabled(s, ev) && Committed(s, v)
    ensures Complete(CellOf(s, v)) ==> Complete(CellOf(Next(s, ev), v))
    ensures Complete(CellOf(s, v)) || Exists(CellOf(s, v), Concat)
  {
    assert CellOk(CellOf(s, v), LogOf(s, v));
    StepKeepsInv(s, ev);
    assert Extends(CellOf(s, v), LogOf(s, v), CellOf(Next(s, ev), v), LogOf(Next(s, ev), v));
  }

  lemma {:induction false} OrderedPagesCatch(r: Run, a: nat, k: nat, pid: nat, v: ModuleVersion)
    requires IsRun(r) && a <= k && At(r, k) && pid in r.states[a].procs
    requires Untouched(r.states[a].procs[pid]) && r.states[a].procs[pid].path == v.path && !v.pseudo
    requires Committed(r.states[a], v)
    requires forall i :: a <= i <= k ==> InOrderAt(r, i, pid, v)
    ensures pid in r.states[k].procs && StillToCome(r.states[k], r.states[k].procs[pid], v)
    decreases k - a
  {
    if a < k {
      OrderedPagesCatch(r, a, k - 1, pid, v);
      VersionGrows(r, a, k - 1, v);
      Reachable(r, k - 1);
      assert StepAt(r, k - 1);
      OnlyOwnEventsMove(r.states[k - 1], r.events[k - 1], pid);
      assert InOrderAt(r, k, pid, v);
      OrderedStep(r.states[k - 1], r.events[k - 1], pid, v);
    }
  }

  /**
    If no gomod page covers a version before a concat page has covered it, then the result names the version
    if it was committed before the listing started, whatever indexers do meanwhile.
   */
  lemma ListInOrder(r: Run, a: nat, b: nat, pid: nat, v: ModuleVersion)
    requires IsRun(r) && a <= b && At(r, b) && pid in r.states[a].procs && pid in r.states[b].procs
    requires Untouched(r.states[a].procs[pid]) && r.states[a].procs[pid].path == v.path && !v.pseudo
    requires Committed(r.states[a], v)
    requires forall i :: a <= i <= b ==> InOrderAt(r, i, pid, v)
    requires r.states[b].procs[pid].Listed?
    ensures v in r.states[b].procs[pid].names
  {
    OrderedPagesCatch(r, a, b, pid, v);
  }

  /** Pages that were read stay read. */
  ghost predicate ScansGrow(p: Proc, p': Proc) {
    p.Listing? && p'.Listing? ==>
      && p.goModScan.covered <= p'.goModScan.covered && (p.goModScan.done ==> p'.goModScan.done)
      && p.concatScan.covered <= p'.concatScan.covered && (p.concatScan.done ==> p'.concatScan.done)
  }

  lemma ScansGrowStep(s: State, ev: Event, pid: nat)
    requires Enabled(s, ev) && pid in s.procs
    ensures pid in Next(s, ev).procs && ScansGrow(s.procs[pid], Next(s, ev).procs[pid])
    ensures Next(s, ev).procs[pid].Listing? ==> s.procs[pid].Listing?
  {
    OnlyOwnEventsMove(s, ev, pid);
  }

  lemma {:induction false} ScansOnlyGrow(r: Run, i: nat, k: nat, pid: nat)
    requires IsRun(r) && i <= k && At(r, k) && pid in r.states[i].procs
    ensures pid in r.states[k].procs && ScansGrow(r.states[i].procs[pid], r.states[k].procs[pid])
    ensures r.states[k].procs[pid].Listing? ==> r.states[i].procs[pid].Listing?
    decreases k - i
  {
    if i < k {
      ScansOnlyGrow(r, i, k - 1, pid);
      assert StepAt(r, k - 1);
      ScansGrowStep(r.states[k - 1], r.events[k - 1], pid);
    }
  }

  /**
    List after read: if the concat pages are all read (step m) before the first gomod page, the result
    names every non-pseudo version committed before the listing started.
   */
  lemma ListAfterRead(r: Run, a: nat, m: nat, b: nat, pid: nat, v: ModuleVersion)
    requires IsRun(r) && a <= m <= b && At(r, b)
    requires pid in r.states[a].procs && pid in r.states[m].procs && pid in r.states[b].procs
    requires Untouched(r.states[a].procs[pid]) && r.states[a].procs[pid].path == v.path && !v.pseudo
    requires Committed(r.states[a], v)
    requires var p := r.states[m].procs[pid]; p.Listing? && p.concatScan.done && p.goModScan == Scan(iset{}, false)
    requires r.states[b].procs[pid].Listed?
    ensures v in r.states[b].procs[pid].names
  {
    forall i | a <= i <= b ensures InOrderAt(r, i, pid, v) {
      if pid !in r.states[i].procs {
      } else if i <= m {
        ScansOnlyGrow(r, i, m, pid);
      } else {
        ScansOnlyGrow(r, m, i, pid);
      }
    }
    ListInOrder(r, a, b, pid, v);
  }

  // ---------- the result, exactly ----------

  /** What the caller gets: the names from storage and the versions of the go command. */
  predicate InResult(p: Proc, v: ModuleVersion)
    requires p.Listed?
  {
    v in p.names + p.goList
  }

  /** The pages of a kind that a process has read before. */
  function ScanFor(p: Proc, kind: ObjectKind): Scan
    requires p.Listing?
  {
    if kind == GoMod then p.goModScan else p.concatScan
  }

  /** At step i the listing reads a page on which an object of the version is shown. */
  ghost predicate ReadAt(r: Run, i: nat, pid: nat, v: ModuleVersion) {
    && i < |r.events| && i < |r.states| && r.events[i].ListPage? && r.events[i].pid == pid
    && pid in r.states[i].procs && r.states[i].procs[pid].Listing?
    && var ev := r.events[i];
       Exists(CellOf(r.states[i], v), ev.kind) &&
       (v in ev.range || (ev.last && v !in ScanFor(r.states[i].procs[pid], ev.kind).covered))
  }

  ghost predicate ReadBetween(r: Run, a: nat, k: nat, pid: nat, v: ModuleVersion) {
    exists i :: a <= i < k && ReadAt(r, i, pid, v)
  }

  lemma PageNames(s: State, ev: Event, v: ModuleVersion)
    requires Enabled(s, ev) && ev.ListPage?
    ensures var p, p' := s.procs[ev.pid], Next(s, ev).procs[ev.pid];
            && p'.Listing? && p'.path == p.path
            && (v in p'.names <==>
                  v in p.names || (v.path == p.path && !v.pseudo && Exists(CellOf(s, v), ev.kind) &&
                                   (v in ev.range || (ev.last && v !in ScanFor(p, ev.kind).covered))))
  {}

  /** A listing has named exactly the versions of its module, without pseudo-versions, that its pages have shown. */
  lemma {:induction false} NamesAreRead(r: Run, a: nat, k: nat, pid: nat, path: string, v: ModuleVersion)
    requires IsRun(r) && a < k && At(r, k) && r.events[a] == ListArrive(pid, path)
    requires pid in r.states[k].procs && (r.states[k].procs[pid].Listing? || r.states[k].procs[pid].Listed?)
    ensures var p := r.states[k].procs[pid];
            && p.path == path
            && (v in p.names <==> v.path == path && !v.pseudo && ReadBetween(r, a, k, pid, v))
    decreases k
  {
    assert StepAt(r, k - 1);
    if k > a + 1 {
      ArrivedStays(r, a, k - 1, pid, path);
      var s, ev := r.states[k - 1], r.events[k - 1];
      OnlyOwnEventsMove(s, ev, pid);
      assert s.procs[pid].Listing? || s.procs[pid].Listed?;
      NamesAreRead(r, a, k - 1, pid, path, v);
      ReadOnce(r, a, k - 1, pid, v);
      if ev.ListPage? && ev.pid == pid {
        PageNames(s, ev, v);
      } else {
        ListingStep(s, ev, pid);
      }
    } else {
      ReadOnce(r, a, a, pid, v);
    }
  }

  lemma ReadOnce(r: Run, a: nat, k: nat, pid: nat, v: ModuleVersion)
    requires a <= k
    ensures ReadBetween(r, a, k + 1, pid, v) <==> ReadBetween(r, a, k, pid, v) || ReadAt(r, k, pid, v)
  {
    if i :| a <= i < k && ReadAt(r, i, pid, v) {
      assert a <= i < k + 1;
    }
  }

  lemma {:induction false} ArrivedStays(r: Run, a: nat, k: nat, pid: nat, path: string)
    requires IsRun(r) && a < k && At(r, k) && r.events[a] == ListArrive(pid, path)
    ensures pid in r.states[k].procs
    decreases k
  {
    assert StepAt(r, k - 1);
    if k > a + 1 {
      ArrivedStays(r, a, k - 1, pid, path);
      OnlyOwnEventsMove(r.states[k - 1], r.events[k - 1], pid);
    }
  }

  /**
    The result of a listing: the versions that the go command reported, and what the pages have shown of the
    module without pseudo-versions. Nothing is dropped and nothing is added.
   */
  lemma ListResultIff(r: Run, a: nat, m: nat, pid: nat, path: string, goList: set<ModuleVersion>, v: ModuleVersion)
    requires IsRun(r) && a < m < |r.events| && r.events[a] == ListArrive(pid, path)
    requires r.events[m] == ListReturn(pid, goList)
    ensures pid in r.states[m + 1].procs && r.states[m + 1].procs[pid].Listed?
    ensures InResult(r.states[m + 1].procs[pid], v) <==>
            v in goList || (v.path == path && !v.pseudo && ReadBetween(r, a, m, pid, v))
  {
    assert StepAt(r, m);
    NamesAreRead(r, a, m, pid, path, v);
  }

  /** A listing never invents a version: what it read from storage was committed, in its own module. */
  lemma ListIsSound(r: Run, k: nat, pid: nat, v: ModuleVersion)
    requires IsRun(r) && At(r, k) && pid in r.states[k].procs
    requires r.states[k].procs[pid].Listed? && v in r.states[k].procs[pid].names
    ensures v.path == r.states[k].procs[pid].path && !v.pseudo && Committed(r.states[k], v)
  {
    Reachable(r, k);
    assert ProcOk(r.states[k], r.states[k].procs[pid]);
  }
}
