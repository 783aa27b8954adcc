/** The strong-consistency guarantees, over every run. */
module StrongConsistency {
  import opened Basics
  import opened ObjectStore
  import opened Service
  import opened Consistency

  datatype Run = Run(states: seq<State>, events: seq<Event>)

  ghost predicate IsRun(r: Run) {
    && |r.states| == |r.events| + 1
    && r.states[0] == INIT
    && forall i :: 0 <= i < |r.events| ==> StepAt(r, i)
  }

  ghost predicate StepAt(r: Run, i: int) {
    && 0 <= i < |r.events| && i + 1 < |r.states|
    && Enabled(r.states[i], r.events[i]) && r.states[i + 1] == Next(r.states[i], r.events[i])
  }

  /** Lets one more event happen. */
  ghost function Extend(r: Run, ev: Event): (r': Run)
    requires IsRun(r) && Enabled(Last(r), ev)
    ensures IsRun(r') && Continues(r, r') && r'.events == r.events + [ev] && Last(r') == Next(Last(r), ev)
  {
    var r' := Run(r.states + [Next(Last(r), ev)], r.events + [ev]);
    assert forall i :: 0 <= i < |r.events| ==> StepAt(r, i) ==> StepAt(r', i);
    r'
  }

  ghost function Last(r: Run): State
    requires IsRun(r)
  {
    r.states[|r.events|]
  }

  /** The same run, later. */
  ghost predicate Continues(r: Run, r': Run) {
    IsRun(r') && r.states <= r'.states && r.events <= r'.events
  }

  /** A name that no process has. */
  lemma FreshPid(s: State) returns (n: nat)
    ensures forall k :: n <= k ==> k !in s.procs
  {
    n := Above(s.procs.Keys);
  }

  lemma {:induction false} Above(keys: set<nat>) returns (n: nat)
    ensures forall k :: n <= k ==> k !in keys
  {
    n := 0;
    if keys != {} {
      var k :| k in keys;
      var m := Above(keys - {k});
      n := if m <= k then k + 1 else m;
      forall j | n <= j ensures j !in keys { assert j !in keys - {k}; }
    }
  }

  predicate At(r: Run, k: int) {
    0 <= k < |r.states|
  }

  lemma {:induction false} Reachable(r: Run, k: nat)
    requires IsRun(r) && At(r, k)
    ensures Inv(r.states[k])
  {
    if k > 0 {
      Reachable(r, k - 1);
      assert StepAt(r, k - 1);
      StepKeepsInv(r.states[k - 1], r.events[k - 1]);
    }
  }

  lemma StepGrows(r: Run, k: nat)
    requires IsRun(r) && At(r, k + 1)
    ensures Grows(r.states[k], r.states[k + 1])
  {
    Reachable(r, k);
    assert StepAt(r, k);
    StepKeepsInv(r.states[k], r.events[k]);
  }

  lemma {:induction false} OnlyGrows(r: Run, i: nat, k: nat)
    requires IsRun(r) && i <= k && At(r, k)
    ensures Grows(r.states[i], r.states[k])
    decreases k - i
  {
    if i < k {
      OnlyGrows(r, i, k - 1);
      StepGrows(r, k - 1);
      GrowsTransitively(r.states[i], r.states[k - 1], r.states[k]);
    }
  }

  lemma VersionGrows(r: Run, i: nat, k: nat, v: ModuleVersion)
    requires IsRun(r) && i <= k && At(r, k)
    ensures Extends(CellOf(r.states[i], v), LogOf(r.states[i], v), CellOf(r.states[k], v), LogOf(r.states[k], v))
    ensures CellOk(CellOf(r.states[i], v), LogOf(r.states[i], v))
    ensures CellOk(CellOf(r.states[k], v), LogOf(r.states[k], v))
  {
    OnlyGrows(r, i, k);
    Reachable(r, i);
    Reachable(r, k);
  }

  /** Only events of a process move it; new processes get fresh names. */
  lemma OnlyOwnEventsMove(s: State, ev: Event, pid: nat)
    requires Enabled(s, ev) && pid in s.procs
    ensures pid in Next(s, ev).procs
    ensures ev.Deliver? || ev.pid != pid ==> Next(s, ev).procs[pid] == s.procs[pid]
  {}

  lemma {:induction false} ProcessesRemain(r: Run, i: nat, k: nat, pid: nat)
    requires IsRun(r) && i <= k && At(r, k) && pid in r.states[i].procs
    ensures pid in r.states[k].procs
    decreases k - i
  {
    if i < k {
      ProcessesRemain(r, i, k - 1, pid);
      assert StepAt(r, k - 1);
      OnlyOwnEventsMove(r.states[k - 1], r.events[k - 1], pid);
    }
  }

  // ---------- durable agreement ----------

  /**
    Once any concat object of a version has been created, its copy stays the content of the version:
    the gomod and zip objects are made of it, never change and never disappear, and until both exist
    the concat object holds it.
   */
  lemma DurableAgreement(r: Run, i: nat, k: nat, v: ModuleVersion)
    requires IsRun(r) && i <= k && At(r, k) && Committed(r.states[i], v)
    ensures Committed(r.states[k], v) && Chosen(r.states[k], v) == Chosen(r.states[i], v)
    ensures var chosen, c, c' := Chosen(r.states[i], v), CellOf(r.states[i], v), CellOf(r.states[k], v);
            && (c'.goMod.Some? ==> c'.goMod.value == GoModObject(chosen.time, chosen.goMod))
            && (c'.zip.Some? ==> c'.zip.value == chosen.zip)
            && (c.goMod.Some? ==> c'.goMod == c.goMod) && (c.zip.Some? ==> c'.zip == c.zip)
            && (c'.concat == Some(chosen) || Complete(c'))
  {
    VersionGrows(r, i, k, v);
  }

  /** Nothing is stored for a version before a concat object of it was created. */
  lemma StoredMeansCommitted(r: Run, k: nat, v: ModuleVersion, kind: ObjectKind)
    requires IsRun(r) && At(r, k) && Exists(CellOf(r.states[k], v), kind)
    ensures Committed(r.states[k], v)
  {
    VersionGrows(r, k, k, v);
  }

  // ---------- no losing and no mixed copy ----------

  /**
    Every answer is the view of a single download whose concat creation took effect. A download that
    lost the creation race never reaches a client.
   */
  lemma AnswersAreLoggedDownloads(r: Run, k: nat, pid: nat) returns (i: nat)
    requires IsRun(r) && At(r, k) && pid in r.states[k].procs && r.states[k].procs[pid].Answered?
    ensures var p := r.states[k].procs[pid]; var log := LogOf(r.states[k], p.v);
            i < |log| && p.answer == View(p.e, log[i]) && (p.v, log[i]) in r.states[k].downloaded
  {
    Reachable(r, k);
    var p := r.states[k].procs[pid];
    assert ProcOk(r.states[k], p);
    i :| 0 <= i < |LogOf(r.states[k], p.v)| && p.answer == View(p.e, LogOf(r.states[k], p.v)[i]);
  }

  /** With one concat creation per version, all endpoints of all replicas answer with one copy. */
  lemma OneCreationOneCopy(r: Run, j: nat, k: nat, pid: nat)
    requires IsRun(r) && j <= k && At(r, k) && pid in r.states[j].procs && r.states[j].procs[pid].Answered?
    requires |LogOf(r.states[k], r.states[j].procs[pid].v)| <= 1
    ensures var p := r.states[j].procs[pid];
            Committed(r.states[k], p.v) && p.answer == View(p.e, Chosen(r.states[k], p.v))
  {
    var p := r.states[j].procs[pid];
    var i := AnswersAreLoggedDownloads(r, j, pid);
    VersionGrows(r, j, k, p.v);
  }

  // ---------- losing the exclusive create ----------

  /** Whoever observes no concat object and later no gomod (or zip) object saw an uncommitted version. */
  lemma MissProvesUncommitted(r: Run, i: nat, k: nat, v: ModuleVersion, kind: ObjectKind)
    requires IsRun(r) && i <= k && At(r, k) && kind != Concat
    requires !Exists(CellOf(r.states[i], v), Concat) && !Exists(CellOf(r.states[k], v), kind)
    ensures !Committed(r.states[i], v)
  {
    VersionGrows(r, i, k, v);
  }

  /**
    A request that was refused the creation always finds an object: if its concat lookup misses, the next
    lookup answers it, with the chosen copy. NotFound is never the end of such a request.
   */
  lemma LosersAlwaysFindAnObject(r: Run, k: nat, pid: nat)
    requires IsRun(r) && At(r, k) && pid in r.states[k].procs
    ensures !r.states[k].procs[pid].NotFound?
    ensures var s := r.states[k]; var p := s.procs[pid];
            p.Rechecking? && !p.first ==>
              (Committed(s, p.v) &&
               Next(s, Look(pid)).procs[pid] == Answered(p.e, p.asked, p.v, View(p.e, Chosen(s, p.v))))
  {
    Reachable(r, k);
    var p := r.states[k].procs[pid];
    assert ProcOk(r.states[k], p);
    if p.Rechecking? && !p.first {
      VersionGrows(r, k, k, p.v);
    }
  }

  /** The concat object is deleted only when both final objects exist, however late the deletion arrives. */
  lemma DeletesOnlyWhenComplete(r: Run, k: nat, v: ModuleVersion)
    requires IsRun(r) && At(r, k)
    requires DeleteConcat(v) in r.states[k].sent ||
             exists pid :: pid in r.states[k].procs && Pending(r.states[k].procs[pid]) == Some(DeleteConcat(v))
    ensures Complete(CellOf(r.states[k], v)) && Committed(r.states[k], v)
  {
    Reachable(r, k);
    VersionGrows(r, k, k, v);
    if pid :| pid in r.states[k].procs && Pending(r.states[k].procs[pid]) == Some(DeleteConcat(v)) {
      assert ProcOk(r.states[k], r.states[k].procs[pid]);
    }
  }

  /** The second lookup of a public "@latest" found nothing at step i, after the first one found nothing. */
  predicate SecondMiss(p: Proc, v: ModuleVersion) {
    p == Looking(Latest, v, false)
  }

  lemma {:induction false} FindLatestMiss(r: Run, k: nat, pid: nat, v: ModuleVersion) returns (i: nat)
    requires IsRun(r) && At(r, k) && pid in r.states[k].procs && SecondMiss(r.states[k].procs[pid], v)
    ensures i < k && !Exists(CellOf(r.states[i], v), Concat)
    ensures pid in r.states[i].procs && r.states[i].procs[pid] == Looking(Latest, v, true) && r.events[i] == Look(pid)
  {
    assert k > 0;
    assert StepAt(r, k - 1);
    var s, ev := r.states[k - 1], r.events[k - 1];
    if pid in s.procs {
      OnlyOwnEventsMove(s, ev, pid);
    }
    assert pid in s.procs;
    if SecondMiss(s.procs[pid], v) {
      i := FindLatestMiss(r, k - 1, pid, v);
    } else {
      i := k - 1;
    }
  }

  /** A public "@latest" downloads only a version that was not committed when it first looked. */
  lemma LatestDownloadsOnlyUncommitted(r: Run, k: nat, pid: nat, v: ModuleVersion) returns (i: nat)
    requires IsRun(r) && k < |r.events| && pid in r.states[k].procs
    requires r.states[k].procs[pid] == Looking(Latest, v, false)
    requires r.events[k] == Look(pid) && pid in r.states[k + 1].procs && r.states[k + 1].procs[pid].Fetching?
    ensures i < k && pid in r.states[i].procs
    ensures r.states[i].procs[pid] == Looking(Latest, v, true) && r.events[i] == Look(pid)
    ensures !Committed(r.states[i], v)
  {
    assert StepAt(r, k);
    i := FindLatestMiss(r, k, pid, v);
    MissProvesUncommitted(r, i, k, v, GoMod);
  }

  // ---------- the request window ----------

  /** The endpoints that a client asks for a canonical version. */
  predicate IsVersionEndpoint(e: Endpoint) {
    e == Info || e == GoModFile || e == ZipFile
  }

  /** Still waiting for its first lookup, given up, or answered with the chosen copy. */
  predicate OnlyChosen(s: State, p: Proc, e: Endpoint, v: ModuleVersion) {
    || p == Looking(e, v, true) || p == Stopped
    || (Committed(s, v) && p == Answered(e, Some(v), v, View(e, Chosen(s, v))))
  }

  lemma OnlyChosenStep(s: State, ev: Event, pid: nat, e: Endpoint, v: ModuleVersion)
    requires Inv(s) && Enabled(s, ev) && Exists(CellOf(s, v), FirstLookup(e)) && IsVersionEndpoint(e)
    requires pid in s.procs && OnlyChosen(s, s.procs[pid], e, v)
    ensures pid in Next(s, ev).procs && OnlyChosen(Next(s, ev), Next(s, ev).procs[pid], e, v)
  {
    assert CellOk(CellOf(s, v), LogOf(s, v));
    StepKeepsInv(s, ev);
    assert Extends(CellOf(s, v), LogOf(s, v), CellOf(Next(s, ev), v), LogOf(Next(s, ev), v));
    OnlyOwnEventsMove(s, ev, pid);
    if ev == Look(pid) {
      FoundIsLogged(CellOf(s, v), LogOf(s, v), FirstLookup(e), e);
    }
  }

  /**
    A request whose first lookup is still to come when the object of that lookup exists can only answer with
    the chosen copy, however long it takes. For a complete version that is every request.
   */
  lemma {:induction false} RequestsAfterCompletion(r: Run, i: nat, k: nat, pid: nat, e: Endpoint, v: ModuleVersion)
    requires IsRun(r) && i <= k && At(r, k) && IsVersionEndpoint(e)
    requires pid in r.states[i].procs && r.states[i].procs[pid] == Looking(e, v, true)
    requires Exists(CellOf(r.states[i], v), FirstLookup(e))
    ensures pid in r.states[k].procs && OnlyChosen(r.states[k], r.states[k].procs[pid], e, v)
    decreases k - i
  {
    if i < k {
      RequestsAfterCompletion(r, i, k - 1, pid, e, v);
      VersionGrows(r, i, k - 1, v);
      Reachable(r, k - 1);
      assert StepAt(r, k - 1);
      OnlyChosenStep(r.states[k - 1], r.events[k - 1], pid, e, v);
    }
  }

  /** The request has looked once and found nothing; it has not answered yet. */
  predicate MissedOnce(p: Proc, e: Endpoint, v: ModuleVersion) {
    || p == Looking(e, v, false)
    || p == Fetching(e, Some(v))
    || (p.Creating? && p.e == e && p.asked == Some(v))
    || (p.Rechecking? && p.e == e && p.asked == Some(v))
  }

  /** The step at which a request's first lookup found nothing. */
  ghost predicate MissAt(r: Run, i: nat, pid: nat, e: Endpoint, v: ModuleVersion) {
    && i < |r.events| && |r.events| < |r.states|
    && r.events[i] == Look(pid) && pid in r.states[i].procs && r.states[i].procs[pid] == Looking(e, v, true)
    && !Exists(CellOf(r.states[i], v), FirstLookup(e))
  }

  /** A request gets into these states only by a first lookup that finds nothing. */
  lemma FirstMissStep(s: State, ev: Event, pid: nat, e: Endpoint, v: ModuleVersion)
    requires Enabled(s, ev) && IsVersionEndpoint(e)
    requires pid in Next(s, ev).procs && MissedOnce(Next(s, ev).procs[pid], e, v)
    ensures pid in s.procs
    ensures MissedOnce(s.procs[pid], e, v) ||
            (ev == Look(pid) && s.procs[pid] == Looking(e, v, true) && !Exists(CellOf(s, v), FirstLookup(e)))
  {
    if pid in s.procs {
      OnlyOwnEventsMove(s, ev, pid);
    }
  }

  lemma {:induction false} FindMiss(r: Run, k: nat, pid: nat, e: Endpoint, v: ModuleVersion) returns (i: nat)
    requires IsRun(r) && At(r, k) && IsVersionEndpoint(e)
    requires pid in r.states[k].procs && MissedOnce(r.states[k].procs[pid], e, v)
    ensures i < k && MissAt(r, i, pid, e, v)
  {
    assert k > 0;
    assert StepAt(r, k - 1);
    FirstMissStep(r.states[k - 1], r.events[k - 1], pid, e, v);
    if MissedOnce(r.states[k - 1].procs[pid], e, v) {
      i := FindMiss(r, k - 1, pid, e, v);
    } else {
      i := k - 1;
    }
  }

  /** The step at which a request gave its answer. */
  lemma {:induction false} FindAnswer(r: Run, k: nat, pid: nat) returns (m: nat)
    requires IsRun(r) && At(r, k) && pid in r.states[k].procs && r.states[k].procs[pid].Answered?
    ensures m < k && pid in r.states[m].procs && !r.states[m].procs[pid].Answered?
    ensures pid in r.states[m + 1].procs && r.states[m + 1].procs[pid] == r.states[k].procs[pid]
    ensures !r.events[m].Deliver? && r.events[m].pid == pid
  {
    assert k > 0;
    assert StepAt(r, k - 1);
    var s, ev := r.states[k - 1], r.events[k - 1];
    if pid in s.procs {
      OnlyOwnEventsMove(s, ev, pid);
      if s.procs[pid].Answered? {
        m := FindAnswer(r, k - 1, pid);
      } else {
        m := k - 1;
      }
    } else {
      assert false;
    }
  }

  lemma StepLogsAtMostOne(s: State, ev: Event, v: ModuleVersion)
    requires Enabled(s, ev)
    ensures LogOf(Next(s, ev), v) == LogOf(s, v) ||
            (|LogOf(Next(s, ev), v)| == |LogOf(s, v)| + 1 && CellOf(s, v).concat.None? && (ev.Succeed? || ev.Deliver?))
  {}

  /** At step j the concat object of a version that has a durable copy already is created once more. */
  ghost predicate RecreatedAt(r: Run, j: nat, v: ModuleVersion) {
    && At(r, j + 1) && Complete(CellOf(r.states[j], v))
    && |LogOf(r.states[j], v)| == 1 && |LogOf(r.states[j + 1], v)| == 2
  }

  lemma {:induction false} FindRecreation(r: Run, i: nat, k: nat, v: ModuleVersion) returns (j: nat)
    requires IsRun(r) && i <= k && At(r, k)
    requires |LogOf(r.states[i], v)| <= 1 < |LogOf(r.states[k], v)|
    ensures i <= j < k && RecreatedAt(r, j, v)
    decreases k - i
  {
    assert StepAt(r, i);
    StepLogsAtMostOne(r.states[i], r.events[i], v);
    if |LogOf(r.states[i + 1], v)| <= 1 {
      j := FindRecreation(r, i + 1, k, v);
    } else {
      VersionGrows(r, i, i, v);
      j := i;
    }
  }

  /** Answering right after the first lookup means answering with the chosen copy. */
  lemma FirstLookupIsChosen(r: Run, m: nat, pid: nat)
    requires IsRun(r) && At(r, m + 1) && pid in r.states[m].procs && r.events[m] == Look(pid)
    requires var p := r.states[m].procs[pid]; p.Looking? && p.first && IsVersionEndpoint(p.e)
    requires pid in r.states[m + 1].procs && r.states[m + 1].procs[pid].Answered?
    ensures var p := r.states[m].procs[pid];
            Committed(r.states[m], p.v) && r.states[m + 1].procs[pid].answer == View(p.e, Chosen(r.states[m], p.v))
  {
    var p := r.states[m].procs[pid];
    assert StepAt(r, m);
    VersionGrows(r, m, m, p.v);
    FoundIsLogged(CellOf(r.states[m], p.v), LogOf(r.states[m], p.v), FirstLookup(p.e), p.e);
  }

  /** A request for a version answers from its first lookup, or after it has missed once. */
  lemma AnswerStep(s: State, ev: Event, pid: nat, e: Endpoint, v: ModuleVersion)
    requires Enabled(s, ev) && IsVersionEndpoint(e) && pid in s.procs && !s.procs[pid].Answered?
    requires var p := Next(s, ev).procs[pid]; p.Answered? && p.e == e && p.asked == Some(v) && p.v == v
    ensures s.procs[pid] == Looking(e, v, true) || MissedOnce(s.procs[pid], e, v)
    ensures s.procs[pid] == Looking(e, v, true) ==> ev == Look(pid)
  {}

  /** Just before a stale answer the request had missed once, and just after it two copies are logged. */
  lemma StaleStep(r: Run, m: nat, pid: nat, e: Endpoint, v: ModuleVersion)
    requires IsRun(r) && At(r, m + 1) && IsVersionEndpoint(e) && pid in r.states[m].procs
    requires !r.states[m].procs[pid].Answered? && !r.events[m].Deliver? && r.events[m].pid == pid
    requires pid in r.states[m + 1].procs && r.states[m + 1].procs[pid].Answered?
    requires var p := r.states[m + 1].procs[pid]; p.e == e && p.asked == Some(v) && p.v == v
    requires Committed(r.states[m + 1], v) ==> r.states[m + 1].procs[pid].answer != View(e, Chosen(r.states[m + 1], v))
    ensures MissedOnce(r.states[m].procs[pid], e, v) && |LogOf(r.states[m + 1], v)| > 1
  {
    var x := AnswersAreLoggedDownloads(r, m + 1, pid);
    assert StepAt(r, m);
    AnswerStep(r.states[m], r.events[m], pid, e, v);
    if r.states[m].procs[pid] == Looking(e, v, true) {
      FirstLookupIsChosen(r, m, pid);
      VersionGrows(r, m, m + 1, v);
      assert false;
    }
  }

  /**
    A request for a canonical version that answers with anything but the chosen copy made its first
    lookup (step i) before the version was complete, and a re-creation of the concat object (step j)
    happened between that lookup and the answer (step m).
   */
  lemma StaleAnswersOverlapRecreation(r: Run, k: nat, pid: nat, e: Endpoint, v: ModuleVersion)
    returns (i: nat, j: nat, m: nat)
    requires IsRun(r) && At(r, k) && IsVersionEndpoint(e) && pid in r.states[k].procs
    requires var p := r.states[k].procs[pid]; p.Answered? && p.e == e && p.asked == Some(v) && p.v == v
    requires Committed(r.states[k], v) ==> r.states[k].procs[pid].answer != View(e, Chosen(r.states[k], v))
    ensures i < j <= m < k && MissAt(r, i, pid, e, v) && !Complete(CellOf(r.states[i], v)) && RecreatedAt(r, j, v)
    ensures pid in r.states[m].procs && !r.states[m].procs[pid].Answered?
    ensures pid in r.states[m + 1].procs && r.states[m + 1].procs[pid].Answered?
  {
    m := FindAnswer(r, k, pid);
    VersionGrows(r, m + 1, k, v);
    StaleStep(r, m, pid, e, v);
    i := FindMiss(r, m, pid, e, v);
    assert StepAt(r, i);
    VersionGrows(r, i, i + 1, v);
    j := FindRecreation(r, i + 1, m + 1, v);
  }

  // ---------- concat objects that stay ----------

  /** Some indexer is at work on the version. */
  ghost predicate BeingIndexed(s: State, v: ModuleVersion) {
    exists ix :: ix in s.procs && s.procs[ix].Indexing? && s.procs[ix].v == v
  }

  /** The concat object is there, and neither an indexer nor a deletion under way can remove it. */
  ghost predicate Anchored(s: State, v: ModuleVersion) {
    Exists(CellOf(s, v), Concat) && !BeingIndexed(s, v) && DeleteConcat(v) !in s.sent
  }

  /** Then it is there to stay, unchanged. */
  lemma AnchoredStep(s: State, ev: Event, v: ModuleVersion)
    requires Enabled(s, ev) && Anchored(s, v)
    ensures Anchored(Next(s, ev), v) && CellOf(Next(s, ev), v).concat == CellOf(s, v).concat
  {
    var t := Next(s, ev);
    if BeingIndexed(t, v) {
      var ix :| ix in t.procs && t.procs[ix].Indexing? && t.procs[ix].v == v;
      NewIndexer(s, ev, ix, v);
    }
  }

  /** Only a creation that takes effect starts an indexer. */
  lemma NewIndexer(s: State, ev: Event, ix: nat, v: ModuleVersion)
    requires Enabled(s, ev) && Exists(CellOf(s, v), Concat)
    requires ix in Next(s, ev).procs && Next(s, ev).procs[ix].Indexing? && Next(s, ev).procs[ix].v == v
    ensures ix in s.procs && s.procs[ix].Indexing? && s.procs[ix].v == v
  {}

  // ---------- the guards that decide ----------

  /** The copy whose parts the two final objects hold. */
  function Durable(c: Cell): Copy
    requires Complete(c)
  {
    Copy(c.goMod.value.time, c.goMod.value.goMod, c.zip.value)
  }

  /** What an endpoint reports of this copy is what it reports of the final objects, if both are there. */
  predicate AgreesWithDurable(c: Cell, e: Endpoint, copy: Copy) {
    Complete(c) ==> View(e, copy) == View(e, Durable(c))
  }

  lemma DurableIsChosen(c: Cell, log: seq<Copy>)
    requires CellOk(c, log) && Complete(c)
    ensures log != [] && Durable(c) == log[0]
  {}

  /**
    A request that finds the concat object, in its second lookup or after a lost creation race, answers
    with the chosen copy exactly if the version is not complete or the object agrees with the final ones.
   */
  lemma ConcatLookupIsChosenIff(s: State, pid: nat)
    requires Inv(s) && Enabled(s, Look(pid))
    requires var p := s.procs[pid];
             && p.e != WarmUp && Exists(CellOf(s, p.v), Concat)
             && (if p.Rechecking? then RecheckLookup(p.e, p.first)
                 else if p.first then FirstLookup(p.e) else SecondLookup(p.e)) == Concat
    ensures var p, t := s.procs[pid], Next(s, Look(pid));
            && t.procs[pid].Answered? && Committed(t, p.v)
            && (t.procs[pid].answer == View(p.e, Chosen(t, p.v)) <==>
                AgreesWithDurable(CellOf(s, p.v), p.e, CellOf(s, p.v).concat.value))
  {
    var c, log := CellOf(s, s.procs[pid].v), LogOf(s, s.procs[pid].v);
    assert CellOk(c, log);
    if Complete(c) {
      DurableIsChosen(c, log);
    }
  }

  /**
    A request that creates the concat object answers with the chosen
    copy exactly if the same holds of its download.
   */
  lemma OwnDownloadIsChosenIff(s: State, pid: nat, child: nat)
    requires Inv(s) && Enabled(s, Succeed(pid, child)) && s.procs[pid].Creating? && s.procs[pid].e != WarmUp
    ensures var p, t := s.procs[pid], Next(s, Succeed(pid, child));
            && t.procs[pid].Answered? && Committed(t, p.v)
            && (t.procs[pid].answer == View(p.e, Chosen(t, p.v)) <==> AgreesWithDurable(CellOf(s, p.v), p.e, p.copy))
  {
    var p := s.procs[pid];
    var c, log := CellOf(s, p.v), LogOf(s, p.v);
    assert CellOk(c, log);
    if Complete(c) {
      DurableIsChosen(c, log);
    }
  }

  /** Hence whatever is downloaded is right exactly if the version is not complete. */
  lemma AnyDownloadIsChosenIff(s: State, v: ModuleVersion, e: Endpoint)
    requires Inv(s) && CellOf(s, v).concat.None?
    ensures (forall copy :: View(e, copy) == View(e, Chosen(Effect(s, CreateConcat(v, copy)), v))) <==>
            !Complete(CellOf(s, v))
  {
    assert CellOk(CellOf(s, v), LogOf(s, v));
    if Complete(CellOf(s, v)) {
      var chosen := Chosen(s, v);
      var other := Copy(chosen.time + 1, chosen.goMod + [0], chosen.zip + [0]);
      assert Chosen(Effect(s, CreateConcat(v, other)), v) == chosen;
      assert View(e, other) != View(e, chosen);
    }
  }
}
