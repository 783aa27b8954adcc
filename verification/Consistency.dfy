/** What holds in every reachable state and along every run of the transition system. */
module Consistency {
  import opened Basics
  import opened ObjectStore
  import opened Service

  /** The first concat object ever created for a version decides its content. */
  function Chosen(s: State, v: ModuleVersion): Copy
    requires LogOf(s, v) != []
  {
    LogOf(s, v)[0]
  }

  predicate Committed(s: State, v: ModuleVersion) {
    LogOf(s, v) != []
  }

  predicate CellOk(c: Cell, log: seq<Copy>) {
    && (log == [] ==> c == EMPTY)
    && (log != [] ==>
          && (c.goMod.Some? ==> c.goMod.value == GoModObject(log[0].time, log[0].goMod))
          && (c.zip.Some? ==> c.zip.value == log[0].zip)
          && (c.concat.Some? ==> c.concat.value in log)
          && (Complete(c) || (c.concat == Some(log[0]) && |log| == 1)))
  }

  predicate WriteOk(s: State, w: Write) {
    match w
    case CreateConcat(v, copy) => (v, copy) in s.downloaded
    case CreateGoMod(v, obj) =>
      Committed(s, v) && (obj == GoModObject(Chosen(s, v).time, Chosen(s, v).goMod) || Complete(CellOf(s, v)))
    case CreateZip(v, zip) => Committed(s, v) && (zip == Chosen(s, v).zip || Complete(CellOf(s, v)))
    case DeleteConcat(v) => Complete(CellOf(s, v))
  }

  predicate IndexerOk(s: State, v: ModuleVersion, copy: Copy, stage: Stage) {
    && Committed(s, v)
    && (copy == Chosen(s, v) || Complete(CellOf(s, v)))
    && (stage != AtGoMod ==> CellOf(s, v).goMod.Some?)
    && (stage == AtDelete ==> CellOf(s, v).zip.Some?)
  }

  ghost predicate ProcOk(s: State, p: Proc) {
    match p
    case Creating(_, _, v, copy) => (v, copy) in s.downloaded
    case Looking(e, _, first) => e == WarmUp ==> first
    case Rechecking(e, _, v, first) => e != WarmUp && Committed(s, v) && (first || Complete(CellOf(s, v)))
    case Answered(e, _, v, answer) =>
      e != WarmUp && exists i :: 0 <= i < |LogOf(s, v)| && answer == View(e, LogOf(s, v)[i])
    case NotFound(_, _) => false
    case Indexing(v, copy, stage) => IndexerOk(s, v, copy, stage)
    case Listing(path, _, _, names) => forall v :: v in names ==> v.path == path && !v.pseudo && Committed(s, v)
    case Listed(path, names, _) => forall v :: v in names ==> v.path == path && !v.pseudo && Committed(s, v)
    case _ => true
  }

  ghost predicate Inv(s: State) {
    && (forall v :: CellOk(CellOf(s, v), LogOf(s, v)))
    && (forall v, i :: 0 <= i < |LogOf(s, v)| ==> (v, LogOf(s, v)[i]) in s.downloaded)
    && (forall w :: w in s.sent ==> WriteOk(s, w))
    && (forall pid :: pid in s.procs ==> ProcOk(s, s.procs[pid]))
  }

  /** What no step undoes, for one version. */
  predicate Extends(c: Cell, log: seq<Copy>, c': Cell, log': seq<Copy>) {
    && log <= log'
    && (c.goMod.Some? ==> c'.goMod == c.goMod)
    && (c.zip.Some? ==> c'.zip == c.zip)
  }

  ghost predicate Grows(s: State, t: State) {
    && s.downloaded <= t.downloaded
    && forall v :: Extends(CellOf(s, v), LogOf(s, v), CellOf(t, v), LogOf(t, v))
  }

  lemma StaysOk(s: State, t: State, p: Proc)
    requires Grows(s, t) && ProcOk(s, p)
    ensures ProcOk(t, p)
  {
    match p
    case Answered(e, _, v, answer) =>
      var i :| 0 <= i < |LogOf(s, v)| && answer == View(e, LogOf(s, v)[i]);
      assert Extends(CellOf(s, v), LogOf(s, v), CellOf(t, v), LogOf(t, v));
      assert LogOf(t, v)[i] == LogOf(s, v)[i];
    case Listing(_, _, _, names) =>
      forall v | v in names ensures Committed(t, v) {
        assert Extends(CellOf(s, v), LogOf(s, v), CellOf(t, v), LogOf(t, v));
      }
    case Listed(_, names, _) =>
      forall v | v in names ensures Committed(t, v) {
        assert Extends(CellOf(s, v), LogOf(s, v), CellOf(t, v), LogOf(t, v));
      }
    case Rechecking(_, _, v, _) => assert Extends(CellOf(s, v), LogOf(s, v), CellOf(t, v), LogOf(t, v));
    case Indexing(v, _, _) => assert Extends(CellOf(s, v), LogOf(s, v), CellOf(t, v), LogOf(t, v));
    case _ =>
  }

  lemma WriteStaysOk(s: State, t: State, w: Write)
    requires Grows(s, t) && WriteOk(s, w)
    ensures WriteOk(t, w)
  {
    assert Extends(CellOf(s, w.v), LogOf(s, w.v), CellOf(t, w.v), LogOf(t, w.v));
  }

  lemma GrowthKeepsInv(s: State, t: State)
    requires Inv(s) && Grows(s, t) && t.procs == s.procs && t.sent == s.sent
    requires forall v :: CellOk(CellOf(t, v), LogOf(t, v))
    requires forall v, i :: 0 <= i < |LogOf(t, v)| ==> (v, LogOf(t, v)[i]) in t.downloaded
    ensures Inv(t)
  {
    forall w | w in t.sent ensures WriteOk(t, w) { WriteStaysOk(s, t, w); }
    forall pid | pid in t.procs ensures ProcOk(t, t.procs[pid]) { StaysOk(s, t, s.procs[pid]); }
  }

  /** A process may move to any state that is sound where the storage is now. */
  lemma MoveKeepsInv(s: State, pid: nat, p: Proc)
    requires Inv(s) && ProcOk(s, p)
    ensures Inv(With(s, pid, p)) && Grows(s, With(s, pid, p))
  {
    var t := With(s, pid, p);
    assert forall v :: CellOf(t, v) == CellOf(s, v) && LogOf(t, v) == LogOf(s, v);
    forall w | w in t.sent ensures WriteOk(t, w) { WriteStaysOk(s, t, w); }
    forall q | q in t.procs ensures ProcOk(t, t.procs[q]) {
      StaysOk(s, t, if q == pid then p else s.procs[q]);
    }
  }

  /** A write that is allowed keeps every cell sound, whenever it arrives. */
  lemma EffectIsSafe(s: State, w: Write)
    requires Inv(s) && WriteOk(s, w)
    ensures Inv(Effect(s, w)) && Grows(s, Effect(s, w))
  {
    var t := Effect(s, w);
    assert CellOk(CellOf(s, w.v), LogOf(s, w.v));
    assert CellOf(t, w.v) == Apply(CellOf(s, w.v), w);
    assert forall v :: v != w.v ==> CellOf(t, v) == CellOf(s, v) && LogOf(t, v) == LogOf(s, v);
    assert Extends(CellOf(s, w.v), LogOf(s, w.v), CellOf(t, w.v), LogOf(t, w.v));
    assert CellOk(CellOf(t, w.v), LogOf(t, w.v));
    GrowthKeepsInv(s, t);
  }

  lemma PendingIsOk(s: State, p: Proc)
    requires Inv(s) && ProcOk(s, p) && Pending(p).Some?
    ensures WriteOk(s, Pending(p).value)
  {}

  lemma SuccessIsOk(s: State, p: Proc)
    requires Inv(s) && ProcOk(s, p) && Pending(p).Some?
    requires var w := Pending(p).value; w.DeleteConcat? || !Exists(CellOf(s, w.v), Target(w))
    ensures ProcOk(Effect(s, Pending(p).value), AfterSuccess(p))
    ensures p.Creating? ==> IndexerOk(Effect(s, Pending(p).value), p.v, p.copy, AtGoMod)
  {
    var t := Effect(s, Pending(p).value);
    assert CellOk(CellOf(s, p.v), LogOf(s, p.v));
    if p.Creating? {
      var log := LogOf(t, p.v);
      assert log[|log| - 1] == p.copy;
      assert p.e != WarmUp ==> AfterSuccess(p).answer == View(p.e, log[|log| - 1]);
    }
  }

  lemma SuccessKeepsInv(s: State, pid: nat, child: nat)
    requires Inv(s) && Enabled(s, Succeed(pid, child))
    ensures Inv(Next(s, Succeed(pid, child))) && Grows(s, Next(s, Succeed(pid, child)))
  {
    var p := s.procs[pid];
    assert ProcOk(s, p);
    PendingIsOk(s, p);
    EffectIsSafe(s, Pending(p).value);
    SuccessIsOk(s, p);
    var t := Effect(s, Pending(p).value);
    var u := With(t, pid, AfterSuccess(p));
    MoveKeepsInv(t, pid, AfterSuccess(p));
    GrowsTransitively(s, t, u);
    if p.Creating? {
      var indexer := Indexing(p.v, p.copy, AtGoMod);
      StaysOk(t, u, indexer);
      MoveKeepsInv(u, child, indexer);
      GrowsTransitively(s, u, With(u, child, indexer));
    }
  }

  lemma GrowsTransitively(s: State, t: State, u: State)
    requires Grows(s, t) && Grows(t, u)
    ensures Grows(s, u)
  {
    forall v ensures Extends(CellOf(s, v), LogOf(s, v), CellOf(u, v), LogOf(u, v)) {
      assert Extends(CellOf(s, v), LogOf(s, v), CellOf(t, v), LogOf(t, v));
      assert Extends(CellOf(t, v), LogOf(t, v), CellOf(u, v), LogOf(u, v));
    }
  }

  lemma LookKeepsInv(s: State, pid: nat)
    requires Inv(s) && Enabled(s, Look(pid))
    ensures Inv(Next(s, Look(pid))) && Grows(s, Next(s, Look(pid)))
  {
    var p := s.procs[pid];
    var c, log := CellOf(s, p.v), LogOf(s, p.v);
    assert CellOk(c, log) && ProcOk(s, p);
    var kind := if p.Rechecking? then RecheckLookup(p.e, p.first)
                else if p.first then FirstLookup(p.e) else SecondLookup(p.e);
    if Lookup(c, kind, p.e).Some? {
      FoundIsLogged(c, log, kind, p.e);
    }
    MoveKeepsInv(s, pid, Next(s, Look(pid)).procs[pid]);
  }

  /** Whatever a lookup of a matching object finds is the endpoint's view of one logged copy. */
  lemma FoundIsLogged(c: Cell, log: seq<Copy>, kind: ObjectKind, e: Endpoint)
    requires CellOk(c, log) && Lookup(c, kind, e).Some?
    requires (e == ZipFile ==> kind != GoMod) && (e != ZipFile ==> kind != Zip)
    ensures exists i :: 0 <= i < |log| && Lookup(c, kind, e).value == View(e, log[i])
    ensures kind != Concat ==> Lookup(c, kind, e).value == View(e, log[0])
  {
    if kind == Concat {
      var i :| 0 <= i < |log| && log[i] == c.concat.value;
    } else {
      assert Lookup(c, kind, e).value == View(e, log[0]);
    }
  }

  lemma PageKeepsInv(s: State, ev: Event)
    requires Inv(s) && Enabled(s, ev) && ev.ListPage?
    ensures Inv(Next(s, ev)) && Grows(s, Next(s, ev))
  {
    var p := s.procs[ev.pid];
    var p' := AfterPage(s, p, ev.kind, ev.range, ev.last);
    assert ProcOk(s, p);
    forall v | v in p'.names ensures v.path == p'.path && !v.pseudo && Committed(s, v) {
      assert CellOk(CellOf(s, v), LogOf(s, v));
    }
    MoveKeepsInv(s, ev.pid, p');
  }

  lemma DownloadKeepsInv(s: State, ev: Event)
    requires Inv(s) && Enabled(s, ev) && ev.Download?
    ensures Inv(Next(s, ev)) && Grows(s, Next(s, ev))
  {
    var t := s.(downloaded := s.downloaded + {(ev.v, ev.copy)});
    assert forall v :: CellOf(t, v) == CellOf(s, v) && LogOf(t, v) == LogOf(s, v);
    GrowthKeepsInv(s, t);
    MoveKeepsInv(t, ev.pid, Next(s, ev).procs[ev.pid]);
    GrowsTransitively(s, t, Next(s, ev));
  }

  lemma StepKeepsInv(s: State, ev: Event)
    requires Inv(s) && Enabled(s, ev)
    ensures Inv(Next(s, ev)) && Grows(s, Next(s, ev))
  {
    match ev
    case Succeed(pid, child) => SuccessKeepsInv(s, pid, child);
    case Look(pid) => LookKeepsInv(s, pid);
    case Download(_, _, _) => DownloadKeepsInv(s, ev);
    case ListPage(_, _, _, _) => PageKeepsInv(s, ev);
    case Deliver(w) => EffectIsSafe(s, w);
    case Refuse(pid) =>
      var p := s.procs[pid];
      assert ProcOk(s, p) && CellOk(CellOf(s, p.v), LogOf(s, p.v));
      MoveKeepsInv(s, pid, AfterRefusal(p));
    case Lose(pid) =>
      PendingIsOk(s, s.procs[pid]);
      LossKeepsInv(s, pid);
    case Arrive(pid, e, v) => MoveKeepsInv(s, pid, Looking(e, v, true));
    case ArriveUnresolved(pid, e) => MoveKeepsInv(s, pid, Fetching(e, None));
    case Stop(pid) => MoveKeepsInv(s, pid, Stopped);
    case ListArrive(pid, path) => MoveKeepsInv(s, pid, Listing(path, Scan(iset{}, false), Scan(iset{}, false), {}));
    case ListReturn(pid, goList) =>
      assert ProcOk(s, s.procs[pid]);
      MoveKeepsInv(s, pid, Listed(s.procs[pid].path, s.procs[pid].names, goList));
  }

  lemma LossKeepsInv(s: State, pid: nat)
    requires Inv(s) && Enabled(s, Lose(pid)) && WriteOk(s, Pending(s.procs[pid]).value)
    ensures Inv(Next(s, Lose(pid))) && Grows(s, Next(s, Lose(pid)))
  {
    var t := Next(s, Lose(pid));
    assert forall v :: CellOf(t, v) == CellOf(s, v) && LogOf(t, v) == LogOf(s, v);
    forall w | w in t.sent ensures WriteOk(t, w) { WriteStaysOk(s, t, w); }
    forall q | q in t.procs ensures ProcOk(t, t.procs[q]) { StaysOk(s, t, s.procs[q]); }
  }
}
