/**
  The handlers of all replicas as one transition system. Every storage request is a step of its own,
  so the runs of this system are all interleavings of any number of requests and indexers on any
  number of replicas.
 */
module Service {
  import opened Basics
  import opened ObjectStore

  datatype Stage = AtGoMod | AtZip | AtDelete

  /** The pages a listing has read so far; `done` once the storage returned no further page token. */
  datatype Scan = Scan(covered: iset<ModuleVersion>, done: bool)

  datatype Proc =
    | Looking(e: Endpoint, v: ModuleVersion, first: bool)
    | Fetching(e: Endpoint, asked: Option<ModuleVersion>)
    | Creating(e: Endpoint, asked: Option<ModuleVersion>, v: ModuleVersion, copy: Copy)
    | Rechecking(e: Endpoint, asked: Option<ModuleVersion>, v: ModuleVersion, first: bool)
    | Answered(e: Endpoint, asked: Option<ModuleVersion>, v: ModuleVersion, answer: Answer)
    | NotFound(e: Endpoint, v: ModuleVersion)
    | Indexing(v: ModuleVersion, copy: Copy, stage: Stage)
    | Listing(path: string, goModScan: Scan, concatScan: Scan, names: set<ModuleVersion>)
    | Listed(path: string, names: set<ModuleVersion>, goList: set<ModuleVersion>)
    | Stopped

  /**
    `log` and `downloaded` are history: the copies whose concat creation took effect, per version and
    in order, and all downloads. `sent` holds writes whose caller got no definite reply.
   */
  datatype State = State(
    cells: map<ModuleVersion, Cell>,
    log: map<ModuleVersion, seq<Copy>>,
    downloaded: set<(ModuleVersion, Copy)>,
    sent: set<Write>,
    procs: map<nat, Proc>)

  function CellOf(s: State, v: ModuleVersion): Cell {
    if v in s.cells then s.cells[v] else EMPTY
  }

  function LogOf(s: State, v: ModuleVersion): seq<Copy> {
    if v in s.log then s.log[v] else []
  }

  const INIT := State(map[], map[], {}, {}, map[])

  /** The object that a request tries first, before it downloads anything. */
  function FirstLookup(e: Endpoint): ObjectKind {
    match e
    case Latest => Concat
    case ZipFile => Zip
    case _ => GoMod
  }

  function SecondLookup(e: Endpoint): ObjectKind {
    if e == Latest then GoMod else Concat
  }

  /** After a lost creation race the order is concat first, for every endpoint. */
  function RecheckLookup(e: Endpoint, first: bool): ObjectKind {
    if first then Concat else if e == ZipFile then Zip else GoMod
  }

  function AfterLooking(e: Endpoint, v: ModuleVersion, first: bool, found: Option<Answer>): Proc {
    match found
    case Some(a) => if e == WarmUp then Stopped else Answered(e, Some(v), v, a)
    case None => if first && e != WarmUp then Looking(e, v, false) else Fetching(e, Some(v))
  }

  function AfterRechecking(e: Endpoint, asked: Option<ModuleVersion>, v: ModuleVersion, first: bool,
                           found: Option<Answer>): Proc {
    match found
    case Some(a) => Answered(e, asked, v, a)
    case None => if first then Rechecking(e, asked, v, false) else NotFound(e, v)
  }

  /** The write a process is waiting for. */
  function Pending(p: Proc): Option<Write> {
    match p
    case Creating(_, _, v, copy) => Some(CreateConcat(v, copy))
    case Indexing(v, copy, stage) =>
      (match stage
       case AtGoMod => Some(CreateGoMod(v, GoModObject(copy.time, copy.goMod)))
       case AtZip => Some(CreateZip(v, copy.zip))
       case AtDelete => Some(DeleteConcat(v)))
    case _ => None
  }

  /** Both a created object and an object that was there already let the indexer go on. */
  function NextStage(p: Proc): Proc
    requires p.Indexing?
  {
    match p.stage
    case AtGoMod => p.(stage := AtZip)
    case AtZip => p.(stage := AtDelete)
    case AtDelete => Stopped
  }

  function AfterSuccess(p: Proc): Proc
    requires Pending(p).Some?
  {
    match p
    case Creating(e, asked, v, copy) => if e == WarmUp then Stopped else Answered(e, asked, v, View(e, copy))
    case Indexing(_, _, _) => NextStage(p)
  }

  function AfterRefusal(p: Proc): Proc
    requires Pending(p).Some?
  {
    match p
    case Creating(e, asked, v, _) => if e == WarmUp then Stopped else Rechecking(e, asked, v, true)
    case Indexing(_, _, _) => NextStage(p)
  }

  /** A write reaches the storage. Creations of a concat object that take effect enter the log. */
  function Effect(s: State, w: Write): State {
    var c := CellOf(s, w.v);
    s.(cells := s.cells[w.v := Apply(c, w)],
       log := if w.CreateConcat? && c.concat.None? then s.log[w.v := LogOf(s, w.v) + [w.copy]] else s.log)
  }

  function With(s: State, pid: nat, p: Proc): State {
    s.(procs := s.procs[pid := p])
  }

  /**
    `ArriveUnresolved` goes straight to the download: an ".info" request for a branch, a private "@latest", or
    background caching that goes on after a failed lookup.
    `Succeed` and `Refuse` are definite replies to a write. After `Lose` the caller knows nothing and
    may try again or stop, and from then on the write may `Deliver` any number of times, at any moment.
    `Stop` is a crash, a cancellation or a fatal error.
   */
  datatype Event =
    | Arrive(pid: nat, e: Endpoint, v: ModuleVersion)
    | ArriveUnresolved(pid: nat, e: Endpoint)
    | Look(pid: nat)
    | Download(pid: nat, v: ModuleVersion, copy: Copy)
    | Succeed(pid: nat, child: nat)
    | Refuse(pid: nat)
    | Lose(pid: nat)
    | Deliver(w: Write)
    | Stop(pid: nat)
    | ListArrive(pid: nat, path: string)
    | ListPage(pid: nat, kind: ObjectKind, range: iset<ModuleVersion>, last: bool)
    | ListReturn(pid: nat, goList: set<ModuleVersion>)

  ghost predicate Enabled(s: State, ev: Event) {
    match ev
    case Arrive(pid, e, v) => pid !in s.procs
    case ArriveUnresolved(pid, e) => pid !in s.procs && (e == Info || e == Latest || e == WarmUp)
    case Look(pid) => pid in s.procs && (s.procs[pid].Looking? || s.procs[pid].Rechecking?)
    case Download(pid, v, copy) => pid in s.procs && s.procs[pid].Fetching?
    case Succeed(pid, child) =>
      pid in s.procs && Pending(s.procs[pid]).Some? && child !in s.procs &&
      var w := Pending(s.procs[pid]).value;
      w.DeleteConcat? || !Exists(CellOf(s, w.v), Target(w))
    case Refuse(pid) =>
      pid in s.procs && Pending(s.procs[pid]).Some? &&
      var w := Pending(s.procs[pid]).value;
      !w.DeleteConcat? && Exists(CellOf(s, w.v), Target(w))
    case Lose(pid) => pid in s.procs && Pending(s.procs[pid]).Some?
    case Deliver(w) => w in s.sent
    case Stop(pid) => pid in s.procs && !s.procs[pid].Answered? && !s.procs[pid].Listed?
    case ListArrive(pid, path) => pid !in s.procs
    case ListPage(pid, kind, range, last) =>
      pid in s.procs && s.procs[pid].Listing? && kind != Zip &&
      !(if kind == GoMod then s.procs[pid].goModScan else s.procs[pid].concatScan).done
    case ListReturn(pid, goList) =>
      pid in s.procs && s.procs[pid].Listing? && s.procs[pid].goModScan.done && s.procs[pid].concatScan.done
  }

  /** The versions in the part of the namespace that a page covers; the last page covers all that is left. */
  ghost predicate Shown(scan: Scan, range: iset<ModuleVersion>, last: bool, v: ModuleVersion) {
    v in range || (last && v !in scan.covered)
  }

  /** A page names the objects that exist at the moment it is read; pseudo-versions are dropped. */
  ghost function AfterPage(s: State, p: Proc, kind: ObjectKind, range: iset<ModuleVersion>, last: bool): Proc
    requires p.Listing?
  {
    var scan := if kind == GoMod then p.goModScan else p.concatScan;
    var next := Scan(scan.covered + range, last);
    var page := set v | v in s.cells && v.path == p.path && !v.pseudo &&
                        Shown(scan, range, last, v) && Exists(s.cells[v], kind);
    if kind == GoMod then p.(goModScan := next, names := p.names + page)
    else p.(concatScan := next, names := p.names + page)
  }

  ghost function Next(s: State, ev: Event): State
    requires Enabled(s, ev)
  {
    match ev
    case Arrive(pid, e, v) => With(s, pid, Looking(e, v, true))
    case ArriveUnresolved(pid, e) => With(s, pid, Fetching(e, None))
    case Look(pid) =>
      (match s.procs[pid]
       case Looking(e, v, first) =>
         var kind := if first then FirstLookup(e) else SecondLookup(e);
         With(s, pid, AfterLooking(e, v, first, Lookup(CellOf(s, v), kind, e)))
       case Rechecking(e, asked, v, first) =>
         With(s, pid, AfterRechecking(e, asked, v, first, Lookup(CellOf(s, v), RecheckLookup(e, first), e)))
       case _ => s)
    case Download(pid, v, copy) =>
      With(s, pid, Creating(s.procs[pid].e, s.procs[pid].asked, v, copy)).(downloaded := s.downloaded + {(v, copy)})
    case Succeed(pid, child) =>
      var p := s.procs[pid];
      var s1 := With(Effect(s, Pending(p).value), pid, AfterSuccess(p));
      if p.Creating? then With(s1, child, Indexing(p.v, p.copy, AtGoMod)) else s1
    case Refuse(pid) => With(s, pid, AfterRefusal(s.procs[pid]))
    case Lose(pid) => s.(sent := s.sent + {Pending(s.procs[pid]).value})
    case Deliver(w) => Effect(s, w)
    case Stop(pid) => With(s, pid, Stopped)
    case ListArrive(pid, path) => With(s, pid, Listing(path, Scan(iset{}, false), Scan(iset{}, false), {}))
    case ListPage(pid, kind, range, last) => With(s, pid, AfterPage(s, s.procs[pid], kind, range, last))
    case ListReturn(pid, goList) =>
      var p := s.procs[pid];
      With(s, pid, Listed(p.path, p.names, goList))
  }
}
