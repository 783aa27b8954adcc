/**
  Who keeps the temporary directory and the two downloaded files alive: the request handler, the indexer
  that runs on behind it, and the reader of the response. Every addition or removal of a reference is one
  step, so the runs are all interleavings of the three.
 */
module Lifetime {
  /** Where the handler is. The creating branch passes the `Share` states, the others skip them. */
  datatype Handler =
    | HasDir | HasGoMod | HasBoth
    | SharedGoMod | SharedZip | SharedAll
    | DropsZip | DropsGoMod | Opens | DropsDir | Gone

  /** What the indexer still has to give back, in the order of its deferred function. */
  datatype Indexer = NotStarted | HoldsAll | HoldsZipAndDir | HoldsDir | Finished

  datatype Reader = NotOpened | Open | Closed

  /** A counted resource: `exists` until the count falls to zero, when it is released. */
  datatype Counted = Counted(refs: int, alive: bool, releases: nat)

  const ABSENT := Counted(0, false, 0)

  function Add(c: Counted): Counted {
    c.(refs := c.refs + 1)
  }

  function Remove(c: Counted): Counted {
    var c' := c.(refs := c.refs - 1);
    if c'.refs == 0 then c'.(alive := false, releases := c'.releases + 1) else c'
  }

  /** `leaked` records that closing the file of the response failed, after which nothing is given back. */
  datatype State = State(dir: Counted, goMod: Counted, zip: Counted,
                         handler: Handler, indexer: Indexer, reader: Reader, leaked: bool)

  const INIT := State(Counted(1, true, 0), ABSENT, ABSENT, HasDir, NotStarted, NotOpened, false)

  datatype Step = HandlerSucceeds | HandlerFails | IndexerMoves | ReaderCloses(closeFails: bool)

  function OpenFile(): Counted {
    Counted(1, true, 0)
  }

  /** Failing means the error return at that point: the deferred removals still run. */
  function HandlerNext(s: State, ok: bool): State {
    match s.handler
    case HasDir => if ok then s.(goMod := OpenFile(), handler := HasGoMod) else s.(handler := DropsDir)
    case HasGoMod => if ok then s.(zip := OpenFile(), handler := HasBoth) else s.(handler := DropsGoMod)
    case HasBoth => if ok then s.(goMod := Add(s.goMod), handler := SharedGoMod) else s.(handler := DropsZip)
    case SharedGoMod => s.(zip := Add(s.zip), handler := SharedZip)
    case SharedZip => s.(dir := Add(s.dir), handler := SharedAll)
    case SharedAll => s.(indexer := HoldsAll, handler := DropsZip)
    case DropsZip => s.(zip := Remove(s.zip), handler := DropsGoMod)
    case DropsGoMod => s.(goMod := Remove(s.goMod), handler := Opens)
    case Opens => if ok then s.(dir := Add(s.dir), reader := Open, handler := DropsDir) else s.(handler := DropsDir)
    case DropsDir => s.(dir := Remove(s.dir), handler := Gone)
    case Gone => s
  }

  function IndexerNext(s: State): State {
    match s.indexer
    case HoldsAll => s.(goMod := Remove(s.goMod), indexer := HoldsZipAndDir)
    case HoldsZipAndDir => s.(zip := Remove(s.zip), indexer := HoldsDir)
    case HoldsDir => s.(dir := Remove(s.dir), indexer := Finished)
    case _ => s
  }

  /** Close of the response reader: only the first call does anything. */
  function ReaderNext(s: State, closeFails: bool): State {
    if s.reader != Open then s
    else if closeFails then s.(reader := Closed, leaked := true)
    else s.(reader := Closed, dir := Remove(s.dir))
  }

  function Next(s: State, step: Step): State {
    match step
    case HandlerSucceeds => HandlerNext(s, true)
    case HandlerFails => HandlerNext(s, false)
    case IndexerMoves => IndexerNext(s)
    case ReaderCloses(closeFails) => ReaderNext(s, closeFails)
  }

  function After(steps: seq<Step>): State {
    if steps == [] then INIT else Next(After(steps[..|steps| - 1]), steps[|steps| - 1])
  }

  function One(b: bool): nat {
    if b then 1 else 0
  }

  /** The live holders of each resource. References added for an indexer about to start are its own. */
  function DirHolders(s: State): nat {
    One(s.handler != Gone) + One(s.handler == SharedAll || s.indexer in {HoldsAll, HoldsZipAndDir, HoldsDir}) +
    One(s.reader == Open || s.leaked)
  }

  function GoModHolders(s: State): nat {
    One(s.handler in {HasGoMod, HasBoth, SharedGoMod, SharedZip, SharedAll, DropsZip, DropsGoMod}) +
    One(s.handler in {SharedGoMod, SharedZip, SharedAll} || s.indexer == HoldsAll)
  }

  function ZipHolders(s: State): nat {
    One(s.handler in {HasBoth, SharedGoMod, SharedZip, SharedAll, DropsZip}) +
    One(s.handler in {SharedZip, SharedAll} || s.indexer in {HoldsAll, HoldsZipAndDir})
  }

  /** The count is the number of holders; the resource exists as long as there is one and goes once. */
  predicate Accounted(c: Counted, holders: nat) {
    && c.refs == holders
    && (c.alive <==> holders > 0)
    && c.releases <= 1
    && (c.releases == 1 ==> holders == 0)
  }

  predicate Inv(s: State) {
    && Accounted(s.dir, DirHolders(s)) && Accounted(s.goMod, GoModHolders(s)) && Accounted(s.zip, ZipHolders(s))
    && (DirHolders(s) == 0 ==> s.dir.releases == 1)
    && (s.indexer != NotStarted ==> s.handler in {DropsZip, DropsGoMod, Opens, DropsDir, Gone})
    && (s.reader != NotOpened ==> s.handler in {DropsDir, Gone})
    && (s.leaked ==> s.reader == Closed)
    && (s.handler == HasDir ==> s.goMod == ABSENT)
    && (s.handler in {HasDir, HasGoMod} ==> s.zip == ABSENT)
  }

  lemma HandlerKeepsInv(s: State, ok: bool)
    requires Inv(s)
    ensures Inv(HandlerNext(s, ok))
  {}

  lemma IndexerKeepsInv(s: State)
    requires Inv(s)
    ensures Inv(IndexerNext(s))
  {}

  lemma ReaderKeepsInv(s: State, closeFails: bool)
    requires Inv(s)
    ensures Inv(ReaderNext(s, closeFails))
  {}

  lemma {:induction false} Reachable(steps: seq<Step>)
    ensures Inv(After(steps))
  {
    if steps != [] {
      var s, step := After(steps[..|steps| - 1]), steps[|steps| - 1];
      Reachable(steps[..|steps| - 1]);
      match step
      case HandlerSucceeds => HandlerKeepsInv(s, true);
      case HandlerFails => HandlerKeepsInv(s, false);
      case IndexerMoves => IndexerKeepsInv(s);
      case ReaderCloses(closeFails) => ReaderKeepsInv(s, closeFails);
    }
  }

  /** Whoever still uses a resource finds it in place, and opening a response reader never panics. */
  lemma UsedMeansAlive(steps: seq<Step>)
    ensures var s := After(steps);
            && (s.handler in {HasBoth, SharedGoMod, SharedZip, SharedAll} ==>
                  s.goMod.alive && s.zip.alive && s.dir.alive)
            && (s.indexer == HoldsAll ==> s.goMod.alive && s.zip.alive && s.dir.alive)
            && (s.indexer == HoldsZipAndDir ==> s.zip.alive && s.dir.alive)
            && (s.reader == Open ==> s.dir.alive)
            && (s.handler == Opens ==> s.dir.refs > 0)
  {
    Reachable(steps);
  }

  /** Nothing is released twice, in any state, whatever else still happens. */
  lemma ReleasedAtMostOnce(steps: seq<Step>)
    ensures var s := After(steps); s.dir.releases <= 1 && s.goMod.releases <= 1 && s.zip.releases <= 1
  {
    Reachable(steps);
  }

  predicate AllDone(s: State) {
    s.handler == Gone && s.indexer in {NotStarted, Finished} && s.reader != Open
  }

  /**
    When all three are done the files are closed, and the directory has been removed, once, exactly if the
    file of the response was closed without an error.
   */
  lemma EverythingIsReleasedIff(steps: seq<Step>)
    requires AllDone(After(steps))
    ensures var s := After(steps);
            && !s.goMod.alive && !s.zip.alive && s.goMod.refs == 0 && s.zip.refs == 0
            && (!s.dir.alive && s.dir.releases == 1 <==> !s.leaked)
  {
    Reachable(steps);
  }

  // ---------- progress ----------

  function HandlerStepsLeft(h: Handler): nat {
    match h
    case HasDir => 10
    case HasGoMod => 9
    case HasBoth => 8
    case SharedGoMod => 7
    case SharedZip => 6
    case SharedAll => 5
    case DropsZip => 4
    case DropsGoMod => 3
    case Opens => 2
    case DropsDir => 1
    case Gone => 0
  }

  function IndexerStepsLeft(i: Indexer): nat {
    match i
    case HoldsAll => 3
    case HoldsZipAndDir => 2
    case HoldsDir => 1
    case _ => 0
  }

  /** Every step of the handler and of the indexer brings it closer to its end, and a reader closes at once. */
  lemma StepsMakeProgress(s: State, ok: bool, closeFails: bool)
    ensures s.handler != Gone ==> HandlerStepsLeft(HandlerNext(s, ok).handler) < HandlerStepsLeft(s.handler)
    ensures s.indexer in {HoldsAll, HoldsZipAndDir, HoldsDir} ==>
              IndexerStepsLeft(IndexerNext(s).indexer) < IndexerStepsLeft(s.indexer) &&
              (IndexerStepsLeft(IndexerNext(s).indexer) == 0 ==> IndexerNext(s).indexer == Finished)
    ensures s.reader == Open ==> ReaderNext(s, closeFails).reader == Closed
  {}

  function Repeat(step: Step, n: nat): seq<Step> {
    seq(n, i requires 0 <= i < n => step)
  }

  lemma AfterOneMore(steps: seq<Step>, step: Step)
    ensures After(steps + [step]) == Next(After(steps), step)
  {
    assert (steps + [step])[..|steps|] == steps;
  }

  lemma AfterSuccesses(n: nat)
    ensures After(Repeat(HandlerSucceeds, n + 1)) == HandlerNext(After(Repeat(HandlerSucceeds, n)), true)
  {
    assert Repeat(HandlerSucceeds, n + 1) == Repeat(HandlerSucceeds, n) + [HandlerSucceeds];
    AfterOneMore(Repeat(HandlerSucceeds, n), HandlerSucceeds);
  }

  /** Ten steps without an error: the response is open, the indexer has all it needs, and the handler is gone. */
  lemma RequestIsServed()
    ensures var s := After(Repeat(HandlerSucceeds, 10));
            && s.handler == Gone && s.reader == Open && s.indexer == HoldsAll
            && s.dir == Counted(2, true, 0) && s.goMod == Counted(1, true, 0) && s.zip == Counted(1, true, 0)
  {
    assert Repeat(HandlerSucceeds, 0) == [];
    assert After([]) == INIT;
    AfterSuccesses(0);
    AfterSuccesses(1);
    AfterSuccesses(2);
    AfterSuccesses(3);
    AfterSuccesses(4);
    AfterSuccesses(5);
    AfterSuccesses(6);
    AfterSuccesses(7);
    AfterSuccesses(8);
    AfterSuccesses(9);
  }
}
