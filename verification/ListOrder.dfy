/**
  "List after read", exactly: which orders of the pages of a listing guarantee that a version that was read
  before the listing started is in its result.
 */
module ListOrder {
  import opened ObjectStore
  import opened Service
  import opened Consistency
  import opened StrongConsistency
  import opened ServiceList
  import opened Counterexamples
  import opened RequestWindow

  /** A page that is read: of which kind, what part of the namespace it covers, and whether it is the last one. */
  datatype Page = Page(kind: ObjectKind, range: iset<ModuleVersion>, last: bool)

  /** How far the two page sequences of a listing have been read. */
  datatype Progress = Progress(goMod: Scan, concat: Scan)

  const NOTHING_READ := Progress(Scan(iset{}, false), Scan(iset{}, false))

  ghost function ScanOf(at: Progress, kind: ObjectKind): Scan {
    if kind == GoMod then at.goMod else at.concat
  }

  ghost function Turn(at: Progress, page: Page): Progress {
    var next := Scan(ScanOf(at, page.kind).covered + page.range, page.last);
    if page.kind == GoMod then at.(goMod := next) else at.(concat := next)
  }

  ghost predicate Shows(at: Progress, page: Page, kind: ObjectKind, v: ModuleVersion) {
    page.kind == kind && Shown(ScanOf(at, kind), page.range, page.last, v)
  }

  /** These pages can be read from here on, and are all that is left. */
  ghost predicate Readable(at: Progress, pages: seq<Page>)
    decreases |pages|
  {
    if pages == [] then at.goMod.done && at.concat.done
    else pages[0].kind != Zip && !ScanOf(at, pages[0].kind).done && Readable(Turn(at, pages[0]), pages[1..])
  }

  ghost predicate GoModShows(at: Progress, pages: seq<Page>, v: ModuleVersion)
    decreases |pages|
  {
    pages != [] && (Shows(at, pages[0], GoMod, v) || GoModShows(Turn(at, pages[0]), pages[1..], v))
  }

  ghost predicate ConcatShows(at: Progress, pages: seq<Page>, v: ModuleVersion)
    decreases |pages|
  {
    pages != [] && (Shows(at, pages[0], Concat, v) || ConcatShows(Turn(at, pages[0]), pages[1..], v))
  }

  /** Some concat page that covers the version is followed by a gomod page that covers it. */
  ghost predicate ConcatThenGoMod(at: Progress, pages: seq<Page>, v: ModuleVersion)
    decreases |pages|
  {
    pages != [] &&
    (var next, rest := Turn(at, pages[0]), pages[1..];
     (Shows(at, pages[0], Concat, v) && GoModShows(next, rest, v)) || ConcatThenGoMod(next, rest, v))
  }

  ghost function ProgressOf(p: Proc): Progress
    requires p.Listing?
  {
    Progress(p.goModScan, p.concatScan)
  }

  /** The pages that a process reads in a sequence of events. */
  function PagesOf(events: seq<Event>, pid: nat): seq<Page> {
    if events == [] then []
    else
      (match events[0]
       case ListPage(q, kind, range, last) => if q == pid then [Page(kind, range, last)] else []
       case _ => []) + PagesOf(events[1..], pid)
  }

  lemma {:induction false} NoPages(events: seq<Event>, pid: nat)
    requires forall ev :: ev in events ==> !ev.ListPage?
    ensures PagesOf(events, pid) == []
  {
    if events != [] {
      assert events[0] in events;
      NoPages(events[1..], pid);
    }
  }

  lemma {:induction false} PagesAppend(first: seq<Event>, second: seq<Event>, pid: nat)
    ensures PagesOf(first + second, pid) == PagesOf(first, pid) + PagesOf(second, pid)
  {
    if first == [] {
      assert first + second == second;
    } else {
      assert (first + second)[1..] == first[1..] + second;
      PagesAppend(first[1..], second, pid);
    }
  }

  // ---------- the orders that are safe ----------

  /** A page that is left is sure to name the version: for one of three reasons it has to find an object. */
  ghost predicate Awaited(s: State, at: Progress, pages: seq<Page>, v: ModuleVersion) {
    || (Exists(CellOf(s, v), GoMod) && GoModShows(at, pages, v))
    || (Anchored(s, v) && ConcatShows(at, pages, v))
    || (Committed(s, v) && ConcatThenGoMod(at, pages, v))
  }

  /** With the pages that are left, the version gets into the result whatever happens. */
  ghost predicate Settled(s: State, p: Proc, pages: seq<Page>, v: ModuleVersion) {
    ListsModuleOf(p, v) && (v in p.names || (p.Listing? && Awaited(s, ProgressOf(p), pages, v)))
  }

  lemma SettledByPage(s: State, ev: Event, pages: seq<Page>, v: ModuleVersion)
    requires Inv(s) && Enabled(s, ev) && ev.ListPage? && !v.pseudo
    requires Settled(s, s.procs[ev.pid], [Page(ev.kind, ev.range, ev.last)] + pages, v)
    ensures Settled(s, AfterPage(s, s.procs[ev.pid], ev.kind, ev.range, ev.last), pages, v)
  {
    var p, page := s.procs[ev.pid], Page(ev.kind, ev.range, ev.last);
    assert ([page] + pages)[1..] == pages;
    assert CellOk(CellOf(s, v), LogOf(s, v));
    assert ProgressOf(AfterPage(s, p, ev.kind, ev.range, ev.last)) == Turn(ProgressOf(p), page);
  }

  /** No step takes away what is awaited. */
  lemma SettledStays(s: State, ev: Event, p: Proc, pages: seq<Page>, v: ModuleVersion)
    requires Inv(s) && Enabled(s, ev) && Settled(s, p, pages, v)
    ensures Settled(Next(s, ev), p, pages, v)
  {
    StepKeepsInv(s, ev);
    assert Extends(CellOf(s, v), LogOf(s, v), CellOf(Next(s, ev), v), LogOf(Next(s, ev), v));
    if Anchored(s, v) {
      AnchoredStep(s, ev, v);
    }
  }

  lemma SettledStep(s: State, ev: Event, pid: nat, pages: seq<Page>, v: ModuleVersion)
    requires Inv(s) && Enabled(s, ev) && pid in s.procs && !v.pseudo
    requires Settled(s, s.procs[pid], PagesOf([ev], pid) + pages, v)
    requires pid in Next(s, ev).procs && Next(s, ev).procs[pid] != Stopped
    requires Next(s, ev).procs[pid].Listed? ==> pages == []
    ensures Settled(Next(s, ev), Next(s, ev).procs[pid], pages, v)
  {
    OnlyOwnEventsMove(s, ev, pid);
    ListingStep(s, ev, pid);
    assert [ev][1..] == [];
    if ev.ListPage? && ev.pid == pid {
      assert PagesOf([ev], pid) == [Page(ev.kind, ev.range, ev.last)];
      SettledByPage(s, ev, pages, v);
    } else {
      assert PagesOf([ev], pid) + pages == pages;
    }
    SettledStays(s, ev, Next(s, ev).procs[pid], pages, v);
  }

  /** A listing that has returned or stopped reads no more pages. */
  lemma {:induction false} NoMorePages(r: Run, k: nat, b: nat, pid: nat)
    requires IsRun(r) && k <= b && At(r, b) && pid in r.states[k].procs && !r.states[k].procs[pid].Listing?
    ensures PagesOf(r.events[k..b], pid) == []
    decreases b - k
  {
    if k < b {
      assert r.events[k..b][1..] == r.events[k + 1..b];
      assert StepAt(r, k);
      ScansGrowStep(r.states[k], r.events[k], pid);
      NoMorePages(r, k + 1, b, pid);
    }
  }

  lemma {:induction false} SettledIsNamed(r: Run, a: nat, b: nat, pid: nat, v: ModuleVersion)
    requires IsRun(r) && a <= b && At(r, b) && pid in r.states[a].procs && pid in r.states[b].procs && !v.pseudo
    requires Settled(r.states[a], r.states[a].procs[pid], PagesOf(r.events[a..b], pid), v)
    requires r.states[b].procs[pid].Listed?
    ensures v in r.states[b].procs[pid].names
    decreases b - a
  {
    if a < b {
      var rest := PagesOf(r.events[a + 1..b], pid);
      assert r.events[a..b] == [r.events[a]] + r.events[a + 1..b];
      PagesAppend([r.events[a]], r.events[a + 1..b], pid);
      Reachable(r, a);
      assert StepAt(r, a);
      OnlyOwnEventsMove(r.states[a], r.events[a], pid);
      if r.states[a + 1].procs[pid] == Stopped {
        StoppedStays(r, a + 1, b, pid);
      }
      if r.states[a + 1].procs[pid].Listed? {
        NoMorePages(r, a + 1, b, pid);
      }
      assert StepAt(r, a);
      SettledStep(r.states[a], r.events[a], pid, rest, v);
      SettledIsNamed(r, a + 1, b, pid, v);
    }
  }

  lemma {:induction false} StoppedStays(r: Run, k: nat, b: nat, pid: nat)
    requires IsRun(r) && k <= b && At(r, b) && pid in r.states[k].procs && r.states[k].procs[pid] == Stopped
    ensures pid in r.states[b].procs && r.states[b].procs[pid] == Stopped
    decreases b - k
  {
    if k < b {
      assert StepAt(r, k);
      OnlyOwnEventsMove(r.states[k], r.events[k], pid);
      StoppedStays(r, k + 1, b, pid);
    }
  }

  // ---------- the orders that are not ----------

  /** The pages are read in one go. None of them names the version: the objects that they show are not there. */
  lemma {:induction false} ReadInVain(r: Run, pid: nat, pages: seq<Page>, v: ModuleVersion) returns (r': Run)
    requires IsRun(r) && pid in Last(r).procs && Last(r).procs[pid].Listing? && v !in Last(r).procs[pid].names
    requires var at := ProgressOf(Last(r).procs[pid]);
             && Readable(at, pages)
             && (Exists(CellOf(Last(r), v), Concat) ==> !ConcatShows(at, pages, v))
             && (Exists(CellOf(Last(r), v), GoMod) ==> !GoModShows(at, pages, v))
    ensures Continues(r, r') && PagesOf(r'.events[|r.events|..], pid) == pages
    ensures pid in Last(r').procs && Last(r').procs[pid].Listed? && !InResult(Last(r').procs[pid], v)
    decreases |pages|
  {
    var p := Last(r).procs[pid];
    if pages == [] {
      r' := Extend(r, ListReturn(pid, {}));
      assert r'.events[|r.events|..] == [ListReturn(pid, {})];
    } else {
      var ev := ListPage(pid, pages[0].kind, pages[0].range, pages[0].last);
      var r1 := Extend(r, ev);
      assert ProgressOf(Last(r1).procs[pid]) == Turn(ProgressOf(p), pages[0]);
      assert CellOf(Last(r1), v) == CellOf(Last(r), v);
      r' := ReadInVain(r1, pid, pages[1..], v);
      PagesAfter(r, r1, r', pid);
      assert r1.events[|r.events|..] == [ev] && [ev][1..] == [];
    }
  }

  /** What a run reads in two parts. */
  lemma PagesAfter(r: Run, r1: Run, r2: Run, pid: nat)
    requires IsRun(r) && Continues(r, r1) && Continues(r1, r2)
    ensures Continues(r, r2)
    ensures PagesOf(r2.events[|r.events|..], pid) ==
            PagesOf(r1.events[|r.events|..], pid) + PagesOf(r2.events[|r1.events|..], pid)
  {
    assert r2.events[|r.events|..] == r1.events[|r.events|..] + r2.events[|r1.events|..];
    PagesAppend(r1.events[|r.events|..], r2.events[|r1.events|..], pid);
  }

  /** From any state: an indexer is at work, no page that is left names the version as a gomod object. */
  lemma MissedByTheRest(r: Run, pid: nat, ix: nat, pages: seq<Page>, v: ModuleVersion) returns (r': Run)
    requires IsRun(r) && pid in Last(r).procs && Last(r).procs[pid].Listing? && v !in Last(r).procs[pid].names
    requires Readable(ProgressOf(Last(r).procs[pid]), pages) && !GoModShows(ProgressOf(Last(r).procs[pid]), pages, v)
    requires ix in Last(r).procs && Last(r).procs[ix].Indexing? && Last(r).procs[ix].v == v
    ensures Continues(r, r') && PagesOf(r'.events[|r.events|..], pid) == pages
    ensures pid in Last(r').procs && Last(r').procs[pid].Listed? && !InResult(Last(r').procs[pid], v)
  {
    var r1 := IndexerFinishes(r, ix);
    NoPages(r1.events[|r.events|..], pid);
    r' := ReadInVain(r1, pid, pages, v);
    PagesAfter(r, r1, r', pid);
  }

  /** If gomod pages have covered the version, then the listing can end without another one that does. */
  lemma LastPages(at: Progress, v: ModuleVersion) returns (pages: seq<Page>)
    requires at.goMod.done || v in at.goMod.covered
    ensures Readable(at, pages) && !GoModShows(at, pages, v)
  {
    var goMod, concat := Page(GoMod, iset{}, true), Page(Concat, iset{}, true);
    var after := Turn(at, goMod);
    if at.concat.done {
      pages := if at.goMod.done then [] else [goMod];
    } else if at.goMod.done {
      pages := [concat];
    } else {
      pages := [goMod, concat];
      assert pages[1..] == [concat] && [concat][1..] == [];
      assert Readable(after, [concat]) && !GoModShows(after, [concat], v);
    }
  }

  /**
    In any state in which the gomod pages that cover a version are read, the version is not named yet, and an
    indexer is about to move it, the listing can still return without it.
   */
  lemma ListCanStillMiss(r: Run, pid: nat, ix: nat, v: ModuleVersion) returns (r': Run)
    requires IsRun(r) && pid in Last(r).procs && Last(r).procs[pid].Listing? && v !in Last(r).procs[pid].names
    requires Covers(Last(r).procs[pid].goModScan, v)
    requires ix in Last(r).procs && Last(r).procs[ix].Indexing? && Last(r).procs[ix].v == v
    ensures Continues(r, r') && pid in Last(r').procs
    ensures Last(r').procs[pid].Listed? && !InResult(Last(r').procs[pid], v)
  {
    var pages := LastPages(ProgressOf(Last(r).procs[pid]), v);
    r' := MissedByTheRest(r, pid, ix, pages, v);
  }

  /** The listing reads on until no gomod page that is left covers the version; only then the indexer writes. */
  lemma {:induction false} MissedInBetween(r: Run, pid: nat, ix: nat, pages: seq<Page>, v: ModuleVersion)
    returns (r': Run)
    requires IsRun(r) && pid in Last(r).procs && Last(r).procs[pid].Listing? && v !in Last(r).procs[pid].names
    requires var at := ProgressOf(Last(r).procs[pid]); Readable(at, pages) && !ConcatThenGoMod(at, pages, v)
    requires ix in Last(r).procs && Last(r).procs[ix].Indexing? && Last(r).procs[ix].v == v
    requires !Exists(CellOf(Last(r), v), GoMod)
    ensures Continues(r, r') && PagesOf(r'.events[|r.events|..], pid) == pages
    ensures pid in Last(r').procs && Last(r').procs[pid].Listed? && !InResult(Last(r').procs[pid], v)
    decreases |pages|
  {
    var at := ProgressOf(Last(r).procs[pid]);
    if !GoModShows(at, pages, v) {
      r' := MissedByTheRest(r, pid, ix, pages, v);
    } else {
      var ev := ListPage(pid, pages[0].kind, pages[0].range, pages[0].last);
      var r1 := Extend(r, ev);
      assert ProgressOf(Last(r1).procs[pid]) == Turn(at, pages[0]);
      r' := MissedInBetween(r1, pid, ix, pages[1..], v);
      PagesAfter(r, r1, r', pid);
      assert r1.events[|r.events|..] == [ev] && [ev][1..] == [];
    }
  }

  // ---------- the exact condition ----------

  /** However this run goes on, if the listing reads these pages and returns then it names the version. */
  ghost predicate AlwaysNames(r: Run, pid: nat, pages: seq<Page>, v: ModuleVersion) {
    forall r' ::
      Continues(r, r') && PagesOf(r'.events[|r.events|..], pid) == pages &&
      pid in Last(r').procs && Last(r').procs[pid].Listed?
      ==> InResult(Last(r').procs[pid], v)
  }

  lemma AwaitedIsNamed(r: Run, pid: nat, pages: seq<Page>, v: ModuleVersion)
    requires IsRun(r) && pid in Last(r).procs && !v.pseudo && Settled(Last(r), Last(r).procs[pid], pages, v)
    ensures AlwaysNames(r, pid, pages, v)
  {
    var a := |r.events|;
    forall r' | Continues(r, r') && PagesOf(r'.events[a..], pid) == pages &&
                pid in Last(r').procs && Last(r').procs[pid].Listed?
      ensures InResult(Last(r').procs[pid], v)
    {
      assert r'.states[a] == Last(r) && r'.events[a..] == r'.events[a..|r'.events|];
      SettledIsNamed(r', a, |r'.events|, pid, v);
    }
  }

  /** No gomod page that is left finds the version, and the concat object is not there to stay: it goes first. */
  lemma MissedWithoutConcat(r: Run, pid: nat, pages: seq<Page>, v: ModuleVersion) returns (r': Run)
    requires IsRun(r) && pid in Last(r).procs && Last(r).procs[pid].Listing? && v !in Last(r).procs[pid].names
    requires Readable(ProgressOf(Last(r).procs[pid]), pages) && !GoModShows(ProgressOf(Last(r).procs[pid]), pages, v)
    requires Committed(Last(r), v) && !Anchored(Last(r), v)
    ensures Continues(r, r') && PagesOf(r'.events[|r.events|..], pid) == pages
    ensures pid in Last(r').procs && Last(r').procs[pid].Listed? && !InResult(Last(r').procs[pid], v)
  {
    var r1 := LoseConcat(r, pid, v);
    NoPages(r1.events[|r.events|..], pid);
    r' := ReadInVain(r1, pid, pages, v);
    PagesAfter(r, r1, r', pid);
  }

  /**
    Without a gomod object: nothing is there before the commit, and then
    only an indexer can remove the concat object.
   */
  lemma WithoutGoMod(s: State, v: ModuleVersion)
    requires Inv(s) && !Exists(CellOf(s, v), GoMod)
    ensures !Committed(s, v) ==> !Exists(CellOf(s, v), Concat)
    ensures Committed(s, v) && !BeingIndexed(s, v) ==> Anchored(s, v)
  {
    assert CellOk(CellOf(s, v), LogOf(s, v));
    assert DeleteConcat(v) in s.sent ==> WriteOk(s, DeleteConcat(v));
  }

  lemma NotAwaitedCanMiss(r: Run, pid: nat, pages: seq<Page>, v: ModuleVersion) returns (r': Run)
    requires IsRun(r) && pid in Last(r).procs && Last(r).procs[pid].Listing? && v !in Last(r).procs[pid].names
    requires Readable(ProgressOf(Last(r).procs[pid]), pages)
    requires !Awaited(Last(r), ProgressOf(Last(r).procs[pid]), pages, v)
    ensures Continues(r, r') && PagesOf(r'.events[|r.events|..], pid) == pages
    ensures pid in Last(r').procs && Last(r').procs[pid].Listed? && !InResult(Last(r').procs[pid], v)
  {
    var s := Last(r);
    Reachable(r, |r.events|);
    assert CellOk(CellOf(s, v), LogOf(s, v));
    if Exists(CellOf(s, v), GoMod) {
      if Anchored(s, v) {
        r' := ReadInVain(r, pid, pages, v);
      } else {
        r' := MissedWithoutConcat(r, pid, pages, v);
      }
    } else {
      WithoutGoMod(s, v);
      if Committed(s, v) && BeingIndexed(s, v) {
        var ix :| ix in s.procs && s.procs[ix].Indexing? && s.procs[ix].v == v;
        r' := MissedInBetween(r, pid, ix, pages, v);
      } else {
        r' := ReadInVain(r, pid, pages, v);
      }
    }
  }

  /**
    In every state of a listing, and for every way to read the pages that are left: the listing is sure to have the
    version in its result exactly if it has named it already or a page that is left is sure to find an object of it.
   */
  lemma RestOfListIsSafeIff(r: Run, pid: nat, pages: seq<Page>, v: ModuleVersion)
    requires IsRun(r) && pid in Last(r).procs && ListsModuleOf(Last(r).procs[pid], v) && Last(r).procs[pid].Listing?
    requires !v.pseudo && Readable(ProgressOf(Last(r).procs[pid]), pages)
    ensures AlwaysNames(r, pid, pages, v) <==>
            v in Last(r).procs[pid].names || Awaited(Last(r), ProgressOf(Last(r).procs[pid]), pages, v)
  {
    if Settled(Last(r), Last(r).procs[pid], pages, v) {
      AwaitedIsNamed(r, pid, pages, v);
    } else {
      var r' := NotAwaitedCanMiss(r, pid, pages, v);
    }
  }

  /** A client has got an answer about the version. */
  ghost predicate WasRead(s: State, v: ModuleVersion) {
    exists q :: q in s.procs && s.procs[q].Answered? && s.procs[q].v == v
  }

  /** The listing process starts at step a, returns at step b and reads these pages. */
  ghost predicate Returns(r: Run, a: nat, b: nat, pid: nat, pages: seq<Page>, v: ModuleVersion) {
    && IsRun(r) && a <= b && At(r, b) && pid in r.states[a].procs && pid in r.states[b].procs
    && Untouched(r.states[a].procs[pid]) && r.states[a].procs[pid].path == v.path
    && PagesOf(r.events[a..b], pid) == pages && r.states[b].procs[pid].Listed?
  }

  /** The promise: what was read before the listing started is in the result, in every run. */
  ghost predicate NamesWhatWasRead(pages: seq<Page>, v: ModuleVersion) {
    forall r, a: nat, b: nat, pid: nat ::
      Returns(r, a, b, pid, pages, v) && WasRead(r.states[a], v) ==> InResult(r.states[b].procs[pid], v)
  }

  lemma OrderIsSafe(r: Run, a: nat, b: nat, pid: nat, pages: seq<Page>, v: ModuleVersion)
    requires Returns(r, a, b, pid, pages, v) && !v.pseudo && ConcatThenGoMod(NOTHING_READ, pages, v)
    requires Committed(r.states[a], v)
    ensures v in r.states[b].procs[pid].names
  {
    assert ProgressOf(r.states[a].procs[pid]) == NOTHING_READ;
    SettledIsNamed(r, a, b, pid, v);
  }

  /**
    List after read holds for exactly those orders of pages in which a concat page that covers the version
    comes before a gomod page that covers it.
   */
  lemma ListAfterReadIff(pages: seq<Page>, v: ModuleVersion)
    requires Readable(NOTHING_READ, pages) && !v.pseudo
    ensures NamesWhatWasRead(pages, v) <==> ConcatThenGoMod(NOTHING_READ, pages, v)
  {
    if ConcatThenGoMod(NOTHING_READ, pages, v) {
      forall r, a: nat, b: nat, pid: nat | Returns(r, a, b, pid, pages, v) && WasRead(r.states[a], v)
        ensures InResult(r.states[b].procs[pid], v)
      {
        ReadIsCommitted(r, a, v);
        OrderIsSafe(r, a, b, pid, pages, v);
      }
    } else {
      var r := ListArrivesAfterCommit(v, Copy(0, [], []));
      assert Last(r).procs[0].Answered? && Last(r).procs[0].v == v;
      var r' := MissedInBetween(r, 2, 1, pages, v);
      var a, b := |r.events|, |r'.events|;
      assert r'.events[a..] == r'.events[a..b] && r'.states[a] == Last(r);
      assert Returns(r', a, b, 2, pages, v);
    }
  }

  lemma ReadIsCommitted(r: Run, a: nat, v: ModuleVersion)
    requires IsRun(r) && At(r, a) && WasRead(r.states[a], v)
    ensures Committed(r.states[a], v)
  {
    var q :| q in r.states[a].procs && r.states[a].procs[q].Answered? && r.states[a].procs[q].v == v;
    var i := AnswersAreLoggedDownloads(r, a, q);
  }
}
