/**
  The reference-counted objects themselves (internal/service/gomodule/gocmd/sharedfd.go and tempgoenv.go).
  Their methods are the steps on `Counted` whose interleavings the lifetime theorems are about.
 */
module RefCounts {
  import opened Lifetime
  import opened Text

  /** A file that is closed with its last reference. */
  class SharedFD {
    var refs: int
    var isOpen: bool
    ghost var closes: nat

    ghost function State(): Counted
      reads this
    {
      Counted(refs, isOpen, closes)
    }

    constructor ()
      ensures State() == OpenFile()
    {
      refs, isOpen, closes := 1, true, 0;
    }

    method AddRef()
      modifies this
      ensures State() == Add(old(State()))
    {
      refs := refs + 1;
    }

    /** An error of the close is passed on, but there is no second attempt. */
    method RemoveRef(closeFails: bool) returns (failed: bool)
      modifies this
      ensures State() == Remove(old(State())) && (failed <==> refs == 0 && closeFails)
    {
      failed := false;
      refs := refs - 1;
      if refs == 0 {
        isOpen, closes := false, closes + 1;
        failed := closeFails;
      }
    }
  }

  /** The reference is gone, but what it was to may still be there. */
  function Forget(c: Counted): Counted {
    c.(refs := c.refs - 1)
  }

  /** What the file system does to one Close. */
  datatype Outcome = Outcome(closeFails: bool, chmodFails: bool, removeFails: bool)

  datatype OpenResult = Opened(fd: TempGoEnvFD) | InvalidName | OpenFailed | Panicked

  /** A temporary directory that is removed with its last reference. */
  class TempGoEnv {
    const tmpDir: string
    var refs: int
    var dirExists: bool
    ghost var removals: nat

    ghost function State(): Counted
      reads this
    {
      Counted(refs, dirExists, removals)
    }

    constructor (tmpDir: string)
      ensures this.tmpDir == tmpDir && State() == INIT.dir
    {
      this.tmpDir := tmpDir;
      refs, dirExists, removals := 0, true, 0;
      new;
      AddRef();
    }

    method AddRef()
      modifies this
      ensures State() == Add(old(State()))
    {
      refs := refs + 1;
    }

    /** What happens to the directory when the last reference goes is up to the file system. */
    method RemoveRef(chmodFails: bool, removeFails: bool) returns (failed: bool)
      modifies this
      ensures failed <==> refs == 0 && (chmodFails || removeFails)
      ensures State() == if refs == 0 && removeFails then Forget(old(State())) else Remove(old(State()))
    {
      failed := false;
      refs := refs - 1;
      if refs == 0 {
        failed := RemoveTmpDir(chmodFails, removeFails);
      }
    }

    /** The directory is made writable and removed; an error of either is an error, only the second leaves it there. */
    method RemoveTmpDir(chmodFails: bool, removeFails: bool) returns (failed: bool)
      modifies this`dirExists, this`removals
      ensures failed <==> chmodFails || removeFails
      ensures if removeFails then dirExists == old(dirExists) && removals == old(removals)
              else !dirExists && removals == old(removals) + 1
    {
      if !removeFails {
        dirExists, removals := false, removals + 1;
      }
      return chmodFails || removeFails;
    }

    /** Opens a file in the directory; the reader that is handed out is one more holder. */
    method Open(name: string, openFails: bool) returns (r: OpenResult)
      modifies this
      ensures r == InvalidName <==> !HasPrefix(name, tmpDir) || !HasPrefix(name, "/")
      ensures r == Panicked <==> r != InvalidName && old(refs) <= 0
      ensures r == OpenFailed <==> r != InvalidName && r != Panicked && openFails
      ensures State() == if r.Opened? then Add(old(State())) else old(State())
      ensures r.Opened? ==> fresh(r.fd) && !r.fd.closed && r.fd.t == this && old(refs) > 0
    {
      if !HasPrefix(name, tmpDir) || !HasPrefix(name, "/") {
        return InvalidName;
      }
      if refs <= 0 {
        return Panicked;
      }
      if openFails {
        return OpenFailed;
      }
      var fd := new TempGoEnvFD(this);
      return Opened(fd);
    }
  }

  /** The reader of a response. */
  class TempGoEnvFD {
    const t: TempGoEnv
    var closed: bool

    constructor (t: TempGoEnv)
      modifies t
      ensures !closed && this.t == t && t.State() == Add(old(t.State()))
    {
      this.t, closed := t, false;
      new;
      t.AddRef();
    }

    /** Only the first Close does anything; it gives the reference back unless the file does not close. */
    method Close(o: Outcome) returns (failed: bool)
      modifies this`closed, t
      ensures closed
      ensures t.State() == if old(closed) then old(t.State()) else AfterClose(old(t.State()), o)
      ensures failed <==> !old(closed) && (o.closeFails || (t.refs == 0 && (o.chmodFails || o.removeFails)))
    {
      if closed {
        return false;
      }
      closed := true;
      if o.closeFails {
        return true;
      }
      failed := t.RemoveRef(o.chmodFails, o.removeFails);
    }
  }

  /** What a Close that does something does to the count of the directory. */
  function AfterClose(c: Counted, o: Outcome): Counted {
    if o.closeFails then c
    else if c.refs == 1 && o.removeFails then Forget(c)
    else Remove(c)
  }

  /** A reader closed any number of times drops at most one reference, as the first Close says: the others stay. */
  method CloseOften(fd: TempGoEnvFD, outcomes: seq<Outcome>)
    requires !fd.closed && outcomes != []
    modifies fd`closed, fd.t
    ensures fd.closed && fd.t.State() == AfterClose(old(fd.t.State()), outcomes[0])
  {
    for i := 0 to |outcomes|
      invariant if i == 0 then !fd.closed && fd.t.State() == old(fd.t.State())
                else fd.closed && fd.t.State() == AfterClose(old(fd.t.State()), outcomes[0])
    {
      var o := outcomes[i];
      var failed := fd.Close(o);
    }
  }
}
