/** What code that is handed an io.Reader or io.ReadSeeker may hold: the readers that occur behind one. */
module Sources {
  import opened Basics
  import opened ConcatObjReaders
  import opened Streams

  /** Part of a part of a sequence. */
  lemma LimitedPart(data: Bytes, start: nat, end: nat, at: nat, to: nat)
    requires start <= at <= to <= end <= |data|
    ensures data[start..end][at - start..to - start] == data[at..to]
  {
    var part := data[start..end];
    forall k | 0 <= k < to - at ensures part[at - start..to - start][k] == data[at..to][k] {
      assert part[at - start + k] == data[at + k];
    }
    assert part[at - start..to - start] == data[at..to];
  }

  datatype Source = File(file: Stream) | Concat(reader: ConcatObjReader) | Limited(limited: LimitedReader) {
    ghost function Footprint(): set<object> {
      match this
      case File(f) => {f}
      case Concat(c) => {c, c.goMod, c.zip}
      case Limited(l) => {l, l.body}
    }

    ghost predicate Valid()
      reads Footprint()
    {
      match this
      case File(f) => f.Valid()
      case Concat(c) => c.Valid()
      case Limited(l) => l.Valid()
    }

    /** All that this reader delivers from its start to its end. */
    ghost function Data(): Bytes {
      match this
      case File(f) => f.data
      case Concat(c) => c.Contents()
      case Limited(l) => if l.start <= |l.body.data| then l.Data() else []
    }

    ghost function Pos(): (n: nat)
      requires Valid()
      reads Footprint()
      ensures n <= |Data()|
    {
      match this
      case File(f) => f.pos
      case Concat(c) => c.Delivered()
      case Limited(l) => l.body.pos - l.start
    }

    /** Reads and seeks of the files behind this reader that failed. */
    ghost function Failures(): nat
      reads Footprint()
    {
      match this
      case File(f) => f.failures
      case Concat(c) => c.Failures()
      case Limited(l) => l.body.failures
    }

    /** The end comes on its own and not with the last bytes. */
    ghost predicate EofAlone() {
      match this
      case File(f) => f.eofAlone
      case Concat(c) => c.EofAlone()
      case Limited(l) => l.body.eofAlone
    }

    method Read(p: array<Byte>, lo: nat) returns (n: nat, st: Status)
      requires Valid() && lo < p.Length
      modifies Footprint(), p
      ensures Valid() && Pos() == old(Pos()) + n && lo + n <= p.Length
      ensures Filled(old(p[..]), p[..], lo, Data()[old(Pos())..Pos()])
      ensures st != Panic && (st == Ok ==> n > 0)
      ensures Failures() == old(Failures()) + if st == Failed then 1 else 0
      ensures st == EOF ==> Pos() == |Data()| && (EofAlone() ==> n == 0)
    {
      match this {
        case File(f) => n, st := f.Read(p, lo, p.Length);
        case Concat(c) => n, st := c.Read(p, lo);
        case Limited(l) =>
          ghost var at := l.body.pos;
          n, st := l.Read(p, lo);
          LimitedPart(l.body.data, l.start, Min(l.start + l.size, |l.body.data|), at, at + n);
      }
    }

    /** io.Copy: all that is left, or a part of it if a Read fails. */
    method Drain() returns (out: Bytes, ok: bool)
      requires Valid()
      modifies Footprint()
      ensures Valid() && old(Pos()) <= Pos() && out == Data()[old(Pos())..Pos()]
      ensures ok ==> Pos() == |Data()|
      ensures Failures() == old(Failures()) + if ok then 0 else 1
    {
      out := [];
      ghost var from := Pos();
      var st := Ok;
      while st == Ok
        invariant Valid() && from <= Pos() && out == Data()[from..Pos()]
        invariant (st == EOF ==> Pos() == |Data()|) && st != Panic
        invariant Failures() == old(Failures()) + if st == Failed then 1 else 0
        decreases |Data()| - Pos(), st == Ok
      {
        var p := new Byte[1024];
        ghost var at := Pos();
        var n;
        n, st := Read(p, 0);
        assert p[..n] == p[..][0..0 + n];
        AppendSlice(Data(), from, at, Pos(), out, p[..n]);
        out := out + p[..n];
      }
      ok := st == EOF;
    }

    /** Seek to the start; a limited reader cannot. A failed seek may leave two files at different places. */
    method Rewind() returns (ok: bool)
      requires Valid()
      modifies Footprint()
      ensures ok ==> Valid() && Pos() == 0
      ensures File? ==> Valid()
      ensures if Limited? then !ok && Failures() == old(Failures())
              else Failures() == old(Failures()) + if ok then 0 else 1
    {
      match this {
        case File(f) => ok := f.Rewind();
        case Concat(c) => ok := c.SeekStart();
        case Limited(l) => ok := false;
      }
    }
  }
}
