/** The reader that a concat object is written from (internal/service/gomodule/gocmd/storageconcatobj.go). */
module ConcatObjReaders {
  import opened Basics
  import opened ConcatObj
  import opened ObjectStore
  import opened Streams

  lemma Slices(prefix: Bytes, goMod: Bytes, zip: Bytes)
    ensures forall a, b :: 0 <= a <= b <= |prefix| ==> prefix[a..b] == (prefix + goMod + zip)[a..b]
    ensures forall a, b :: 0 <= a <= b <= |goMod| ==> goMod[a..b] == (prefix + goMod + zip)[|prefix| + a..|prefix| + b]
    ensures forall a, b :: 0 <= a <= b <= |zip| ==>
                             zip[a..b] == (prefix + goMod + zip)[|prefix| + |goMod| + a..|prefix| + |goMod| + b]
  {}

  datatype Whence = SeekFromStart | SeekFromHere | SeekFromEnd

  class ConcatObjReader {
    const prefix: Bytes
    const goMod: Stream
    const zip: Stream
    /** Bytes of the prefix delivered; one more once go.mod is used up. */
    var readPos: nat

    ghost function Contents(): Bytes {
      prefix + goMod.data + zip.data
    }

    ghost predicate Valid()
      reads this, goMod, zip
    {
      && goMod != zip && goMod.Valid() && zip.Valid()
      && readPos <= |prefix| + 1
      && (readPos < |prefix| ==> goMod.pos == 0)
      && (readPos <= |prefix| ==> zip.pos == 0)
      && (readPos > |prefix| ==> goMod.pos == |goMod.data|)
    }

    ghost function Delivered(): (d: nat)
      requires Valid()
      reads this, goMod, zip
      ensures d <= |Contents()|
    {
      Min(readPos, |prefix|) + goMod.pos + zip.pos
    }

    /** Reads and seeks of the two files that failed. */
    ghost function Failures(): nat
      reads goMod, zip
    {
      goMod.failures + zip.failures
    }

    constructor (time: int, goMod: Stream, zip: Stream)
      requires goMod != zip && goMod.Valid() && zip.Valid() && goMod.pos == 0 && zip.pos == 0
      ensures Valid() && Delivered() == 0 && Failures() == goMod.failures + zip.failures
      ensures this.goMod == goMod && this.zip == zip
      ensures Contents() == Encode(Copy(time, goMod.data, zip.data))
    {
      prefix := Prefix(time, |goMod.data|);
      this.goMod, this.zip, readPos := goMod, zip, 0;
    }

    method ReadPrefix(p: array<Byte>, lo: nat) returns (n: nat)
      requires Valid() && readPos < |prefix| && lo <= p.Length
      modifies this`readPos, p
      ensures Valid() && n == Min(p.Length - lo, |prefix| - old(readPos)) && readPos == old(readPos) + n
      ensures Delivered() == old(Delivered()) + n
      ensures Filled(old(p[..]), p[..], lo, Contents()[old(Delivered())..Delivered()])
    {
      n := CopyInto(p, lo, p.Length, prefix[readPos..]);
      assert prefix[readPos..][..n] == prefix[readPos..readPos + n];
      Slices(prefix, goMod.data, zip.data);
      readPos := readPos + n;
    }

    /** The bytes from `d0` on are in p behind `lo`, where `s0` was before. */
    ghost predicate Holds(s0: seq<Byte>, p: array<Byte>, lo: nat, d0: nat)
      requires Valid()
      reads this, goMod, zip, p
    {
      d0 <= Delivered() && Filled(s0, p[..], lo, Contents()[d0..Delivered()])
    }

    /** One Read of go.mod behind `n` bytes that are in p already. */
    method ReadGoMod(p: array<Byte>, lo: nat, n: nat, ghost s0: seq<Byte>, ghost d0: nat)
      returns (total: nat, st: Status)
      requires Valid() && readPos == |prefix| && lo + n < p.Length && d0 + n == Delivered() && Holds(s0, p, lo, d0)
      modifies goMod, p
      ensures Valid() && n <= total && lo + total <= p.Length && d0 + total == Delivered() && Holds(s0, p, lo, d0)
      ensures st != Panic && (st == Ok ==> total > n)
      ensures Failures() == old(Failures()) + if st == Failed then 1 else 0
      ensures st == EOF ==> goMod.pos == |goMod.data| && (goMod.eofAlone ==> total == n)
    {
      ghost var s1, d1 := p[..], Delivered();
      var k;
      k, st := goMod.Read(p, lo + n, p.Length);
      total := n + k;
      Slices(prefix, goMod.data, zip.data);
      FilledTwice(s0, s1, p[..], lo, Contents(), d0, d1, Delivered());
    }

    /** One Read of the zip, likewise; it may be asked for no bytes at all if go.mod filled the buffer. */
    method ReadZip(p: array<Byte>, lo: nat, n: nat, ghost s0: seq<Byte>, ghost d0: nat) returns (total: nat, st: Status)
      requires Valid() && readPos > |prefix| && lo + n <= p.Length && d0 + n == Delivered() && Holds(s0, p, lo, d0)
      modifies zip, p
      ensures Valid() && n <= total && lo + total <= p.Length && d0 + total == Delivered() && Holds(s0, p, lo, d0)
      ensures st != Panic && (st == Ok && lo + n < p.Length ==> total > n)
      ensures Failures() == old(Failures()) + if st == Failed then 1 else 0
      ensures st == EOF ==> zip.pos == |zip.data| && lo + n < p.Length && (zip.eofAlone ==> total == n)
    {
      ghost var s1, d1 := p[..], Delivered();
      var k;
      k, st := zip.Read(p, lo + n, p.Length);
      total := n + k;
      Slices(prefix, goMod.data, zip.data);
      FilledTwice(s0, s1, p[..], lo, Contents(), d0, d1, Delivered());
    }

    /** The end is reported on its own if it is by both files and there is anything behind the prefix. */
    ghost predicate EofAlone() {
      goMod.eofAlone && zip.eofAlone && |Contents()| > |prefix|
    }

    /**
      Delivers the next bytes of prefix, go.mod and zip, always at least one unless it ends or fails, and
      reports the end only with or after the last byte.
     */
    method Read(p: array<Byte>, lo: nat) returns (n: nat, st: Status)
      requires Valid() && lo <= p.Length
      modifies this`readPos, goMod, zip, p
      ensures Valid() && lo + n <= p.Length && Delivered() == old(Delivered()) + n
      ensures Filled(old(p[..]), p[..], lo, Contents()[old(Delivered())..Delivered()])
      ensures st != Panic && (st == Ok && lo < p.Length ==> n > 0)
      ensures Failures() == old(Failures()) + if st == Failed then 1 else 0
      ensures st == EOF ==> Delivered() == |Contents()| && lo < p.Length && (EofAlone() ==> n == 0)
    {
      n, st := 0, Ok;
      if p.Length == lo {
        return;
      }
      ghost var s0, d0 := p[..], Delivered();
      if readPos < |prefix| {
        n := ReadPrefix(p, lo);
        if lo + n == p.Length {
          return;
        }
      }
      if readPos == |prefix| {
        n, st := ReadGoMod(p, lo, n, s0, d0);
        if st != EOF {
          return;
        }
        readPos := readPos + 1;
      }
      n, st := ReadZip(p, lo, n, s0, d0);
    }

    /** Seek to the start; after a success the reader replays everything, whatever state it was in. */
    method SeekStart() returns (ok: bool)
      requires goMod != zip
      modifies this`readPos, goMod, zip
      ensures ok ==> Valid() && Delivered() == 0
      ensures Failures() == old(Failures()) + if ok then 0 else 1
    {
      readPos := 0;
      ok := goMod.Rewind();
      if ok {
        ok := zip.Rewind();
      }
    }

    /** Every other seek is an error and moves nothing. */
    method Seek(offset: int, whence: Whence) returns (ok: bool)
      requires goMod != zip
      modifies this`readPos, goMod, zip
      ensures ok ==> Valid() && Delivered() == 0 && offset == 0 && whence == SeekFromStart
      ensures whence != SeekFromStart || offset != 0 ==>
                !ok && readPos == old(readPos) && goMod.pos == old(goMod.pos) && zip.pos == old(zip.pos)
      ensures whence == SeekFromStart && offset == 0 ==> Failures() == old(Failures()) + if ok then 0 else 1
    {
      if whence != SeekFromStart || offset != 0 {
        return false;
      }
      ok := SeekStart();
    }

    /** io.Copy with buffers of any positive sizes. */
    method ReadAll(sizes: nat -> nat) returns (out: Bytes, st: Status)
      requires Valid() && forall i :: sizes(i) > 0
      modifies this`readPos, goMod, zip
      ensures Valid() && (st == EOF || st == Failed)
      ensures Failures() == old(Failures()) + if st == Failed then 1 else 0
      ensures old(Delivered()) <= Delivered() && out == Contents()[old(Delivered())..Delivered()]
      ensures st == EOF ==> out == Contents()[old(Delivered())..]
    {
      out, st := [], Ok;
      ghost var from := Delivered();
      var i := 0;
      while st == Ok
        invariant Valid() && from <= Delivered() && out == Contents()[from..Delivered()] && st != Panic
        invariant Failures() == old(Failures()) + if st == Failed then 1 else 0
        invariant st == EOF ==> Delivered() == |Contents()|
        decreases |Contents()| - Delivered(), st == Ok
      {
        var p := new Byte[sizes(i)];
        ghost var d := Delivered();
        var n;
        n, st := Read(p, 0);
        assert p[..n] == p[..][0..0 + n];
        AppendSlice(Contents(), from, d, d + n, out, p[..n]);
        out := out + p[..n];
        i := i + 1;
      }
    }
  }

  /**
    The whole path of a copy: written once, replayed after any partial read, and the object that was
    stored is exactly the encoding of the copy.
   */
  method WriteTwice(copy: Copy, sizes: nat -> nat) returns (first: Bytes, second: Bytes, ok: bool, ghost failures: nat)
    requires forall i :: sizes(i) > 0
    ensures ok ==> second == Encode(copy)
    ensures failures == 0 ==> ok && first == second
    ensures first <= Encode(copy)
  {
    var goMod := new Stream(copy.goMod, true);
    var zip := new Stream(copy.zip, true);
    var reader := new ConcatObjReader(copy.time, goMod, zip);
    var st;
    first, st := reader.ReadAll(sizes);
    second := [];
    ok := reader.SeekStart();
    if ok {
      second, st := reader.ReadAll(sizes);
      ok := st == EOF;
    }
    failures := reader.Failures();
  }
}
