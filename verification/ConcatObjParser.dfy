/** Parsing a concat object that is read from storage (internal/service/gomodule/gocmd/storageconcatobj.go). */
module ConcatObjParser {
  import opened Basics
  import opened ConcatObj
  import opened ConcatReaders
  import opened ObjectStore
  import opened Sources
  import opened Streams
  import opened Varints

  /** Parsing an object body: one Read of up to twenty bytes, then the two varints. */
  method ParseConcatObj(body: Stream) returns (p: Parse, broken: bool)
    requires body.Valid()
    modifies body
    ensures body.Valid() && old(body.pos) <= body.pos <= old(body.pos) + FIRST_READ
    ensures body.failures == old(body.failures) + if broken then 1 else 0
    ensures !broken ==> p == ParseChunk(body.data[old(body.pos)..body.pos])
  {
    var buffer := new Byte[FIRST_READ];
    var n, st := body.Read(buffer, 0, FIRST_READ);
    p, broken := Invalid, st == Failed;
    if broken {
      return;
    }
    var chunk := buffer[..n];
    assert chunk == body.data[old(body.pos)..body.pos] by { assert buffer[..][0..0 + n] == chunk; }
    var time := ReadVarint(chunk, 0);
    if time == Bad {
      return;
    }
    var size := ReadUvarint(chunk, time.next);
    if size == Bad || size.value > MAX_INT64 {
      return;
    }
    var goMod := size.next;
    if size.value <= |chunk| - goMod {
      var zip := goMod + size.value;
      if -(|chunk| - zip) < 0 {
        p := NegativeLength;
      } else {
        p := Parsed(time.value, chunk[goMod..zip], 0, []);
      }
    } else {
      p := Parsed(time.value, chunk[goMod..], size.value - (|chunk| - goMod), []);
    }
  }

  /** What was handed out for reading: a new reader, the object body itself, or nothing. */
  datatype Opened = Joined(reader: ConcatReader) | Body | Refused | Crashed

  /** All that is still to come from the body. */
  ghost function Rest(body: Stream): Bytes
    requires body.Valid()
    reads body
  {
    body.data[body.pos..]
  }

  ghost predicate Holds(body: Stream, c: Copy) {
    Storable(c) && body.data == Encode(c)
  }

  /** The first chunk has both varints and does not reach into the zip. */
  predicate Covers(c: Copy, first: nat) {
    var h := |Prefix(c.time, |c.goMod|)|;
    h <= first <= h + |c.goMod|
  }

  predicate TooShort(c: Copy, first: nat) {
    first < |Prefix(c.time, |c.goMod|)|
  }

  /** What is handed out depends on the first chunk, and on nothing else unless a Read fails. */
  ghost predicate Decided(body: Stream, failed: bool, first: nat, o: Opened)
    requires first <= |body.data|
  {
    && (o == Crashed ==> ParseChunk(body.data[..first]) == NegativeLength)
    && (!failed ==>
          match ParseChunk(body.data[..first])
          case Invalid => o == Refused
          case NegativeLength => o == Crashed
          case Parsed(_, _, goModToRead, _) => o != Crashed && (o == Refused ==> first + goModToRead > |body.data|))
  }

  /**
    goModFromConcatObj: a reader whose content is go.mod, if the body is a written object. `first` is the length
    of the first chunk.
   */
  method GoModFromConcatObj(body: Stream, ghost c: Copy) returns (o: Opened, ghost first: nat)
    requires body.Valid() && body.pos == 0
    modifies body
    ensures o != Body && first <= |body.data| && first <= FIRST_READ
    ensures body.failures == old(body.failures) && ParseChunk(body.data[..first]).Parsed? ==> o.Joined?
    ensures Decided(body, body.failures > old(body.failures), first, o) && body.failures >= old(body.failures)
    ensures Holds(body, c) && body.failures == old(body.failures) ==>
              (o.Joined? <==> Covers(c, first)) && (o == Refused <==> TooShort(c, first))
    ensures o.Joined? ==> fresh(o.reader) && o.reader.Valid() && o.reader.pos == 0 && o.reader.Delivered() == 0
    ensures o.Joined? ==> fresh(o.reader.repr - {body}) && Behind(o.reader, body)
    ensures o.Joined? ==> o.reader.suffix == [] && (Holds(body, c) ==> o.reader.Contents() == c.goMod)
    ensures o == Crashed && Holds(body, c) ==> |Prefix(c.time, |c.goMod|)| + |c.goMod| < FIRST_READ
  {
    var p, broken := ParseConcatObj(body);
    first := body.pos;
    o := Refused;
    if broken {
      return;
    }
    if Holds(body, c) {
      ParseSucceedsIff(c, first);
      ParseOfEncoded(c, first);
    }
    match p
    case Invalid =>
    case NegativeLength => o := Crashed;
    case Parsed(_, goModPrefix, goModToRead, _) =>
      var reader := GoModReader(goModPrefix, body, goModToRead);
      o := Joined(reader);
  }

  /** The reader takes what it delivers behind its prefix from the body, if it takes it from anywhere. */
  ghost predicate Behind(reader: ConcatReader, body: Stream) {
    match reader.r
    case None => true
    case Some(File(f)) => f == body
    case Some(Limited(l)) => l.body == body
    case _ => false
  }

  /** What was read already, then the next bytes of the body if there are any to come. */
  method GoModReader(goModPrefix: Bytes, body: Stream, goModToRead: nat) returns (reader: ConcatReader)
    requires body.Valid()
    ensures fresh(reader) && fresh(reader.repr - {body}) && reader.Valid() && reader.pos == 0 && reader.Delivered() == 0
    ensures Behind(reader, body)
    ensures reader.suffix == [] && reader.Contents() == goModPrefix + Rest(body)[..Min(goModToRead, |Rest(body)|)]
  {
    if goModToRead > 0 {
      var limited := new LimitedReader(body, goModToRead);
      assert limited.Data() == Rest(body)[..Min(goModToRead, |Rest(body)|)];
      reader := new ConcatReader(goModPrefix, Some(Limited(limited)), []);
      assert reader.inner == limited.Data();
    } else {
      reader := new ConcatReader(goModPrefix, None, []);
    }
  }

  /** io.CopyN to nowhere: skips k bytes, or fails when the reader does or ends too early. */
  method Skip(body: Stream, k: nat) returns (ok: bool)
    requires body.Valid()
    modifies body
    ensures body.Valid() && old(body.pos) <= body.pos <= old(body.pos) + k && body.failures >= old(body.failures)
    ensures ok ==> body.pos == old(body.pos) + k
    ensures body.failures == old(body.failures) ==> (ok <==> old(body.pos) + k <= |body.data|)
  {
    var left := k;
    while left > 0
      invariant body.Valid() && 0 <= left <= k && body.pos == old(body.pos) + k - left
      invariant body.failures >= old(body.failures)
      decreases left
    {
      var p := new Byte[left];
      var n, st := body.Read(p, 0, left);
      left := left - n;
      if st != Ok && left > 0 {
        return false;
      }
    }
    return true;
  }

  /** zipFromConcatObj: what is left to read, from the body or from the joined reader, is the zip. */
  method ZipFromConcatObj(body: Stream, ghost c: Copy) returns (o: Opened, ghost first: nat)
    requires body.Valid() && body.pos == 0
    modifies body
    ensures body.Valid() && first <= |body.data| && first <= FIRST_READ
    ensures Decided(body, body.failures > old(body.failures), first, o) && body.failures >= old(body.failures)
    ensures Holds(body, c) && body.failures == old(body.failures) ==>
              (o.Joined? || o == Body <==> Covers(c, first)) && (o == Refused <==> TooShort(c, first))
    ensures o == Body && Holds(body, c) ==> Rest(body) == c.zip
    ensures o.Joined? ==> fresh(o.reader) && o.reader.Valid() && o.reader.pos == 0
    ensures o.Joined? ==> o.reader.r == Some(File(body)) && o.reader.repr == {body}
    ensures o.Joined? ==> o.reader.suffix == [] && o.reader.Delivered() == 0
    ensures o.Joined? && Holds(body, c) ==> o.reader.Contents() == c.zip
    ensures o == Crashed && Holds(body, c) ==> |Prefix(c.time, |c.goMod|)| + |c.goMod| < FIRST_READ
  {
    var p, broken := ParseConcatObj(body);
    first := body.pos;
    o := Refused;
    if broken {
      return;
    }
    if Holds(body, c) {
      ParseSucceedsIff(c, first);
      ParseOfEncoded(c, first);
    }
    match p
    case Invalid =>
    case NegativeLength => o := Crashed;
    case Parsed(_, _, goModToRead, zipPrefix) =>
      o := ZipReader(zipPrefix, body, goModToRead);
  }

  /** The body behind go.mod, or if nothing of that is to come, what was read already and the body. */
  method ZipReader(zipPrefix: Bytes, body: Stream, goModToRead: nat) returns (o: Opened)
    requires body.Valid()
    modifies body
    ensures body.Valid() && body.failures >= old(body.failures)
    ensures o != Crashed && (o == Body ==> goModToRead > 0) && (o.Joined? ==> goModToRead == 0)
    ensures o == Refused ==> body.failures > old(body.failures) || goModToRead > |old(Rest(body))|
    ensures o == Body ==> goModToRead <= |old(Rest(body))| && Rest(body) == old(Rest(body))[goModToRead..]
    ensures o.Joined? ==> fresh(o.reader) && o.reader.Valid() && o.reader.pos == 0 && o.reader.Delivered() == 0
    ensures o.Joined? ==> o.reader.r == Some(File(body)) && o.reader.repr == {body} && o.reader.suffix == []
    ensures o.Joined? ==> o.reader.Contents() == zipPrefix + old(Rest(body))
  {
    ghost var rest := Rest(body);
    if goModToRead > 0 {
      var ok := Skip(body, goModToRead);
      assert ok ==> Rest(body) == rest[goModToRead..];
      return if ok then Body else Refused;
    }
    var reader := new ConcatReader(zipPrefix, Some(File(body)), []);
    assert reader.Contents() == zipPrefix + rest;
    o := Joined(reader);
  }

  /**
    A client that reads the response of a ".mod" request to its end has go.mod, and the reader never panics. If no
    Read fails then the response comes, exactly if the first chunk covers the copy, and ends.
   */
  method GoModResponse(body: Stream, ghost c: Copy, sizes: nat -> nat)
    returns (o: Opened, out: Bytes, st: Status, ghost first: nat)
    requires body.Valid() && body.pos == 0 && forall k :: sizes(k) > 0
    modifies body
    ensures first <= FIRST_READ && body.failures >= old(body.failures) && st != Panic
    ensures o.Joined? && st == EOF && Holds(body, c) ==> out == c.goMod
    ensures Holds(body, c) && body.failures == old(body.failures) ==> (st == EOF <==> Covers(c, first))
    ensures st == EOF ==> o.Joined?
  {
    out, st := [], Failed;
    o, first := GoModFromConcatObj(body, c);
    if o.Joined? {
      out, st := o.reader.ReadAll(sizes, None);
    }
  }

  /** The same for a ".zip" request. */
  method ZipResponse(body: Stream, ghost c: Copy, sizes: nat -> nat)
    returns (o: Opened, out: Bytes, st: Status, ghost first: nat)
    requires body.Valid() && body.pos == 0 && forall k :: sizes(k) > 0
    modifies body
    ensures first <= FIRST_READ && body.failures >= old(body.failures) && st != Panic
    ensures (o.Joined? || o == Body) && st == EOF && Holds(body, c) ==> out == c.zip
    ensures Holds(body, c) && body.failures == old(body.failures) ==> (st == EOF <==> Covers(c, first))
    ensures st == EOF ==> o.Joined? || o == Body
  {
    out, st := [], Failed;
    o, first := ZipFromConcatObj(body, c);
    if o.Joined? {
      out, st := o.reader.ReadAll(sizes, None);
    } else if o == Body {
      var ok;
      out, ok := File(body).Drain();
      st := if ok then EOF else Failed;
    }
  }

  /** infoFromConcatObj: the commit time. */
  method TimeFromConcatObj(body: Stream, ghost c: Copy) returns (time: int, o: Opened, ghost first: nat)
    requires body.Valid() && body.pos == 0
    modifies body
    ensures o == Body || o == Refused || o == Crashed
    ensures first <= |body.data| && first <= FIRST_READ && body.failures >= old(body.failures)
    ensures Decided(body, body.failures > old(body.failures), first, o)
    ensures Holds(body, c) && body.failures == old(body.failures) ==>
              (o == Body <==> Covers(c, first)) && (o == Refused <==> TooShort(c, first))
    ensures o == Body && Holds(body, c) ==> time == c.time
    ensures o == Crashed && Holds(body, c) ==> |Prefix(c.time, |c.goMod|)| + |c.goMod| < FIRST_READ
  {
    var p, broken := ParseConcatObj(body);
    first := body.pos;
    time, o := 0, Refused;
    if broken {
      return;
    }
    if Holds(body, c) {
      ParseSucceedsIff(c, first);
      ParseOfEncoded(c, first);
    }
    match p
    case Invalid =>
    case NegativeLength => o := Crashed;
    case Parsed(t, _, _, _) => time, o := t, Body;
  }
}
