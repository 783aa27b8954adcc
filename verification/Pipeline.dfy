/** The way of a copy from a download through a concat object to the responses made of it. */
module Pipeline {
  import opened Basics
  import opened ConcatObj
  import opened ConcatObjParser
  import opened ConcatObjReaders
  import opened ObjectStore
  import opened Sources
  import opened Streams
  import opened Upload

  /**
    Two files of a download are uploaded as one object. Whatever becomes of it, only the encoding of the copy is
    stored, and if nothing fails but the server then the result is that of its last reply.
   */
  method StoreCopy(bucket: Bucket, name: string, metadata: Bytes, copy: Copy, sizes: nat -> nat, patience: nat)
    returns (r: Result, ghost failures: nat)
    requires forall k :: sizes(k) > 0
    modifies bucket
    ensures r == Stored ==> name in bucket.objects && bucket.objects[name] == Encode(copy)
    ensures r == PreconditionFailed ==> name in bucket.objects
    ensures OneByOne(old(bucket.replies), bucket.replies)
    ensures r == Stored <==> EndedWith(old(bucket.replies), bucket.replies, Created)
    ensures r == PreconditionFailed <==> EndedWith(old(bucket.replies), bucket.replies, AlreadyExists)
    ensures r == Error ==>
              || name == "" || failures > 0 || TooLong(metadata, |Encode(copy)|)
              || EndedWith(old(bucket.replies), bucket.replies, Fatal)
              || (EndedWith(old(bucket.replies), bucket.replies, Transient) &&
                  |bucket.replies| == |old(bucket.replies)| + patience + 1)
    ensures OnlyData(bucket.written, old(bucket.written), Encode(copy))
    ensures AllCarry(bucket.requests, old(bucket.requests), metadata, Encode(copy), 0)
  {
    var goMod := new Stream(copy.goMod, true);
    var zip := new Stream(copy.zip, true);
    var reader := new ConcatObjReader(copy.time, goMod, zip);
    r := CreateObjectExclusively(bucket, name, metadata, Source.Concat(reader), sizes, patience);
    failures := reader.Failures();
  }

  /**
    What is stored is served: the time, all of go.mod and all of the zip of that copy, whatever the chunks. If no
    Read fails then each of the three is served exactly if its first chunk covers the copy.
   */
  method StoreAndServe(bucket: Bucket, name: string, metadata: Bytes, copy: Copy, sizes: nat -> nat, patience: nat)
    returns (stored: bool, time: Option<int>, goMod: Option<Bytes>, zip: Option<Bytes>,
             ghost failures: nat, ghost firsts: seq<nat>)
    requires Storable(copy) && forall k :: sizes(k) > 0
    modifies bucket
    ensures stored <==> EndedWith(old(bucket.replies), bucket.replies, Created)
    ensures stored && time.Some? ==> time.value == copy.time
    ensures stored && goMod.Some? ==> goMod.value == copy.goMod
    ensures stored && zip.Some? ==> zip.value == copy.zip
    ensures stored ==> |firsts| == 3
    ensures stored && failures == 0 ==>
              && (time.Some? <==> Covers(copy, firsts[0]))
              && (goMod.Some? <==> Covers(copy, firsts[1]))
              && (zip.Some? <==> Covers(copy, firsts[2]))
  {
    time, goMod, zip, failures, firsts := None, None, None, 0, [];
    var r, _ := StoreCopy(bucket, name, metadata, copy, sizes, patience);
    stored := r == Stored;
    if !stored {
      return;
    }
    var early: bool := *;
    ghost var a, b, c;
    var body := new Stream(bucket.objects[name], early);
    var t, o;
    t, o, a := TimeFromConcatObj(body, copy);
    failures := body.failures;
    time := if o == Body then Some(t) else None;
    var out, st;
    body := new Stream(bucket.objects[name], early);
    o, out, st, b := GoModResponse(body, copy, sizes);
    failures := failures + body.failures;
    goMod := if st == EOF then Some(out) else None;
    body := new Stream(bucket.objects[name], early);
    o, out, st, c := ZipResponse(body, copy, sizes);
    failures := failures + body.failures;
    zip := if st == EOF then Some(out) else None;
    firsts := [a, b, c];
  }
}
