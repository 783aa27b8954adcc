/** Exclusive creation of an object by a multipart upload with retries (internal/service/storage/gcs/gcs.go). */
module Upload {
  import opened Basics
  import opened ConcatReaders
  import opened Sources
  import opened Streams

  /** AddInt64 reports overflow instead of wrapping around. */
  function AddInt64(x: int, y: int): Option<int> {
    if x > 0 && y > MAX_INT64 - x then None
    else if x < 0 && y < -MAX_INT64 - 1 - x then None
    else Some(x + y)
  }

  function Total(xs: seq<int>): int {
    if xs == [] then 0 else Total(xs[..|xs| - 1]) + xs[|xs| - 1]
  }

  predicate IsInt64(x: int) {
    -MAX_INT64 - 1 <= x <= MAX_INT64
  }

  /** No partial sum overflows. */
  predicate AllSumsFit(xs: seq<int>) {
    forall i :: 0 <= i <= |xs| ==> IsInt64(Total(xs[..i]))
  }

  /** The sum of any 64-bit integers, exactly if no partial sum overflows. */
  method SumInt64(xs: seq<int>) returns (sum: Option<int>)
    requires forall x :: x in xs ==> IsInt64(x)
    ensures sum == if AllSumsFit(xs) then Some(Total(xs)) else None
  {
    sum := Some(0);
    var i := 0;
    while i < |xs|
      invariant i <= |xs| && sum == Some(Total(xs[..i])) && forall k :: 0 <= k <= i ==> IsInt64(Total(xs[..k]))
    {
      assert xs[..i + 1][..i] == xs[..i];
      assert xs[i] in xs;
      sum := AddInt64(sum.value, xs[i]);
      if sum == None {
        assert !IsInt64(Total(xs[..i + 1]));
        return;
      }
      i := i + 1;
    }
    assert xs[..|xs|] == xs;
  }

  /** For lengths, which are not negative, that means that the sum itself does not overflow. */
  lemma LengthsFitIff(xs: seq<int>)
    requires forall x :: x in xs ==> 0 <= x
    ensures AllSumsFit(xs) <==> Total(xs) <= MAX_INT64
  {
    forall i | 0 <= i <= |xs| ensures 0 <= Total(xs[..i]) <= Total(xs) {
      TotalGrows(xs, i);
    }
    assert xs[..|xs|] == xs;
  }

  lemma {:induction false} TotalGrows(xs: seq<int>, i: nat)
    requires i <= |xs| && forall x :: x in xs ==> 0 <= x
    ensures 0 <= Total(xs[..i]) <= Total(xs)
    decreases |xs|
  {
    if i < |xs| {
      var front := xs[..|xs| - 1];
      assert xs[|xs| - 1] in xs && forall x :: x in front ==> x in xs;
      TotalGrows(front, i);
      assert front[..i] == xs[..i];
    } else {
      assert xs[..i] == xs;
      if xs != [] {
        var front := xs[..|xs| - 1];
        assert xs[|xs| - 1] in xs && forall x :: x in front ==> x in xs;
        TotalGrows(front, |front|);
        assert front[..|front|] == front;
      }
    }
  }

  function Ascii(s: string): Bytes {
    seq(|s|, i requires 0 <= i < |s| => s[i] as int % 256)
  }

  const JSON_TYPE := "Content-Type: application/json; charset=UTF-8"

  /** Everything in front of the data: the metadata part, then the start of the data part. */
  function Header(boundary: Bytes, metadata: Bytes): Bytes {
    Ascii("--") + boundary + Ascii("\r\n") + Ascii(JSON_TYPE) + Ascii("\r\n\r\n") + metadata +
    Ascii("\r\n--") + boundary + Ascii("\r\n\r\n")
  }

  function Trailer(boundary: Bytes): Bytes {
    Ascii("\r\n--") + boundary + Ascii("\r\n")
  }

  const BOUNDARY_LENGTH := 64
  const TRAILER_LENGTH := 6 + BOUNDARY_LENGTH

  function HeaderLength(metadata: Bytes): nat {
    2 * BOUNDARY_LENGTH + |metadata| + 61
  }

  lemma HeaderLengthIs(boundary: Bytes, metadata: Bytes)
    requires |boundary| == BOUNDARY_LENGTH
    ensures |Header(boundary, metadata)| == HeaderLength(metadata) && |Trailer(boundary)| == TRAILER_LENGTH
  {
    assert |JSON_TYPE| == 45;
  }

  /** A part of a multipart body (section 5.1 of RFC 2046): delimiter, header lines, an empty line, and the content. */
  function Part(boundary: Bytes, headers: Bytes, content: Bytes): Bytes {
    Ascii("--") + boundary + CRLF() + headers + CRLF() + content + CRLF()
  }

  function CRLF(): Bytes {
    [13, 10]
  }

  lemma Literals()
    ensures Ascii("\r\n--") == CRLF() + Ascii("--") && Ascii("\r\n\r\n") == CRLF() + CRLF() && Ascii("\r\n") == CRLF()
  {}

  /** The body is a part with the metadata as JSON, then one with the data, and a delimiter. */
  lemma BodyIsMultipart(boundary: Bytes, metadata: Bytes, data: Bytes)
    ensures Header(boundary, metadata) + data + Trailer(boundary) ==
            Part(boundary, Ascii(JSON_TYPE) + CRLF(), metadata) +
            Part(boundary, [], data) + Ascii("--") + boundary + CRLF()
  {
    Literals();
  }

  /** A buffer in which the data ends has room for the trailer; without data, the end of the header is in it. */
  ghost predicate TrailerFits(metadata: Bytes, data: Bytes, sizes: nat -> nat)
    requires forall k :: sizes(k) > 0
  {
    if data == [] then TRAILER_LENGTH <= RoomAfter(sizes, 0, HeaderLength(metadata))
    else forall k :: TRAILER_LENGTH <= sizes(k)
  }

  /** No buffer has; for buffers of one size that is the opposite. */
  ghost predicate TrailerNeverFits(metadata: Bytes, data: Bytes, sizes: nat -> nat)
    requires forall k :: sizes(k) > 0
  {
    if data == [] then RoomAfter(sizes, 0, HeaderLength(metadata)) < TRAILER_LENGTH
    else forall k :: sizes(k) < TRAILER_LENGTH
  }

  /** How one HTTP request ends for the client. `Transient` covers 429, 5xx and retryable transport errors. */
  datatype Reply = Created | AlreadyExists | Transient | Fatal | BodyPanic

  /** What a server got to see of a request: `complete` if it read the body to its end. */
  datatype Request = Request(boundary: Bytes, body: Bytes, announced: nat, complete: bool)

  /** The bucket. `requests`, `replies` and `written` record what arrived, how it ended and what was stored. */
  class Bucket {
    var objects: map<string, Bytes>
    ghost var requests: seq<Request>
    ghost var replies: seq<Reply>
    ghost var written: seq<Bytes>

    /** Other clients create and delete objects at will. */
    method OthersAct()
      modifies this`objects
    {
      objects := *;
    }

    /**
      One insert request that must not overwrite. The body is read in chunks of the given sizes; the server may
      reply before it has read all of it, but stores an object only after that, if the name is free and the
      announced length is right. The reply may get lost.
     */
    method Insert(name: string, body: ConcatReader, announced: nat, sizes: nat -> nat, headerLength: nat,
                  ghost boundary: Bytes)
      returns (reply: Reply, ghost q: Request)
      requires body.Valid() && body.pos == 0 && body.Delivered() == 0 && forall k :: sizes(k) > 0
      requires headerLength + |body.suffix| <= |body.Contents()| && this !in body.repr
      modifies this, body, body.repr
      ensures body.Valid() && requests == old(requests) + [q] && replies == old(replies) + [reply]
      ensures body.Failures() >= old(body.Failures())
      ensures q.boundary == boundary && q.announced == announced && q.body <= body.Contents()
      ensures q.complete ==> q.body == body.Contents()
      ensures var payload := body.Contents()[headerLength..|body.Contents()| - |body.suffix|];
              && (reply == Created ==> name in objects && objects[name] == payload)
              && (written == old(written) || written == old(written) + [payload])
      ensures reply == Created ==> q.complete && announced == |body.Contents()|
      ensures reply == AlreadyExists ==> name in objects
      ensures body.EndsAlone() ==>
                (reply == BodyPanic ==> !old(body.SuffixFits(sizes))) &&
                (old(body.SuffixNeverFits(sizes)) ==> reply != Created && written == old(written))
    {
      var content, st;
      content, st, q := Receive(body, announced, sizes, boundary);
      reply := Answer(name, content, st, announced, headerLength, |body.suffix|);
    }

    /** The body is read to its end, or until the server has seen enough of it. */
    method Receive(body: ConcatReader, announced: nat, sizes: nat -> nat, ghost boundary: Bytes)
      returns (content: Bytes, st: Status, ghost q: Request)
      requires body.Valid() && body.pos == 0 && body.Delivered() == 0 && forall k :: sizes(k) > 0
      requires this !in body.repr
      modifies this`requests, body, body.repr
      ensures body.Valid() && body.Failures() >= old(body.Failures())
      ensures requests == old(requests) + [q] && q == Request(boundary, content, announced, st == EOF)
      ensures content <= body.Contents() && (st == EOF ==> content == body.Contents())
      ensures body.EndsAlone() ==>
                (st == EOF ==> !old(body.SuffixNeverFits(sizes))) && (st == Panic ==> !old(body.SuffixFits(sizes)))
    {
      var patient: bool, count: nat := *, *;
      content, st := body.ReadAll(sizes, if patient then None else Some(count));
      q := Request(boundary, content, announced, st == EOF);
      requests := requests + [q];
    }

    /** What becomes of a request, by what was read of it. */
    method Answer(name: string, content: Bytes, st: Status, announced: nat, headerLength: nat, trailerLength: nat)
      returns (reply: Reply)
      requires st == EOF ==> headerLength + trailerLength <= |content|
      modifies this`objects, this`written, this`replies
      ensures replies == old(replies) + [reply]
      ensures reply == AlreadyExists ==> name in objects
      ensures reply == Created ==> st == EOF && announced == |content|
      ensures reply == BodyPanic <==> st == Panic
      ensures st != EOF ==> written == old(written)
      ensures st == EOF ==>
                var payload := content[headerLength..|content| - trailerLength];
                && (reply == Created ==> name in objects && objects[name] == payload)
                && (written == old(written) || written == old(written) + [payload])
    {
      OthersAct();
      if st == Panic {
        reply := BodyPanic;
      } else if st == EOF && announced == |content| {
        reply := Store(name, content[headerLength..|content| - trailerLength]);
      } else {
        reply := TurnDown(name, st != Failed);
      }
      replies := replies + [reply];
    }

    /** A complete request. */
    method Store(name: string, payload: Bytes) returns (reply: Reply)
      modifies this`objects, this`written
      ensures reply == Created ==> name in objects && objects[name] == payload
      ensures reply == AlreadyExists ==> name in objects
      ensures reply != BodyPanic && (written == old(written) || written == old(written) + [payload])
    {
      var answered: bool, refused: bool := *, *;
      if refused || name in objects {
        reply := TurnDown(name, answered);
      } else {
        objects := objects[name := payload];
        written := written + [payload];
        reply := if answered then Created else Transient;
      }
    }

    /** No object is stored; the client may hear that there is one already. */
    method TurnDown(name: string, heard: bool) returns (reply: Reply)
      ensures reply == AlreadyExists || reply == Transient || reply == Fatal
      ensures reply == AlreadyExists ==> name in objects
    {
      var refused: bool, retry: bool := *, *;
      reply := if heard && refused && name in objects then AlreadyExists else if retry then Transient else Fatal;
    }
  }

  datatype Result = Stored | PreconditionFailed | Error | Crash

  /**
    The request carries header, data and trailer as far as it was read,
    and announces that many bytes minus `skipped`.
   */
  ghost predicate Carries(q: Request, metadata: Bytes, data: Bytes, skipped: int) {
    var whole := Header(q.boundary, metadata) + data + Trailer(q.boundary);
    q.body <= whole && (q.complete ==> q.body == whole) && q.announced == |whole| - skipped
  }

  /** From some point on, all requests carry the data and all objects they stored are the data. */
  ghost predicate AllCarry(requests: seq<Request>, before: seq<Request>, metadata: Bytes, data: Bytes, skipped: int) {
    && before <= requests
    && forall i :: |before| <= i < |requests| ==> Carries(requests[i], metadata, data, skipped)
  }

  ghost predicate OnlyData(written: seq<Bytes>, before: seq<Bytes>, data: Bytes) {
    before <= written && forall i :: |before| <= i < |written| ==> written[i] == data
  }

  /** The hexadecimal text of 32 random bytes. */
  method RandomBoundary() returns (boundary: Bytes)
    ensures |boundary| == BOUNDARY_LENGTH
  {
    boundary := seq(BOUNDARY_LENGTH, _ => 48);
    var other: Bytes := *;
    if |other| == BOUNDARY_LENGTH {
      boundary := other;
    }
  }

  /** The body of one request: header, data and trailer. */
  method RequestBody(boundary: Bytes, metadata: Bytes, data: Source, sizes: nat -> nat) returns (body: ConcatReader)
    requires data.Valid() && data.Pos() == 0 && |boundary| == BOUNDARY_LENGTH && forall k :: sizes(k) > 0
    ensures fresh(body) && body.Valid() && body.pos == 0 && body.Delivered() == 0 && body.r == Some(data)
    ensures body.repr == data.Footprint() && body.Failures() == data.Failures()
    ensures body.suffix == Trailer(boundary) && |body.suffix| == TRAILER_LENGTH
    ensures (body.EndsAlone() <==> data.EofAlone())
    ensures body.Contents() == Header(boundary, metadata) + data.Data() + Trailer(boundary)
    ensures var n := |Header(boundary, metadata)|;
            && n + TRAILER_LENGTH <= |body.Contents()|
            && body.Contents()[n..|body.Contents()| - TRAILER_LENGTH] == data.Data()
    ensures body.SuffixFits(sizes) <==> TrailerFits(metadata, data.Data(), sizes)
    ensures body.SuffixNeverFits(sizes) <==> TrailerNeverFits(metadata, data.Data(), sizes)
  {
    HeaderLengthIs(boundary, metadata);
    body := new ConcatReader(Header(boundary, metadata), Some(data), Trailer(boundary));
    assert body.inner == data.Data();
  }

  /** The length to announce does not fit. */
  predicate TooLong(metadata: Bytes, dataLength: nat) {
    HeaderLength(metadata) + dataLength + TRAILER_LENGTH > MAX_INT64
  }

  /** One request, given the length to announce. */
  method Send(bucket: Bucket, name: string, metadata: Bytes, data: Source, boundary: Bytes, announced: nat,
              sizes: nat -> nat)
    returns (reply: Reply, ghost q: Request)
    requires data.Valid() && data.Pos() == 0 && |boundary| == BOUNDARY_LENGTH && bucket !in data.Footprint()
    requires forall k :: sizes(k) > 0
    modifies bucket, data.Footprint()
    ensures data.Valid() && bucket.requests == old(bucket.requests) + [q] && q.announced == announced
    ensures bucket.replies == old(bucket.replies) + [reply] && data.Failures() >= old(data.Failures())
    ensures var whole := Header(q.boundary, metadata) + data.Data() + Trailer(q.boundary);
            && q.boundary == boundary && q.body <= whole && (q.complete ==> q.body == whole)
            && (reply == Created ==> announced == |whole|)
    ensures reply == Created ==> name in bucket.objects && bucket.objects[name] == data.Data()
    ensures reply == AlreadyExists ==> name in bucket.objects
    ensures bucket.written == old(bucket.written) || bucket.written == old(bucket.written) + [data.Data()]
    ensures data.EofAlone() ==>
              (reply == BodyPanic ==> !TrailerFits(metadata, data.Data(), sizes)) &&
              (TrailerNeverFits(metadata, data.Data(), sizes) ==>
                 reply != Created && bucket.written == old(bucket.written))
  {
    var body := RequestBody(boundary, metadata, data, sizes);
    reply, q := bucket.Insert(name, body, announced, sizes, |Header(boundary, metadata)|, boundary);
  }

  /** One round of the retry loop. Lengths that overflow are fatal before anything is sent. */
  method Attempt(bucket: Bucket, name: string, metadata: Bytes, data: Source, dataLength: nat, sizes: nat -> nat)
    returns (reply: Reply)
    requires data.Valid() && data.Pos() == 0 && dataLength <= |data.Data()| && bucket !in data.Footprint()
    requires forall k :: sizes(k) > 0
    modifies bucket, data.Footprint()
    ensures data.Valid() && data.Failures() >= old(data.Failures())
    ensures if TooLong(metadata, dataLength) then reply == Fatal && bucket.replies == old(bucket.replies)
            else bucket.replies == old(bucket.replies) + [reply]
    ensures reply == Created ==>
            name in bucket.objects && bucket.objects[name] == data.Data() && dataLength == |data.Data()|
    ensures reply == AlreadyExists ==> name in bucket.objects
    ensures reply == Created || reply == AlreadyExists ==> |bucket.requests| > |old(bucket.requests)|
    ensures AllCarry(bucket.requests, old(bucket.requests), metadata, data.Data(), |data.Data()| - dataLength)
    ensures OnlyData(bucket.written, old(bucket.written), data.Data())
    ensures data.EofAlone() ==>
              (reply == BodyPanic ==> !TrailerFits(metadata, data.Data(), sizes)) &&
              (TrailerNeverFits(metadata, data.Data(), sizes) ==>
                 reply != Created && bucket.written == old(bucket.written))
  {
    var boundary := RandomBoundary();
    var header, trailer := Header(boundary, metadata), Trailer(boundary);
    HeaderLengthIs(boundary, metadata);
    if |header| > MAX_INT64 || dataLength > MAX_INT64 {
      return Fatal;
    }
    ThreeSum(|header|, dataLength, |trailer|);
    var contentLength := SumInt64([|header|, dataLength, |trailer|]);
    if contentLength == None {
      return Fatal;
    }
    ghost var q;
    reply, q := Send(bucket, name, metadata, data, boundary, contentLength.value, sizes);
    OneMoreRequest(old(bucket.requests), bucket.requests, q, metadata, data.Data(), |data.Data()| - dataLength);
    OneMoreObject(old(bucket.written), bucket.written, data.Data());
  }

  lemma OneMoreRequest(before: seq<Request>, after: seq<Request>, q: Request, metadata: Bytes, data: Bytes,
                       skipped: int)
    requires Carries(q, metadata, data, skipped) && (after == before || after == before + [q])
    ensures AllCarry(after, before, metadata, data, skipped)
  {}

  lemma OneMoreObject(before: seq<Bytes>, after: seq<Bytes>, data: Bytes)
    requires after == before || after == before + [data]
    ensures OnlyData(after, before, data)
  {}

  /** The replies of one call: all but the last one were transient. */
  ghost predicate OneByOne(before: seq<Reply>, after: seq<Reply>) {
    before <= after && forall i :: |before| <= i < |after| - 1 ==> after[i] == Transient
  }

  /** The call ended with this reply. */
  ghost predicate EndedWith(before: seq<Reply>, after: seq<Reply>, reply: Reply) {
    |after| > |before| && after[|after| - 1] == reply
  }

  /**
    CreateObjectExclusively. `patience` is the number of back-offs before the context ends. Whatever the
    server does, every request carries header, data and trailer, requests store nothing but the data, a
    success means that the data is stored under the name, and a failed precondition that the name was taken.
    The result is that of the last reply, transient ones are retried, and there are no other errors than a missing
    name, data that cannot be read or seeked, a length that does not fit, a fatal reply, and a lack of patience.
   */
  method CreateObjectExclusively(bucket: Bucket, name: string, metadata: Bytes, data: Source,
                                 sizes: nat -> nat, patience: nat)
    returns (r: Result)
    requires data.Valid() && bucket !in data.Footprint() && forall k :: sizes(k) > 0
    modifies bucket, data.Footprint()
    ensures r != Error || data.File? ==> data.Valid()
    ensures r == Stored ==> name in bucket.objects && bucket.objects[name] == data.Data() && old(data.Pos()) == 0
    ensures r == PreconditionFailed ==> name in bucket.objects
    ensures r == Stored || r == PreconditionFailed ==> name != "" && |bucket.requests| > |old(bucket.requests)|
    ensures OneByOne(old(bucket.replies), bucket.replies)
    ensures r == Stored <==> EndedWith(old(bucket.replies), bucket.replies, Created)
    ensures r == PreconditionFailed <==> EndedWith(old(bucket.replies), bucket.replies, AlreadyExists)
    ensures r == Crash <==> EndedWith(old(bucket.replies), bucket.replies, BodyPanic)
    ensures EndedWith(old(bucket.replies), bucket.replies, Fatal) ==> r == Error
    ensures r == Error ==>
              || name == "" || data.Limited? || data.Failures() > old(data.Failures())
              || TooLong(metadata, |data.Data()| - old(data.Pos()))
              || EndedWith(old(bucket.replies), bucket.replies, Fatal)
              || (EndedWith(old(bucket.replies), bucket.replies, Transient) &&
                  |bucket.replies| == |old(bucket.replies)| + patience + 1)
    ensures name == "" || TooLong(metadata, |data.Data()| - old(data.Pos())) ==>
              r == Error && bucket.replies == old(bucket.replies)
    ensures AllCarry(bucket.requests, old(bucket.requests), metadata, data.Data(), old(data.Pos()))
    ensures OnlyData(bucket.written, old(bucket.written), data.Data())
    ensures data.EofAlone() ==>
              (r == Crash ==> !TrailerFits(metadata, data.Data(), sizes)) &&
              (TrailerNeverFits(metadata, data.Data(), sizes) ==>
                 r != Stored && bucket.written == old(bucket.written))
  {
    if name == "" {
      return Error;
    }
    var hashed, ok := data.Drain();
    if !ok {
      return Error;
    }
    var dataLength := |hashed|;
    var left: nat := patience;
    while true
      invariant data.Valid() && dataLength == |data.Data()| - old(data.Pos()) && data.Failures() >= old(data.Failures())
      invariant AllCarry(bucket.requests, old(bucket.requests), metadata, data.Data(), old(data.Pos()))
      invariant OnlyData(bucket.written, old(bucket.written), data.Data())
      invariant old(bucket.replies) <= bucket.replies
      invariant forall i :: |old(bucket.replies)| <= i < |bucket.replies| ==> bucket.replies[i] == Transient
      invariant left <= patience && |bucket.replies| == |old(bucket.replies)| + patience - left
      invariant left < patience ==> !TooLong(metadata, dataLength)
      invariant data.EofAlone() && TrailerNeverFits(metadata, data.Data(), sizes) ==>
                bucket.written == old(bucket.written)
      decreases left
    {
      ok := data.Rewind();
      if !ok {
        return Error;
      }
      var reply := Attempt(bucket, name, metadata, data, dataLength, sizes);
      match reply {
        case Created => return Stored;
        case AlreadyExists => return PreconditionFailed;
        case Fatal => return Error;
        case BodyPanic => return Crash;
        case Transient =>
          if left == 0 {
            return Error;
          }
          left := left - 1;
      }
    }
  }

  lemma ThreeSum(a: nat, b: nat, c: nat)
    ensures Total([a, b, c]) == a + b + c && (AllSumsFit([a, b, c]) <==> a + b + c <= MAX_INT64)
  {
    assert [a, b, c][..2] == [a, b] && [a, b][..1] == [a] && [a][..0] == [];
    LengthsFitIff([a, b, c]);
    assert Total([a, b, c]) == Total([a, b]) + c && Total([a, b]) == Total([a]) + b && Total([a]) == a;
  }
}
