/**
  The bytes of the concat object and what parsing makes of them
  (internal/service/gomodule/gocmd/storageconcatobj.go).
 */
module ConcatObj {
  import opened Basics
  import opened ObjectStore
  import opened Varints

  const FIRST_READ := 2 * MAX_LEN

  function Prefix(time: int, goModSize: nat): Bytes {
    PutVarint(time) + PutUvarint(goModSize)
  }

  /** The bytes of a concat object. */
  function Encode(c: Copy): Bytes {
    Prefix(c.time, |c.goMod|) + c.goMod + c.zip
  }

  /** Times are int64 seconds and file sizes are non-negative int64. */
  predicate Storable(c: Copy) {
    -MAX_INT64 - 1 <= c.time <= MAX_INT64 && |c.goMod| <= MAX_INT64
  }

  datatype Parse =
    | Parsed(time: int, goModPrefix: Bytes, goModToRead: nat, zipPrefix: Bytes)
    | Invalid
    | NegativeLength

  /**
    The parser on the first chunk it read. If the chunk reaches beyond go.mod, the code asks for a slice
    of minus the number of remaining bytes, which panics.
   */
  function ParseChunk(chunk: Bytes): Parse {
    match GetVarint(chunk, 0)
    case Bad => Invalid
    case Decoded(time, i) =>
      match GetUvarint(chunk, i)
      case Bad => Invalid
      case Decoded(size, j) =>
        if size > MAX_INT64 then Invalid
        else if size <= |chunk| - j then
          (if -(|chunk| - j - size) < 0 then NegativeLength else Parsed(time, chunk[j..j + size], 0, []))
        else Parsed(time, chunk[j..], size - (|chunk| - j), [])
  }

  lemma PrefixFits(c: Copy)
    requires Storable(c)
    ensures |Prefix(c.time, |c.goMod|)| <= FIRST_READ
  {
    UvarintFits(if c.time >= 0 then 2 * c.time else -2 * c.time - 1);
    UvarintFits(|c.goMod|);
  }

  lemma CutOffTime(c: Copy, n: nat)
    requires Storable(c) && n < |PutVarint(c.time)|
    ensures ParseChunk(Encode(c)[..n]) == Invalid
  {
    var y := if c.time >= 0 then 2 * c.time else -2 * c.time - 1;
    var s := Encode(c)[..n];
    assert s[0..] == PutUvarint(y)[..n];
    DecodeCutOff(s, 0, 0, 0, y);
  }

  lemma TimeParses(c: Copy, n: nat)
    requires Storable(c) && |PutVarint(c.time)| <= n <= |Encode(c)|
    ensures GetVarint(Encode(c)[..n], 0) == Decoded(c.time, |PutVarint(c.time)|)
  {
    var s := Encode(c)[..n];
    assert s[0..|PutVarint(c.time)|] == PutVarint(c.time);
    VarintRoundTrip(s, 0, c.time);
  }

  lemma CutOffSize(c: Copy, n: nat)
    requires Storable(c) && |PutVarint(c.time)| <= n < |Prefix(c.time, |c.goMod|)|
    ensures ParseChunk(Encode(c)[..n]) == Invalid
  {
    TimeParses(c, n);
    var s, i := Encode(c)[..n], |PutVarint(c.time)|;
    assert s[i..] == PutUvarint(|c.goMod|)[..n - i];
    DecodeCutOff(s, i, i, 0, |c.goMod|);
  }

  lemma SizeParses(c: Copy, n: nat)
    requires Storable(c) && |Prefix(c.time, |c.goMod|)| <= n <= |Encode(c)|
    ensures GetUvarint(Encode(c)[..n], |PutVarint(c.time)|) == Decoded(|c.goMod|, |Prefix(c.time, |c.goMod|)|)
  {
    var s, i := Encode(c)[..n], |PutVarint(c.time)|;
    assert s[i..i + |PutUvarint(|c.goMod|)|] == PutUvarint(|c.goMod|);
    UvarintRoundTrip(s, i, |c.goMod|);
  }

  /** What the parser does with the first n bytes of a written object, for every n. */
  lemma ParseOfEncoded(c: Copy, n: nat)
    requires Storable(c) && n <= |Encode(c)|
    ensures var h := |Prefix(c.time, |c.goMod|)|;
            ParseChunk(Encode(c)[..n]) ==
            if n < h then Invalid
            else if n <= h + |c.goMod| then Parsed(c.time, c.goMod[..n - h], |c.goMod| - (n - h), [])
            else NegativeLength
  {
    var h := |Prefix(c.time, |c.goMod|)|;
    if n < |PutVarint(c.time)| {
      CutOffTime(c, n);
    } else if n < h {
      CutOffSize(c, n);
    } else {
      TimeParses(c, n);
      SizeParses(c, n);
      var s := Encode(c)[..n];
      if n <= h + |c.goMod| {
        assert s[h..] == c.goMod[..n - h];
        assert n == h + |c.goMod| ==> s[h..h + |c.goMod|] == c.goMod[..n - h];
      }
    }
  }

  /**
    Round trip. The parser recovers the time, and the two streams built from the rest are go.mod and the
    zip, exactly if the first chunk holds both varints and does not reach into the zip.
   */
  lemma ParseSucceedsIff(c: Copy, n: nat)
    requires Storable(c) && n <= |Encode(c)|
    ensures var h := |Prefix(c.time, |c.goMod|)|; ParseChunk(Encode(c)[..n]).Parsed? <==> h <= n <= h + |c.goMod|
    ensures var p, rest := ParseChunk(Encode(c)[..n]), Encode(c)[n..];
            p.Parsed? ==> p.time == c.time && p.goModToRead <= |rest| &&
                          p.goModPrefix + rest[..p.goModToRead] == c.goMod &&
                          p.zipPrefix + rest[p.goModToRead..] == c.zip
  {
    ParseOfEncoded(c, n);
    var h, rest := |Prefix(c.time, |c.goMod|)|, Encode(c)[n..];
    if h <= n <= h + |c.goMod| {
      var k := n - h;
      assert rest == c.goMod[k..] + c.zip;
      assert c.goMod[..k] + c.goMod[k..] == c.goMod;
    }
  }

  /** "module a.b" in its first line and nothing else: an object like this cannot be read back in full chunks. */
  lemma TinyGoModCannotBeParsed(zip: Bytes)
    requires |zip| >= 9
    ensures var c := Copy(1600000000, [109, 111, 100, 117, 108, 101, 32, 97, 46, 98, 10], zip);
            Storable(c) && FIRST_READ <= |Encode(c)| && ParseChunk(Encode(c)[..FIRST_READ]) == NegativeLength
  {
    var c := Copy(1600000000, [109, 111, 100, 117, 108, 101, 32, 97, 46, 98, 10], zip);
    PrefixFits(c);
    assert |PutUvarint(11)| == 1;
    UvarintLengthExample();
    ParseOfEncoded(c, FIRST_READ);
  }

  lemma UvarintLengthExample()
    ensures |PutVarint(1600000000)| == 5
  {
    var x := 3200000000;
    assert |PutUvarint(x)| == 1 + |PutUvarint(x / 128)|;
    assert |PutUvarint(x / 128)| == 1 + |PutUvarint(195312)|;
    assert |PutUvarint(195312)| == 1 + |PutUvarint(1525)|;
    assert |PutUvarint(1525)| == 1 + |PutUvarint(11)|;
  }

  /**
    The parser on any chunk that begins with two varints: a size that does not fit int64 is an error, also when
    nothing of the object could be that long.
   */
  lemma ParseOfPrefix(time: int, size: nat, rest: Bytes)
    requires -MAX_INT64 - 1 <= time <= MAX_INT64 && size < TWO_64
    ensures ParseChunk(Prefix(time, size) + rest) ==
            if size > MAX_INT64 then Invalid
            else if size < |rest| then NegativeLength
            else Parsed(time, rest, size - |rest|, [])
  {
    var a, b := PutVarint(time), PutUvarint(size);
    var s, i, j := a + b + rest, |a|, |a| + |b|;
    Parts(a, b, rest, s);
    VarintRoundTrip(s, 0, time);
    UvarintRoundTrip(s, i, size);
    assert size == |rest| ==> s[j..j + size] == rest;
  }

  lemma Parts(a: Bytes, b: Bytes, rest: Bytes, s: Bytes)
    requires s == a + b + rest
    ensures s[0..|a|] == a && s[|a|..|a| + |b|] == b && s[|a| + |b|..] == rest
  {}
}
