/** Readers over fixed content, as far as their callers can tell them apart. */
module Streams {
  import opened Basics

  /** How a Read ends. `Panic` is an index out of range in the reader itself. */
  datatype Status = Ok | EOF | Failed | Panic

  /** Bytes `src` were written at `off`, and nothing in front of them was touched. */
  ghost predicate Filled(before: seq<Byte>, after: seq<Byte>, off: nat, src: Bytes) {
    && |after| == |before| && off + |src| <= |before|
    && after[..off] == before[..off]
    && after[off..off + |src|] == src
  }

  lemma FilledExtends(before: seq<Byte>, after: seq<Byte>, off: nat, src: Bytes)
    requires Filled(before, after, off, src)
    ensures after[..off + |src|] == before[..off] + src
  {
    assert after[..off + |src|] == after[..off] + after[off..off + |src|];
  }

  /** Two writes, one behind the other, deliver adjacent parts of some content. */
  lemma FilledTwice(s0: seq<Byte>, s1: seq<Byte>, s2: seq<Byte>, off: nat, data: Bytes, i: nat, j: nat, k: nat)
    requires i <= j <= k <= |data|
    requires Filled(s0, s1, off, data[i..j]) && Filled(s1, s2, off + j - i, data[j..k])
    ensures Filled(s0, s2, off, data[i..k])
  {
    var m := off + j - i;
    FilledExtends(s0, s1, off, data[i..j]);
    FilledExtends(s1, s2, m, data[j..k]);
    SplitSlice(data, i, j, k);
    assert s2[..m] == s0[..off] + data[i..j];
    assert s2[..off + k - i] == s0[..off] + data[i..k];
    assert s2[..off] == s2[..off + k - i][..off];
    assert s2[off..off + k - i] == s2[..off + k - i][off..];
  }

  /** The built-in copy: as many bytes of `src` as fit between `lo` and `hi`. */
  method CopyInto(p: array<Byte>, lo: nat, hi: nat, src: Bytes) returns (n: nat)
    requires lo <= hi <= p.Length
    modifies p
    ensures n == Min(|src|, hi - lo)
    ensures Filled(old(p[..]), p[..], lo, src[..n])
  {
    n := Min(|src|, hi - lo);
    for i := 0 to n
      invariant p[..lo] == old(p[..lo])
      invariant p[lo..lo + i] == src[..i]
    {
      p[lo + i] := src[i];
      assert p[lo..lo + i + 1] == src[..i + 1];
    }
    assert p[..][..lo] == p[..lo] && p[..][lo..lo + n] == p[lo..lo + n];
  }

  /**
    A reader of `data` that may deliver fewer bytes than asked for, may fail at any time, and reports the
    end either with the last bytes or after them. Files report it after them: `eofAlone`.
   */
  class Stream {
    const data: Bytes
    const eofAlone: bool
    var pos: nat
    /** Reads and seeks that failed. */
    ghost var failures: nat

    ghost predicate Valid()
      reads this
    {
      pos <= |data|
    }

    constructor (data: Bytes, eofAlone: bool)
      ensures Valid() && this.data == data && this.eofAlone == eofAlone && pos == 0 && failures == 0
    {
      this.data := data;
      this.eofAlone := eofAlone;
      pos, failures := 0, 0;
    }

    /** Reads into the part of p between `lo` and `hi`. */
    method Read(p: array<Byte>, lo: nat, hi: nat) returns (n: nat, st: Status)
      requires Valid() && lo <= hi <= p.Length
      modifies this, p
      ensures Valid() && pos == old(pos) + n && lo + n <= hi
      ensures failures == old(failures) + if st == Failed then 1 else 0
      ensures Filled(old(p[..]), p[..], lo, data[old(pos)..pos])
      ensures st != Panic && (st == Ok && lo < hi ==> n > 0)
      ensures st == EOF ==> pos == |data| && lo < hi && (eofAlone ==> n == 0)
    {
      var room := Min(hi - lo, |data| - pos);
      var k: nat :| k <= room && (room > 0 ==> k > 0);
      n := CopyInto(p, lo, hi, data[pos..pos + k]);
      assert data[pos..pos + k][..n] == data[pos..pos + k];
      pos := pos + n;
      var broken: bool, early: bool := *, *;
      st := if broken then Failed
            else if lo < hi && pos == |data| && (n == 0 || (early && !eofAlone)) then EOF
            else Ok;
      failures := failures + if broken then 1 else 0;
    }

    /** Seek to the start. */
    method Rewind() returns (ok: bool)
      modifies this
      ensures ok ==> pos == 0
      ensures !ok ==> pos == old(pos)
      ensures failures == old(failures) + if ok then 0 else 1
    {
      ok := *;
      if ok {
        pos := 0;
      } else {
        failures := failures + 1;
      }
    }
  }

  /** io.LimitedReader: the next bytes of a stream, whose position it shares. */
  class LimitedReader {
    const body: Stream
    var left: nat
    /** Where the stream was, and the limit, when this reader was made. */
    ghost const start: nat
    ghost const size: nat

    ghost predicate Valid()
      reads this, body
    {
      body.Valid() && left <= size && body.pos == start + size - left
    }

    ghost function Data(): Bytes
      requires start <= |body.data|
    {
      body.data[start..Min(start + size, |body.data|)]
    }

    constructor (body: Stream, size: nat)
      requires body.Valid()
      ensures Valid() && this.body == body && start == body.pos && this.size == size && left == size
    {
      this.body := body;
      start, this.size, left := body.pos, size, size;
    }

    method Read(p: array<Byte>, lo: nat) returns (n: nat, st: Status)
      requires Valid() && lo < p.Length
      modifies this`left, body, p
      ensures body.failures == old(body.failures) + if st == Failed then 1 else 0
      ensures Valid() && left == old(left) - n && lo + n <= p.Length
      ensures body.pos == old(body.pos) + n && Filled(old(p[..]), p[..], lo, body.data[old(body.pos)..body.pos])
      ensures st != Panic && (st == Ok ==> n > 0)
      ensures st == EOF ==> (left == 0 || body.pos == |body.data|) && (body.eofAlone ==> n == 0)
    {
      if left == 0 {
        return 0, EOF;
      }
      n, st := body.Read(p, lo, Min(p.Length, lo + left));
      left := left - n;
    }
  }
}
