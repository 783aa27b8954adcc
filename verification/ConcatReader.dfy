/** A reader of prefix, then inner reader, then suffix (internal/util/concatreader.go). */
module ConcatReaders {
  import opened Basics
  import opened Sources
  import opened Streams

  /**
    How much of a buffer is left behind `x` bytes that are copied into buffers of these sizes, from the i-th
    one on; a buffer that is filled exactly does not count.
   */
  function RoomAfter(sizes: nat -> nat, i: nat, x: nat): (room: nat)
    requires forall k :: sizes(k) > 0
    ensures room > 0
    decreases x
  {
    if x < sizes(i) then sizes(i) - x else RoomAfter(sizes, i + 1, x - sizes(i))
  }

  /** The next k bytes of the inner reader, written behind what is there, are the next k bytes of the whole. */
  lemma InnerFilled(s0: seq<Byte>, s1: seq<Byte>, s2: seq<Byte>, prefix: Bytes, inner: Bytes, suffix: Bytes,
                    all: Bytes, d0: nat, d1: nat, d2: nat, was: nat, now: nat)
    requires all == prefix + inner + suffix && was <= now <= |inner|
    requires d0 <= d1 == |prefix| + was && d2 == |prefix| + now
    requires Filled(s0, s1, 0, all[d0..d1]) && Filled(s1, s2, d1 - d0, inner[was..now])
    ensures Filled(s0, s2, 0, all[d0..d2])
  {
    SliceOfMiddle(prefix, inner, suffix, was, now);
    FilledTwice(s0, s1, s2, 0, all, d0, d1, d2);
  }

  /** Part of the inner content, as part of what is left of the inner reader's data. */
  lemma InnerPart(s0: seq<Byte>, s1: seq<Byte>, n: nat, data: Bytes, start: nat, inner: Bytes,
                  at: nat, to: nat, was: nat, now: nat)
    requires start <= |data| && inner == data[start..] && at == start + was && to == start + now && at <= to <= |data|
    requires Filled(s0, s1, n, data[at..to])
    ensures Filled(s0, s1, n, inner[was..now])
  {
    assert data[at..to] == inner[was..now];
  }

  class ConcatReader {
    const prefix: Bytes
    const r: Option<Source>
    const suffix: Bytes
    /** The position of the inner reader when this reader was made. */
    ghost const start: nat
    /** What the inner reader still had to deliver then. */
    ghost const inner: Bytes
    /** Bytes of the prefix delivered, or once the inner reader has ended, -1 minus those of the suffix. */
    var pos: int
    /** The objects of the inner reader. */
    ghost const repr: set<object>
    /** Bytes of the inner reader delivered. */
    ghost var passed: nat

    ghost function Contents(): Bytes {
      prefix + inner + suffix
    }

    /** Reads of the inner reader that failed. */
    ghost function Failures(): nat
      requires r.Some? ==> r.value.Footprint() == repr
      reads repr
    {
      if r == None then 0 else r.value.Failures()
    }

    /** What holds of the own fields, whatever the inner reader does. */
    ghost predicate InPlace()
      reads this
    {
      && -1 - |suffix| <= pos <= |prefix| && passed <= |inner|
      && (0 <= pos < |prefix| ==> passed == 0) && (pos < 0 ==> passed == |inner|)
    }

    ghost predicate Linked()
      reads this, repr
    {
      if r == None then inner == [] && repr == {}
      else
        && this !in repr && r.value.Footprint() == repr && r.value.Valid()
        && r.value.Pos() == start + passed && inner == r.value.Data()[start..]
    }

    ghost predicate Valid()
      reads this, repr
    {
      InPlace() && Linked()
    }

    ghost function Delivered(): (d: nat)
      requires InPlace()
      reads this
      ensures d <= |Contents()|
    {
      if pos < 0 then |prefix| + |inner| - 1 - pos else pos + passed
    }

    constructor (prefix: Bytes, r: Option<Source>, suffix: Bytes)
      requires r.Some? ==> r.value.Valid()
      ensures Valid() && this.prefix == prefix && this.r == r && this.suffix == suffix
      ensures repr == if r == None then {} else r.value.Footprint()
      ensures pos == 0 && Delivered() == 0 && inner == if r == None then [] else r.value.Data()[r.value.Pos()..]
    {
      this.prefix, this.r, this.suffix := prefix, r, suffix;
      start := if r == None then 0 else r.value.Pos();
      inner := if r == None then [] else r.value.Data()[r.value.Pos()..];
      pos, passed := 0, 0;
      repr := if r == None then {} else r.value.Footprint();
    }

    /**
      The inner reader has ended but part of the suffix is left: the next
      Read indexes the prefix at a negative position.
     */
    ghost predicate Stuck()
      requires InPlace()
      reads this
    {
      pos < 0 && Delivered() < |Contents()|
    }

    /** The bytes from `d0` on are the first `n` of p, where `s0` was before. */
    ghost predicate Holds(s0: seq<Byte>, p: array<Byte>, n: nat, d0: nat)
      requires InPlace()
      reads this, p
    {
      d0 + n == Delivered() && Filled(s0, p[..], 0, Contents()[d0..Delivered()])
    }

    /** The last phase of a Read: `n` bytes of p are filled already and the inner reader has ended. */
    method ReadSuffix(p: array<Byte>, n: nat, ghost s0: seq<Byte>, ghost d0: nat) returns (total: nat, st: Status)
      requires InPlace() && pos < 0 && Holds(s0, p, n, d0)
      modifies this`pos, p
      ensures InPlace() && pos < 0 && n <= total <= p.Length && Holds(s0, p, total, d0)
      ensures if Delivered() == |Contents()| then st == EOF else st == Ok && total == p.Length
    {
      ghost var s1, d1 := p[..], Delivered();
      var rest := suffix[-pos - 1..];
      var k := CopyInto(p, n, p.Length, rest);
      SuffixSlice(-pos - 1, k);
      FilledTwice(s0, s1, p[..], 0, Contents(), d0, d1, d1 + k);
      total := n + k;
      pos := pos - k;
      st := if -pos - 1 == |suffix| then EOF else Ok;
    }

    lemma SuffixSlice(i: nat, k: nat)
      requires i + k <= |suffix|
      ensures suffix[i..][..k] == Contents()[|prefix| + |inner| + i..|prefix| + |inner| + i + k]
    {}

    /** One Read of the inner reader. */
    method ReadSource(p: array<Byte>, n: nat) returns (k: nat, st: Status)
      requires Valid() && r.Some? && pos == |prefix| && n < p.Length
      modifies this`passed, repr, p
      ensures Valid() && passed == old(passed) + k && n + k <= p.Length
      ensures Filled(old(p[..]), p[..], n, inner[old(passed)..passed])
      ensures st != Panic && (st == Ok ==> k > 0)
      ensures st == EOF ==> passed == |inner| && (r.value.EofAlone() ==> k == 0)
      ensures Failures() == old(Failures()) + if st == Failed then 1 else 0
    {
      ghost var s0, was, at := p[..], passed, r.value.Pos();
      k, st := r.value.Read(p, n);
      passed := was + k;
      InnerPart(s0, p[..], n, r.value.Data(), start, inner, at, r.value.Pos(), was, passed);
    }

    /** The middle phase: the prefix is used up and `n` bytes of p are filled already. */
    method ReadInner(p: array<Byte>, n: nat, ghost s0: seq<Byte>, ghost d0: nat) returns (total: nat, st: Status)
      requires Valid() && r.Some? && pos == |prefix| && n < p.Length && Holds(s0, p, n, d0)
      modifies this`passed, repr, p
      ensures Valid() && n <= total <= p.Length && Holds(s0, p, total, d0)
      ensures st != Panic && (st == Ok ==> total > n)
      ensures st == EOF ==> passed == |inner| && (r.value.EofAlone() ==> total == n)
      ensures Failures() == old(Failures()) + if st == Failed then 1 else 0
    {
      ghost var s1, d1, was := p[..], Delivered(), passed;
      var k;
      k, st := ReadSource(p, n);
      total := n + k;
      InnerFilled(s0, s1, p[..], prefix, inner, suffix, Contents(), d0, d1, Delivered(), was, passed);
    }

    method ReadPrefix(p: array<Byte>) returns (n: nat)
      requires InPlace() && 0 <= pos <= |prefix|
      modifies this`pos, p
      ensures InPlace() && n == Min(p.Length, |prefix| - old(pos)) && pos == old(pos) + n
      ensures Holds(old(p[..]), p, n, old(Delivered()))
    {
      n := CopyInto(p, 0, p.Length, prefix[pos..]);
      PrefixSlice(pos, n);
      pos := pos + n;
    }

    lemma PrefixSlice(i: nat, k: nat)
      requires i + k <= |prefix|
      ensures prefix[i..][..k] == Contents()[i..i + k]
    {}

    /** The prefix is used up; the inner reader is asked, and if it has ended the suffix follows at once. */
    method ReadBehindPrefix(p: array<Byte>, n: nat, ghost s0: seq<Byte>, ghost d0: nat) returns (total: nat, st: Status)
      requires Valid() && pos == |prefix| && n < p.Length && Holds(s0, p, n, d0)
      modifies this`pos, this`passed, p, repr
      ensures Valid() && n <= total <= p.Length && Holds(s0, p, total, d0)
      ensures st != Panic && (st == EOF <==> pos < 0 && Delivered() == |Contents()|)
      ensures (st == Ok ==> total > n) && (st == Failed ==> pos >= 0) && (Stuck() ==> total == p.Length)
      ensures pos < 0 && r.Some? && r.value.EofAlone() && inner != [] ==> d0 + n == |prefix| + |inner|
      ensures inner == [] && pos >= 0 ==> st == Failed
      ensures Failures() == old(Failures()) + if st == Failed then 1 else 0
    {
      total, st := n, Ok;
      if pos >= 0 {
        if r.Some? {
          total, st := ReadInner(p, n, s0, d0);
          if st != EOF {
            return;
          }
        }
        pos := -1;
      }
      total, st := ReadSuffix(p, total, s0, d0);
    }

    method Read(p: array<Byte>) returns (n: nat, st: Status)
      requires Valid()
      modifies this`pos, this`passed, p, repr
      ensures Valid() && n <= p.Length && Delivered() == old(Delivered()) + n
      ensures Filled(old(p[..]), p[..], 0, Contents()[old(Delivered())..Delivered()])
      ensures st == Panic <==> p.Length > 0 && old(pos) < 0
      ensures st == Panic ==> n == 0 && pos == old(pos)
      ensures st == EOF <==> p.Length > 0 && old(pos) >= 0 && pos < 0 && Delivered() == |Contents()|
      ensures st == Ok && p.Length > 0 ==> n > 0
      ensures st == Failed ==> pos >= 0
      ensures Failures() == old(Failures()) + if st == Failed then 1 else 0
      ensures Stuck() && old(pos) >= 0 ==> n == p.Length
      ensures old(pos) >= 0 && pos < 0 && r.Some? && r.value.EofAlone() && inner != [] ==>
              old(Delivered()) == |prefix| + |inner|
      ensures inner == [] && old(pos) >= 0 && p.Length > 0 ==>
                (pos < 0 ==> |prefix| - old(pos) < p.Length) && (pos >= 0 && st == Ok ==> pos == old(pos) + p.Length)
    {
      n, st := 0, Ok;
      if p.Length == 0 {
        return;
      }
      ghost var s0, d0 := p[..], Delivered();
      if pos < |prefix| {
        if pos < 0 {
          st := Panic;
          return;
        }
        n := ReadPrefix(p);
        if n == p.Length {
          return;
        }
      }
      n, st := ReadBehindPrefix(p, n, s0, d0);
    }

    /** The inner reader, if there is one, reports its end on its own. */
    ghost predicate EndsAlone() {
      r.Some? ==> r.value.EofAlone()
    }

    /**
      The room for the suffix in a buffer of `size` bytes into which the
      last bytes before it are read from `at` on.
     */
    ghost function Room(at: int, size: nat): int {
      if inner == [] then size - (|prefix| - at) else size
    }

    /** One Read into a buffer of its own. */
    method ReadChunk(size: nat) returns (chunk: Bytes, st: Status)
      requires Valid() && 0 < size && (pos >= 0 || Stuck())
      modifies this`pos, this`passed, repr
      ensures Valid() && Delivered() == old(Delivered()) + |chunk|
      ensures chunk == Contents()[old(Delivered())..Delivered()]
      ensures st == Ok ==> |chunk| > 0
      ensures if old(pos) < 0 then st == Panic && pos == old(pos) else st != Panic
      ensures st == EOF <==> old(pos) >= 0 && pos < 0 && Delivered() == |Contents()|
      ensures st == Failed ==> pos >= 0
      ensures Failures() == old(Failures()) + if st == Failed then 1 else 0
      ensures old(pos) >= 0 && pos < 0 ==> Delivered() >= |prefix| + |inner| && (st == EOF || (st == Ok && Stuck()))
      ensures old(pos) >= 0 && pos < 0 && EndsAlone() ==> (st == EOF <==> |suffix| <= Room(old(pos), size))
      ensures inner == [] && old(pos) >= 0 ==>
                (pos < 0 ==> |prefix| - old(pos) < size) && (pos >= 0 && st == Ok ==> pos == old(pos) + size)
    {
      var p := new Byte[size];
      var n;
      n, st := Read(p);
      chunk := p[..n];
      assert chunk == p[..][0..0 + n];
    }

    /** The suffix fits into every buffer that can be the one in which the inner reader ends. */
    ghost predicate SuffixFits(sizes: nat -> nat)
      requires InPlace() && forall k :: sizes(k) > 0
      reads this
    {
      if inner == [] then pos >= 0 && |suffix| <= RoomAfter(sizes, 0, |prefix| - pos)
      else forall k :: |suffix| <= sizes(k)
    }

    /** It fits into none of them. */
    ghost predicate SuffixNeverFits(sizes: nat -> nat)
      requires InPlace() && forall k :: sizes(k) > 0
      reads this
    {
      if inner == [] then pos >= 0 && RoomAfter(sizes, 0, |prefix| - pos) < |suffix|
      else forall k :: sizes(k) < |suffix|
    }

    /**
      Copying a fresh reader with buffers of these sizes, to the end or until so many reads are done; only then
      the copy ends without a reason. Whatever is delivered is a prefix of the content, and EOF comes with the
      last byte. If the inner reader reports its end on its own, then the copy runs into the negative prefix index
      if the suffix does not fit behind it, and not if it does.
     */
    method ReadAll(sizes: nat -> nat, count: Option<nat>) returns (out: Bytes, st: Status)
      requires Valid() && 0 <= pos && forall k :: sizes(k) > 0
      modifies this`pos, this`passed, repr
      ensures Valid() && old(Delivered()) <= Delivered() && out == Contents()[old(Delivered())..Delivered()]
      ensures st == Ok ==> count.Some?
      ensures Failures() == old(Failures()) + if st == Failed then 1 else 0
      ensures st == EOF ==> Delivered() == |Contents()|
      ensures st == Panic ==> |prefix| + |inner| <= Delivered() < |Contents()|
      ensures EndsAlone() ==> (st == EOF ==> !old(SuffixNeverFits(sizes))) && (st == Panic ==> !old(SuffixFits(sizes)))
    {
      ghost var fits, never := SuffixFits(sizes), SuffixNeverFits(sizes);
      ghost var at;
      out, st, at := Copy(sizes, count);
      assert inner != [] ==> (fits ==> |suffix| <= sizes(at)) && (never ==> sizes(at) < |suffix|);
    }

    /** The loop of ReadAll; `at` is the buffer in which the inner reader ended. */
    method Copy(sizes: nat -> nat, count: Option<nat>) returns (out: Bytes, st: Status, ghost at: nat)
      requires Valid() && 0 <= pos && forall k :: sizes(k) > 0
      modifies this`pos, this`passed, repr
      ensures Valid() && old(Delivered()) <= Delivered() && out == Contents()[old(Delivered())..Delivered()]
      ensures Failures() == old(Failures()) + if st == Failed then 1 else 0
      ensures (st == Ok ==> count.Some?) && (st == EOF || st == Panic ==> pos < 0)
      ensures st == EOF ==> Delivered() == |Contents()|
      ensures st == Panic ==> |prefix| + |inner| <= Delivered() < |Contents()|
      ensures pos < 0 && EndsAlone() ==>
                (st == EOF <==> |suffix| <= if inner == [] then RoomAfter(sizes, 0, |prefix| - old(pos)) else sizes(at))
    {
      out, st, at := [], Ok, 0;
      ghost var from := Delivered();
      ghost var room := RoomAfter(sizes, 0, |prefix| - pos);
      var i := 0;
      while st == Ok && (count == None || i < count.value)
        invariant Valid() && from <= Delivered() && out == Contents()[from..Delivered()]
        invariant (st == EOF ==> pos < 0 && Delivered() == |Contents()|) && (st == Panic ==> pos < 0)
        invariant Failures() == old(Failures()) + if st == Failed then 1 else 0
        invariant pos < 0 ==> st == EOF || (Stuck() && |prefix| + |inner| <= Delivered())
        invariant inner == [] && st == Ok && pos >= 0 ==> RoomAfter(sizes, i, |prefix| - pos) == room
        invariant pos < 0 && EndsAlone() ==> (st == EOF <==> |suffix| <= if inner == [] then room else sizes(at))
        decreases |Contents()| - Delivered(), st == Ok
      {
        ghost var d := Delivered();
        if pos >= 0 { at := i; }
        var chunk;
        chunk, st := ReadChunk(sizes(i));
        AppendSlice(Contents(), from, d, Delivered(), out, chunk);
        out := out + chunk;
        i := i + 1;
      }
    }
  }
}
