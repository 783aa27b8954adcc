/** Environment variables kept in order, with an index by normalized name (internal/util/environ.go). */
module Environs {
  import opened Basics
  import opened Text

  function Normalize(name: string, caseSensitive: bool): string {
    if caseSensitive then name else Lower(name)
  }

  /** Position of the first equals sign, or the length. */
  function NameEnd(pair: string): (j: nat)
    ensures j <= |pair| && '=' !in pair[..j] && (j < |pair| ==> pair[j] == '=')
  {
    if pair == "" || pair[0] == '=' then 0 else
      assert forall j :: 0 <= j <= |pair[1..]| ==> pair[1..][..j] == pair[1..j + 1];
      1 + NameEnd(pair[1..])
  }

  function NameOf(pair: string): string {
    pair[..NameEnd(pair)]
  }

  function ValueOf(pair: string): string {
    if NameEnd(pair) < |pair| then pair[NameEnd(pair) + 1..] else ""
  }

  lemma {:induction false} EndsAtFirst(name: string, value: string)
    requires '=' !in name
    ensures NameEnd(name + "=" + value) == |name|
  {
    if name != "" {
      assert (name + "=" + value)[1..] == name[1..] + "=" + value;
      EndsAtFirst(name[1..], value);
    }
  }

  lemma SplitsAtFirst(name: string, value: string)
    requires '=' !in name
    ensures NameOf(name + "=" + value) == name && ValueOf(name + "=" + value) == value
    ensures '=' in name + "=" + value
  {
    EndsAtFirst(name, value);
    assert (name + "=" + value)[|name|] == '=';
  }

  /** The abstract content: normalized names in order, with the last value set. */
  function Entry(pair: string, caseSensitive: bool): (string, string) {
    (Normalize(NameOf(pair), caseSensitive), ValueOf(pair))
  }

  function Entries(environ: seq<string>, caseSensitive: bool): (r: seq<(string, string)>)
    ensures |r| == |environ|
  {
    seq(|environ|, i requires 0 <= i < |environ| => Entry(environ[i], caseSensitive))
  }

  /** Distinct normalized names, and an index that says exactly where each one is. */
  ghost predicate Indexes(index: map<string, nat>, environ: seq<string>, caseSensitive: bool) {
    && (forall i :: 0 <= i < |environ| ==> '=' in environ[i])
    && (forall i :: 0 <= i < |environ| ==>
          Entry(environ[i], caseSensitive).0 in index && index[Entry(environ[i], caseSensitive).0] == i)
    && (forall n :: n in index ==> index[n] < |environ| && Entry(environ[index[n]], caseSensitive).0 == n)
  }

  /** What also a copy with the wrong case rule has: names without equals signs that stand for different pairs. */
  ghost predicate SoundIndex(index: map<string, nat>, environ: seq<string>) {
    && (forall i :: 0 <= i < |environ| ==> '=' in environ[i])
    && (forall n :: n in index ==> index[n] < |environ| && '=' !in n)
    && (forall m, n :: m in index && n in index && index[m] == index[n] ==> m == n)
  }

  /** A rebuilt index has the last position of every normalized name. */
  ghost predicate LastIndexes(index: map<string, nat>, environ: seq<string>, caseSensitive: bool) {
    && (forall i :: 0 <= i < |environ| ==>
          Entry(environ[i], caseSensitive).0 in index && i <= index[Entry(environ[i], caseSensitive).0])
    && (forall n :: n in index ==> index[n] < |environ| && Entry(environ[index[n]], caseSensitive).0 == n)
  }

  lemma LowerKeepsEquals(name: string, caseSensitive: bool)
    ensures '=' in name <==> '=' in Normalize(name, caseSensitive)
  {
    if !caseSensitive {
      if '=' in name {
        var i :| 0 <= i < |name| && name[i] == '=';
        assert Lower(name)[i] == '=';
      }
      if '=' in Lower(name) {
        var i :| 0 <= i < |name| && Lower(name)[i] == '=';
        assert name[i] == '=';
      }
    }
  }

  lemma EntryHasNoEquals(pair: string, caseSensitive: bool)
    ensures '=' !in Entry(pair, caseSensitive).0
  {
    LowerKeepsEquals(NameOf(pair), caseSensitive);
  }

  lemma LastIndexesIsSound(index: map<string, nat>, environ: seq<string>, caseSensitive: bool)
    requires LastIndexes(index, environ, caseSensitive) && forall i :: 0 <= i < |environ| ==> '=' in environ[i]
    ensures SoundIndex(index, environ)
    ensures Distinct(Entries(environ, caseSensitive)) ==> Indexes(index, environ, caseSensitive)
  {
    forall n | n in index ensures '=' !in n {
      EntryHasNoEquals(environ[index[n]], caseSensitive);
    }
    if Distinct(Entries(environ, caseSensitive)) {
      forall i | 0 <= i < |environ| ensures index[Entry(environ[i], caseSensitive).0] == i {
        var k := index[Entry(environ[i], caseSensitive).0];
        assert Entries(environ, caseSensitive)[k].0 == Entries(environ, caseSensitive)[i].0;
      }
    }
  }

  lemma IndexesIsSound(index: map<string, nat>, environ: seq<string>, caseSensitive: bool)
    requires Indexes(index, environ, caseSensitive)
    ensures SoundIndex(index, environ)
  {
    LastIndexesIsSound(index, environ, caseSensitive);
  }

  /** Lookup by position, for any index and case rule. */
  function LookupIn(index: map<string, nat>, environ: seq<string>, caseSensitive: bool, name: string): Option<string> {
    var n := Normalize(name, caseSensitive);
    if n in index && index[n] < |environ| then Some(ValueOf(environ[index[n]])) else None
  }

  /** The pairs after a Set of a normalized name. */
  function SetPair(index: map<string, nat>, environ: seq<string>, n: string, pair: string): seq<string> {
    if n in index && index[n] < |environ| then environ[index[n] := pair] else environ + [pair]
  }

  /** One lookup gives the value now, every other one what it gave before. */
  ghost predicate SetsOnly(index: map<string, nat>, environ: seq<string>, index': map<string, nat>,
                           environ': seq<string>,
                           caseSensitive: bool, name: string, value: string)
  {
    forall other ::
      LookupIn(index', environ', caseSensitive, other) ==
      if Normalize(other, caseSensitive) == Normalize(name, caseSensitive) then Some(value)
      else LookupIn(index, environ, caseSensitive, other)
  }

  lemma SoundAfterSet(index: map<string, nat>, environ: seq<string>, n: string, pair: string)
    requires SoundIndex(index, environ) && '=' !in n && '=' in pair
    ensures SoundIndex(if n in index then index else index[n := |environ|], SetPair(index, environ, n, pair))
  {}

  /** On every sound environment a Set changes this one lookup and no other. */
  lemma LookupAfterSet(index: map<string, nat>, environ: seq<string>, caseSensitive: bool, name: string, value: string)
    requires SoundIndex(index, environ) && '=' !in name
    ensures var n := Normalize(name, caseSensitive);
            var index' := if n in index then index else index[n := |environ|];
            var environ' := SetPair(index, environ, n, name + "=" + value);
            SoundIndex(index', environ') && SetsOnly(index, environ, index', environ', caseSensitive, name, value)
  {
    var n, pair := Normalize(name, caseSensitive), name + "=" + value;
    SplitsAtFirst(name, value);
    LowerKeepsEquals(name, caseSensitive);
    SoundAfterSet(index, environ, n, pair);
    var index', environ' := if n in index then index else index[n := |environ|], SetPair(index, environ, n, pair);
    forall other
      ensures LookupIn(index', environ', caseSensitive, other) ==
              if Normalize(other, caseSensitive) == n then Some(value)
              else LookupIn(index, environ, caseSensitive, other)
    {
      var m := Normalize(other, caseSensitive);
      assert m != n && m in index ==> index'[m] == index[m] && environ'[index[m]] == environ[index[m]];
    }
  }

  /** The value of the last pair with a normalized name, which is what a rebuilt index finds. */
  function FindLast(environ: seq<string>, caseSensitive: bool, n: string): Option<string> {
    if environ == [] then None
    else
      var last := environ[|environ| - 1];
      if Entry(last, caseSensitive).0 == n then Some(ValueOf(last))
      else FindLast(environ[..|environ| - 1], caseSensitive, n)
  }

  lemma {:induction false} FindLastAt(environ: seq<string>, caseSensitive: bool, n: string, i: nat)
    requires i < |environ| && Entry(environ[i], caseSensitive).0 == n
    requires forall k :: i < k < |environ| ==> Entry(environ[k], caseSensitive).0 != n
    ensures FindLast(environ, caseSensitive, n) == Some(ValueOf(environ[i]))
    decreases |environ|
  {
    if i < |environ| - 1 {
      FindLastAt(environ[..|environ| - 1], caseSensitive, n, i);
    }
  }

  lemma {:induction false} FindLastNothing(environ: seq<string>, caseSensitive: bool, n: string)
    requires forall k :: 0 <= k < |environ| ==> Entry(environ[k], caseSensitive).0 != n
    ensures FindLast(environ, caseSensitive, n) == None
    decreases |environ|
  {
    if environ != [] {
      FindLastNothing(environ[..|environ| - 1], caseSensitive, n);
    }
  }

  /** With a rebuilt index every lookup gives the last pair of its name. */
  lemma LookupAfterRebuild(index: map<string, nat>, environ: seq<string>, caseSensitive: bool, other: string)
    requires LastIndexes(index, environ, caseSensitive)
    ensures LookupIn(index, environ, caseSensitive, other) ==
            FindLast(environ, caseSensitive, Normalize(other, caseSensitive))
  {
    var n := Normalize(other, caseSensitive);
    if n in index {
      FindLastAt(environ, caseSensitive, n, index[n]);
    } else {
      FindLastNothing(environ, caseSensitive, n);
    }
  }

  /** Abstract lookup in a list of entries. */
  function Find(entries: seq<(string, string)>, name: string): Option<string> {
    if entries == [] then None
    else if entries[0].0 == name then Some(entries[0].1)
    else Find(entries[1..], name)
  }

  lemma {:induction false} FindAt(entries: seq<(string, string)>, name: string, i: nat)
    requires i < |entries| && entries[i].0 == name
    requires forall k :: 0 <= k < i ==> entries[k].0 != name
    ensures Find(entries, name) == Some(entries[i].1)
  {
    if i > 0 {
      FindAt(entries[1..], name, i - 1);
    }
  }

  lemma {:induction false} FindNothing(entries: seq<(string, string)>, name: string)
    requires forall k :: 0 <= k < |entries| ==> entries[k].0 != name
    ensures Find(entries, name) == None
  {
    if entries != [] {
      FindNothing(entries[1..], name);
    }
  }

  /** Construction keeps the first entry of every normalized name and skips what has no equals sign. */
  function FirstWins(pairs: seq<string>, caseSensitive: bool): seq<(string, string)> {
    if pairs == [] then []
    else
      var before, last := FirstWins(pairs[..|pairs| - 1], caseSensitive), pairs[|pairs| - 1];
      if '=' in last && Find(before, Entry(last, caseSensitive).0) == None then before + [Entry(last, caseSensitive)]
      else before
  }

  /** Updating in place, or appending a new name. */
  function Put(entries: seq<(string, string)>, name: string, value: string): seq<(string, string)> {
    if entries == [] then [(name, value)]
    else if entries[0].0 == name then [(name, value)] + entries[1..]
    else [entries[0]] + Put(entries[1..], name, value)
  }

  function Remove(entries: seq<(string, string)>, name: string): seq<(string, string)> {
    if entries == [] then []
    else if entries[0].0 == name then entries[1..]
    else [entries[0]] + Remove(entries[1..], name)
  }

  lemma {:induction false} PutAt(entries: seq<(string, string)>, name: string, value: string, i: nat)
    requires i <= |entries| && (forall k :: 0 <= k < i ==> entries[k].0 != name)
    requires i < |entries| ==> entries[i].0 == name
    ensures Put(entries, name, value) ==
            if i < |entries| then entries[i := (name, value)] else entries + [(name, value)]
  {
    if i > 0 {
      PutAt(entries[1..], name, value, i - 1);
    }
  }

  lemma {:induction false} RemoveAt(entries: seq<(string, string)>, name: string, i: nat)
    requires i <= |entries| && (forall k :: 0 <= k < i ==> entries[k].0 != name)
    requires i < |entries| ==> entries[i].0 == name
    ensures Remove(entries, name) == if i < |entries| then Without(entries, i) else entries
  {
    if i > 0 {
      RemoveAt(entries[1..], name, i - 1);
      if i < |entries| {
        WithoutBehind(entries, i);
      }
    }
  }

  lemma WithoutBehind<T>(s: seq<T>, i: nat)
    requires 0 < i < |s|
    ensures [s[0]] + Without(s[1..], i - 1) == Without(s, i)
  {
    assert s[..i] == [s[0]] + s[1..][..i - 1];
    assert s[1..][i..] == s[i + 1..];
  }

  predicate Distinct(entries: seq<(string, string)>) {
    forall i, j :: 0 <= i < j < |entries| ==> entries[i].0 != entries[j].0
  }

  /** The laws of a map: what a Set or an Unset does to each lookup. */
  lemma {:induction false} FindAfterPut(entries: seq<(string, string)>, name: string, value: string, other: string)
    ensures Find(Put(entries, name, value), other) == if other == name then Some(value) else Find(entries, other)
  {
    if entries != [] && entries[0].0 != name {
      FindAfterPut(entries[1..], name, value, other);
    }
  }

  lemma {:induction false} FindAfterRemove(entries: seq<(string, string)>, name: string, other: string)
    requires Distinct(entries)
    ensures Find(Remove(entries, name), other) == if other == name then None else Find(entries, other)
  {
    if entries != [] {
      if entries[0].0 == name {
        if other == name {
          FindNothing(entries[1..], name);
        }
      } else {
        FindAfterRemove(entries[1..], name, other);
      }
    }
  }

  /** Of several pairs for one name the first one counts. */
  lemma {:induction false} FirstEntryWins(pairs: seq<string>, caseSensitive: bool, i: nat)
    requires i < |pairs| && '=' in pairs[i]
    requires forall k ::
               0 <= k < i && '=' in pairs[k] ==> Entry(pairs[k], caseSensitive).0 != Entry(pairs[i], caseSensitive).0
    ensures Find(FirstWins(pairs, caseSensitive), Entry(pairs[i], caseSensitive).0) == Some(ValueOf(pairs[i]))
    decreases |pairs|
  {
    var n := |pairs| - 1;
    var before, e := FirstWins(pairs[..n], caseSensitive), Entry(pairs[i], caseSensitive);
    if i == n {
      NoEntryYet(pairs[..n], caseSensitive, e.0);
      FindAppended(before, e, e.0);
    } else {
      FirstEntryWins(pairs[..n], caseSensitive, i);
      FindAppended(before, Entry(pairs[n], caseSensitive), e.0);
    }
  }

  lemma {:induction false} FindAppended(entries: seq<(string, string)>, e: (string, string), name: string)
    ensures Find(entries + [e], name) == if Find(entries, name).Some? then Find(entries, name) else Find([e], name)
  {
    if entries == [] {
      assert entries + [e] == [e];
    } else {
      assert (entries + [e])[1..] == entries[1..] + [e];
      FindAppended(entries[1..], e, name);
    }
  }

  lemma {:induction false} NoEntryYet(pairs: seq<string>, caseSensitive: bool, name: string)
    requires forall k :: 0 <= k < |pairs| && '=' in pairs[k] ==> Entry(pairs[k], caseSensitive).0 != name
    ensures Find(FirstWins(pairs, caseSensitive), name) == None
  {
    if pairs != [] {
      var n := |pairs| - 1;
      NoEntryYet(pairs[..n], caseSensitive, name);
      FindAppended(FirstWins(pairs[..n], caseSensitive), Entry(pairs[n], caseSensitive), name);
    }
  }

  /** Under an exact index a lookup by position is the abstract lookup. */
  lemma IndexFinds(index: map<string, nat>, environ: seq<string>, caseSensitive: bool, name: string)
    requires Indexes(index, environ, caseSensitive)
    ensures var entries := Entries(environ, caseSensitive);
            && Distinct(entries)
            && (name in index ==>
                  Find(entries, name) == Some(ValueOf(environ[index[name]])) && entries[index[name]].0 == name &&
                  forall k :: 0 <= k < index[name] ==> entries[k].0 != name)
            && (name !in index ==>
                  Find(entries, name) == None && forall k :: 0 <= k < |entries| ==> entries[k].0 != name)
  {
    var entries := Entries(environ, caseSensitive);
    if name in index {
      FindAt(entries, name, index[name]);
    } else {
      FindNothing(entries, name);
    }
  }

  lemma LookupIsFind(index: map<string, nat>, environ: seq<string>, caseSensitive: bool, name: string)
    requires Indexes(index, environ, caseSensitive)
    ensures LookupIn(index, environ, caseSensitive, name) ==
            Find(Entries(environ, caseSensitive), Normalize(name, caseSensitive))
  {
    IndexFinds(index, environ, caseSensitive, Normalize(name, caseSensitive));
  }

  /** Appending a pair with a new name keeps the index exact. */
  lemma IndexAppends(index: map<string, nat>, environ: seq<string>, caseSensitive: bool, pair: string)
    requires Indexes(index, environ, caseSensitive) && '=' in pair && Entry(pair, caseSensitive).0 !in index
    ensures Indexes(index[Entry(pair, caseSensitive).0 := |environ|], environ + [pair], caseSensitive)
    ensures Entries(environ + [pair], caseSensitive) == Entries(environ, caseSensitive) + [Entry(pair, caseSensitive)]
  {}

  lemma PutNew(index: map<string, nat>, environ: seq<string>, caseSensitive: bool, name: string, value: string)
    requires Indexes(index, environ, caseSensitive) && '=' !in name && Normalize(name, caseSensitive) !in index
    ensures var n, pair := Normalize(name, caseSensitive), name + "=" + value;
            && Indexes(index[n := |environ|], environ + [pair], caseSensitive)
            && Entries(environ + [pair], caseSensitive) == Put(Entries(environ, caseSensitive), n, value)
  {
    var n := Normalize(name, caseSensitive);
    SplitsAtFirst(name, value);
    IndexFinds(index, environ, caseSensitive, n);
    IndexAppends(index, environ, caseSensitive, name + "=" + value);
    PutAt(Entries(environ, caseSensitive), n, value, |environ|);
  }

  lemma PutExisting(index: map<string, nat>, environ: seq<string>, caseSensitive: bool, name: string, value: string)
    requires Indexes(index, environ, caseSensitive) && Normalize(name, caseSensitive) in index
    ensures '=' !in name
    ensures var n := Normalize(name, caseSensitive); var environ' := environ[index[n] := name + "=" + value];
            && Indexes(index, environ', caseSensitive)
            && Entries(environ', caseSensitive) == Put(Entries(environ, caseSensitive), n, value)
  {
    var n := Normalize(name, caseSensitive);
    IndexesIsSound(index, environ, caseSensitive);
    LowerKeepsEquals(name, caseSensitive);
    SplitsAtFirst(name, value);
    IndexFinds(index, environ, caseSensitive, n);
    var entries := Entries(environ, caseSensitive);
    PutAt(entries, n, value, index[n]);
    var environ' := environ[index[n] := name + "=" + value];
    assert Entry(environ'[index[n]], caseSensitive) == (n, value);
    assert Entries(environ', caseSensitive) == entries[index[n] := (n, value)];
  }

  function Without<T>(s: seq<T>, at: nat): seq<T>
    requires at < |s|
  {
    s[..at] + s[at + 1..]
  }

  lemma WithoutKeepsPairs(environ: seq<string>, at: nat)
    requires at < |environ| && forall i :: 0 <= i < |environ| ==> '=' in environ[i]
    ensures var rest := Without(environ, at); forall i :: 0 <= i < |rest| ==> '=' in rest[i]
  {}

  lemma EntriesWithout(environ: seq<string>, at: nat, caseSensitive: bool)
    requires at < |environ|
    ensures var entries := Entries(environ, caseSensitive);
            Entries(Without(environ, at), caseSensitive) == Without(entries, at)
  {}

  lemma DistinctWithout(entries: seq<(string, string)>, at: nat)
    requires Distinct(entries) && at < |entries|
    ensures Distinct(Without(entries, at))
  {}

  lemma RemoveExisting(index: map<string, nat>, environ: seq<string>, caseSensitive: bool, n: string)
    requires Indexes(index, environ, caseSensitive) && n in index
    ensures var rest := Without(environ, index[n]);
            && Entries(rest, caseSensitive) == Remove(Entries(environ, caseSensitive), n)
            && Distinct(Entries(rest, caseSensitive))
  {
    IndexFinds(index, environ, caseSensitive, n);
    var entries, at := Entries(environ, caseSensitive), index[n];
    RemoveAt(entries, n, at);
    EntriesWithout(environ, at, caseSensitive);
    DistinctWithout(entries, at);
  }

  class Environ {
    var isCaseSensitive: bool
    var environ: seq<string>
    var index: map<string, nat>

    ghost predicate Valid()
      reads this
    {
      Indexes(index, environ, isCaseSensitive)
    }

    ghost function Content(): seq<(string, string)>
      reads this
    {
      Entries(environ, isCaseSensitive)
    }

    constructor (pairs: seq<string>, isCaseSensitive: bool)
      ensures Valid() && Sound() && this.isCaseSensitive == isCaseSensitive
      ensures Content() == FirstWins(pairs, isCaseSensitive)
    {
      this.isCaseSensitive := isCaseSensitive;
      environ, index := [], map[];
      new;
      for i := 0 to |pairs|
        invariant this.isCaseSensitive == isCaseSensitive && Valid()
        invariant Content() == FirstWins(pairs[..i], isCaseSensitive)
      {
        var pair := pairs[i];
        assert pairs[..i + 1][..i] == pairs[..i];
        var j := NameEnd(pair);
        if j < |pair| {
          var name2 := pair[..j];
          if !isCaseSensitive {
            name2 := Lower(name2);
          }
          IndexFinds(index, environ, isCaseSensitive, name2);
          if name2 !in index {
            IndexAppends(index, environ, isCaseSensitive, pair);
            index, environ := index[name2 := |environ|], environ + [pair];
          }
        }
      }
      assert pairs[..|pairs|] == pairs;
      IndexesIsSound(index, environ, isCaseSensitive);
    }

    /** Holds of copies too, whatever their case rule. */
    ghost predicate Sound()
      reads this
    {
      SoundIndex(index, environ)
    }

    /** `panicked` stands for the panic on a name with an equals sign. */
    method Lookup(name: string) returns (value: Option<string>, panicked: bool)
      requires Sound()
      ensures panicked <==> '=' in name
      ensures !panicked ==> value == LookupIn(index, environ, isCaseSensitive, name)
      ensures !panicked && Valid() ==> value == Find(Content(), Normalize(name, isCaseSensitive))
    {
      var name2 := name;
      if !isCaseSensitive {
        name2 := Lower(name2);
      }
      LowerKeepsEquals(name, isCaseSensitive);
      if Valid() {
        LookupIsFind(index, environ, isCaseSensitive, name);
      }
      if name2 in index {
        var pair := environ[index[name2]];
        return Some(pair[NameEnd(pair) + 1..]), false;
      }
      return None, '=' in name;
    }

    method Set(name: string, value: string) returns (panicked: bool)
      requires Sound()
      modifies this`environ, this`index
      ensures Sound()
      ensures panicked <==> '=' in name
      ensures panicked ==> environ == old(environ) && index == old(index)
      ensures !panicked ==>
              environ == SetPair(old(index), old(environ), Normalize(name, isCaseSensitive), name + "=" + value)
      ensures !panicked ==> SetsOnly(old(index), old(environ), index, environ, isCaseSensitive, name, value)
      ensures old(Valid()) ==> Valid()
      ensures old(Valid()) && !panicked ==> Content() == Put(old(Content()), Normalize(name, isCaseSensitive), value)
    {
      var name2 := name;
      if !isCaseSensitive {
        name2 := Lower(name2);
      }
      LowerKeepsEquals(name, isCaseSensitive);
      if '=' !in name {
        LookupAfterSet(index, environ, isCaseSensitive, name, value);
      }
      if name2 !in index {
        if '=' in name {
          return true;
        }
        if Valid() {
          PutNew(index, environ, isCaseSensitive, name, value);
        }
        index, environ := index[name2 := |environ|], environ + [name + "=" + value];
      } else {
        if Valid() {
          PutExisting(index, environ, isCaseSensitive, name, value);
        }
        environ := environ[index[name2] := name + "=" + value];
      }
      return false;
    }

    method Unset(name: string)
      requires Sound()
      modifies this`environ, this`index
      ensures Sound()
      ensures var n := Normalize(name, isCaseSensitive);
              if n in old(index) then
                && environ == Without(old(environ), old(index)[n]) && LastIndexes(index, environ, isCaseSensitive)
                && forall other :: LookupIn(index, environ, isCaseSensitive, other) ==
                                   FindLast(environ, isCaseSensitive, Normalize(other, isCaseSensitive))
              else environ == old(environ) && index == old(index)
      ensures old(Valid()) ==> Valid() && Content() == Remove(old(Content()), Normalize(name, isCaseSensitive))
    {
      var name2 := name;
      if !isCaseSensitive {
        name2 := Lower(name2);
      }
      if name2 !in index {
        if Valid() {
          IndexFinds(index, environ, isCaseSensitive, name2);
          RemoveAt(Content(), name2, |Content()|);
        }
        return;
      }
      if Valid() {
        RemoveExisting(index, environ, isCaseSensitive, name2);
      }
      RemovePair(index[name2]);
      forall other
        ensures LookupIn(index, environ, isCaseSensitive, other) ==
                FindLast(environ, isCaseSensitive, Normalize(other, isCaseSensitive))
      {
        LookupAfterRebuild(index, environ, isCaseSensitive, other);
      }
    }

    method RemovePair(at: nat)
      requires Sound() && at < |environ|
      modifies this`environ, this`index
      ensures Sound() && environ == Without(old(environ), at) && LastIndexes(index, environ, isCaseSensitive)
      ensures Distinct(Content()) ==> Valid()
    {
      WithoutKeepsPairs(environ, at);
      environ := Without(environ, at);
      ResetIndex();
    }

    /** The index is rebuilt from scratch. */
    method ResetIndex()
      requires forall i :: 0 <= i < |environ| ==> '=' in environ[i]
      modifies this`index
      ensures Sound() && LastIndexes(index, environ, isCaseSensitive)
      ensures Distinct(Content()) ==> Valid()
    {
      index := map[];
      for i := 0 to |environ|
        invariant LastIndexes(index, environ[..i], isCaseSensitive)
      {
        var pair := environ[i];
        var name2 := pair[..NameEnd(pair)];
        if !isCaseSensitive {
          name2 := Lower(name2);
        }
        assert environ[..i + 1] == environ[..i] + [pair];
        index := index[name2 := i];
      }
      assert environ[..|environ|] == environ;
      LastIndexesIsSound(index, environ, isCaseSensitive);
    }

    /** The copy as coded: it has its own array and index, but it always ignores case. */
    method Copy() returns (c: Environ)
      ensures fresh(c) && c.environ == environ && c.index == index && !c.isCaseSensitive
      ensures Sound() ==> c.Sound()
    {
      c := new Environ([], false);
      c.environ, c.index := environ, index;
    }
  }

  /** How a request gets its own environment: the base is not changed, and what is set can be looked up. */
  method CopyThenSet(base: Environ, name: string, value: string) returns (c: Environ, panicked: bool)
    requires base.Sound()
    ensures fresh(c) && c.Sound() && (panicked <==> '=' in name)
    ensures !panicked ==> SetsOnly(base.index, base.environ, c.index, c.environ, false, name, value)
  {
    c := base.Copy();
    panicked := c.Set(name, value);
  }

  predicate HasLetter(n: string) {
    exists i :: 0 <= i < |n| && ('a' <= n[i] <= 'z' || 'A' <= n[i] <= 'Z')
  }

  lemma UpperThenLower(n: string)
    ensures Lower(Upper(n)) == Lower(n) && Lower(Lower(n)) == Lower(n)
    ensures HasLetter(n) ==> Upper(n) != Lower(n)
  {
    if HasLetter(n) {
      var i :| 0 <= i < |n| && ('a' <= n[i] <= 'z' || 'A' <= n[i] <= 'Z');
      assert Upper(n)[i] != Lower(n)[i];
    }
  }

  lemma LetterlessIsFixed(m: string)
    requires !HasLetter(m) || !HasLetter(Lower(m))
    ensures Lower(m) == m
  {
    forall i | 0 <= i < |m| ensures Lower(m)[i] == m[i] {
      assert Lower(m)[i] == LowerChar(m[i]);
    }
  }

  predicate HasLetters(index: map<string, nat>) {
    exists n :: n in index && HasLetter(n)
  }

  /** Two spellings of one name. */
  predicate SameName(m: string, n: string) {
    Lower(m) == Lower(n)
  }

  /** Every spelling of a name is there, too, and has the same value. */
  ghost predicate CaseClosed(index: map<string, nat>, environ: seq<string>)
    requires forall n :: n in index ==> index[n] < |environ|
  {
    forall n, m ::
      SameName(m, n) && n in index ==> m in index && ValueOf(environ[index[m]]) == ValueOf(environ[index[n]])
  }

  /**
    When the copy of an environment answers like the original for every name: exactly if the original
    ignores case too, or it has all spellings of its names, with equal values.
   */
  lemma CopyIsFaithfulIff(index: map<string, nat>, environ: seq<string>, caseSensitive: bool)
    requires Indexes(index, environ, caseSensitive)
    ensures (forall name :: LookupIn(index, environ, false, name) == LookupIn(index, environ, caseSensitive, name))
            <==> (!caseSensitive || CaseClosed(index, environ))
  {
    if caseSensitive {
      if forall name :: LookupIn(index, environ, false, name) == LookupIn(index, environ, true, name) {
        forall n, m | SameName(m, n) && n in index
          ensures m in index && ValueOf(environ[index[m]]) == ValueOf(environ[index[n]])
        {
          assert LookupIn(index, environ, true, n) == LookupIn(index, environ, false, n);
          assert LookupIn(index, environ, true, m) == LookupIn(index, environ, false, m);
        }
      }
      if CaseClosed(index, environ) {
        forall name ensures LookupIn(index, environ, false, name) == LookupIn(index, environ, true, name) {
          LowerTwice(name);
          assert SameName(name, Lower(name)) && SameName(Lower(name), name);
        }
      }
    }
  }

  /** The search path as it is in every base environment: the copy does not find it. */
  lemma CopyLosesPath()
    ensures var index, environ := map["PATH" := 0], ["PATH=/bin"];
            && Indexes(index, environ, true)
            && LookupIn(index, environ, true, "PATH") == Some("/bin") && LookupIn(index, environ, false, "PATH") == None
  {
    assert "PATH=/bin" == "PATH" + "=" + "/bin";
    SplitsAtFirst("PATH", "/bin");
    assert Lower("PATH")[0] == 'p';
  }

  lemma OtherSpelling(n: string) returns (m: string)
    requires HasLetter(n)
    ensures SameName(m, n) && m != n
  {
    UpperThenLower(n);
    m := if Lower(n) == n then Upper(n) else Lower(n);
  }

  lemma LetterlessIsOnlySpelling(n: string, m: string)
    requires !HasLetter(n) && SameName(m, n)
    ensures m == n
  {
    LetterlessIsFixed(n);
    LettersStay(m);
    LetterlessIsFixed(m);
  }

  /** No two spellings of one name. */
  ghost predicate NoTwins(index: map<string, nat>) {
    forall m, n :: SameName(m, n) && m in index && n in index ==> m == n
  }

  lemma NotClosed(index: map<string, nat>, environ: seq<string>, n: string, m: string)
    requires forall k :: k in index ==> index[k] < |environ|
    requires n in index && m !in index && SameName(m, n)
    ensures !CaseClosed(index, environ)
  {}

  lemma LettersAreNotClosed(index: map<string, nat>, environ: seq<string>, n: string)
    requires forall k :: k in index ==> index[k] < |environ|
    requires NoTwins(index) && n in index && HasLetter(n)
    ensures !CaseClosed(index, environ)
  {
    var m := OtherSpelling(n);
    NotClosed(index, environ, n, m);
  }

  lemma LetterlessIsClosed(index: map<string, nat>, environ: seq<string>)
    requires forall k :: k in index ==> index[k] < |environ|
    requires !HasLetters(index)
    ensures CaseClosed(index, environ)
  {
    forall n, m | SameName(m, n) && n in index ensures m == n {
      assert !HasLetter(n);
      LetterlessIsOnlySpelling(n, m);
    }
  }

  /** Without two spellings of one name, that means names without letters. */
  lemma CaseClosedWithoutTwins(index: map<string, nat>, environ: seq<string>)
    requires forall k :: k in index ==> index[k] < |environ|
    requires NoTwins(index)
    ensures CaseClosed(index, environ) <==> !HasLetters(index)
  {
    if HasLetters(index) {
      var n :| n in index && HasLetter(n);
      LettersAreNotClosed(index, environ, n);
    } else {
      LetterlessIsClosed(index, environ);
    }
  }

  lemma LettersStay(m: string)
    ensures HasLetter(m) <==> HasLetter(Lower(m))
  {
    forall i | 0 <= i < |m|
      ensures ('a' <= m[i] <= 'z' || 'A' <= m[i] <= 'Z') <==> ('a' <= Lower(m)[i] <= 'z' || 'A' <= Lower(m)[i] <= 'Z')
    {
      assert Lower(m)[i] == LowerChar(m[i]);
    }
  }
}
