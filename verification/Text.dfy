/** String helpers of the Go standard library, on characters. */
module Text {
  import opened Basics


  function LowerChar(c: char): char {
    if 'A' <= c <= 'Z' then (c as int + 32) as char else c
  }

  /** strings.ToLower, for ASCII letters. */
  function Lower(s: string): (r: string)
    ensures |r| == |s|
  {
    seq(|s|, i requires 0 <= i < |s| => LowerChar(s[i]))
  }

  function UpperChar(c: char): char {
    if 'a' <= c <= 'z' then (c as int - 32) as char else c
  }

  function Upper(s: string): (r: string)
    ensures |r| == |s|
  {
    seq(|s|, i requires 0 <= i < |s| => UpperChar(s[i]))
  }

  /** Upper and lower case of a text are the same text in lower case. */
  lemma LowerOfUpper(s: string)
    ensures Lower(Upper(s)) == Lower(s)
  {}

  lemma LowerTwice(s: string)
    ensures Lower(Lower(s)) == Lower(s)
  {}

  /** unicode.IsSpace. */
  predicate IsSpace(c: char) {
    var n := c as int;
    9 <= n <= 13 || n == 0x20 || n == 0x85 || n == 0xA0 || n == 0x1680 || 0x2000 <= n <= 0x200a ||
    n == 0x2028 || n == 0x2029 || n == 0x202f || n == 0x205f || n == 0x3000
  }

  /** The spaces among the ASCII characters, and two that are not. */
  lemma SomeSpaces(c: char)
    ensures c < 128 as char ==> (IsSpace(c) <==> c in ['\t', '\n', 11 as char, 12 as char, '\r', ' '])
    ensures IsSpace(0xA0 as char) && IsSpace(0x3000 as char)
  {}

  predicate IsASCII(s: string) {
    forall i :: 0 <= i < |s| ==> s[i] < 128 as char
  }

  /** Nothing to trim at either end. */
  predicate Trimmed(s: string) {
    s != "" ==> !IsSpace(s[0]) && !IsSpace(s[|s| - 1])
  }

  /** strings.TrimSpace: the result is what is left between the outermost non-spaces. */
  function Trim(s: string): (r: string)
    ensures Trimmed(r) && (Trimmed(s) ==> r == s)
    ensures forall i :: 0 <= i < |r| ==> r[i] in s
    decreases |s|
  {
    if s == "" then s
    else if IsSpace(s[0]) then Trim(s[1..])
    else if IsSpace(s[|s| - 1]) then Trim(s[..|s| - 1])
    else s
  }

  predicate AllSpaces(s: string) {
    forall i :: 0 <= i < |s| ==> IsSpace(s[i])
  }

  lemma TrimFront(s: string, x: string)
    requires s != "" && IsSpace(s[0]) && x == s[1..]
    ensures Trim(s) == Trim(x)
  {}

  lemma TrimBack(s: string, x: string)
    requires s != "" && IsSpace(s[|s| - 1]) && x == s[..|s| - 1]
    ensures Trim(s) == Trim(x)
    decreases |s|
  {
    if IsSpace(s[0]) && |s| > 1 {
      var rest := s[1..];
      TrimFront(s, rest);
      TrimFront(x, x[1..]);
      assert rest[..|rest| - 1] == x[1..];
      TrimBack(rest, x[1..]);
    }
  }

  lemma FirstAndRest<T>(s: seq<T>)
    requires s != []
    ensures s == [s[0]] + s[1..]
  {}

  lemma FrontAndLast<T>(s: seq<T>)
    requires s != []
    ensures s == s[..|s| - 1] + [s[|s| - 1]]
  {}

  lemma Enclose(c: string, a: string, x: string, b: string)
    ensures c + (a + x + b) == c + a + x + b
  {
    Associative(c, a + x, b);
    Associative(c, a, x);
  }

  lemma CutFront(s: string, a: string, b: string)
    requires s != "" && IsSpace(s[0]) && s[1..] == a + Trim(s[1..]) + b && AllSpaces(a)
    ensures s == [s[0]] + a + Trim(s) + b && AllSpaces([s[0]] + a)
  {
    TrimFront(s, s[1..]);
    FirstAndRest(s);
    Enclose([s[0]], a, Trim(s), b);
  }

  lemma CutBack(s: string, a: string, b: string)
    requires s != "" && IsSpace(s[|s| - 1]) && s[..|s| - 1] == a + Trim(s[..|s| - 1]) + b && AllSpaces(b)
    ensures s == a + Trim(s) + (b + [s[|s| - 1]]) && AllSpaces(b + [s[|s| - 1]])
  {
    TrimBack(s, s[..|s| - 1]);
    FrontAndLast(s);
    Associative(a + Trim(s), b, [s[|s| - 1]]);
  }

  /** What is taken off is all space. */
  lemma {:induction false} TrimCuts(s: string) returns (a: string, b: string)
    ensures s == a + Trim(s) + b && AllSpaces(a) && AllSpaces(b)
    decreases |s|
  {
    if s == "" || (!IsSpace(s[0]) && !IsSpace(s[|s| - 1])) {
      a, b := "", "";
    } else if IsSpace(s[0]) {
      a, b := TrimCuts(s[1..]);
      CutFront(s, a, b);
      a := [s[0]] + a;
    } else {
      a, b := TrimCuts(s[..|s| - 1]);
      CutBack(s, a, b);
      b := b + [s[|s| - 1]];
    }
  }

  lemma {:induction false} TrimBehind(x: string, b: string)
    requires AllSpaces(b)
    ensures Trim(x + b) == Trim(x)
    decreases |b|
  {
    if b == "" {
      assert x + b == x;
    } else {
      var front := b[..|b| - 1];
      assert (x + b)[..|x + b| - 1] == x + front;
      TrimBack(x + b, x + front);
      TrimBehind(x, front);
    }
  }

  lemma {:induction false} TrimBefore(a: string, x: string)
    requires AllSpaces(a)
    ensures Trim(a + x) == Trim(x)
    decreases |a|
  {
    if a == "" {
      assert a + x == x;
    } else {
      assert (a + x)[1..] == a[1..] + x;
      TrimFront(a + x, a[1..] + x);
      TrimBefore(a[1..], x);
    }
  }

  /** Spaces around a text do not matter. */
  lemma TrimPadded(a: string, x: string, b: string)
    requires AllSpaces(a) && AllSpaces(b)
    ensures Trim(a + x + b) == Trim(x)
  {
    TrimBehind(a + x, b);
    TrimBefore(a, x);
  }

  lemma {:induction false} TrimOfUpper(s: string)
    ensures Trim(Upper(s)) == Upper(Trim(s))
    decreases |s|
  {
    if s != "" {
      UpperParts(s);
      if IsSpace(s[0]) {
        TrimFront(Upper(s), Upper(s[1..]));
        TrimOfUpper(s[1..]);
      } else if IsSpace(s[|s| - 1]) {
        TrimBack(Upper(s), Upper(s[..|s| - 1]));
        TrimOfUpper(s[..|s| - 1]);
      }
    }
  }

  lemma UpperParts(s: string)
    requires s != ""
    ensures Upper(s)[1..] == Upper(s[1..]) && Upper(s)[..|s| - 1] == Upper(s[..|s| - 1])
    ensures IsSpace(Upper(s)[0]) <==> IsSpace(s[0])
    ensures IsSpace(Upper(s)[|s| - 1]) <==> IsSpace(s[|s| - 1])
  {}

  function HasPrefix(s: string, prefix: string): bool {
    |prefix| <= |s| && s[..|prefix|] == prefix
  }

  function HasSuffix(s: string, suffix: string): bool {
    |suffix| <= |s| && s[|s| - |suffix|..] == suffix
  }

  lemma HasSuffixIff(s: string, suffix: string)
    ensures HasSuffix(s, suffix) <==> exists front :: s == front + suffix
  {
    if HasSuffix(s, suffix) {
      assert s == s[..|s| - |suffix|] + suffix;
    }
  }

  lemma HasPrefixIff(s: string, prefix: string)
    ensures HasPrefix(s, prefix) <==> exists rest :: s == prefix + rest
  {
    if HasPrefix(s, prefix) {
      assert s == prefix + s[|prefix|..];
    }
  }

  /** Position of the last c, or -1. */
  function LastIndex(s: string, c: char): (i: int)
    ensures -1 <= i < |s|
  {
    if s == "" then -1
    else if s[|s| - 1] == c then |s| - 1
    else LastIndex(s[..|s| - 1], c)
  }

  /** Position of the first c, or the length. */
  function Index(s: string, c: char): (i: nat)
    ensures i <= |s| && (i < |s| <==> c in s)
    ensures i < |s| ==> s[i] == c && c !in s[..i]
  {
    if s == "" || s[0] == c then 0 else
      assert forall j :: 0 <= j <= |s[1..]| ==> s[1..][..j] == s[1..j + 1];
      1 + Index(s[1..], c)
  }

  /** strings.Split by a comma. */
  function Split(s: string): (r: seq<string>)
    ensures r != [] && forall i :: 0 <= i < |r| ==> ',' !in r[i]
    decreases |s|
  {
    var i := Index(s, ',');
    if i == |s| then [s] else [s[..i]] + Split(s[i + 1..])
  }

  /** The elements with a comma between any two of them. */
  function Commas(elems: seq<string>): string
    requires elems != []
  {
    if |elems| == 1 then elems[0] else Commas(elems[..|elems| - 1]) + "," + elems[|elems| - 1]
  }

  /** How the formatter adds an entry: a comma goes in front unless nothing was written yet. */
  function Append(text: string, entry: string): string {
    if text == "" then entry else text + "," + entry
  }

  function Joined(entries: seq<string>): string {
    if entries == [] then "" else Append(Joined(entries[..|entries| - 1]), entries[|entries| - 1])
  }

  lemma SplitAt(s: string, i: nat)
    requires i < |s| && s[i] == ',' && ',' !in s[..i]
    ensures Split(s) == [s[..i]] + Split(s[i + 1..])
  {
    IndexIs(s, i);
  }

  lemma SplitOnce(text: string, entry: string)
    requires ',' !in text && ',' !in entry
    ensures Split(text + "," + entry) == [text, entry]
  {
    var s := text + "," + entry;
    assert s[..|text|] == text && s[|text| + 1..] == entry;
    SplitAt(s, |text|);
    IndexNone(entry);
  }

  lemma {:induction false} SplitAppends(text: string, entry: string)
    requires ',' !in entry
    ensures Split(text + "," + entry) == Split(text) + [entry]
    decreases |text|
  {
    if ',' !in text {
      IndexNone(text);
      SplitOnce(text, entry);
    } else {
      var i := Index(text, ',');
      var front, rest := text[..i], text[i + 1..];
      var s := text + "," + entry;
      assert s[..i] == front && s[i + 1..] == rest + "," + entry;
      calc {
        Split(s);
        { SplitAt(s, i); }
        [front] + Split(rest + "," + entry);
        { SplitAppends(rest, entry); }
        [front] + (Split(rest) + [entry]);
        ([front] + Split(rest)) + [entry];
        { SplitAt(text, i); }
        Split(text) + [entry];
      }
    }
  }

  lemma {:induction false} IndexIs(s: string, i: nat)
    requires i < |s| && s[i] == ',' && ',' !in s[..i]
    ensures Index(s, ',') == i
  {
    if i > 0 {
      assert s[..i][0] == s[0] && s[1..][..i - 1] == s[..i][1..];
      IndexIs(s[1..], i - 1);
    }
  }

  lemma IndexNone(s: string)
    requires ',' !in s
    ensures Split(s) == [s]
  {}

  /** Splitting a formatted list gives its entries back. */
  lemma {:induction false} SplitJoined(entries: seq<string>)
    requires forall i :: 0 <= i < |entries| ==> entries[i] != "" && ',' !in entries[i]
    ensures entries != [] ==> Joined(entries) != ""
    ensures Split(Joined(entries)) == if entries == [] then [""] else entries
  {
    if entries != [] {
      var front, last := entries[..|entries| - 1], entries[|entries| - 1];
      SplitJoined(front);
      if front == [] {
        IndexNone(last);
      } else {
        SplitAppends(Joined(front), last);
        assert entries == front + [last];
      }
    }
  }

  /** Split is the inverse of putting commas between elements, empty ones included. */
  lemma {:induction false} SplitCommas(elems: seq<string>)
    requires elems != [] && forall i :: 0 <= i < |elems| ==> ',' !in elems[i]
    ensures Split(Commas(elems)) == elems
  {
    if |elems| == 1 {
      IndexNone(elems[0]);
    } else {
      var front, last := elems[..|elems| - 1], elems[|elems| - 1];
      FrontAndLast(elems);
      CommasLast(elems, front, last);
      SplitCommas(front);
      SplitAppends(Commas(front), last);
    }
  }

  lemma CommasLast(elems: seq<string>, front: seq<string>, last: string)
    requires |elems| > 1 && front == elems[..|elems| - 1] && last == elems[|elems| - 1]
    ensures Commas(elems) == Commas(front) + "," + last
  {}

  lemma {:induction false} CommasBehind(x: string, elems: seq<string>)
    requires elems != []
    ensures Commas([x] + elems) == x + "," + Commas(elems)
  {
    var all, n := [x] + elems, |elems| - 1;
    if n == 0 {
      assert all[..1] == [x];
    } else {
      assert all[..n + 1] == [x] + elems[..n];
      CommasBehind(x, elems[..n]);
    }
  }

  lemma AroundComma(s: string, i: nat)
    requires i < |s| && s[i] == ','
    ensures s == s[..i] + "," + s[i + 1..]
  {}

  lemma {:induction false} CommasOfSplit(s: string)
    ensures Commas(Split(s)) == s
    decreases |s|
  {
    var i := Index(s, ',');
    if i < |s| {
      CommasOfSplit(s[i + 1..]);
      CommasBehind(s[..i], Split(s[i + 1..]));
      AroundComma(s, i);
    }
  }
}
