/** What the text of a bypass list means: spaces, letter case, ports, and which lists are errors. */
module BypassText {
  import opened Basics
  import opened BypassMeaning
  import opened HttpProxy
  import opened Text

  // ---------- spaces and letter case ----------

  /** Spaces around an element and upper-case letters in it do not matter. */
  lemma NormOfPadded(a: string, x: string, b: string)
    requires AllSpaces(a) && AllSpaces(b)
    ensures Norm(a + x + b) == Norm(x) && Norm(Upper(x)) == Norm(x)
  {
    TrimPadded(a, x, b);
    TrimOfUpper(x);
    LowerOfUpper(Trim(x));
  }

  /** The same elements but for spaces and letter case. */
  ghost predicate SameElements(elems: seq<string>, others: seq<string>) {
    |elems| == |others| && forall i :: 0 <= i < |elems| ==> Norm(elems[i]) == Norm(others[i])
  }

  lemma {:induction false} SameElementsTakeAlike(net: Net, elems: seq<string>, others: seq<string>)
    requires SameElements(elems, others)
    ensures TakeAll(net, elems) == TakeAll(net, others)
  {
    if elems != [] {
      var n := |elems| - 1;
      SameElementsTakeAlike(net, elems[..n], others[..n]);
      assert Norm(elems[n]) == Norm(others[n]);
    }
  }

  predicate NoCommas(elems: seq<string>) {
    forall i :: 0 <= i < |elems| ==> ',' !in elems[i]
  }

  /** Two lists whose elements are the same but for spaces and letter case are parsed alike. */
  lemma SameElementsParseAlike(net: Net, elems: seq<string>, others: seq<string>)
    requires elems != [] && SameElements(elems, others) && NoCommas(elems) && NoCommas(others)
    ensures Parse(net, Commas(elems)) == Parse(net, Commas(others))
  {
    SplitCommas(elems);
    SplitCommas(others);
    SameElementsTakeAlike(net, elems, others);
  }

  /** Hence spaces around the elements of a list do not change what is parsed, nor any decision. */
  lemma PaddingDoesNotMatter(net: Net, elems: seq<string>, before: seq<string>, after: seq<string>)
    requires elems != [] && NoCommas(elems) && |before| == |elems| && |after| == |elems|
    requires forall i :: 0 <= i < |elems| ==> AllSpaces(before[i]) && AllSpaces(after[i])
    ensures var padded := seq(|elems|, i requires 0 <= i < |elems| => before[i] + elems[i] + after[i]);
            Parse(net, Commas(padded)) == Parse(net, Commas(elems))
  {
    var padded := seq(|elems|, i requires 0 <= i < |elems| => before[i] + elems[i] + after[i]);
    forall i | 0 <= i < |elems| ensures Norm(padded[i]) == Norm(elems[i]) && ',' !in padded[i] {
      NormOfPadded(before[i], elems[i], after[i]);
      SpacesHaveNoComma(before[i]);
      SpacesHaveNoComma(after[i]);
    }
    SameElementsParseAlike(net, padded, elems);
  }

  lemma SpacesHaveNoComma(a: string)
    requires AllSpaces(a)
    ensures ',' !in a
  {
    assert !IsSpace(',');
  }

  // ---------- hosts with ports ----------

  /** No character that has a meaning in a host with a port. */
  predicate Plain(s: string) {
    ':' !in s && '[' !in s && ']' !in s
  }

  lemma {:induction false} LastIndexIs(s: string, c: char, i: nat)
    requires i < |s| && s[i] == c && c !in s[i + 1..]
    ensures LastIndex(s, c) == i
    decreases |s|
  {
    var n := |s| - 1;
    if i < n {
      assert s[i + 1..][n - i - 1] == s[n];
      assert s[..n][i + 1..] == s[i + 1..][..n - i - 1];
      LastIndexIs(s[..n], c, i);
    }
  }

  lemma {:induction false} IndexOf(s: string, c: char, i: nat)
    requires i < |s| && s[i] == c && c !in s[..i]
    ensures Index(s, c) == i
  {
    if i > 0 {
      assert s[..i][0] == s[0] && s[1..][..i - 1] == s[..i][1..];
      IndexOf(s[1..], c, i - 1);
    }
  }

  lemma JoinedParts(h: string, p: string, s: string)
    requires s == h + ":" + p
    ensures |h| < |s| && s[|h|] == ':' && s[..|h|] == h && s[|h| + 1..] == p
  {}

  /** A host and a port with a colon between them. */
  lemma HostPortOfPlain(h: string, p: string)
    requires Plain(h) && Plain(p)
    ensures HostPort(h + ":" + p) == Some((h, p))
  {
    var s := h + ":" + p;
    JoinedParts(h, p, s);
    LastIndexIs(s, ':', |h|);
    assert s[0] != '[' by {
      if h != "" {
        assert s[0] == h[0] && h[0] in h;
      }
    }
  }

  lemma BracketParts(h: string, p: string, s: string)
    requires s == "[" + h + "]:" + p
    ensures |s| == |h| + |p| + 3 && s[0] == '[' && s[|h| + 1] == ']' && s[|h| + 2] == ':'
    ensures s[..|h| + 1] == "[" + h && s[1..|h| + 1] == h && s[|h| + 2..] == ":" + p && s[|h| + 3..] == p
    ensures s[1..] == h + "]:" + p
  {}

  /** A host in brackets, which may have colons, and a port. */
  lemma HostPortOfBrackets(h: string, p: string)
    requires '[' !in h && ']' !in h && Plain(p)
    ensures HostPort("[" + h + "]:" + p) == Some((h, p))
  {
    var s := "[" + h + "]:" + p;
    BracketParts(h, p, s);
    LastIndexIs(s, ':', |h| + 2);
    IndexOf(s, ']', |h| + 1);
    assert '[' !in s[1..] && ']' !in s[|h| + 2..];
  }

  /** There is no other way to be one. */
  lemma HostPortIs(s: string)
    requires HostPort(s).Some?
    ensures var (h, p) := HostPort(s).value;
            || (Plain(h) && Plain(p) && s == h + ":" + p)
            || ('[' !in h && ']' !in h && Plain(p) && s == "[" + h + "]:" + p)
  {
    var i := LastIndex(s, ':');
    LastIndexHits(s, ':');
    LastIndexIsLast(s, ':');
    var (h, p) := HostPort(s).value;
    if s[0] == '[' {
      var end := Index(s, ']');
      InBrackets(s, end, i);
    } else {
      assert s == s[..i] + ":" + s[i + 1..];
    }
  }

  lemma InBrackets(s: string, end: nat, i: nat)
    requires 0 < end < i < |s| && i == end + 1 && s[0] == '[' && s[end] == ']' && s[i] == ':'
    requires ']' !in s[..end] && '[' !in s[1..] && ']' !in s[end + 1..] && ':' !in s[i + 1..]
    ensures s == "[" + s[1..end] + "]:" + s[i + 1..] && '[' !in s[1..end] && ']' !in s[1..end] && Plain(s[i + 1..])
  {
    assert s[1..end] == s[..end][1..] && s[1..end] == s[1..][..end - 1];
    NotInTail(s, '[', 1, i + 1);
    NotInTail(s, ']', end + 1, i + 1);
  }

  lemma NotInTail(s: string, c: char, i: nat, j: nat)
    requires i <= j <= |s| && c !in s[i..]
    ensures c !in s[j..]
  {
    assert s[j..] == s[i..][j - i..];
  }

  lemma {:induction false} LastIndexIsLast(s: string, c: char)
    ensures LastIndex(s, c) >= 0 ==> c !in s[LastIndex(s, c) + 1..]
  {
    if s != "" && s[|s| - 1] != c {
      LastIndexIsLast(s[..|s| - 1], c);
      var i := LastIndex(s, c);
      if i >= 0 {
        assert s[i + 1..] == s[..|s| - 1][i + 1..] + [s[|s| - 1]];
      }
    }
  }

  // ---------- ports ----------

  function Decimal(n: nat): (s: string)
    ensures s != ""
  {
    if n < 10 then [('0' as int + n) as char] else Decimal(n / 10) + [('0' as int + n % 10) as char]
  }

  predicate AllDigits(s: string) {
    forall i :: 0 <= i < |s| ==> '0' <= s[i] <= '9'
  }

  lemma {:induction false} DigitsOfDecimal(n: nat)
    ensures Digits(Decimal(n)) == Some(n) && AllDigits(Decimal(n))
  {
    if n >= 10 {
      DigitsOfDecimal(n / 10);
      var s := Decimal(n);
      assert s[..|s| - 1] == Decimal(n / 10);
    } else {
      assert Decimal(n)[..0] == "";
    }
  }

  lemma {:induction false} DigitsIff(s: string)
    ensures Digits(s).Some? <==> AllDigits(s)
  {
    if s != "" {
      DigitsIff(s[..|s| - 1]);
    }
  }

  /** Every port number is read back, and larger numbers are errors. */
  lemma ParseDecimal(n: nat)
    ensures ParseInt32(Decimal(n)) == if n <= 0x7fff_ffff then Some(n) else None
  {
    DigitsOfDecimal(n);
    assert '0' <= Decimal(n)[0] <= '9';
  }

  /** What is read as a positive number has digits only, behind at most a plus sign. */
  lemma PositiveIsDigits(s: string)
    requires ParseInt32(s).Some? && ParseInt32(s).value > 0
    ensures var digits := if s[0] == '+' then s[1..] else s;
            digits != "" && AllDigits(digits) && Digits(digits) == Some(ParseInt32(s).value)
  {
    DigitsIff(if s[0] == '-' || s[0] == '+' then s[1..] else s);
  }

  /** A host name with a port, padded or not, is the pattern of that name for that port. */
  lemma NameWithPort(a: string, h: string, n: nat, b: string)
    requires AllSpaces(a) && AllSpaces(b) && h != "" && Plain(h) && Trimmed(h) && Lower(h) == h && 0 < n <= 0x7fff_ffff
    ensures PatternOf(a + (h + ":" + Decimal(n)) + b) == (h, n)
  {
    var s := h + ":" + Decimal(n);
    NormOfPadded(a, s, b);
    DigitsOfDecimal(n);
    DigitsArePlain(Decimal(n));
    NormOfHostPort(h, Decimal(n), s);
    HostPortOfPlain(h, Decimal(n));
    ParseDecimal(n);
    assert |h| >= 2 ==> h[0] in h;
  }

  lemma DigitsArePlain(d: string)
    requires AllDigits(d)
    ensures Plain(d) && Lower(d) == d
  {
    assert forall i :: 0 <= i < |d| ==> d[i] != ':' && d[i] != '[' && d[i] != ']';
  }

  lemma NormOfHostPort(h: string, d: string, s: string)
    requires h != "" && d != "" && AllDigits(d) && Lower(h) == h && Trimmed(h) && s == h + ":" + d
    ensures Norm(s) == s
  {
    assert s[0] == h[0] && s[|s| - 1] == d[|d| - 1];
    assert Trimmed(s);
    forall i | 0 <= i < |s| ensures Lower(s)[i] == s[i] {
      if i < |h| {
        assert Lower(h)[i] == h[i] && s[i] == h[i];
      } else if i > |h| {
        assert s[i] == d[i - |h| - 1];
      }
    }
  }

  // ---------- errors ----------

  predicate IsPort(s: string) {
    ParseInt32(s).Some? && ParseInt32(s).value > 0
  }

  /** An element that is an error: a host without a name, a port that is none, or a name that is not ASCII. */
  predicate Malformed(net: Net, elem: string) {
    && Norm(elem) != "" && Norm(elem) != "*" && net.parseCIDR(Norm(elem)) == None
    && (|| PatternOf(elem).0 == ""
        || (HostPort(Norm(elem)).Some? && !IsPort(HostPort(Norm(elem)).value.1))
        || (net.parseIP(PatternOf(elem).0) == None && exists c :: c in PatternOf(elem).0 && c as int > 0x7f))
  }

  lemma BadNorm(net: Net, norm: string)
    ensures ClassifyNorm(net, norm) == Bad <==>
            && norm != "" && norm != "*" && net.parseCIDR(norm) == None
            && (|| NormPattern(norm).0 == ""
                || (HostPort(norm).Some? && !IsPort(HostPort(norm).value.1))
                || (net.parseIP(NormPattern(norm).0) == None && !IsASCII(NormPattern(norm).0)))
  {}

  lemma AsciiIff(s: string)
    ensures !IsASCII(s) <==> exists c :: c in s && c as int > 0x7f
  {
    if i :| 0 <= i < |s| && s[i] as int > 0x7f {
      assert s[i] in s;
    }
  }

  /** A list is an error exactly if one of its elements is. */
  lemma ParseFailsIff(net: Net, s: string)
    ensures Parse(net, s) == None <==> exists elem :: elem in Split(s) && Malformed(net, elem)
  {
    ParserCollects(net, Split(s));
    forall elem ensures Classify(net, elem) == Bad <==> Malformed(net, elem) {
      BadNorm(net, Norm(elem));
      AsciiIff(PatternOf(elem).0);
    }
  }

  // ---------- the formatted text ----------

  lemma LoopbackNamesAre()
    ensures LOOPBACK_NAMES == [".localhost", "localhost", "127.0.0.1", "::1"]
  {
    assert DOT_LOCALHOST == ".localhost";
  }

  /**
    The formatted text lists the kept domains, then the kept addresses, then, if they are asked for, the names of
    the local host.
   */
  lemma FormattedEntries(net: Net, s: string, n: NoProxy, addLoopback: bool, text: string)
    requires Lawful(net) && Parse(net, s) == Some(n) && !n.isAsterisk && Format(net, n, addLoopback) == Some(text)
    ensures var kept := DomainEntries(n.domains, addLoopback) + IpEntries(net, n.ips, addLoopback);
            if addLoopback then Split(text) == kept + LOOPBACK_NAMES
            else Split(text) == if kept == [] then [""] else kept
  {
    var entries := Entries(net, n, addLoopback);
    EntriesAreHosts(net, s, n, addLoopback);
    assert forall i :: 0 <= i < |entries| ==> entries[i] in entries;
    SplitJoined(entries);
    EntriesParts(net, n, addLoopback);
  }

  lemma EntriesParts(net: Net, n: NoProxy, addLoopback: bool)
    ensures var kept := DomainEntries(n.domains, addLoopback) + IpEntries(net, n.ips, addLoopback);
            && Entries(net, n, addLoopback) == (if addLoopback then kept + LOOPBACK_NAMES else kept)
            && kept + LOOPBACK_NAMES != []
  {}
}
