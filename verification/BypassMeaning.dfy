/** Formatting a bypass list for libcurl and parsing the text again does not change any decision. */
module BypassMeaning {
  import opened Basics
  import opened HttpProxy
  import opened Text

  /** Some element of the list is classified as e. */
  ghost predicate Yields(net: Net, elems: seq<string>, e: Element) {
    exists x :: x in elems && Classify(net, x) == e
  }

  lemma YieldsLast(net: Net, elems: seq<string>, e: Element)
    requires elems != []
    ensures Yields(net, elems, e) <==> Yields(net, elems[..|elems| - 1], e) || Classify(net, elems[|elems| - 1]) == e
  {
    var front, last := elems[..|elems| - 1], elems[|elems| - 1];
    assert elems == front + [last];
    assert forall x :: x in elems <==> x in front || x == last;
  }

  /** The parser has exactly what the elements yield. */
  ghost predicate Collects(net: Net, elems: seq<string>, p: Parser) {
    && (forall d :: d in p.n.domains <==> Yields(net, elems, DomainElement(d)))
    && (forall i :: i in p.n.ips <==> Yields(net, elems, IpElement(i)))
    && (forall c :: c in p.n.cidrs <==> Yields(net, elems, CidrElement(c)))
    && (p.n.isAsterisk <==> Yields(net, elems, Asterisk))
    && (p.errors > 0 <==> Yields(net, elems, Bad))
  }

  lemma {:induction false} ParserCollects(net: Net, elems: seq<string>)
    ensures Collects(net, elems, TakeAll(net, elems))
  {
    if elems != [] {
      var front, e := elems[..|elems| - 1], Classify(net, elems[|elems| - 1]);
      ParserCollects(net, front);
      CollectsOneMore(net, elems, TakeAll(net, front), e);
    }
  }

  lemma CollectsOneMore(net: Net, elems: seq<string>, p: Parser, e: Element)
    requires elems != [] && e == Classify(net, elems[|elems| - 1]) && Collects(net, elems[..|elems| - 1], p)
    ensures Collects(net, elems, Take(p, e))
  {
    forall x { YieldsLast(net, elems, x); }
  }

  lemma FirstCidrIsYielded(net: Net, elems: seq<string>)
    ensures var cidrs := TakeAll(net, elems).n.cidrs; cidrs != [] ==> Yields(net, elems, CidrElement(cidrs[0]))
  {
    ParserCollects(net, elems);
    var cidrs := TakeAll(net, elems).n.cidrs;
    assert cidrs != [] ==> cidrs[0] in cidrs;
  }

  lemma {:induction false} DomainEntriesAre(ds: seq<DomainPort>, addLoopback: bool, x: string)
    ensures x in DomainEntries(ds, addLoopback) <==>
            exists d :: d in ds && KeepDomain(d, addLoopback) && DomainText(d) == x
  {
    if ds != [] {
      var front, last := ds[..|ds| - 1], ds[|ds| - 1];
      assert ds == front + [last];
      DomainEntriesAre(front, addLoopback, x);
    }
  }

  lemma {:induction false} IpEntriesAre(net: Net, addrs: seq<IpPort>, addLoopback: bool, x: string)
    ensures x in IpEntries(net, addrs, addLoopback) <==>
            exists i :: i in addrs && KeepIp(net, i, addLoopback) && net.printIP(i.ip) == x
  {
    if addrs != [] {
      var front, last := addrs[..|addrs| - 1], addrs[|addrs| - 1];
      assert addrs == front + [last];
      IpEntriesAre(net, front, addLoopback, x);
    }
  }

  /** An entry that the parser reads as one element e when it stands alone in the list. */
  predicate Reads(net: Net, x: string, e: Element) {
    x != "" && ',' !in x && Classify(net, x) == e
  }

  lemma LowerKeepsTrimmed(s: string)
    requires Trimmed(s)
    ensures Trimmed(Lower(s))
  {}

  lemma LowerTrimHasNoComma(elem: string)
    requires ',' !in elem
    ensures ',' !in Lower(Trim(elem))
  {
    var r := Trim(elem);
    forall i | 0 <= i < |r| ensures Lower(r)[i] != ',' {
      assert r[i] in elem;
      assert Lower(r)[i] == LowerChar(r[i]);
    }
  }

  /** Taking the star off "*.example" does not turn the text into a host with a port. */
  lemma StarDoesNotMatter(s: string)
    requires HasPrefix(s, "*.") && HostPort(s) == None
    ensures HostPort(s[1..]) == None
  {
    assert s[0] == '*' && s[1] == '.';
    var t := s[1..];
    assert t[0] == '.';
    LastIndexHits(s, ':');
    LastIndexHits(t, ':');
    LastOfTail(s, ':');
    var i := LastIndex(t, ':');
    if i >= 0 {
      assert LastIndex(s, ':') == i + 1;
      assert s[..i + 1] == ['*'] + t[..i];
      assert s == ['*'] + t;
    }
  }

  lemma {:induction false} LastOfTail(s: string, c: char)
    requires s != "" && s[0] != c
    ensures LastIndex(s, c) == if LastIndex(s[1..], c) < 0 then -1 else LastIndex(s[1..], c) + 1
  {
    if |s| > 1 && s[|s| - 1] != c {
      assert s[1..][..|s| - 2] == s[..|s| - 1][1..];
      LastOfTail(s[..|s| - 1], c);
    } else if |s| == 1 {
      assert s[..0] == "" && s[1..] == "";
    }
  }

  /** Text that goes through trimming, lower-casing and host splitting unchanged is taken as a host. */
  lemma PlainHost(net: Net, x: string)
    requires x != "" && x != "*" && Trimmed(x) && Lower(x) == x && net.parseCIDR(x) == None && HostPort(x) == None
    ensures Classify(net, x) == ClassifyHost(net, x, 0)
  {}

  /** Elements without a port are not of the form host:port. */
  lemma WithoutPort(net: Net, norm: string, e: Element)
    requires ClassifyNorm(net, norm) == e
    requires (e.DomainElement? && e.d.port == 0) || (e.IpElement? && e.i.port == 0)
    ensures norm != "" && norm != "*" && net.parseCIDR(norm) == None
    ensures HostPort(norm) == None && ClassifyHost(net, norm, 0) == e
  {}

  lemma NormIsNormal(elem: string)
    ensures var norm := Lower(Trim(elem)); Trimmed(norm) && Lower(norm) == norm
  {
    LowerTwice(Trim(elem));
    LowerKeepsTrimmed(Trim(elem));
  }

  lemma DotIsNoAddress(net: Net, x: string)
    requires Lawful(net) && x != "" && x[0] == '.'
    ensures net.parseIP(x) == None
  {}

  lemma NoSlashNoCidr(net: Net, x: string)
    requires Lawful(net) && '/' !in x
    ensures net.parseCIDR(x) == None
  {}

  /**
    Subdomain entries are written without the star, which does not matter to any test of the parser.
   */
  lemma StarEntryReadsBack(net: Net, norm: string)
    requires HasPrefix(norm, "*.") && Trimmed(norm) && Lower(norm) == norm && HostPort(norm) == None && IsASCII(norm)
    requires net.parseIP(norm[1..]) == None && net.parseCIDR(norm[1..]) == None
    ensures Classify(net, norm[1..]) == DomainElement(DomainPort(norm[1..], true, 0))
  {
    var x := norm[1..];
    StarDoesNotMatter(norm);
    assert x[0] == '.' && Trimmed(x);
    assert Lower(x) == x by {
      forall i | 0 <= i < |x| ensures Lower(x)[i] == x[i] { assert Lower(norm)[i + 1] == norm[i + 1]; }
    }
    PlainHost(net, x);
    assert IsASCII(x);
  }

  lemma PlainEntryReadsBack(net: Net, norm: string, d: DomainPort)
    requires ClassifyNorm(net, norm) == DomainElement(d) && d.port == 0 && !HasPrefix(norm, "*.")
    requires Trimmed(norm) && Lower(norm) == norm
    ensures DomainText(d) == norm && norm != "" && Classify(net, norm) == DomainElement(d)
    ensures d.domain != "" && d.domain[0] == '.'
  {
    WithoutPort(net, norm, DomainElement(d));
    assert ("." + norm)[1..] == norm;
    PlainHost(net, norm);
  }

  lemma StarEntryIs(net: Net, norm: string, d: DomainPort)
    requires ClassifyNorm(net, norm) == DomainElement(d) && d.port == 0 && HasPrefix(norm, "*.")
    ensures d == DomainPort(norm[1..], true, 0) && norm[1] == '.' && IsASCII(norm) && HostPort(norm) == None
  {
    WithoutPort(net, norm, DomainElement(d));
  }

  /** A domain entry without a port reads back as itself, and its domain starts with a dot. */
  lemma DomainReadsBack(net: Net, elem: string, d: DomainPort)
    requires Lawful(net) && ',' !in elem && Classify(net, elem) == DomainElement(d) && d.port == 0
    ensures Reads(net, DomainText(d), DomainElement(d)) && d.domain != "" && d.domain[0] == '.'
  {
    var norm := Lower(Trim(elem));
    NormIsNormal(elem);
    LowerTrimHasNoComma(elem);
    if HasPrefix(norm, "*.") {
      StarEntryIs(net, norm, d);
      DotIsNoAddress(net, norm[1..]);
      DotIsNoCidr(net, norm[1..]);
      StarEntryReadsBack(net, norm);
    } else {
      PlainEntryReadsBack(net, norm, d);
    }
  }

  lemma DotIsNoCidr(net: Net, x: string)
    requires Lawful(net) && x != "" && x[0] == '.'
    ensures net.parseCIDR(x) == None
  {}

  /** A printed address reads back as the address. */
  lemma IpReadsBack(net: Net, elem: string, i: IpPort)
    requires Lawful(net) && Classify(net, elem) == IpElement(i) && i.port == 0
    ensures Reads(net, net.printIP(i.ip), IpElement(i))
  {
    var norm := Lower(Trim(elem));
    WithoutPort(net, norm, IpElement(i));
    assert net.parseIP(norm) == Some(i.ip);
    AddressReads(net, net.printIP(i.ip), i.ip);
  }

  lemma AddressChars(net: Net, t: string)
    requires Lawful(net) && net.parseIP(t).Some?
    ensures t != "" && t != "*" && Trimmed(t) && '/' !in t && ',' !in t
  {
    assert forall k :: 0 <= k < |t| ==> IsIPChar(t[k]);
    assert IsIPChar(t[0]) && IsIPChar(t[|t| - 1]);
  }

  lemma AddressReads(net: Net, t: string, ip: IP)
    requires Lawful(net) && net.parseIP(t) == Some(ip) && Lower(t) == t && HostPort(t) == None
    ensures Reads(net, t, IpElement(IpPort(ip, 0)))
  {
    AddressChars(net, t);
    NoSlashNoCidr(net, t);
    PlainHost(net, t);
  }

  predicate HasNoUpper(s: string) {
    forall i :: 0 <= i < |s| ==> !('A' <= s[i] <= 'Z')
  }

  lemma LowerOfLower(s: string)
    requires HasNoUpper(s)
    ensures Lower(s) == s
  {}

  lemma LoopbackTexts(t: string)
    requires t == LOOPBACK_V4 || t == LOOPBACK_V6
    ensures t[0] != '.' && Lower(t) == t && HostPort(t) == None && forall i :: 0 <= i < |t| ==> IsIPChar(t[i])
  {
    assert HasNoUpper(t);
    LowerOfLower(t);
    if t == LOOPBACK_V4 {
      LastIndexHits(t, ':');
    } else {
      assert LastIndex(t[..2], ':') == 1 && LastIndex(t, ':') == 1 && t[..1] == ":";
    }
  }

  /** What is assumed of the net package can be met. */
  lemma LawfulNetExists() returns (net: Net)
    ensures Lawful(net)
  {
    LoopbackTexts(LOOPBACK_V4);
    LoopbackTexts(LOOPBACK_V6);
    net := Net(s => if s == LOOPBACK_V4 then Some(4) else if s == LOOPBACK_V6 then Some(6) else None,
               ip => if ip == 4 then LOOPBACK_V4 else LOOPBACK_V6, ip => true, s => None, (c, ip) => false);
    assert forall s :: net.parseIP(s).Some? ==> s == LOOPBACK_V4 || s == LOOPBACK_V6;
  }

  /** Lower-case letters and dots. */
  predicate IsName(t: string) {
    t != "" && forall i :: 0 <= i < |t| ==> 'a' <= t[i] <= 'z' || t[i] == '.'
  }

  lemma NameReads(net: Net, t: string)
    requires IsName(t) && net.parseCIDR(t) == None && net.parseIP(t) == None
    ensures Reads(net, t, DomainElement(if t[0] == '.' then DomainPort(t, true, 0) else DomainPort("." + t, false, 0)))
  {
    LowerOfLower(t);
    LastIndexHits(t, ':');
    PlainHost(net, t);
  }

  lemma LocalNameReads(net: Net, t: string)
    requires Lawful(net) && IsName(t) && (t[0] == '.' || !IsIPChar(t[0]))
    ensures Reads(net, t, DomainElement(if t[0] == '.' then DomainPort(t, true, 0) else DomainPort("." + t, false, 0)))
  {
    NoSlashNoCidr(net, t);
    if t[0] == '.' {
      DotIsNoAddress(net, t);
    } else {
      NotAnAddress(net, t, 0);
    }
    NameReads(net, t);
  }

  lemma NotAnAddress(net: Net, x: string, i: nat)
    requires Lawful(net) && i < |x| && !IsIPChar(x[i])
    ensures net.parseIP(x) == None
  {}

  // ---------- the two lists decide alike ----------

  /** An entry of the formatted text stands for a kept domain, a kept address or a loopback name. */
  ghost predicate EntryOf(net: Net, n: NoProxy, addLoopback: bool, x: string, e: Element) {
    || (e.DomainElement? && e.d in n.domains && KeepDomain(e.d, addLoopback) && x == DomainText(e.d))
    || (e.IpElement? && e.i in n.ips && KeepIp(net, e.i, addLoopback) && x == net.printIP(e.i.ip))
    || (addLoopback && x in LOOPBACK_NAMES && LoopbackElement(net, e))
  }

  /** Elements that can only match hosts that bypass the proxy anyway. */
  predicate LoopbackElement(net: Net, e: Element) {
    || (e.DomainElement? && e.d.domain == DOT_LOCALHOST)
    || (e.IpElement? && net.isLoopback(e.i.ip))
  }

  /** Everything in a parsed list reads back from its own text. */
  lemma ParsedReadsBack(net: Net, s: string, n: NoProxy)
    requires Lawful(net) && Parse(net, s) == Some(n) && Representable(n)
    ensures forall d :: d in n.domains ==>
              Reads(net, DomainText(d), DomainElement(d)) && d.domain != "" && d.domain[0] == '.' && d.port == 0
    ensures forall i :: i in n.ips ==> Reads(net, net.printIP(i.ip), IpElement(i)) && i.port == 0
  {
    var elems := Split(s);
    ParserCollects(net, elems);
    forall d | d in n.domains
      ensures Reads(net, DomainText(d), DomainElement(d)) && d.domain != "" && d.domain[0] == '.' && d.port == 0
    {
      var x :| x in elems && Classify(net, x) == DomainElement(d);
      DomainReadsBack(net, x, d);
    }
    forall i | i in n.ips ensures Reads(net, net.printIP(i.ip), IpElement(i)) && i.port == 0 {
      var x :| x in elems && Classify(net, x) == IpElement(i);
      IpReadsBack(net, x, i);
    }
  }

  lemma EntriesAre(net: Net, s: string, n: NoProxy, addLoopback: bool, x: string)
    requires Lawful(net) && Parse(net, s) == Some(n) && Representable(n) && x in Entries(net, n, addLoopback)
    ensures exists e :: EntryOf(net, n, addLoopback, x, e) && Reads(net, x, e)
  {
    ParsedReadsBack(net, s, n);
    DomainEntriesAre(n.domains, addLoopback, x);
    IpEntriesAre(net, n.ips, addLoopback, x);
    if d :| d in n.domains && KeepDomain(d, addLoopback) && DomainText(d) == x {
      assert EntryOf(net, n, addLoopback, x, DomainElement(d));
    } else if i :| i in n.ips && KeepIp(net, i, addLoopback) && net.printIP(i.ip) == x {
      assert EntryOf(net, n, addLoopback, x, IpElement(i));
    } else {
      LoopbackEntryIs(net, n, x);
    }
  }

  lemma LocalNames(x: string)
    requires x == DOT_LOCALHOST || x == LOCALHOST
    ensures IsName(x) && (if x[0] == '.' then x == DOT_LOCALHOST else !IsIPChar(x[0]) && "." + x == DOT_LOCALHOST)
  {
    if x == LOCALHOST {
      assert x[0] == 'l';
    } else {
      assert x[0] == '.' && x[1..] == LOCALHOST;
    }
  }

  lemma LocalNameEntryIs(net: Net, n: NoProxy, x: string)
    requires Lawful(net) && (x == DOT_LOCALHOST || x == LOCALHOST)
    ensures exists e :: EntryOf(net, n, true, x, e) && Reads(net, x, e)
  {
    LocalNames(x);
    LocalNameReads(net, x);
    var d := if x[0] == '.' then DomainPort(x, true, 0) else DomainPort("." + x, false, 0);
    assert EntryOf(net, n, true, x, DomainElement(d));
  }

  lemma LoopbackAddressEntryIs(net: Net, n: NoProxy, x: string)
    requires Lawful(net) && (x == LOOPBACK_V4 || x == LOOPBACK_V6)
    ensures exists e :: EntryOf(net, n, true, x, e) && Reads(net, x, e)
  {
    LoopbackTexts(x);
    AddressReads(net, x, net.parseIP(x).value);
    assert EntryOf(net, n, true, x, IpElement(IpPort(net.parseIP(x).value, 0)));
  }

  lemma LoopbackEntryIs(net: Net, n: NoProxy, x: string)
    requires Lawful(net) && x in LOOPBACK_NAMES
    ensures exists e :: EntryOf(net, n, true, x, e) && Reads(net, x, e)
  {
    if x == DOT_LOCALHOST || x == LOCALHOST {
      LocalNameEntryIs(net, n, x);
    } else {
      LoopbackAddressEntryIs(net, n, x);
    }
  }

  ghost predicate OnlyHosts(net: Net, elems: seq<string>) {
    forall x :: x in elems ==> Classify(net, x).DomainElement? || Classify(net, x).IpElement?
  }

  lemma EntriesAreHosts(net: Net, s: string, n: NoProxy, addLoopback: bool)
    requires Lawful(net) && Parse(net, s) == Some(n) && Representable(n)
    ensures var entries := Entries(net, n, addLoopback);
            OnlyHosts(net, entries) && forall x :: x in entries ==> x != "" && ',' !in x
  {
    var entries := Entries(net, n, addLoopback);
    forall x | x in entries
      ensures x != "" && ',' !in x && (Classify(net, x).DomainElement? || Classify(net, x).IpElement?)
    {
      EntriesAre(net, s, n, addLoopback, x);
    }
  }

  /** Parsing a list of hosts, or the empty text, is without errors and yields these hosts. */
  lemma HostsParse(net: Net, entries: seq<string>)
    requires OnlyHosts(net, entries)
    ensures var p := TakeAll(net, if entries == [] then [""] else entries);
            && p.errors == 0 && !p.n.isAsterisk && p.n.cidrs == []
            && (forall d :: d in p.n.domains <==> Yields(net, entries, DomainElement(d)))
            && (forall i :: i in p.n.ips <==> Yields(net, entries, IpElement(i)))
  {
    if entries == [] {
      assert Classify(net, "") == Blank && [""][..0] == [];
      assert TakeAll(net, [""]) == Take(TakeAll(net, []), Blank);
    } else {
      ParserCollects(net, entries);
      FirstCidrIsYielded(net, entries);
    }
  }

  /** Parsing the text succeeds, and what it collects are the entries. */
  lemma ReparseCollects(net: Net, s: string, n: NoProxy, addLoopback: bool)
    requires Lawful(net) && Parse(net, s) == Some(n) && !n.isAsterisk && Representable(n)
    ensures var entries := Entries(net, n, addLoopback); var r := Parse(net, Joined(entries));
            && r.Some? && !r.value.isAsterisk && r.value.cidrs == []
            && (forall d :: d in r.value.domains <==> Yields(net, entries, DomainElement(d)))
            && (forall i :: i in r.value.ips <==> Yields(net, entries, IpElement(i)))
  {
    var entries := Entries(net, n, addLoopback);
    EntriesAreHosts(net, s, n, addLoopback);
    assert forall i :: 0 <= i < |entries| ==> entries[i] in entries;
    SplitJoined(entries);
    HostsParse(net, entries);
  }

  /** What an entry stands for. */
  lemma EntryMeans(net: Net, s: string, n: NoProxy, addLoopback: bool, e: Element)
    requires Lawful(net) && Parse(net, s) == Some(n) && Representable(n)
    requires Yields(net, Entries(net, n, addLoopback), e)
    ensures (e.DomainElement? && e.d in n.domains) || (e.IpElement? && e.i in n.ips) || LoopbackElement(net, e)
  {
    var entries := Entries(net, n, addLoopback);
    var x :| x in entries && Classify(net, x) == e;
    EntriesAre(net, s, n, addLoopback, x);
  }

  lemma KeptDomainIsYielded(net: Net, s: string, n: NoProxy, addLoopback: bool, d: DomainPort)
    requires Lawful(net) && Parse(net, s) == Some(n) && Representable(n)
    requires d in n.domains && KeepDomain(d, addLoopback)
    ensures Yields(net, Entries(net, n, addLoopback), DomainElement(d))
  {
    ParsedReadsBack(net, s, n);
    DomainEntriesAre(n.domains, addLoopback, DomainText(d));
    assert DomainText(d) in Entries(net, n, addLoopback);
  }

  lemma KeptIpIsYielded(net: Net, s: string, n: NoProxy, addLoopback: bool, i: IpPort)
    requires Lawful(net) && Parse(net, s) == Some(n) && Representable(n)
    requires i in n.ips && KeepIp(net, i, addLoopback)
    ensures Yields(net, Entries(net, n, addLoopback), IpElement(i))
  {
    ParsedReadsBack(net, s, n);
    IpEntriesAre(net, n.ips, addLoopback, net.printIP(i.ip));
    assert net.printIP(i.ip) in Entries(net, n, addLoopback);
  }

  lemma LocalhostOnly(d: DomainPort, hostname: string, port: int)
    requires d.domain == DOT_LOCALHOST && DomainMatches(d, hostname, port)
    ensures HasSuffix(hostname, DOT_LOCALHOST) || hostname == LOCALHOST
  {
    assert DOT_LOCALHOST[1..] == LOCALHOST;
  }

  /**
    The formatted list, read again, gives the same decision for every host and port, with and without the
    added loopback names.
   */
  lemma BypassListKeepsMeaning(net: Net, s: string, n: NoProxy, addLoopback: bool, text: string, hostname: string,
                               port: int)
    requires Lawful(net) && Parse(net, s) == Some(n) && Format(net, n, addLoopback) == Some(text)
    ensures Parse(net, text).Some?
    ensures UseProxyHost(net, Parse(net, text).value, hostname, port) == UseProxyHost(net, n, hostname, port)
  {
    if n.isAsterisk {
      AsteriskReadsBack(net);
    } else {
      ReparseCollects(net, s, n, addLoopback);
      var n' := Parse(net, text).value;
      if net.parseIP(hostname).Some? {
        SameForAddress(net, s, n, addLoopback, n', net.parseIP(hostname).value, port);
      } else {
        SameForName(net, s, n, addLoopback, n', hostname, port);
      }
    }
  }

  lemma AsteriskReadsBack(net: Net)
    ensures Parse(net, "*") == Some(NoProxy([], [], [], true))
  {
    var star := "*";
    IndexNone(star);
    assert Trimmed(star) && Lower(star) == star;
    assert Classify(net, star) == Asterisk;
    assert [star][..0] == [];
    assert TakeAll(net, [star]) == Take(TakeAll(net, []), Asterisk);
  }

  lemma SameForName(net: Net, s: string, n: NoProxy, addLoopback: bool, n': NoProxy, hostname: string, port: int)
    requires Lawful(net) && Parse(net, s) == Some(n) && Representable(n)
    requires forall d :: d in n'.domains <==> Yields(net, Entries(net, n, addLoopback), DomainElement(d))
    ensures NameBypasses(n, hostname, port) <==> NameBypasses(n', hostname, port)
  {
    if d :| d in n.domains && DomainMatches(d, hostname, port) {
      OldDomainStillMatches(net, s, n, addLoopback, n', d, hostname, port);
    }
    if d :| d in n'.domains && DomainMatches(d, hostname, port) {
      EntryMeans(net, s, n, addLoopback, DomainElement(d));
      if d !in n.domains {
        LocalhostOnly(d, hostname, port);
      }
    }
  }

  lemma OldDomainStillMatches(net: Net, s: string, n: NoProxy, addLoopback: bool, n': NoProxy, d: DomainPort,
                              hostname: string, port: int)
    requires Lawful(net) && Parse(net, s) == Some(n) && Representable(n)
    requires Yields(net, Entries(net, n, addLoopback), DomainElement(d)) ==> d in n'.domains
    requires d in n.domains && DomainMatches(d, hostname, port)
    ensures NameBypasses(n', hostname, port)
  {
    if KeepDomain(d, addLoopback) {
      KeptDomainIsYielded(net, s, n, addLoopback, d);
    } else {
      ParsedReadsBack(net, s, n);
      SkippedDomainIsLocal(d);
      LocalhostOnly(d, hostname, port);
    }
  }

  lemma SkippedDomainIsLocal(d: DomainPort)
    requires d.domain != "" && d.domain[0] == '.' && !KeepDomain(d, true)
    ensures d.domain == DOT_LOCALHOST
  {
    if !d.subdomainsOnly {
      assert d.domain == "." + d.domain[1..];
    }
  }

  lemma SameForAddress(net: Net, s: string, n: NoProxy, addLoopback: bool, n': NoProxy, ip: IP, port: int)
    requires Lawful(net) && Parse(net, s) == Some(n) && Representable(n)
    requires forall i :: i in n'.ips <==> Yields(net, Entries(net, n, addLoopback), IpElement(i))
    requires n'.cidrs == []
    ensures AddressBypasses(net, n, ip, port) <==> AddressBypasses(net, n', ip, port)
  {
    if i :| i in n.ips && i.ip == ip && (i.port == 0 || i.port == port) {
      OldAddressStillMatches(net, s, n, addLoopback, n', i, ip, port);
    }
    if i :| i in n'.ips && i.ip == ip && (i.port == 0 || i.port == port) {
      EntryMeans(net, s, n, addLoopback, IpElement(i));
    }
  }

  lemma OldAddressStillMatches(net: Net, s: string, n: NoProxy, addLoopback: bool, n': NoProxy, i: IpPort, ip: IP,
                               port: int)
    requires Lawful(net) && Parse(net, s) == Some(n) && Representable(n)
    requires Yields(net, Entries(net, n, addLoopback), IpElement(i)) ==> i in n'.ips
    requires i in n.ips && i.ip == ip && (i.port == 0 || i.port == port)
    ensures AddressBypasses(net, n', ip, port)
  {
    if KeepIp(net, i, addLoopback) {
      KeptIpIsYielded(net, s, n, addLoopback, i);
    }
  }

  // ---------- what an entry means ----------

  /**
    The documented meaning of a host pattern: a leading dot or "*." stands for subdomains only, a plain
    name for itself and its subdomains.
   */
  predicate PatternMatches(pattern: string, hostname: string) {
    if HasPrefix(pattern, "*.") then HasSuffix(hostname, pattern[1..])
    else if HasPrefix(pattern, ".") then HasSuffix(hostname, pattern)
    else hostname == pattern || HasSuffix(hostname, "." + pattern)
  }

  /** The pattern of an element and the port it is limited to, 0 for none. */
  function PatternOf(elem: string): (string, int) {
    NormPattern(Lower(Trim(elem)))
  }

  function NormPattern(norm: string): (string, int) {
    match HostPort(norm)
    case None => (norm, 0)
    case Some(hp) =>
      (if |hp.0| >= 2 && hp.0[0] == '[' && hp.0[|hp.0| - 1] == ']' then hp.0[1..|hp.0| - 1] else hp.0,
       if ParseInt32(hp.1).Some? then ParseInt32(hp.1).value else 0)
  }

  lemma HostEntryMeans(net: Net, host: string, port: int, d: DomainPort, hostname: string, asked: int)
    requires host != "" && ClassifyHost(net, host, port) == DomainElement(d)
    ensures DomainMatches(d, hostname, asked) <==> PatternMatches(host, hostname) && (port == 0 || port == asked)
  {
    if !HasPrefix(host, "*.") && host[0] != '.' {
      assert d.domain == "." + host && d.domain[1..] == host;
      assert !HasPrefix(host, ".");
    } else if host[0] == '.' {
      assert host[..1] == ".";
    }
  }

  lemma ElementMeans(net: Net, elem: string, d: DomainPort, hostname: string, port: int)
    requires Classify(net, elem) == DomainElement(d)
    ensures var (pattern, limit) := PatternOf(elem);
            DomainMatches(d, hostname, port) <==> PatternMatches(pattern, hostname) && (limit == 0 || limit == port)
  {
    var (pattern, limit) := PatternOf(elem);
    HostEntryMeans(net, pattern, limit, d, hostname, port);
  }

  /** Trimmed and in lower case, as elements are compared. */
  function Norm(elem: string): string {
    Lower(Trim(elem))
  }

  /**
    The element is a host name, neither blank nor an asterisk nor a
    network nor an address, whose pattern and port match.
   */
  predicate MatchesName(net: Net, elem: string, hostname: string, port: int) {
    var (pattern, limit) := PatternOf(elem);
    && Norm(elem) != "" && Norm(elem) != "*" && net.parseCIDR(Norm(elem)) == None && net.parseIP(pattern) == None
    && PatternMatches(pattern, hostname) && (limit == 0 || limit == port)
  }

  /** The element is a network that contains the address, or the address itself with a port that matches. */
  predicate MatchesAddress(net: Net, elem: string, ip: IP, port: int) {
    var (pattern, limit) := PatternOf(elem);
    match net.parseCIDR(Norm(elem))
    case Some(c) => net.contains(c, ip)
    case None => net.parseIP(pattern) == Some(ip) && (limit == 0 || limit == port)
  }

  lemma HostNormMeans(net: Net, norm: string)
    requires ClassifyNorm(net, norm) != Bad
    ensures ClassifyNorm(net, norm).DomainElement? <==>
            norm != "" && norm != "*" && net.parseCIDR(norm) == None && net.parseIP(NormPattern(norm).0) == None
    ensures ClassifyNorm(net, norm).IpElement? <==>
            norm != "" && norm != "*" && net.parseCIDR(norm) == None && net.parseIP(NormPattern(norm).0).Some?
  {}

  lemma SpecialsAreNoAddresses(net: Net, norm: string)
    requires Lawful(net) && (norm == "" || norm == "*")
    ensures net.parseIP(NormPattern(norm).0) == None
  {
    assert HostPort(norm) == None;
    if norm == "*" {
      NotAnAddress(net, norm, 0);
    }
  }

  /** A name bypasses the proxy exactly if it is local or some element's pattern and port match it. */
  lemma NameBypassesIff(net: Net, s: string, n: NoProxy, hostname: string, port: int)
    requires Parse(net, s) == Some(n) && !n.isAsterisk
    ensures NameBypasses(n, hostname, port) <==>
            HasSuffix(hostname, DOT_LOCALHOST) || hostname == LOCALHOST ||
            exists elem :: elem in Split(s) && MatchesName(net, elem, hostname, port)
  {
    var elems := Split(s);
    ParserCollects(net, elems);
    if d :| d in n.domains && DomainMatches(d, hostname, port) {
      assert Yields(net, elems, DomainElement(d));
      var elem := NameElement(net, elems, d, hostname, port);
    }
    if elem :| elem in elems && MatchesName(net, elem, hostname, port) {
      var d := NameIsDomain(net, elems, elem, hostname, port);
      assert d in n.domains;
    }
  }

  lemma NameElement(net: Net, elems: seq<string>, d: DomainPort, hostname: string, port: int) returns (elem: string)
    requires Yields(net, elems, DomainElement(d)) && DomainMatches(d, hostname, port)
    ensures elem in elems && MatchesName(net, elem, hostname, port)
  {
    elem :| elem in elems && Classify(net, elem) == DomainElement(d);
    ElementMeans(net, elem, d, hostname, port);
    HostNormMeans(net, Norm(elem));
  }

  lemma NameIsDomain(net: Net, elems: seq<string>, elem: string, hostname: string, port: int) returns (d: DomainPort)
    requires elem in elems && MatchesName(net, elem, hostname, port) && !Yields(net, elems, Bad)
    ensures Yields(net, elems, DomainElement(d)) && DomainMatches(d, hostname, port)
  {
    HostNormMeans(net, Norm(elem));
    d := Classify(net, elem).d;
    ElementMeans(net, elem, d, hostname, port);
  }

  lemma AddressNormMeans(net: Net, norm: string, i: IpPort)
    requires ClassifyNorm(net, norm) == IpElement(i)
    ensures net.parseCIDR(norm) == None && net.parseIP(NormPattern(norm).0) == Some(i.ip)
    ensures NormPattern(norm).1 == i.port
  {}

  lemma AddressElementMeans(net: Net, elem: string, i: IpPort)
    requires Classify(net, elem) == IpElement(i)
    ensures net.parseCIDR(Norm(elem)) == None
    ensures net.parseIP(PatternOf(elem).0) == Some(i.ip) && PatternOf(elem).1 == i.port
  {
    AddressNormMeans(net, Lower(Trim(elem)), i);
  }

  lemma CidrNormMeans(net: Net, norm: string, c: Cidr)
    requires Lawful(net)
    ensures ClassifyNorm(net, norm) == CidrElement(c) <==> net.parseCIDR(norm) == Some(c)
  {
    if net.parseCIDR(norm).Some? {
      assert '/' in norm && '/' !in "*";
    }
  }

  lemma CidrElementMeans(net: Net, elem: string, c: Cidr)
    requires Lawful(net)
    ensures Classify(net, elem) == CidrElement(c) <==> net.parseCIDR(Norm(elem)) == Some(c)
  {
    CidrNormMeans(net, Lower(Trim(elem)), c);
  }

  /** An address bypasses the proxy exactly if it is a loopback address or some network or address and port match it. */
  lemma AddressBypassesIff(net: Net, s: string, n: NoProxy, ip: IP, port: int)
    requires Lawful(net) && Parse(net, s) == Some(n) && !n.isAsterisk
    ensures AddressBypasses(net, n, ip, port) <==>
            net.isLoopback(ip) || exists elem :: elem in Split(s) && MatchesAddress(net, elem, ip, port)
  {
    ParserCollects(net, Split(s));
    if AddressBypasses(net, n, ip, port) && !net.isLoopback(ip) {
      var elem := MatchingElement(net, s, n, ip, port);
    }
    if elem :| elem in Split(s) && MatchesAddress(net, elem, ip, port) {
      if net.parseCIDR(Norm(elem)).Some? {
        var c := net.parseCIDR(Norm(elem)).value;
        CidrElementMeans(net, elem, c);
        assert Yields(net, Split(s), CidrElement(c));
      } else {
        var i := AddressIsIp(net, Split(s), elem, ip, port);
        assert i in n.ips;
      }
    }
  }

  lemma AddressIsIp(net: Net, elems: seq<string>, elem: string, ip: IP, port: int) returns (i: IpPort)
    requires Lawful(net) && elem in elems && !Yields(net, elems, Bad)
    requires net.parseCIDR(Norm(elem)) == None && MatchesAddress(net, elem, ip, port)
    ensures Yields(net, elems, IpElement(i)) && i.ip == ip && (i.port == 0 || i.port == port)
  {
    if Norm(elem) == "" || Norm(elem) == "*" {
      SpecialsAreNoAddresses(net, Norm(elem));
    }
    HostNormMeans(net, Norm(elem));
    i := Classify(net, elem).i;
    AddressElementMeans(net, elem, i);
  }

  lemma MatchingElement(net: Net, s: string, n: NoProxy, ip: IP, port: int) returns (elem: string)
    requires Lawful(net) && Parse(net, s) == Some(n) && !n.isAsterisk
    requires AddressBypasses(net, n, ip, port) && !net.isLoopback(ip)
    ensures elem in Split(s) && MatchesAddress(net, elem, ip, port)
  {
    ParserCollects(net, Split(s));
    if c :| c in n.cidrs && net.contains(c, ip) {
      assert Yields(net, Split(s), CidrElement(c));
      elem := NetworkElement(net, Split(s), c, ip, port);
    } else {
      var i :| i in n.ips && i.ip == ip && (i.port == 0 || i.port == port);
      assert Yields(net, Split(s), IpElement(i));
      elem := AddressElement(net, Split(s), i, port);
    }
  }

  lemma NetworkElement(net: Net, elems: seq<string>, c: Cidr, ip: IP, port: int) returns (elem: string)
    requires Lawful(net) && Yields(net, elems, CidrElement(c)) && net.contains(c, ip)
    ensures elem in elems && MatchesAddress(net, elem, ip, port)
  {
    elem :| elem in elems && Classify(net, elem) == CidrElement(c);
    CidrElementMeans(net, elem, c);
  }

  lemma AddressElement(net: Net, elems: seq<string>, i: IpPort, port: int) returns (elem: string)
    requires Yields(net, elems, IpElement(i)) && (i.port == 0 || i.port == port)
    ensures elem in elems && MatchesAddress(net, elem, i.ip, port)
  {
    elem :| elem in elems && Classify(net, elem) == IpElement(i);
    AddressElementMeans(net, elem, i);
  }

  lemma AsteriskNorm(net: Net, norm: string)
    ensures ClassifyNorm(net, norm) == Asterisk <==> norm == "*"
  {}

  lemma AsteriskIff(net: Net, s: string, n: NoProxy)
    requires Parse(net, s) == Some(n)
    ensures n.isAsterisk <==> exists elem :: elem in Split(s) && Norm(elem) == "*"
  {
    ParserCollects(net, Split(s));
    forall elem ensures Classify(net, elem) == Asterisk <==> Norm(elem) == "*" {
      AsteriskNorm(net, Norm(elem));
    }
  }

  /** The whole decision, in terms of the text of the elements. */
  lemma BypassesIff(net: Net, s: string, n: NoProxy, hostname: string, port: int)
    requires Lawful(net) && Parse(net, s) == Some(n)
    ensures !UseProxyHost(net, n, hostname, port) <==>
            || (exists elem :: elem in Split(s) && Norm(elem) == "*")
            || match net.parseIP(hostname)
               case Some(ip) => net.isLoopback(ip) ||
                                exists elem :: elem in Split(s) && MatchesAddress(net, elem, ip, port)
               case None => HasSuffix(hostname, DOT_LOCALHOST) || hostname == LOCALHOST ||
                            exists elem :: elem in Split(s) && MatchesName(net, elem, hostname, port)
  {
    AsteriskIff(net, s, n);
    if !n.isAsterisk {
      match net.parseIP(hostname)
      case Some(ip) => AddressBypassesIff(net, s, n, ip, port);
      case None => NameBypassesIff(net, s, n, hostname, port);
    }
  }
}
