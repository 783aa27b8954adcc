/** The list of hosts that bypass the forward proxy (internal/httpproxy/httpproxy.go). */
module HttpProxy {
  import opened Basics
  import opened Text

  /** An IP address in its sixteen-byte form, as a number. */
  type IP = nat

  datatype Cidr = Cidr(base: IP, bits: nat)

  /** The functions of Go's net package that cannot be seen here. */
  datatype Net = Net(
    parseIP: string -> Option<IP>,
    printIP: IP -> string,
    isLoopback: IP -> bool,
    parseCIDR: string -> Option<Cidr>,
    contains: (Cidr, IP) -> bool)

  predicate IsIPChar(c: char) {
    '0' <= c <= '9' || 'a' <= c <= 'f' || 'A' <= c <= 'F' || c == ':' || c == '.'
  }

  /**
    What the net package is known to do: a CIDR has a slash and does not start with a dot; an address has
    hexadecimal digits, dots and colons only and neither is empty nor starts with a dot; a parsed address prints in
    lower case, as text that parses to the same address and is no host with a port; the two loopback addresses are
    known as such.
   */
  ghost predicate Lawful(net: Net) {
    && (forall s :: net.parseCIDR(s).Some? ==> '/' in s && s[0] != '.')
    && (forall s :: net.parseIP(s).Some? ==> s != "" && s[0] != '.' && forall i :: 0 <= i < |s| ==> IsIPChar(s[i]))
    && (forall s :: net.parseIP(s).Some? ==>
          var t := net.printIP(net.parseIP(s).value);
          net.parseIP(t) == net.parseIP(s) && Lower(t) == t && HostPort(t) == None)
    && (net.parseIP(LOOPBACK_V4).Some? && net.isLoopback(net.parseIP(LOOPBACK_V4).value))
    && (net.parseIP(LOOPBACK_V6).Some? && net.isLoopback(net.parseIP(LOOPBACK_V6).value))
  }

  /** net.SplitHostPort. */
  function HostPort(s: string): (r: Option<(string, string)>)
    ensures r.Some? ==> ':' in s
  {
    var i := LastIndex(s, ':');
    if i < 0 then None
    else
      assert s[i] == ':' by { LastIndexHits(s, ':'); }
      if s[0] == '[' then
        var end := Index(s, ']');
        if end == |s| || end + 1 != i then None
        else if '[' in s[1..] || ']' in s[end + 1..] then None
        else Some((s[1..end], s[i + 1..]))
      else if ':' in s[..i] || '[' in s || ']' in s then None
      else Some((s[..i], s[i + 1..]))
  }

  lemma {:induction false} LastIndexHits(s: string, c: char)
    ensures LastIndex(s, c) >= 0 ==> s[LastIndex(s, c)] == c
    ensures LastIndex(s, c) >= 0 <==> c in s
  {
    if s != "" && s[|s| - 1] != c {
      LastIndexHits(s[..|s| - 1], c);
      assert s == s[..|s| - 1] + [s[|s| - 1]];
    }
  }

  function Digits(s: string): Option<nat> {
    if s == "" then Some(0)
    else if Digits(s[..|s| - 1]) == None || !('0' <= s[|s| - 1] <= '9') then None
    else Some(10 * Digits(s[..|s| - 1]).value + (s[|s| - 1] as int - '0' as int))
  }

  /** strconv.ParseInt in base 10 for 32 bits. */
  function ParseInt32(s: string): Option<int> {
    var negative := s != "" && s[0] == '-';
    var digits := if s != "" && (s[0] == '-' || s[0] == '+') then s[1..] else s;
    if digits == "" || Digits(digits) == None then None
    else
      var value: int := Digits(digits).value;
      var n := if negative then -value else value;
      if -0x8000_0000 <= n <= 0x7fff_ffff then Some(n) else None
  }

  /** `domain` starts with a dot. A port of 0 stands for any port. */
  datatype DomainPort = DomainPort(domain: string, subdomainsOnly: bool, port: int)

  datatype IpPort = IpPort(ip: IP, port: int)

  datatype NoProxy = NoProxy(cidrs: seq<Cidr>, domains: seq<DomainPort>, ips: seq<IpPort>, isAsterisk: bool)

  datatype Element = Blank | Asterisk | CidrElement(c: Cidr) | DomainElement(d: DomainPort) | IpElement(i: IpPort) | Bad

  function ClassifyHost(net: Net, hostname: string, port: int): (e: Element)
    requires hostname != ""
    ensures e.DomainElement? ==> e.d.port == port
    ensures e.IpElement? ==> e.i.port == port
  {
    if net.parseIP(hostname).Some? then IpElement(IpPort(net.parseIP(hostname).value, port))
    else if !IsASCII(hostname) then Bad
    else if HasPrefix(hostname, "*.") then DomainElement(DomainPort(hostname[1..], true, port))
    else if hostname[0] != '.' then DomainElement(DomainPort("." + hostname, false, port))
    else DomainElement(DomainPort(hostname, true, port))
  }

  /** A host with a port; brackets around the host are taken off. */
  function ClassifyHostPort(net: Net, hostname: string, port: string): (e: Element)
    ensures e == Bad || (e.DomainElement? && e.d.port > 0) || (e.IpElement? && e.i.port > 0)
  {
    if hostname == "" then Bad
    else
      var host := if hostname[0] == '[' && hostname[|hostname| - 1] == ']' && |hostname| >= 2
                  then hostname[1..|hostname| - 1] else hostname;
      if host == "" then Bad
      else if ParseInt32(port) == None || ParseInt32(port).value <= 0 then Bad
      else ClassifyHost(net, host, ParseInt32(port).value)
  }

  /** One element after trimming and lower-casing. */
  function ClassifyNorm(net: Net, norm: string): Element {
    if norm == "" then Blank
    else if norm == "*" then Asterisk
    else if net.parseCIDR(norm).Some? then CidrElement(net.parseCIDR(norm).value)
    else
      match HostPort(norm)
      case None => ClassifyHost(net, norm, 0)
      case Some(hp) => ClassifyHostPort(net, hp.0, hp.1)
  }

  /** One comma-separated element. */
  function Classify(net: Net, elem: string): Element {
    ClassifyNorm(net, Lower(Trim(elem)))
  }

  /** What the parser has collected after some elements; errors are only counted. */
  datatype Parser = Parser(n: NoProxy, errors: nat)

  const START := Parser(NoProxy([], [], [], false), 0)

  function Take(p: Parser, e: Element): Parser {
    match e
    case Blank => p
    case Asterisk => p.(n := p.n.(isAsterisk := true))
    case CidrElement(c) => p.(n := p.n.(cidrs := p.n.cidrs + [c]))
    case DomainElement(d) => p.(n := p.n.(domains := p.n.domains + [d]))
    case IpElement(i) => p.(n := p.n.(ips := p.n.ips + [i]))
    case Bad => p.(errors := p.errors + 1)
  }

  function TakeAll(net: Net, elems: seq<string>): Parser {
    if elems == [] then START
    else Take(TakeAll(net, elems[..|elems| - 1]), Classify(net, elems[|elems| - 1]))
  }

  lemma TakeAllStep(net: Net, elems: seq<string>, i: nat)
    requires i < |elems|
    ensures TakeAll(net, elems[..i + 1]) == Take(TakeAll(net, elems[..i]), Classify(net, elems[i]))
  {
    assert elems[..i + 1][..i] == elems[..i];
  }

  function Finish(p: Parser): Option<NoProxy> {
    if p.errors > 0 then None
    else if p.n.isAsterisk then Some(NoProxy([], [], [], true))
    else Some(p.n)
  }

  function Parse(net: Net, s: string): Option<NoProxy> {
    Finish(TakeAll(net, Split(s)))
  }

  /** There is a list also beside an error: whatever was collected. */
  method ParseNoProxy(net: Net, s: string) returns (n: NoProxy, failed: bool)
    ensures failed <==> Parse(net, s) == None
    ensures if failed then n == TakeAll(net, Split(s)).n else Parse(net, s) == Some(n)
  {
    var elems := Split(s);
    var p := START;
    for i := 0 to |elems|
      invariant p == TakeAll(net, elems[..i])
    {
      TakeAllStep(net, elems, i);
      p := Take(p, Classify(net, elems[i]));
    }
    assert elems[..|elems|] == elems;
    if p.errors > 0 {
      return p.n, true;
    }
    n, failed := p.n, false;
    if n.isAsterisk {
      n := NoProxy([], [], [], true);
    }
  }

  /** The text of a domain entry. */
  function DomainText(d: DomainPort): string {
    if d.subdomainsOnly || d.domain == "" then d.domain else d.domain[1..]
  }

  predicate KeepDomain(d: DomainPort, addLoopback: bool) {
    !(addLoopback && DomainText(d) == if d.subdomainsOnly then DOT_LOCALHOST else LOCALHOST)
  }

  predicate KeepIp(net: Net, i: IpPort, addLoopback: bool) {
    !(addLoopback && net.isLoopback(i.ip))
  }

  const LOCALHOST := "localhost"
  const DOT_LOCALHOST := "." + LOCALHOST
  const LOOPBACK_V4 := "127.0.0.1"
  const LOOPBACK_V6 := "::1"
  const LOOPBACK_NAMES := [DOT_LOCALHOST, LOCALHOST, LOOPBACK_V4, LOOPBACK_V6]

  /** The names as the formatter writes them. */
  const LOOPBACK_TEXT := DOT_LOCALHOST + "," + LOCALHOST + "," + LOOPBACK_V4 + "," + LOOPBACK_V6

  function DomainEntries(ds: seq<DomainPort>, addLoopback: bool): seq<string> {
    if ds == [] then []
    else
      var d := ds[|ds| - 1];
      DomainEntries(ds[..|ds| - 1], addLoopback) + if KeepDomain(d, addLoopback) then [DomainText(d)] else []
  }

  function IpEntries(net: Net, addrs: seq<IpPort>, addLoopback: bool): seq<string> {
    if addrs == [] then []
    else
      var i := addrs[|addrs| - 1];
      IpEntries(net, addrs[..|addrs| - 1], addLoopback) +
      if KeepIp(net, i, addLoopback) then [net.printIP(i.ip)] else []
  }

  function Entries(net: Net, n: NoProxy, addLoopback: bool): seq<string> {
    DomainEntries(n.domains, addLoopback) + IpEntries(net, n.ips, addLoopback) +
    if addLoopback then LOOPBACK_NAMES else []
  }

  predicate Representable(n: NoProxy) {
    && n.cidrs == []
    && (forall i :: 0 <= i < |n.domains| ==> n.domains[i].port == 0)
    && (forall i :: 0 <= i < |n.ips| ==> n.ips[i].port == 0)
  }

  /** What one domain adds to the text. */
  function WithDomain(text: string, d: DomainPort, addLoopback: bool): string {
    if KeepDomain(d, addLoopback) then Append(text, DomainText(d)) else text
  }

  function WithIp(net: Net, text: string, i: IpPort, addLoopback: bool): string {
    if KeepIp(net, i, addLoopback) then Append(text, net.printIP(i.ip)) else text
  }

  lemma JoinDomain(ds: seq<DomainPort>, i: nat, addLoopback: bool)
    requires i < |ds|
    ensures Joined(DomainEntries(ds[..i + 1], addLoopback)) ==
            WithDomain(Joined(DomainEntries(ds[..i], addLoopback)), ds[i], addLoopback)
  {
    assert ds[..i + 1][..i] == ds[..i];
    JoinOne(DomainEntries(ds[..i], addLoopback), DomainText(ds[i]));
    assert DomainEntries(ds[..i], addLoopback) + [] == DomainEntries(ds[..i], addLoopback);
  }

  /** The body of the loop over the domains: the loopback names at the end stand for some of them. */
  method AppendDomain(text: string, d: DomainPort, addLoopback: bool) returns (longer: string)
    requires d.domain != ""
    ensures longer == WithDomain(text, d, addLoopback)
  {
    var x;
    if d.subdomainsOnly {
      x := d.domain;
      if addLoopback && x == DOT_LOCALHOST {
        return text;
      }
    } else {
      x := d.domain[1..];
      if addLoopback && x == LOCALHOST {
        return text;
      }
    }
    return Append(text, x);
  }

  /** The text of the domains in front of the i-th one. */
  ghost predicate DomainsJoined(text: string, ds: seq<DomainPort>, i: nat, addLoopback: bool) {
    i <= |ds| && text == Joined(DomainEntries(ds[..i], addLoopback))
  }

  method AppendNextDomain(text: string, ds: seq<DomainPort>, i: nat, addLoopback: bool) returns (longer: string)
    requires i < |ds| && ds[i].domain != "" && DomainsJoined(text, ds, i, addLoopback)
    ensures DomainsJoined(longer, ds, i + 1, addLoopback)
  {
    JoinDomain(ds, i, addLoopback);
    longer := AppendDomain(text, ds[i], addLoopback);
  }

  /** The loop over the domains. */
  method FormatDomains(ds: seq<DomainPort>, addLoopback: bool) returns (text: string, errors: nat)
    requires forall i :: 0 <= i < |ds| ==> ds[i].domain != ""
    ensures text == Joined(DomainEntries(ds, addLoopback))
    ensures errors == 0 <==> forall i :: 0 <= i < |ds| ==> ds[i].port == 0
  {
    text, errors := "", 0;
    assert ds[..0] == [];
    for i := 0 to |ds|
      invariant errors == 0 <==> forall k :: 0 <= k < i ==> ds[k].port == 0
      invariant DomainsJoined(text, ds, i, addLoopback)
    {
      if ds[i].port != 0 {
        errors := errors + 1;
      }
      text := AppendNextDomain(text, ds, i, addLoopback);
    }
    assert ds[..|ds|] == ds;
  }

  lemma JoinIp(net: Net, addrs: seq<IpPort>, i: nat, addLoopback: bool, before: seq<string>)
    requires i < |addrs|
    ensures Joined(before + IpEntries(net, addrs[..i + 1], addLoopback)) ==
            WithIp(net, Joined(before + IpEntries(net, addrs[..i], addLoopback)), addrs[i], addLoopback)
  {
    assert addrs[..i + 1][..i] == addrs[..i];
    var entries, x := IpEntries(net, addrs[..i], addLoopback), net.printIP(addrs[i].ip);
    JoinOne(before + entries, x);
    assert before + entries + [x] == before + (entries + [x]);
    assert entries + [] == entries;
  }

  /** The loop over the addresses. */
  method FormatIps(net: Net, addrs: seq<IpPort>, addLoopback: bool, prefix: string, ghost before: seq<string>)
    returns (text: string, errors: nat)
    requires prefix == Joined(before)
    ensures text == Joined(before + IpEntries(net, addrs, addLoopback))
    ensures errors == 0 <==> forall i :: 0 <= i < |addrs| ==> addrs[i].port == 0
  {
    text, errors := prefix, 0;
    assert before + IpEntries(net, addrs[..0], addLoopback) == before;
    for i := 0 to |addrs|
      invariant errors == 0 <==> forall k :: 0 <= k < i ==> addrs[k].port == 0
      invariant text == Joined(before + IpEntries(net, addrs[..i], addLoopback))
    {
      JoinIp(net, addrs, i, addLoopback, before);
      if addrs[i].port != 0 {
        errors := errors + 1;
      }
      text := AppendIp(net, text, addrs[i], addLoopback);
    }
    assert addrs[..|addrs|] == addrs;
  }

  /** The body of the loop over the addresses. */
  method AppendIp(net: Net, text: string, i: IpPort, addLoopback: bool) returns (longer: string)
    ensures longer == WithIp(net, text, i, addLoopback)
  {
    if addLoopback && net.isLoopback(i.ip) {
      return text;
    }
    return Append(text, net.printIP(i.ip));
  }

  function Format(net: Net, n: NoProxy, addLoopback: bool): Option<string> {
    if n.isAsterisk then Some("*")
    else if !Representable(n) then None
    else Some(Joined(Entries(net, n, addLoopback)))
  }

  /** The text is built first; reasons why an entry cannot be expressed are counted and reported at the end. */
  method FormatLibcurlCompatible(net: Net, n: NoProxy, addLoopback: bool) returns (r: Option<string>)
    requires forall i :: 0 <= i < |n.domains| ==> n.domains[i].domain != ""
    ensures r == Format(net, n, addLoopback)
    ensures if n.isAsterisk then r == Some("*") else r.Some? <==> Representable(n)
  {
    if n.isAsterisk {
      return Some("*");
    }
    var text, domainErrors := FormatDomains(n.domains, addLoopback);
    var ipErrors;
    ghost var entries := DomainEntries(n.domains, addLoopback);
    text, ipErrors := FormatIps(net, n.ips, addLoopback, text, entries);
    entries := entries + IpEntries(net, n.ips, addLoopback);
    if |n.cidrs| + domainErrors + ipErrors > 0 {
      return None;
    }
    if addLoopback {
      JoinLoopback(entries);
      text := Append(text, LOOPBACK_TEXT);
    } else {
      assert Entries(net, n, addLoopback) == entries;
    }
    return Some(text);
  }

  lemma JoinOne(entries: seq<string>, x: string)
    ensures Joined(entries + [x]) == Append(Joined(entries), x)
  {
    assert (entries + [x])[..|entries|] == entries;
  }

  lemma AppendTwice(text: string, x: string, y: string)
    requires x != ""
    ensures Append(Append(text, x), y) == Append(text, x + "," + y)
  {
    assert text + "," + (x + "," + y) == text + "," + x + "," + y;
  }

  /** The constant tail of the text is the four loopback names joined. */
  lemma JoinLoopback(entries: seq<string>)
    ensures Joined(entries + LOOPBACK_NAMES) == Append(Joined(entries), LOOPBACK_TEXT)
  {
    var a, b, c, d := DOT_LOCALHOST, LOCALHOST, LOOPBACK_V4, LOOPBACK_V6;
    JoinFour(entries, a, b, c, d);
    assert LOOPBACK_NAMES == [a, b, c, d];
  }

  lemma JoinFour(entries: seq<string>, a: string, b: string, c: string, d: string)
    requires a != ""
    ensures Joined(entries + [a, b, c, d]) == Append(Joined(entries), a + "," + b + "," + c + "," + d)
  {
    var t := Joined(entries);
    JoinOne(entries, a);
    JoinOne(entries + [a], b);
    AppendTwice(t, a, b);
    JoinOne(entries + [a] + [b], c);
    AppendTwice(t, a + "," + b, c);
    JoinOne(entries + [a] + [b] + [c], d);
    AppendTwice(t, a + "," + b + "," + c, d);
    assert entries + [a] + [b] + [c] + [d] == entries + [a, b, c, d];
  }

  predicate DomainMatches(d: DomainPort, hostname: string, port: int) {
    (HasSuffix(hostname, d.domain) || (!d.subdomainsOnly && d.domain != "" && d.domain[1..] == hostname)) &&
    (d.port == 0 || d.port == port)
  }

  predicate NameBypasses(n: NoProxy, hostname: string, port: int) {
    || HasSuffix(hostname, DOT_LOCALHOST) || hostname == LOCALHOST
    || exists d :: d in n.domains && DomainMatches(d, hostname, port)
  }

  predicate AddressBypasses(net: Net, n: NoProxy, ip: IP, port: int) {
    || net.isLoopback(ip)
    || (exists c :: c in n.cidrs && net.contains(c, ip))
    || exists i :: i in n.ips && i.ip == ip && (i.port == 0 || i.port == port)
  }

  /** useProxyHost: false means that the host bypasses the proxy. */
  function UseProxyHost(net: Net, n: NoProxy, hostname: string, port: int): bool {
    if n.isAsterisk then false
    else
      match net.parseIP(hostname)
      case Some(ip) => !AddressBypasses(net, n, ip, port)
      case None => !NameBypasses(n, hostname, port)
  }
}
