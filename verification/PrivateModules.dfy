/**
  Path prefixes of private modules: the overlap check of the configuration loader
  (internal/config/loader.go) and the first-match scans that rely on it.
 */
module PrivateModules {
  import opened Basics
  import opened Text

  /** PathIsLexicalDescendant of internal/util/path.go. */
  predicate IsDescendant(path: string, ancestor: string) {
    if |path| < |ancestor| then false
    else if path[..|ancestor|] != ancestor then false
    else if |path| == |ancestor| then true
    else path[|ancestor|] == '/'
  }

  /** The documented meaning: equality, or a prefix once both have a slash behind them. */
  lemma IsDescendantIff(path: string, ancestor: string)
    ensures IsDescendant(path, ancestor) <==> path == ancestor || HasPrefix(path + "/", ancestor + "/")
  {
    var p, a := path + "/", ancestor + "/";
    if |ancestor| <= |path| {
      assert p[..|a|] == path[..|ancestor|] + [p[|ancestor|]];
      assert a[..|ancestor|] == ancestor && a[|ancestor|] == '/';
      assert p[..|a|][..|ancestor|] == path[..|ancestor|] && p[..|a|][|ancestor|] == p[|ancestor|];
    }
  }

  predicate Overlap(a: string, b: string) {
    IsDescendant(a, b) || IsDescendant(b, a)
  }

  lemma LongerIsDescendant(path: string, a: string, b: string)
    requires IsDescendant(path, a) && IsDescendant(path, b) && |a| <= |b|
    ensures IsDescendant(b, a)
  {
    assert b[..|a|] == path[..|b|][..|a|] == path[..|a|];
    if |a| < |b| {
      assert b[|a|] == path[..|b|][|a|];
    }
  }

  /** Two prefixes match a common path exactly if one is a descendant of the other. */
  lemma OverlapIff(a: string, b: string)
    ensures (exists path :: IsDescendant(path, a) && IsDescendant(path, b)) <==> Overlap(a, b)
  {
    if path :| IsDescendant(path, a) && IsDescendant(path, b) {
      if |a| <= |b| {
        LongerIsDescendant(path, a, b);
      } else {
        LongerIsDescendant(path, b, a);
      }
    }
    assert IsDescendant(a, a) && IsDescendant(b, b);
  }

  datatype Element = Element(pathPrefix: string, hasGitHubApp: bool)

  predicate IsValid(e: Element) {
    e.hasGitHubApp && e.pathPrefix != "" && e.pathPrefix[|e.pathPrefix| - 1] != '/'
  }

  predicate Accepted(elements: seq<Option<Element>>) {
    && (forall i :: 0 <= i < |elements| ==> elements[i].Some? && IsValid(elements[i].value))
    && (forall i, j :: 0 <= i < j < |elements| ==> !Overlap(elements[i].value.pathPrefix, elements[j].value.pathPrefix))
  }

  /**
    validatePrivateModulesElement: the number of errors it adds, and the
    part of the prefix in front of the first slash.
   */
  method ValidateElement(e: Element) returns (errors: nat, isValid: bool, host: string)
    ensures isValid <==> IsValid(e)
    ensures IsValid(e) ==> HasPrefix(e.pathPrefix + "/", host + "/") && '/' !in host
    ensures isValid <==> errors == 0
  {
    errors, host := if e.hasGitHubApp then 0 else 1, "";
    if e.pathPrefix == "" {
      errors := errors + 1;
    } else if e.pathPrefix[|e.pathPrefix| - 1] == '/' {
      errors := errors + 1;
    } else {
      var i := Index(e.pathPrefix, '/');
      host := e.pathPrefix[..i];
      HostIsFirst(e.pathPrefix, i);
    }
    isValid := errors == 0;
  }

  lemma HostIsFirst(prefix: string, i: nat)
    requires i == Index(prefix, '/')
    ensures HasPrefix(prefix + "/", prefix[..i] + "/") && '/' !in prefix[..i]
  {
    var p := prefix + "/";
    assert p[..i + 1] == prefix[..i] + [p[i]];
    assert p[i] == '/';
    assert i == |prefix| ==> prefix[..i] == prefix;
  }

  /** The inner loop, over the keys of the map in any order. */
  method CountOverlaps(prefixes: map<string, nat>, prefix: string) returns (errors: nat)
    ensures errors == 0 <==> forall p :: p in prefixes ==> !Overlap(p, prefix)
  {
    errors := 0;
    var left := prefixes.Keys;
    while left != {}
      invariant left <= prefixes.Keys
      invariant errors == 0 <==> forall p :: p in prefixes && p !in left ==> !Overlap(p, prefix)
      decreases left
    {
      var p :| p in left;
      if IsDescendant(p, prefix) || IsDescendant(prefix, p) {
        errors := errors + 1;
      }
      left := left - {p};
    }
  }

  /** validatePrivateModules reports no error exactly if all elements are valid and no two prefixes overlap. */
  method ValidatePrivateModules(elements: seq<Option<Element>>) returns (errors: nat)
    ensures errors == 0 <==> Accepted(elements)
  {
    errors := 0;
    var prefixes: map<string, nat> := map[];
    for i := 0 to |elements|
      invariant errors == 0 <==> Accepted(elements[..i])
      invariant errors == 0 ==> forall p :: p in prefixes <==>
                exists k :: 0 <= k < i && elements[k].value.pathPrefix == p
    {
      var before := elements[..i];
      assert elements[..i + 1] == before + [elements[i]];
      if elements[i].None? {
        errors := errors + 1;
      } else {
        var e := elements[i].value;
        var more, isValid, _ := ValidateElement(e);
        errors := errors + more;
        if isValid {
          more := CountOverlaps(prefixes, e.pathPrefix);
          AcceptedStep(before, e, prefixes);
          errors := errors + more;
          prefixes := prefixes[e.pathPrefix := i];
        }
      }
    }
    assert elements[..|elements|] == elements;
  }

  lemma AcceptedStep(before: seq<Option<Element>>, e: Element, prefixes: map<string, nat>)
    requires IsValid(e)
    requires Accepted(before) ==> forall p :: p in prefixes <==>
             exists k :: 0 <= k < |before| && before[k].value.pathPrefix == p
    ensures Accepted(before + [Some(e)]) <==>
            Accepted(before) && forall p :: p in prefixes ==> !Overlap(p, e.pathPrefix)
  {
    var after := before + [Some(e)];
    assert forall k :: 0 <= k < |before| ==> after[k] == before[k];
    if Accepted(after) {
      forall p | p in prefixes ensures !Overlap(p, e.pathPrefix) {
        var k :| 0 <= k < |before| && before[k].value.pathPrefix == p;
        assert after[k].value.pathPrefix == p && after[|before|].value == e;
      }
    }
    if Accepted(before) && forall p :: p in prefixes ==> !Overlap(p, e.pathPrefix) {
      forall k | 0 <= k < |before| ensures !Overlap(after[k].value.pathPrefix, e.pathPrefix) {
        assert before[k].value.pathPrefix in prefixes;
      }
    }
  }

  /** The scan of the service and of the credential helper: the first element whose prefix matches. */
  method FirstMatch(elements: seq<Element>, path: string) returns (e: Option<Element>)
    ensures e.Some? ==> e.value in elements && IsDescendant(path, e.value.pathPrefix)
    ensures e.None? ==> forall x :: x in elements ==> !IsDescendant(path, x.pathPrefix)
    ensures e.Some? ==> exists i :: 0 <= i < |elements| && elements[i] == e.value &&
                                    forall k :: 0 <= k < i ==> !IsDescendant(path, elements[k].pathPrefix)
    ensures e == First(elements, path)
  {
    for i := 0 to |elements|
      invariant forall k :: 0 <= k < i ==> !IsDescendant(path, elements[k].pathPrefix)
      invariant First(elements, path) == First(elements[i..], path)
    {
      if IsDescendant(path, elements[i].pathPrefix) {
        return Some(elements[i]);
      }
    }
    return None;
  }

  function First(elements: seq<Element>, path: string): Option<Element> {
    if elements == [] then None
    else if IsDescendant(path, elements[0].pathPrefix) then Some(elements[0])
    else First(elements[1..], path)
  }

  lemma {:induction false} FirstFinds(elements: seq<Element>, path: string)
    ensures match First(elements, path)
            case Some(e) => e in elements && IsDescendant(path, e.pathPrefix)
            case None => forall e :: e in elements ==> !IsDescendant(path, e.pathPrefix)
  {
    if elements != [] {
      FirstFinds(elements[1..], path);
      assert elements == [elements[0]] + elements[1..];
    }
  }

  /** Elements that match a common path are the same. */
  predicate Unambiguous(elements: seq<Element>) {
    forall x, y :: x in elements && y in elements && Overlap(x.pathPrefix, y.pathPrefix) ==> x == y
  }

  function Present(elements: seq<Element>): seq<Option<Element>> {
    seq(|elements|, i requires 0 <= i < |elements| => Some(elements[i]))
  }

  lemma AcceptedIsUnambiguous(elements: seq<Element>)
    requires Accepted(Present(elements))
    ensures Unambiguous(elements)
  {
    forall x, y | x in elements && y in elements && Overlap(x.pathPrefix, y.pathPrefix) ensures x == y {
      var i :| 0 <= i < |elements| && elements[i] == x;
      var j :| 0 <= j < |elements| && elements[j] == y;
      assert Present(elements)[i].value == x && Present(elements)[j].value == y;
    }
  }

  lemma SameElements(elements: seq<Element>, permuted: seq<Element>)
    requires multiset(elements) == multiset(permuted)
    ensures forall e :: e in permuted <==> e in elements
  {
    assert forall e :: e in permuted <==> e in multiset(permuted);
    assert forall e :: e in elements <==> e in multiset(elements);
  }

  /** In an unambiguous list every path finds the same element, in whatever order the list is scanned. */
  lemma SameInAnyOrder(elements: seq<Element>, permuted: seq<Element>, path: string)
    requires Unambiguous(elements) && multiset(elements) == multiset(permuted)
    ensures First(elements, path) == First(permuted, path)
  {
    FirstFinds(elements, path);
    FirstFinds(permuted, path);
    SameElements(elements, permuted);
    if First(elements, path).Some? && First(permuted, path).Some? {
      OverlapIff(First(elements, path).value.pathPrefix, First(permuted, path).value.pathPrefix);
    }
  }

  /** The same list with one element moved to the front. */
  lemma MoveToFront(elements: seq<Element>, x: Element) returns (permuted: seq<Element>)
    requires x in elements
    ensures multiset(permuted) == multiset(elements) && permuted != [] && permuted[0] == x
  {
    var i :| 0 <= i < |elements| && elements[i] == x;
    permuted := [x] + elements[..i] + elements[i + 1..];
    assert elements == elements[..i] + [x] + elements[i + 1..];
  }

  /** Two different overlapping elements give two orders in which some path finds different ones. */
  lemma OrderMatters(elements: seq<Element>, x: Element, y: Element)
    returns (path: string, a: seq<Element>, b: seq<Element>)
    requires x in elements && y in elements && x != y && Overlap(x.pathPrefix, y.pathPrefix)
    ensures multiset(a) == multiset(b) == multiset(elements) && First(a, path) == Some(x) && First(b, path) == Some(y)
  {
    path := if IsDescendant(x.pathPrefix, y.pathPrefix) then x.pathPrefix else y.pathPrefix;
    a := MoveToFront(elements, x);
    b := MoveToFront(elements, y);
  }

  ghost predicate OrderIndependent(elements: seq<Element>) {
    forall permuted, path :: multiset(elements) == multiset(permuted) ==> First(elements, path) == First(permuted, path)
  }

  /** The scan does not depend on the order exactly if no two different elements overlap. */
  lemma LookupIsOrderIndependentIff(elements: seq<Element>)
    ensures OrderIndependent(elements) <==> Unambiguous(elements)
  {
    if Unambiguous(elements) {
      forall permuted, path | multiset(elements) == multiset(permuted)
        ensures First(elements, path) == First(permuted, path)
      {
        SameInAnyOrder(elements, permuted, path);
      }
    } else {
      var x, y :| x in elements && y in elements && Overlap(x.pathPrefix, y.pathPrefix) && x != y;
      var path, a, b := OrderMatters(elements, x, y);
      assert First(a, path) != First(b, path);
    }
  }

  /** What the validation is for: in a list it accepts, the scan of any order finds the same element. */
  lemma AcceptedListsAreOrderIndependent(elements: seq<Element>)
    requires Accepted(Present(elements))
    ensures OrderIndependent(elements)
  {
    AcceptedIsUnambiguous(elements);
    LookupIsOrderIndependentIff(elements);
  }
}
