/** Cookies, their matching rules and the labels of their domains (libaria2/src/Cookie.cc, cookie_helper.cc). */
module Cookies {
  import opened Text

  datatype Cookie = Cookie(
    name: string, value: string, expiryTime: int, persistent: bool, domain: string, hostOnly: bool,
    path: string, secure: bool, httpOnly: bool, creationTime: int, lastAccessTime: int)

  /** What identifies a cookie: Cookie::operator==. */
  datatype Key = Key(domain: string, path: string, name: string)

  function KeyOf(c: Cookie): Key { Key(c.domain, c.path, c.name) }

  predicate IsExpired(c: Cookie, base: int) { c.persistent && base > c.expiryTime }

  predicate StartsWith(a: string, b: string) { |b| <= |a| && a[..|b|] == b }

  predicate EndsWith(a: string, b: string) { |b| <= |a| && a[|a| - |b|..] == b }

  /** Path matching (section 5.1.4 of RFC 6265). */
  predicate PathMatch(requestPath: string, path: string) {
    requestPath == path ||
    (StartsWith(requestPath, path) && path != "" &&
     (path[|path| - 1] == '/' || (|path| < |requestPath| && requestPath[|path|] == '/')))
  }

  /** Domain matching (section 5.1.3 of RFC 6265); `numeric` tells numeric hosts from names. */
  predicate DomainMatch(numeric: string -> bool, requestHost: string, domain: string) {
    requestHost == domain ||
    (EndsWith(requestHost, domain) && |domain| < |requestHost| &&
     requestHost[|requestHost| - |domain| - 1] == '.' && !numeric(requestHost))
  }

  /** Cookie::match. */
  predicate Matches(numeric: string -> bool, c: Cookie, requestHost: string, requestPath: string, date: int, secure: bool) {
    if (c.secure && !secure) || IsExpired(c, date) || !PathMatch(requestPath, c.path) then false
    else if c.hostOnly then requestHost == c.domain
    else DomainMatch(numeric, requestHost, c.domain)
  }

  // ----- labels

  /** The position of the first dot, or the length. */
  function FindDot(s: string): (j: nat)
    ensures j <= |s| && (j < |s| ==> s[j] == '.') && forall i | 0 <= i < j :: s[i] != '.'
  {
    if s == "" || s[0] == '.' then 0 else 1 + FindDot(s[1..])
  }

  /** util::split on dots; empty labels are dropped. */
  function Split(s: string): seq<string>
    decreases |s|
  {
    if s == "" then []
    else
      var j := FindDot(s);
      (if j == 0 then [] else [s[..j]]) + (if j == |s| then [] else Split(s[j + 1..]))
  }

  function Labels(numeric: string -> bool, domain: string): seq<string> {
    if numeric(domain) then [domain] else Split(domain)
  }

  function Reverse(s: seq<string>): (r: seq<string>)
    ensures |r| == |s|
  {
    if s == [] then [] else Reverse(s[1..]) + [s[0]]
  }

  /** The way from the root of the trie to the node of a domain. */
  function Route(numeric: string -> bool, domain: string): seq<string> {
    Reverse(Labels(numeric, domain))
  }

  lemma {:induction false} ReverseConcat(a: seq<string>, b: seq<string>)
    ensures Reverse(a + b) == Reverse(b) + Reverse(a)
    decreases |a|
  {
    if a == [] {
      assert a + b == b;
    } else {
      assert (a + b)[1..] == a[1..] + b && (a + b)[0] == a[0];
      ReverseConcat(a[1..], b);
    }
  }

  /** A dot separates labels: the labels of a.b are those of a followed by those of b. */
  lemma {:induction false} SplitAtDot(a: string, b: string)
    ensures Split(a + "." + b) == Split(a) + Split(b)
    decreases |a|
  {
    hide Split;
    var s := a + "." + b;
    var i := FindDot(a);
    assert s[i] == '.' && forall k | 0 <= k < i :: s[k] != '.';
    SplitFirst(s, i);
    assert s[..i] == a[..i];
    if i == |a| {
      assert s[i + 1..] == b && a[..i] == a;
      SplitNoDot(a);
    } else {
      assert s[i + 1..] == a[i + 1..] + "." + b;
      SplitFirst(a, i);
      SplitAtDot(a[i + 1..], b);
      Assoc(if i == 0 then [] else [a[..i]], Split(a[i + 1..]), Split(b));
    }
  }

  /** Splitting off the label before the first dot. */
  lemma {:induction false} SplitFirst(s: string, i: nat)
    requires i < |s| && s[i] == '.' && forall k | 0 <= k < i :: s[k] != '.'
    ensures Split(s) == (if i == 0 then [] else [s[..i]]) + Split(s[i + 1..])
  {
    hide FindDot;
    assert FindDot(s) == i;
    if i + 1 == |s| {
      assert s[i + 1..] == "";
      assert Split("") == [];
    }
  }

  lemma {:induction false} SplitNoDot(s: string)
    requires FindDot(s) == |s|
    ensures Split(s) == if s == "" then [] else [s]
  {
    assert s[..|s|] == s;
  }

  /** Labels are not empty and hold no dots. */
  lemma {:induction false} LabelsArePlain(s: string)
    ensures forall l | l in Split(s) :: l != "" && FindDot(l) == |l|
    decreases |s|
  {
    if s != "" {
      var j := FindDot(s);
      NoDotBefore(s, j);
      if j < |s| {
        LabelsArePlain(s[j + 1..]);
      }
    }
  }

  lemma {:induction false} NoDotBefore(s: string, j: nat)
    requires j <= |s| && forall i | 0 <= i < j :: s[i] != '.'
    ensures FindDot(s[..j]) == j
  {
    assert forall i | 0 <= i < j :: s[..j][i] == s[i];
  }

  /** What the trie relies on: a domain with a label, for the root keeps no cookies. */
  predicate Storable(numeric: string -> bool, c: Cookie) {
    Labels(numeric, c.domain) != []
  }

  /** The walk to a host comes by the domain: all domains but the numeric ones with dots, which need the host itself. */
  predicate Reached(numeric: string -> bool, domain: string, requestHost: string) {
    requestHost == domain || !numeric(domain) || (domain != "" && '.' !in domain)
  }

  /** A cookie that matches a host is kept on the way to that host exactly when the walk comes by its domain. */
  lemma MatchIsOnTheWay(numeric: string -> bool, c: Cookie, requestHost: string, requestPath: string, date: int, secure: bool)
    requires Matches(numeric, c, requestHost, requestPath, date, secure)
    ensures Route(numeric, c.domain) <= Route(numeric, requestHost) <==> Reached(numeric, c.domain, requestHost)
  {
    hide Split, Reverse;
    var d := c.domain;
    if requestHost != d {
      var a := requestHost[..|requestHost| - |d| - 1];
      assert requestHost == a + "." + d;
      SplitAtDot(a, d);
      ReverseConcat(Split(a), Split(d));
      assert Route(numeric, requestHost) == Reverse(Split(d)) + Reverse(Split(a));
      if numeric(d) {
        RouteOfNumeric(numeric, d);
        FirstOfRoute(Split(a) + Split(d), d);
        NumericLabel(a, d);
      }
    }
  }

  /** The route of a numeric domain is its text. */
  lemma RouteOfNumeric(numeric: string -> bool, d: string)
    requires numeric(d)
    ensures Route(numeric, d) == [d]
  {
    assert Reverse([d]) == Reverse([]) + [d];
  }

  lemma FirstOfRoute(labels: seq<string>, d: string)
    ensures [d] <= Reverse(labels) <==> labels != [] && labels[|labels| - 1] == d
  {
    hide Reverse;
    LastIsFirst(labels);
    StartsWithOne(d, Reverse(labels));
  }

  lemma {:induction false} LastIsFirst(labels: seq<string>)
    ensures |Reverse(labels)| == |labels| && (labels != [] ==> Reverse(labels)[0] == labels[|labels| - 1])
    decreases |labels|
  {
    if |labels| > 1 {
      LastIsFirst(labels[1..]);
    }
  }

  lemma StartsWithOne(d: string, r: seq<string>)
    ensures [d] <= r <==> r != [] && r[0] == d
  {
  }

  /** The last label of a host that ends in a domain is the domain only if that has no dot. */
  lemma NumericLabel(a: string, d: string)
    ensures var labels := Split(a) + Split(d);
            labels != [] && labels[|labels| - 1] == d <==> d != "" && '.' !in d
  {
    var labels := Split(a) + Split(d);
    NoDots(d);
    if labels != [] && labels[|labels| - 1] == d {
      hide Split;
      assert d in labels;
      LabelsArePlain(a);
      LabelsArePlain(d);
    }
    if d != "" && '.' !in d {
      SplitNoDot(d);
    }
  }

  lemma NoDots(d: string)
    ensures FindDot(d) == |d| <==> '.' !in d
  {
  }

  /** A cookie for the numeric domain 1.2.3.4 matches the host a.1.2.3.4, and the walk never comes by it. */
  lemma NumericDomainIsMissed(numeric: string -> bool, c: Cookie, date: int)
    requires numeric("1.2.3.4") && !numeric("a.1.2.3.4")
    requires c.domain == "1.2.3.4" && c.path == "/" && !c.hostOnly && !c.secure && !IsExpired(c, date)
    ensures Matches(numeric, c, "a.1.2.3.4", "/", date, false)
    ensures !(Route(numeric, c.domain) <= Route(numeric, "a.1.2.3.4"))
  {
    assert EndsWith("a.1.2.3.4", "1.2.3.4");
    assert "1.2.3.4"[1] == '.';
    MatchIsOnTheWay(numeric, c, "a.1.2.3.4", "/", date, false);
  }

  lemma RouteOfStorable(numeric: string -> bool, c: Cookie)
    requires Storable(numeric, c)
    ensures Route(numeric, c.domain) != []
  {
  }
}
