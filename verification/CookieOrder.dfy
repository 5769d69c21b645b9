/** The order in which cookies are sent: OrderByPathDepthDesc (libaria2/src/CookieStorage.cc). */
module CookieOrder {
  import opened Cookies
  import opened Sorting

  /** The slashes among the first n bytes that do not follow a slash, the first byte aside. */
  function SlashRuns(path: string, n: nat): nat
    requires n <= |path|
  {
    if n <= 1 then 0
    else SlashRuns(path, n - 1) + if path[n - 1] == '/' && path[n - 2] != '/' then 1 else 0
  }

  function PathDepth(path: string): nat {
    if path == "" then 0 else SlashRuns(path, |path|) + if path[|path| - 1] != '/' then 1 else 0
  }

  datatype CookiePathDivider = CookiePathDivider(cookie: Cookie, pathDepth: nat)

  /** A path segment ends at i. */
  predicate SegmentEnd(path: string, i: nat) {
    i < |path| && path[i] != '/' && (i + 1 == |path| || path[i + 1] == '/')
  }

  ghost function Ends(path: string): set<nat> {
    set i: nat | i < |path| && SegmentEnd(path, i)
  }

  ghost function EndsBefore(path: string, n: nat): set<nat> {
    set i: nat | i + 1 < n && SegmentEnd(path, i)
  }

  lemma {:induction false} SlashRunsAreEnds(path: string, n: nat)
    requires n <= |path|
    ensures SlashRuns(path, n) == |EndsBefore(path, n)|
    decreases n
  {
    hide EndsBefore;
    NextEnd(path, n);
    if n > 1 {
      SlashRunsAreEnds(path, n - 1);
    }
  }

  lemma NextEnd(path: string, n: nat)
    requires n <= |path|
    ensures n <= 1 ==> EndsBefore(path, n) == {}
    ensures n > 1 ==> |EndsBefore(path, n)| ==
                      |EndsBefore(path, n - 1)| + if path[n - 1] == '/' && path[n - 2] != '/' then 1 else 0
  {
    if n > 1 {
      if SegmentEnd(path, n - 2) {
        assert EndsBefore(path, n) == EndsBefore(path, n - 1) + {n - 2};
      } else {
        assert EndsBefore(path, n) == EndsBefore(path, n - 1);
      }
    }
  }

  /** The depth of a path is the number of its segments, empty ones not counted. */
  lemma DepthCountsSegments(path: string)
    ensures PathDepth(path) == |Ends(path)|
  {
    hide SlashRuns, EndsBefore;
    SlashRunsAreEnds(path, |path|);
    LastSegment(path);
  }

  lemma LastSegment(path: string)
    ensures var n := |path|; |Ends(path)| == |EndsBefore(path, n)| + if n > 0 && path[n - 1] != '/' then 1 else 0
  {
    var n := |path|;
    if n > 0 && path[n - 1] != '/' {
      assert Ends(path) == EndsBefore(path, n) + {n - 1};
    } else {
      assert Ends(path) == EndsBefore(path, n);
    }
  }

  method Divide(c: Cookie) returns (d: CookiePathDivider)
    ensures d == CookiePathDivider(c, PathDepth(c.path))
  {
    var depth := 0;
    if c.path != "" {
      for i := 1 to |c.path|
        invariant depth == SlashRuns(c.path, i)
      {
        if c.path[i] == '/' && c.path[i - 1] != '/' {
          depth := depth + 1;
        }
      }
      if c.path[|c.path| - 1] != '/' {
        depth := depth + 1;
      }
    }
    d := CookiePathDivider(c, depth);
  }

  /** OrderByPathDepthDesc. */
  predicate Before(l: CookiePathDivider, r: CookiePathDivider) {
    l.pathDepth > r.pathDepth || (!(r.pathDepth > l.pathDepth) && l.cookie.creationTime < r.cookie.creationTime)
  }

  /** It is an ordering that std::sort accepts. */
  lemma BeforeIsStrictWeak(divs: seq<CookiePathDivider>)
    ensures StrictWeakOrder(Before, divs)
  {
  }

  /** Deeper paths first, and earlier ones first among equals. */
  ghost predicate ByDepth(res: seq<Cookie>) {
    forall i, j | 0 <= i < j < |res| ::
      PathDepth(res[i].path) > PathDepth(res[j].path) ||
      (PathDepth(res[i].path) == PathDepth(res[j].path) && res[i].creationTime <= res[j].creationTime)
  }

  method SortByPath(found: seq<Cookie>) returns (res: seq<Cookie>)
    ensures multiset(res) == multiset(found)
    ensures ByDepth(res)
  {
    hide PathDepth;
    var divs := [];
    for n := 0 to |found|
      invariant |divs| == n
      invariant forall i | 0 <= i < n :: divs[i] == CookiePathDivider(found[i], PathDepth(found[i].path))
    {
      var d := Divide(found[n]);
      divs := divs + [d];
    }
    BeforeIsStrictWeak(divs);
    var sorted := Sort(Before, divs);
    SortedDividers(found, divs, sorted);
    res := CookiesOf(sorted);
  }

  function CookiesOf(divs: seq<CookiePathDivider>): (r: seq<Cookie>)
    ensures |r| == |divs| && forall i | 0 <= i < |divs| :: r[i] == divs[i].cookie
  {
    seq(|divs|, i requires 0 <= i < |divs| => divs[i].cookie)
  }

  lemma SortedDividers(found: seq<Cookie>, divs: seq<CookiePathDivider>, sorted: seq<CookiePathDivider>)
    requires |divs| == |found| && forall i | 0 <= i < |found| :: divs[i] == CookiePathDivider(found[i], PathDepth(found[i].path))
    requires multiset(sorted) == multiset(divs)
    ensures multiset(CookiesOf(sorted)) == multiset(found)
    ensures forall i | 0 <= i < |sorted| :: sorted[i].pathDepth == PathDepth(sorted[i].cookie.path)
  {
    hide PathDepth;
    assert CookiesOf(divs) == found;
    forall i | 0 <= i < |sorted|
      ensures sorted[i] == CookiePathDivider(sorted[i].cookie, PathDepth(sorted[i].cookie.path))
    {
      assert sorted[i] in multiset(divs);
    }
    forall c
      ensures multiset(CookiesOf(sorted))[c] == multiset(found)[c]
    {
      CountedTheSame(divs, c);
      CountedTheSame(sorted, c);
    }
  }

  /** A cookie determines its divider, so dropping the depths loses no multiplicity. */
  lemma {:induction false} CountedTheSame(divs: seq<CookiePathDivider>, c: Cookie)
    requires forall i | 0 <= i < |divs| :: divs[i] == CookiePathDivider(divs[i].cookie, PathDepth(divs[i].cookie.path))
    ensures multiset(CookiesOf(divs))[c] == multiset(divs)[CookiePathDivider(c, PathDepth(c.path))]
    decreases |divs|
  {
    hide PathDepth;
    if divs != [] {
      var init, last := divs[..|divs| - 1], divs[|divs| - 1];
      CountedTheSame(init, c);
      assert divs == init + [last] && CookiesOf(divs) == CookiesOf(init) + [last.cookie];
    }
  }

  // ----- depth and length

  /** Nothing but slashes. */
  predicate AllSlashes(s: string) {
    forall i | 0 <= i < |s| :: s[i] == '/'
  }

  /** q is p with more slashes at its end. */
  predicate SlashesLonger(p: string, q: string) {
    |p| < |q| && q[..|p|] == p && AllSlashes(q[|p|..])
  }

  /** Of two paths that match one request, the segments of the shorter one are the first of the longer one. */
  lemma SegmentsOfShorter(r: string, p: string, q: string)
    requires PathMatch(r, p) && PathMatch(r, q) && |p| < |q|
    ensures q[..|p|] == p && Ends(p) == set i | i in Ends(q) && i < |p|
  {
    assert q[..|p|] == r[..|p|] == p;
    assert p == "" || p[|p| - 1] == '/' || q[|p|] == '/';
  }

  /** A part of a path holds the end of a segment unless it is slashes only. */
  lemma LastEnd(q: string, n: nat)
    requires n <= |q|
    ensures AllSlashes(q[n..]) <==> forall i | i in Ends(q) :: i < n
  {
    assert forall k | n <= k < |q| :: q[n..][k - n] == q[k];
    assert AllSlashes(q[n..]) <==> forall k | n <= k < |q| :: q[k] == '/';
    if !AllSlashes(q[n..]) {
      var i := |q| - 1;
      while i > n && q[i] == '/'
        invariant n <= i < |q| && forall k | i < k < |q| :: q[k] == '/'
        decreases i
      {
        i := i - 1;
      }
      assert SegmentEnd(q, i) && i in Ends(q);
    }
  }

  /** A longer matching path is never less deep, and it is just as deep exactly when it only has more slashes at its end. */
  lemma DepthOfLonger(r: string, p: string, q: string)
    requires PathMatch(r, p) && PathMatch(r, q) && |p| < |q|
    ensures PathDepth(p) <= PathDepth(q)
    ensures PathDepth(p) == PathDepth(q) <==> SlashesLonger(p, q)
  {
    hide PathDepth, Ends, PathMatch;
    DepthCountsSegments(p);
    DepthCountsSegments(q);
    SegmentsOfShorter(r, p, q);
    LastEnd(q, |p|);
    var rest := Ends(q) - Ends(p);
    assert Ends(q) == Ends(p) + rest;
    assert rest == {} <==> forall i | i in Ends(q) :: i < |p|;
  }

  /** The order of section 5.4 of RFC 6265: longer paths first, and earlier ones first among equals. */
  ghost predicate LongerFirst(res: seq<Cookie>) {
    forall i, j | 0 <= i < j < |res| ::
      |res[i].path| > |res[j].path| || (|res[i].path| == |res[j].path| && res[i].creationTime <= res[j].creationTime)
  }

  /** What is sorted by depth is in that order exactly when no path stands before one that only has more slashes at its end. */
  lemma LongerFirstExactly(r: string, res: seq<Cookie>)
    requires ByDepth(res) && forall c | c in res :: PathMatch(r, c.path)
    ensures LongerFirst(res) <==> forall i, j | 0 <= i < j < |res| :: !SlashesLonger(res[i].path, res[j].path)
  {
    hide PathDepth, PathMatch;
    forall i, j | 0 <= i < j < |res|
      ensures |res[i].path| > |res[j].path| || (|res[i].path| == |res[j].path| && res[i].creationTime <= res[j].creationTime) <==>
              !SlashesLonger(res[i].path, res[j].path)
    {
      ComparedTwice(r, res[i], res[j]);
    }
  }

  lemma ComparedTwice(r: string, c: Cookie, d: Cookie)
    requires PathMatch(r, c.path) && PathMatch(r, d.path)
    requires PathDepth(c.path) > PathDepth(d.path) || (PathDepth(c.path) == PathDepth(d.path) && c.creationTime <= d.creationTime)
    ensures |c.path| > |d.path| || (|c.path| == |d.path| && c.creationTime <= d.creationTime) <==> !SlashesLonger(c.path, d.path)
  {
    hide PathDepth;
    if |c.path| < |d.path| {
      DepthOfLonger(r, c.path, d.path);
    } else if |c.path| == |d.path| {
      assert c.path == r[..|c.path|] == d.path;
    }
  }

  /** So it depends on the creation times of such paths alone; equal times leave it to std::sort. */
  lemma LongerFirstByTimes(r: string, res: seq<Cookie>)
    requires ByDepth(res) && forall c | c in res :: PathMatch(r, c.path)
    ensures (forall c, d | c in res && d in res && SlashesLonger(c.path, d.path) :: d.creationTime < c.creationTime) ==> LongerFirst(res)
    ensures (exists c, d | c in res && d in res && SlashesLonger(c.path, d.path) :: c.creationTime < d.creationTime) ==> !LongerFirst(res)
  {
    hide PathDepth, PathMatch, SlashesLonger, LongerFirst;
    LongerFirstExactly(r, res);
    forall i, j | 0 <= i < |res| && 0 <= j < |res| && SlashesLonger(res[i].path, res[j].path)
      ensures i != j && (i < j ==> res[i].creationTime <= res[j].creationTime) && (j < i ==> res[j].creationTime <= res[i].creationTime)
    {
      IsLonger(res[i].path, res[j].path);
      DepthOfLonger(r, res[i].path, res[j].path);
    }
  }

  lemma IsLonger(p: string, q: string)
    requires SlashesLonger(p, q)
    ensures |p| < |q|
  {
  }

  /** For the request /a/b a cookie for /a that was created first stands before one for /a/, the longer path. */
  lemma ShorterPathFirst(c: Cookie, d: Cookie)
    requires c.path == "/a" && d.path == "/a/" && c.creationTime < d.creationTime
    ensures PathMatch("/a/b", c.path) && PathMatch("/a/b", d.path)
    ensures ByDepth([c, d]) && !ByDepth([d, c]) && !LongerFirst([c, d])
  {
    assert SlashRuns("/a", 2) == 0 && SlashRuns("/a/", 2) == 0 && SlashRuns("/a/", 3) == 1;
    assert PathDepth("/a") == 1 && PathDepth("/a/") == 1;
    assert [c, d][0] == c && [c, d][1] == d && [d, c][0] == d && [d, c][1] == c;
  }
}
