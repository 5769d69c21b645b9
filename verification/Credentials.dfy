/**
 * HTTP basic credentials and the order in which they are kept
 * (libaria2/src/AuthConfigFactory.cc): by host, then port, then path downwards.
 */
module Credentials {

  datatype Cred = Cred(user: string, password: string, host: string, port: nat, path: string, activated: bool)

  /** The order of std::string. */
  predicate LexLess(a: string, b: string) {
    b != [] && (a == [] || a[0] < b[0] || (a[0] == b[0] && LexLess(a[1..], b[1..])))
  }

  lemma {:induction false} LexIsAsymmetric(a: string, b: string)
    requires LexLess(a, b)
    ensures !LexLess(b, a) && a != b
    decreases |a|
  {
    if a != [] && a[0] == b[0] {
      LexIsAsymmetric(a[1..], b[1..]);
    }
  }

  lemma {:induction false} LexIsTransitive(a: string, b: string, c: string)
    requires LexLess(a, b) && LexLess(b, c)
    ensures LexLess(a, c)
    decreases |a|
  {
    if a != [] && a[0] == b[0] == c[0] {
      LexIsTransitive(a[1..], b[1..], c[1..]);
    }
  }

  lemma {:induction false} LexIsTotal(a: string, b: string)
    ensures a == b || LexLess(a, b) || LexLess(b, a)
    decreases |a|
  {
    if a != [] && b != [] && a[0] == b[0] {
      LexIsTotal(a[1..], b[1..]);
      assert a == [a[0]] + a[1..] && b == [b[0]] + b[1..];
    }
  }

  lemma {:induction false} PrefixIsLess(a: string, b: string)
    requires a < b
    ensures LexLess(a, b)
    decreases |a|
  {
    if a != [] {
      PrefixIsLess(a[1..], b[1..]);
    }
  }

  /** The constructor of BasicCred closes every path with a slash. */
  function Normalized(path: string): string {
    if path == [] || path[|path| - 1] != '/' then path + "/" else path
  }

  predicate SameKey(a: Cred, b: Cred) {
    a.host == b.host && a.port == b.port && a.path == b.path
  }

  predicate Less(a: Cred, b: Cred) {
    LexLess(a.host, b.host) ||
    (!LexLess(b.host, a.host) && (a.port < b.port || (!(b.port < a.port) && LexLess(b.path, a.path))))
  }

  /** Either of two credentials comes first exactly when they differ in host, port or path. */
  lemma LessIsTotal(a: Cred, b: Cred)
    ensures Less(a, b) ==> !Less(b, a)
    ensures !Less(a, b) && !Less(b, a) <==> SameKey(a, b)
  {
    LexIsTotal(a.host, b.host);
    LexIsTotal(a.path, b.path);
    assert LexLess(a.host, b.host) ==> !LexLess(b.host, a.host) && a.host != b.host by {
      if LexLess(a.host, b.host) {
        LexIsAsymmetric(a.host, b.host);
      }
    }
    assert LexLess(b.host, a.host) ==> a.host != b.host by {
      if LexLess(b.host, a.host) {
        LexIsAsymmetric(b.host, a.host);
      }
    }
    assert LexLess(a.path, b.path) ==> !LexLess(b.path, a.path) && a.path != b.path by {
      if LexLess(a.path, b.path) {
        LexIsAsymmetric(a.path, b.path);
      }
    }
    assert LexLess(b.path, a.path) ==> a.path != b.path by {
      if LexLess(b.path, a.path) {
        LexIsAsymmetric(b.path, a.path);
      }
    }
  }

  lemma LessIsTransitive(a: Cred, b: Cred, c: Cred)
    requires Less(a, b) && Less(b, c)
    ensures Less(a, c)
  {
    hide LexLess;
    LexIsTotal(a.host, b.host);
    LexIsTotal(b.host, c.host);
    if LexLess(a.host, b.host) && LexLess(b.host, c.host) {
      LexIsTransitive(a.host, b.host, c.host);
    } else if a.host == b.host == c.host && a.port == b.port == c.port {
      LexIsTransitive(c.path, b.path, a.path);
    }
  }

  ghost predicate StrictlySorted(s: seq<Cred>) {
    forall i, j | 0 <= i < j < |s| :: Less(s[i], s[j])
  }

  /** What the set holds: one credential for each host, port and closed path. */
  ghost predicate ValidCreds(s: seq<Cred>) {
    StrictlySorted(s) && forall i | 0 <= i < |s| :: Normalized(s[i].path) == s[i].path
  }

  /** The credential covers the requested path (section 2.2 of RFC 7617). */
  predicate Covers(c: Cred, host: string, port: nat, path: string) {
    c.host == host && c.port == port && c.path <= Normalized(path)
  }

  /** The credential at i covers the path, and with a longer path than every other one that does. */
  ghost predicate IsLongest(s: seq<Cred>, host: string, port: nat, path: string, i: nat) {
    i < |s| && Covers(s[i], host, port, path) &&
    forall k | 0 <= k < |s| && k != i && Covers(s[k], host, port, path) :: |s[k].path| < |s[i].path|
  }

  ghost predicate SomeCovers(s: seq<Cred>, host: string, port: nat, path: string) {
    exists k :: 0 <= k < |s| && Covers(s[k], host, port, path)
  }

  /** Only whole segments count: `/doc` covers `/doc` and what lies below `/doc/`, never `/docs`. */
  lemma CoversWholeSegments(c: Cred, stored: string, host: string, port: nat, path: string)
    requires c.path == Normalized(stored)
    ensures Covers(c, host, port, path) <==>
            && c.host == host && c.port == port
            && if stored != "" && stored[|stored| - 1] == '/' then
                 stored <= path || (path + "/" == stored && (path == "" || path[|path| - 1] != '/'))
               else path == stored || stored + "/" <= path
  {
    var p := Normalized(path);
    assert path <= p;
    if c.path <= p && p != c.path {
      assert c.path == p[..|c.path|] == path[..|c.path|];
    } else if c.path <= path {
      assert c.path == path[..|c.path|] == p[..|c.path|];
    }
  }

  /** For a path that is stored, which is closed by a slash. */
  lemma CoversInFields(c: Cred, host: string, port: nat, path: string)
    requires Normalized(c.path) == c.path
    ensures Covers(c, host, port, path) <==>
            && c.host == host && c.port == port
            && (c.path <= path || (c.path == path + "/" && (path == "" || path[|path| - 1] != '/')))
  {
    CoversWholeSegments(c, c.path, host, port, path);
    if c.path == path {
      assert c.path <= path;
    }
  }

  /** A credential that stands before the search key never covers the key's path. */
  lemma NoneBefore(c: Cred, key: Cred)
    requires Less(c, key) && Normalized(key.path) == key.path
    ensures !Covers(c, key.host, key.port, key.path)
  {
    hide LexLess;
    if c.host == key.host && c.port == key.port && c.path <= key.path {
      LessIsTotal(c, key);
      if c.path != key.path {
        PrefixIsLess(c.path, key.path);
      }
    }
  }

  /** The first one that covers the path, in the order of the set, has the longest path. */
  lemma FirstIsLongest(a: Cred, b: Cred, path: string)
    requires Less(a, b)
    requires Covers(a, a.host, a.port, path) && Covers(b, a.host, a.port, path)
    ensures |b.path| < |a.path|
  {
    hide LexLess;
    var p := Normalized(path);
    assert a.path == p[..|a.path|] && b.path == p[..|b.path|];
    LessIsTotal(a, b);
    if |a.path| <= |b.path| {
      assert a.path <= b.path;
      assert a.path < b.path;
      PrefixIsLess(a.path, b.path);
    }
  }

  /** std::set::lower_bound: the first place that does not stand before the key. */
  function LowerBound(s: seq<Cred>, key: Cred): (i: nat)
    ensures i <= |s|
    ensures forall k | 0 <= k < i :: Less(s[k], key)
    ensures i < |s| ==> !Less(s[i], key)
  {
    if s == [] || !Less(s[0], key) then 0 else LowerBound(s[1..], key) + 1
  }

  lemma LowerBoundIsUnique(s: seq<Cred>, key: Cred, i: nat)
    requires i <= |s| && (forall k | 0 <= k < i :: Less(s[k], key)) && (i < |s| ==> !Less(s[i], key))
    ensures i == LowerBound(s, key)
  {
  }

  /** What lies behind the lower bound is greater than the key, or has the key itself and is the first. */
  lemma BehindLowerBound(s: seq<Cred>, key: Cred, k: nat)
    requires StrictlySorted(s) && LowerBound(s, key) <= k < |s|
    ensures Less(key, s[k]) || (SameKey(key, s[k]) && k == LowerBound(s, key))
  {
    hide LowerBound, Less, SameKey;
    var i := LowerBound(s, key);
    LessIsTotal(key, s[i]);
    if i < k {
      if Less(key, s[i]) {
        LessIsTransitive(key, s[i], s[k]);
      } else {
        SameKeyIsLess(key, s[i], s[k]);
      }
    }
  }

  lemma SameKeyIsLess(a: Cred, b: Cred, c: Cred)
    requires SameKey(a, b)
    ensures Less(a, c) <==> Less(b, c)
  {
    hide LexLess;
  }

  ghost predicate HasKey(s: seq<Cred>, c: Cred) {
    exists k :: 0 <= k < |s| && SameKey(s[k], c)
  }

  /** std::set::insert: an element with an equal key stays as it is. */
  ghost function Inserted(s: seq<Cred>, c: Cred): seq<Cred> {
    var i := LowerBound(s, c);
    if i < |s| && !Less(c, s[i]) then s else s[..i] + [c] + s[i..]
  }

  lemma TakenExactlyByKey(s: seq<Cred>, c: Cred)
    requires StrictlySorted(s)
    ensures var i := LowerBound(s, c);
            (i < |s| && !Less(c, s[i]) <==> HasKey(s, c)) && (HasKey(s, c) ==> SameKey(c, s[i]))
  {
    hide LowerBound, Less, SameKey;
    var i := LowerBound(s, c);
    if i < |s| && !Less(c, s[i]) {
      LessIsTotal(c, s[i]);
      LessIsTotal(s[i], c);
    }
    forall k | 0 <= k < |s|
      ensures SameKey(s[k], c) ==> k == i && !Less(c, s[i]) && SameKey(c, s[i])
    {
      LessIsTotal(s[k], c);
      LessIsTotal(c, s[k]);
      if i <= k {
        BehindLowerBound(s, c, k);
      }
    }
  }

  lemma InsertedIsValid(s: seq<Cred>, c: Cred)
    requires ValidCreds(s) && Normalized(c.path) == c.path
    ensures ValidCreds(Inserted(s, c))
  {
    hide LowerBound, Less, SameKey, Normalized;
    var i := LowerBound(s, c);
    if !(i < |s| && !Less(c, s[i])) {
      var r := s[..i] + [c] + s[i..];
      forall a, b | 0 <= a < b < |r|
        ensures Less(r[a], r[b])
      {
        if a == i {
          BehindLowerBound(s, c, b - 1);
          if b - 1 == i {
            LessIsTotal(c, s[i]);
          }
        } else if a < i && i < b {
          LessIsTransitive(s[a], c, s[b - 1]) by {
            BehindLowerBound(s, c, b - 1);
            LessIsTotal(c, s[b - 1]);
          }
        }
      }
    }
  }
}
