/** The store of basic credentials (libaria2/src/AuthConfigFactory.cc). */
module AuthConfigFactory {
  import opened Credentials
  import opened Options

  datatype Request =
    | Configure(user: string, password: string, host: string, port: nat, dir: string)
    | Activate(host: string, port: nat, dir: string, resolved: Option<AuthConfig>)

  datatype AuthConfig = AuthConfig(user: string, password: string)

  class BasicCred {
    var user: string
    var password: string
    var host: string
    var port: nat
    var path: string
    var activated: bool

    constructor (user: string, password: string, host: string, port: nat, path: string, activated: bool)
      ensures Value() == Cred(user, password, host, port, Normalized(path), activated)
    {
      this.user, this.password, this.host, this.port := user, password, host, port;
      this.path := if path == [] || path[|path| - 1] != '/' then path + "/" else path;
      this.activated := activated;
    }

    function Value(): Cred
      reads this
    {
      Cred(user, password, host, port, path, activated)
    }

    /** The move assignment of BasicCred. */
    method Assign(c: BasicCred)
      modifies this
      ensures Value() == old(c.Value())
    {
      user, password, host, port, path, activated := c.user, c.password, c.host, c.port, c.path, c.activated;
    }

    method Activate()
      modifies this
      ensures Value() == old(Value()).(activated := true)
    {
      activated := true;
    }
  }

  /** Every credential of a is still in b: its names and password untouched, and active if it was. */
  ghost predicate Grows(a: seq<Cred>, b: seq<Cred>) {
    forall c | c in a :: c in b || c.(activated := true) in b
  }

  lemma GrowsByNothing(a: seq<Cred>)
    ensures Grows(a, a)
  {
  }

  lemma GrowsIsTransitive(a: seq<Cred>, b: seq<Cred>, c: seq<Cred>)
    requires Grows(a, b) && Grows(b, c)
    ensures Grows(a, c)
  {
  }

  /** Over any run, a path once covered stays covered, and so does everything below it. */
  lemma CoverIsKept(a: seq<Cred>, b: seq<Cred>, host: string, port: nat, path: string, below: string)
    requires Grows(a, b) && SomeCovers(a, host, port, path) && Normalized(path) <= below
    ensures SomeCovers(b, host, port, path) && SomeCovers(b, host, port, below)
  {
    var k :| 0 <= k < |a| && Covers(a[k], host, port, path);
    assert a[k] in b || a[k].(activated := true) in b;
    var j :| 0 <= j < |b| && (b[j] == a[k] || b[j] == a[k].(activated := true));
    assert Covers(b[j], host, port, path);
    assert Normalized(path) <= below <= Normalized(below);
    assert Covers(b[j], host, port, below);
  }

  /** The header promises replacement; the stored credential stays whenever it has the key and differs. */
  lemma StoredExactlyWhenNewOrSame(s: seq<Cred>, c: Cred)
    requires StrictlySorted(s)
    ensures c in Inserted(s, c) <==> c in s || forall d | d in s :: d.host != c.host || d.port != c.port || d.path != c.path
    ensures exists d | d in Inserted(s, c) :: d.host == c.host && d.port == c.port && d.path == c.path
    ensures forall d | d in Inserted(s, c) :: d in s || d == c
  {
    hide Less, LowerBound;
    TakenExactlyByKey(s, c);
    var i := LowerBound(s, c);
    if !HasKey(s, c) {
      assert (s[..i] + [c] + s[i..])[i] == c;
      assert SameKey(c, c);
    }
  }

  lemma PasswordIsNotReplaced()
    ensures var stale := Cred("me", "old", "localhost", 80, "/", true);
            Inserted([stale], stale.(password := "new")) == [stale]
  {
    var stale := Cred("me", "old", "localhost", 80, "/", true);
    var given := stale.(password := "new");
    TakenExactlyByKey([stale], given);
    assert SameKey([stale][0], given);
  }

  // ----- lookup in the order of the set

  lemma NoneBeforeLowerBound(s: seq<Cred>, key: Cred, path: string)
    requires key.path == Normalized(path)
    ensures forall k | 0 <= k < LowerBound(s, key) :: !Covers(s[k], key.host, key.port, path)
  {
    hide LowerBound, Less;
    forall k | 0 <= k < LowerBound(s, key)
      ensures !Covers(s[k], key.host, key.port, path)
    {
      NoneBefore(s[k], key);
    }
  }

  /** The credentials of one host and port stand together. */
  lemma Between(a: Cred, b: Cred, c: Cred)
    requires Less(a, b) && Less(b, c) && a.host == c.host && a.port == c.port
    ensures b.host == a.host && b.port == a.port
  {
    hide LexLess;
    LexIsTotal(a.host, b.host);
    if LexLess(a.host, b.host) {
      LexIsAsymmetric(a.host, b.host);
    } else if LexLess(b.host, a.host) {
      LexIsAsymmetric(b.host, a.host);
    }
  }

  lemma NoneBehind(s: seq<Cred>, key: Cred, path: string, i: nat)
    requires StrictlySorted(s) && LowerBound(s, key) <= i <= |s|
    requires i < |s| ==> !(s[i].host == key.host && s[i].port == key.port)
    ensures forall k | i <= k < |s| :: !Covers(s[k], key.host, key.port, path)
  {
    hide LowerBound, Less;
    forall k | i <= k < |s|
      ensures !Covers(s[k], key.host, key.port, path)
    {
      if i < k && s[k].host == key.host && s[k].port == key.port {
        BehindLowerBound(s, key, i);
        Between(key, s[i], s[k]);
      }
    }
  }

  lemma LongestHere(s: seq<Cred>, host: string, port: nat, path: string, i: nat)
    requires StrictlySorted(s) && i < |s| && Covers(s[i], host, port, path)
    requires forall k | 0 <= k < i :: !Covers(s[k], host, port, path)
    ensures IsLongest(s, host, port, path, i) && SomeCovers(s, host, port, path)
  {
    hide Less;
    forall k | i < k < |s| && Covers(s[k], host, port, path)
      ensures |s[k].path| < |s[i].path|
    {
      FirstIsLongest(s[i], s[k], path);
    }
  }

  lemma InsertedGrows(s: seq<Cred>, c: Cred)
    ensures Grows(s, Inserted(s, c))
  {
    hide LowerBound, Less;
    var i, r := LowerBound(s, c), Inserted(s, c);
    forall k | 0 <= k < |s|
      ensures s[k] in r
    {
      assert r == s || r[if k < i then k else k + 1] == s[k];
    }
  }

  lemma NormalizedTwice(path: string)
    ensures Normalized(Normalized(path)) == Normalized(path)
  {
  }

  /** A new credential for the path itself is the longest one there can be. */
  lemma InsertedIsLongest(s: seq<Cred>, c: Cred, path: string)
    requires StrictlySorted(s) && !SomeCovers(s, c.host, c.port, path) && c.path == Normalized(path)
    ensures var i := LowerBound(s, c); var r := Inserted(s, c);
            |r| == |s| + 1 && i <= |s| && r[i] == c && IsLongest(r, c.host, c.port, path, i)
  {
    hide LowerBound, Less, Normalized;
    TakenExactlyByKey(s, c);
    assert !HasKey(s, c) by {
      assert forall k | 0 <= k < |s| :: !Covers(s[k], c.host, c.port, path);
    }
    var i, r := LowerBound(s, c), Inserted(s, c);
    forall k | 0 <= k < |r| && k != i
      ensures !Covers(r[k], c.host, c.port, path)
    {
      assert r[k] == s[if k < i then k else k - 1];
    }
  }

  /** A successful activation: the covering credential made active, or a new one for the path. */
  ghost predicate Activation(a: seq<Cred>, b: seq<Cred>, host: string, port: nat, path: string, resolved: Option<AuthConfig>)
  {
    if SomeCovers(a, host, port, path) then
      exists i: nat :: IsLongest(a, host, port, path, i) && b == a[i := a[i].(activated := true)]
    else
      resolved.Some? &&
      b == Inserted(a, Cred(resolved.value.user, resolved.value.password, host, port, Normalized(path), true))
  }

  /** Afterwards the path is served by an active credential, and every path below it is covered. */
  lemma ActivationCovers(a: seq<Cred>, b: seq<Cred>, host: string, port: nat, path: string, resolved: Option<AuthConfig>)
    requires ValidCreds(a) && Activation(a, b, host, port, path, resolved)
    ensures ValidCreds(b) && Grows(a, b)
    ensures exists i: nat :: IsLongest(b, host, port, path, i) && b[i].activated
    ensures forall below | Normalized(path) <= below :: SomeCovers(b, host, port, below)
  {
    hide LowerBound, Less, Normalized, Inserted;
    var i: nat;
    if SomeCovers(a, host, port, path) {
      i :| IsLongest(a, host, port, path, i) && b == a[i := a[i].(activated := true)];
      ActivatedStaysValid(a, i);
    } else {
      var c := Cred(resolved.value.user, resolved.value.password, host, port, Normalized(path), true);
      NormalizedTwice(path);
      InsertedIsValid(a, c);
      InsertedGrows(a, c);
      InsertedIsLongest(a, c, path);
      i := LowerBound(a, c);
    }
    assert IsLongest(b, host, port, path, i) && b[i].activated;
    forall below | Normalized(path) <= below
      ensures SomeCovers(b, host, port, below)
    {
      CoverIsKept(b, b, host, port, path, below);
    }
  }

  lemma ActivatedStaysValid(s: seq<Cred>, i: nat)
    requires ValidCreds(s) && i < |s|
    ensures ValidCreds(s[i := s[i].(activated := true)])
    ensures Grows(s, s[i := s[i].(activated := true)])
  {
    hide LexLess, Normalized;
    var r := s[i := s[i].(activated := true)];
    forall k | 0 <= k < |s|
      ensures s[k] in r || s[k].(activated := true) in r
    {
      assert r[k] == s[k] || r[k] == s[k].(activated := true);
    }
  }

  /** Strictly sorted values belong to distinct objects. */
  lemma OnlyOne(s: seq<Cred>, objects: seq<BasicCred>, i: nat)
    requires StrictlySorted(s) && |s| == |objects| && i < |s|
    requires forall k | 0 <= k < |s| :: s[k] == objects[k].Value()
    ensures forall k | 0 <= k < |s| && k != i :: objects[k] != objects[i]
  {
    hide Less;
    forall k | 0 <= k < |s| && k != i
      ensures objects[k] != objects[i]
    {
      LessIsTotal(s[k], s[i]);
    }
  }

  class AuthConfigFactory {
    var basicCreds: seq<BasicCred>

    ghost function Values(): (s: seq<Cred>)
      reads this, basicCreds
      ensures |s| == |basicCreds| && forall i | 0 <= i < |s| :: s[i] == basicCreds[i].Value()
    {
      seq(|basicCreds|, i requires 0 <= i < |basicCreds| reads this, basicCreds => basicCreds[i].Value())
    }

    ghost predicate Valid()
      reads this, basicCreds
    {
      ValidCreds(Values())
    }

    constructor ()
      ensures Valid() && basicCreds == [] && Values() == []
    {
      basicCreds := [];
    }

    method LowerBoundOf(key: BasicCred) returns (i: nat)
      ensures i == LowerBound(Values(), key.Value())
    {
      hide LowerBound, Less;
      i := 0;
      while i < |basicCreds| && Less(basicCreds[i].Value(), key.Value())
        invariant i <= |basicCreds|
        invariant forall k | 0 <= k < i :: Less(Values()[k], key.Value())
      {
        i := i + 1;
      }
      LowerBoundIsUnique(Values(), key.Value(), i);
    }

    /** The longest stored path that covers the request, and the end exactly when none does. */
    method FindBasicCred(host: string, port: nat, path: string) returns (i: nat)
      requires Valid()
      ensures i <= |basicCreds|
      ensures i < |basicCreds| <==> SomeCovers(Values(), host, port, path)
      ensures i < |basicCreds| ==> IsLongest(Values(), host, port, path, i)
      // In the fields of the credentials.
      ensures forall k | 0 <= k < |basicCreds| ::
                && basicCreds[k].host == host && basicCreds[k].port == port
                && (basicCreds[k].path <= path ||
                    (basicCreds[k].path == path + "/" && (path == "" || path[|path| - 1] != '/'))) ==>
                i < |basicCreds| && (k == i || |basicCreds[k].path| < |basicCreds[i].path|)
      ensures i < |basicCreds| ==>
                && basicCreds[i].host == host && basicCreds[i].port == port
                && (basicCreds[i].path <= path ||
                    (basicCreds[i].path == path + "/" && (path == "" || path[|path| - 1] != '/')))
    {
      hide LowerBound, Less;
      i := FindCovering(host, port, path);
      forall k | 0 <= k < |basicCreds|
        ensures Covers(Values()[k], host, port, path) <==>
                && basicCreds[k].host == host && basicCreds[k].port == port
                && (basicCreds[k].path <= path ||
                    (basicCreds[k].path == path + "/" && (path == "" || path[|path| - 1] != '/')))
      {
        CoversInFields(Values()[k], host, port, path);
      }
    }

    /** The search. */
    method FindCovering(host: string, port: nat, path: string) returns (i: nat)
      requires Valid()
      ensures i <= |basicCreds|
      ensures i < |basicCreds| <==> SomeCovers(Values(), host, port, path)
      ensures i < |basicCreds| ==> IsLongest(Values(), host, port, path, i)
    {
      hide LowerBound, Less;
      var bc := new BasicCred("", "", host, port, path, false);
      ghost var s, key := Values(), bc.Value();
      i := LowerBoundOf(bc);
      NoneBeforeLowerBound(s, key, path);
      while i < |basicCreds| && basicCreds[i].host == host && basicCreds[i].port == port
        invariant LowerBound(s, key) <= i <= |basicCreds| && s == Values()
        invariant forall k | 0 <= k < i :: !Covers(s[k], host, port, path)
      {
        if basicCreds[i].path <= bc.path {
          LongestHere(s, host, port, path, i);
          return;
        }
        i := i + 1;
      }
      NoneBehind(s, key, path, i);
      i := |basicCreds|;
    }

    /** std::set::insert with the lower bound as hint. */
    method InsertAt(i: nat, c: BasicCred)
      requires i == LowerBound(Values(), c.Value())
      modifies this`basicCreds
      ensures Values() == Inserted(old(Values()), c.Value())
      ensures forall b | b in basicCreds :: b in old(basicCreds) || b == c
    {
      hide LowerBound, Less;
      if i < |basicCreds| && !Less(c.Value(), basicCreds[i].Value()) {
        return;
      }
      basicCreds := basicCreds[..i] + [c] + basicCreds[i..];
    }

    /** Adds a credential unless one with the same host, port and path is there. */
    method UpdateBasicCred(basicCred: BasicCred)
      requires Valid() && Normalized(basicCred.path) == basicCred.path
      modifies this, basicCreds
      ensures Valid()
      ensures Values() == Inserted(old(Values()), old(basicCred.Value()))
      ensures Grows(old(Values()), Values())
      ensures forall c | c in basicCreds :: c in old(basicCreds) || c == basicCred
    {
      hide LowerBound, Less, Grows, ValidCreds;
      var i := LowerBoundOf(basicCred);
      ghost var s, c := Values(), basicCred.Value();
      InsertedIsValid(s, c);
      InsertedGrows(s, c);
      // Both sides are pointers here: only the very same object is equal.
      if i < |basicCreds| && basicCreds[i] == basicCred {
        assert !Less(c, s[i]) by {
          LessIsTotal(c, s[i]);
        }
        basicCreds[i].Assign(basicCred);
        assert Values() == s;
      } else {
        InsertAt(i, basicCred);
      }
    }

    /** `resolved` is what the resolver made from the options offers for the host. */
    method ActivateBasicCred(host: string, port: nat, path: string, resolved: Option<AuthConfig>) returns (r: bool)
      requires Valid()
      modifies this, basicCreds
      ensures Valid() && Grows(old(Values()), Values())
      ensures r <==> old(SomeCovers(Values(), host, port, path)) || resolved.Some?
      ensures !r ==> Values() == old(Values())
      // The covering credential becomes active, or a new one for the path is added.
      ensures old(SomeCovers(Values(), host, port, path)) ==>
                exists i: nat :: IsLongest(old(Values()), host, port, path, i) &&
                                 Values() == old(Values())[i := old(Values())[i].(activated := true)]
      ensures !old(SomeCovers(Values(), host, port, path)) && resolved.Some? ==>
                Values() == Inserted(old(Values()), Cred(resolved.value.user, resolved.value.password, host, port, Normalized(path), true))
      ensures r ==> exists i: nat :: IsLongest(Values(), host, port, path, i) && Values()[i].activated
      ensures r ==> forall below | Normalized(path) <= below :: SomeCovers(Values(), host, port, below)
      ensures forall c | c in basicCreds :: c in old(basicCreds) || fresh(c)
    {
      hide LowerBound, Less, Normalized, IsLongest, SomeCovers;
      var i := FindBasicCred(host, port, path);
      ghost var s := Values();
      if i == |basicCreds| {
        if resolved.None? {
          return false;
        }
        var c := new BasicCred(resolved.value.user, resolved.value.password, host, port, path, true);
        var k := LowerBoundOf(c);
        InsertAt(k, c);
      } else {
        OnlyOne(s, basicCreds, i);
        basicCreds[i].Activate();
        assert Values() == s[i := s[i].(activated := true)];
      }
      ActivationCovers(s, Values(), host, port, path, resolved);
      return true;
    }

    /**
     * createAuthConfig for HTTP when credentials wait for a challenge. The request names a user or
     * is answered from the store; an answer with an empty user name is no answer.
     */
    method ChallengedConfig(user: string, password: string, host: string, port: nat, dir: string)
      returns (config: Option<AuthConfig>)
      requires Valid()
      modifies this, basicCreds
      ensures Valid() && Grows(old(Values()), Values())
      ensures user != [] ==> config == Some(AuthConfig(user, password)) &&
                             Values() == Inserted(old(Values()), Cred(user, password, host, port, Normalized(dir), true))
      ensures user == [] ==> Values() == old(Values())
      ensures user == [] && config.Some? ==>
                exists i: nat :: IsLongest(Values(), host, port, dir, i) && Values()[i].user != [] &&
                                 config.value == AuthConfig(Values()[i].user, Values()[i].password)
      ensures user == [] && config.None? ==>
                forall i: nat :: IsLongest(Values(), host, port, dir, i) ==> Values()[i].user == []
      ensures forall c | c in basicCreds :: c in old(basicCreds) || fresh(c)
    {
      hide LowerBound, Less, Normalized, Inserted;
      if user != [] {
        var c := new BasicCred(user, password, host, port, dir, true);
        NormalizedTwice(dir);
        assert Values() == old(Values());
        UpdateBasicCred(c);
        return Some(AuthConfig(user, password));
      }
      var i := FindBasicCred(host, port, dir);
      if i == |basicCreds| || basicCreds[i].user == [] {
        return None;
      }
      return Some(AuthConfig(basicCreds[i].user, basicCreds[i].password));
    }

    /** Over every run no credential is lost or changed, and whatever was once covered stays covered. */
    method Serve(requests: seq<Request>)
      requires Valid()
      modifies this, basicCreds
      ensures Valid() && Grows(old(Values()), Values())
      ensures forall host, port, path | old(SomeCovers(Values(), host, port, path)) :: SomeCovers(Values(), host, port, path)
    {
      hide Grows, ValidCreds, SomeCovers, Activation, IsLongest, Inserted;
      ghost var start := Values();
      GrowsByNothing(start);
      for n := 0 to |requests|
        invariant Valid() && Grows(start, Values())
        invariant forall c | c in basicCreds :: c in old(basicCreds) || fresh(c)
      {
        ghost var before := Values();
        assert forall i | 0 <= i < |basicCreds| :: basicCreds[i] in basicCreds;
        if requests[n].Configure? {
          var _ := ChallengedConfig(requests[n].user, requests[n].password, requests[n].host, requests[n].port, requests[n].dir);
        } else {
          var _ := ActivateBasicCred(requests[n].host, requests[n].port, requests[n].dir, requests[n].resolved);
        }
        GrowsIsTransitive(start, before, Values());
      }
      forall host, port, path | SomeCovers(start, host, port, path)
        ensures SomeCovers(Values(), host, port, path)
      {
        CoverIsKept(start, Values(), host, port, path, Normalized(path));
      }
    }
  }
}
