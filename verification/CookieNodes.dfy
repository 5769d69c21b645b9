/** The cookies of one domain: DomainNode (libaria2/src/CookieStorage.cc). */
module CookieNodes {
  import opened Cookies
  import opened Options

  const MAX_COOKIE_PER_DOMAIN := 50

  // ----- the bucket of a node as a value

  ghost predicate DistinctKeys(cookies: seq<Cookie>) {
    forall i, j | 0 <= i < j < |cookies| :: KeyOf(cookies[i]) != KeyOf(cookies[j])
  }

  predicate HasKey(cookies: seq<Cookie>, k: Key) {
    exists i | 0 <= i < |cookies| :: KeyOf(cookies[i]) == k
  }

  /** Distinct, and no more than the limit. */
  ghost predicate BucketOk(cookies: seq<Cookie>) {
    DistinctKeys(cookies) && |cookies| <= MAX_COOKIE_PER_DOMAIN
  }

  ghost function AsSet(cookies: seq<Cookie>): set<Cookie> {
    set d | d in cookies
  }

  ghost predicate KeyIn(cookies: set<Cookie>, k: Key) {
    exists d | d in cookies :: KeyOf(d) == k
  }

  ghost function Fresh(cookies: set<Cookie>, now: int): set<Cookie> {
    set d | d in cookies && !IsExpired(d, now)
  }

  /** What becomes of the cookies of a domain when one more is offered. */
  ghost predicate Offered(before: set<Cookie>, c: Cookie, now: int, after: set<Cookie>, ok: bool) {
    && ok == !IsExpired(c, now)
    && if KeyIn(before, KeyOf(c)) then
         // It replaces its predecessor, whose creation time it takes over, or erases it.
         exists d | d in before ::
           && KeyOf(d) == KeyOf(c)
           && after == if ok then before - {d} + {c.(creationTime := d.creationTime)} else before - {d}
       else if !ok then after == before
       else if |before| < MAX_COOKIE_PER_DOMAIN then after == before + {c}
       else if Fresh(before, now) != before then
         // A full domain gives up everything that has expired,
         after == Fresh(before, now) + {c}
       else
         // or else one of the least recently used.
         exists d | d in before ::
           (forall e | e in before :: d.lastAccessTime <= e.lastAccessTime) && after == before - {d} + {c}
  }

  /** Exactly an unexpired cookie is there afterwards, and it is the cookie up to its creation time. */
  lemma OfferedKey(before: set<Cookie>, c: Cookie, now: int, after: set<Cookie>, ok: bool)
    requires Offered(before, c, now, after, ok)
    requires forall d, e | d in before && e in before && KeyOf(d) == KeyOf(e) :: d == e
    ensures KeyIn(after, KeyOf(c)) <==> ok
    ensures forall d | d in after :: d in before || d == c.(creationTime := d.creationTime)
    ensures forall d | d in after && KeyOf(d) == KeyOf(c) :: d == c.(creationTime := d.creationTime)
  {
    if ok {
      assert c in after || exists d | d in before :: c.(creationTime := d.creationTime) in after;
    }
  }

  /** The offer in the fields of the cookies. */
  lemma OfferedInFields(before: set<Cookie>, c: Cookie, now: int, after: set<Cookie>, ok: bool)
    requires Offered(before, c, now, after, ok)
    requires forall d, e | d in before && e in before && KeyOf(d) == KeyOf(e) :: d == e
    ensures ok <==> !c.persistent || now <= c.expiryTime
    ensures forall p | p in before && p.domain == c.domain && p.path == c.path && p.name == c.name ::
              after == before - {p} + if ok then {c.(creationTime := p.creationTime)} else {}
    ensures (forall p | p in before :: p.domain != c.domain || p.path != c.path || p.name != c.name) ==>
              if !ok then after == before
              else if |before| < 50 then after == before + {c}
              else if exists d | d in before :: d.persistent && d.expiryTime < now then
                after == (set d | d in before && !(d.persistent && d.expiryTime < now)) + {c}
              else exists v | v in before ::
                (forall d | d in before :: v.lastAccessTime <= d.lastAccessTime) && after == before - {v} + {c}
  {
    forall p | p in before && p.domain == c.domain && p.path == c.path && p.name == c.name
      ensures after == before - {p} + if ok then {c.(creationTime := p.creationTime)} else {}
    {
      assert KeyOf(p) == KeyOf(c);
    }
    assert Fresh(before, now) == set d | d in before && !(d.persistent && d.expiryTime < now);
    assert Fresh(before, now) != before <==> exists d | d in before :: d.persistent && d.expiryTime < now;
  }

  lemma {:induction false} BucketSize(bucket: seq<Cookie>)
    requires DistinctKeys(bucket)
    ensures |AsSet(bucket)| == |bucket|
    decreases |bucket|
  {
    if bucket != [] {
      var init, last := bucket[..|bucket| - 1], bucket[|bucket| - 1];
      assert bucket == init + [last];
      BucketSize(init);
      assert AsSet(bucket) == AsSet(init) + {last};
      assert last !in init;
    }
  }

  lemma KeyInBucket(bucket: seq<Cookie>, k: Key)
    ensures HasKey(bucket, k) <==> KeyIn(AsSet(bucket), k)
  {
    if HasKey(bucket, k) {
      var i :| 0 <= i < |bucket| && KeyOf(bucket[i]) == k;
      assert bucket[i] in AsSet(bucket);
    }
  }

  // ----- the steps of addCookie

  method FindKey(cookies: seq<Cookie>, c: Cookie) returns (i: nat)
    ensures i <= |cookies|
    ensures i < |cookies| ==> KeyOf(cookies[i]) == KeyOf(c)
    ensures i == |cookies| ==> !HasKey(cookies, KeyOf(c))
  {
    i := 0;
    while i < |cookies| && KeyOf(cookies[i]) != KeyOf(c)
      invariant i <= |cookies|
      invariant forall j | 0 <= j < i :: KeyOf(cookies[j]) != KeyOf(c)
    {
      i := i + 1;
    }
  }

  /** std::remove_if with Cookie::isExpired. */
  method RemoveExpired(cookies: seq<Cookie>, now: int) returns (rest: seq<Cookie>)
    requires DistinctKeys(cookies)
    ensures DistinctKeys(rest) && |rest| <= |cookies|
    ensures forall d :: d in rest <==> d in cookies && !IsExpired(d, now)
    ensures |rest| == |cookies| ==> rest == cookies
  {
    rest := [];
    for n := 0 to |cookies|
      invariant DistinctKeys(rest) && |rest| <= n
      invariant forall d :: d in rest <==> d in cookies[..n] && !IsExpired(d, now)
      invariant |rest| == n ==> rest == cookies[..n]
    {
      assert cookies[..n + 1] == cookies[..n] + [cookies[n]];
      if !IsExpired(cookies[n], now) {
        DistinctAppend(cookies, rest, n);
        rest := rest + [cookies[n]];
      }
    }
    assert cookies[..|cookies|] == cookies;
  }

  lemma DistinctAppend(cookies: seq<Cookie>, rest: seq<Cookie>, n: nat)
    requires DistinctKeys(cookies) && DistinctKeys(rest) && n < |cookies|
    requires forall d | d in rest :: d in cookies[..n]
    ensures DistinctKeys(rest + [cookies[n]])
  {
    forall i | 0 <= i < |rest|
      ensures KeyOf(rest[i]) != KeyOf(cookies[n])
    {
      assert rest[i] in cookies[..n];
    }
  }

  /** std::min_element by last access time: the first of the least recently used. */
  method LeastRecent(cookies: seq<Cookie>) returns (m: nat)
    requires cookies != []
    ensures m < |cookies| && forall e | e in cookies :: cookies[m].lastAccessTime <= e.lastAccessTime
  {
    m := 0;
    for n := 1 to |cookies|
      invariant m < |cookies| && forall i | 0 <= i < n :: cookies[m].lastAccessTime <= cookies[i].lastAccessTime
    {
      if cookies[n].lastAccessTime < cookies[m].lastAccessTime {
        m := n;
      }
    }
  }

  /** The branch for a new, unexpired cookie. */
  method InsertNew(cookies: seq<Cookie>, c: Cookie, now: int) returns (after: seq<Cookie>)
    requires BucketOk(cookies) && !HasKey(cookies, KeyOf(c)) && !IsExpired(c, now)
    ensures BucketOk(after) && Offered(AsSet(cookies), c, now, AsSet(after), true)
  {
    hide HasKey, DistinctKeys;
    BucketSize(cookies);
    KeyInBucket(cookies, KeyOf(c));
    if |cookies| < MAX_COOKIE_PER_DOMAIN {
      AppendOne(cookies, cookies, c);
      return cookies + [c];
    }
    var rest := RemoveExpired(cookies, now);
    assert AsSet(rest) == Fresh(AsSet(cookies), now);
    BucketSize(rest);
    if |rest| >= MAX_COOKIE_PER_DOMAIN {
      var m := LeastRecent(rest);
      ReplaceAt(cookies, m, c);
      after := rest[m := c];
    } else {
      AppendOne(cookies, rest, c);
      after := rest + [c];
    }
  }

  lemma AppendOne(cookies: seq<Cookie>, rest: seq<Cookie>, c: Cookie)
    requires !HasKey(cookies, KeyOf(c)) && DistinctKeys(rest) && forall d | d in rest :: d in cookies
    ensures DistinctKeys(rest + [c]) && AsSet(rest + [c]) == AsSet(rest) + {c}
  {
    var after := rest + [c];
    forall i | 0 <= i < |rest|
      ensures KeyOf(after[i]) != KeyOf(c)
    {
      assert rest[i] in cookies;
    }
    assert after[|rest|] == c;
    assert forall i | 0 <= i < |rest| :: after[i] == rest[i];
  }

  /** Putting a cookie in the place of another one, whose key it has or whose key nobody has. */
  lemma ReplaceAt(cookies: seq<Cookie>, m: nat, c: Cookie)
    requires DistinctKeys(cookies) && m < |cookies| && (KeyOf(cookies[m]) == KeyOf(c) || !HasKey(cookies, KeyOf(c)))
    ensures DistinctKeys(cookies[m := c]) && AsSet(cookies[m := c]) == AsSet(cookies) - {cookies[m]} + {c}
  {
    var after := cookies[m := c];
    assert after[m] == c;
    forall d | d in cookies && d != cookies[m]
      ensures d in after
    {
      var i :| 0 <= i < |cookies| && cookies[i] == d;
      assert after[i] == d;
    }
    assert forall i | 0 <= i < |cookies| && i != m :: KeyOf(cookies[i]) != KeyOf(cookies[m]);
  }

  /** The branch for a cookie that is already there: replaced, or erased when it has expired. */
  method ReplaceOld(cookies: seq<Cookie>, c: Cookie, now: int, i: nat) returns (after: seq<Cookie>, ok: bool)
    requires BucketOk(cookies) && i < |cookies| && KeyOf(cookies[i]) == KeyOf(c)
    ensures BucketOk(after) && Offered(AsSet(cookies), c, now, AsSet(after), ok)
  {
    hide DistinctKeys;
    assert cookies[i] in AsSet(cookies);
    if IsExpired(c, now) {
      EraseAt(cookies, i);
      after := cookies[..i] + cookies[i + 1..];
      return after, false;
    }
    ReplaceAt(cookies, i, c.(creationTime := cookies[i].creationTime));
    after := cookies[i := c.(creationTime := cookies[i].creationTime)];
    ok := true;
  }

  lemma EraseAt(cookies: seq<Cookie>, i: nat)
    requires DistinctKeys(cookies) && i < |cookies|
    ensures var after := cookies[..i] + cookies[i + 1..];
            DistinctKeys(after) && AsSet(after) == AsSet(cookies) - {cookies[i]}
  {
    var after := cookies[..i] + cookies[i + 1..];
    assert forall j | 0 <= j < |after| :: after[j] == cookies[if j < i then j else j + 1];
    forall d | d in cookies && d != cookies[i]
      ensures d in after
    {
      var j :| 0 <= j < |cookies| && cookies[j] == d;
      assert after[if j < i then j else j - 1] == d;
    }
    assert forall j | 0 <= j < |cookies| && j != i :: KeyOf(cookies[j]) != KeyOf(cookies[i]);
  }

  lemma SameKeySameCookie(cookies: seq<Cookie>, c: Cookie, d: Cookie)
    requires BucketOk(cookies) && c in cookies && d in cookies && KeyOf(c) == KeyOf(d)
    ensures c == d
  {
  }

  // ----- the node

  class DomainNode {
    const domainLabel: string
    const parent: DomainNode?
    // The labels on the way from the root.
    ghost const route: seq<string>
    var lastAccessTime: int
    var lruAccessTime: int
    var inLru: bool
    var cookies: Option<seq<Cookie>>
    var next: map<string, DomainNode>

    constructor (domainLabel: string, parent: DomainNode?)
      ensures this.domainLabel == domainLabel && this.parent == parent
      ensures route == if parent == null then [] else parent.route + [domainLabel]
      ensures !inLru && cookies == None && next == map[]
    {
      this.domainLabel, this.parent := domainLabel, parent;
      route := if parent == null then [] else parent.route + [domainLabel];
      lastAccessTime, lruAccessTime, inLru := 0, 0, false;
      cookies, next := None, map[];
    }

    function Bucket(): seq<Cookie>
      reads this`cookies
    {
      if cookies.Some? then cookies.value else []
    }

    method AddCookie(c: Cookie, now: int) returns (ok: bool)
      requires BucketOk(Bucket())
      modifies this`lastAccessTime, this`cookies
      ensures lastAccessTime == now
      ensures BucketOk(Bucket()) && Offered(AsSet(old(Bucket())), c, now, AsSet(Bucket()), ok)
      ensures old(cookies).Some? || ok ==> cookies.Some?
    {
      lastAccessTime := now;
      if cookies.None? {
        if IsExpired(c, now) {
          return false;
        }
        cookies := Some([c]);
        assert AsSet([c]) == AsSet([]) + {c};
        return true;
      }
      hide DistinctKeys, HasKey;
      var i := FindKey(cookies.value, c);
      KeyInBucket(cookies.value, KeyOf(c));
      if i == |cookies.value| {
        if IsExpired(c, now) {
          return false;
        }
        var after := InsertNew(cookies.value, c, now);
        cookies := Some(after);
        ok := true;
      } else {
        var after;
        after, ok := ReplaceOld(cookies.value, c, now, i);
        cookies := Some(after);
      }
    }

    method Contains(c: Cookie) returns (r: bool)
      ensures r <==> HasKey(Bucket(), KeyOf(c))
    {
      var i := FindKey(Bucket(), c);
      r := i < |Bucket()|;
    }

    predicate Empty()
      reads this`cookies
    {
      Bucket() == []
    }

    predicate HasNext()
      reads this`next
    {
      next != map[]
    }
  }
}
