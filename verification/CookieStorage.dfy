/**
  The cookie store of libaria2/src/CookieStorage.cc: a trie over reversed domain labels
  and an index of its nodes by time of use.
 */
module CookieStorage {
  import opened Cookies
  import opened Options
  import opened CookieNodes
  import opened CookieOrder
  import opened Sorting

  const DOMAIN_EVICTION_TRIGGER := 2000

  class CookieStorage {
    // util::isNumericHost asks the resolver library; any function will do here.
    const numericHost: string -> bool
    const root: DomainNode
    var lruTracker: set<(int, DomainNode)>
    // Everything that hangs from the root.
    ghost var nodes: set<DomainNode>

    // ----- the invariant

    ghost predicate HangsFrom(n: DomainNode)
      reads this`nodes, nodes`next
    {
      && n.parent != null && n.parent in nodes
      && n.domainLabel in n.parent.next && n.parent.next[n.domainLabel] == n
      && n.route == n.parent.route + [n.domainLabel]
    }

    ghost predicate ChildrenOk(n: DomainNode)
      reads this`nodes, n`next
    {
      forall l | l in n.next :: n.next[l] in nodes && n.next[l].parent == n && n.next[l].domainLabel == l
    }

    /** The nodes form a tree under the root, and `route` is the way to each of them. */
    ghost predicate Tree()
      reads this`nodes, nodes`next
    {
      && root in nodes && root.parent == null && root.route == []
      && (forall n | n in nodes && n != root :: HangsFrom(n))
      && (forall n | n in nodes :: ChildrenOk(n))
    }

    ghost predicate BucketFits(n: DomainNode)
      reads n`cookies
    {
      BucketOk(n.Bucket()) &&
      forall c | c in n.Bucket() :: Storable(numericHost, c) && Route(numericHost, c.domain) == n.route
    }

    /** Every cookie is kept at the node of its domain, and the root keeps none. */
    ghost predicate Content()
      reads this`nodes, nodes`cookies
    {
      forall n | n in nodes :: BucketFits(n)
    }

    /** The tracker holds exactly the nodes flagged inLru under their time, all of them in the tree. */
    ghost predicate Tracks()
      reads this`nodes, this`lruTracker, nodes`inLru, nodes`lruAccessTime, nodes`cookies
    {
      && (forall n | n in nodes :: n.inLru <==> (n.lruAccessTime, n) in lruTracker)
      && (forall e | e in lruTracker :: e.1 in nodes && e.1 != root && e.0 == e.1.lruAccessTime && e.1.cookies.Some?)
    }

    /** Every node with cookies is tracked; the one being updated may still be missing. */
    ghost predicate Covers(pending: set<DomainNode>)
      reads this`nodes, nodes`inLru, nodes`cookies
    {
      forall n | n in nodes && n !in pending && n.Bucket() != [] :: n.inLru
    }

    ghost predicate Valid()
      reads this, nodes
    {
      Tree() && Content() && Tracks() && Covers({}) && |lruTracker| <= DOMAIN_EVICTION_TRIGGER
    }

    /** The flat view: all cookies that are stored. */
    ghost function Stored(): set<Cookie>
      reads this`nodes, nodes`cookies
    {
      set n, c | n in nodes && c in n.Bucket() :: c
    }

    /** When each tracked domain was used last. */
    ghost function UseTimes(): (r: map<DomainNode, int>)
      reads this`nodes, nodes`inLru, nodes`lruAccessTime
      ensures r.Keys <= nodes && forall n | n in nodes :: n in r <==> n.inLru
      ensures forall n | n in r :: r[n] == n.lruAccessTime
    {
      map n | n in nodes && n.inLru :: n.lruAccessTime
    }

    constructor (numericHost: string -> bool)
      ensures Valid() && this.numericHost == numericHost && Stored() == {} && lruTracker == {}
      ensures fresh(root) && nodes == {root}
    {
      this.numericHost := numericHost;
      var r := new DomainNode("", null);
      root := r;
      nodes := {r};
      lruTracker := {};
    }

    // ----- routes

    /** There is one node for each route. */
    lemma {:induction false} OneNodePerRoute(n: DomainNode, m: DomainNode)
      requires Tree() && n in nodes && m in nodes && n.route == m.route
      ensures n == m
      decreases |n.route|
    {
      if n == root || m == root {
        assert n != root ==> HangsFrom(n);
        assert m != root ==> HangsFrom(m);
      } else {
        assert HangsFrom(n) && HangsFrom(m);
        assert n.parent.route == n.route[..|n.route| - 1] == m.parent.route;
        OneNodePerRoute(n.parent, m.parent);
        assert n.domainLabel == n.route[|n.route| - 1] == m.domainLabel;
      }
    }

    /** Every node above a node is in the tree. */
    lemma {:induction false} Above(n: DomainNode, k: nat) returns (m: DomainNode)
      requires Tree() && n in nodes && k <= |n.route|
      ensures m in nodes && m.route == n.route[..k]
      decreases |n.route|
    {
      if k == |n.route| {
        m := n;
      } else {
        assert n != root && HangsFrom(n);
        m := Above(n.parent, k);
        assert n.route[..k] == n.parent.route[..k];
      }
    }

    /** What lies below a node on a route lies below its child for the next label. */
    lemma ChildOnTheWay(node: DomainNode, route: seq<string>, i: nat, n: DomainNode)
      requires Tree() && node in nodes && i < |route| && node.route == route[..i]
      requires n in nodes && route[..i + 1] <= n.route
      ensures route[i] in node.next
    {
      var m := Above(n, i + 1);
      assert m.route == route[..i + 1] && HangsFrom(m);
      assert m.parent.route == m.route[..i] == node.route;
      OneNodePerRoute(m.parent, node);
      assert m.domainLabel == m.route[i] == route[i];
    }

    /** findNode. */
    method FindNode(route: seq<string>) returns (node: DomainNode?)
      requires Tree()
      ensures node != null ==> node in nodes && node.route == route
      ensures node == null ==> forall n | n in nodes :: n.route != route
    {
      node := root;
      var i := 0;
      while i < |route|
        invariant i <= |route| && node != null && node in nodes && node.route == route[..i]
      {
        if route[i] !in node.next {
          forall n | n in nodes && n.route == route
            ensures route[i] in node.next
          {
            ChildOnTheWay(node, route, i, n);
          }
          return null;
        }
        assert ChildrenOk(node);
        node := node.next[route[i]];
        assert HangsFrom(node);
        i := i + 1;
      }
    }

    lemma RootInTree()
      requires Tree()
      ensures root in nodes && root.route == []
    {
    }

    /** The walk of store: nodes that are missing on the way are added. */
    method GetOrCreate(route: seq<string>) returns (node: DomainNode)
      requires Tree()
      modifies this`nodes, nodes`next
      ensures Tree() && node in nodes && node.route == route
      ensures old(nodes) <= nodes
      ensures forall n | n in nodes && n !in old(nodes) :: fresh(n) && n.cookies == None && !n.inLru
    {
      hide Tree;
      RootInTree();
      node := root;
      var i := 0;
      while i < |route|
        invariant i <= |route| && Tree() && node in nodes && node.route == route[..i]
        invariant old(nodes) <= nodes
        invariant forall n | n in nodes && n !in old(nodes) :: fresh(n) && n.cookies == None && !n.inLru
      {
        assert node in old(nodes) || fresh(node);
        assert route[..i + 1] == route[..i] + [route[i]];
        node := NextOrNew(node, route[i]);
        i := i + 1;
      }
      assert route[..i] == route;
    }

    method NextOrNew(node: DomainNode, text: string) returns (child: DomainNode)
      requires Tree() && node in nodes
      modifies this`nodes, node`next
      ensures Tree() && child in nodes && child.route == node.route + [text]
      ensures nodes == old(nodes) || (nodes == old(nodes) + {child} && fresh(child) && child.cookies == None && !child.inLru)
    {
      if text in node.next {
        assert ChildrenOk(node);
        child := node.next[text];
        assert HangsFrom(child);
      } else {
        child := AddNext(node, text);
      }
    }

    /** A new child for a label that has none. */
    method AddNext(node: DomainNode, text: string) returns (child: DomainNode)
      requires Tree() && node in nodes && text !in node.next
      modifies this`nodes, node`next
      ensures Tree() && fresh(child) && nodes == old(nodes) + {child}
      ensures child.route == node.route + [text] && child.cookies == None && !child.inLru
    {
      child := new DomainNode(text, node);
      node.next := node.next[text := child];
      nodes := nodes + {child};
      assert HangsFrom(child) && ChildrenOk(child);
      forall n | n in old(nodes) && n != root
        ensures HangsFrom(n)
      {
        assert old(HangsFrom(n));
      }
      forall n | n in old(nodes)
        ensures ChildrenOk(n)
      {
        assert old(ChildrenOk(n));
      }
    }

    /** updateLru: the node moves to its new time, whether or not it was tracked. */
    method UpdateLru(node: DomainNode, now: int)
      requires node in nodes && node != root && node.cookies.Some?
      requires Tracks() && Covers({node})
      modifies this`lruTracker, node`inLru, node`lruAccessTime
      ensures Tracks() && Covers({}) && node.inLru && node.lruAccessTime == now
      ensures |lruTracker| == old(|lruTracker|) + if old(node.inLru) then 0 else 1
    {
      if node.inLru {
        Untrack(node);
      }
      Track(node, now);
    }

    /** Erasing the entry of a tracked node. */
    method Untrack(node: DomainNode)
      requires node in nodes && node.inLru && Tracks()
      modifies this`lruTracker, node`inLru
      ensures Tracks() && !node.inLru
      ensures lruTracker == old(lruTracker) - {(node.lruAccessTime, node)} && |lruTracker| == old(|lruTracker|) - 1
    {
      var entry := (node.lruAccessTime, node);
      assert entry in lruTracker;
      lruTracker := lruTracker - {entry};
      node.inLru := false;
    }

    /** Inserting an entry for a node that has none. */
    method Track(node: DomainNode, now: int)
      requires node in nodes && node != root && node.cookies.Some? && !node.inLru && Tracks()
      modifies this`lruTracker, node`inLru, node`lruAccessTime
      ensures Tracks() && node.inLru && node.lruAccessTime == now
      ensures lruTracker == old(lruTracker) + {(now, node)} && |lruTracker| == old(|lruTracker|) + 1
    {
      assert (now, node) !in lruTracker;
      node.inLru := true;
      node.lruAccessTime := now;
      lruTracker := lruTracker + {(now, node)};
    }

    // ----- eviction

    /** Removing a node without children. */
    method RemoveLeaf(node: DomainNode)
      requires Tree() && node in nodes && node != root && node.next == map[]
      modifies this`nodes, node.parent`next
      ensures Tree() && nodes == old(nodes) - {node}
    {
      var parent := node.parent;
      assert HangsFrom(node);
      parent.next := parent.next - {node.domainLabel};
      nodes := nodes - {node};
      forall n | n in nodes && n != root
        ensures HangsFrom(n)
      {
        assert old(HangsFrom(n));
      }
      forall n | n in nodes
        ensures ChildrenOk(n)
      {
        assert old(ChildrenOk(n));
      }
    }

    /** Everything about cookies and the tracker, apart from its size. */
    ghost predicate Sound()
      reads this, nodes
    {
      Tree() && Content() && Tracks() && Covers({})
    }

    /** The inner loop of evictNode: empty nodes without children go, upwards until one has to stay. */
    method Prune(start: DomainNode)
      requires Sound() && start in nodes && start != root && !start.inLru
      modifies this`nodes, this`lruTracker, nodes`next, nodes`inLru
      ensures Sound() && nodes <= old(nodes) && lruTracker <= old(lruTracker)
      ensures forall n | n in old(nodes) && n !in nodes :: n.Bucket() == []
    {
      hide Sound;
      var node := start;
      while node.Empty() && !node.HasNext()
        invariant Sound() && node in nodes && node != root && !node.inLru
        invariant nodes <= old(nodes) && lruTracker <= old(lruTracker)
        invariant forall n | n in old(nodes) && n !in nodes :: n.Bucket() == []
        decreases |node.route|
      {
        ParentInTree(node);
        var parent := PruneOne(node);
        if !parent.Empty() || parent.HasNext() || parent == root {
          break;
        }
        UntrackEmpty(parent);
        node := parent;
      }
    }

    lemma ParentInTree(node: DomainNode)
      requires Sound() && node in nodes && node != root
      ensures node.parent != null && node.parent in nodes
    {
      assert HangsFrom(node);
    }

    method PruneOne(node: DomainNode) returns (parent: DomainNode)
      requires Sound() && node in nodes && node != root && !node.inLru && node.Empty() && !node.HasNext()
      modifies this`nodes, node.parent`next
      ensures Sound() && nodes == old(nodes) - {node}
      ensures parent == node.parent && parent in nodes && |parent.route| < |node.route|
    {
      assert HangsFrom(node);
      parent := node.parent;
      RemoveLeaf(node);
      hide Tree;
    }

    /** An empty node is forgotten by the tracker, if it was known to it. */
    method UntrackEmpty(node: DomainNode)
      requires Sound() && node in nodes && node.Empty()
      modifies this`lruTracker, node`inLru
      ensures Sound() && !node.inLru && lruTracker <= old(lruTracker)
    {
      hide Tree, Content;
      if node.inLru {
        Untrack(node);
      }
    }

    /** The first entry of the tracker: a least recently used node. */
    method First() returns (e: (int, DomainNode))
      requires lruTracker != {}
      ensures e in lruTracker && forall f | f in lruTracker :: e.0 <= f.0
    {
      OldestExists(lruTracker);
      e :| e in lruTracker && forall f | f in lruTracker :: e.0 <= f.0;
    }

    /** Evicting one node: it loses its cookies and, with nothing below it, its place. */
    method EvictOne(node: DomainNode)
      requires Sound() && node in nodes && node.inLru
      modifies this`nodes, this`lruTracker, nodes`next, nodes`inLru, node`cookies
      ensures Sound() && nodes <= old(nodes) && lruTracker < old(lruTracker)
      ensures node.Bucket() == [] && forall f | f in lruTracker :: f.1 != node
      ensures forall n | n in old(nodes) && n !in nodes :: n.Bucket() == []
    {
      forall f | f in lruTracker && f.1 == node
        ensures f == (node.lruAccessTime, node)
      {
        TrackedNode(f);
      }
      hide Sound;
      Clear(node);
      Prune(node);
    }

    lemma AllTracked()
      requires Sound()
      ensures forall f | f in lruTracker :: f.1 in nodes && f.1.inLru
    {
    }

    lemma TrackedNode(e: (int, DomainNode))
      requires Sound() && e in lruTracker
      ensures e.1 in nodes && e.1.inLru && e.0 == e.1.lruAccessTime
    {
    }

    method Clear(node: DomainNode)
      requires Sound() && node in nodes && node.inLru
      modifies this`lruTracker, node`inLru, node`cookies
      ensures Sound() && !node.inLru && node.Bucket() == [] && node != root
      ensures lruTracker == old(lruTracker) - {(node.lruAccessTime, node)} && lruTracker < old(lruTracker)
    {
      hide Tree, BucketFits;
      Untrack(node);
      node.cookies := Some([]);
      forall n | n in nodes
        ensures BucketFits(n)
      {
        if n == node {
          EmptyFits(n);
        } else {
          assert old(BucketFits(n));
        }
      }
    }

    lemma EmptyFits(n: DomainNode)
      requires n.Bucket() == []
      ensures BucketFits(n)
    {
    }

    /** At most delnum nodes lose their cookies, tracked ones and none used after a survivor, until nothing is tracked. */
    method EvictNode(delnum: nat) returns (ghost cleared: set<DomainNode>)
      requires Sound()
      modifies this`nodes, this`lruTracker, nodes`next, nodes`inLru, nodes`cookies
      ensures Sound() && lruTracker <= old(lruTracker) && nodes <= old(nodes)
      ensures |lruTracker| + delnum <= old(|lruTracker|) || lruTracker == {}
      ensures |cleared| <= delnum && (|cleared| == delnum || lruTracker == {})
      ensures cleared <= old(nodes) && forall n | n in old(nodes) && n in cleared :: old(n.inLru)
      ensures forall n | n in old(nodes) :: n.Bucket() == (if n in cleared then [] else old(n.Bucket()))
      ensures forall n | n in old(nodes) && n.Bucket() != [] :: n in nodes
      ensures forall n, f | n in cleared && f in lruTracker :: n.lruAccessTime <= f.0
    {
      hide Sound, Progress, Tracked;
      ghost var all, was, tracked, times := nodes, BucketsOf(nodes), Tracked(), TimesOf(nodes);
      StartOfEviction();
      var left := delnum;
      cleared := {};
      while left > 0 && lruTracker != {}
        invariant Sound() && 0 <= left <= delnum && lruTracker <= old(lruTracker) && nodes <= all
        invariant |lruTracker| + (delnum - left) <= old(|lruTracker|) && |cleared| + left == delnum
        invariant Progress(all, was, BucketsOf(all), times, tracked, cleared, nodes, lruTracker)
      {
        var node := EvictNext(all, was, times, tracked, cleared);
        cleared := cleared + {node};
        left := left - 1;
      }
      EndOfEviction(all, was, BucketsOf(all), times, tracked, cleared, nodes, lruTracker);
    }

    lemma StartOfEviction()
      requires Sound()
      ensures Progress(nodes, BucketsOf(nodes), BucketsOf(nodes), TimesOf(nodes), Tracked(), {}, nodes, lruTracker)
      ensures forall n :: n in Tracked() <==> n in nodes && n.inLru
    {
      AllTracked();
    }

    /** One turn of the loop of evictNode. */
    method EvictNext(ghost all: set<DomainNode>, ghost was: map<DomainNode, seq<Cookie>>, ghost times: map<DomainNode, int>,
                     ghost tracked: set<DomainNode>, ghost cleared: set<DomainNode>)
      returns (node: DomainNode)
      requires Sound() && lruTracker != {} && nodes <= all && times == TimesOf(all)
      requires Progress(all, was, BucketsOf(all), times, tracked, cleared, nodes, lruTracker)
      modifies this`nodes, this`lruTracker, nodes`next, nodes`inLru, nodes`cookies
      ensures Sound() && nodes <= old(nodes) && lruTracker <= old(lruTracker) && |lruTracker| < old(|lruTracker|)
      ensures Progress(all, was, BucketsOf(all), times, tracked, cleared + {node}, nodes, lruTracker) && node !in cleared
    {
      hide Sound, Progress;
      ghost var nodes0, lru0, now0 := nodes, lruTracker, BucketsOf(all);
      node := EvictFirst();
      assert forall n | n in all :: BucketsOf(all)[n] == if n == node then [] else now0[n];
      EvictedOne(all, was, now0, BucketsOf(all), times, tracked, cleared, nodes0, lru0, nodes, lruTracker, node);
    }

    ghost function Tracked(): set<DomainNode>
      reads this`nodes, nodes`inLru
    {
      set n | n in nodes && n.inLru
    }

    /** The least recently used node loses its cookies. */
    method EvictFirst() returns (node: DomainNode)
      requires Sound() && lruTracker != {}
      modifies this`nodes, this`lruTracker, nodes`next, nodes`inLru, nodes`cookies
      ensures Sound() && nodes <= old(nodes) && lruTracker <= old(lruTracker) && |lruTracker| < old(|lruTracker|)
      ensures exists t :: (t, node) in old(lruTracker)
      ensures node in old(nodes) && forall f | f in lruTracker :: node.lruAccessTime <= f.0 && f.1 != node
      ensures forall n | n in old(nodes) :: n.Bucket() == if n == node then [] else old(n.Bucket())
      ensures forall n | n in old(nodes) && n.Bucket() != [] :: n in nodes
    {
      hide Sound;
      ghost var before := lruTracker;
      var e := First();
      TrackedNode(e);
      node := e.1;
      EvictOne(node);
      FewerEntries(lruTracker, before);
    }

    // ----- storing

    /** A stored cookie is found at the node of its domain. */
    lemma AtItsNode(node: DomainNode, d: Cookie)
      requires Tree() && Content() && node in nodes && d in Stored() && Route(numericHost, d.domain) == node.route
      ensures d in node.Bucket()
    {
      hide Route, Storable;
      var n :| n in nodes && d in n.Bucket();
      assert BucketFits(n);
      OneNodePerRoute(n, node);
    }

    /** No two stored cookies share domain, path and name. */
    lemma KeysAreUnique(c: Cookie, d: Cookie)
      requires Tree() && Content() && c in Stored() && d in Stored()
      requires c.domain == d.domain && c.path == d.path && c.name == d.name
      ensures c == d
    {
      hide Route, Storable;
      var n :| n in nodes && c in n.Bucket();
      assert BucketFits(n);
      hide Tree, Content;
      AtItsNode(n, d);
      SameKeySameCookie(n.Bucket(), c, d);
    }

    lemma AllUnique()
      requires Tree() && Content()
      ensures UniqueIn(Stored())
    {
      hide Tree, Content;
      forall c, d | c in Stored() && d in Stored() && KeyOf(c) == KeyOf(d)
        ensures c == d
      {
        KeysAreUnique(c, d);
      }
    }

    lemma StoredAtNode(node: DomainNode, c: Cookie)
      requires Tree() && Content() && node in nodes && node.route == Route(numericHost, c.domain)
      ensures KeyIn(Stored(), KeyOf(c)) <==> HasKey(node.Bucket(), KeyOf(c))
    {
      hide Route, Storable, Tree, Content;
      if KeyIn(Stored(), KeyOf(c)) {
        var d :| d in Stored() && KeyOf(d) == KeyOf(c);
        AtItsNode(node, d);
        assert d in node.Bucket();
      }
      if i :| 0 <= i < |node.Bucket()| && KeyOf(node.Bucket()[i]) == KeyOf(c) {
        var d := node.Bucket()[i];
        assert d in node.Bucket() && d in Stored();
      }
    }

    /** Whether a cookie with the same domain, path and name is stored. */
    method Contains(c: Cookie) returns (r: bool)
      requires Valid()
      ensures r <==> exists d | d in Stored() :: d.domain == c.domain && d.path == c.path && d.name == c.name
    {
      hide Route, Storable, Tree, Content, Tracks, Covers, KeyIn, KeyOf, HasKey;
      KeyInFields(Stored(), c);
      var node := FindNode(Route(numericHost, c.domain));
      if node == null {
        NotStored(c);
        return false;
      }
      StoredAtNode(node, c);
      r := node.Contains(c);
    }

    lemma NotStored(c: Cookie)
      requires Tree() && Content() && forall n | n in nodes :: n.route != Route(numericHost, c.domain)
      ensures !KeyIn(Stored(), KeyOf(c))
    {
      hide Route, Storable, Tree;
      forall d | d in Stored()
        ensures Route(numericHost, d.domain) != Route(numericHost, c.domain)
      {
        var n :| n in nodes && d in n.Bucket();
        assert BucketFits(n);
      }
    }

    /** addCookie on a node of the tree, before the tracker hears of it. */
    method AddAt(node: DomainNode, c: Cookie, now: int) returns (ok: bool)
      requires Sound() && node in nodes && Storable(numericHost, c) && node.route == Route(numericHost, c.domain)
      modifies node`cookies, node`lastAccessTime
      ensures Tree() && Content() && Tracks() && Covers({node}) && (!ok ==> Covers({}))
      ensures Offered(AsSet(old(node.Bucket())), c, now, AsSet(node.Bucket()), ok) && (ok ==> node.cookies.Some?)
    {
      hide Tree, Route, Storable, Offered;
      assert BucketFits(node);
      UniqueKeys(node.Bucket());
      ok := node.AddCookie(c, now);
      OfferedKey(AsSet(old(node.Bucket())), c, now, AsSet(node.Bucket()), ok);
      forall d | d in node.Bucket()
        ensures Storable(numericHost, d) && Route(numericHost, d.domain) == node.route
      {
        SameDomain(c, d);
      }
      assert BucketFits(node);
      forall n | n in nodes && n != node
        ensures BucketFits(n)
      {
        assert old(BucketFits(n));
      }
      if !ok && node.Bucket() != [] {
        assert node.Bucket()[0] in AsSet(node.Bucket());
        assert node.Bucket()[0] in old(node.Bucket());
      }
    }

    /** Storing the same cookie with another creation time is as good. */
    lemma SameDomain(c: Cookie, d: Cookie)
      requires Storable(numericHost, c)
      ensures d == c.(creationTime := d.creationTime) ==>
                Storable(numericHost, d) && Route(numericHost, d.domain) == Route(numericHost, c.domain)
    {
    }

    /** Adding nodes changes nothing else. */
    method NodeFor(route: seq<string>) returns (node: DomainNode)
      requires Sound()
      modifies this`nodes, nodes`next
      ensures Sound() && node in nodes && node.route == route && Stored() == old(Stored())
      ensures old(nodes) <= nodes && (node in old(nodes) || fresh(node))
      ensures forall n | n in nodes && n !in old(nodes) :: fresh(n) && !n.inLru
    {
      hide Tree, Route, Storable;
      node := GetOrCreate(route);
      forall n | n in nodes
        ensures BucketFits(n)
      {
        if n in old(nodes) {
          assert old(BucketFits(n));
        } else {
          EmptyFits(n);
        }
      }
    }

    /** The cookies at a node are the stored cookies of its domain. */
    lemma BucketIsDomain(node: DomainNode)
      requires Tree() && Content() && node in nodes
      ensures forall d :: d in node.Bucket() <==> d in Stored() && Route(numericHost, d.domain) == node.route
    {
      hide Route, Storable;
      assert BucketFits(node);
      hide Tree, Content;
      forall d | d in Stored() && Route(numericHost, d.domain) == node.route
        ensures d in node.Bucket()
      {
        AtItsNode(node, d);
      }
    }

    /** Changing one bucket changes the stored cookies there and nowhere else. */
    twostate lemma OtherBuckets(node: DomainNode)
      requires Tree() && old(Content()) && node in nodes && nodes == old(nodes)
      requires forall n | n in nodes && n != node :: n.cookies == old(n.cookies)
      ensures forall d :: d in Stored() <==> d in node.Bucket() || (d in old(Stored()) && d !in old(node.Bucket()))
    {
      hide Route, Storable;
      forall d | d in Stored()
        ensures d in node.Bucket() || (d in old(Stored()) && d !in old(node.Bucket()))
      {
        var n :| n in nodes && d in n.Bucket();
        if n != node {
          if n.route == node.route {
            OneNodePerRoute(n, node);
          }
          assert d in old(n.Bucket()) && old(BucketFits(n)) && old(BucketFits(node));
        }
      }
      forall d | d in old(Stored()) && d !in old(node.Bucket())
        ensures d in Stored()
      {
        var n :| n in nodes && d in old(n.Bucket());
        assert d in n.Bucket();
      }
    }

    /** Offering a cookie to its node, seen on the flat view. */
    method Offer(node: DomainNode, c: Cookie, now: int) returns (ok: bool)
      requires Sound() && node in nodes && Storable(numericHost, c) && node.route == Route(numericHost, c.domain)
      modifies node`cookies, node`lastAccessTime
      ensures Tree() && Content() && Tracks() && Covers({node}) && (!ok ==> Covers({}))
      ensures ok ==> node.cookies.Some?
      ensures ok == !IsExpired(c, now) && StoredChange(numericHost, old(Stored()), Stored(), c, now, ok)
      ensures KeyIn(Stored(), KeyOf(c)) <==> ok
    {
      AllUnique();
      BucketIsDomain(node);
      ghost var was := Stored();
      ghost var bucket := node.Bucket();
      hide Tree, Route, Storable, Offered, StoredChange;
      ok := AddAt(node, c, now);
      BucketIsDomain(node);
      OtherBuckets(node);
      FlatOffer(numericHost, was, Stored(), bucket, node.Bucket(), c, now, ok);
      StoredKey(numericHost, was, Stored(), c, now, ok);
    }

    /**
      store: the cookies of the `cleared` domains are evicted when the tracker is full, a tenth of it at
      most, and the rest is `kept`.
     */
    method Store(c: Cookie, now: int) returns (ok: bool, ghost cleared: set<DomainNode>, ghost kept: set<Cookie>)
      requires Valid() && Storable(numericHost, c)
      modifies this`nodes, this`lruTracker, nodes
      ensures Valid() && forall n | n in nodes && n !in old(nodes) :: fresh(n)
      ensures ok <==> !c.persistent || now <= c.expiryTime
      ensures ok <==> exists d | d in Stored() :: d.domain == c.domain && d.path == c.path && d.name == c.name
      ensures |cleared| <= if old(|lruTracker|) < 2000 then 0 else old(|lruTracker|) / 10
      ensures Evicted(old(Buckets()), old(TimesOf(nodes)), cleared, kept) && StoredChange(numericHost, kept, Stored(), c, now, ok)
      // The domain of a cookie that is taken counts as used now, and no other domain does.
      ensures ok ==> exists n :: n in UseTimes() && n.route == Route(numericHost, c.domain)
      ensures forall n | n in UseTimes() ::
                if ok && n.route == Route(numericHost, c.domain) then UseTimes()[n] == now
                else n in old(UseTimes()) && UseTimes()[n] == old(UseTimes())[n]
    {
      hide Sound, Valid, Route, Storable, StoredChange, Evicted, KeyIn, UseTimes;
      cleared := MakeRoom();
      kept := Stored();
      ok := Take(c, now);
      KeyInFields(Stored(), c);
    }

    /** The rest of store: the cookie is offered to the node of its domain. */
    method Take(c: Cookie, now: int) returns (ok: bool)
      requires Sound() && |lruTracker| < DOMAIN_EVICTION_TRIGGER && Storable(numericHost, c)
      modifies this`nodes, this`lruTracker, nodes
      ensures Valid() && forall n | n in nodes && n !in old(nodes) :: fresh(n)
      ensures ok == !IsExpired(c, now) && StoredChange(numericHost, old(Stored()), Stored(), c, now, ok)
      ensures KeyIn(Stored(), KeyOf(c)) <==> ok
      ensures ok ==> exists n :: n in UseTimes() && n.route == Route(numericHost, c.domain)
      ensures forall n | n in UseTimes() ::
                if ok && n.route == Route(numericHost, c.domain) then UseTimes()[n] == now
                else n in old(UseTimes()) && UseTimes()[n] == old(UseTimes())[n]
    {
      hide Tree, Content, Tracks, Covers, Route, Storable, StoredChange, KeyIn;
      var node := NodeFor(Route(numericHost, c.domain));
      NotTheRoot(node, c);
      OnlyNodeOf(node);
      ok := Offer(node, c, now);
      if ok {
        UpdateLru(node, now);
      }
    }

    lemma OnlyNodeOf(node: DomainNode)
      requires Tree() && node in nodes
      ensures forall n | n in nodes && n.route == node.route :: n == node
    {
      hide Tree;
      forall n | n in nodes && n.route == node.route
        ensures n == node
      {
        OneNodePerRoute(n, node);
      }
    }

    /** The eviction at the start of store. */
    method MakeRoom() returns (ghost cleared: set<DomainNode>)
      requires Valid()
      modifies this`nodes, this`lruTracker, nodes`next, nodes`inLru, nodes`cookies
      ensures Sound() && |lruTracker| < DOMAIN_EVICTION_TRIGGER && nodes <= old(nodes)
      ensures forall n | n in UseTimes() :: n in old(UseTimes()) && UseTimes()[n] == old(UseTimes())[n]
      ensures |cleared| <= if old(|lruTracker|) < DOMAIN_EVICTION_TRIGGER then 0 else old(|lruTracker|) / 10
      ensures Evicted(old(Buckets()), old(TimesOf(nodes)), cleared, Stored())
    {
      hide Tree, Content, Tracks, Covers, Evicted;
      cleared := {};
      if |lruTracker| >= DOMAIN_EVICTION_TRIGGER {
        cleared := Shrink(|lruTracker| / 10);
      } else {
        NothingEvicted();
      }
    }

    /** evictNode, seen on the flat list. */
    method Shrink(delnum: nat) returns (ghost cleared: set<DomainNode>)
      requires Valid()
      modifies this`nodes, this`lruTracker, nodes`next, nodes`inLru, nodes`cookies
      ensures Valid() && nodes <= old(nodes)
      ensures |lruTracker| + delnum <= old(|lruTracker|) || lruTracker == {}
      ensures forall n | n in UseTimes() :: n in old(UseTimes()) && UseTimes()[n] == old(UseTimes())[n]
      ensures |cleared| <= delnum && Evicted(old(Buckets()), old(TimesOf(nodes)), cleared, Stored())
    {
      hide Tree, Content, Tracks, Covers, OneNodePerCookie, Evicted;
      CookiesAreApart();
      cleared := EvictNode(delnum);
      EvictionIsFair(cleared);
      TrackedBefore();
    }

    twostate lemma NothingEvicted()
      requires nodes == old(nodes) && Stored() == old(Stored())
      ensures Evicted(old(Buckets()), old(TimesOf(nodes)), {}, Stored())
    {
    }

    twostate lemma TrackedBefore()
      requires old(Tracks()) && Tracks() && nodes <= old(nodes) && lruTracker <= old(lruTracker)
      ensures forall n | n in nodes && n.inLru :: old(n.inLru)
    {
      forall n | n in nodes && n.inLru
        ensures old(n.inLru)
      {
        assert (n.lruAccessTime, n) in old(lruTracker);
      }
    }

    /** Before and after the eviction. */
    twostate lemma EvictionIsFair(new cleared: set<DomainNode>)
      requires old(OneNodePerCookie()) && Tracks() && Covers({}) && nodes <= old(nodes)
      requires forall n | n in old(nodes) :: n.lruAccessTime == old(n.lruAccessTime)
      requires cleared <= old(nodes)
      requires forall n | n in old(nodes) :: n.Bucket() == (if n in cleared then [] else old(n.Bucket()))
      requires forall n | n in old(nodes) && n.Bucket() != [] :: n in nodes
      requires forall n, f | n in cleared && f in lruTracker :: n.lruAccessTime <= f.0
      ensures Evicted(old(Buckets()), old(TimesOf(nodes)), cleared, Stored())
    {
      forall d | d in Stored()
        ensures d in old(Stored())
      {
        var n :| n in nodes && d in n.Bucket();
        assert d in old(n.Bucket());
      }
      forall n, d | n in old(nodes) && d in old(n.Bucket())
        ensures d in Stored() <==> n !in cleared
      {
        if d in Stored() {
          var k :| k in nodes && d in k.Bucket();
          assert d in old(k.Bucket());
        }
      }
      forall n, m | n in old(nodes) && n in cleared && m in old(nodes) && m !in cleared && old(m.Bucket()) != []
        ensures old(n.lruAccessTime) <= old(m.lruAccessTime)
      {
        assert (m.lruAccessTime, m) in lruTracker;
      }
    }

    ghost predicate OneNodePerCookie()
      reads this`nodes, nodes`cookies
    {
      forall k, m, e | k in nodes && m in nodes && e in k.Bucket() && e in m.Bucket() :: k == m
    }

    lemma CookiesAreApart()
      requires Tree() && Content()
      ensures OneNodePerCookie()
    {
      hide Tree, Route;
      forall k, m, e | k in nodes && m in nodes && e in k.Bucket() && e in m.Bucket()
        ensures k == m
      {
        assert BucketFits(k) && BucketFits(m);
        OneNodePerRoute(k, m);
      }
    }

    lemma NotTheRoot(node: DomainNode, c: Cookie)
      requires Tree() && Storable(numericHost, c) && node.route == Route(numericHost, c.domain)
      ensures node != root
    {
    }

    // ----- counting

    /** size: the cookies of the tracked nodes are all there are. */
    method Size() returns (n: nat)
      requires Valid()
      ensures n == |Stored()|
    {
      hide Tree, Content, Tracks, Covers;
      n := 0;
      var rest := lruTracker;
      ghost var done: set<DomainNode> := {};
      while rest != {}
        invariant rest <= lruTracker && done <= nodes
        invariant forall m :: m in done <==> m in nodes && (m.lruAccessTime, m) in lruTracker - rest
        invariant n == |CookiesAt(done)|
        decreases |rest|
      {
        var e :| e in rest;
        TrackedNode(e);
        CountOne(done, e.1);
        n := n + |e.1.Bucket()|;
        rest := rest - {e};
        done := done + {e.1};
      }
      AllCounted(done);
    }

    ghost function CookiesAt(some: set<DomainNode>): set<Cookie>
      reads some`cookies
    {
      set n, c | n in some && c in n.Bucket() :: c
    }

    lemma AllCounted(done: set<DomainNode>)
      requires Tracks() && Covers({}) && done <= nodes
      requires forall n :: n in done <==> n in nodes && (n.lruAccessTime, n) in lruTracker
      ensures CookiesAt(done) == Stored()
    {
      forall d | d in Stored()
        ensures d in CookiesAt(done)
      {
        var n :| n in nodes && d in n.Bucket();
        assert n in done;
      }
    }

    lemma CountOne(done: set<DomainNode>, node: DomainNode)
      requires Tree() && Content() && done <= nodes && node in nodes && node !in done
      ensures |CookiesAt(done + {node})| == |CookiesAt(done)| + |node.Bucket()|
    {
      hide Route, Storable;
      assert BucketFits(node);
      var more := set c | c in node.Bucket();
      assert CookiesAt(done + {node}) == CookiesAt(done) + more;
      forall d | d in CookiesAt(done)
        ensures d !in more
      {
        var m :| m in done && d in m.Bucket();
        assert BucketFits(m);
        if d in more {
          OneNodePerRoute(node, m);
        }
      }
      BucketSize(node.Bucket());
    }

    // ----- lookup

    /** findCookie: the matching cookies of a node, which are marked as used. */
    method FindCookie(node: DomainNode, q: Request) returns (out: seq<Cookie>)
      requires node in nodes && Tree() && Content() && Tracks() && Covers({})
      modifies node`cookies
      ensures Tree() && Content() && Tracks() && Covers({})
      ensures node.Bucket() == TouchAll(numericHost, q, old(node.Bucket()))
      ensures out == Found(numericHost, q, old(node.Bucket()))
    {
      hide Tree, Route, Storable, TouchAll;
      assert BucketFits(node);
      TouchKeeps(numericHost, q, node.Bucket());
      TouchKeepsDomain(numericHost, q, node.Bucket(), node.route);
      out := [];
      if node.cookies.Some? {
        var after;
        after, out := MatchAll(numericHost, q, node.cookies.value);
        node.cookies := Some(after);
      }
      assert BucketFits(node);
      forall n | n in nodes && n != node
        ensures BucketFits(n)
      {
        assert old(BucketFits(n));
      }
    }

    /** One node on the way to the request host. */
    method Visit(node: DomainNode, q: Request) returns (out: seq<Cookie>)
      requires Valid() && node in nodes && node != root
      modifies this`lruTracker, node`lastAccessTime, node`lruAccessTime, node`inLru, node`cookies
      ensures Valid()
      ensures node.lastAccessTime == q.now
      ensures node.Bucket() == TouchAll(numericHost, q, old(node.Bucket()))
      ensures out == Found(numericHost, q, old(node.Bucket()))
      ensures node.inLru == old(node.inLru) && node.lruAccessTime == if node.inLru then q.now else old(node.lruAccessTime)
    {
      hide Content, Tree, Tracks, Covers;
      node.lastAccessTime := q.now;
      if node.inLru {
        TrackedHasBucket(node);
        CoversMore(node);
        UpdateLru(node, q.now);
      }
      out := FindCookie(node, q);
    }

    lemma TrackedHasBucket(node: DomainNode)
      requires Tracks() && node in nodes && node.inLru
      ensures node.cookies.Some?
    {
      assert (node.lruAccessTime, node) in lruTracker;
    }

    lemma CoversMore(node: DomainNode)
      requires Covers({})
      ensures Covers({node})
    {
    }

    /** The buckets, as values. */
    ghost function Buckets(): map<DomainNode, seq<Cookie>>
      reads this`nodes, nodes`cookies
    {
      map n | n in nodes :: n.Bucket()
    }

    /** The buckets after the nodes on the first i labels of the way have been visited. */
    ghost predicate VisitedTo(q: Request, before: map<DomainNode, seq<Cookie>>, route: seq<string>, i: nat)
      reads this`nodes, nodes`cookies
      requires before.Keys == nodes
    {
      forall n | n in nodes ::
        n.Bucket() == if OnTheWay(n.route, route, i) then TouchAll(numericHost, q, before[n]) else before[n]
    }

    /** The times of use after the nodes on the first i labels of the way have been visited. */
    ghost predicate UsedTo(q: Request, times: map<DomainNode, int>, route: seq<string>, i: nat)
      reads this`nodes, nodes`inLru, nodes`lruAccessTime
    {
      UseTimes().Keys == times.Keys &&
      forall n | n in times :: UseTimes()[n] == if OnTheWay(n.route, route, i) then q.now else times[n]
    }

    /** The walk of criteriaFind. */
    method Collect(q: Request) returns (res: seq<Cookie>)
      requires Valid()
      modifies this`lruTracker, nodes`lastAccessTime, nodes`lruAccessTime, nodes`inLru, nodes`cookies
      ensures Valid()
      ensures forall n | n in nodes :: n.Bucket() == MarkAll(numericHost, q, old(n.Bucket()))
      ensures FoundAll(numericHost, q, old(Stored()), res)
      ensures UseTimes().Keys == old(UseTimes()).Keys
      ensures forall n | n in UseTimes() ::
                UseTimes()[n] == if n.route <= Route(numericHost, q.host) then q.now else old(UseTimes())[n]
    {
      ghost var before, stored, times := Buckets(), Stored(), UseTimes();
      TakeSnapshot();
      StartOfWalk(numericHost, q, before, stored);
      assert VisitedTo(q, before, Route(numericHost, q.host), 0) && UsedTo(q, times, Route(numericHost, q.host), 0);
      hide Valid, Route, Storable, Gathered, VisitedTo, UsedTo, Snapshot, OnTheWay;
      ghost var node, i;
      res, node, i := Walk(q, before, stored, times);
      EndOfWalk(q, before, stored, node, i, res);
      RootIsApart();
      EndOfUse(q, times, node, i);
    }

    /** When the way ends, or the next node is missing, every tracked node on it has been used. */
    lemma EndOfUse(q: Request, times: map<DomainNode, int>, node: DomainNode, i: nat)
      requires Tree() && node in nodes && forall n | n in nodes && n.inLru :: n.route != []
      requires var route := Route(numericHost, q.host);
               && i <= |route| && node.route == route[..i] && (i < |route| ==> route[i] !in node.next)
               && UsedTo(q, times, route, i)
      ensures UseTimes().Keys == times.Keys
      ensures forall n | n in times ::
                UseTimes()[n] == if n.route <= Route(numericHost, q.host) then q.now else times[n]
    {
      hide Route, UseTimes, Tree;
      var route := Route(numericHost, q.host);
      forall n | n in UseTimes()
        ensures OnTheWay(n.route, route, i) <==> n.route <= route
      {
        if n.route <= route && i < |n.route| {
          assert route[..i + 1] <= n.route;
          ChildOnTheWay(node, route, i, n);
        }
      }
    }

    /** Its loop: down the way to the request host for as long as there are nodes. */
    method Walk(q: Request, ghost before: map<DomainNode, seq<Cookie>>, ghost stored: set<Cookie>,
                ghost times: map<DomainNode, int>)
      returns (res: seq<Cookie>, ghost last: DomainNode, ghost n: nat)
      requires Valid() && before.Keys == nodes && Snapshot(numericHost, before, stored)
      requires VisitedTo(q, before, Route(numericHost, q.host), 0) && Gathered(numericHost, q, stored, 0, [])
      requires UsedTo(q, times, Route(numericHost, q.host), 0)
      modifies this`lruTracker, nodes`lastAccessTime, nodes`lruAccessTime, nodes`inLru, nodes`cookies
      ensures Valid() && last in nodes
      ensures var route := Route(numericHost, q.host);
              && n <= |route| && last.route == route[..n] && (n < |route| ==> route[n] !in last.next)
              && VisitedTo(q, before, route, n) && Gathered(numericHost, q, stored, n, res) && UsedTo(q, times, route, n)
    {
      hide Valid, Route, Storable, Gathered, VisitedTo, UsedTo, Snapshot;
      RootOfValid();
      var route := Route(numericHost, q.host);
      var node := root;
      var i := 0;
      res := [];
      while i < |route|
        invariant Valid() && i <= |route| && node in nodes && node.route == route[..i]
        invariant VisitedTo(q, before, route, i) && UsedTo(q, times, route, i)
        invariant Gathered(numericHost, q, stored, i, res)
      {
        if route[i] !in node.next {
          break;
        }
        var child := ChildOf(node, route[i]);
        assert child.route == route[..i + 1];
        var out := VisitNext(child, q, before, stored, times, i, res);
        res := res + out;
        node := child;
        i := i + 1;
      }
      last, n := node, i;
    }

    lemma RootOfValid()
      requires Valid()
      ensures root in nodes && root.route == []
    {
    }

    lemma TakeSnapshot()
      requires Tree() && Content()
      ensures Snapshot(numericHost, Buckets(), Stored())
    {
      hide Tree, Route, Storable;
      forall n | n in nodes
        ensures BucketOk(n.Bucket())
        ensures forall d :: d in n.Bucket() <==> d in Stored() && Route(numericHost, d.domain) == n.route
      {
        assert BucketFits(n);
        BucketIsDomain(n);
      }
      forall d | d in Stored()
        ensures exists n | n in Buckets() :: d in Buckets()[n]
      {
        var n :| n in nodes && d in n.Bucket();
        assert n in Buckets() && Buckets()[n] == n.Bucket();
      }
    }

    /** When the way ends, or the next node is missing, everything that matches has been found. */
    lemma EndOfWalk(q: Request, before: map<DomainNode, seq<Cookie>>, stored: set<Cookie>, node: DomainNode, i: nat, res: seq<Cookie>)
      requires Valid() && node in nodes && before.Keys == nodes && Snapshot(numericHost, before, stored)
      requires var route := Route(numericHost, q.host);
               && i <= |route| && node.route == route[..i] && (i < |route| ==> route[i] !in node.next)
               && VisitedTo(q, before, route, i) && Gathered(numericHost, q, stored, i, res)
      ensures forall n | n in nodes :: n.Bucket() == MarkAll(numericHost, q, before[n])
      ensures FoundAll(numericHost, q, stored, res)
    {
      hide Route, Storable, Hits, Reached, Served, Marked, Touched;
      var route := Route(numericHost, q.host);
      forall n, d | n in nodes && d in before[n] && Served(numericHost, q, d)
        ensures OnTheWay(n.route, route, i)
      {
        ServedIsOnTheWay(numericHost, q, d);
        if i < |n.route| {
          assert route[..i + 1] <= n.route;
          ChildOnTheWay(node, route, i, n);
        }
      }
      hide Valid, TouchAll, MarkAll;
      forall n | n in nodes
        ensures n.Bucket() == MarkAll(numericHost, q, before[n])
      {
        if OnTheWay(n.route, route, i) {
          AllServed(numericHost, q, before[n], n.route);
        } else {
          NothingMarked(numericHost, q, before[n]);
        }
      }
      forall d | d in stored && Served(numericHost, q, d)
        ensures |Route(numericHost, d.domain)| <= i
      {
        var n :| n in before && d in before[n];
      }
    }

    method ChildOf(node: DomainNode, text: string) returns (child: DomainNode)
      requires Valid() && node in nodes && text in node.next
      ensures child in nodes && child != root && child.route == node.route + [text]
    {
      assert ChildrenOk(node);
      child := node.next[text];
      assert HangsFrom(child);
    }

    /** One step of the walk. */
    method VisitNext(child: DomainNode, q: Request, ghost before: map<DomainNode, seq<Cookie>>, ghost stored: set<Cookie>,
                     ghost times: map<DomainNode, int>, ghost i: nat, ghost res: seq<Cookie>)
      returns (out: seq<Cookie>)
      requires Valid() && child in nodes && child != root && before.Keys == nodes
      requires Snapshot(numericHost, before, stored) && Gathered(numericHost, q, stored, i, res)
      requires var route := Route(numericHost, q.host);
               i < |route| && child.route == route[..i + 1] && VisitedTo(q, before, route, i) && UsedTo(q, times, route, i)
      modifies this`lruTracker, child`lastAccessTime, child`lruAccessTime, child`inLru, child`cookies
      ensures Valid() && VisitedTo(q, before, Route(numericHost, q.host), i + 1)
      ensures UsedTo(q, times, Route(numericHost, q.host), i + 1)
      ensures Gathered(numericHost, q, stored, i + 1, res + out)
    {
      hide Route, Storable, Gathered, Snapshot, TouchAll, Found, OnTheWay, Tree, Content, Tracks, Covers;
      ghost var route := Route(numericHost, q.host);
      WayGrows(child.route, route, i);
      assert child.Bucket() == before[child];
      out := Visit(child, q);
      AddFound(numericHost, q, before, stored, child, i, res);
      forall n | n in nodes
        ensures n.Bucket() == if OnTheWay(n.route, route, i + 1) then TouchAll(numericHost, q, before[n]) else before[n]
        ensures n.inLru == (n in times)
        ensures n in times ==> n.lruAccessTime == if OnTheWay(n.route, route, i + 1) then q.now else times[n]
      {
        WayGrows(n.route, route, i);
        if n != child && n.route == child.route {
          OneNodePerRoute(n, child);
        }
      }
    }

    /**
      criteriaFind refines a scan of the flat list: every stored cookie that matches and whose domain the
      walk comes by is returned exactly once and no other, deepest path first and oldest first among
      equals, and these cookies are marked as used.
     */
    method CriteriaFind(q: Request) returns (res: seq<Cookie>)
      requires Valid()
      modifies this`lruTracker, nodes`lastAccessTime, nodes`lruAccessTime, nodes`inLru, nodes`cookies
      // The domains on the way to the host count as used now, and no other domain does.
      ensures UseTimes().Keys == old(UseTimes()).Keys
      ensures forall n | n in UseTimes() ::
                UseTimes()[n] == if q.path != "" && n.route <= Route(numericHost, q.host) then q.now else old(UseTimes())[n]
      ensures ByDepth(res)
      ensures if q.path == "" then res == [] && Stored() == old(Stored())
              else FoundAll(numericHost, q, old(Stored()), res) && Stored() == MarkedIn(numericHost, q, old(Stored()))
      // Section 5.4 of RFC 6265 asks for longer paths first; that is what comes out exactly when no path
      // stands before one that is the same but for slashes at its end.
      ensures LongerFirst(res) <==> forall i, j | 0 <= i < j < |res| :: !SlashesLonger(res[i].path, res[j].path)
      ensures q.path != "" ==> OrderByTimes(numericHost, q, old(Stored()), res)
      // In the fields of the cookies: which of them are returned, and what is stored afterwards.
      ensures q.path != "" ==> forall d | d in old(Stored()) ::
                d.(lastAccessTime := q.now) in res <==>
                && (d.secure ==> q.secure) && (d.persistent ==> q.now <= d.expiryTime)
                && (q.path == d.path ||
                    (d.path != "" && d.path <= q.path &&
                     (d.path[|d.path| - 1] == '/' || (|d.path| < |q.path| && q.path[|d.path|] == '/'))))
                && (q.host == d.domain ||
                    (!d.hostOnly && |d.domain| < |q.host| && q.host[|q.host| - |d.domain| - 1..] == "." + d.domain &&
                     !numericHost(q.host) && (!numericHost(d.domain) || (d.domain != "" && '.' !in d.domain))))
      ensures q.path != "" ==> forall c | c in res :: exists d | d in old(Stored()) :: c == d.(lastAccessTime := q.now)
      ensures forall i, j | 0 <= i < j < |res| :: res[i] != res[j]
      ensures forall c :: c in Stored() <==> c in res || (c in old(Stored()) && c.(lastAccessTime := q.now) !in res)
      ensures Valid()
    {
      UniqueWhenValid();
      hide Valid, ByDepth, LongerFirst, SlashesLonger, FoundAll, MarkedIn, OrderByTimes, UniqueIn;
      if q.path == "" {
        NothingInOrder();
        return [];
      }
      res := Lookup(q);
      FoundInFields(numericHost, q, old(Stored()), res, Stored());
    }

    /** The walk and the sorting. */
    method Lookup(q: Request) returns (res: seq<Cookie>)
      requires Valid()
      modifies this`lruTracker, nodes`lastAccessTime, nodes`lruAccessTime, nodes`inLru, nodes`cookies
      ensures UseTimes().Keys == old(UseTimes()).Keys
      ensures forall n | n in UseTimes() ::
                UseTimes()[n] == if n.route <= Route(numericHost, q.host) then q.now else old(UseTimes())[n]
      ensures ByDepth(res)
      ensures FoundAll(numericHost, q, old(Stored()), res) && Stored() == MarkedIn(numericHost, q, old(Stored()))
      ensures LongerFirst(res) <==> forall i, j | 0 <= i < j < |res| :: !SlashesLonger(res[i].path, res[j].path)
      ensures OrderByTimes(numericHost, q, old(Stored()), res)
      ensures Valid()
    {
      hide Valid, Served, Marked, ByDepth, LongerFirst, SlashesLonger, FoundAll, MarkedIn, OrderByTimes, DistinctKeys, KeyOf;
      var found := Collect(q);
      FlatMark(q);
      res := SortByPath(found);
      FoundInOrder(numericHost, q, old(Stored()), found, res);
    }

    lemma UniqueWhenValid()
      requires Valid()
      ensures UniqueIn(Stored())
    {
      hide Content, Tracks, Covers;
      AllUnique();
    }

    /** Every tracked domain stands under the time of its last use by the calls so far. */
    ghost predicate TimesAre(start: seq<string> -> int, calls: seq<Call>, k: nat)
      reads this`nodes, nodes`inLru, nodes`lruAccessTime
      requires k <= |calls|
    {
      forall n | n in UseTimes() :: UseTimes()[n] == LastUsed(numericHost, start, calls, k, n.route)
    }

    /**
      Any run of calls refines steps on a flat list: each call first gives up whole domains, none of which was
      used after one that is kept, and then does its work. `start` says when a domain was used before the run.
     */
    method Serve(calls: seq<Call>, ghost start: seq<string> -> int)
      returns (ghost states: seq<set<Cookie>>, ghost kept: seq<set<Cookie>>)
      requires Valid() && forall i | 0 <= i < |calls| && calls[i].Put? :: Storable(numericHost, calls[i].cookie)
      requires forall n | n in UseTimes() :: UseTimes()[n] == start(n.route)
      modifies this`nodes, this`lruTracker, nodes
      ensures Valid() && UniqueIn(Stored())
      ensures |states| == |calls| + 1 && |kept| == |calls| && states[0] == old(Stored()) && states[|calls|] == Stored()
      ensures forall k | 0 <= k < |calls| ::
                && LastUsedGoFirst(numericHost, start, calls, k, states[k], kept[k])
                && Took(numericHost, calls[k], kept[k], states[k + 1])
                && (calls[k].Ask? ==> kept[k] == states[k])
    {
      hide Valid, TimesAre, LastUsedGoFirst, Took, Storable, UniqueIn;
      TimesAtFirst(start, calls);
      states, kept := [Stored()], [];
      for i := 0 to |calls|
        invariant Valid() && TimesAre(start, calls, i) && forall n | n in nodes && n !in old(nodes) :: fresh(n)
        invariant |states| == i + 1 && |kept| == i && states[0] == old(Stored()) && states[i] == Stored()
        invariant forall k | 0 <= k < i ::
                    && LastUsedGoFirst(numericHost, start, calls, k, states[k], kept[k])
                    && Took(numericHost, calls[k], kept[k], states[k + 1])
                    && (calls[k].Ask? ==> kept[k] == states[k])
      {
        ghost var some := ServeOne(calls, start, i);
        states, kept := states + [Stored()], kept + [some];
      }
      UniqueWhenValid();
    }

    lemma TimesAtFirst(start: seq<string> -> int, calls: seq<Call>)
      requires forall n | n in UseTimes() :: UseTimes()[n] == start(n.route)
      ensures TimesAre(start, calls, 0)
    {
    }

    method ServeOne(calls: seq<Call>, ghost start: seq<string> -> int, k: nat) returns (ghost kept: set<Cookie>)
      requires Valid() && k < |calls| && (calls[k].Put? ==> Storable(numericHost, calls[k].cookie)) && TimesAre(start, calls, k)
      modifies this`nodes, this`lruTracker, nodes
      ensures Valid() && TimesAre(start, calls, k + 1) && forall n | n in nodes && n !in old(nodes) :: fresh(n)
      ensures LastUsedGoFirst(numericHost, start, calls, k, old(Stored()), kept)
      ensures Took(numericHost, calls[k], kept, Stored()) && (calls[k].Ask? ==> kept == old(Stored()))
    {
      hide Valid, TimesAre, LastUsedGoFirst, Took, Storable;
      if calls[k].Put? {
        kept := ServePut(calls, start, k);
      } else if calls[k].Ask? {
        kept := ServeAsk(calls, start, k);
      } else {
        kept := ServeEvict(calls, start, k);
      }
    }

    method ServePut(calls: seq<Call>, ghost start: seq<string> -> int, k: nat) returns (ghost kept: set<Cookie>)
      requires Valid() && k < |calls| && calls[k].Put? && Storable(numericHost, calls[k].cookie) && TimesAre(start, calls, k)
      modifies this`nodes, this`lruTracker, nodes
      ensures Valid() && TimesAre(start, calls, k + 1) && forall n | n in nodes && n !in old(nodes) :: fresh(n)
      ensures LastUsedGoFirst(numericHost, start, calls, k, old(Stored()), kept) && Took(numericHost, calls[k], kept, Stored())
    {
      ghost var stored, was, times, used := Stored(), Buckets(), TimesOf(nodes), UseTimes();
      TakeSnapshot();
      TimesOfBuckets(start, calls, k);
      hide Valid, LastUsedGoFirst, Storable, StoredChange, Route, Snapshot, TimesAre, Evicted, UseTimes;
      var ok;
      ghost var cleared;
      ok, cleared, kept := Store(calls[k].cookie, calls[k].now);
      KeptWereUsed(numericHost, start, calls, k, stored, was, times, cleared, kept);
      PutTimes(start, calls, k, ok, used);
    }

    /** A store uses the domain of a cookie that is taken. */
    lemma PutTimes(start: seq<string> -> int, calls: seq<Call>, k: nat, ok: bool, used: map<DomainNode, int>)
      requires k < |calls| && calls[k].Put?
      requires forall n | n in used :: used[n] == LastUsed(numericHost, start, calls, k, n.route)
      requires ok <==> !calls[k].cookie.persistent || calls[k].now <= calls[k].cookie.expiryTime
      requires forall n | n in UseTimes() ::
                 if ok && n.route == Route(numericHost, calls[k].cookie.domain) then UseTimes()[n] == calls[k].now
                 else n in used && UseTimes()[n] == used[n]
      ensures TimesAre(start, calls, k + 1)
    {
      hide Route;
    }

    /** A lookup uses the domains on the way to the host. */
    lemma AskTimes(start: seq<string> -> int, calls: seq<Call>, k: nat, used: map<DomainNode, int>)
      requires k < |calls| && calls[k].Ask? && Valid()
      requires forall n | n in used :: used[n] == LastUsed(numericHost, start, calls, k, n.route)
      requires UseTimes().Keys == used.Keys
      requires forall n | n in used ::
                 UseTimes()[n] == if calls[k].request.path != "" && n.route <= Route(numericHost, calls[k].request.host)
                                  then calls[k].request.now else used[n]
      ensures TimesAre(start, calls, k + 1)
    {
      hide Route;
      RootIsApart();
    }

    method ServeAsk(calls: seq<Call>, ghost start: seq<string> -> int, k: nat) returns (ghost kept: set<Cookie>)
      requires Valid() && k < |calls| && calls[k].Ask? && TimesAre(start, calls, k)
      modifies this`lruTracker, nodes`lastAccessTime, nodes`lruAccessTime, nodes`inLru, nodes`cookies
      ensures Valid() && TimesAre(start, calls, k + 1)
      ensures kept == old(Stored()) && LastUsedGoFirst(numericHost, start, calls, k, old(Stored()), kept)
      ensures Took(numericHost, calls[k], kept, Stored())
    {
      hide Valid, MarkedIn, Route, TimesAre, LastUsedGoFirst, UseTimes, LastUsed;
      kept := Stored();
      ghost var used := UseTimes();
      NothingLost(numericHost, start, calls, k, kept);
      UsedAre(start, calls, k);
      Ask(calls[k].request);
      AskTimes(start, calls, k, used);
    }

    lemma UsedAre(start: seq<string> -> int, calls: seq<Call>, k: nat)
      requires k <= |calls| && TimesAre(start, calls, k)
      ensures forall n | n in UseTimes() :: UseTimes()[n] == LastUsed(numericHost, start, calls, k, n.route)
    {
    }

    /** What a lookup leaves behind. */
    method Ask(q: Request)
      requires Valid()
      modifies this`lruTracker, nodes`lastAccessTime, nodes`lruAccessTime, nodes`inLru, nodes`cookies
      ensures UseTimes().Keys == old(UseTimes()).Keys
      ensures forall n | n in UseTimes() ::
                UseTimes()[n] == if q.path != "" && n.route <= Route(numericHost, q.host) then q.now else old(UseTimes())[n]
      ensures Stored() == if q.path == "" then old(Stored()) else MarkedIn(numericHost, q, old(Stored()))
      ensures Valid()
    {
      hide Valid, ByDepth, LongerFirst, SlashesLonger, FoundAll, OrderByTimes, MarkedIn, Route, UseTimes;
      var _ := CriteriaFind(q);
    }

    method ServeEvict(calls: seq<Call>, ghost start: seq<string> -> int, k: nat) returns (ghost kept: set<Cookie>)
      requires Valid() && k < |calls| && calls[k].Evict? && TimesAre(start, calls, k)
      modifies this`nodes, this`lruTracker, nodes`next, nodes`inLru, nodes`cookies
      ensures Valid() && TimesAre(start, calls, k + 1) && nodes <= old(nodes)
      ensures LastUsedGoFirst(numericHost, start, calls, k, old(Stored()), kept) && Took(numericHost, calls[k], kept, Stored())
    {
      ghost var stored, was, times, used := Stored(), Buckets(), TimesOf(nodes), UseTimes();
      TakeSnapshot();
      TimesOfBuckets(start, calls, k);
      hide Valid, LastUsedGoFirst, Snapshot, Evicted, UseTimes, TimesAre;
      ghost var cleared := Shrink(calls[k].count);
      kept := Stored();
      KeptWereUsed(numericHost, start, calls, k, stored, was, times, cleared, kept);
      EvictTimes(start, calls, k, used);
    }

    /** An eviction uses no domain. */
    lemma EvictTimes(start: seq<string> -> int, calls: seq<Call>, k: nat, used: map<DomainNode, int>)
      requires k < |calls| && calls[k].Evict?
      requires forall n | n in used :: used[n] == LastUsed(numericHost, start, calls, k, n.route)
      requires forall n | n in UseTimes() :: n in used && UseTimes()[n] == used[n]
      ensures TimesAre(start, calls, k + 1)
    {
    }

    /** Nodes with cookies are tracked. */
    lemma TimesOfBuckets(start: seq<string> -> int, calls: seq<Call>, k: nat)
      requires Covers({}) && k <= |calls| && TimesAre(start, calls, k)
      ensures forall n | n in UseTimes() :: UseTimes()[n] == LastUsed(numericHost, start, calls, k, n.route)
      ensures forall n | n in nodes && n.Bucket() != [] :: n.lruAccessTime == LastUsed(numericHost, start, calls, k, n.route)
    {
    }

    lemma RootIsApart()
      requires Valid()
      ensures Tree() && forall n | n in nodes && n.inLru :: n != root
      ensures forall n | n in nodes :: n == root <==> n.route == []
    {
      forall n | n in nodes && n.inLru
        ensures n != root
      {
        assert (n.lruAccessTime, n) in lruTracker;
      }
      forall n | n in nodes && n != root
        ensures n.route != []
      {
        assert HangsFrom(n);
      }
    }

    twostate lemma FlatMark(q: Request)
      requires nodes == old(nodes)
      requires forall n | n in nodes :: n.Bucket() == MarkAll(numericHost, q, old(n.Bucket()))
      ensures Stored() == MarkedIn(numericHost, q, old(Stored()))
    {
      hide Marked;
      forall c | c in Stored()
        ensures exists d | d in old(Stored()) :: c == Marked(numericHost, q, d)
      {
        var n :| n in nodes && c in n.Bucket();
        var i :| 0 <= i < |n.Bucket()| && n.Bucket()[i] == c;
        assert old(n.Bucket())[i] in old(n.Bucket());
        assert old(n.Bucket())[i] in old(Stored());
      }
      forall d | d in old(Stored())
        ensures Marked(numericHost, q, d) in Stored()
      {
        var n :| n in nodes && d in old(n.Bucket());
        var i :| 0 <= i < |old(n.Bucket())| && old(n.Bucket())[i] == d;
        assert n.Bucket()[i] in n.Bucket();
      }
    }
  }

  ghost function BucketsOf(some: set<DomainNode>): (r: map<DomainNode, seq<Cookie>>)
    reads some`cookies
    ensures r.Keys == some && forall n | n in some :: r[n] == n.Bucket()
  {
    map n | n in some :: n.Bucket()
  }

  ghost function TimesOf(some: set<DomainNode>): (r: map<DomainNode, int>)
    reads some`lruAccessTime
    ensures r.Keys == some && forall n | n in some :: r[n] == n.lruAccessTime
  {
    map n | n in some :: n.lruAccessTime
  }

  /** The cleared nodes were tracked and none was used after one that still is; all others have their cookies. */
  ghost predicate Progress(all: set<DomainNode>, was: map<DomainNode, seq<Cookie>>, now: map<DomainNode, seq<Cookie>>,
                           times: map<DomainNode, int>, tracked: set<DomainNode>, cleared: set<DomainNode>,
                           nodes: set<DomainNode>, lru: set<(int, DomainNode)>)
  {
    && was.Keys == now.Keys == times.Keys == all && nodes <= all && cleared <= tracked <= all
    && (forall f | f in lru :: f.1 in tracked)
    && (forall n | n in all :: now[n] == if n in cleared then [] else was[n])
    && (forall n | n in all && now[n] != [] :: n in nodes)
    && (forall n, f | n in cleared && f in lru :: times[n] <= f.0 && f.1 != n)
  }

  /** What is kept are the cookies of the nodes that are not cleared, none of which was used before a cleared one. */
  ghost predicate Evicted(was: map<DomainNode, seq<Cookie>>, times: map<DomainNode, int>, cleared: set<DomainNode>, kept: set<Cookie>)
    requires was.Keys == times.Keys
  {
    && cleared <= was.Keys
    && (forall d | d in kept :: exists n | n in was :: d in was[n])
    && (forall n, d | n in was && d in was[n] :: d in kept <==> n !in cleared)
    && (forall n, m | n in was && n in cleared && m in was && m !in cleared && was[m] != [] :: times[n] <= times[m])
  }

  lemma EvictedOne(all: set<DomainNode>, was: map<DomainNode, seq<Cookie>>, now: map<DomainNode, seq<Cookie>>,
                   now': map<DomainNode, seq<Cookie>>, times: map<DomainNode, int>, tracked: set<DomainNode>,
                   cleared: set<DomainNode>, nodes: set<DomainNode>, lru: set<(int, DomainNode)>,
                   nodes': set<DomainNode>, lru': set<(int, DomainNode)>, node: DomainNode)
    requires Progress(all, was, now, times, tracked, cleared, nodes, lru)
    requires nodes' <= nodes && lru' <= lru && exists t :: (t, node) in lru
    requires now'.Keys == all && forall n | n in all :: now'[n] == if n == node then [] else now[n]
    requires forall n | n in nodes && n in all && now'[n] != [] :: n in nodes'
    requires node in all && forall f | f in lru' :: times[node] <= f.0 && f.1 != node
    ensures Progress(all, was, now', times, tracked, cleared + {node}, nodes', lru') && node !in cleared
  {
    var t :| (t, node) in lru;
  }

  lemma EndOfEviction(all: set<DomainNode>, was: map<DomainNode, seq<Cookie>>, now: map<DomainNode, seq<Cookie>>,
                      times: map<DomainNode, int>, tracked: set<DomainNode>, cleared: set<DomainNode>,
                      nodes: set<DomainNode>, lru: set<(int, DomainNode)>)
    requires Progress(all, was, now, times, tracked, cleared, nodes, lru)
    ensures was.Keys == now.Keys == times.Keys == all && cleared <= tracked <= all
    ensures forall n | n in all :: now[n] == if n in cleared then [] else was[n]
    ensures forall n | n in all && now[n] != [] :: n in nodes
    ensures forall n, f | n in cleared && f in lru :: times[n] <= f.0
  {
  }

  lemma FewerEntries(s: set<(int, DomainNode)>, t: set<(int, DomainNode)>)
    requires s < t
    ensures |s| < |t|
  {
    assert |t - s| > 0;
    assert t == s + (t - s);
  }

  lemma {:induction false} OldestExists(s: set<(int, DomainNode)>)
    requires s != {}
    ensures exists e :: e in s && forall f | f in s :: e.0 <= f.0
    decreases |s|
  {
    var x :| x in s;
    var rest := s - {x};
    var e := x;
    if rest != {} {
      OldestExists(rest);
      var y :| y in rest && forall f | f in rest :: y.0 <= f.0;
      e := if x.0 <= y.0 then x else y;
    }
    forall f | f in s
      ensures e.0 <= f.0
    {
      assert f == x || f in rest;
    }
  }

  /** The cookies kept at the same node as c. */
  ghost function OfDomain(numeric: string -> bool, cookies: set<Cookie>, c: Cookie): set<Cookie> {
    set d | d in cookies && Route(numeric, d.domain) == Route(numeric, c.domain)
  }

  ghost predicate UniqueIn(cookies: set<Cookie>) {
    forall d, e | d in cookies && e in cookies && KeyOf(d) == KeyOf(e) :: d == e
  }

  /** What storing a cookie does to the flat view: its domain takes the offer, and no other domain changes. */
  ghost predicate StoredChange(numeric: string -> bool, before: set<Cookie>, after: set<Cookie>, c: Cookie, now: int, ok: bool) {
    && Offered(OfDomain(numeric, before, c), c, now, OfDomain(numeric, after, c), ok)
    && after - OfDomain(numeric, after, c) == before - OfDomain(numeric, before, c)
  }

  lemma FlatOffer(numeric: string -> bool, before: set<Cookie>, after: set<Cookie>, bucket: seq<Cookie>, bucket': seq<Cookie>,
                  c: Cookie, now: int, ok: bool)
    requires Offered(AsSet(bucket), c, now, AsSet(bucket'), ok)
    requires forall d :: d in bucket <==> d in before && Route(numeric, d.domain) == Route(numeric, c.domain)
    requires forall d :: d in bucket' <==> d in after && Route(numeric, d.domain) == Route(numeric, c.domain)
    requires forall d :: d in after <==> d in bucket' || (d in before && d !in bucket)
    ensures StoredChange(numeric, before, after, c, now, ok)
  {
    hide Route, Offered;
    assert AsSet(bucket) == OfDomain(numeric, before, c);
    assert AsSet(bucket') == OfDomain(numeric, after, c);
  }

  /** The key is stored afterwards exactly when the cookie was taken. */
  lemma StoredKey(numeric: string -> bool, before: set<Cookie>, after: set<Cookie>, c: Cookie, now: int, ok: bool)
    requires StoredChange(numeric, before, after, c, now, ok) && UniqueIn(before)
    ensures KeyIn(after, KeyOf(c)) <==> ok
  {
    hide Route, Offered;
    OfferedKey(OfDomain(numeric, before, c), c, now, OfDomain(numeric, after, c), ok);
    forall d | d in after && KeyOf(d) == KeyOf(c)
      ensures d in OfDomain(numeric, after, c)
    {
    }
  }

  /** A store in the fields of the cookies. */
  lemma StoredInFields(numeric: string -> bool, before: set<Cookie>, after: set<Cookie>, c: Cookie, now: int, ok: bool)
    requires StoredChange(numeric, before, after, c, now, ok) && UniqueIn(before)
    ensures ok <==> !c.persistent || now <= c.expiryTime
    // A cookie with the same domain, path and name gives way, and passes its creation time on.
    ensures forall p | p in before && p.domain == c.domain && p.path == c.path && p.name == c.name ::
              after == before - {p} + if ok then {c.(creationTime := p.creationTime)} else {}
    // Otherwise the cookie is added. If its domain holds 50 cookies, they give up all that have expired, or if
    // none has, one that was not used after any other.
    ensures (forall p | p in before :: p.domain != c.domain || p.path != c.path || p.name != c.name) ==>
              var near := set d | d in before && Route(numeric, d.domain) == Route(numeric, c.domain);
              if !ok then after == before
              else if |near| < 50 then after == before + {c}
              else if exists d | d in near :: d.persistent && d.expiryTime < now then
                after == (set d | d in before && !(d in near && d.persistent && d.expiryTime < now)) + {c}
              else exists v | v in near ::
                (forall d | d in near :: v.lastAccessTime <= d.lastAccessTime) && after == before - {v} + {c}
  {
    hide Route, Offered, StoredChange;
    var near, near' := OfDomain(numeric, before, c), OfDomain(numeric, after, c);
    StoredParts(numeric, before, after, c, now, ok);
    OfferedInFields(near, c, now, near', ok);
    if p :| p in before && p.domain == c.domain && p.path == c.path && p.name == c.name {
      OldInFields(before, near, near', c, p, ok);
    } else if ok {
      NewInFields(before, near, near', c, now);
    }
  }

  lemma StoredParts(numeric: string -> bool, before: set<Cookie>, after: set<Cookie>, c: Cookie, now: int, ok: bool)
    requires StoredChange(numeric, before, after, c, now, ok)
    ensures var near, near' := OfDomain(numeric, before, c), OfDomain(numeric, after, c);
            && Offered(near, c, now, near', ok) && near <= before && after == before - near + near'
            && forall p | p in before && p.domain == c.domain :: p in near
  {
    hide Route, Offered;
  }

  lemma OldInFields(before: set<Cookie>, near: set<Cookie>, near': set<Cookie>, c: Cookie, p: Cookie, ok: bool)
    requires UniqueIn(before) && near <= before && p in near
    requires p.domain == c.domain && p.path == c.path && p.name == c.name
    requires near' == near - {p} + if ok then {c.(creationTime := p.creationTime)} else {}
    ensures before - near + near' == before - {p} + if ok then {c.(creationTime := p.creationTime)} else {}
    ensures forall p' | p' in before && p'.domain == c.domain && p'.path == c.path && p'.name == c.name :: p' == p
  {
    Replaced(before, near, near', {p}, if ok then {c.(creationTime := p.creationTime)} else {});
    forall p' | p' in before && p'.domain == c.domain && p'.path == c.path && p'.name == c.name
      ensures p' == p
    {
      assert KeyOf(p') == KeyOf(p);
    }
  }

  lemma NewInFields(before: set<Cookie>, near: set<Cookie>, near': set<Cookie>, c: Cookie, now: int)
    requires near <= before
    requires if |near| < 50 then near' == near + {c}
             else if exists d | d in near :: d.persistent && d.expiryTime < now then
               near' == (set d | d in near && !(d.persistent && d.expiryTime < now)) + {c}
             else exists v | v in near ::
               (forall d | d in near :: v.lastAccessTime <= d.lastAccessTime) && near' == near - {v} + {c}
    ensures var after := before - near + near';
            if |near| < 50 then after == before + {c}
            else if exists d | d in near :: d.persistent && d.expiryTime < now then
              after == (set d | d in before && !(d in near && d.persistent && d.expiryTime < now)) + {c}
            else exists v | v in near ::
              (forall d | d in near :: v.lastAccessTime <= d.lastAccessTime) && after == before - {v} + {c}
  {
    if |near| < 50 {
      Replaced(before, near, near', {}, {c});
    } else if exists d | d in near :: d.persistent && d.expiryTime < now {
      var stale := set d | d in near && d.persistent && d.expiryTime < now;
      assert near' == near - stale + {c};
      Replaced(before, near, near', stale, {c});
    } else {
      var v :| v in near && (forall d | d in near :: v.lastAccessTime <= d.lastAccessTime) && near' == near - {v} + {c};
      Replaced(before, near, near', {v}, {c});
    }
  }

  lemma Replaced(before: set<Cookie>, near: set<Cookie>, near': set<Cookie>, gone: set<Cookie>, come: set<Cookie>)
    requires gone <= near <= before && near' == near - gone + come
    ensures before - near + near' == before - gone + come
  {
  }

  lemma KeyInFields(cookies: set<Cookie>, c: Cookie)
    ensures KeyIn(cookies, KeyOf(c)) <==>
            exists d | d in cookies :: d.domain == c.domain && d.path == c.path && d.name == c.name
  {
  }

  lemma UniqueKeys(bucket: seq<Cookie>)
    requires BucketOk(bucket)
    ensures UniqueIn(AsSet(bucket))
  {
  }

  // ----- lookups

  datatype Call = Put(cookie: Cookie, now: int) | Ask(request: Request) | Evict(count: nat)

  /** The call uses the domain of a route: it stores an unexpired cookie there, or looks up a host that lies in the domain. */
  predicate Uses(numeric: string -> bool, call: Call, route: seq<string>) {
    match call
    case Put(c, now) => Route(numeric, c.domain) == route && (!c.persistent || now <= c.expiryTime)
    case Ask(q) => q.path != "" && route != [] && route <= Route(numeric, q.host)
    case Evict(_) => false
  }

  function TimeOf(call: Call): int {
    match call
    case Put(_, now) => now
    case Ask(q) => q.now
    case Evict(_) => 0
  }

  /** The time of the last use of a domain before call number k. */
  ghost function LastUsed(numeric: string -> bool, start: seq<string> -> int, calls: seq<Call>, k: nat, route: seq<string>): int
    requires k <= |calls|
  {
    if k == 0 then start(route)
    else if Uses(numeric, calls[k - 1], route) then TimeOf(calls[k - 1])
    else LastUsed(numeric, start, calls, k - 1, route)
  }

  /** Whole domains are given up, none of which was used after one that is kept. */
  ghost predicate LastUsedGoFirst(numeric: string -> bool, start: seq<string> -> int, calls: seq<Call>, k: nat,
                                  before: set<Cookie>, kept: set<Cookie>)
    requires k <= |calls|
  {
    kept <= before &&
    forall c, d | c in before && c !in kept && d in kept ::
      var lost, stays := Route(numeric, c.domain), Route(numeric, d.domain);
      lost != stays && LastUsed(numeric, start, calls, k, lost) <= LastUsed(numeric, start, calls, k, stays)
  }

  /** Among the domains that are cleared and those that are kept the times decide, which are those of the last uses. */
  lemma KeptWereUsed(numeric: string -> bool, start: seq<string> -> int, calls: seq<Call>, k: nat, stored: set<Cookie>,
                     was: map<DomainNode, seq<Cookie>>, times: map<DomainNode, int>, cleared: set<DomainNode>, kept: set<Cookie>)
    requires k <= |calls| && was.Keys == times.Keys && Snapshot(numeric, was, stored)
    requires forall n | n in was && was[n] != [] :: times[n] == LastUsed(numeric, start, calls, k, n.route)
    requires Evicted(was, times, cleared, kept)
    ensures LastUsedGoFirst(numeric, start, calls, k, stored, kept)
  {
    hide Route, LastUsed, Storable;
    forall c, d | c in stored && c !in kept && d in kept
      ensures var lost, stays := Route(numeric, c.domain), Route(numeric, d.domain);
              lost != stays && LastUsed(numeric, start, calls, k, lost) <= LastUsed(numeric, start, calls, k, stays)
    {
      var n :| n in was && c in was[n];
      var m :| m in was && d in was[m];
    }
  }

  /** The call that used a domain last. */
  lemma {:induction false} LastUse(numeric: string -> bool, start: seq<string> -> int, calls: seq<Call>, k: nat, route: seq<string>)
    returns (j: int)
    requires k <= |calls|
    ensures -1 <= j < k && forall m | j < m < k :: !Uses(numeric, calls[m], route)
    ensures if j < 0 then LastUsed(numeric, start, calls, k, route) == start(route)
            else Uses(numeric, calls[j], route) && LastUsed(numeric, start, calls, k, route) == TimeOf(calls[j])
    decreases k
  {
    hide Uses;
    if k == 0 {
      j := -1;
    } else if Uses(numeric, calls[k - 1], route) {
      j := k - 1;
    } else {
      j := LastUse(numeric, start, calls, k - 1, route);
    }
  }

  lemma UsedInOrder(numeric: string -> bool, start: seq<string> -> int, calls: seq<Call>, k: nat,
                    lost: seq<string>, stays: seq<string>, i: nat)
    requires i < k <= |calls| && LastUsed(numeric, start, calls, k, lost) <= LastUsed(numeric, start, calls, k, stays)
    requires forall a, b | 0 <= a < b < k && !calls[a].Evict? && !calls[b].Evict? :: TimeOf(calls[a]) <= TimeOf(calls[b])
    requires Uses(numeric, calls[i], lost)
    ensures TimeOf(calls[i]) <= start(stays) ||
            exists j | 0 <= j < k :: Uses(numeric, calls[j], stays) && TimeOf(calls[i]) <= TimeOf(calls[j])
  {
    hide LastUsed, TimeOf;
    var j := LastUse(numeric, start, calls, k, lost);
    var m := LastUse(numeric, start, calls, k, stays);
    assert TimeOf(calls[i]) <= TimeOf(calls[j]);
  }

  /**
    As long as the clock does not go backwards: whenever a domain that is given up was stored to or looked up,
    one that is kept was stored to or looked up at that time or later, in the run or before it.
   */
  lemma GivenUpWasUsedBefore(numeric: string -> bool, start: seq<string> -> int, calls: seq<Call>, k: nat,
                             before: set<Cookie>, kept: set<Cookie>, c: Cookie, d: Cookie, i: nat)
    requires k <= |calls| && LastUsedGoFirst(numeric, start, calls, k, before, kept)
    requires c in before && c !in kept && d in kept && Storable(numeric, c) && Storable(numeric, d)
    requires forall a, b | 0 <= a < b < k && !calls[a].Evict? && !calls[b].Evict? :: TimeOf(calls[a]) <= TimeOf(calls[b])
    requires i < k
    requires (calls[i].Put? && Route(numeric, calls[i].cookie.domain) == Route(numeric, c.domain) &&
              (calls[i].cookie.persistent ==> calls[i].now <= calls[i].cookie.expiryTime)) ||
             (calls[i].Ask? && calls[i].request.path != "" && Route(numeric, c.domain) <= Route(numeric, calls[i].request.host))
    ensures var time := if calls[i].Put? then calls[i].now else calls[i].request.now;
            time <= start(Route(numeric, d.domain)) || exists j | 0 <= j < k ::
              || (calls[j].Put? && Route(numeric, calls[j].cookie.domain) == Route(numeric, d.domain) &&
                  (calls[j].cookie.persistent ==> calls[j].now <= calls[j].cookie.expiryTime) && time <= calls[j].now)
              || (calls[j].Ask? && calls[j].request.path != "" && time <= calls[j].request.now &&
                  Route(numeric, d.domain) <= Route(numeric, calls[j].request.host))
  {
    RouteOfStorable(numeric, c);
    RouteOfStorable(numeric, d);
    hide Route, LastUsed;
    UsedInOrder(numeric, start, calls, k, Route(numeric, c.domain), Route(numeric, d.domain), i);
  }

  lemma NothingLost(numeric: string -> bool, start: seq<string> -> int, calls: seq<Call>, k: nat, stored: set<Cookie>)
    requires k <= |calls|
    ensures LastUsedGoFirst(numeric, start, calls, k, stored, stored)
  {
  }

  /** What a call does to the cookies that are kept. */
  ghost predicate Took(numeric: string -> bool, call: Call, kept: set<Cookie>, after: set<Cookie>) {
    match call
    case Put(c, now) => StoredChange(numeric, kept, after, c, now, !c.persistent || now <= c.expiryTime)
    case Ask(q) => after == if q.path == "" then kept else MarkedIn(numeric, q, kept)
    case Evict(_) => after == kept
  }

  datatype Request = Request(host: string, path: string, now: int, secure: bool)

  predicate Hits(numeric: string -> bool, q: Request, c: Cookie) {
    Matches(numeric, c, q.host, q.path, q.now, q.secure)
  }

  function Touched(numeric: string -> bool, q: Request, c: Cookie): Cookie {
    if Hits(numeric, q, c) then c.(lastAccessTime := q.now) else c
  }

  function TouchAll(numeric: string -> bool, q: Request, cookies: seq<Cookie>): (r: seq<Cookie>)
    ensures |r| == |cookies| && forall i | 0 <= i < |r| :: r[i] == Touched(numeric, q, cookies[i])
  {
    seq(|cookies|, i requires 0 <= i < |cookies| => Touched(numeric, q, cookies[i]))
  }

  function Found(numeric: string -> bool, q: Request, cookies: seq<Cookie>): seq<Cookie> {
    if cookies == [] then []
    else
      var c := cookies[|cookies| - 1];
      Found(numeric, q, cookies[..|cookies| - 1]) +
      if Hits(numeric, q, c) then [Touched(numeric, q, c)] else []
  }

  /** It matches, and the walk to the request host comes by its domain. */
  predicate Served(numeric: string -> bool, q: Request, c: Cookie) {
    Hits(numeric, q, c) && Reached(numeric, c.domain, q.host)
  }

  function Marked(numeric: string -> bool, q: Request, c: Cookie): Cookie {
    if Served(numeric, q, c) then c.(lastAccessTime := q.now) else c
  }

  /** The cookies after a lookup. */
  ghost function MarkedIn(numeric: string -> bool, q: Request, stored: set<Cookie>): set<Cookie> {
    set d | d in stored :: Marked(numeric, q, d)
  }

  function MarkAll(numeric: string -> bool, q: Request, cookies: seq<Cookie>): (r: seq<Cookie>)
    ensures |r| == |cookies| && forall i | 0 <= i < |r| :: r[i] == Marked(numeric, q, cookies[i])
  {
    seq(|cookies|, i requires 0 <= i < |cookies| => Marked(numeric, q, cookies[i]))
  }

  /** Every stored cookie that matches and whose domain the walk comes by, exactly once, and no other. */
  ghost predicate FoundAll(numeric: string -> bool, q: Request, stored: set<Cookie>, res: seq<Cookie>) {
    DistinctKeys(res) &&
    forall c :: c in res <==> exists d | d in stored :: Served(numeric, q, d) && c == Marked(numeric, q, d)
  }

  /** A path that only has more slashes at its end than another one, both of cookies that are served. */
  predicate SlashPair(numeric: string -> bool, q: Request, stored: set<Cookie>, c: Cookie, d: Cookie) {
    && c in stored && d in stored && Served(numeric, q, c) && Served(numeric, q, d)
    && SlashesLonger(c.path, d.path)
  }

  /** Which order comes out is decided by the creation times of such pairs, and left to std::sort if these are equal. */
  ghost predicate OrderByTimes(numeric: string -> bool, q: Request, stored: set<Cookie>, res: seq<Cookie>) {
    && ((forall c, d | SlashPair(numeric, q, stored, c, d) :: d.creationTime < c.creationTime) ==> LongerFirst(res))
    && ((exists c, d | SlashPair(numeric, q, stored, c, d) :: c.creationTime < d.creationTime) ==> !LongerFirst(res))
  }

  lemma OrderOfFound(numeric: string -> bool, q: Request, stored: set<Cookie>, res: seq<Cookie>)
    requires FoundAll(numeric, q, stored, res) && ByDepth(res)
    ensures OrderByTimes(numeric, q, stored, res)
  {
    hide ByDepth, LongerFirst, SlashesLonger, PathMatch, Reached;
    LongerFirstByTimes(q.path, res);
    forall c, d | c in res && d in res && SlashesLonger(c.path, d.path)
      ensures exists c', d' | SlashPair(numeric, q, stored, c', d') ::
                c'.creationTime == c.creationTime && d'.creationTime == d.creationTime
    {
      var c' :| c' in stored && Served(numeric, q, c') && c == Marked(numeric, q, c');
      var d' :| d' in stored && Served(numeric, q, d') && d == Marked(numeric, q, d');
      assert SlashPair(numeric, q, stored, c', d');
    }
    forall c, d | SlashPair(numeric, q, stored, c, d)
      ensures Marked(numeric, q, c) in res && Marked(numeric, q, d) in res
    {
    }
  }

  /** Sorting keeps what was found, and its order is that of RFC 6265 but for slashes at the end. */
  lemma FoundInOrder(numeric: string -> bool, q: Request, stored: set<Cookie>, found: seq<Cookie>, res: seq<Cookie>)
    requires FoundAll(numeric, q, stored, found) && multiset(res) == multiset(found) && ByDepth(res)
    ensures FoundAll(numeric, q, stored, res)
    ensures LongerFirst(res) <==> forall i, j | 0 <= i < j < |res| :: !SlashesLonger(res[i].path, res[j].path)
    ensures OrderByTimes(numeric, q, stored, res)
  {
    hide ByDepth, LongerFirst, SlashesLonger, PathMatch, OrderByTimes, Reached;
    SamePermutation(found, res);
    LongerFirstExactly(q.path, res);
    OrderOfFound(numeric, q, stored, res);
  }

  /** Being served, in the fields of a cookie. */
  lemma ServedInFields(numeric: string -> bool, q: Request, d: Cookie)
    ensures Served(numeric, q, d) <==>
            && (d.secure ==> q.secure) && (d.persistent ==> q.now <= d.expiryTime)
            && (q.path == d.path ||
                (d.path != "" && d.path <= q.path &&
                 (d.path[|d.path| - 1] == '/' || (|d.path| < |q.path| && q.path[|d.path|] == '/'))))
            && (q.host == d.domain ||
                (!d.hostOnly && |d.domain| < |q.host| && q.host[|q.host| - |d.domain| - 1..] == "." + d.domain &&
                 !numeric(q.host) && (!numeric(d.domain) || (d.domain != "" && '.' !in d.domain))))
  {
    if q.host != d.domain && EndsWith(q.host, d.domain) && |d.domain| < |q.host| {
      assert q.host[|q.host| - |d.domain| - 1..] == [q.host[|q.host| - |d.domain| - 1]] + q.host[|q.host| - |d.domain|..];
    }
    if |d.domain| < |q.host| && q.host[|q.host| - |d.domain| - 1..] == "." + d.domain {
      assert q.host[|q.host| - |d.domain| - 1..][0] == '.';
      assert q.host[|q.host| - |d.domain| - 1..][1..] == q.host[|q.host| - |d.domain|..];
    }
  }

  lemma FoundInFields(numeric: string -> bool, q: Request, stored: set<Cookie>, res: seq<Cookie>, after: set<Cookie>)
    requires UniqueIn(stored) && FoundAll(numeric, q, stored, res) && after == MarkedIn(numeric, q, stored)
    ensures forall d | d in stored ::
              d.(lastAccessTime := q.now) in res <==>
              && (d.secure ==> q.secure) && (d.persistent ==> q.now <= d.expiryTime)
              && (q.path == d.path ||
                  (d.path != "" && d.path <= q.path &&
                   (d.path[|d.path| - 1] == '/' || (|d.path| < |q.path| && q.path[|d.path|] == '/'))))
              && (q.host == d.domain ||
                  (!d.hostOnly && |d.domain| < |q.host| && q.host[|q.host| - |d.domain| - 1..] == "." + d.domain &&
                   !numeric(q.host) && (!numeric(d.domain) || (d.domain != "" && '.' !in d.domain))))
    ensures forall c | c in res :: exists d | d in stored :: c == d.(lastAccessTime := q.now)
    ensures forall i, j | 0 <= i < j < |res| :: res[i] != res[j]
    ensures forall c :: c in after <==> c in res || (c in stored && c.(lastAccessTime := q.now) !in res)
  {
    hide Hits, Reached, Served;
    FoundAreMarked(numeric, q, stored, res, after);
    forall d | d in stored
      ensures d.(lastAccessTime := q.now) in res <==>
              && (d.secure ==> q.secure) && (d.persistent ==> q.now <= d.expiryTime)
              && (q.path == d.path ||
                  (d.path != "" && d.path <= q.path &&
                   (d.path[|d.path| - 1] == '/' || (|d.path| < |q.path| && q.path[|d.path|] == '/'))))
              && (q.host == d.domain ||
                  (!d.hostOnly && |d.domain| < |q.host| && q.host[|q.host| - |d.domain| - 1..] == "." + d.domain &&
                   !numeric(q.host) && (!numeric(d.domain) || (d.domain != "" && '.' !in d.domain))))
    {
      ServedInFields(numeric, q, d);
    }
  }

  lemma FoundAreMarked(numeric: string -> bool, q: Request, stored: set<Cookie>, res: seq<Cookie>, after: set<Cookie>)
    requires UniqueIn(stored) && FoundAll(numeric, q, stored, res) && after == MarkedIn(numeric, q, stored)
    ensures forall d | d in stored :: d.(lastAccessTime := q.now) in res <==> Served(numeric, q, d)
    ensures forall c | c in res :: exists d | d in stored :: c == d.(lastAccessTime := q.now)
    ensures forall i, j | 0 <= i < j < |res| :: res[i] != res[j]
    ensures forall c :: c in after <==> c in res || (c in stored && c.(lastAccessTime := q.now) !in res)
  {
    hide Served;
    forall d | d in stored
      ensures d.(lastAccessTime := q.now) in res <==> Served(numeric, q, d)
    {
      if d.(lastAccessTime := q.now) in res {
        var e :| e in stored && Served(numeric, q, e) && d.(lastAccessTime := q.now) == Marked(numeric, q, e);
        assert KeyOf(e) == KeyOf(d);
      }
    }
    forall i, j | 0 <= i < j < |res|
      ensures res[i] != res[j]
    {
      assert KeyOf(res[i]) != KeyOf(res[j]);
    }
    forall c
      ensures c in after <==> c in res || (c in stored && c.(lastAccessTime := q.now) !in res)
    {
      if c in after {
        var d :| d in stored && c == Marked(numeric, q, d);
      }
    }
  }

  lemma NothingInOrder()
    ensures ByDepth([]) && LongerFirst([])
  {
  }

  /** The loop of findCookie. */
  method MatchAll(numeric: string -> bool, q: Request, cookies: seq<Cookie>) returns (after: seq<Cookie>, out: seq<Cookie>)
    ensures after == TouchAll(numeric, q, cookies) && out == Found(numeric, q, cookies)
  {
    after, out := cookies, [];
    for i := 0 to |cookies|
      invariant |after| == |cookies|
      invariant forall j | 0 <= j < |cookies| :: after[j] == if j < i then Touched(numeric, q, cookies[j]) else cookies[j]
      invariant out == Found(numeric, q, cookies[..i])
    {
      assert cookies[..i + 1][..i] == cookies[..i];
      if Hits(numeric, q, cookies[i]) {
        after := after[i := cookies[i].(lastAccessTime := q.now)];
        out := out + [after[i]];
      }
    }
    assert cookies[..|cookies|] == cookies;
  }

  lemma {:induction false} FoundMembers(numeric: string -> bool, q: Request, cookies: seq<Cookie>)
    requires DistinctKeys(cookies)
    ensures DistinctKeys(Found(numeric, q, cookies))
    ensures forall c :: c in Found(numeric, q, cookies) <==>
                        exists d | d in cookies :: Hits(numeric, q, d) && c == Touched(numeric, q, d)
    decreases |cookies|
  {
    hide Hits;
    if cookies != [] {
      var init, last := cookies[..|cookies| - 1], cookies[|cookies| - 1];
      FoundMembers(numeric, q, init);
      assert cookies == init + [last];
      var found := Found(numeric, q, init);
      forall i | 0 <= i < |found|
        ensures KeyOf(found[i]) != KeyOf(Touched(numeric, q, last))
      {
        assert found[i] in found;
        var d :| d in init && found[i] == Touched(numeric, q, d);
      }
    }
  }

  lemma TouchKeepsDomain(numeric: string -> bool, q: Request, cookies: seq<Cookie>, route: seq<string>)
    requires forall c | c in cookies :: Storable(numeric, c) && Route(numeric, c.domain) == route
    ensures forall c | c in TouchAll(numeric, q, cookies) :: Storable(numeric, c) && Route(numeric, c.domain) == route
  {
    hide Hits, Route;
    var r := TouchAll(numeric, q, cookies);
    forall c | c in r
      ensures Storable(numeric, c) && Route(numeric, c.domain) == route
    {
      var i :| 0 <= i < |r| && r[i] == c;
      assert cookies[i] in cookies;
    }
  }

  lemma TouchKeeps(numeric: string -> bool, q: Request, cookies: seq<Cookie>)
    requires BucketOk(cookies)
    ensures BucketOk(TouchAll(numeric, q, cookies))
  {
    hide Hits;
    var r := TouchAll(numeric, q, cookies);
    forall i, j | 0 <= i < j < |r|
      ensures KeyOf(r[i]) != KeyOf(r[j])
    {
      assert KeyOf(r[i]) == KeyOf(cookies[i]) && KeyOf(r[j]) == KeyOf(cookies[j]);
    }
  }

  predicate OnTheWay(r: seq<string>, route: seq<string>, i: nat) {
    r <= route && 0 < |r| <= i
  }

  lemma WayGrows(r: seq<string>, route: seq<string>, i: nat)
    requires i < |route|
    ensures OnTheWay(r, route, i + 1) <==> OnTheWay(r, route, i) || r == route[..i + 1]
    ensures !OnTheWay(route[..i + 1], route, i)
  {
  }

  /** The cookies found on the first i labels of the way. */
  ghost predicate Gathered(numeric: string -> bool, q: Request, stored: set<Cookie>, i: nat, res: seq<Cookie>) {
    DistinctKeys(res) &&
    forall c :: c in res <==>
                exists d | d in stored && |Route(numeric, d.domain)| <= i :: Served(numeric, q, d) && c == Marked(numeric, q, d)
  }

  /** The buckets hold the stored cookies, each at the node of its domain. */
  ghost predicate Snapshot(numeric: string -> bool, before: map<DomainNode, seq<Cookie>>, stored: set<Cookie>) {
    && (forall d | d in stored :: Storable(numeric, d) && exists n | n in before :: d in before[n])
    && (forall n | n in before ::
          && BucketOk(before[n])
          && forall d :: d in before[n] <==> d in stored && Route(numeric, d.domain) == n.route)
  }

  lemma NothingMarked(numeric: string -> bool, q: Request, cookies: seq<Cookie>)
    requires forall d | d in cookies :: !Served(numeric, q, d)
    ensures MarkAll(numeric, q, cookies) == cookies
  {
    hide Served;
  }

  /** On the way to the host all cookies that match are served. */
  lemma AllServed(numeric: string -> bool, q: Request, cookies: seq<Cookie>, route: seq<string>)
    requires route <= Route(numeric, q.host) && forall d | d in cookies :: Route(numeric, d.domain) == route
    ensures MarkAll(numeric, q, cookies) == TouchAll(numeric, q, cookies)
    ensures forall d | d in cookies :: Served(numeric, q, d) <==> Hits(numeric, q, d)
    ensures forall d | d in cookies :: Marked(numeric, q, d) == Touched(numeric, q, d)
  {
    hide Route, Reached;
    forall d | d in cookies
      ensures Served(numeric, q, d) <==> Hits(numeric, q, d)
    {
      if Hits(numeric, q, d) {
        MatchIsOnTheWay(numeric, d, q.host, q.path, q.now, q.secure);
      }
    }
  }

  lemma StartOfWalk(numeric: string -> bool, q: Request, before: map<DomainNode, seq<Cookie>>, stored: set<Cookie>)
    requires Snapshot(numeric, before, stored)
    ensures Gathered(numeric, q, stored, 0, [])
  {
  }

  lemma AddFound(numeric: string -> bool, q: Request, before: map<DomainNode, seq<Cookie>>, stored: set<Cookie>,
                 child: DomainNode, i: nat, res: seq<Cookie>)
    requires Gathered(numeric, q, stored, i, res) && Snapshot(numeric, before, stored) && child in before
    requires var route := Route(numeric, q.host); i < |route| && child.route == route[..i + 1]
    ensures Gathered(numeric, q, stored, i + 1, res + Found(numeric, q, before[child]))
  {
    var bucket, route := before[child], Route(numeric, q.host);
    hide Hits, Route, Storable, Reached, TouchAll, MarkAll;
    FoundMembers(numeric, q, bucket);
    AllServed(numeric, q, bucket, child.route);
    var out := Found(numeric, q, bucket);
    forall d | d in stored && Served(numeric, q, d) && |Route(numeric, d.domain)| == i + 1
      ensures d in bucket
    {
      ServedIsOnTheWay(numeric, q, d);
    }
    hide Served;
    forall c, d | c in res && d in out
      ensures KeyOf(c) != KeyOf(d)
    {
      var c0 :| c0 in stored && |Route(numeric, c0.domain)| <= i && c == Marked(numeric, q, c0);
      var d0 :| d0 in bucket && d == Touched(numeric, q, d0);
    }
    DistinctConcat(res, out);
  }

  lemma ServedIsOnTheWay(numeric: string -> bool, q: Request, d: Cookie)
    requires Storable(numeric, d) && Served(numeric, q, d)
    ensures Route(numeric, d.domain) <= Route(numeric, q.host) && Route(numeric, d.domain) != []
  {
    RouteOfStorable(numeric, d);
    MatchIsOnTheWay(numeric, d, q.host, q.path, q.now, q.secure);
  }

  lemma DistinctConcat(a: seq<Cookie>, b: seq<Cookie>)
    requires DistinctKeys(a) && DistinctKeys(b) && forall c, d | c in a && d in b :: KeyOf(c) != KeyOf(d)
    ensures DistinctKeys(a + b)
  {
    var r := a + b;
    forall i, j | 0 <= i < j < |r|
      ensures KeyOf(r[i]) != KeyOf(r[j])
    {
      if i < |a| <= j {
        assert r[i] in a && r[j] in b;
      }
    }
  }

  lemma SamePermutation(a: seq<Cookie>, b: seq<Cookie>)
    requires multiset(a) == multiset(b) && DistinctKeys(a)
    ensures DistinctKeys(b) && forall c :: c in a <==> c in b
  {
    Reordered(a, b, KeyOf);
  }
}
