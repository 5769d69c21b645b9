/** The unchoke scheduler of a seeder (libaria2/src/BtSeederStateChoke.cc). */
module SeederChoke {
  import opened Sorting

  const TIME_FRAME := 20

  /** Timer::difference. */
  function Difference(tp: int, now: int): nat {
    if now < tp then 0 else now - tp
  }

  /** A peer as the scheduler sees it; an inactive one has no session. */
  class Peer {
    var active: bool
    var interested: bool
    var outstandingUpload: nat
    var lastAmUnchoking: int
    var uploadSpeed: int
    var chokingRequired: bool
    var optUnchoking: bool

    constructor (active: bool)
      ensures this.active == active && chokingRequired && !optUnchoking && !interested
    {
      this.active := active;
      interested, outstandingUpload, lastAmUnchoking, uploadSpeed := false, 0, 0, 0;
      chokingRequired, optUnchoking := true, false;
    }

    predicate ShouldBeChoking()
      reads this`chokingRequired, this`optUnchoking
    {
      !optUnchoking && chokingRequired
    }
  }

  datatype PeerEntry = PeerEntry(
    peer: Peer, outstandingUpload: nat, lastAmUnchoking: int, recentUnchoking: bool, uploadSpeed: int)

  function EntryOf(p: Peer, now: int): PeerEntry
    reads p`outstandingUpload, p`lastAmUnchoking, p`uploadSpeed
  {
    PeerEntry(p, p.outstandingUpload, p.lastAmUnchoking, Difference(p.lastAmUnchoking, now) < TIME_FRAME, p.uploadSpeed)
  }

  /** The constructor of PeerEntry. */
  method MakeEntry(p: Peer, now: int) returns (e: PeerEntry)
    ensures e == EntryOf(p, now) && e.peer == p
  {
    e := PeerEntry(p, p.outstandingUpload, p.lastAmUnchoking, Difference(p.lastAmUnchoking, now) < TIME_FRAME, p.uploadSpeed);
  }

  /** The comparison of entries. */
  predicate Less(l: PeerEntry, r: PeerEntry) {
    if l.outstandingUpload != 0 && r.outstandingUpload == 0 then true
    else if l.outstandingUpload == 0 && r.outstandingUpload != 0 then false
    else if l.recentUnchoking && l.lastAmUnchoking > r.lastAmUnchoking then true
    else if r.recentUnchoking then false
    else l.uploadSpeed > r.uploadSpeed
  }

  predicate TakenAt(e: PeerEntry, now: int) {
    e.recentUnchoking == (Difference(e.lastAmUnchoking, now) < TIME_FRAME)
  }

  /** Entries taken at one wallclock can be sorted: recency then follows the time of unchoking. */
  lemma LessIsStrictWeak(entries: seq<PeerEntry>, now: int)
    requires forall e | e in entries :: TakenAt(e, now)
    ensures StrictWeakOrder(Less, entries)
  {
    forall x, y, z | x in entries && y in entries && z in entries
      ensures Less(x, y) && Less(y, z) ==> Less(x, z)
      ensures Incomparable(Less, x, y) && Incomparable(Less, y, z) ==> Incomparable(Less, x, z)
    {
      assert TakenAt(x, now) && TakenAt(y, now) && TakenAt(z, now);
    }
  }

  /**
   * What the comparison means at one wallclock: peers with outstanding uploads first, then recently
   * unchoked ones with the latest first, then the others with the fastest first.
   */
  lemma LessMeans(l: PeerEntry, r: PeerEntry, now: int)
    requires TakenAt(l, now) && TakenAt(r, now)
    ensures Less(l, r) <==>
            if (l.outstandingUpload > 0) != (r.outstandingUpload > 0) then l.outstandingUpload > 0
            else if l.recentUnchoking != r.recentUnchoking then l.recentUnchoking
            else if l.recentUnchoking then l.lastAmUnchoking > r.lastAmUnchoking
            else l.uploadSpeed > r.uploadSpeed
  {
  }

  /** Flags that do not come from one clock make the comparison no ordering at all. */
  lemma WithoutOneClock(p: Peer)
    ensures var x, y, z := PeerEntry(p, 0, 1, true, 1), PeerEntry(p, 0, 5, false, 2), PeerEntry(p, 0, 0, true, 3);
            !Transitive(Less, [x, y, z]) && !StrictWeakOrder(Less, [x, y, z])
  {
    var x, y, z := PeerEntry(p, 0, 1, true, 1), PeerEntry(p, 0, 5, false, 2), PeerEntry(p, 0, 0, true, 3);
    var s := [x, y, z];
    assert x == s[0] && y == s[1] && z == s[2];
    assert Less(x, z) && Less(z, y) && !Less(x, y);
  }

  ghost function PeersOf(entries: seq<PeerEntry>): set<Peer> {
    set i | 0 <= i < |entries| :: entries[i].peer
  }

  function PeerKey(e: PeerEntry): Peer {
    e.peer
  }

  lemma {:induction false} AsManyPeers(entries: seq<PeerEntry>)
    requires Distinct(entries, PeerKey)
    ensures |PeersOf(entries)| == |entries|
    decreases |entries|
  {
    if entries != [] {
      var init, last := entries[..|entries| - 1], entries[|entries| - 1];
      AsManyPeers(init);
      assert PeersOf(entries) == PeersOf(init) + {last.peer};
      assert last.peer !in PeersOf(init);
    }
  }

  lemma OneMoreEntry(entries: seq<PeerEntry>, e: PeerEntry)
    ensures PeersOf(entries + [e]) == PeersOf(entries) + {e.peer}
    ensures Distinct(entries, PeerKey) && e.peer !in PeersOf(entries) ==> Distinct(entries + [e], PeerKey)
  {
    var more := entries + [e];
    forall p
      ensures p in PeersOf(more) <==> p in PeersOf(entries) || p == e.peer
    {
      assert more[|entries|] == e;
      if p in PeersOf(entries) {
        var i :| 0 <= i < |entries| && entries[i].peer == p;
        assert more[i].peer == p;
      }
    }
    assert forall i | 0 <= i < |entries| :: more[i] == entries[i] && entries[i].peer in PeersOf(entries);
  }

  lemma ReorderedPeers(entries: seq<PeerEntry>, sorted: seq<PeerEntry>)
    requires multiset(entries) == multiset(sorted) && Distinct(entries, PeerKey)
    ensures |sorted| == |entries| && Distinct(sorted, PeerKey) && PeersOf(sorted) == PeersOf(entries)
    ensures forall e :: e in entries <==> e in sorted
  {
    Reordered(entries, sorted, PeerKey);
    forall p
      ensures p in PeersOf(sorted) <==> p in PeersOf(entries)
    {
      if p in PeersOf(sorted) {
        var i :| 0 <= i < |sorted| && sorted[i].peer == p;
        assert sorted[i] in entries;
      }
      if p in PeersOf(entries) {
        var i :| 0 <= i < |entries| && entries[i].peer == p;
        assert entries[i] in sorted;
      }
    }
  }

  /** No entry outside the chosen peers comes before one inside. */
  ghost predicate BestOf(entries: seq<PeerEntry>, chosen: set<Peer>) {
    forall e, f | e in entries && f in entries && e.peer in chosen && f.peer !in chosen :: !Less(f, e)
  }

  /** The front of the sorted entries: as many peers as places, none less deserving than one behind. */
  lemma FrontIsBest(sorted: seq<PeerEntry>, r: nat)
    requires Sorted(Less, sorted) && Distinct(sorted, PeerKey) && r <= |sorted|
    ensures PeersOf(sorted[..r]) <= PeersOf(sorted) && |PeersOf(sorted[..r])| == r
    ensures BestOf(sorted, PeersOf(sorted[..r]))
    ensures forall k | r <= k < |sorted| :: sorted[k].peer !in PeersOf(sorted[..r])
  {
    hide Less;
    AsManyPeers(sorted[..r]);
    forall e, f | e in sorted && f in sorted && e.peer in PeersOf(sorted[..r]) && f.peer !in PeersOf(sorted[..r])
      ensures !Less(f, e)
    {
      var i :| 0 <= i < |sorted| && sorted[i] == e;
      var j :| 0 <= j < |sorted| && sorted[j] == f;
      var k :| 0 <= k < r && sorted[k].peer == e.peer;
      assert PeerKey(sorted[k]) == PeerKey(sorted[i]);
      assert i == k;
      assert forall m | 0 <= m < r :: sorted[m] == sorted[..r][m];
    }
    forall k | r <= k < |sorted|
      ensures sorted[k].peer !in PeersOf(sorted[..r])
    {
      assert forall i | 0 <= i < r :: PeerKey(sorted[i]) != PeerKey(sorted[k]);
    }
  }

  lemma BestIgnoresOrder(entries: seq<PeerEntry>, sorted: seq<PeerEntry>, chosen: set<Peer>)
    requires BestOf(sorted, chosen) && forall e :: e in entries <==> e in sorted
    ensures BestOf(entries, chosen)
  {
  }

  /** The active peers that want data. */
  ghost function Wanting(peers: set<Peer>): set<Peer>
    reads peers`active, peers`interested
  {
    set p | p in peers && p.active && p.interested
  }

  /** The active peers that are to be served. */
  ghost function Unchoked(peers: set<Peer>): set<Peer>
    reads peers`active, peers`chokingRequired, peers`optUnchoking
  {
    set p | p in peers && p.active && !p.ShouldBeChoking()
  }

  ghost function Optimistic(peers: set<Peer>): set<Peer>
    reads peers`active, peers`optUnchoking
  {
    set p | p in peers && p.active && p.optUnchoking
  }

  function Min(a: nat, b: nat): nat {
    if a < b then a else b
  }

  /** No peer that wants data and goes without a regular place is ahead of one that has a place. */
  ghost predicate ServedByMerit(peers: set<Peer>, regular: set<Peer>, now: int)
    reads peers`active, peers`interested, peers`outstandingUpload, peers`lastAmUnchoking, peers`uploadSpeed
    requires regular <= Wanting(peers)
  {
    forall p, q | p in Wanting(peers) && q in Wanting(peers) && p in regular && q !in regular ::
      !Less(EntryOf(q, now), EntryOf(p, now))
  }

  lemma BestAreServed(peers: set<Peer>, entries: seq<PeerEntry>, now: int)
    requires PeersOf(entries) == Wanting(peers) && forall e | e in entries :: e == EntryOf(e.peer, now)
    ensures forall e | e in entries :: TakenAt(e, now)
    ensures forall regular | regular <= Wanting(peers) && BestOf(entries, regular) :: ServedByMerit(peers, regular, now)
  {
    hide Less;
    forall p | p in Wanting(peers)
      ensures EntryOf(p, now) in entries
    {
      var i :| 0 <= i < |entries| && entries[i].peer == p;
      assert entries[i] in entries;
    }
  }

  /** The flags say who is served by merit and who by luck. */
  ghost predicate FlagsAre(peers: set<Peer>, regular: set<Peer>, optimistic: set<Peer>)
    reads peers`active, peers`chokingRequired, peers`optUnchoking
  {
    forall p | p in peers && p.active :: p.chokingRequired == (p !in regular) && p.optUnchoking == (p in optimistic)
  }

  /**
   * What a round leaves behind, with `held` the peers served by luck before it: of n active peers that
   * want data, rounds 0 and 1 serve min(n, 4), one of them apart from the others and by luck if n > 3,
   * and round 2 serves min(n, 4) by merit beside the lucky peers that still want data.
   */
  ghost predicate Allotted(peers: set<Peer>, round: int, held: set<Peer>, regular: set<Peer>, optimistic: set<Peer>)
    reads peers`active, peers`interested, peers`chokingRequired, peers`optUnchoking
  {
    var n := |Wanting(peers)|;
    && regular <= Wanting(peers) && optimistic <= Wanting(peers)
    && FlagsAre(peers, regular, optimistic) && Unchoked(peers) == regular + optimistic
    && |regular| == Min(n, if round == 2 then 4 else 3)
    && (round < 2 ==> regular !! optimistic && |optimistic| == (if n > 3 then 1 else 0) && |Unchoked(peers)| == Min(n, 4))
    && (round == 2 ==> optimistic == held * Wanting(peers))
  }

  lemma FlagsFollow(peers: set<Peer>, regular: set<Peer>, optimistic: set<Peer>)
    requires forall p | p in peers && p.active :: p.chokingRequired == (p !in regular) && p.optUnchoking == (p in optimistic)
    ensures FlagsAre(peers, regular, optimistic)
  {
  }

  lemma AllottedAre(peers: set<Peer>, round: int, held: set<Peer>, regular: set<Peer>, optimistic: set<Peer>)
    requires 0 <= round <= 2 && regular <= Wanting(peers) && optimistic <= Wanting(peers) && FlagsAre(peers, regular, optimistic)
    requires |regular| == Min(|Wanting(peers)|, if round == 2 then 4 else 3)
    requires round < 2 ==> regular !! optimistic && |optimistic| == if |Wanting(peers)| > 3 then 1 else 0
    requires round == 2 ==> optimistic == held * Wanting(peers)
    ensures Allotted(peers, round, held, regular, optimistic)
  {
    assert Unchoked(peers) == regular + optimistic;
  }

  /** Who is served by merit, in the fields of the peers. */
  lemma MeritInFields(peers: set<Peer>, regular: set<Peer>, now: int, p: Peer, q: Peer)
    requires regular <= Wanting(peers) && ServedByMerit(peers, regular, now)
    requires p in regular && q in peers && q.active && q.interested && q !in regular
    ensures if (p.outstandingUpload > 0) != (q.outstandingUpload > 0) then p.outstandingUpload > 0
            else if (now - p.lastAmUnchoking < 20) != (now - q.lastAmUnchoking < 20) then now - p.lastAmUnchoking < 20
            else if now - p.lastAmUnchoking < 20 then p.lastAmUnchoking >= q.lastAmUnchoking
            else p.uploadSpeed >= q.uploadSpeed
  {
    LessMeans(EntryOf(q, now), EntryOf(p, now), now);
  }

  lemma MeritOfAll(peers: set<Peer>, round: int, held: set<Peer>, regular: set<Peer>, optimistic: set<Peer>, now: int)
    requires Allotted(peers, round, held, regular, optimistic) && ServedByMerit(peers, regular, now)
    ensures forall p, q | p in peers && p.active && !p.chokingRequired && q in peers && q.active && q.interested && q.chokingRequired ::
              if (p.outstandingUpload > 0) != (q.outstandingUpload > 0) then p.outstandingUpload > 0
              else if (now - p.lastAmUnchoking < 20) != (now - q.lastAmUnchoking < 20) then now - p.lastAmUnchoking < 20
              else if now - p.lastAmUnchoking < 20 then p.lastAmUnchoking >= q.lastAmUnchoking
              else p.uploadSpeed >= q.uploadSpeed
  {
    hide ServedByMerit;
    forall p, q | p in peers && p.active && !p.chokingRequired && q in peers && q.active && q.interested && q.chokingRequired
      ensures if (p.outstandingUpload > 0) != (q.outstandingUpload > 0) then p.outstandingUpload > 0
              else if (now - p.lastAmUnchoking < 20) != (now - q.lastAmUnchoking < 20) then now - p.lastAmUnchoking < 20
              else if now - p.lastAmUnchoking < 20 then p.lastAmUnchoking >= q.lastAmUnchoking
              else p.uploadSpeed >= q.uploadSpeed
    {
      MeritInFields(peers, regular, now, p, q);
    }
  }

  /** The numbers of a round, in the fields of the peers. */
  lemma NumbersInFields(peers: set<Peer>, round: int, held: set<Peer>, regular: set<Peer>, optimistic: set<Peer>)
    requires 0 <= round <= 2 && Allotted(peers, round, held, regular, optimistic)
    ensures var n := |set p | p in peers && p.active && p.interested|;
            var served := |set p | p in peers && p.active && !p.chokingRequired|;
            var lucky := |set p | p in peers && p.active && p.optUnchoking|;
            if round == 2 then served == (if n < 4 then n else 4)
            else served == (if n < 3 then n else 3) && lucky == if n > 3 then 1 else 0
    ensures forall p | p in peers && p.active :: !p.chokingRequired || p.optUnchoking ==> p.interested
    ensures round < 2 ==> forall p | p in peers && p.active :: p.chokingRequired || !p.optUnchoking
    ensures round == 2 ==> forall p | p in peers && p.active :: p.optUnchoking == (p in held && p.interested)
    ensures forall p | p in peers && p.active :: p in regular <==> !p.chokingRequired
  {
    assert (set p | p in peers && p.active && p.interested) == Wanting(peers);
    assert (set p | p in peers && p.active && !p.chokingRequired) == regular;
    assert (set p | p in peers && p.active && p.optUnchoking) == optimistic;
  }

  /** for_each over disableOptUnchoking. */
  method DisableOptUnchoking(entries: seq<PeerEntry>)
    modifies PeersOf(entries)`optUnchoking
    ensures forall p | p in PeersOf(entries) :: !p.optUnchoking
  {
    for i := 0 to |entries|
      invariant forall p | p in PeersOf(entries[..i]) :: !p.optUnchoking
    {
      entries[i].peer.optUnchoking := false;
    }
    assert entries[..|entries|] == entries;
  }

  /** Gives the first `places` entries a regular place; r is where the rest begins. */
  method UnchokeFront(entries: seq<PeerEntry>, places: nat) returns (r: nat)
    modifies PeersOf(entries)`chokingRequired
    ensures r == Min(|entries|, places)
    ensures forall p | p in PeersOf(entries) ::
              p.chokingRequired == (if p in PeersOf(entries[..r]) then false else old(p.chokingRequired))
  {
    r := 0;
    var count := places;
    while r < |entries| && count != 0
      invariant 0 <= r <= |entries| && r + count == places
      invariant forall p | p in PeersOf(entries) ::
                  p.chokingRequired == (if p in PeersOf(entries[..r]) then false else old(p.chokingRequired))
    {
      entries[r].peer.chokingRequired := false;
      r, count := r + 1, count - 1;
    }
  }

  /** How a peer stands at the start of a round. */
  datatype News = News(active: bool, interested: bool, outstandingUpload: nat, lastAmUnchoking: int, uploadSpeed: int)

  datatype Round = Round(now: int, draw: nat, news: map<Peer, News>)

  /** Peers come and go and change between rounds; a new session starts choked and without luck. */
  method Update(peers: set<Peer>, news: map<Peer, News>)
    modifies peers
    ensures Optimistic(peers) <= old(Optimistic(peers))
  {
    var todo := peers;
    while todo != {}
      invariant todo <= peers && forall p | p in peers && p.active && p.optUnchoking :: old(p.active) && old(p.optUnchoking)
    {
      var p :| p in todo;
      todo := todo - {p};
      if p in news {
        if news[p].active && !p.active {
          p.chokingRequired, p.optUnchoking := true, false;
        }
        p.active, p.interested := news[p].active, news[p].interested;
        p.outstandingUpload, p.lastAmUnchoking, p.uploadSpeed :=
          news[p].outstandingUpload, news[p].lastAmUnchoking, news[p].uploadSpeed;
      }
    }
  }

  lemma SubsetIsSmaller<T>(a: set<T>, b: set<T>)
    requires a <= b
    ensures |a| <= |b|
  {
    assert b == a + (b - a);
  }

  lemma AtMostFive(peers: set<Peer>, round: int, held: set<Peer>, regular: set<Peer>, optimistic: set<Peer>)
    requires 0 <= round <= 2 && Allotted(peers, round, held, regular, optimistic) && (round == 2 ==> |held| <= 1)
    ensures |Optimistic(peers)| <= 1 && |Unchoked(peers)| <= 5
  {
    assert Optimistic(peers) == optimistic;
    if round == 2 {
      SubsetIsSmaller(optimistic, held);
      assert Unchoked(peers) == regular + (optimistic - regular);
      SubsetIsSmaller(optimistic - regular, optimistic);
    }
  }

  lemma ServedInFields(peers: set<Peer>)
    ensures (set p | p in peers && p.active && p.optUnchoking) == Optimistic(peers)
    ensures (set p | p in peers && p.active && (p.optUnchoking || !p.chokingRequired)) == Unchoked(peers)
  {
  }

  class BtSeederStateChoke {
    var round: int
    var lastRound: int

    ghost predicate Valid()
      reads this
    {
      0 <= round <= 2
    }

    constructor ()
      ensures Valid() && round == 0
    {
      round, lastRound := 0, 0;
    }

    /** `draw` is the place in the tail that shuffling brings to its front. */
    method Unchoke(entries: seq<PeerEntry>, draw: nat, ghost now: int)
      returns (ghost regular: set<Peer>, ghost optimistic: set<Peer>)
      requires Valid() && Distinct(entries, PeerKey) && forall e | e in entries :: TakenAt(e, now)
      modifies PeersOf(entries)`chokingRequired, PeersOf(entries)`optUnchoking
      ensures regular <= PeersOf(entries) && |regular| == Min(|entries|, if round == 2 then 4 else 3)
      ensures BestOf(entries, regular)
      ensures optimistic <= PeersOf(entries) - regular
      ensures round < 2 ==> |optimistic| == (if |entries| > 3 then 1 else 0)
      ensures forall p | p in PeersOf(entries) ::
                p.chokingRequired == (if p in regular then false else old(p.chokingRequired)) &&
                p.optUnchoking == (if round < 2 then p in optimistic else old(p.optUnchoking))
    {
      hide StrictWeakOrder, Less, Distinct, BestOf;
      LessIsStrictWeak(entries, now);
      var sorted := Sort(Less, entries);
      ReorderedPeers(entries, sorted);
      var r := UnchokeFront(sorted, if round == 2 then 4 else 3);
      regular, optimistic := PeersOf(sorted[..r]), {};
      FrontIsBest(sorted, r);
      BestIgnoresOrder(entries, sorted, regular);
      if round < 2 {
        DisableOptUnchoking(sorted);
        if r < |sorted| {
          var k := r + draw % (|sorted| - r);
          sorted[k].peer.optUnchoking := true;
          optimistic := {sorted[k].peer};
        }
      }
    }

    /** Chokes every active peer for now and lists the ones that want data. */
    method Gather(peers: set<Peer>, now: int) returns (entries: seq<PeerEntry>)
      modifies peers`chokingRequired, peers`optUnchoking
      ensures Distinct(entries, PeerKey) && PeersOf(entries) == Wanting(peers)
      ensures forall e | e in entries :: e == EntryOf(e.peer, now)
      ensures forall p | p in peers ::
                p.chokingRequired == (p.active || old(p.chokingRequired)) &&
                p.optUnchoking == ((p.active ==> p.interested) && old(p.optUnchoking))
    {
      hide EntryOf;
      entries := [];
      var todo := peers;
      while todo != {}
        invariant todo <= peers
        invariant Distinct(entries, PeerKey) && PeersOf(entries) == Wanting(peers - todo)
        invariant forall e | e in entries :: e == EntryOf(e.peer, now)
        invariant forall p | p in peers ::
                    p.chokingRequired == ((p.active && p !in todo) || old(p.chokingRequired)) &&
                    p.optUnchoking == ((p.active && p !in todo ==> p.interested) && old(p.optUnchoking))
      {
        hide Distinct, PeersOf;
        var p :| p in todo;
        todo := todo - {p};
        if p.active {
          p.chokingRequired := true;
          if p.interested {
            var e := MakeEntry(p, now);
            OneMoreEntry(entries, e);
            entries := entries + [e];
          } else {
            p.optUnchoking := false;
          }
        }
      }
    }

    /** Gathering, with what the entries are good for. */
    method GatherWanting(peers: set<Peer>, now: int) returns (entries: seq<PeerEntry>)
      modifies peers`chokingRequired, peers`optUnchoking
      ensures Distinct(entries, PeerKey) && PeersOf(entries) == Wanting(peers) && |entries| == |Wanting(peers)|
      ensures forall e | e in entries :: TakenAt(e, now)
      ensures forall regular | regular <= Wanting(peers) && BestOf(entries, regular) :: ServedByMerit(peers, regular, now)
      ensures forall p | p in peers ::
                p.chokingRequired == (p.active || old(p.chokingRequired)) &&
                p.optUnchoking == ((p.active ==> p.interested) && old(p.optUnchoking))
    {
      hide Less, Distinct, PeersOf, EntryOf, BestOf, ServedByMerit, TakenAt, Wanting;
      entries := Gather(peers, now);
      AsManyPeers(entries);
      BestAreServed(peers, entries, now);
    }

    /** Gathering and unchoking. */
    method Allot(peers: set<Peer>, now: int, draw: nat) returns (ghost regular: set<Peer>, ghost optimistic: set<Peer>)
      requires Valid()
      modifies peers`chokingRequired, peers`optUnchoking
      ensures Allotted(peers, round, old(Optimistic(peers)), regular, optimistic) && ServedByMerit(peers, regular, now)
      ensures forall p | p in peers && !p.active :: p.chokingRequired == old(p.chokingRequired) && p.optUnchoking == old(p.optUnchoking)
    {
      hide Distinct, PeersOf, BestOf, ServedByMerit, Unchoked, Allotted, TakenAt, FlagsAre;
      ghost var held := Optimistic(peers);
      var entries := GatherWanting(peers, now);
      ghost var choice;
      regular, choice := Unchoke(entries, draw, now);
      optimistic := if round < 2 then choice else held * Wanting(peers);
      FlagsFollow(peers, regular, optimistic);
      AllottedAre(peers, round, held, regular, optimistic);
    }

    /** One round: who is served, in what numbers, and why; inactive peers are untouched. */
    method ExecuteChoke(peers: set<Peer>, now: int, draw: nat)
      returns (ghost regular: set<Peer>, ghost optimistic: set<Peer>)
      requires Valid()
      modifies this, peers`chokingRequired, peers`optUnchoking
      ensures Valid() && round == (if old(round) == 2 then 0 else old(round) + 1) && lastRound == now
      ensures Allotted(peers, old(round), old(Optimistic(peers)), regular, optimistic) && ServedByMerit(peers, regular, now)
      ensures forall p | p in peers && !p.active :: p.chokingRequired == old(p.chokingRequired) && p.optUnchoking == old(p.optUnchoking)
      // In the fields of the peers: how many are served regularly and by luck, none twice,
      ensures var n := |set p | p in peers && p.active && p.interested|;
              var served := |set p | p in peers && p.active && !p.chokingRequired|;
              var lucky := |set p | p in peers && p.active && p.optUnchoking|;
              if old(round) == 2 then served == (if n < 4 then n else 4)
              else served == (if n < 3 then n else 3) && lucky == if n > 3 then 1 else 0
      ensures forall p | p in peers && p.active :: !p.chokingRequired || p.optUnchoking ==> p.interested
      ensures old(round) < 2 ==> forall p | p in peers && p.active :: p.chokingRequired || !p.optUnchoking
      ensures old(round) == 2 ==> forall p | p in peers && p.active :: p.optUnchoking == (old(p.optUnchoking) && p.interested)
      // and why those: outstanding uploads first, then the latest unchoked of the last 20 seconds, then the fastest.
      ensures forall p, q | p in peers && p.active && !p.chokingRequired && q in peers && q.active && q.interested && q.chokingRequired ::
                if (p.outstandingUpload > 0) != (q.outstandingUpload > 0) then p.outstandingUpload > 0
                else if (now - p.lastAmUnchoking < 20) != (now - q.lastAmUnchoking < 20) then now - p.lastAmUnchoking < 20
                else if now - p.lastAmUnchoking < 20 then p.lastAmUnchoking >= q.lastAmUnchoking
                else p.uploadSpeed >= q.uploadSpeed
    {
      ghost var held := Optimistic(peers);
      hide Allotted, ServedByMerit, Optimistic, Wanting;
      lastRound := now;
      regular, optimistic := Allot(peers, now, draw);
      round := round + 1;
      if round == 3 {
        round := 0;
      }
      NumbersInFields(peers, old(round), held, regular, optimistic);
      MeritOfAll(peers, old(round), held, regular, optimistic, now);
      assert forall p | p in peers && p.active :: p in held <==> old(p.optUnchoking) by {
        HeldWere(peers);
      }
    }

    twostate lemma HeldWere(peers: set<Peer>)
      requires forall p | p in peers :: p.active == old(p.active)
      ensures forall p | p in peers && p.active :: p in old(Optimistic(peers)) <==> old(p.optUnchoking)
    {
    }

    /**
     * Any number of rounds, with peers that come, go and change in between: after the first round there
     * is at most one lucky peer, and never more than five peers are served.
     */
    method Run(peers: set<Peer>, rounds: seq<Round>)
      requires round == 0
      modifies this, peers
      ensures rounds != [] ==> |set p | p in peers && p.active && p.optUnchoking| <= 1
      ensures rounds != [] ==> |set p | p in peers && p.active && (p.optUnchoking || !p.chokingRequired)| <= 5
    {
      hide Unchoked, Optimistic, ServedByMerit, Allotted;
      for n := 0 to |rounds|
        invariant Valid() && (n == 0 ==> round == 0)
        invariant n > 0 ==> |Optimistic(peers)| <= 1 && |Unchoked(peers)| <= 5
      {
        ghost var before := Optimistic(peers);
        Update(peers, rounds[n].news);
        ghost var was, held := round, Optimistic(peers);
        SubsetIsSmaller(held, before);
        ghost var regular, optimistic;
        regular, optimistic := ExecuteChoke(peers, rounds[n].now, rounds[n].draw);
        AtMostFive(peers, was, held, regular, optimistic);
      }
      ServedInFields(peers);
    }
  }
}
