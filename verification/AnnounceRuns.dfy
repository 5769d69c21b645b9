/** What the multitracker list promises over whole runs. */
module AnnounceRuns {
  import opened Announce

  // ----- the order in which failures walk through the list

  /** All URLs in the order of the tiers. */
  ghost function Flat(tiers: seq<Tier>): seq<string> {
    if tiers == [] then [] else Flat(tiers[..|tiers| - 1]) + tiers[|tiers| - 1].urls
  }

  /** How many URLs stand before the selected one. */
  ghost function Place(s: State): nat
    requires s.tier <= |s.tiers|
  {
    |Flat(s.tiers[..s.tier])| + s.tracker
  }

  ghost predicate SameUrls(a: seq<Tier>, b: seq<Tier>) {
    |a| == |b| && forall i | 0 <= i < |a| :: a[i].urls == b[i].urls
  }

  lemma {:induction false} FlatIgnoresEvents(a: seq<Tier>, b: seq<Tier>)
    requires SameUrls(a, b)
    ensures Flat(a) == Flat(b)
    decreases |a|
  {
    if a != [] {
      FlatIgnoresEvents(a[..|a| - 1], b[..|a| - 1]);
    }
  }

  lemma FlatNext(tiers: seq<Tier>, t: nat)
    requires t < |tiers|
    ensures Flat(tiers[..t + 1]) == Flat(tiers[..t]) + tiers[t].urls
  {
    assert tiers[..t + 1][..t] == tiers[..t];
  }

  lemma {:induction false} FlatPrefix(tiers: seq<Tier>, t: nat)
    requires t <= |tiers|
    ensures Flat(tiers[..t]) <= Flat(tiers)
    decreases |tiers| - t
  {
    if t == |tiers| {
      assert tiers[..t] == tiers;
    } else {
      FlatNext(tiers, t);
      FlatPrefix(tiers, t + 1);
    }
  }

  lemma PlaceIsSelected(s: State)
    requires WellFormed(s) && s.live
    ensures Place(s) < |Flat(s.tiers)| && GetAnnounce(s) == Flat(s.tiers)[Place(s)]
  {
    hide Flat;
    FlatNext(s.tiers, s.tier);
    FlatPrefix(s.tiers, s.tier + 1);
  }

  /** A failure selects the next URL; behind the last one all tiers have failed. */
  lemma FailureAdvances(s: State)
    requires WellFormed(s) && s.live
    ensures var f := AnnounceFailure(s);
            WellFormed(f) && SameUrls(s.tiers, f.tiers) &&
            (if Place(s) + 1 < |Flat(s.tiers)| then f.live && Place(f) == Place(s) + 1 && f.tier < |f.tiers|
             else !f.live && f.tier == |f.tiers|)
    ensures forall i | 0 <= i < |s.tiers| ::
              AnnounceFailure(s).tiers[i].event ==
              if i == s.tier && s.tracker + 1 == |s.tiers[i].urls| then NextEventIfAfterStarted(s.tiers[i].event)
              else s.tiers[i].event
  {
    hide Flat;
    var f := AnnounceFailure(s);
    var t := s.tier;
    assert WellFormed(f) && SameUrls(s.tiers, f.tiers);
    PlaceIsSelected(s);
    FlatNext(s.tiers, t);
    FlatIgnoresEvents(s.tiers[..f.tier], f.tiers[..f.tier]);
    FlatIgnoresEvents(s.tiers, f.tiers);
    if f.live {
      PlaceIsSelected(f);
    } else {
      assert s.tiers[..t + 1] == s.tiers;
    }
  }

  /** The list after n failures in a row. */
  ghost function FailTimes(s: State, n: nat): (f: State)
    requires WellFormed(s)
    ensures WellFormed(f)
  {
    if n == 0 then s
    else
      var p := FailTimes(s, n - 1);
      if p.live then FailureAdvances(p); AnnounceFailure(p) else AnnounceFailure(p)
  }

  /** From a reset, failures visit every URL once, in the order of the tiers, and then all tiers have failed. */
  lemma {:induction false} FailuresVisitEachOnce(s: State, n: nat)
    requires WellFormed(s)
    ensures var f := FailTimes(ResetIterator(s), n);
            SameUrls(s.tiers, f.tiers) &&
            (if n < |Flat(s.tiers)| then f.live && !AllTiersFailed(f) && Place(f) == n && GetAnnounce(f) == Flat(s.tiers)[n]
             else !f.live && AllTiersFailed(f))
  {
    hide Flat, Place, AnnounceFailure;
    var f := FailTimes(ResetIterator(s), n);
    if n == 0 {
      FirstPlace(s);
    } else {
      var p := FailTimes(ResetIterator(s), n - 1);
      FailuresVisitEachOnce(s, n - 1);
      FlatIgnoresEvents(s.tiers, p.tiers);
      if p.live {
        FailureAdvances(p);
      } else {
        DeadStaysDead(p);
      }
      assert SameUrls(s.tiers, f.tiers);
    }
    FlatIgnoresEvents(s.tiers, f.tiers);
    if f.live {
      PlaceIsSelected(f);
    }
  }

  lemma DeadStaysDead(s: State)
    requires WellFormed(s) && !s.live
    ensures AnnounceFailure(s) == s == AnnounceSuccess(s)
  {
  }

  lemma FirstPlace(s: State)
    requires WellFormed(s)
    ensures var r := ResetIterator(s);
            WellFormed(r) && r.tiers == s.tiers && (r.live <==> s.tiers != []) && (r.live <==> !AllTiersFailed(r)) &&
            (r.live ==> Place(r) == 0) && (r.live <==> 0 < |Flat(s.tiers)|)
  {
    var r := ResetIterator(s);
    assert s.tiers[..0] == [];
    if r.live {
      PlaceIsSelected(r);
    }
  }

  // ----- success

  ghost predicate SamePool(a: seq<Tier>, b: seq<Tier>) {
    |a| == |b| && forall i | 0 <= i < |a| :: multiset(a[i].urls) == multiset(b[i].urls)
  }

  /** The URL that answered leads its tier, the others keep their order, and the first tier comes next. */
  lemma SuccessMovesToFront(s: State)
    requires WellFormed(s) && s.live
    ensures var r := AnnounceSuccess(s);
            var was, now := s.tiers[s.tier].urls, r.tiers[s.tier].urls;
            WellFormed(r) && r.live && r == ResetIterator(r) && SamePool(s.tiers, r.tiers) &&
            now[0] == GetAnnounce(s) && now[1..] == was[..s.tracker] + was[s.tracker + 1..] &&
            EventString(r.tiers[s.tier].event) == "" &&
            forall i | 0 <= i < |s.tiers| && i != s.tier :: r.tiers[i] == s.tiers[i]
  {
    hide NextEvent, EventString, ToFront;
    var t, r := s.tiers[s.tier], AnnounceSuccess(s);
    FrontOf(t.urls, s.tracker);
    EventsSettle(t.event);
    assert forall i | 0 <= i < |s.tiers| && i != s.tier :: r.tiers[i] == s.tiers[i];
  }

  lemma FrontOf(urls: seq<string>, k: nat)
    requires k < |urls|
    ensures var r := ToFront(urls, k);
            multiset(r) == multiset(urls) && |r| == |urls| && r[0] == urls[k] && r[1..] == urls[..k] + urls[k + 1..]
  {
    assert urls == urls[..k] + [urls[k]] + urls[k + 1..];
  }

  /** Afterwards the URL that answered is tried before the others of its tier, once the earlier tiers failed. */
  lemma AnswerIsTriedFirst(s: State)
    requires WellFormed(s) && s.live
    ensures var r := AnnounceSuccess(s);
            WellFormed(r) && GetAnnounce(FailTimes(r, |Flat(s.tiers[..s.tier])|)) == GetAnnounce(s)
  {
    hide Flat, FailTimes, AnnounceSuccess;
    SuccessMovesToFront(s);
    var r := AnnounceSuccess(s);
    FlatIgnoresEvents(s.tiers[..s.tier], r.tiers[..s.tier]);
    var lead := State(r.tiers, s.tier, 0, true);
    PlaceIsSelected(lead);
    FailuresVisitEachOnce(r, Place(lead));
  }

  // ----- any run

  /** One call on the list. */
  ghost predicate StepTo(a: State, b: State) {
    WellFormed(a) &&
    (b == AnnounceSuccess(a) || b == AnnounceFailure(a) || b == ResetIterator(a) ||
     b == MoveToAllowedTier(a, StoppedAllowed) || b == MoveToAllowedTier(a, CompletedAllowed) ||
     (exists e :: b == SetEvent(a, e)) ||
     (SamePool(a.tiers, b.tiers) && b == a.(tiers := b.tiers)))
  }

  lemma SameUrlsSamePool(a: State, b: State)
    requires WellFormed(a) && SameUrls(a.tiers, b.tiers)
    requires b.tier <= |b.tiers| && (b.live ==> b.tier < |b.tiers| && b.tracker < |b.tiers[b.tier].urls|)
    ensures WellFormed(b) && SamePool(a.tiers, b.tiers)
  {
  }

  lemma ReorderedPool(a: State, b: State)
    requires WellFormed(a) && SamePool(a.tiers, b.tiers) && b == a.(tiers := b.tiers)
    ensures WellFormed(b)
  {
    forall i | 0 <= i < |a.tiers|
      ensures |b.tiers[i].urls| == |a.tiers[i].urls|
    {
      assert |multiset(b.tiers[i].urls)| == |multiset(a.tiers[i].urls)|;
    }
  }

  lemma StepKeepsPool(a: State, b: State)
    requires StepTo(a, b)
    ensures WellFormed(b) && SamePool(a.tiers, b.tiers)
  {
    hide FindWrapIf, SamePool, CountAllowed, AnnounceSuccess, Flat;
    if b == AnnounceSuccess(a) {
      if a.live {
        SuccessMovesToFront(a);
      } else {
        DeadStaysDead(a);
        SameUrlsSamePool(a, b);
      }
    } else if SamePool(a.tiers, b.tiers) && b == a.(tiers := b.tiers) {
      ReorderedPool(a, b);
    } else {
      SameUrlsSamePool(a, b);
    }
  }

  /** Whatever is called in whatever order, every tier keeps its URLs and no iterator leaves its tier. */
  lemma {:induction false} RunKeepsPool(run: seq<State>)
    requires run != [] && WellFormed(run[0]) && forall i | 0 <= i < |run| - 1 :: StepTo(run[i], run[i + 1])
    ensures WellFormed(run[|run| - 1]) && SamePool(run[0].tiers, run[|run| - 1].tiers)
    decreases |run|
  {
    hide StepTo, WellFormed;
    if |run| > 1 {
      var init := run[..|run| - 1];
      RunKeepsPool(init);
      StepKeepsPool(run[|run| - 2], run[|run| - 1]);
    }
  }

  // ----- moving to a tier that an event can be sent to

  /**
   * The move finds the nearest allowed tier at or behind the current one, then the first one. Without
   * an allowed tier it still goes back to the first URL of the current tier.
   */
  lemma MoveFindsAllowed(s: State, allowed: Event -> bool)
    requires WellFormed(s)
    ensures var r := MoveToAllowedTier(s, allowed);
            r.tiers == s.tiers && r.live == s.live &&
            if CountAllowed(s.tiers, allowed) == 0 then r == (if s.tier < |s.tiers| then s.(tracker := 0) else s)
            else r.tier < |s.tiers| && allowed(s.tiers[r.tier].event) && r.tracker == 0 &&
                 forall i | 0 <= i < |s.tiers| && allowed(s.tiers[i].event) ::
                   (if s.tier <= i then s.tier <= r.tier <= i else s.tier <= r.tier || r.tier <= i)
  {
    hide WellFormed;
  }

  /** A list without a selected URL stays without one: it takes no event and announces nothing until it is reset. */
  lemma MoveDoesNotRevive(s: State, e: Event, allowed: Event -> bool)
    requires WellFormed(s)
    ensures var r := MoveToAllowedTier(s, allowed);
            CurrentTierAccepts(r, allowed) <==> s.live && CountAllowed(s.tiers, allowed) > 0
    ensures !s.live ==> var r := MoveToAllowedTier(s, allowed); SetEvent(r, e) == r && GetAnnounce(r) == ""
  {
    MoveFindsAllowed(s, allowed);
  }
}
