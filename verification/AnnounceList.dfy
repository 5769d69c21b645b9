/** AnnounceTier and AnnounceList with the fields they update, proved against the state machine. */
module AnnounceList {
  import opened Announce
  import opened AnnounceRuns

  class AnnounceTier {
    var event: Event
    var urls: seq<string>

    constructor (urls: seq<string>)
      ensures event == Started && this.urls == urls
    {
      event := Started;
      this.urls := urls;
    }

    function Value(): Tier
      reads this
    {
      Tier(event, urls)
    }

    method NextEvent()
      modifies this`event
      ensures event == Announce.NextEvent(old(event))
    {
      if event == Started {
        event := Downloading;
      } else if event == StartedAfterCompletion {
        event := Seeding;
      } else if event == Stopped {
        event := Halted;
      } else if event == Completed {
        event := Seeding;
      }
    }

    method NextEventIfAfterStarted()
      modifies this`event
      ensures event == Announce.NextEventIfAfterStarted(old(event))
    {
      if event == Stopped {
        event := Halted;
      } else if event == Completed {
        event := Seeding;
      }
    }

    /** Erasing an URL and pushing it to the front. */
    method MoveToFront(k: nat)
      requires k < |urls|
      modifies this`urls
      ensures urls == ToFront(old(urls), k)
    {
      var url := urls[k];
      urls := urls[..k] + urls[k + 1..];
      urls := [url] + urls;
      assert urls == ToFront(old(urls), k);
    }

    /** std::shuffle; `draw` gives the random places. */
    method Shuffle(draw: nat -> nat)
      modifies this`urls
      ensures multiset(urls) == multiset(old(urls))
    {
      for i := 0 to |urls|
        invariant |urls| == |old(urls)| && multiset(urls) == multiset(old(urls))
      {
        var j := draw(i) % (i + 1);
        urls := urls[i := urls[j]][j := urls[i]];
      }
    }
  }

  ghost predicate NoRepeats(tiers: seq<AnnounceTier>) {
    forall i, j | 0 <= i < j < |tiers| :: tiers[i] != tiers[j]
  }

  ghost function TierValues(tiers: seq<AnnounceTier>): (r: seq<Tier>)
    reads tiers
    ensures |r| == |tiers| && forall i | 0 <= i < |tiers| :: r[i] == tiers[i].Value()
  {
    seq(|tiers|, i requires 0 <= i < |tiers| reads tiers => tiers[i].Value())
  }

  /** The tiers that reconfigure makes: one for each list that is not empty. */
  function Fresh(lists: seq<seq<string>>): seq<Tier> {
    if lists == [] then []
    else Fresh(lists[..|lists| - 1]) + (if lists[|lists| - 1] == [] then [] else [Tier(Started, lists[|lists| - 1])])
  }

  function Joined(lists: seq<seq<string>>): seq<string> {
    if lists == [] then [] else Joined(lists[..|lists| - 1]) + lists[|lists| - 1]
  }

  /** List by list, in the order given: a tier that has still to start for each list that is not empty. */
  lemma {:induction false} FreshInOrder(a: seq<seq<string>>, b: seq<seq<string>>, urls: seq<string>)
    ensures Fresh(a + b) == Fresh(a) + Fresh(b) && Fresh([urls]) == (if urls == [] then [] else [Tier(Started, urls)])
    decreases |b|
  {
    assert [urls][..0] == [];
    if b == [] {
      assert a + b == a;
    } else {
      var n := |b| - 1;
      assert (a + b)[..|a + b| - 1] == a + b[..n] && (a + b)[|a + b| - 1] == b[n];
      FreshInOrder(a, b[..n], urls);
    }
  }

  /** The new tiers hold the URLs of the lists, in that order. */
  lemma {:induction false} FreshUrls(before: seq<Tier>, lists: seq<seq<string>>)
    ensures Flat(before + Fresh(lists)) == Flat(before) + Joined(lists)
    decreases |lists|
  {
    hide Flat;
    if lists == [] {
      assert before + [] == before && Flat(before) + [] == Flat(before);
    } else {
      var init, last := lists[..|lists| - 1], lists[|lists| - 1];
      FreshUrls(before, init);
      if last == [] {
        assert Fresh(lists) == Fresh(init) && Joined(lists) == Joined(init);
      } else {
        var grown := before + Fresh(lists);
        assert grown == (before + Fresh(init)) + [Tier(Started, last)];
        FlatNext(grown, |grown| - 1);
        assert grown[..|grown| - 1] == before + Fresh(init) && grown[..|grown|] == grown;
        assert Flat(before) + (Joined(init) + last) == (Flat(before) + Joined(init)) + last;
      }
    }
  }

  lemma LastUrlFails(s: State)
    requires WellFormed(s) && s.live && s.tracker + 1 == |s.tiers[s.tier].urls|
    ensures s.tier < |s.tiers| && WellFormed(Announce.AnnounceFailure(s))
    ensures var tiers := s.tiers[s.tier := s.tiers[s.tier].(event := Announce.NextEventIfAfterStarted(s.tiers[s.tier].event))];
            Announce.AnnounceFailure(s) ==
            if s.tier + 1 == |tiers| then State(tiers, s.tier + 1, s.tracker + 1, false) else State(tiers, s.tier + 1, 0, true)
  {
  }

  class AnnounceList {
    var tiers: seq<AnnounceTier>
    var currentTier: nat
    var currentTracker: nat
    var currentTrackerInitialized: bool

    ghost function Value(): State
      reads this, tiers
    {
      State(TierValues(tiers), currentTier, currentTracker, currentTrackerInitialized)
    }

    ghost predicate Valid()
      reads this, tiers
    {
      NoRepeats(tiers) && WellFormed(Value())
    }

    constructor ()
      ensures Valid() && tiers == []
    {
      tiers, currentTier, currentTracker, currentTrackerInitialized := [], 0, 0, false;
    }

    method ResetIterator()
      requires Valid()
      modifies this`currentTier, this`currentTracker, this`currentTrackerInitialized
      ensures Valid() && Value() == Announce.ResetIterator(old(Value()))
    {
      currentTier := 0;
      if currentTier != |tiers| && |tiers[currentTier].urls| != 0 {
        currentTracker, currentTrackerInitialized := 0, true;
      } else {
        currentTrackerInitialized := false;
      }
    }

    method Reconfigure(lists: seq<seq<string>>)
      requires Valid()
      modifies this
      ensures Valid() && Value().tiers == old(Value()).tiers + Fresh(lists)
      ensures Flat(Value().tiers) == Flat(old(Value()).tiers) + Joined(lists)
      ensures Value() == Announce.ResetIterator(Value())
      ensures forall t | t in tiers :: t in old(tiers) || fresh(t)
    {
      hide Flat, Joined, NoRepeats, WellFormed;
      ghost var start := Value();
      AddTiers(lists);
      FreshUrls(start.tiers, lists);
      ResetIterator();
    }

    /** The loop of reconfigure. */
    method AddTiers(lists: seq<seq<string>>)
      requires Valid()
      modifies this`tiers
      ensures Valid() && Value() == old(Value()).(tiers := old(Value()).tiers + Fresh(lists))
      ensures forall t | t in tiers :: t in old(tiers) || fresh(t)
    {
      hide NoRepeats, WellFormed;
      ghost var start := Value();
      for n := 0 to |lists|
        invariant Valid() && Value() == start.(tiers := start.tiers + Fresh(lists[..n]))
        invariant forall t | t in tiers :: t in old(tiers) || fresh(t)
      {
        assert lists[..n + 1][..n] == lists[..n];
        if lists[n] != [] {
          Append(lists[n]);
        }
      }
      assert lists[..|lists|] == lists;
    }

    method Append(urls: seq<string>)
      requires Valid() && urls != []
      modifies this`tiers
      ensures Valid() && Value() == old(Value()).(tiers := old(Value()).tiers + [Tier(Started, urls)])
      ensures forall t | t in tiers :: t in old(tiers) || fresh(t)
    {
      var tier := new AnnounceTier(urls);
      tiers := tiers + [tier];
    }

    method GetAnnounce() returns (url: string)
      requires Valid()
      ensures url == Announce.GetAnnounce(Value())
    {
      if currentTrackerInitialized {
        url := tiers[currentTier].urls[currentTracker];
      } else {
        url := "";
      }
    }

    method AnnounceSuccess()
      requires Valid()
      modifies this`currentTier, this`currentTracker, tiers
      ensures Valid() && Value() == Announce.AnnounceSuccess(old(Value()))
    {
      hide ToFront, Announce.NextEvent, EventString, SamePool, Announce.ResetIterator, Announce.GetAnnounce;
      ghost var before := Value();
      if currentTrackerInitialized {
        SuccessMovesToFront(before);
        tiers[currentTier].NextEvent();
        tiers[currentTier].MoveToFront(currentTracker);
        assert TierValues(tiers) == before.tiers[currentTier := tiers[currentTier].Value()];
        currentTier, currentTracker := 0, 0;
      }
    }

    method AnnounceFailure()
      requires Valid()
      modifies this`currentTier, this`currentTracker, this`currentTrackerInitialized, tiers
      ensures Valid() && Value() == Announce.AnnounceFailure(old(Value()))
    {
      if currentTrackerInitialized {
        if currentTracker + 1 == |tiers[currentTier].urls| {
          NextTier();
        } else {
          currentTracker := currentTracker + 1;
        }
      }
    }

    /** The last URL of a tier has failed. */
    method NextTier()
      requires Valid() && currentTrackerInitialized && currentTracker + 1 == |tiers[currentTier].urls|
      modifies this`currentTier, this`currentTracker, this`currentTrackerInitialized, tiers
      ensures Valid() && Value() == Announce.AnnounceFailure(old(Value()))
    {
      LastUrlFails(Value());
      ghost var r := Announce.AnnounceFailure(Value());
      hide Announce.NextEventIfAfterStarted, NoRepeats, WellFormed, Announce.AnnounceFailure;
      currentTracker := currentTracker + 1;
      FailTier();
      assert TierValues(tiers) == r.tiers;
      currentTier := currentTier + 1;
      if currentTier == |tiers| {
        currentTrackerInitialized := false;
      } else {
        currentTracker := 0;
      }
      assert Value() == r;
    }

    method FailTier()
      requires NoRepeats(tiers) && currentTier < |tiers|
      modifies tiers`event
      ensures var was := old(TierValues(tiers));
              TierValues(tiers) ==
              was[currentTier := was[currentTier].(event := Announce.NextEventIfAfterStarted(was[currentTier].event))]
    {
      hide Announce.NextEventIfAfterStarted;
      tiers[currentTier].NextEventIfAfterStarted();
    }

    method SetEvent(event: Event)
      requires Valid()
      modifies tiers`event
      ensures Valid() && Value() == Announce.SetEvent(old(Value()), event)
    {
      if currentTrackerInitialized {
        tiers[currentTier].event := event;
      }
    }

    method AllTiersFailed() returns (r: bool)
      requires Valid()
      ensures r == Announce.AllTiersFailed(Value()) == (currentTier == |tiers|)
    {
      r := currentTier == |tiers|;
    }

    method CurrentTierAccepts(allowed: Event -> bool) returns (r: bool)
      requires Valid()
      ensures r == Announce.CurrentTierAccepts(Value(), allowed)
    {
      r := currentTrackerInitialized && allowed(tiers[currentTier].event);
    }

    method CountAllowed(allowed: Event -> bool) returns (n: nat)
      requires Valid()
      ensures n == Announce.CountAllowed(Value().tiers, allowed)
    {
      n := 0;
      var i := |tiers|;
      while i != 0
        invariant 0 <= i <= |tiers| && n == Announce.CountAllowed(Value().tiers[i..], allowed)
      {
        i := i - 1;
        assert Value().tiers[i..][1..] == Value().tiers[i + 1..];
        if allowed(tiers[i].event) {
          n := n + 1;
        }
      }
      assert Value().tiers[0..] == Value().tiers;
    }

    /** std::find_if. */
    method FindIf(first: nat, last: nat, allowed: Event -> bool) returns (i: nat)
      requires first <= last <= |tiers|
      ensures i == Announce.FindIf(TierValues(tiers), first, last, allowed)
    {
      i := first;
      while i != last && !allowed(tiers[i].event)
        invariant first <= i <= last
        invariant Announce.FindIf(TierValues(tiers), first, last, allowed) == Announce.FindIf(TierValues(tiers), i, last, allowed)
      {
        i := i + 1;
      }
    }

    /** find_wrap_if. */
    method FindWrapIf(allowed: Event -> bool) returns (i: nat)
      requires Valid()
      ensures i == Announce.FindWrapIf(Value(), allowed)
    {
      hide Announce.FindIf;
      i := FindIf(currentTier, |tiers|, allowed);
      if i == |tiers| {
        i := FindIf(0, currentTier, allowed);
      }
    }

    method MoveToAllowedTier(allowed: Event -> bool)
      requires Valid()
      modifies this`currentTier, this`currentTracker
      ensures Valid() && Value() == Announce.MoveToAllowedTier(old(Value()), allowed)
    {
      hide Announce.FindWrapIf;
      var i := FindWrapIf(allowed);
      if i != |tiers| {
        currentTier, currentTracker := i, 0;
      }
    }

    method Shuffle(draw: (nat, nat) -> nat)
      requires Valid()
      modifies tiers`urls
      ensures Valid() && SamePool(old(Value()).tiers, Value().tiers) && Value() == old(Value()).(tiers := Value().tiers)
      ensures forall i | 0 <= i < |tiers| :: tiers[i].event == old(tiers[i].event)
    {
      hide WellFormed;
      for n := 0 to |tiers|
        invariant forall i | 0 <= i < |tiers| :: multiset(tiers[i].urls) == multiset(old(tiers[i].urls))
      {
        tiers[n].Shuffle(k => draw(n, k));
      }
      ReorderedPool(old(Value()), Value());
    }
  }
}
