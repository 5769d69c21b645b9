/**
 * What the trackers are told over a run of announces: how DefaultBtAnnounce and TrackerWatcherCommand
 * drive the list (libaria2/src/DefaultBtAnnounce.cc, libaria2/src/TrackerWatcherCommand.cc).
 */
module AnnounceEvents {
  import opened Announce
  import opened AnnounceRuns
  import opened Options

  /** How the download stands, whether its interval has passed, and whether the tracker answers if asked. */
  datatype Turn = Turn(halt: bool, finished: bool, due: bool, ok: bool)

  ghost predicate Running(s: State) {
    WellFormed(s) && s.live
  }

  /** The list goes to a tier that the event can be sent to, and sets it there. */
  function AdjustFor(s: State, allowed: Event -> bool, e: Event): State
    requires WellFormed(s)
  {
    SetEvent(if CurrentTierAccepts(s, allowed) then s else MoveToAllowedTier(s, allowed), e)
  }

  /** adjustAnnounceList: the list as it announces itself, if it does. */
  function Adjust(s: State, t: Turn): Option<State>
    requires WellFormed(s)
  {
    if t.halt && CountAllowed(s.tiers, StoppedAllowed) > 0 then Some(AdjustFor(s, StoppedAllowed, Stopped))
    else if t.finished && CountAllowed(s.tiers, CompletedAllowed) > 0 then Some(AdjustFor(s, CompletedAllowed, Completed))
    else if t.due && !AllTiersFailed(s) then
      Some(if t.finished && GetEvent(s) == Started then SetEvent(s, StartedAfterCompletion) else s)
    else None
  }

  function GetEvent(s: State): Event
    requires WellFormed(s)
  {
    if s.live then s.tiers[s.tier].event else Started
  }

  /** How TrackerWatcherCommand takes the outcome of an announce. */
  function TakeOutcome(s: State, ok: bool): State
    requires WellFormed(s)
  {
    if ok then ResetIterator(AnnounceSuccess(s))
    else
      var f := AnnounceFailure(s);
      if AllTiersFailed(f) then ResetIterator(f) else f
  }

  function AfterTurn(s: State, t: Turn): State
    requires WellFormed(s) && (Adjust(s, t).Some? ==> WellFormed(Adjust(s, t).value))
  {
    var a := Adjust(s, t);
    if a.Some? then TakeOutcome(a.value, t.ok) else s
  }

  // ----- one turn

  /** The event settled by the outcome: by an answer, or by the failure of the last URL of the tier. */
  function Settled(a: State, ok: bool): Event
    requires WellFormed(a) && a.live
  {
    var t := a.tiers[a.tier];
    if ok then NextEvent(t.event)
    else if a.tracker + 1 == |t.urls| then NextEventIfAfterStarted(t.event)
    else t.event
  }

  /** An outcome changes the event of the announced tier alone, and the list goes on. */
  lemma OutcomeSettles(a: State, ok: bool)
    requires Running(a)
    ensures var r := TakeOutcome(a, ok);
            && Running(r) && |r.tiers| == |a.tiers|
            && (forall i | 0 <= i < |a.tiers| :: |r.tiers[i].urls| == |a.tiers[i].urls|)
            && forall i | 0 <= i < |a.tiers| ::
                 r.tiers[i].event == if i == a.tier then Settled(a, ok) else a.tiers[i].event
  {
    if ok {
      SuccessMovesToFront(a);
    } else {
      FailureAdvances(a);
    }
  }

  /** Going to a tier for an event: some tier that allows it, from now on with that event. */
  lemma AdjustedFor(s: State, allowed: Event -> bool, e: Event)
    requires Running(s) && CountAllowed(s.tiers, allowed) > 0
    ensures var a := AdjustFor(s, allowed, e);
            && Running(a) && SameUrls(s.tiers, a.tiers)
            && allowed(s.tiers[a.tier].event) && a.tiers == s.tiers[a.tier := s.tiers[a.tier].(event := e)]
            && (if CurrentTierAccepts(s, allowed) then a.tier == s.tier && a.tracker == s.tracker else a.tracker == 0)
  {
    hide FindWrapIf, CountAllowed;
    MoveFindsAllowed(s, allowed);
  }

  /** What an announce carries: an event that is pending, or one that the tier was due. */
  lemma AdjustKeeps(s: State, t: Turn)
    requires Running(s) && Adjust(s, t).Some?
    ensures var a := Adjust(s, t).value;
            && Running(a) && SameUrls(s.tiers, a.tiers)
            && var was, e := s.tiers[a.tier].event, a.tiers[a.tier].event;
               && a.tiers == s.tiers[a.tier := s.tiers[a.tier].(event := e)]
               && (e == was || (e == Stopped && t.halt && StoppedAllowed(was)) || (e == Completed && t.finished && CompletedAllowed(was)) ||
                   (e == StartedAfterCompletion && t.finished && was == Started))
               && (e == Started ==> !t.finished)
  {
    hide CountAllowed, AdjustFor;
    if t.halt && CountAllowed(s.tiers, StoppedAllowed) > 0 {
      AdjustedFor(s, StoppedAllowed, Stopped);
    } else if t.finished && CountAllowed(s.tiers, CompletedAllowed) > 0 {
      AdjustedFor(s, CompletedAllowed, Completed);
    } else {
      var a := Adjust(s, t).value;
      assert a.tiers == s.tiers[a.tier := s.tiers[a.tier].(event := a.tiers[a.tier].event)];
    }
  }

  /**
   * When there is something to announce, and what: the stop as long as some tier is to be told of it, else the
   * completion, else, when the interval has passed, whatever is pending at the selected tier.
   */
  lemma AdjustWhen(s: State, t: Turn)
    requires Running(s)
    ensures var stop := t.halt && exists i | 0 <= i < |s.tiers| :: StoppedAllowed(s.tiers[i].event);
            var complete := t.finished && exists i | 0 <= i < |s.tiers| :: CompletedAllowed(s.tiers[i].event);
            var r := Adjust(s, t);
            && (r.Some? <==> stop || complete || t.due)
            && (r.Some? ==> Running(r.value) && r.value.tier < |s.tiers|)
            && (stop ==> r.value.tiers[r.value.tier].event == Stopped)
            && (!stop && complete ==> r.value.tiers[r.value.tier].event == Completed)
            && (!stop && !complete && t.due ==>
                  r.value == if t.finished && s.tiers[s.tier].event == Started then
                               s.(tiers := s.tiers[s.tier := s.tiers[s.tier].(event := StartedAfterCompletion)])
                             else s)
  {
    hide CountAllowed, AdjustFor, StoppedAllowed, CompletedAllowed;
    if t.halt && CountAllowed(s.tiers, StoppedAllowed) > 0 {
      AdjustedFor(s, StoppedAllowed, Stopped);
    } else if t.finished && CountAllowed(s.tiers, CompletedAllowed) > 0 {
      AdjustedFor(s, CompletedAllowed, Completed);
    }
  }

  ghost predicate SameSizes(a: State, b: State) {
    |a.tiers| == |b.tiers| && forall i | 0 <= i < |a.tiers| :: |b.tiers[i].urls| == |a.tiers[i].urls|
  }

  lemma TurnGoesOn(s: State, t: Turn)
    requires Running(s)
    ensures Adjust(s, t).Some? ==> WellFormed(Adjust(s, t).value)
    ensures Running(AfterTurn(s, t)) && SameSizes(s, AfterTurn(s, t))
  {
    hide Adjust, TakeOutcome;
    if Adjust(s, t).Some? {
      AdjustKeeps(s, t);
      OutcomeSettles(Adjust(s, t).value, t.ok);
    }
  }

  // ----- a run

  /** The list before turn number i. */
  ghost function StateAt(s: State, turns: seq<Turn>, i: nat): (r: State)
    requires Running(s) && i <= |turns|
    ensures Running(r) && SameSizes(s, r)
  {
    if i == 0 then s
    else
      var p := StateAt(s, turns, i - 1);
      TurnGoesOn(p, turns[i - 1]);
      AfterTurn(p, turns[i - 1])
  }

  /** Turn number i announces the event to the tier. */
  ghost predicate Announces(s: State, turns: seq<Turn>, i: int, tier: nat, e: Event)
    requires Running(s)
  {
    0 <= i < |turns| &&
    var a := Adjust(StateAt(s, turns, i), turns[i]);
    a.Some? && a.value.tier == tier && tier < |a.value.tiers| && a.value.tiers[tier].event == e
  }

  /** The event of a tier from one turn to the next. */
  lemma EventSteps(s: State, turns: seq<Turn>, i: nat, tier: nat)
    requires Running(s) && i < |turns| && tier < |s.tiers|
    ensures var was, now := StateAt(s, turns, i).tiers[tier].event, StateAt(s, turns, i + 1).tiers[tier].event;
            now == was || exists e ::
              && Announces(s, turns, i, tier, e)
              && (now == e || now == NextEventIfAfterStarted(e) || (turns[i].ok && now == NextEvent(e)))
              && (e == was || (e == Stopped && turns[i].halt && StoppedAllowed(was)) ||
                  (e == Completed && turns[i].finished && CompletedAllowed(was)) ||
                  (e == StartedAfterCompletion && turns[i].finished && was == Started))
              && (e == Started ==> !turns[i].finished)
  {
    hide Adjust, TakeOutcome, NextEvent, NextEventIfAfterStarted, StoppedAllowed, CompletedAllowed;
    var p, t := StateAt(s, turns, i), turns[i];
    TurnGoesOn(p, t);
    if Adjust(p, t).Some? {
      var a := Adjust(p, t).value;
      AdjustKeeps(p, t);
      OutcomeSettles(a, t.ok);
      if tier == a.tier {
        assert Announces(s, turns, i, tier, a.tiers[tier].event);
      }
    }
  }

  // ----- who is told what

  /**
   * A tier can be told of the stop only if it has answered a start, and of the completion only if it has
   * answered one before the download was finished.
   */
  lemma {:induction false} StartWasAnswered(s: State, turns: seq<Turn>, i: nat, tier: nat)
    requires Running(s) && i <= |turns| && tier < |s.tiers| && s.tiers[tier].event == Started
    ensures StoppedAllowed(StateAt(s, turns, i).tiers[tier].event) ==>
              exists j | 0 <= j < i && turns[j].ok ::
                Announces(s, turns, j, tier, Started) || Announces(s, turns, j, tier, StartedAfterCompletion)
    ensures CompletedAllowed(StateAt(s, turns, i).tiers[tier].event) ==>
              exists j | 0 <= j < i && turns[j].ok && !turns[j].finished :: Announces(s, turns, j, tier, Started)
    ensures StateAt(s, turns, i).tiers[tier].event == Stopped ==> exists k | 0 <= k < i :: turns[k].halt
    ensures StateAt(s, turns, i).tiers[tier].event == Completed ==> exists k | 0 <= k < i :: turns[k].finished
    decreases i
  {
    hide StateAt, Announces;
    if i == 0 {
      assert StateAt(s, turns, 0) == s by {
        NoTurnYet(s, turns);
      }
    } else {
      StartWasAnswered(s, turns, i - 1, tier);
      EventSteps(s, turns, i - 1, tier);
    }
  }

  lemma NoTurnYet(s: State, turns: seq<Turn>)
    requires Running(s)
    ensures StateAt(s, turns, 0) == s
  {
  }

  lemma AnnouncedWas(s: State, turns: seq<Turn>, i: int, tier: nat, e: Event)
    requires Running(s) && Announces(s, turns, i, tier, e)
    ensures tier < |s.tiers|
    ensures var was := StateAt(s, turns, i).tiers[tier].event;
            e == was || (e == Stopped && turns[i].halt && StoppedAllowed(was)) ||
            (e == Completed && turns[i].finished && CompletedAllowed(was)) ||
            (e == StartedAfterCompletion && turns[i].finished && was == Started)
  {
    hide Adjust;
    AdjustKeeps(StateAt(s, turns, i), turns[i]);
  }

  /** The completed event goes to a tier only if that has answered a start before the download was finished. */
  lemma CompletedFollowsStart(s: State, turns: seq<Turn>, i: nat, tier: nat)
    requires Running(s) && forall t | t in s.tiers :: t.event == Started
    requires Announces(s, turns, i, tier, Completed)
    ensures exists k | 0 <= k <= i :: turns[k].finished
    ensures exists j | 0 <= j < i && turns[j].ok && !turns[j].finished :: Announces(s, turns, j, tier, Started)
  {
    hide StateAt;
    AnnouncedWas(s, turns, i, tier, Completed);
    StartWasAnswered(s, turns, i, tier);
  }

  /** The stopped event goes to a tier only if that has answered a start. */
  lemma StoppedFollowsStart(s: State, turns: seq<Turn>, i: nat, tier: nat)
    requires Running(s) && forall t | t in s.tiers :: t.event == Started
    requires Announces(s, turns, i, tier, Stopped)
    ensures exists k | 0 <= k <= i :: turns[k].halt
    ensures exists j | 0 <= j < i && turns[j].ok ::
              Announces(s, turns, j, tier, Started) || Announces(s, turns, j, tier, StartedAfterCompletion)
  {
    hide StateAt;
    AnnouncedWas(s, turns, i, tier, Stopped);
    StartWasAnswered(s, turns, i, tier);
  }

  /** What comes behind the completion: it is never due again. */
  predicate Behind(e: Event) {
    e != Started && e != Downloading && e != Completed
  }

  lemma {:induction false} StaysBehind(s: State, turns: seq<Turn>, i: nat, j: nat, tier: nat)
    requires Running(s) && i <= j <= |turns| && tier < |s.tiers| && Behind(StateAt(s, turns, i).tiers[tier].event)
    ensures Behind(StateAt(s, turns, j).tiers[tier].event)
    decreases j
  {
    hide StateAt, Announces;
    if i < j {
      StaysBehind(s, turns, i, j - 1, tier);
      EventSteps(s, turns, j - 1, tier);
    }
  }

  /**
   * A tier that has answered the completed event, or has been started after the completion, never gets the
   * completed event afterwards.
   */
  lemma CompletedOnce(s: State, turns: seq<Turn>, i: nat, j: nat, tier: nat)
    requires Running(s) && i < j < |turns|
    requires (Announces(s, turns, i, tier, Completed) && turns[i].ok) || Announces(s, turns, i, tier, StartedAfterCompletion)
    ensures !Announces(s, turns, j, tier, Completed)
  {
    hide StateAt;
    TurnSettles(s, turns, i, tier);
    StaysBehind(s, turns, i + 1, j, tier);
    if Announces(s, turns, j, tier, Completed) {
      AnnouncedWas(s, turns, j, tier, Completed);
    }
  }

  lemma TurnSettles(s: State, turns: seq<Turn>, i: nat, tier: nat)
    requires Running(s) && i < |turns|
    requires (Announces(s, turns, i, tier, Completed) && turns[i].ok) || Announces(s, turns, i, tier, StartedAfterCompletion)
    ensures tier < |s.tiers| && Behind(StateAt(s, turns, i + 1).tiers[tier].event)
  {
    hide Adjust, TakeOutcome;
    var p := StateAt(s, turns, i);
    AdjustKeeps(p, turns[i]);
    OutcomeSettles(Adjust(p, turns[i]).value, turns[i].ok);
  }

  // ----- everybody is told

  ghost function Weight(t: Tier, allowed: Event -> bool): nat {
    if allowed(t.event) then |t.urls| else 0
  }

  ghost function TotalWeight(tiers: seq<Tier>, allowed: Event -> bool): nat {
    if tiers == [] then 0 else TotalWeight(tiers[..|tiers| - 1], allowed) + Weight(tiers[|tiers| - 1], allowed)
  }

  lemma {:induction false} WeightOfUpdate(tiers: seq<Tier>, i: nat, t: Tier, allowed: Event -> bool)
    requires i < |tiers|
    ensures TotalWeight(tiers[i := t], allowed) == TotalWeight(tiers, allowed) - Weight(tiers[i], allowed) + Weight(t, allowed)
    decreases |tiers|
  {
    hide Weight;
    var n := |tiers| - 1;
    if i < n {
      WeightOfUpdate(tiers[..n], i, t, allowed);
      assert tiers[i := t][..n] == tiers[..n][i := t];
    } else {
      assert tiers[i := t][..n] == tiers[..n];
    }
  }

  lemma {:induction false} WeightOfOne(tiers: seq<Tier>, i: nat, allowed: Event -> bool)
    requires i < |tiers|
    ensures Weight(tiers[i], allowed) <= TotalWeight(tiers, allowed) <= |Flat(tiers)|
    decreases |tiers|
  {
    if i < |tiers| - 1 {
      WeightOfOne(tiers[..|tiers| - 1], i, allowed);
    } else if |tiers| > 1 {
      WeightOfOne(tiers[..|tiers| - 1], 0, allowed);
    }
  }

  /** The announces that can still be needed to tell every tier that allows the event. */
  ghost function Owed(s: State, allowed: Event -> bool): int
    requires WellFormed(s)
  {
    TotalWeight(s.tiers, allowed) - (if CurrentTierAccepts(s, allowed) then s.tracker else 0)
  }

  lemma SomethingIsOwed(s: State, allowed: Event -> bool)
    requires Running(s) && CountAllowed(s.tiers, allowed) > 0
    ensures 0 < Owed(s, allowed) <= |Flat(s.tiers)|
  {
    hide TotalWeight, CountAllowed;
    var i :| 0 <= i < |s.tiers| && allowed(s.tiers[i].event);
    WeightOfOne(s.tiers, i, allowed);
    WeightOfOne(s.tiers, s.tier, allowed);
  }

  /** An event that is allowed until it is settled. */
  predicate Passing(allowed: Event -> bool, e: Event) {
    allowed(e) && !allowed(NextEvent(e)) && !allowed(NextEventIfAfterStarted(e))
  }

  lemma BothPass()
    ensures Passing(StoppedAllowed, Stopped) && Passing(CompletedAllowed, Completed)
  {
  }

  /** Every outcome settles at least one of the announces owed. */
  lemma OutcomePays(a: State, allowed: Event -> bool, ok: bool)
    requires Running(a) && Passing(allowed, a.tiers[a.tier].event)
    ensures var r := TakeOutcome(a, ok); Running(r) && Owed(r, allowed) < Owed(a, allowed)
  {
    hide TotalWeight;
    var t := a.tiers[a.tier];
    if ok {
      var r := AnnounceSuccess(a);
      SuccessMovesToFront(a);
      WeightOfUpdate(a.tiers, a.tier, r.tiers[a.tier], allowed);
    } else {
      WeightOfUpdate(a.tiers, a.tier, t.(event := NextEventIfAfterStarted(t.event)), allowed);
    }
  }

  /** The turns from i on announce this event as long as a tier allows it. */
  ghost predicate Telling(s: State, turns: seq<Turn>, i: nat, allowed: Event -> bool, e: Event)
    requires Running(s)
  {
    Passing(allowed, e) && forall k | i <= k < |turns| && CountAllowed(StateAt(s, turns, k).tiers, allowed) > 0 ::
      Adjust(StateAt(s, turns, k), turns[k]) == Some(AdjustFor(StateAt(s, turns, k), allowed, e))
  }

  /** One such announce: it goes to a tier that allows the event, and only its outcome changes what is owed. */
  lemma TellingOne(p: State, allowed: Event -> bool, e: Event, ok: bool)
    requires Running(p) && Passing(allowed, e) && CountAllowed(p.tiers, allowed) > 0
    ensures var a := AdjustFor(p, allowed, e);
            && Running(a) && a.tier < |p.tiers| && allowed(p.tiers[a.tier].event) && a.tiers[a.tier].event == e
            && var r := TakeOutcome(a, ok);
               && WellFormed(r) && Owed(r, allowed) < Owed(p, allowed) && |r.tiers| == |p.tiers|
               && forall t | 0 <= t < |p.tiers| ::
                    allowed(r.tiers[t].event) ==
                    if t == a.tier then !ok && a.tracker + 1 != |p.tiers[t].urls| else allowed(p.tiers[t].event)
  {
    var a := AdjustFor(p, allowed, e);
    AdjustedFor(p, allowed, e);
    hide AdjustFor, TakeOutcome, TotalWeight, CountAllowed, NextEvent, NextEventIfAfterStarted;
    WeightOfUpdate(p.tiers, a.tier, a.tiers[a.tier], allowed);
    OutcomePays(a, allowed, ok);
    OutcomeSettles(a, ok);
  }

  /** Such a turn of the run. */
  lemma TellingTurn(s: State, turns: seq<Turn>, i: nat, allowed: Event -> bool, e: Event)
    requires Running(s) && i < |turns| && Telling(s, turns, i, allowed, e)
    requires CountAllowed(StateAt(s, turns, i).tiers, allowed) > 0
    ensures Owed(StateAt(s, turns, i + 1), allowed) < Owed(StateAt(s, turns, i), allowed)
    ensures var p := StateAt(s, turns, i);
            var a := Adjust(p, turns[i]);
            && a.Some? && Running(a.value) && a.value.tier < |p.tiers| && allowed(p.tiers[a.value.tier].event)
            && Announces(s, turns, i, a.value.tier, e)
            && forall t | 0 <= t < |p.tiers| ::
                 allowed(StateAt(s, turns, i + 1).tiers[t].event) ==
                 if t == a.value.tier then !turns[i].ok && a.value.tracker + 1 != |s.tiers[t].urls| else allowed(p.tiers[t].event)
  {
    hide Adjust, AdjustFor, TakeOutcome, Owed, CountAllowed, Passing;
    var p := StateAt(s, turns, i);
    TellingOne(p, allowed, e, turns[i].ok);
    TurnGoesOn(p, turns[i]);
  }

  /**
   * Then each tier that allows the event gets it, within as many turns as there are announces owed, until it
   * answers or all its URLs have failed.
   */
  lemma {:induction false} EventIsTold(s: State, turns: seq<Turn>, i: nat, allowed: Event -> bool, e: Event, tier: nat)
    returns (k: nat)
    requires Running(s) && i <= |turns| && Telling(s, turns, i, allowed, e)
    requires tier < |s.tiers| && allowed(StateAt(s, turns, i).tiers[tier].event)
    requires Owed(StateAt(s, turns, i), allowed) <= |turns| - i
    ensures i <= k < |turns| && k < i + Owed(StateAt(s, turns, i), allowed)
    ensures Announces(s, turns, k, tier, e) && !allowed(StateAt(s, turns, k + 1).tiers[tier].event)
    ensures turns[k].ok || Adjust(StateAt(s, turns, k), turns[k]).value.tracker + 1 == |s.tiers[tier].urls|
    decreases |turns| - i
  {
    hide StateAt, Owed, Adjust, AdjustFor, CountAllowed, Announces, Passing;
    assert CountAllowed(StateAt(s, turns, i).tiers, allowed) > 0;
    SomethingIsOwed(StateAt(s, turns, i), allowed);
    TellingTurn(s, turns, i, allowed, e);
    if allowed(StateAt(s, turns, i + 1).tiers[tier].event) {
      k := EventIsTold(s, turns, i + 1, allowed, e, tier);
    } else {
      k := i;
    }
  }

  /** After as many turns as there are announces owed no tier allows the event any more. */
  lemma {:induction false} TellingEnds(s: State, turns: seq<Turn>, i: nat, allowed: Event -> bool, e: Event) returns (m: nat)
    requires Running(s) && i <= |turns| && Telling(s, turns, i, allowed, e)
    requires Owed(StateAt(s, turns, i), allowed) <= |turns| - i
    ensures i <= m <= |turns| && (m == i || m <= i + Owed(StateAt(s, turns, i), allowed))
    ensures CountAllowed(StateAt(s, turns, m).tiers, allowed) == 0
    decreases |turns| - i
  {
    hide StateAt, Owed, Adjust, AdjustFor, CountAllowed, Announces, Passing;
    if CountAllowed(StateAt(s, turns, i).tiers, allowed) == 0 {
      m := i;
    } else {
      SomethingIsOwed(StateAt(s, turns, i), allowed);
      TellingTurn(s, turns, i, allowed, e);
      m := TellingEnds(s, turns, i + 1, allowed, e);
    }
  }

  /**
   * A download that halts tells every tier that has answered a start and no stop yet, and is through with
   * its trackers after at most as many turns as there are URLs, whatever they answer.
   */
  lemma HaltingEnds(s: State, turns: seq<Turn>, i: nat) returns (m: nat)
    requires Running(s) && i <= |turns| && forall k | i <= k < |turns| :: turns[k].halt
    requires |Flat(StateAt(s, turns, i).tiers)| <= |turns| - i
    ensures i <= m <= |turns| && CountAllowed(StateAt(s, turns, m).tiers, StoppedAllowed) == 0
    ensures forall tier | 0 <= tier < |s.tiers| && StoppedAllowed(StateAt(s, turns, i).tiers[tier].event) ::
              exists k :: i <= k < |turns| && Announces(s, turns, k, tier, Stopped) &&
                (turns[k].ok || Adjust(StateAt(s, turns, k), turns[k]).value.tracker + 1 == |s.tiers[tier].urls|)
  {
    hide StateAt, CountAllowed, AdjustFor, Owed, Flat;
    BothPass();
    var p := StateAt(s, turns, i);
    if CountAllowed(p.tiers, StoppedAllowed) > 0 {
      SomethingIsOwed(p, StoppedAllowed);
      m := TellingEnds(s, turns, i, StoppedAllowed, Stopped);
    } else {
      m := i;
    }
    forall tier | 0 <= tier < |s.tiers| && StoppedAllowed(p.tiers[tier].event)
      ensures exists k :: i <= k < |turns| && Announces(s, turns, k, tier, Stopped) &&
                (turns[k].ok || Adjust(StateAt(s, turns, k), turns[k]).value.tracker + 1 == |s.tiers[tier].urls|)
    {
      SomethingIsOwed(p, StoppedAllowed);
      var k := EventIsTold(s, turns, i, StoppedAllowed, Stopped, tier);
    }
  }

  /**
   * A download that is finished tells every tier that has answered a start before, and then sends no more
   * completed events, after at most as many turns as there are URLs.
   */
  lemma CompletionIsTold(s: State, turns: seq<Turn>, i: nat) returns (m: nat)
    requires Running(s) && i <= |turns| && forall k | i <= k < |turns| :: turns[k].finished && !turns[k].halt
    requires |Flat(StateAt(s, turns, i).tiers)| <= |turns| - i
    ensures i <= m <= |turns| && CountAllowed(StateAt(s, turns, m).tiers, CompletedAllowed) == 0
    ensures forall tier | 0 <= tier < |s.tiers| && CompletedAllowed(StateAt(s, turns, i).tiers[tier].event) ::
              exists k :: i <= k < |turns| && Announces(s, turns, k, tier, Completed) &&
                (turns[k].ok || Adjust(StateAt(s, turns, k), turns[k]).value.tracker + 1 == |s.tiers[tier].urls|)
  {
    hide StateAt, CountAllowed, AdjustFor, Owed, Flat;
    BothPass();
    var p := StateAt(s, turns, i);
    if CountAllowed(p.tiers, CompletedAllowed) > 0 {
      SomethingIsOwed(p, CompletedAllowed);
      m := TellingEnds(s, turns, i, CompletedAllowed, Completed);
    } else {
      m := i;
    }
    forall tier | 0 <= tier < |s.tiers| && CompletedAllowed(p.tiers[tier].event)
      ensures exists k :: i <= k < |turns| && Announces(s, turns, k, tier, Completed) &&
                (turns[k].ok || Adjust(StateAt(s, turns, k), turns[k]).value.tracker + 1 == |s.tiers[tier].urls|)
    {
      SomethingIsOwed(p, CompletedAllowed);
      var k := EventIsTold(s, turns, i, CompletedAllowed, Completed, tier);
    }
  }
}
