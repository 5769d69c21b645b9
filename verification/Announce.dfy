/**
 * The state machine of a multitracker list, BEP 12
 * (libaria2/src/AnnounceList.cc, libaria2/src/AnnounceTier.cc), as a value.
 */
module Announce {

  datatype Event = Started | StartedAfterCompletion | Downloading | Stopped | Completed | Seeding | Halted

  datatype Tier = Tier(event: Event, urls: seq<string>)

  /** `live` says that an URL is selected: number `tracker` of tier number `tier`. */
  datatype State = State(tiers: seq<Tier>, tier: nat, tracker: nat, live: bool)

  // ----- events

  function NextEvent(e: Event): Event {
    match e
    case Started => Downloading
    case StartedAfterCompletion => Seeding
    case Stopped => Halted
    case Completed => Seeding
    case _ => e
  }

  function NextEventIfAfterStarted(e: Event): Event {
    match e
    case Stopped => Halted
    case Completed => Seeding
    case _ => e
  }

  function EventString(e: Event): string {
    match e
    case Started => "started"
    case StartedAfterCompletion => "started"
    case Stopped => "stopped"
    case Completed => "completed"
    case _ => ""
  }

  predicate StoppedAllowed(e: Event) {
    e == Downloading || e == Stopped || e == Completed || e == Seeding
  }

  predicate CompletedAllowed(e: Event) {
    e == Downloading || e == Completed
  }

  /**
   * What the events mean. An answer settles a pending event, a tier that fails keeps only a pending start.
   * A tier can be told of the stop once its start was answered, and until the stop is settled; of the
   * completion only if the start was answered before it, and the completion and the stop are still to come.
   */
  lemma EventsSettle(e: Event)
    ensures EventString(NextEvent(e)) == "" && NextEvent(NextEvent(e)) == NextEvent(e)
    ensures NextEventIfAfterStarted(e) == (if EventString(e) == "started" then e else NextEvent(e))
    ensures EventString(Started) == EventString(StartedAfterCompletion) == "started"
    ensures EventString(Completed) == "completed" && EventString(Stopped) == "stopped"
    ensures StoppedAllowed(e) <==> EventString(e) != "started" && e != Halted
    ensures CompletedAllowed(e) <==> StoppedAllowed(e) && e != Seeding && e != Stopped
    ensures EventString(e) == "started" ==> (CompletedAllowed(NextEvent(e)) <==> e == Started)
    ensures EventString(e) == "started" || e == Completed ==> StoppedAllowed(NextEvent(e))
    ensures !StoppedAllowed(NextEvent(Stopped)) && !CompletedAllowed(NextEvent(Completed))
  {
  }

  // ----- the state

  ghost predicate WellFormed(s: State) {
    (forall i | 0 <= i < |s.tiers| :: s.tiers[i].urls != []) &&
    s.tier <= |s.tiers| &&
    (s.live ==> s.tier < |s.tiers| && s.tracker < |s.tiers[s.tier].urls|)
  }

  function ResetIterator(s: State): State {
    if s.tiers != [] && s.tiers[0].urls != [] then s.(tier := 0, tracker := 0, live := true)
    else s.(tier := 0, live := false)
  }

  function GetAnnounce(s: State): string
    requires WellFormed(s)
  {
    if s.live then s.tiers[s.tier].urls[s.tracker] else ""
  }

  predicate AllTiersFailed(s: State) {
    s.tier == |s.tiers|
  }

  function ToFront(urls: seq<string>, k: nat): seq<string>
    requires k < |urls|
  {
    [urls[k]] + urls[..k] + urls[k + 1..]
  }

  function AnnounceSuccess(s: State): State
    requires WellFormed(s)
  {
    if !s.live then s else
      var t := s.tiers[s.tier];
      s.(tiers := s.tiers[s.tier := Tier(NextEvent(t.event), ToFront(t.urls, s.tracker))], tier := 0, tracker := 0)
  }

  function AnnounceFailure(s: State): State
    requires WellFormed(s)
  {
    if !s.live then s
    else if s.tracker + 1 < |s.tiers[s.tier].urls| then s.(tracker := s.tracker + 1)
    else
      var t := s.tiers[s.tier];
      var tiers := s.tiers[s.tier := t.(event := NextEventIfAfterStarted(t.event))];
      if s.tier + 1 == |s.tiers| then s.(tiers := tiers, tier := s.tier + 1, tracker := s.tracker + 1, live := false)
      else s.(tiers := tiers, tier := s.tier + 1, tracker := 0)
  }

  function SetEvent(s: State, e: Event): State
    requires WellFormed(s)
  {
    if s.live then s.(tiers := s.tiers[s.tier := s.tiers[s.tier].(event := e)]) else s
  }

  /** The first allowed tier from `from` on, or the end. */
  function FindIf(tiers: seq<Tier>, first: nat, last: nat, allowed: Event -> bool): (i: nat)
    requires first <= last <= |tiers|
    ensures first <= i <= last
    ensures forall k | first <= k < i :: !allowed(tiers[k].event)
    ensures i < last ==> allowed(tiers[i].event)
    decreases last - first
  {
    if first == last || allowed(tiers[first].event) then first else FindIf(tiers, first + 1, last, allowed)
  }

  function FindWrapIf(s: State, allowed: Event -> bool): (i: nat)
    requires s.tier <= |s.tiers|
    ensures i <= |s.tiers|
  {
    var i := FindIf(s.tiers, s.tier, |s.tiers|, allowed);
    if i < |s.tiers| then i else FindIf(s.tiers, 0, s.tier, allowed)
  }

  /** The tier found becomes the current one; whether an URL is selected does not change. */
  function MoveToAllowedTier(s: State, allowed: Event -> bool): (r: State)
    requires WellFormed(s)
    ensures WellFormed(r)
  {
    var i := FindWrapIf(s, allowed);
    if i < |s.tiers| then s.(tier := i, tracker := 0) else s
  }

  predicate CurrentTierAccepts(s: State, allowed: Event -> bool)
    requires WellFormed(s)
  {
    s.live && allowed(s.tiers[s.tier].event)
  }

  function CountAllowed(tiers: seq<Tier>, allowed: Event -> bool): (n: nat)
    ensures n <= |tiers|
    ensures n == 0 <==> forall i | 0 <= i < |tiers| :: !allowed(tiers[i].event)
  {
    if tiers == [] then 0
    else CountAllowed(tiers[1..], allowed) + (if allowed(tiers[0].event) then 1 else 0)
  }

  /** Every tier counts once, or not at all. */
  lemma {:induction false} CountOfParts(a: seq<Tier>, b: seq<Tier>, t: Tier, allowed: Event -> bool)
    ensures CountAllowed(a + b, allowed) == CountAllowed(a, allowed) + CountAllowed(b, allowed)
    ensures CountAllowed([t], allowed) == if allowed(t.event) then 1 else 0
    decreases |a|
  {
    if a == [] {
      assert a + b == b;
    } else {
      assert (a + b)[0] == a[0] && (a + b)[1..] == a[1..] + b;
      CountOfParts(a[1..], b, t, allowed);
    }
  }
}
