/** A price feed polled from the Bibox exchange ticker: the mid-point of the best
    bid and ask, fetched by a background loop. */
module BiboxFeed {
  import opened Values
  import opened Staleness

  datatype State = State(pair: string, expiry: int, slot: Slot)

  /** A freshly constructed feed has no price, so it reports none at any time. */
  function Init(pair: string, expiry: int): (s: State)
    ensures s.pair == pair && s.expiry == expiry && s.slot.expired
    ensures forall now :: GetPrice(s, now).price == None
  {
    State(pair, expiry, Empty)
  }

  /** The outcome of one ticker request: the mid price already averaged and converted
      (the exchange client and the float arithmetic are outside the model), or a failure. */
  datatype Ticker = Mid(price: Wad) | Failed

  /** One pass of the background loop. Success publishes the mid price stamped with `now`
      and clears the expired flag; failure warns every time and changes nothing. */
  function Poll(s: State, outcome: Ticker, now: int): (r: Step<State>)
    ensures r.state.pair == s.pair && r.state.expiry == s.expiry
    ensures outcome.Mid? ==>
              && !r.state.slot.expired
              && (forall t :: t - now <= s.expiry ==> GetPrice(r.state, t).price == Some(outcome.price))
              && (forall t :: t - now > s.expiry ==> GetPrice(r.state, t).price == None)
              && r.log == Announcement(s.slot.expired, false)
    ensures outcome.Failed? ==> r.state == s && r.log == [FetchFailed]
    ensures Consistent(s.slot.expired, r.log, r.state.slot.expired)
  {
    match outcome
    case Mid(p) =>
      var published := Publish(s.slot, p, now);
      Step(s.(slot := published.state), published.log)
    case Failed => Step(s, [FetchFailed])
  }

  /** get_price: the shared staleness check on the last successful poll. */
  function GetPrice(s: State, now: int): (r: Read<State>)
    ensures r.state.pair == s.pair && r.state.expiry == s.expiry
    ensures r.state.slot.price == s.slot.price && r.state.slot.timestamp == s.slot.timestamp
    ensures r.state.slot.expired == (s.slot.expired || IsStale(s.slot.timestamp, s.expiry, now))
    ensures r.price.Some? <==> !IsStale(s.slot.timestamp, s.expiry, now) && s.slot.price.Some?
    ensures r.price.Some? ==> r.price == s.slot.price
    ensures BecameAvailable !in r.log
    ensures r.log == Announcement(s.slot.expired, r.state.slot.expired)
    ensures Consistent(s.slot.expired, r.log, r.state.slot.expired)
  {
    var checked := Check(s.slot, s.expiry, now);
    Read(checked.price, s.(slot := checked.state), checked.log)
  }

  /** What happens to a feed: a background poll, or a reader's call. */
  datatype Event = Tick(now: int, outcome: Ticker) | Get(now: int)

  function Apply(s: State, e: Event): (t: Trace<State>)
    ensures t.state.pair == s.pair && t.state.expiry == s.expiry
    ensures Consistent(s.slot.expired, t.log, t.state.slot.expired)
  {
    match e
    case Tick(now, outcome) =>
      var step := Poll(s, outcome, now);
      Trace(step.state, step.log, [])
    case Get(now) =>
      var read := GetPrice(s, now);
      Trace(read.state, read.log, [read.price])
  }

  /** A sequence of events, in order. */
  function Run(s: State, events: seq<Event>): Trace<State> {
    Replay(Apply, s, events)
  }

  function Expired(s: State): bool {
    s.slot.expired
  }

  /** Over any run the availability notices alternate, and the final flag is the initial one flipped once per notice. */
  lemma RunAlternates(s: State, events: seq<Event>)
    ensures Consistent(s.slot.expired, Run(s, events).log, Run(s, events).state.slot.expired)
  {
    ReplayConsistent(Apply, Expired, s, events);
  }

  /** Readers alone never clear the flag, so repeated stale reads warn at most once. */
  lemma ReadsWarnOnce(s: State, events: seq<Event>)
    requires forall i :: 0 <= i < |events| ==> events[i].Get?
    ensures |Availability(Run(s, events).log)| <= 1
    ensures s.slot.expired ==> Availability(Run(s, events).log) == []
  {
    ReplayWarnsOnce(Apply, Expired, (e: Event) => e.Get?, s, events);
  }

  /** Failed polls change nothing and each logs one warning: there is no failure
      threshold here, unlike the Setzer feed. */
  lemma {:induction false} FailuresKeepState(s: State, events: seq<Event>)
    requires forall i :: 0 <= i < |events| ==> events[i].Tick? && events[i].outcome.Failed?
    ensures Run(s, events).state == s
    ensures |Run(s, events).log| == |events|
    ensures forall i :: 0 <= i < |events| ==> Run(s, events).log[i] == FetchFailed
    decreases |events|
  {
    if events != [] {
      FailuresKeepState(s, events[1..]);
    }
  }
}
