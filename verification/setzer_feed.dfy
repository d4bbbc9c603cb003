/** A price feed polled from the `setzer` price-lookup utility. A background loop
    fetches every few seconds; readers judge the last fetch's age. */
module SetzerFeed {
  import opened Values
  import opened Staleness

  /** Consecutive failures tolerated before each further failure is logged as a warning. */
  const WarnAfter: nat := 10

  datatype State = State(source: string, expiry: int, slot: Slot, retries: nat)

  /** A freshly constructed feed has no price, so it reports none at any time. */
  function Init(source: string, expiry: int): (s: State)
    ensures s.source == source && s.expiry == expiry && s.retries == 0 && s.slot.expired
    ensures forall now :: GetPrice(s, now).price == None
  {
    State(source, expiry, Empty, 0)
  }

  /** The outcome of one call to the utility, which is outside the model. */
  datatype Fetch = Fetched(price: Wad) | Failed

  /** One fetch. Success publishes the price stamped with `now`, resets the failure
      count and clears the expired flag; failure counts one more retry, changes
      nothing else, and warns only once more than WarnAfter failures are in a row. */
  function FetchPrice(s: State, outcome: Fetch, now: int): (r: Step<State>)
    ensures r.state.source == s.source && r.state.expiry == s.expiry
    ensures outcome.Fetched? ==>
              && r.state.retries == 0
              && (forall t :: t - now <= s.expiry ==> GetPrice(r.state, t).price == Some(outcome.price))
              && (forall t :: t - now > s.expiry ==> GetPrice(r.state, t).price == None)
              && !r.state.slot.expired
              && r.log == Announcement(s.slot.expired, false)
    ensures outcome.Failed? ==>
              && r.state.slot == s.slot
              && r.state.retries == s.retries + 1
              && (r.log != [] <==> s.retries >= WarnAfter)
              && (r.log != [] ==> r.log == [FetchFailing(r.state.retries)])
    ensures Consistent(s.slot.expired, r.log, r.state.slot.expired)
  {
    match outcome
    case Fetched(p) =>
      var published := Publish(s.slot, p, now);
      Step(s.(slot := published.state, retries := 0), published.log)
    case Failed =>
      var retries := s.retries + 1;
      Step(s.(retries := retries), if retries > WarnAfter then [FetchFailing(retries)] else [])
  }

  /** get_price: the shared staleness check on the last fetch. */
  function GetPrice(s: State, now: int): (r: Read<State>)
    ensures r.state.source == s.source && r.state.expiry == s.expiry && r.state.retries == s.retries
    ensures r.state.slot.price == s.slot.price && r.state.slot.timestamp == s.slot.timestamp
    ensures r.state.slot.expired == (s.slot.expired || IsStale(s.slot.timestamp, s.expiry, now))
    ensures r.price.Some? <==> !IsStale(s.slot.timestamp, s.expiry, now) && s.slot.price.Some?
    ensures r.price.Some? ==> r.price == s.slot.price
    ensures BecameAvailable !in r.log
    ensures r.log == Announcement(s.slot.expired, r.state.slot.expired)
    ensures Consistent(s.slot.expired, r.log, r.state.slot.expired)
  {
    var checked := Check(s.slot, s.expiry, now);
    Read(checked.price, s.(slot := checked.state), checked.log)
  }

  /** What happens to a feed: a background fetch, or a reader's call. */
  datatype Event = Poll(now: int, outcome: Fetch) | Get(now: int)

  function Apply(s: State, e: Event): (t: Trace<State>)
    ensures t.state.source == s.source && t.state.expiry == s.expiry
    ensures Consistent(s.slot.expired, t.log, t.state.slot.expired)
  {
    match e
    case Poll(now, outcome) =>
      var step := FetchPrice(s, outcome, now);
      Trace(step.state, step.log, [])
    case Get(now) =>
      var read := GetPrice(s, now);
      Trace(read.state, read.log, [read.price])
  }

  /** A sequence of events, in order. */
  function Run(s: State, events: seq<Event>): Trace<State> {
    Replay(Apply, s, events)
  }

  function Expired(s: State): bool {
    s.slot.expired
  }

  /** Over any run the availability notices alternate, and the final flag is the initial one flipped once per notice. */
  lemma RunAlternates(s: State, events: seq<Event>)
    ensures Consistent(s.slot.expired, Run(s, events).log, Run(s, events).state.slot.expired)
  {
    ReplayConsistent(Apply, Expired, s, events);
  }

  /** Readers alone never clear the flag, so repeated stale reads warn at most once,
      and not at all if the feed was already expired. */
  lemma {:induction false} ReadsWarnOnce(s: State, events: seq<Event>)
    requires forall i :: 0 <= i < |events| ==> events[i].Get?
    ensures |Availability(Run(s, events).log)| <= 1
    ensures s.slot.expired ==> Availability(Run(s, events).log) == []
  {
    ReplayWarnsOnce(Apply, Expired, (e: Event) => e.Get?, s, events);
  }

  /** The number of failure warnings logged by `n` failed fetches in a row, starting
      with `retries` failures already counted. */
  function FailureWarnings(retries: nat, n: nat): nat {
    if retries >= WarnAfter then n
    else if retries + n <= WarnAfter then 0
    else retries + n - WarnAfter
  }

  /** A run of failed fetches leaves the price alone, counts every failure, and warns
      once per failure beyond the WarnAfter-th, each warning naming its attempt number. */
  lemma {:induction false} FailuresCountUp(s: State, events: seq<Event>)
    requires forall i :: 0 <= i < |events| ==> events[i].Poll? && events[i].outcome.Failed?
    ensures Run(s, events).state.slot == s.slot
    ensures Run(s, events).state.retries == s.retries + |events|
    ensures |Run(s, events).log| == FailureWarnings(s.retries, |events|)
    ensures forall i :: 0 <= i < |Run(s, events).log| ==>
              Run(s, events).log[i] == FetchFailing(s.retries + |events| - |Run(s, events).log| + i + 1)
    decreases |events|
  {
    if events != [] {
      var first := Apply(s, events[0]);
      var rest := Run(first.state, events[1..]);
      FailuresCountUp(first.state, events[1..]);
      var log := first.log + rest.log;
      assert Run(s, events).log == log;
      forall i | 0 <= i < |log|
        ensures log[i] == FetchFailing(s.retries + |events| - |log| + i + 1)
      {
        if i >= |first.log| {
          assert log[i] == rest.log[i - |first.log|];
        }
      }
    }
  }
}
