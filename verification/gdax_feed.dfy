/** A price feed streamed from the GDAX websocket. Ticker messages carry prices;
    heartbeat messages only keep the feed from looking stale while the price is stable. */
module GdaxFeed {
  import opened Values
  import opened Staleness

  /** The channel types the dispatcher recognises, as they appear in a message's `type`. */
  const Subscriptions := "subscriptions"
  const TickerType := "ticker"
  const HeartbeatType := "heartbeat"

  datatype State = State(wsUrl: string, productId: string, expiry: int, slot: Slot)

  /** A freshly constructed feed has no price, so it reports none at any time. */
  function Init(wsUrl: string, productId: string, expiry: int): (s: State)
    ensures s.wsUrl == wsUrl && s.productId == productId && s.expiry == expiry && s.slot.expired
    ensures forall now :: GetPrice(s, now).price == None
  {
    State(wsUrl, productId, expiry, Empty)
  }

  /** The `price` field of a message, after decimal conversion (which is outside the model). */
  datatype PriceField = NoPrice | BadPrice | Price(value: Wad)

  /** An inbound frame after JSON decoding (which is outside the model). */
  datatype Inbound =
    | Garbled                                    // not JSON, not an object, or no `type` key
    | Typed(kind: string, price: PriceField)     // an object with a `type` and maybe a `price`

  /** A ticker message that carries a usable price. */
  predicate IsPriceTick(m: Inbound) {
    m.Typed? && m.kind == TickerType && m.price.Price?
  }

  /** Dispatch on the message type, received at time `now`. A ticker with a price publishes
      it; a heartbeat refreshes only the timestamp; a subscription acknowledgement does
      nothing; an unknown type or a message that fails to decode or convert is logged
      and leaves the state exactly as it was. */
  function OnMessage(s: State, m: Inbound, now: int): (r: Step<State>)
    ensures r.state.wsUrl == s.wsUrl && r.state.productId == s.productId && r.state.expiry == s.expiry
    ensures IsPriceTick(m) ==>
              && !r.state.slot.expired
              && (forall t :: t - now <= s.expiry ==> GetPrice(r.state, t).price == Some(m.price.value))
              && (forall t :: t - now > s.expiry ==> GetPrice(r.state, t).price == None)
              && r.log == Announcement(s.slot.expired, false)
    ensures m.Typed? && m.kind == HeartbeatType ==>
              && r.state.slot == s.slot.(timestamp := now)
              && r.log == []
              && (forall t :: t - now <= s.expiry ==> GetPrice(r.state, t) == Read(s.slot.price, r.state, []))
    ensures !IsPriceTick(m) && !(m.Typed? && m.kind == HeartbeatType) ==> r.state == s
    ensures m.Garbled? || (m.kind == TickerType && !m.price.Price?) ==> r.log == [InvalidMessage]
    ensures m.Typed? && m.kind == Subscriptions ==> r.log == []
    ensures m.Typed? && m.kind !in {Subscriptions, TickerType, HeartbeatType} ==> r.log == [UnknownMessage]
    ensures Consistent(s.slot.expired, r.log, r.state.slot.expired)
  {
    match m
    case Garbled => Step(s, [InvalidMessage])
    case Typed(kind, price) =>
      if kind == Subscriptions then Step(s, [])
      else if kind == TickerType then
        match price
        case Price(p) =>
          var published := Publish(s.slot, p, now);
          Step(s.(slot := published.state), published.log)
        case _ => Step(s, [InvalidMessage])
      else if kind == HeartbeatType then
        var touched := Touch(s.slot, now);
        Step(s.(slot := touched.state), touched.log)
      else Step(s, [UnknownMessage])
  }

  /** get_price: the shared staleness check on the last ticker or heartbeat. */
  function GetPrice(s: State, now: int): (r: Read<State>)
    ensures r.state.wsUrl == s.wsUrl && r.state.productId == s.productId && r.state.expiry == s.expiry
    ensures r.state.slot.price == s.slot.price && r.state.slot.timestamp == s.slot.timestamp
    ensures r.state.slot.expired == (s.slot.expired || IsStale(s.slot.timestamp, s.expiry, now))
    ensures r.price.Some? <==> !IsStale(s.slot.timestamp, s.expiry, now) && s.slot.price.Some?
    ensures r.price.Some? ==> r.price == s.slot.price
    ensures BecameAvailable !in r.log
    ensures r.log == Announcement(s.slot.expired, r.state.slot.expired)
    ensures Consistent(s.slot.expired, r.log, r.state.slot.expired)
  {
    var checked := Check(s.slot, s.expiry, now);
    Read(checked.price, s.(slot := checked.state), checked.log)
  }

  /** What happens to a feed: an inbound message, or a reader's call. */
  datatype Event = Receive(now: int, message: Inbound) | Get(now: int)

  function Apply(s: State, e: Event): (t: Trace<State>)
    ensures t.state.wsUrl == s.wsUrl && t.state.productId == s.productId && t.state.expiry == s.expiry
    ensures Consistent(s.slot.expired, t.log, t.state.slot.expired)
  {
    match e
    case Receive(now, m) =>
      var step := OnMessage(s, m, now);
      Trace(step.state, step.log, [])
    case Get(now) =>
      var read := GetPrice(s, now);
      Trace(read.state, read.log, [read.price])
  }

  /** A sequence of events, in order. */
  function Run(s: State, events: seq<Event>): Trace<State> {
    Replay(Apply, s, events)
  }

  function Expired(s: State): bool {
    s.slot.expired
  }

  /** Over any run the availability notices alternate, and the final flag is the initial one flipped once per notice. */
  lemma RunAlternates(s: State, events: seq<Event>)
    ensures Consistent(s.slot.expired, Run(s, events).log, Run(s, events).state.slot.expired)
  {
    ReplayConsistent(Apply, Expired, s, events);
  }

  /** Readers alone never clear the flag, so repeated stale reads warn at most once. */
  lemma {:induction false} ReadsWarnOnce(s: State, events: seq<Event>)
    requires forall i :: 0 <= i < |events| ==> events[i].Get?
    ensures |Availability(Run(s, events).log)| <= 1
    ensures s.slot.expired ==> Availability(Run(s, events).log) == []
  {
    ReplayWarnsOnce(Apply, Expired, (e: Event) => e.Get?, s, events);
  }

  /** Without a ticker that carries a price, a feed that has no price never gets one:
      heartbeats may keep it fresh, yet every read reports no price. */
  lemma {:induction false} NoTickNoPrice(s: State, events: seq<Event>)
    requires s.slot.price.None?
    requires forall i :: 0 <= i < |events| ==> !(events[i].Receive? && IsPriceTick(events[i].message))
    ensures Run(s, events).state.slot.price.None?
    ensures forall i :: 0 <= i < |Run(s, events).reported| ==> Run(s, events).reported[i].None?
    decreases |events|
  {
    if events != [] {
      var first := Apply(s, events[0]);
      var rest := Run(first.state, events[1..]);
      NoTickNoPrice(first.state, events[1..]);
      var reported := first.reported + rest.reported;
      assert Run(s, events).reported == reported;
      forall i | 0 <= i < |reported|
        ensures reported[i].None?
      {
        if i >= |first.reported| {
          assert reported[i] == rest.reported[i - |first.reported|];
        }
      }
    }
  }
}
