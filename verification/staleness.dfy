/** The staleness state machine every time-based feed runs: a slot holding the last
    price and its timestamp, an `expired` flag, and the info/warning lines logged
    when that flag flips. */
module Staleness {
  import opened Values

  /** Log lines a feed emits at info or warning level (debug lines are not modelled). */
  datatype Notice =
    | HasExpired                  // warning: the feed's price has expired
    | BecameAvailable             // info: the feed's price became available
    | PriceUpdated(price: Wad)    // info: the file feed read a new price
    | FetchFailing(attempts: nat) // warning: Setzer failed more than WarnAfter times in a row
    | FetchFailed                 // warning: a Bibox ticker fetch failed
    | UnknownMessage              // warning: a GDAX message of an unknown type
    | InvalidMessage              // warning: a GDAX message that could not be processed

  /** The mutable part of a time-based feed: last price, the time it was observed,
      and whether the last reader saw it expired. */
  datatype Slot = Slot(price: Option<Wad>, timestamp: int, expired: bool)

  /** The slot every time-based feed starts with: no price, timestamp 0, expired. */
  const Empty := Slot(None, 0, true)

  /** A price observed at `timestamp` is stale at `now` when it is strictly older than `expiry`. */
  predicate IsStale(timestamp: int, expiry: int, now: int) {
    now - timestamp > expiry
  }

  /** The effect of one writer event on a feed state. */
  datatype Step<S> = Step(state: S, log: seq<Notice>)

  /** The effect of one reader call: the price returned, the new state and the log. */
  datatype Read<S> = Read(price: Option<Wad>, state: S, log: seq<Notice>)

  /** The effect of a sequence of events: the final state, everything logged,
      and the prices returned by the reader calls, in order. */
  datatype Trace<S> = Trace(state: S, log: seq<Notice>, reported: seq<Option<Wad>>)

  /** The availability notices of a log, in order. */
  function Availability(log: seq<Notice>): (a: seq<Notice>)
    ensures |a| <= |log|
    ensures forall i :: 0 <= i < |a| ==> a[i].HasExpired? || a[i].BecameAvailable?
    ensures forall n :: n in log && (n.HasExpired? || n.BecameAvailable?) ==> n in a
  {
    if log == [] then []
    else if log[0].HasExpired? || log[0].BecameAvailable? then [log[0]] + Availability(log[1..])
    else Availability(log[1..])
  }

  /** The expired flag after it has been flipped `n` times starting from `expired`. */
  function Flipped(expired: bool, n: nat): bool {
    if n % 2 == 0 then expired else !expired
  }

  /** The availability notice that may stand at position `i` of a log whose feed started
      with the flag `expired`: an expired feed can only become available, and vice versa. */
  function Expected(expired: bool, i: nat): Notice {
    if Flipped(expired, i) then BecameAvailable else HasExpired
  }

  /** Availability notices alternate, starting from the flag `expired`. */
  predicate Alternates(a: seq<Notice>, expired: bool) {
    forall i :: 0 <= i < |a| ==> a[i] == Expected(expired, i)
  }

  /** A log is consistent with a flag going from `before` to `after` when its availability
      notices alternate starting from `before` and `after` is `before` flipped once per notice.
      This is what the per-step Announcement adds up to over a run. */
  predicate Consistent(before: bool, log: seq<Notice>, after: bool) {
    var a := Availability(log);
    Alternates(a, before) && after == Flipped(before, |a|)
  }

  /** The availability notice a step logs when the flag goes from `before` to `after`:
      "has expired" when it is raised, "became available" when it is lowered, and
      nothing when it keeps its value. */
  function Announcement(before: bool, after: bool): (a: seq<Notice>)
    ensures |a| <= 1
    ensures a == [] <==> before == after
    ensures Availability(a) == a
    ensures Consistent(before, a, after)
  {
    if before == after then [] else if after then [HasExpired] else [BecameAvailable]
  }

  /** The shared reader of the Setzer, GDAX and Bibox feeds: a stale slot yields no price
      and warns once on the transition to expired; a fresh slot yields its price and is
      left as it is (only the writer clears the flag). */
  function Check(slot: Slot, expiry: int, now: int): (r: Read<Slot>)
    ensures IsStale(slot.timestamp, expiry, now) ==>
              && r.price == None
              && r.state == slot.(expired := true)
              && (HasExpired in r.log <==> !slot.expired)
    ensures !IsStale(slot.timestamp, expiry, now) ==> r.price == slot.price && r.state == slot && r.log == []
    ensures BecameAvailable !in r.log
    ensures r.log == Announcement(slot.expired, r.state.expired)
    ensures Consistent(slot.expired, r.log, r.state.expired)
  {
    if IsStale(slot.timestamp, expiry, now) then
      Read(None, slot.(expired := true), if slot.expired then [] else [HasExpired])
    else
      Read(slot.price, slot, [])
  }

  /** A successful fetch: the price observed at `now` replaces the slot and the feed
      becomes available, announcing it only if it was expired. */
  function Publish(slot: Slot, price: Wad, now: int): (r: Step<Slot>)
    ensures r.state == Slot(Some(price), now, false)
    ensures (BecameAvailable in r.log) == slot.expired
    ensures HasExpired !in r.log
    ensures r.log == Announcement(slot.expired, r.state.expired)
    ensures Consistent(slot.expired, r.log, r.state.expired)
    ensures forall expiry, t :: t - now <= expiry ==> Check(r.state, expiry, t).price == Some(price)
  {
    Step(Slot(Some(price), now, false), if slot.expired then [BecameAvailable] else [])
  }

  /** A keep-alive: the timestamp moves to `now`; price and flag stay. */
  function Touch(slot: Slot, now: int): (r: Step<Slot>)
    ensures r.state.price == slot.price && r.state.expired == slot.expired && r.state.timestamp == now
    ensures r.log == []
    ensures forall expiry, t :: t - now <= expiry ==> Check(r.state, expiry, t) == Read(slot.price, r.state, [])
  {
    Step(slot.(timestamp := now), [])
  }

  lemma {:induction false} AvailabilityAppend(a: seq<Notice>, b: seq<Notice>)
    ensures Availability(a + b) == Availability(a) + Availability(b)
  {
    if a == [] {
      assert a + b == b;
    } else {
      assert (a + b)[1..] == a[1..] + b;
      AvailabilityAppend(a[1..], b);
    }
  }

  lemma FlippedAdd(expired: bool, m: nat, n: nat)
    ensures Flipped(Flipped(expired, m), n) == Flipped(expired, m + n)
  {
  }

  /** Consistency composes: two consistent logs in a row form one consistent log.
      This is what lets a property of single steps extend to whole runs. */
  lemma {:induction false} ConsistentChain(e0: bool, log1: seq<Notice>, e1: bool, log2: seq<Notice>, e2: bool)
    requires Consistent(e0, log1, e1)
    requires Consistent(e1, log2, e2)
    ensures Consistent(e0, log1 + log2, e2)
  {
    AvailabilityAppend(log1, log2);
    var a1, a2 := Availability(log1), Availability(log2);
    var a := a1 + a2;
    forall i | 0 <= i < |a|
      ensures a[i] == Expected(e0, i)
    {
      if i >= |a1| {
        FlippedAdd(e0, |a1|, i - |a1|);
        assert a[i] == a2[i - |a1|];
      }
    }
    FlippedAdd(e0, |a1|, |a2|);
  }

  /** Without a BecameAvailable notice, an alternating log holds at most one HasExpired,
      and none at all when the feed was already expired. */
  lemma AtMostOneExpiry(a: seq<Notice>, expired: bool)
    requires Alternates(a, expired)
    requires BecameAvailable !in a
    ensures |a| <= 1
    ensures expired ==> |a| == 0
  {
    assert |a| >= 1 ==> a[0] == Expected(expired, 0);
    assert |a| >= 2 ==> a[1] == Expected(expired, 1);
  }

  /** Plays `events` in order through the step function `apply` of one kind of feed,
      collecting everything logged and every price reported. */
  function Replay<S, E>(apply: (S, E) -> Trace<S>, s: S, events: seq<E>): (t: Trace<S>)
    decreases |events|
  {
    if events == [] then Trace(s, [], [])
    else
      var first := apply(s, events[0]);
      var rest := Replay(apply, first.state, events[1..]);
      Trace(rest.state, first.log + rest.log, first.reported + rest.reported)
  }

  /** Every single step of `apply` keeps the log consistent with the flag `expired` reads. */
  ghost predicate StepsConsistent<S(!new), E(!new)>(apply: (S, E) -> Trace<S>, expired: S -> bool) {
    forall s, e :: Consistent(expired(s), apply(s, e).log, expired(apply(s, e).state))
  }

  /** If every step keeps the log consistent with the flag, so does every run. */
  lemma {:induction false} ReplayConsistent<S(!new), E(!new)>(apply: (S, E) -> Trace<S>, expired: S -> bool, s: S, events: seq<E>)
    requires StepsConsistent(apply, expired)
    ensures Consistent(expired(s), Replay(apply, s, events).log, expired(Replay(apply, s, events).state))
    decreases |events|
  {
    if events != [] {
      var first := apply(s, events[0]);
      var rest := Replay(apply, first.state, events[1..]);
      ReplayConsistent(apply, expired, first.state, events[1..]);
      ConsistentChain(expired(s), first.log, expired(first.state), rest.log, expired(rest.state));
    }
  }

  /** If the events of a run are all of a kind that never announces availability,
      the run never does either. */
  lemma {:induction false} ReplayNeverAnnounces<S(!new), E(!new)>(apply: (S, E) -> Trace<S>, quiet: E -> bool, s: S, events: seq<E>)
    requires forall s', e :: quiet(e) ==> BecameAvailable !in Availability(apply(s', e).log)
    requires forall i :: 0 <= i < |events| ==> quiet(events[i])
    ensures BecameAvailable !in Availability(Replay(apply, s, events).log)
    decreases |events|
  {
    if events != [] {
      var first := apply(s, events[0]);
      var rest := Replay(apply, first.state, events[1..]);
      ReplayNeverAnnounces(apply, quiet, first.state, events[1..]);
      AvailabilityAppend(first.log, rest.log);
    }
  }

  /** A run of events that never announce availability warns at most once that the feed
      has expired, and not at all if it was expired to begin with. */
  lemma ReplayWarnsOnce<S(!new), E(!new)>(apply: (S, E) -> Trace<S>, expired: S -> bool, quiet: E -> bool, s: S, events: seq<E>)
    requires StepsConsistent(apply, expired)
    requires forall s', e :: quiet(e) ==> BecameAvailable !in Availability(apply(s', e).log)
    requires forall i :: 0 <= i < |events| ==> quiet(events[i])
    ensures |Availability(Replay(apply, s, events).log)| <= 1
    ensures expired(s) ==> Availability(Replay(apply, s, events).log) == []
  {
    var log := Replay(apply, s, events).log;
    ReplayConsistent(apply, expired, s, events);
    ReplayNeverAnnounces(apply, quiet, s, events);
    AtMostOneExpiry(Availability(log), expired(s));
  }
}
