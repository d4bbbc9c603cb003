/** A price feed read from a JSON file on every call. Freshness is judged by the
    file's modification time, so an unchanged old file reads as expired even when
    reading it succeeds. */
module FileFeed {
  import opened Values
  import opened Staleness

  datatype State = State(filename: string, expiry: int, slot: Slot)

  /** A new feed holds no price, stamped 0 and marked expired, so the first fresh read
      announces that the price became available. */
  function Init(filename: string, expiry: int): (s: State)
    ensures s.filename == filename && s.expiry == expiry
    ensures s.slot.price == None && s.slot.timestamp == 0 && s.slot.expired
    ensures forall p, mtime, now :: !IsStale(mtime, expiry, now) ==>
              GetPrice(s, Loaded(p, mtime), now) == Read(Some(p), State(filename, expiry, Slot(Some(p), mtime, false)),
                                                        [PriceUpdated(p), BecameAvailable])
  {
    State(filename, expiry, Empty)
  }

  /** What one attempt to read the price file found. The file system and the JSON and
      number decoding are outside the model; only their outcome is an input. */
  datatype FileRead =
    | Missing                        // the path is not a regular file
    | Loaded(price: Wad, mtime: int) // the price decoded and the modification time was read
    | VanishedBeforeStat(price: Wad) // the price decoded, then reading the modification time raised
    | Unreadable                     // opening, decoding or converting the file raised

  /** One read of the file. A missing file clears the price and resets the timestamp to 0;
      a loaded file stamps its price with the file's modification time; an exception
      leaves whatever had already been assigned. The expired flag is the reader's business. */
  function ReadPrice(s: State, outcome: FileRead): (r: Step<State>)
    ensures r.state.filename == s.filename && r.state.expiry == s.expiry
    ensures r.state.slot.expired == s.slot.expired
    ensures outcome.Missing? ==> r.state.slot.price == None && r.state.slot.timestamp == 0 && r.log == []
    ensures outcome.Loaded? ==>
              && r.state.slot.price == Some(outcome.price)
              && r.state.slot.timestamp == outcome.mtime
              && (r.log == [PriceUpdated(outcome.price)] <==> s.slot.price != Some(outcome.price))
    ensures outcome.VanishedBeforeStat? ==>
              r.state.slot.price == Some(outcome.price) && r.state.slot.timestamp == s.slot.timestamp
    ensures outcome.Loaded? || outcome.VanishedBeforeStat? ==> r.log == Updated(s.slot.price, outcome.price)
    ensures outcome.Unreadable? ==> r.state == s && r.log == []
    ensures Availability(r.log) == []
  {
    match outcome
    case Missing => Step(s.(slot := s.slot.(price := None, timestamp := 0)), [])
    case Loaded(p, mtime) =>
      Step(s.(slot := s.slot.(price := Some(p), timestamp := mtime)), Updated(s.slot.price, p))
    case VanishedBeforeStat(p) => Step(s.(slot := s.slot.(price := Some(p))), Updated(s.slot.price, p))
    case Unreadable => Step(s, [])
  }

  /** The info line logged when a read price differs from the stored one. */
  function Updated(previous: Option<Wad>, p: Wad): (log: seq<Notice>)
    ensures log == [] || log == [PriceUpdated(p)]
    ensures log == [PriceUpdated(p)] <==> previous != Some(p)
  {
    if previous.None? || previous.value != p then [PriceUpdated(p)] else []
  }

  /** The file feed's staleness check: like the shared one, except that a fresh slot
      clears the expired flag itself and announces it. */
  function Judge(slot: Slot, expiry: int, now: int): (r: Read<Slot>)
    ensures r.state.price == slot.price && r.state.timestamp == slot.timestamp
    ensures r.state.expired == IsStale(slot.timestamp, expiry, now)
    ensures r.price == (if IsStale(slot.timestamp, expiry, now) then None else slot.price)
    ensures r.log == Announcement(slot.expired, r.state.expired)
    ensures Consistent(slot.expired, r.log, r.state.expired)
  {
    if IsStale(slot.timestamp, expiry, now) then
      Read(None, slot.(expired := true), if slot.expired then [] else [HasExpired])
    else
      Read(slot.price, slot.(expired := false), if slot.expired then [BecameAvailable] else [])
  }

  /** get_price: read the file first, then judge the (possibly new) timestamp. */
  function GetPrice(s: State, outcome: FileRead, now: int): (r: Read<State>)
    ensures r.state.filename == s.filename && r.state.expiry == s.expiry
    ensures var read := ReadPrice(s, outcome).state.slot;
            && r.state.slot.price == read.price
            && r.state.slot.timestamp == read.timestamp
            && r.state.slot.expired == IsStale(read.timestamp, s.expiry, now)
            && r.price == (if IsStale(read.timestamp, s.expiry, now) then None else read.price)
    ensures outcome.Missing? ==> r.price == None
    ensures outcome.Loaded? ==>
              r.price == (if now - outcome.mtime > s.expiry then None else Some(outcome.price))
    ensures r.log == ReadPrice(s, outcome).log + Announcement(s.slot.expired, r.state.slot.expired)
    ensures Availability(r.log) == Announcement(s.slot.expired, r.state.slot.expired)
    ensures Consistent(s.slot.expired, r.log, r.state.slot.expired)
  {
    var read := ReadPrice(s, outcome);
    var judged := Judge(read.state.slot, s.expiry, now);
    AvailabilityAppend(read.log, judged.log);
    Read(judged.price, read.state.(slot := judged.state), read.log + judged.log)
  }

  /** One call of get_price: the time of the call and what the file read found. */
  datatype Call = Call(now: int, file: FileRead)

  function Apply(s: State, c: Call): (t: Trace<State>)
    ensures t.state.filename == s.filename && t.state.expiry == s.expiry
    ensures Consistent(s.slot.expired, t.log, t.state.slot.expired)
  {
    var read := GetPrice(s, c.file, c.now);
    Trace(read.state, read.log, [read.price])
  }

  /** A sequence of get_price calls, in order. */
  function Run(s: State, calls: seq<Call>): Trace<State> {
    Replay(Apply, s, calls)
  }

  function Expired(s: State): bool {
    s.slot.expired
  }

  /** Over any run the availability notices alternate, and the final flag is the initial
      one flipped once per notice: "has expired" is never logged twice without "became available" in between. */
  lemma RunAlternates(s: State, calls: seq<Call>)
    ensures Consistent(s.slot.expired, Run(s, calls).log, Run(s, calls).state.slot.expired)
  {
    ReplayConsistent(Apply, Expired, s, calls);
  }

  /** Reading an old file again and again reports no price and warns at most once. */
  lemma {:induction false} StaleFileWarnsOnce(s: State, calls: seq<Call>)
    requires forall i :: 0 <= i < |calls| ==>
               calls[i].file.Loaded? && IsStale(calls[i].file.mtime, s.expiry, calls[i].now)
    ensures forall i :: 0 <= i < |Run(s, calls).reported| ==> Run(s, calls).reported[i] == None
    ensures BecameAvailable !in Availability(Run(s, calls).log)
    ensures |Availability(Run(s, calls).log)| <= 1
    decreases |calls|
  {
    NoAnnouncementWhenStale(s, calls);
    RunAlternates(s, calls);
    AtMostOneExpiry(Availability(Run(s, calls).log), s.slot.expired);
  }

  lemma {:induction false} NoAnnouncementWhenStale(s: State, calls: seq<Call>)
    requires forall i :: 0 <= i < |calls| ==>
               calls[i].file.Loaded? && IsStale(calls[i].file.mtime, s.expiry, calls[i].now)
    ensures forall i :: 0 <= i < |Run(s, calls).reported| ==> Run(s, calls).reported[i] == None
    ensures BecameAvailable !in Availability(Run(s, calls).log)
    decreases |calls|
  {
    if calls != [] {
      var first := Apply(s, calls[0]);
      var rest := Run(first.state, calls[1..]);
      NoAnnouncementWhenStale(first.state, calls[1..]);
      AvailabilityAppend(first.log, rest.log);
      var reported := first.reported + rest.reported;
      assert Run(s, calls).reported == reported;
      forall i | 0 <= i < |reported|
        ensures reported[i] == None
      {
        if i >= |first.reported| {
          assert reported[i] == rest.reported[i - |first.reported|];
        }
      }
      assert BecameAvailable !in Availability(first.log) by {
        var read := ReadPrice(s, calls[0].file);
        AvailabilityAppend(read.log, Judge(read.state.slot, s.expiry, calls[0].now).log);
      }
    }
  }
}
