# Reference-price feeds of the market-maker keeper

This project models the reference-price layer of the keeper (`market_maker_keeper/price.py`).
Several interchangeable price feeds sit behind one accessor, `get_price()`, which returns a
Wad or nothing. Each time-based feed keeps the same small state machine:

- a slot with the last price, the time it was observed and an `expired` flag;
- writer events that update the slot: a file read, a Setzer fetch, a GDAX websocket message,
  or a Bibox ticker poll;
- a reader that compares `now - timestamp` with the expiry and flips the flag.

Around the feeds sit three more pieces. The fixed feed returns a constant. The target-price
wrapper divides another feed's price by the target price. The factory picks a feed from the
`--price-feed` argument.

Modelling choices:

- A Wad is an `int` counting 10^-18 units, and times are `int`s.
- The clock, the file system, the `setzer` utility, the exchange clients, the oracle and the
  target price are inputs. Each writer step and each reader call takes the time and the
  outcome of its I/O as parameters.
- Wad division and the Wad conversion of a number are supplied as opaque functions.
- Logging is a sequence of `Notice`s, one per info or warning line a feed logs while it
  runs (Setzer's two lines per late failure count as one). Debug lines are dropped, and so
  is the fixed feed's construction line.
- Every feed is an immutable value. Each step returns the new value and what it logged.
  A reader call also returns the price it reported.

Modules:

- `Staleness` holds the slot, the shared reader `Check`, the writer steps `Publish` and
  `Touch`, and the invariant that links the log to the flag. It also holds `Replay`, which
  plays a sequence of events through any feed's step function, and the induction over runs.
- `FileFeed`, `SetzerFeed`, `GdaxFeed` and `BiboxFeed` each define a feed's state, its
  writer and reader steps, and `Run`, their `Replay`.
- `PriceFeeds` gathers the configurable feeds and the target-price wrapper behind one `GetPrice`.
- `Factory` models `create_price_feed`.

The property behind the "has expired" warning is stated twice. For each single step, the
availability notice it logs is `Staleness.Announcement` of the flag before and after:
"has expired" exactly when the step raises the flag, "became available" exactly when it
lowers it, nothing otherwise. Over whole runs this gives an alternation invariant
(`Staleness.Consistent`): the notices alternate, starting from the initial value of the
flag. So a feed never warns twice in a row that it has expired.

Behaviour worth knowing:

- A feed that has never been observed has timestamp 0. It is stale only when `now > expiry`.
  It still reports no price, because it has none. With such a huge expiry, the file feed
  logs "became available" while returning nothing.
- When the price file is not a regular file, the file feed clears the price and resets the
  timestamp to 0. When opening, decoding or converting it raises, the price and timestamp
  stay as they were. When the modification time cannot be read after the price was
  decoded, the new price is kept with the old timestamp.
- In the Setzer, GDAX and Bibox feeds, the writer clears the flag and logs "became
  available". The reader only ever sets the flag. Only the file feed's reader does both.
- Setzer failures are not logged at all until more than 10 have happened in a row.
  After that, each further failure logs a warning.
- The target-price wrapper divides by the target-price oracle's value, which is always
  present. The factory never applies the wrapper.

## Model

| member | source | states |
|---|---|---|
| Staleness.Check | market_maker_keeper/price.py:164-172 | The shared reader (also lines 230-237 and 285-292). A slot strictly older than the expiry yields no price and raises the flag. It warns only if the flag was down. A slot exactly `expiry` old or younger yields its stored price and is left unchanged. Its whole log is the notice for the flag's transition, so it never logs "became available". |
| Staleness.Publish | market_maker_keeper/price.py:142-152 | A successful fetch stores the price with the fetch time and lowers the flag. Its whole log is "became available" if the flag was up, and nothing otherwise. Afterwards the reader returns that price at every time within the expiry. |
| Staleness.Touch | market_maker_keeper/price.py:249-250 | A heartbeat moves only the timestamp. Within the expiry, the next read returns the old price, changes nothing and logs nothing. |
| FileFeed.Init | market_maker_keeper/price.py:81-89 | A new feed has no price, timestamp 0 and its flag up. So the first read of a fresh file reports its price and logs both "price updated" and "became available". |
| FileFeed.ReadPrice | market_maker_keeper/price.py:91-108 | Each read outcome and its effect: a missing file gives no price and timestamp 0; a loaded file gives its price stamped with its modification time; a failure while reading the modification time keeps the new price with the old timestamp; any other failure changes nothing. Whenever a price was decoded, "price updated" is logged exactly when it differs from the stored one (or there was none); otherwise nothing is logged. The flag is untouched. |
| FileFeed.Updated | market_maker_keeper/price.py:102-103 | The "price feed updated" line is logged exactly when there was no price or the new price differs. |
| FileFeed.Judge | market_maker_keeper/price.py:113-124 | The file feed's own staleness check. The flag afterwards equals staleness, so a fresh read clears it. A price is reported only when the slot is fresh. It warns exactly when it raises the flag and announces availability exactly when it lowers it. |
| FileFeed.GetPrice | market_maker_keeper/price.py:110-124 | `get_price` reads the file, then judges the timestamp that read produced. A missing file always reports nothing. A loaded file reports its price exactly when its modification time, not the read time, is within the expiry. The log is the read's "price updated" line, if any, followed by the notice for the flag's transition. |
| FileFeed.RunAlternates | market_maker_keeper/price.py:110-124 | Over any sequence of calls, the availability notices alternate, starting from the initial flag, and the final flag is the initial one flipped once per notice. |
| FileFeed.StaleFileWarnsOnce | market_maker_keeper/price.py:104-118 | Rereading an old file reports no price every time. It never announces availability and warns at most once. |
| SetzerFeed.Init | market_maker_keeper/price.py:130-139 | A new feed has no retries and its flag is up. It reports no price at any time. |
| SetzerFeed.FetchPrice | market_maker_keeper/price.py:142-157 | Success resets the retry count, lowers the flag and logs only "became available", if the flag was up. The price is then reported exactly while the fetch time is within the expiry. Failure adds one retry and leaves the slot as it was. It warns, naming the attempt number, exactly when more than 10 failures are in a row. The log is consistent with the flag. |
| SetzerFeed.GetPrice | market_maker_keeper/price.py:164-172 | A price is reported exactly when the last fetch is within the expiry and there is a price, and it is the stored one. Reading changes neither price, timestamp nor retries. A stale read raises the flag and a fresh one leaves it as it was. It warns exactly when it raises the flag and never announces availability. |
| SetzerFeed.RunAlternates | market_maker_keeper/price.py:142-172 | Over any mix of fetches and reads, the availability notices alternate, starting from the initial flag, and the final flag is the initial one flipped once per notice. |
| SetzerFeed.ReadsWarnOnce | market_maker_keeper/price.py:164-172 | Reads alone log at most one availability notice, and none if the feed was already expired: repeated stale reads warn once. |
| SetzerFeed.FailuresCountUp | market_maker_keeper/price.py:153-157 | `n` failed fetches in a row leave the slot alone and add `n` to the retry count. The warnings they log are the attempts beyond the tenth, numbered consecutively. |
| GdaxFeed.Init | market_maker_keeper/price.py:178-188 | A new feed has its flag up and reports no price at any time. |
| GdaxFeed.OnMessage | market_maker_keeper/price.py:213-250 | A ticker with a usable price lowers the flag and logs only "became available", if the flag was up. Its price is reported exactly while the message time is within the expiry. A heartbeat moves only the timestamp and keeps the feed fresh. A subscription acknowledgement changes nothing and logs nothing. An unknown type changes nothing and logs "unknown". An undecodable message, or a ticker without a usable price, changes nothing and logs "invalid". |
| GdaxFeed.GetPrice | market_maker_keeper/price.py:230-237 | A price is reported exactly when the last ticker or heartbeat is within the expiry and there is a price, and it is the stored one. A stale read raises the flag and a fresh one leaves it as it was. It warns exactly when it raises the flag and never announces availability. |
| GdaxFeed.RunAlternates | market_maker_keeper/price.py:213-250 | Over any mix of messages and reads, the availability notices alternate, starting from the initial flag, and the final flag is the initial one flipped once per notice. |
| GdaxFeed.ReadsWarnOnce | market_maker_keeper/price.py:230-237 | Reads alone log at most one availability notice, and none if the feed was already expired. |
| GdaxFeed.NoTickNoPrice | market_maker_keeper/price.py:213-250 | Without a ticker carrying a price, a feed with no price never gets one. Every read reports nothing, even though heartbeats keep it fresh. |
| BiboxFeed.Init | market_maker_keeper/price.py:256-267 | A new feed has its flag up and reports no price at any time. |
| BiboxFeed.Poll | market_maker_keeper/price.py:269-283 | A successful poll lowers the flag and logs only "became available", if the flag was up. The mid price is reported exactly while the poll time is within the expiry. A failed poll changes nothing and warns. |
| BiboxFeed.GetPrice | market_maker_keeper/price.py:285-292 | A price is reported exactly when the last successful poll is within the expiry and there is a price, and it is the stored one. A stale read raises the flag and a fresh one leaves it as it was. It warns exactly when it raises the flag and never announces availability. |
| BiboxFeed.RunAlternates | market_maker_keeper/price.py:269-292 | Over any mix of polls and reads, the availability notices alternate, starting from the initial flag, and the final flag is the initial one flipped once per notice. |
| BiboxFeed.ReadsWarnOnce | market_maker_keeper/price.py:285-292 | Reads alone log at most one availability notice, and none if the feed was already expired. |
| BiboxFeed.FailuresKeepState | market_maker_keeper/price.py:280-283 | Failed polls leave the feed unchanged and warn once each, with no threshold. |
| PriceFeeds.GetPrice | market_maker_keeper/price.py:34-75 | A fixed feed always returns its price and changes nothing. The oracle feed returns the oracle's value and changes nothing. A file, Setzer or GDAX feed reports, becomes and logs exactly what its own reader gives. Reading keeps the number of wrappers. The target price is read at most once per wrapper, and never by an unwrapped feed. |
| PriceFeeds.TargetPricePropagatesAbsence | market_maker_keeper/price.py:70-73 | A stack of wrappers reports a price exactly when the feed at its core does, and logs what the core logs. The core's new state after its own read, such as a raised flag or a file's new price and timestamp, is kept inside the wrappers. When the core has no price, the target price is never read. |
| PriceFeeds.TargetPriceScales | market_maker_keeper/price.py:70-75 | When the core has a price, a stack of wrappers divides it by the target price once per wrapper, reading the target price once per wrapper. |
| PriceFeeds.ReadOnlyTouchesFlag | market_maker_keeper/price.py:164-237 | Reading any feed other than the file feed changes nothing but its expired flag. |
| Factory.LowerForToken | market_maker_keeper/price.py:307 | ASCII capitals lower to their small letters. No other character lowers to an ASCII letter other than itself, except the Kelvin sign. |
| Factory.GdaxTokenSpellings | market_maker_keeper/price.py:307 | The case-insensitive comparison in `IsGdaxToken` accepts an argument exactly when it spells `gdax-websocket` in any mix of upper and lower case, with the Kelvin sign also standing for `k`, and nothing else. |
| Factory.CreatePriceFeed | market_maker_keeper/price.py:297-327 | The precedence order, with both directions of each rule. The GDAX feed for ETH-USD is chosen exactly for the case-insensitive token `gdax-websocket`. A fixed feed (or a conversion error) is chosen exactly for other arguments starting with `fixed:`. A file feed for the remainder is chosen exactly for arguments then starting with `file:`. A Setzer feed for the whole argument is chosen otherwise. With no argument the oracle feed is chosen if there is one, else a configuration error. The expiry passes through. The result is never wrapped. |
| Factory.VoxIgnored | market_maker_keeper/price.py:322-327 | Whether a target-price oracle is supplied makes no difference to the result. |
| Factory.FixedFeedIsConstant | market_maker_keeper/price.py:311-312 | `fixed:<text>` with a convertible number yields a feed that reports that number at every call. |
| Factory.SelectorRoundTrip | market_maker_keeper/price.py:306-318 | Every GDAX, file, unclaimed Setzer or oracle feed the factory could build is rebuilt exactly from its canonical argument. |
| Factory.CreatedIsConfigurable | market_maker_keeper/price.py:306-318 | Every non-fixed feed the factory builds is one of those, so the selector round trip covers all of them. |

## Left out

- Background threads and their infinite loops and sleeps are left out. Each loop iteration, fetch or inbound message is one event, with its time as a parameter.
- Websocket lifecycle callbacks are left out: connecting, the subscribe frame, closing, errors and reconnecting. They log only and do not touch the feed's state.
- Thread safety of the price/timestamp pair is left out. The code has no synchronisation, and the model is sequential.
- `Setzer().price`, `BiboxApi.ticker`, `json.load`/`json.loads`, `os.path.isfile` and `os.path.getmtime` are outside the model. Only their outcomes are inputs.
- The oracle read of the Tub feed is an input. A failing oracle read raises in the source; that exception is not modelled.
- `Vox.par()` and its conversion to a Wad are one input value. Wad division, including its rounding and division by zero, is an opaque function.
- `Wad.from_number` is an opaque conversion in the factory. In the feeds, only its result is an input.
- Float arithmetic is left out. Times and file modification times are integers, and the Bibox mid price arrives already averaged and converted.
- The info line the fixed feed logs when it is constructed is left out, as the factory returns feeds, not logs.
- Every target-price wrapper in a stack reads the same target price. In the source each wrapper holds its own `vox`, but the factory never builds a stack, or a wrapper at all.
- Log text and debug lines are left out. Setzer's pair of warning lines per failure beyond the tenth is one notice.
- A GDAX message whose `type` is not a string counts as an unknown type. The model's message type is always a string.
- Factory.LowerForToken: does not model Python's full Unicode lower-casing, only what decides the comparison with `gdax-websocket`.
- The abstract `PriceFeed.get_price` raises when not overridden. No feed in the model lacks a reader.
- The constructors' `isinstance` assertions are left out. Dafny's types take their place.
- The integration tests of the market-maker keeper are left out. They exercise band and order logic that is not part of this model.
