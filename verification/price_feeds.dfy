/** The price feeds behind one accessor, `get_price`, and the wrapper that divides a
    feed's price by the target price. */
module PriceFeeds {
  import opened Values
  import opened Staleness
  import FileFeed
  import SetzerFeed
  import GdaxFeed

  /** The feeds the keeper can be configured with. The Bibox feed is not one of them:
      it has a `get_price` of its own but is not a `PriceFeed`, so the target-price
      wrapper would refuse it, and the factory never builds it. */
  datatype Feed =
    | Fixed(price: Wad)
    | Tub                               // reads the on-chain price oracle on every call
    | File(file: FileFeed.State)
    | Setzer(setzer: SetzerFeed.State)
    | Gdax(gdax: GdaxFeed.State)
    | TargetPrice(inner: Feed)          // the inner feed's price divided by the target price

  /** What a reader call depends on outside the feed: the time, what the price file
      holds, the oracle's value, the target price (already converted to a Wad) and the
      Wad division, whose rounding is not part of this model. */
  datatype Env = Env(now: int, file: FileFeed.FileRead, oracle: int, par: Wad, divide: (Wad, Wad) -> Wad)

  /** The price returned, the feed afterwards, what was logged, and how many times the
      target price was consulted. */
  datatype Reading = Reading(price: Option<Wad>, feed: Feed, log: seq<Notice>, parReads: nat)

  /** The number of target-price wrappers around the feed at the core. */
  function Depth(f: Feed): nat {
    if f.TargetPrice? then 1 + Depth(f.inner) else 0
  }

  /** The feed at the core of any target-price wrappers. */
  function Core(f: Feed): (c: Feed)
    ensures !c.TargetPrice?
  {
    if f.TargetPrice? then Core(f.inner) else f
  }

  /** get_price, for every kind of feed. */
  function GetPrice(f: Feed, env: Env): (r: Reading)
    ensures Depth(r.feed) == Depth(f)
    ensures f.Fixed? ==> r == Reading(Some(f.price), f, [], 0)
    ensures f.Tub? ==> r == Reading(Some(env.oracle), f, [], 0)
    ensures f.File? ==> var read := FileFeed.GetPrice(f.file, env.file, env.now);
              r == Reading(read.price, File(read.state), read.log, 0)
    ensures f.Setzer? ==> var read := SetzerFeed.GetPrice(f.setzer, env.now);
              r == Reading(read.price, Setzer(read.state), read.log, 0)
    ensures f.Gdax? ==> var read := GdaxFeed.GetPrice(f.gdax, env.now);
              r == Reading(read.price, Gdax(read.state), read.log, 0)
    ensures r.parReads <= Depth(f)
    decreases f
  {
    match f
    case Fixed(p) => Reading(Some(p), f, [], 0)
    case Tub => Reading(Some(env.oracle), f, [], 0)
    case File(s) =>
      var read := FileFeed.GetPrice(s, env.file, env.now);
      Reading(read.price, File(read.state), read.log, 0)
    case Setzer(s) =>
      var read := SetzerFeed.GetPrice(s, env.now);
      Reading(read.price, Setzer(read.state), read.log, 0)
    case Gdax(s) =>
      var read := GdaxFeed.GetPrice(s, env.now);
      Reading(read.price, Gdax(read.state), read.log, 0)
    case TargetPrice(inner) =>
      var base := GetPrice(inner, env);
      match base.price
      case None => Reading(None, TargetPrice(base.feed), base.log, base.parReads)
      case Some(p) => Reading(Some(env.divide(p, env.par)), TargetPrice(base.feed), base.log, base.parReads + 1)
  }

  /** Divides a price by the target price once per wrapper. */
  function Scaled(p: Wad, n: nat, env: Env): Wad {
    if n == 0 then p else env.divide(Scaled(p, n - 1, env), env.par)
  }

  /** A stack of target-price wrappers reports a price exactly when the feed at its core
      does, logs what the core logs, keeps the core's new state inside the wrappers, and
      never consults the target price when the core has no price. */
  lemma {:induction false} TargetPricePropagatesAbsence(f: Feed, env: Env)
    ensures GetPrice(f, env).log == GetPrice(Core(f), env).log
    ensures Core(GetPrice(f, env).feed) == GetPrice(Core(f), env).feed
    ensures GetPrice(f, env).price.None? <==> GetPrice(Core(f), env).price.None?
    ensures GetPrice(Core(f), env).price.None? ==> GetPrice(f, env).parReads == 0
    decreases f
  {
    if f.TargetPrice? {
      TargetPricePropagatesAbsence(f.inner, env);
    }
  }

  /** When the core has a price, a stack of wrappers divides it once per wrapper and
      consults the target price once per wrapper. */
  lemma {:induction false} TargetPriceScales(f: Feed, env: Env)
    requires GetPrice(Core(f), env).price.Some?
    ensures GetPrice(f, env).price == Some(Scaled(GetPrice(Core(f), env).price.value, Depth(f), env))
    ensures GetPrice(f, env).parReads == Depth(f)
    decreases f
  {
    if f.TargetPrice? {
      TargetPriceScales(f.inner, env);
    }
  }

  /** The feed with every expired flag raised: everything a reader is not allowed to change. */
  function Settled(f: Feed): (g: Feed)
    ensures Depth(g) == Depth(f)
  {
    match f
    case Fixed(_) => f
    case Tub => f
    case File(s) => File(s.(slot := s.slot.(expired := true)))
    case Setzer(s) => Setzer(s.(slot := s.slot.(expired := true)))
    case Gdax(s) => Gdax(s.(slot := s.slot.(expired := true)))
    case TargetPrice(inner) => TargetPrice(Settled(inner))
  }

  /** Reading a feed changes nothing but its expired flag, unless the core is the file
      feed, which rereads its file on every call. */
  lemma {:induction false} ReadOnlyTouchesFlag(f: Feed, env: Env)
    requires !Core(f).File?
    ensures Settled(GetPrice(f, env).feed) == Settled(f)
    decreases f
  {
    if f.TargetPrice? {
      ReadOnlyTouchesFlag(f.inner, env);
    }
  }
}
