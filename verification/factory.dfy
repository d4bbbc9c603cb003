/** Selection of the price feed from the `--price-feed` argument. */
module Factory {
  import opened Values
  import opened PriceFeeds
  import FileFeed
  import SetzerFeed
  import GdaxFeed

  const GdaxToken := "gdax-websocket"
  const GdaxUrl := "wss://ws-feed.gdax.com"
  const GdaxProduct := "ETH-USD"
  const FixedPrefix := "fixed:"
  const FilePrefix := "file:"

  /** Why no feed could be built: no argument and no oracle to fall back on, or a
      fixed price that would not convert to a Wad. */
  datatype ConfigError = NoPriceSource | BadFixedPrice(text: string)

  /** Python's `str.lower()` on one character, as far as a comparison with GdaxToken can
      tell: ASCII capitals, and the KELVIN SIGN, whose lower case is the ASCII `k`.
      Every other character whose lower case differs is mapped to itself here; none of
      them lowers to a character of the token, and the one that lowers to two characters
      (capital I with dot above) yields a combining dot the token does not contain. */
  function LowerForToken(c: char): (l: char)
    ensures 'A' <= c <= 'Z' ==> l as int == c as int + 32
    ensures 'a' <= l <= 'z' && !('A' <= c <= 'Z') ==> l == c || c == '\U{212A}'
  {
    if 'A' <= c <= 'Z' then (c as int + 32) as char
    else if c == '\U{212A}' then 'k'
    else c
  }

  /** The characters that stand for the small letter or hyphen `c` in a case-insensitive
      spelling: itself, its capital, and for `k` also the Kelvin sign. */
  function Spellings(c: char): set<char> {
    if 'a' <= c <= 'z' then {c, (c as int - 32) as char} + (if c == 'k' then {'\U{212A}'} else {})
    else {c}
  }

  /** Lower-casing a character gives the small letter or hyphen `t` exactly when the
      character is one of its spellings. */
  lemma LowersOnto(x: char, t: char)
    requires 'a' <= t <= 'z' || t == '-'
    ensures LowerForToken(x) == t <==> x in Spellings(t)
  {
  }

  /** `arg.lower() == "gdax-websocket"`. */
  predicate IsGdaxToken(arg: string) {
    |arg| == |GdaxToken| && forall i :: 0 <= i < |arg| ==> LowerForToken(arg[i]) == GdaxToken[i]
  }

  /** The GDAX token matches exactly its spellings in any mix of cases, with the Kelvin
      sign also standing for its `k`. */
  lemma GdaxTokenSpellings(arg: string)
    ensures IsGdaxToken(arg) <==>
              |arg| == |GdaxToken| && forall i :: 0 <= i < |arg| ==> arg[i] in Spellings(GdaxToken[i])
  {
    assert forall i :: 0 <= i < |GdaxToken| ==> 'a' <= GdaxToken[i] <= 'z' || GdaxToken[i] == '-';
    forall i | 0 <= i < |arg| && i < |GdaxToken|
      ensures LowerForToken(arg[i]) == GdaxToken[i] <==> arg[i] in Spellings(GdaxToken[i])
    {
      LowersOnto(arg[i], GdaxToken[i]);
    }
  }

  /** `arg.startswith(prefix)`: case-sensitive. */
  predicate HasPrefix(arg: string, prefix: string) {
    |prefix| <= |arg| && arg[..|prefix|] == prefix
  }

  /** A Setzer source the factory can select: one no earlier rule claims. */
  predicate Unclaimed(source: string) {
    !IsGdaxToken(source) && !HasPrefix(source, FixedPrefix) && !HasPrefix(source, FilePrefix)
  }

  /** create_price_feed. The argument is checked in this order: the GDAX token (any case),
      then the `fixed:` prefix, then the `file:` prefix, and anything else names a Setzer
      source; with no argument the oracle is used if there is one, and otherwise the
      configuration is rejected. The expiry reaches every time-based feed unchanged.
      `hasVox` is accepted and ignored: the result is never wrapped in the target price.
      `fromNumber` stands for the Wad conversion of the fixed price (None when it raises). */
  function CreatePriceFeed(arg: Option<string>, expiry: int, hasTub: bool, hasVox: bool,
                           fromNumber: string -> Option<Wad>): (r: Result<Feed, ConfigError>)
    ensures (r == Success(Gdax(GdaxFeed.Init(GdaxUrl, GdaxProduct, expiry))))
        <==> (arg.Some? && IsGdaxToken(arg.value))
    ensures ((r.Success? && r.value.Fixed?) || (r.Failure? && r.error.BadFixedPrice?))
        <==> (arg.Some? && !IsGdaxToken(arg.value) && HasPrefix(arg.value, FixedPrefix))
    ensures r.Success? && r.value.Fixed? ==> fromNumber(arg.value[|FixedPrefix|..]) == Some(r.value.price)
    ensures r.Failure? && r.error.BadFixedPrice? ==>
              r.error.text == arg.value[|FixedPrefix|..] && fromNumber(r.error.text).None?
    ensures (r.Success? && r.value.File?)
        <==> (arg.Some? && !IsGdaxToken(arg.value) && !HasPrefix(arg.value, FixedPrefix)
              && HasPrefix(arg.value, FilePrefix))
    ensures r.Success? && r.value.File? ==> r.value == File(FileFeed.Init(arg.value[|FilePrefix|..], expiry))
    ensures r.Success? && r.value.Setzer? <==> arg.Some? && Unclaimed(arg.value)
    ensures r.Success? && r.value.Setzer? ==> r.value == Setzer(SetzerFeed.Init(arg.value, expiry))
    ensures r == Success(Tub) <==> arg.None? && hasTub
    ensures r == Failure(NoPriceSource) <==> arg.None? && !hasTub
    ensures r.Success? ==> !r.value.TargetPrice?
  {
    match arg
    case Some(a) =>
      if IsGdaxToken(a) then Success(Gdax(GdaxFeed.Init(GdaxUrl, GdaxProduct, expiry)))
      else if HasPrefix(a, FixedPrefix) then
        var text := a[|FixedPrefix|..];
        match fromNumber(text)
        case Some(p) => Success(Fixed(p))
        case None => Failure(BadFixedPrice(text))
      else if HasPrefix(a, FilePrefix) then Success(File(FileFeed.Init(a[|FilePrefix|..], expiry)))
      else Success(Setzer(SetzerFeed.Init(a, expiry)))
    case None =>
      if hasTub then Success(Tub) else Failure(NoPriceSource)
  }

  /** The target-price oracle makes no difference to which feed is built. */
  lemma VoxIgnored(arg: Option<string>, expiry: int, hasTub: bool, fromNumber: string -> Option<Wad>)
    ensures CreatePriceFeed(arg, expiry, hasTub, true, fromNumber)
         == CreatePriceFeed(arg, expiry, hasTub, false, fromNumber)
  {
  }

  /** A `fixed:` argument whose number converts yields a feed that reports that price
      at every call, whatever the surroundings. */
  lemma FixedFeedIsConstant(text: string, expiry: int, hasTub: bool, hasVox: bool,
                            fromNumber: string -> Option<Wad>, p: Wad, env: Env)
    requires fromNumber(text) == Some(p)
    ensures CreatePriceFeed(Some(FixedPrefix + text), expiry, hasTub, hasVox, fromNumber).Success?
    ensures GetPrice(CreatePriceFeed(Some(FixedPrefix + text), expiry, hasTub, hasVox, fromNumber).value, env).price
         == Some(p)
  {
    var a := FixedPrefix + text;
    assert a[..|FixedPrefix|] == FixedPrefix;
    assert a[|FixedPrefix|..] == text;
    assert a[0] == 'f' && LowerForToken('f') != GdaxToken[0];
  }

  /** The feeds other than fixed ones that the factory can build with this expiry. */
  predicate Configurable(f: Feed, expiry: int) {
    match f
    case Gdax(s) => s == GdaxFeed.Init(GdaxUrl, GdaxProduct, expiry)
    case File(s) => s == FileFeed.Init(s.filename, expiry)
    case Setzer(s) => s == SetzerFeed.Init(s.source, expiry) && Unclaimed(s.source)
    case Tub => true
    case _ => false
  }

  /** The argument that selects a configurable feed; the oracle feed is selected by giving none. */
  function Selector(f: Feed): Option<string> {
    match f
    case Gdax(_) => Some(GdaxToken)
    case File(s) => Some(FilePrefix + s.filename)
    case Setzer(s) => Some(s.source)
    case _ => None
  }

  /** Every configurable feed is built back from its selector. */
  lemma SelectorRoundTrip(f: Feed, expiry: int, hasVox: bool, fromNumber: string -> Option<Wad>)
    requires Configurable(f, expiry)
    ensures CreatePriceFeed(Selector(f), expiry, true, hasVox, fromNumber) == Success(f)
  {
    match f
    case Gdax(_) =>
      assert IsGdaxToken(GdaxToken);
    case File(s) =>
      var a := FilePrefix + s.filename;
      assert a[0] == 'f' && LowerForToken('f') != GdaxToken[0];
      assert a[2] != FixedPrefix[2];
      assert a[..|FilePrefix|] == FilePrefix;
      assert a[|FilePrefix|..] == s.filename;
    case Setzer(_) =>
    case Tub =>
  }

  /** Conversely, every feed the factory builds, except a fixed one, is configurable, so
      normalising an argument through its selector changes nothing. */
  lemma CreatedIsConfigurable(arg: Option<string>, expiry: int, hasTub: bool, hasVox: bool,
                              fromNumber: string -> Option<Wad>)
    requires CreatePriceFeed(arg, expiry, hasTub, hasVox, fromNumber).Success?
    requires !CreatePriceFeed(arg, expiry, hasTub, hasVox, fromNumber).value.Fixed?
    ensures Configurable(CreatePriceFeed(arg, expiry, hasTub, hasVox, fromNumber).value, expiry)
  {
  }
}
