/** The price oracle: BCH prices in USD, INR and EUR behind a one-minute
    cache. The HTTP request to the price feed is replaced by its outcome,
    supplied by the caller together with the clock reading. */
module PriceService {
  import opened Common

  datatype Prices = Prices(usd: real, inr: real, eur: real)

  /** How long a cached answer is served, in milliseconds. */
  const CacheTtl := 60000

  /** What is answered when the feed fails and nothing was ever cached. */
  const Fallback := Prices(450.0, 37500.0, 415.0)

  /** The feed either answers (and the clock then reads `completedAt`) or fails. */
  datatype FetchOutcome = Fetched(prices: Prices, completedAt: int) | FetchFailed

  /** The module-level cache record: the last prices fetched, if any, and when. */
  datatype CacheState = CacheState(prices: Option<Prices>, timestamp: int)

  const EmptyCache := CacheState(None, 0)

  predicate IsFresh(cache: CacheState, now: int) {
    cache.prices.Some? && now - cache.timestamp < CacheTtl
  }

  /** The outcome of one call: the prices answered, the cache left behind,
      and whether the feed was asked. */
  datatype Lookup = Lookup(prices: Prices, cache: CacheState, fetched: bool)

  /** `getBCHPrices()` as a function of the cache, the clock and the feed's answer. */
  function Serve(cache: CacheState, now: int, fetch: FetchOutcome): (r: Lookup)
    ensures r.fetched <==> !IsFresh(cache, now)
    ensures !r.fetched ==> r.cache == cache && Some(r.prices) == cache.prices
    ensures !IsFresh(cache, now) && fetch.Fetched? ==>
      r.prices == fetch.prices && r.cache == CacheState(Some(fetch.prices), fetch.completedAt)
    ensures r.cache != cache ==> r.fetched && fetch.Fetched? && r.prices == fetch.prices
    ensures r.cache != cache ==> r.cache == CacheState(Some(fetch.prices), fetch.completedAt)
    ensures fetch.FetchFailed? ==> r.cache == cache
    ensures !IsFresh(cache, now) && fetch.FetchFailed? ==>
      r.prices == if cache.prices.Some? then cache.prices.value else Fallback
    ensures r.prices == Fallback ==> fetch.FetchFailed? || fetch.prices == Fallback || cache.prices == Some(Fallback)
  {
    if IsFresh(cache, now) then Lookup(cache.prices.value, cache, false)
    else match fetch
      case Fetched(p, at) => Lookup(p, CacheState(Some(p), at), true)
      case FetchFailed =>
        Lookup(if cache.prices.Some? then cache.prices.value else Fallback, cache, true)
  }

  /** Within a minute of a successful fetch the same prices are served
      again without asking the feed, whatever it would have answered. */
  lemma ServedFromCacheWithinTtl(cache: CacheState, now: int, p: Prices, at: int, later: int, fetch: FetchOutcome)
    requires !IsFresh(cache, now)
    requires later - at < CacheTtl
    ensures var first := Serve(cache, now, Fetched(p, at));
      var second := Serve(first.cache, later, fetch);
      second.prices == p && !second.fetched && second.cache == first.cache
  {
  }

  /** The comparison is strict: a cache exactly one minute old is stale. */
  lemma StaleAtExactlyTtl(cache: CacheState, fetch: FetchOutcome)
    requires cache.prices.Some?
    ensures Serve(cache, cache.timestamp + CacheTtl, fetch).fetched
  {
  }

  /** A failed fetch answers the last prices fetched, if there are any,
      and otherwise the fallback; the cache is left as it was. */
  lemma FailedFetchDegrades(cache: CacheState, now: int)
    requires !IsFresh(cache, now)
    ensures var r := Serve(cache, now, FetchFailed);
      r.cache == cache && r.fetched &&
      r.prices == (if cache.prices.Some? then cache.prices.value else Fallback)
  {
  }

  /** Once some prices are cached the cache never becomes empty again, so
      the fallback is only ever answered before the first successful fetch. */
  lemma CacheStaysFilled(cache: CacheState, now: int, fetch: FetchOutcome)
    requires cache.prices.Some?
    ensures Serve(cache, now, fetch).cache.prices.Some?
  {
  }

  /** The module-level `priceCache` variable. */
  class PriceCache {
    var prices: Option<Prices>
    var timestamp: int

    function State(): CacheState
      reads this
    {
      CacheState(prices, timestamp)
    }

    constructor ()
      ensures State() == EmptyCache
    {
      prices, timestamp := None, 0;
    }

    /** `getBCHPrices()`: never fails; every path answers a price triple. */
    method GetBCHPrices(now: int, fetch: FetchOutcome) returns (p: Prices, fetched: bool)
      modifies this
      ensures Lookup(p, State(), fetched) == Serve(old(State()), now, fetch)
    {
      if prices.Some? && now - timestamp < CacheTtl {
        return prices.value, false;
      }
      fetched := true;
      match fetch {
        case Fetched(latest, at) =>
          prices, timestamp := Some(latest), at;
          p := latest;
        case FetchFailed =>
          if prices.Some? {
            p := prices.value;
          } else {
            p := Fallback;
          }
      }
    }
  }
}
