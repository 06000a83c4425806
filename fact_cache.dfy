/**
 * `handle_tax_fact`: the daily tax fact shown in the side panel, served from
 * a single-slot cache that lives for 300 seconds.  The two module globals of
 * the server become the two fields of a FactCache object.  The clock, the
 * randomly chosen topic and the search backend are parameters.
 */
module TaxFact {
  import opened Wrappers
  import opened Text
  import Research

  /** `FACT_CACHE_TTL`, in seconds. */
  const TtlSeconds := 300.0

  /** A stored fact is cut to this many characters. */
  const FactLimit := 100

  const Topics := ["Standard Deduction", "Earned Income Credit", "401k Limits"]

  /** Stored when the search has no summary text. */
  const NoSummaryFact := "IRS Library Online."

  /** Returned, and not stored, when the search fails. */
  const OfflineFact := "IRS Source Library Online."

  /** The search query for a topic. */
  function FactQuery(topic: string): (q: string)
    ensures |q| == 18 + |topic| && q[..18] == "2026 tax fact for " && q[18..] == topic
  {
    "2026 tax fact for " + topic
  }

  /** The search backend: the outcome of a query, or None when creating the client or searching raises. */
  type Backend = string -> Option<Research.SearchOutcome>

  /** `(safe_summary(response) or "IRS Library Online.")[:100]` */
  function FactOf(outcome: Research.SearchOutcome): (f: string)
    ensures 1 <= |f| <= FactLimit
    ensures var summary := Research.SafeSummary(outcome.summary);
      && (summary == [] ==> f == NoSummaryFact)
      && (summary != [] ==> |f| == (if |summary| <= FactLimit then |summary| else FactLimit) && f == summary[..|f|])
  {
    var summary := Research.SafeSummary(outcome.summary);
    Take(if summary != [] then summary else NoSummaryFact, FactLimit)
  }

  class FactCache {
    /** `_cached_fact` */
    var cachedFact: Option<string>
    /** `_cached_fact_timestamp` */
    var timestamp: real
    /**
     * The attempted queries so far, oldest first: a query is recorded as soon
     * as the cache is stale, also when creating the client or the request
     * itself then fails.
     */
    ghost var queries: seq<string>

    /** Whatever is cached came from FactOf: never empty, never over the limit. */
    ghost predicate Valid()
      reads this
    {
      cachedFact.Some? ==> 1 <= |cachedFact.value| <= FactLimit
    }

    /** The state at import time: nothing cached, timestamp 0. */
    constructor()
      ensures cachedFact == None && timestamp == 0.0 && queries == []
      ensures Valid()
    {
      cachedFact := None;
      timestamp := 0.0;
      queries := [];
    }

    /** `_cached_fact and (now - _cached_fact_timestamp) < FACT_CACHE_TTL` */
    predicate IsFresh(now: real)
      reads this
    {
      cachedFact.Some? && cachedFact.value != [] && now - timestamp < TtlSeconds
    }

    /**
     * One request to `/get_tax_fact` at clock reading `now`, with `pick` the
     * index `random.choice` chose.  A fresh cache answers without a query; a
     * successful query replaces the cache; a failed one leaves it alone.
     */
    method GetFact(now: real, pick: nat, backend: Backend) returns (fact: string)
      requires pick < |Topics|
      requires Valid()
      modifies this
      ensures Valid()
      ensures old(IsFresh(now)) ==>
        && fact == old(cachedFact).value
        && cachedFact == old(cachedFact) && timestamp == old(timestamp) && queries == old(queries)
      ensures !old(IsFresh(now)) ==> queries == old(queries) + [FactQuery(Topics[pick])]
      ensures !old(IsFresh(now)) && backend(FactQuery(Topics[pick])).None? ==>
        && fact == OfflineFact
        && cachedFact == old(cachedFact) && timestamp == old(timestamp)
      ensures !old(IsFresh(now)) && backend(FactQuery(Topics[pick])).Some? ==>
        && fact == FactOf(backend(FactQuery(Topics[pick])).value)
        && cachedFact == Some(fact) && timestamp == now
    {
      if IsFresh(now) {
        return cachedFact.value;
      }
      var query := FactQuery(Topics[pick]);
      queries := queries + [query];
      var response := backend(query);
      if response.None? {
        return OfflineFact;
      }
      fact := FactOf(response.value);
      cachedFact, timestamp := Some(fact), now;
    }
  }

  /**
   * A second request less than 300 seconds after a first one that refreshed
   * the cache returns the same fact and sends no query.
   */
  method RequestTwice(cache: FactCache, t1: real, t2: real, pick1: nat, pick2: nat, backend: Backend)
    returns (first: string, second: string)
    requires pick1 < |Topics| && pick2 < |Topics|
    requires cache.Valid() && !cache.IsFresh(t1)
    requires backend(FactQuery(Topics[pick1])).Some?
    requires t2 - t1 < TtlSeconds
    modifies cache
    ensures first == second == FactOf(backend(FactQuery(Topics[pick1])).value)
    ensures cache.queries == old(cache.queries) + [FactQuery(Topics[pick1])]
    ensures cache.Valid()
  {
    first := cache.GetFact(t1, pick1, backend);
    second := cache.GetFact(t2, pick2, backend);
  }
}
