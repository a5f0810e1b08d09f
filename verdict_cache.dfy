/**
 * The verdict cache `urlCache`: a map from the full URL string to the
 * verdict computed for it and the time (milliseconds) until which it may be
 * served. `Check` and `Swept` state what a check and a sweep do to the map;
 * the class `UrlCache` does it in place as the source does.
 */
module VerdictCache {
  import opened Wrappers
  import opened RiskScorer
  import opened ScorerProperties

  /** How long a safe verdict is served: 24 hours in milliseconds. */
  const SafeCacheDuration: nat := 24 * 60 * 60 * 1000
  /** How long a suspicious verdict is served: 12 hours in milliseconds. */
  const SuspectedCacheDuration: nat := 12 * 60 * 60 * 1000

  /** One cached record `{result, expiry}`. */
  datatype Entry = Entry(result: Verdict, expiry: int)

  type Cache = map<string, Entry>

  /** The lifetime given to a freshly computed verdict. */
  function CacheDuration(v: Verdict): nat
  {
    if v.isSuspicious then SuspectedCacheDuration else SafeCacheDuration
  }

  /** `urlCache[url] && urlCache[url].expiry > now`: the stored verdict may be served. */
  predicate IsHit(m: Cache, url: string, now: int)
  {
    url in m && m[url].expiry > now
  }

  /** Every stored verdict is one that a scoring run can produce. */
  ghost predicate CacheValid(m: Cache)
  {
    forall u :: u in m ==> WellFormed(m[u].result)
  }

  /**
   * `checkUrlForPhishing(url)` at time `now`: the verdict it returns and the
   * cache it leaves. A hit serves the stored verdict; a miss scores the URL
   * and stores the verdict with an expiry that depends on it.
   */
  function Check(m: Cache, url: string, host: string, lookup: Option<Lookup>, now: int): (Verdict, Cache)
  {
    if IsHit(m, url, now) then (m[url].result, m)
    else
      var v := Evaluate(url, host, lookup);
      (v, m[url := Entry(v, now + CacheDuration(v))])
  }

  /** The cache `cleanCache` leaves at time `now`: every entry with `now > expiry` deleted. */
  function Swept(m: Cache, now: int): Cache
  {
    map u | u in m && !(now > m[u].expiry) :: m[u]
  }

  // ------------------------------------------------------------ properties

  /** A suspicious verdict lives 12 hours, a safe one 24 hours. */
  lemma DurationByVerdict(v: Verdict)
    ensures v.isSuspicious ==> CacheDuration(v) == 43_200_000
    ensures !v.isSuspicious ==> CacheDuration(v) == 86_400_000
    ensures CacheDuration(v) > 0
  {
  }

  /** On a hit the stored verdict is returned and the cache is unchanged, whatever the lookup would say. */
  lemma HitServesStored(m: Cache, url: string, host: string, lookup: Option<Lookup>, now: int)
    requires IsHit(m, url, now)
    ensures Check(m, url, host, lookup, now) == (m[url].result, m)
  {
  }

  /**
   * On a miss the verdict is the scorer's, and the cache gains or overwrites
   * `url` alone, with expiry `now` plus 12 or 24 hours by the verdict.
   */
  lemma MissStoresOnlyUrl(m: Cache, url: string, host: string, lookup: Option<Lookup>, now: int)
    requires !IsHit(m, url, now)
    ensures var (v, m') := Check(m, url, host, lookup, now);
      && v == Evaluate(url, host, lookup)
      && url in m' && m'[url] == Entry(v, now + (if v.isSuspicious then SuspectedCacheDuration else SafeCacheDuration))
      && m'.Keys == m.Keys + {url}
      && (forall u :: u in m && u != url ==> m'[u] == m[u])
  {
  }

  /** Checking keeps every stored verdict well-formed, and the verdict returned is well-formed. */
  lemma CheckKeepsValid(m: Cache, url: string, host: string, lookup: Option<Lookup>, now: int)
    requires CacheValid(m)
    ensures WellFormed(Check(m, url, host, lookup, now).0)
    ensures CacheValid(Check(m, url, host, lookup, now).1)
  {
    if !IsHit(m, url, now) {
      EvaluateWellFormed(url, host, lookup);
    }
  }

  /**
   * After a check at `now`, asking again for the same URL at any time
   * before the entry expires serves the same verdict and changes nothing,
   * whatever the hostname and the lookup say then.
   */
  lemma RepeatIsHit(m: Cache, url: string, host: string, lookup: Option<Lookup>, now: int,
                    host': string, lookup': Option<Lookup>, later: int)
    requires now <= later
    requires var m' := Check(m, url, host, lookup, now).1; later < m'[url].expiry
    ensures var (v, m') := Check(m, url, host, lookup, now);
      Check(m', url, host', lookup', later) == (v, m')
  {
  }

  /** A freshly stored entry expires strictly after the time it was stored. */
  lemma StoredEntryOutlivesNow(m: Cache, url: string, host: string, lookup: Option<Lookup>, now: int)
    ensures var m' := Check(m, url, host, lookup, now).1;
      url in m' && m'[url].expiry > now && IsHit(m', url, now)
  {
  }

  /**
   * An entry stored at `stored`: served while `now` is before its expiry,
   * kept by a sweep up to and including its expiry, deleted after it.
   */
  lemma EntryLifetime(m: Cache, url: string, v: Verdict, stored: int, now: int)
    ensures var m' := m[url := Entry(v, stored + CacheDuration(v))];
      && (IsHit(m', url, now) <==> now < stored + CacheDuration(v))
      && (url in Swept(m', now) <==> now <= stored + CacheDuration(v))
  {
  }

  /**
   * The two lifetimes apart: 12 hours after storing, a suspicious verdict is
   * no longer served, while a safe one is served for twelve hours more.
   */
  lemma SuspiciousExpiresFirst(m: Cache, url: string, v: Verdict, w: Verdict, stored: int)
    requires v.isSuspicious && !w.isSuspicious
    ensures !IsHit(m[url := Entry(v, stored + CacheDuration(v))], url, stored + SuspectedCacheDuration)
    ensures IsHit(m[url := Entry(w, stored + CacheDuration(w))], url, stored + SuspectedCacheDuration)
    ensures url in Swept(m[url := Entry(v, stored + CacheDuration(v))], stored + SuspectedCacheDuration)
    ensures url !in Swept(m[url := Entry(v, stored + CacheDuration(v))], stored + SuspectedCacheDuration + 1)
    ensures url in Swept(m[url := Entry(w, stored + CacheDuration(w))], stored + SafeCacheDuration)
    ensures url !in Swept(m[url := Entry(w, stored + CacheDuration(w))], stored + SafeCacheDuration + 1)
  {
  }

  /** The sweep keeps exactly the entries with `expiry >= now`, and keeps them unchanged. */
  lemma SweepKeepsExactly(m: Cache, now: int)
    ensures forall u :: u in Swept(m, now) <==> u in m && m[u].expiry >= now
    ensures forall u :: u in Swept(m, now) ==> Swept(m, now)[u] == m[u]
  {
  }

  /** A later sweep subsumes an earlier one; in particular sweeping twice at the same time is sweeping once. */
  lemma SweepLaterSubsumes(m: Cache, earlier: int, now: int)
    requires earlier <= now
    ensures Swept(Swept(m, earlier), now) == Swept(m, now)
  {
    assert forall u :: u in Swept(Swept(m, earlier), now) <==> u in Swept(m, now);
  }

  lemma SweepIdempotent(m: Cache, now: int)
    ensures Swept(Swept(m, now), now) == Swept(m, now)
  {
    SweepLaterSubsumes(m, now, now);
  }

  /** An entry expiring exactly at `now` survives the sweep at `now`, yet is not served then. */
  lemma ExpiryBoundary(m: Cache, url: string, now: int)
    requires url in m && m[url].expiry == now
    ensures url in Swept(m, now) && !IsHit(m, url, now) && !IsHit(Swept(m, now), url, now)
  {
  }

  /**
   * A sweep is invisible to checks: after sweeping at `earlier`, a check at
   * `now >= earlier` answers as it would have without the sweep.
   */
  lemma SweepInvisibleToCheck(m: Cache, url: string, host: string, lookup: Option<Lookup>, earlier: int, now: int)
    requires earlier <= now
    ensures IsHit(Swept(m, earlier), url, now) <==> IsHit(m, url, now)
    ensures Check(Swept(m, earlier), url, host, lookup, now).0 == Check(m, url, host, lookup, now).0
  {
  }

  /** Sweeping keeps every stored verdict well-formed. */
  lemma SweepKeepsValid(m: Cache, now: int)
    requires CacheValid(m)
    ensures CacheValid(Swept(m, now))
  {
  }

  // ------------------------------------------------------------ the cache

  /** The module-level `urlCache`, updated in place by checks and sweeps. */
  class UrlCache {
    var entries: Cache

    ghost predicate Valid()
      reads this
    {
      CacheValid(entries)
    }

    /** `let urlCache = {}`. */
    constructor ()
      ensures entries == map[] && Valid()
    {
      entries := map[];
    }

    /** The cache part of `checkUrlForPhishing`: serve a live entry or score the URL and store the verdict. */
    method CheckUrl(url: string, host: string, lookup: Option<Lookup>, now: int) returns (result: Verdict)
      modifies this
      ensures (result, entries) == Check(old(entries), url, host, lookup, now)
      ensures old(Valid()) ==> Valid() && WellFormed(result)
    {
      if Valid() {
        CheckKeepsValid(entries, url, host, lookup, now);
      }
      if url in entries && entries[url].expiry > now {
        result := entries[url].result;
        return;
      }
      result := Score(url, host, lookup);
      var cacheDuration := if result.isSuspicious then SuspectedCacheDuration else SafeCacheDuration;
      entries := entries[url := Entry(result, now + cacheDuration)];
    }

    /** `cleanCache()` at time `now`: delete, one key at a time, every entry with `now > expiry`. */
    method CleanCache(now: int)
      modifies this
      ensures entries == Swept(old(entries), now)
      ensures old(Valid()) ==> Valid()
    {
      var pending := entries.Keys;
      while pending != {}
        invariant pending <= old(entries).Keys
        invariant forall u :: u in entries <==> u in old(entries) && (u in pending || !(now > old(entries)[u].expiry))
        invariant forall u :: u in entries ==> entries[u] == old(entries)[u]
        decreases pending
      {
        var url :| url in pending;
        if now > entries[url].expiry {
          entries := entries - {url};
        }
        pending := pending - {url};
      }
      assert entries.Keys == Swept(old(entries), now).Keys;
      if old(Valid()) {
        SweepKeepsValid(old(entries), now);
      }
    }
  }
}
