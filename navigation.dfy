/**
 * The `onBeforeNavigate` listener: which navigations are inspected, and
 * what an inspected one leads to once the cached check has answered.
 */
module Navigation {
  import opened Wrappers
  import opened RiskScorer
  import opened ScorerProperties
  import opened VerdictCache

  /** The frame id of a tab's top-level document. */
  const MainFrame := 0

  /** The protocols of the browser's own pages, which are never checked. */
  const InternalProtocols: seq<string> := ["chrome:", "chrome-extension:", "about:"]

  /** What the listener does with a navigation. */
  datatype Action =
    | Ignore                                      // returned before checking
    | Proceed                                     // checked and found safe
    | Warn(url: string, reason: string, host: string)  // redirected to the warning page, notified about `host`

  /** A navigation is checked only in the main frame and only off the browser's own pages. */
  predicate IsInspected(frameId: int, protocol: string)
  {
    frameId == MainFrame && protocol !in InternalProtocols
  }

  /** The listener's outcome and the cache it leaves, for the navigation's URL, protocol and hostname. */
  function Navigate(m: Cache, frameId: int, url: string, protocol: string, host: string,
                    lookup: Option<Lookup>, now: int): (Action, Cache)
  {
    if !IsInspected(frameId, protocol) then (Ignore, m)
    else
      var (v, m') := Check(m, url, host, lookup, now);
      (if v.isSuspicious then Warn(url, v.reason, host) else Proceed, m')
  }

  /** Subframes and the browser's own pages are neither checked nor cached. */
  lemma SkippedLeaveCacheAlone(m: Cache, frameId: int, url: string, protocol: string, host: string,
                               lookup: Option<Lookup>, now: int)
    requires frameId != MainFrame || protocol in {"chrome:", "chrome-extension:", "about:"}
    ensures Navigate(m, frameId, url, protocol, host, lookup, now) == (Ignore, m)
  {
  }

  /**
   * An inspected navigation warns exactly when the verdict is suspicious,
   * the warning carries the verdict's reason, which is never empty, and the
   * cache is left as the check leaves it.
   */
  lemma WarnIffSuspicious(m: Cache, frameId: int, url: string, protocol: string, host: string,
                          lookup: Option<Lookup>, now: int)
    requires IsInspected(frameId, protocol) && CacheValid(m)
    ensures var (a, m') := Navigate(m, frameId, url, protocol, host, lookup, now);
      var (v, c) := Check(m, url, host, lookup, now);
      && m' == c
      && (a.Warn? <==> v.isSuspicious)
      && (a.Warn? ==> a.url == url && a.host == host && a.reason == v.reason && a.reason != "")
      && (!a.Warn? ==> a == Proceed)
  {
    CheckKeepsValid(m, url, host, lookup, now);
  }

  /** An IP-literal host on an inspected, uncached navigation always leads to a warning. */
  lemma IpLiteralNavigationWarns(m: Cache, frameId: int, url: string, protocol: string, host: string,
                                 lookup: Option<Lookup>, now: int)
    requires IsInspected(frameId, protocol) && !IsHit(m, url, now) && IsIPv4Literal(host)
    ensures Navigate(m, frameId, url, protocol, host, lookup, now).0.Warn?
  {
    IpLiteralFlagged(url, host, lookup);
  }

  /** The listener, updating the cache in place through `CheckUrl`. */
  method OnBeforeNavigate(cache: UrlCache, frameId: int, url: string, protocol: string, host: string,
                          lookup: Option<Lookup>, now: int) returns (action: Action)
    modifies cache
    ensures (action, cache.entries) == Navigate(old(cache.entries), frameId, url, protocol, host, lookup, now)
    ensures old(cache.Valid()) ==> cache.Valid()
  {
    if frameId != MainFrame {
      return Ignore;
    }
    if protocol == "chrome:" || protocol == "chrome-extension:" || protocol == "about:" {
      return Ignore;
    }
    var checkResult := cache.CheckUrl(url, host, lookup, now);
    if checkResult.isSuspicious {
      action := Warn(url, checkResult.reason, host);
    } else {
      action := Proceed;
    }
  }
}
