/**
 * The simulated reputation lookup `fetchPhishingAPIResults`: a fixed list
 * of known phishing hostnames, with the random domain age and score given
 * as parameters drawn from their ranges.
 */
module Reputation {
  import opened Wrappers
  import opened Strings
  import opened RiskScorer
  import opened ScorerProperties

  const KnownPhishingDomains: seq<string> := ["paypai.com", "amaz0n.com", "faceb00k.com", "g00gle.com", "appleid-verify.com"]

  /** `Math.floor(Math.random() * 500)` ranges over 0 to 499. */
  const MaxSimulatedAge := 500
  /** `Math.random() * 0.3` ranges over [0, 0.3). */
  const MaxSimulatedScore: real := 0.3

  /** The reply for `host`, given the two random draws. */
  function SimulatedLookup(host: string, age: int, score: real): Lookup
    requires 0 <= age < MaxSimulatedAge && 0.0 <= score < MaxSimulatedScore
  {
    Lookup(host in KnownPhishingDomains, age, score)
  }

  /** A listed hostname is always flagged as known phishing, with at least 0.9, whatever the draws. */
  lemma ListedHostFlagged(url: string, host: string, age: int, score: real)
    requires 0 <= age < MaxSimulatedAge && 0.0 <= score < MaxSimulatedScore
    requires host in KnownPhishingDomains
    ensures var v := Evaluate(url, host, Some(SimulatedLookup(host, age, score)));
      && v.isSuspicious && v.score >= KnownPhishingWeight
      && KnownPhishingReason in SplitOn(v.reason, ReasonSeparator)
  {
    FlaggingHeuristicRecorded(url, host, Some(SimulatedLookup(host, age, score)));
  }

  /**
   * An unlisted hostname with no local flag, an old domain and at most four
   * keywords is never flagged however the score is drawn: 0.4 of keywords
   * plus less than 0.3 of lookup score stays below 0.7.
   */
  lemma UnlistedPlainHostSafe(url: string, host: string, age: int, score: real)
    requires 0 <= age < MaxSimulatedAge && 0.0 <= score < MaxSimulatedScore
    requires host !in KnownPhishingDomains && age >= NewDomainDays
    requires !IsIPv4Literal(host) && !HasExcessiveSubdomains(host) && !IsLongUrl(url)
    requires |MatchedKeywords(ToLower(url), Keywords)| <= 4
    ensures var v := Evaluate(url, host, Some(SimulatedLookup(host, age, score)));
      !v.isSuspicious && v.reason == "" && v.score < SuspicionThreshold
  {
    KeywordScoreBounds(url);
  }
}
