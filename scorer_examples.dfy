/**
 * The worked verdicts of the scorer, each stated for every URL with the
 * features of the example rather than for one literal string.
 */
module ScorerExamples {
  import opened Wrappers
  import opened Strings
  import opened RiskScorer
  import opened ScorerProperties

  /** 1 when `k` occurs in `s`, else 0. */
  function Hit(s: string, k: string): nat
  {
    if Contains(s, k) then 1 else 0
  }

  /** The keyword count written out over the seven keywords. */
  lemma KeywordHitsUnrolled(s: string)
    ensures KeywordHits(s, Keywords)
            == Hit(s, "login") + Hit(s, "signin") + Hit(s, "account") + Hit(s, "bank")
               + Hit(s, "password") + Hit(s, "secure") + Hit(s, "update")
  {
    var k := Keywords;
    assert k[..1][..0] == [];
    assert KeywordHits(s, k[..1]) == Hit(s, "login");
    assert k[..2][..1] == k[..1];
    assert KeywordHits(s, k[..2]) == KeywordHits(s, k[..1]) + Hit(s, "signin");
    assert k[..3][..2] == k[..2];
    assert KeywordHits(s, k[..3]) == KeywordHits(s, k[..2]) + Hit(s, "account");
    assert k[..4][..3] == k[..3];
    assert KeywordHits(s, k[..4]) == KeywordHits(s, k[..3]) + Hit(s, "bank");
    assert k[..5][..4] == k[..4];
    assert KeywordHits(s, k[..5]) == KeywordHits(s, k[..4]) + Hit(s, "password");
    assert k[..6][..5] == k[..5];
    assert KeywordHits(s, k[..6]) == KeywordHits(s, k[..5]) + Hit(s, "secure");
    assert k[..7] == k && k[..7][..6] == k[..6];
  }

  /** "192.168.1.1" matches the IP pattern. */
  lemma PrivateAddressIsIpLiteral()
    ensures IsIPv4Literal("192.168.1.1")
  {
    LastGroupMatches("1");
    GroupThenDotMatches("1", "1", 2);
    GroupThenDotMatches("168", "1.1", 1);
    GroupThenDotMatches("192", "168.1.1", 0);
  }

  /**
   * Like "http://192.168.1.1/account-login" with a neutral lookup: an IP
   * literal (0.6) and two keywords (0.2) give 0.8, flagged with the IP reason alone.
   */
  lemma IpWithTwoKeywords(url: string, host: string, l: Lookup)
    requires IsIPv4Literal(host) && !IsLongUrl(url)
    requires IsNeutral(l) && l.suspiciousScore == 0.0
    requires |MatchedKeywords(ToLower(url), Keywords)| == 2
    ensures Evaluate(url, host, Some(l)) == Verdict(true, IpReason, 0.8)
  {
    IpLiteralHasFourLabels(host);
    KeywordHitsCountsDistinct(ToLower(url), Keywords);
    assert FiredReasons(url, host, Some(l)) == [IpReason];
  }

  /**
   * Like "https://example.com/" with a neutral lookup: no heuristic and no
   * keyword, so score 0 and a safe verdict without reason.
   */
  lemma PlainUrl(url: string, host: string, lookup: Option<Lookup>)
    requires !AnyFlaggingHeuristic(url, host, lookup) && ApiScore(lookup) == 0.0
    requires MatchedKeywords(ToLower(url), Keywords) == {}
    ensures Evaluate(url, host, lookup) == Verdict(false, "", 0.0)
  {
    KeywordHitsCountsDistinct(ToLower(url), Keywords);
  }

  /**
   * Like "https://paypai.com/login", known phishing and five days old: both
   * reputation reasons in detection order, and 0.9 + 0.5 on top of the
   * keywords and the lookup's own score.
   */
  lemma KnownYoungPhishing(url: string, host: string, l: Lookup)
    requires !IsIPv4Literal(host) && !HasExcessiveSubdomains(host) && !IsLongUrl(url)
    requires l.knownPhishing && l.domainAge < NewDomainDays && l.suspiciousScore >= 0.0
    ensures Evaluate(url, host, Some(l))
            == Verdict(true, KnownPhishingReason + ReasonSeparator + NewDomainReason,
                       KnownPhishingWeight + NewDomainWeight + KeywordScore(url) + l.suspiciousScore)
  {
    var fired := FiredReasons(url, host, Some(l));
    assert fired == [KnownPhishingReason, NewDomainReason];
    JoinCons(KnownPhishingReason, [NewDomainReason], ReasonSeparator);
    KeywordScoreBounds(url);
  }

  /**
   * Keywords can flag a URL through the final rule: all seven in an otherwise
   * plain URL reach exactly 0.7 even when the lookup failed, and the verdict
   * carries the aggregate reason alone.
   */
  lemma AllSevenKeywords(url: string, host: string, lookup: Option<Lookup>)
    requires !AnyFlaggingHeuristic(url, host, lookup) && ApiScore(lookup) == 0.0
    requires forall i :: 0 <= i < |Keywords| ==> Contains(ToLower(url), Keywords[i])
    ensures Evaluate(url, host, lookup) == Verdict(true, MultipleReason, SuspicionThreshold)
  {
    var s := ToLower(url);
    assert Contains(s, Keywords[0]) && Contains(s, Keywords[1]) && Contains(s, Keywords[2]);
    assert Contains(s, Keywords[3]) && Contains(s, Keywords[4]) && Contains(s, Keywords[5]);
    assert Contains(s, Keywords[6]);
    KeywordHitsUnrolled(s);
  }
}
