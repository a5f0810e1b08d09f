/**
 * The phishing risk scorer of `checkUrlForPhishing`: a fixed sequence of
 * heuristics over the URL string, its hostname and the outcome of the
 * reputation lookup, each adding to a score and some also flagging the URL
 * and recording a reason. `Evaluate` states the verdict declaratively;
 * `Score` builds it field by field as the source does.
 */
module RiskScorer {
  import opened Wrappers
  import opened Strings

  /** The result object `{isSuspicious, reason, score}`. */
  datatype Verdict = Verdict(isSuspicious: bool, reason: string, score: real)

  /** The decoded reply of the reputation lookup (the fields the scorer reads). */
  datatype Lookup = Lookup(knownPhishing: bool, domainAge: int, suspiciousScore: real)

  const IpReason := "Uses IP address instead of domain name"
  const SubdomainReason := "Excessive subdomains"
  const LongUrlReason := "Suspiciously long URL"
  const KnownPhishingReason := "Known phishing site"
  const NewDomainReason := "Very new domain"
  const MultipleReason := "Multiple suspicious patterns detected"
  const ReasonSeparator := " | "

  const IpWeight: real := 0.6
  const SubdomainWeight: real := 0.3
  const LongUrlWeight: real := 0.2
  const KeywordWeight: real := 0.1
  const KnownPhishingWeight: real := 0.9
  const NewDomainWeight: real := 0.5
  const SuspicionThreshold: real := 0.7

  const MaxLabels := 4
  const MaxUrlLength := 100
  const NewDomainDays := 30

  const Keywords: seq<string> := ["login", "signin", "account", "bank", "password", "secure", "update"]

  // ---------------------------------------------------------------- heuristics

  predicate IsDigit(c: char) { '0' <= c <= '9' }

  predicate AllDigits(p: string) { forall i :: 0 <= i < |p| ==> IsDigit(p[i]) }

  /** One `\d{1,3}` group. */
  predicate IsOctetGroup(p: string) { 1 <= |p| <= 3 && AllDigits(p) }

  /**
   * The matcher of `/^(\d{1,3}\.\d{1,3}\.\d{1,3}\.\d{1,3})$/`, scanning left to
   * right: `dots` is the number of dots read, `run` the digits read since the last one.
   */
  predicate IpScan(s: string, dots: nat, run: nat)
    decreases |s|
  {
    if s == [] then dots == 3 && 1 <= run <= 3
    else if IsDigit(s[0]) then run < 3 && IpScan(s[1..], dots, run + 1)
    else if s[0] == '.' then dots < 3 && 1 <= run && IpScan(s[1..], dots + 1, 0)
    else false
  }

  /** Heuristic 1: the hostname matches the IPv4-literal pattern. */
  predicate IsIPv4Literal(host: string) { IpScan(host, 0, 0) }

  /** `hostname.split('.').length`. */
  function LabelCount(host: string): nat { |SplitOn(host, ".")| }

  /** Heuristic 2: more than four dot-separated labels. */
  predicate HasExcessiveSubdomains(host: string) { LabelCount(host) > MaxLabels }

  /** Heuristic 3: the URL string is longer than 100 characters. */
  predicate IsLongUrl(url: string) { |url| > MaxUrlLength }

  /** How many of `kws` occur in `lowered`, each counted once. */
  function KeywordHits(lowered: string, kws: seq<string>): nat
  {
    if kws == [] then 0
    else KeywordHits(lowered, kws[..|kws| - 1]) + (if Contains(lowered, kws[|kws| - 1]) then 1 else 0)
  }

  /** Heuristic 4: 0.1 for each of the seven keywords in the lowercased URL. */
  function KeywordScore(url: string): real
  {
    KeywordWeight * KeywordHits(ToLower(url), Keywords) as real
  }

  /** Heuristic 5: the lookup answered and reported a known phishing site. */
  predicate IsKnownPhishing(lookup: Option<Lookup>)
  {
    lookup.Some? && lookup.value.knownPhishing
  }

  /** Heuristic 6: the lookup answered with a domain younger than 30 days. */
  predicate IsNewDomain(lookup: Option<Lookup>)
  {
    lookup.Some? && lookup.value.domainAge < NewDomainDays
  }

  /** Heuristic 7: the lookup's own score, when it answered and that score is positive. */
  function ApiScore(lookup: Option<Lookup>): real
  {
    if lookup.Some? && lookup.value.suspiciousScore > 0.0 then lookup.value.suspiciousScore else 0.0
  }

  /** Some heuristic that flags the URL on its own fired. */
  predicate AnyFlaggingHeuristic(url: string, host: string, lookup: Option<Lookup>)
  {
    IsIPv4Literal(host) || HasExcessiveSubdomains(host) || IsLongUrl(url)
    || IsKnownPhishing(lookup) || IsNewDomain(lookup)
  }

  /** The reasons of the local heuristics that fired, in detection order. */
  function LocalReasons(url: string, host: string): seq<string>
  {
    (if IsIPv4Literal(host) then [IpReason] else [])
    + (if HasExcessiveSubdomains(host) then [SubdomainReason] else [])
    + (if IsLongUrl(url) then [LongUrlReason] else [])
  }

  /** The reasons of the reputation heuristics that fired, in detection order. */
  function ReputationReasons(lookup: Option<Lookup>): seq<string>
  {
    (if IsKnownPhishing(lookup) then [KnownPhishingReason] else [])
    + (if IsNewDomain(lookup) then [NewDomainReason] else [])
  }

  /** The reasons of all flagging heuristics that fired, in detection order. */
  function FiredReasons(url: string, host: string, lookup: Option<Lookup>): seq<string>
  {
    LocalReasons(url, host) + ReputationReasons(lookup)
  }

  /** The score of the local heuristics 1 to 4. */
  function LocalScore(url: string, host: string): real
  {
    (if IsIPv4Literal(host) then IpWeight else 0.0)
    + (if HasExcessiveSubdomains(host) then SubdomainWeight else 0.0)
    + (if IsLongUrl(url) then LongUrlWeight else 0.0)
    + KeywordScore(url)
  }

  /** The score of the reputation heuristics 5 to 7; nothing when the lookup failed. */
  function ReputationScore(lookup: Option<Lookup>): real
  {
    (if IsKnownPhishing(lookup) then KnownPhishingWeight else 0.0)
    + (if IsNewDomain(lookup) then NewDomainWeight else 0.0)
    + ApiScore(lookup)
  }

  /** The verdict for `url` with hostname `host`, given the outcome of the lookup (`None`: it threw). */
  function Evaluate(url: string, host: string, lookup: Option<Lookup>): Verdict
  {
    var fired := FiredReasons(url, host, lookup);
    var score := LocalScore(url, host) + ReputationScore(lookup);
    if score >= SuspicionThreshold && fired == [] then Verdict(true, MultipleReason, score)
    else Verdict(fired != [] || score >= SuspicionThreshold, Join(fired, ReasonSeparator), score)
  }

  /** A verdict as every scoring run leaves it. */
  predicate WellFormed(v: Verdict)
  {
    && (v.isSuspicious <==> v.reason != "")
    && (v.score >= SuspicionThreshold ==> v.isSuspicious)
    && v.score >= 0.0
  }

  // --------------------------------------------------------- the scoring run

  /** `result.reason += (result.reason ? ' | ' : '') + next`. */
  function AppendReason(reason: string, next: string): string
  {
    reason + (if reason != "" then ReasonSeparator else "") + next
  }

  /** Scoring as `checkUrlForPhishing` does it, updating the result one heuristic at a time. */
  method Score(url: string, host: string, lookup: Option<Lookup>) returns (result: Verdict)
    ensures result == Evaluate(url, host, lookup)
  {
    var isSuspicious, reason, score := LocalHeuristics(url, host);
    ghost var fired := LocalReasons(url, host);
    match lookup {
      case None =>
        // The lookup threw: the local heuristics stand alone.
        assert FiredReasons(url, host, lookup) == fired;
      case Some(api) =>
        isSuspicious, reason, score := ReputationHeuristics(api, isSuspicious, reason, score, fired);
        fired := fired + ReputationReasons(lookup);
    }
    JoinEmptyIff(fired, ReasonSeparator);
    if score >= SuspicionThreshold {
      isSuspicious := true;
      if reason == "" {
        reason := MultipleReason;
      }
    }
    result := Verdict(isSuspicious, reason, score);
  }

  /** Heuristics 1 to 4, from a fresh result `{isSuspicious: false, reason: '', score: 0}`. */
  method LocalHeuristics(url: string, host: string) returns (isSuspicious: bool, reason: string, score: real)
    ensures Tracks(LocalReasons(url, host), isSuspicious, reason)
    ensures score == LocalScore(url, host)
  {
    isSuspicious, reason, score := false, "", 0.0;
    // The reasons recorded so far, of which `reason` is the join.
    ghost var fired: seq<string> := [];

    if IsIPv4Literal(host) {
      isSuspicious := true;
      reason := IpReason;
      score := score + IpWeight;
      fired := fired + [IpReason];
    }
    assert Tracks(fired, isSuspicious, reason);
    if LabelCount(host) > MaxLabels {
      TracksAppend(fired, isSuspicious, reason, SubdomainReason);
      isSuspicious := true;
      reason := AppendReason(reason, SubdomainReason);
      score := score + SubdomainWeight;
      fired := fired + [SubdomainReason];
    }
    if |url| > MaxUrlLength {
      TracksAppend(fired, isSuspicious, reason, LongUrlReason);
      isSuspicious := true;
      reason := AppendReason(reason, LongUrlReason);
      score := score + LongUrlWeight;
      fired := fired + [LongUrlReason];
    }
    assert fired == LocalReasons(url, host);

    var lowered := ToLower(url);
    ghost var beforeKeywords := score;
    for i := 0 to |Keywords|
      invariant score == beforeKeywords + KeywordWeight * KeywordHits(lowered, Keywords[..i]) as real
    {
      assert Keywords[..i + 1][..i] == Keywords[..i];
      if Contains(lowered, Keywords[i]) {
        score := score + KeywordWeight;
      }
    }
    assert Keywords[..|Keywords|] == Keywords;
  }

  /** Heuristics 5 to 7, applied to the local result once the lookup has answered `api`. */
  method ReputationHeuristics(api: Lookup, isSuspicious: bool, reason: string, score: real, ghost fired: seq<string>)
    returns (isSuspicious': bool, reason': string, score': real)
    requires Tracks(fired, isSuspicious, reason)
    ensures Tracks(fired + ReputationReasons(Some(api)), isSuspicious', reason')
    ensures score' == score + ReputationScore(Some(api))
  {
    isSuspicious', reason', score' := isSuspicious, reason, score;
    ghost var fired' := fired;
    if api.knownPhishing {
      TracksAppend(fired', isSuspicious', reason', KnownPhishingReason);
      isSuspicious' := true;
      reason' := AppendReason(reason', KnownPhishingReason);
      score' := score' + KnownPhishingWeight;
      fired' := fired' + [KnownPhishingReason];
    }
    if api.domainAge < NewDomainDays {
      TracksAppend(fired', isSuspicious', reason', NewDomainReason);
      isSuspicious' := true;
      reason' := AppendReason(reason', NewDomainReason);
      score' := score' + NewDomainWeight;
      fired' := fired' + [NewDomainReason];
    }
    if api.suspiciousScore > 0.0 {
      score' := score' + api.suspiciousScore;
    }
    assert fired' == fired + ReputationReasons(Some(api));
  }

  /** `isSuspicious` and `reason` record exactly the non-empty reasons in `fired`. */
  ghost predicate Tracks(fired: seq<string>, isSuspicious: bool, reason: string)
  {
    && (forall i :: 0 <= i < |fired| ==> fired[i] != "")
    && isSuspicious == (fired != [])
    && reason == Join(fired, ReasonSeparator)
  }

  /** Recording one more non-empty reason appends it to the join and sets the flag. */
  lemma TracksAppend(fired: seq<string>, isSuspicious: bool, reason: string, next: string)
    requires Tracks(fired, isSuspicious, reason) && next != ""
    ensures Tracks(fired + [next], true, AppendReason(reason, next))
  {
    JoinEmptyIff(fired, ReasonSeparator);
    JoinSnoc(fired, next, ReasonSeparator);
  }
}
