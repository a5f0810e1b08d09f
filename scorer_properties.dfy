/**
 * What the risk scorer promises: the IPv4 pattern means four groups of one to
 * three digits, the reason string lists the fired heuristics in detection
 * order, the flag is set exactly when a flagging heuristic fired or the score
 * reached 0.7, and a failed lookup scores like a neutral one.
 */
module ScorerProperties {
  import opened Wrappers
  import opened Strings
  import opened RiskScorer

  // ------------------------------------------------------------- IPv4 literal

  /** The groups `g`, read after `dots` dots and `run` digits of the current group, complete the pattern. */
  ghost predicate GroupsFrom(g: seq<string>, dots: nat, run: nat)
  {
    && |g| >= 1
    && |g| + dots == 4
    && 1 <= run + |g[0]| <= 3
    && AllDigits(g[0])
    && forall i :: 1 <= i < |g| ==> IsOctetGroup(g[i])
  }

  /** The hostname is four dot-separated groups of one to three digits. */
  ghost predicate IsFourOctetGroups(host: string)
  {
    var g := SplitOn(host, ".");
    |g| == 4 && forall i :: 0 <= i < 4 ==> IsOctetGroup(g[i])
  }

  lemma {:induction false} IpScanGroups(s: string, dots: nat, run: nat)
    requires run <= 3
    ensures IpScan(s, dots, run) <==> GroupsFrom(SplitOn(s, "."), dots, run)
    decreases |s|
  {
    if s == [] {
      assert SplitOn(s, ".") == [""];
    } else {
      var rest := SplitOn(s[1..], ".");
      var parts := SplitOn(s, ".");
      assert s[..1] == [s[0]];
      if s[0] == '.' {
        assert parts == [""] + rest;
        IpScanGroups(s[1..], dots + 1, 0);
        assert forall i :: 1 <= i < |parts| ==> parts[i] == rest[i - 1];
        if GroupsFrom(parts, dots, run) {
          assert IsOctetGroup(parts[1]);
          forall i | 1 <= i < |rest|
            ensures IsOctetGroup(rest[i])
          {
            assert parts[i + 1] == rest[i];
          }
          assert GroupsFrom(rest, dots + 1, 0);
        }
        if dots < 3 && 1 <= run && GroupsFrom(rest, dots + 1, 0) {
          assert IsOctetGroup(rest[0]);
          assert GroupsFrom(parts, dots, run);
        }
      } else {
        assert parts == [[s[0]] + rest[0]] + rest[1..];
        assert forall i :: 1 <= i < |parts| ==> parts[i] == rest[i];
        assert parts[0][1..] == rest[0];
        if IsDigit(s[0]) && run < 3 {
          IpScanGroups(s[1..], dots, run + 1);
          assert AllDigits(parts[0]) <==> AllDigits(rest[0]) by {
            assert forall i :: 1 <= i < |parts[0]| ==> parts[0][i] == rest[0][i - 1];
          }
        } else if !IsDigit(s[0]) {
          assert !IsDigit(parts[0][0]);
        }
      }
    }
  }

  /** The IP pattern holds exactly when the hostname is four dot-separated groups of one to three digits (no octet range check). */
  lemma IpLiteralIffFourGroups(host: string)
    ensures IsIPv4Literal(host) <==> IsFourOctetGroups(host)
  {
    IpScanGroups(host, 0, 0);
    var g := SplitOn(host, ".");
    if IsFourOctetGroups(host) {
      assert IsOctetGroup(g[0]);
    }
  }

  /** A final group of one to three digits completes the pattern after three dots. */
  lemma LastGroupMatches(g: string)
    requires IsOctetGroup(g)
    ensures IpScan(g, 3, 0)
  {
    if |g| == 1 {
      assert g[1..] == [];
    } else if |g| == 2 {
      assert g[1..][1..] == [];
    } else {
      assert g[1..][1..][1..] == [];
      assert IpScan(g[1..][1..], 3, 2);
      assert IpScan(g[1..], 3, 1);
    }
  }

  /** A group of one to three digits followed by a dot advances the pattern by one dot. */
  lemma GroupThenDotMatches(g: string, rest: string, dots: nat)
    requires IsOctetGroup(g) && dots < 3 && IpScan(rest, dots + 1, 0)
    ensures IpScan(g + "." + rest, dots, 0)
  {
    var s := g + "." + rest;
    var tail := "." + rest;
    assert tail[1..] == rest;
    if |g| == 1 {
      assert s[1..] == tail;
    } else if |g| == 2 {
      assert s[1..][1..] == tail;
    } else {
      assert s[1..][1..][1..] == tail;
      assert IpScan(tail, dots, 3);
      assert IpScan(s[1..][1..], dots, 2);
      assert IpScan(s[1..], dots, 1);
    }
  }

  /** `999.999.999.999` is an IP literal to the scorer: the digits are not checked against 255. */
  lemma NoOctetRangeCheck()
    ensures IsIPv4Literal("999.999.999.999")
  {
    var g := "999";
    LastGroupMatches(g);
    GroupThenDotMatches(g, g, 2);
    var two := g + "." + g;
    GroupThenDotMatches(g, two, 1);
    var three := g + "." + two;
    GroupThenDotMatches(g, three, 0);
    assert g + "." + three == "999.999.999.999";
  }

  /** An IP literal has exactly four labels, so it never also counts as excessive subdomains. */
  lemma IpLiteralHasFourLabels(host: string)
    requires IsIPv4Literal(host)
    ensures LabelCount(host) == 4 && !HasExcessiveSubdomains(host)
  {
    IpLiteralIffFourGroups(host);
  }

  // ----------------------------------------------------------------- reasons

  /** The five reasons a heuristic can record. */
  predicate IsHeuristicReason(r: string)
  {
    r == IpReason || r == SubdomainReason || r == LongUrlReason || r == KnownPhishingReason || r == NewDomainReason
  }

  lemma FiredAreHeuristicReasons(url: string, host: string, lookup: Option<Lookup>)
    ensures forall i :: 0 <= i < |FiredReasons(url, host, lookup)| ==> IsHeuristicReason(FiredReasons(url, host, lookup)[i])
  {
  }

  /** A string without `|` cannot let " | " start inside it. */
  lemma {:induction false} NoBarNoEarlySeparator(x: string)
    requires forall i :: 0 <= i < |x| ==> x[i] != '|'
    ensures NoEarlySeparator(x, ReasonSeparator)
  {
    var y := x + ReasonSeparator;
    forall i | 0 <= i < |x|
      ensures !OccursAt(y, ReasonSeparator, i)
    {
      assert y[i + 1] != '|' by {
        if i + 1 < |x| {
          assert y[i + 1] == x[i + 1];
        } else {
          assert y[i + 1] == ReasonSeparator[0];
        }
      }
      assert y[i..i + |ReasonSeparator|][1] == y[i + 1];
    }
  }

  /** No reason the scorer records lets a separator start early, and none is empty or starts or ends with a space. */
  lemma ReasonShapes(r: string)
    requires IsHeuristicReason(r) || r == MultipleReason
    ensures NoEarlySeparator(r, ReasonSeparator)
    ensures r != "" && r[0] != ' ' && r[|r| - 1] != ' '
  {
    NoBarNoEarlySeparator(r);
  }

  /** All recorded reasons: non-empty and free of early separators. */
  lemma FiredShapes(fired: seq<string>)
    requires forall i :: 0 <= i < |fired| ==> IsHeuristicReason(fired[i])
    ensures forall i :: 0 <= i < |fired| ==> NoEarlySeparator(fired[i], ReasonSeparator) && fired[i] != ""
  {
    forall i | 0 <= i < |fired|
      ensures NoEarlySeparator(fired[i], ReasonSeparator) && fired[i] != ""
    {
      ReasonShapes(fired[i]);
    }
  }

  /**
   * The reason string of a flagged verdict splits on " | " into exactly the
   * fired heuristics' reasons in detection order, or, when none fired, into the
   * single aggregate reason; an unflagged verdict has no reason.
   */
  lemma ReasonsInDetectionOrder(url: string, host: string, lookup: Option<Lookup>)
    ensures var v := Evaluate(url, host, lookup);
            var fired := FiredReasons(url, host, lookup);
            && (!v.isSuspicious ==> v.reason == "")
            && (v.isSuspicious ==> SplitOn(v.reason, ReasonSeparator) == if fired == [] then [MultipleReason] else fired)
  {
    var fired := FiredReasons(url, host, lookup);
    FiredAreHeuristicReasons(url, host, lookup);
    FiredShapes(fired);
    if fired == [] {
      ReasonShapes(MultipleReason);
      SplitOnWholePart(MultipleReason, ReasonSeparator);
    } else {
      SplitOnJoin(fired, ReasonSeparator);
    }
  }

  /** "Multiple suspicious patterns detected" is never one reason among others. */
  lemma AggregateReasonOnlyAlone(url: string, host: string, lookup: Option<Lookup>)
    ensures var v := Evaluate(url, host, lookup);
            var parts := SplitOn(v.reason, ReasonSeparator);
            MultipleReason in parts ==> parts == [MultipleReason] && !AnyFlaggingHeuristic(url, host, lookup) && v.score >= SuspicionThreshold
  {
    ReasonsInDetectionOrder(url, host, lookup);
    FiredAreHeuristicReasons(url, host, lookup);
    var v := Evaluate(url, host, lookup);
    if !v.isSuspicious {
      assert SplitOn("", ReasonSeparator) == [""];
    }
  }

  /** The reason string has no leading and no trailing " | ". */
  lemma NoStrayDelimiter(url: string, host: string, lookup: Option<Lookup>)
    ensures var r := Evaluate(url, host, lookup).reason;
            !StartsWith(r, ReasonSeparator) && !EndsWith(r, ReasonSeparator)
  {
    var fired := FiredReasons(url, host, lookup);
    var r := Evaluate(url, host, lookup).reason;
    FiredAreHeuristicReasons(url, host, lookup);
    if r != "" {
      var parts := if fired == [] then [MultipleReason] else fired;
      assert r == Join(parts, ReasonSeparator);
      ReasonShapes(parts[0]);
      ReasonShapes(parts[|parts| - 1]);
      JoinFirstChar(parts, ReasonSeparator);
      JoinLastChar(parts, ReasonSeparator);
      if |r| >= |ReasonSeparator| {
        assert r[..|ReasonSeparator|][0] == r[0];
        assert r[|r| - |ReasonSeparator|..][2] == r[|r| - 1];
      }
    }
  }

  // -------------------------------------------------------------------- flag

  /** The flag is set exactly when a flagging heuristic fired or the score reached the threshold. */
  lemma SuspiciousIff(url: string, host: string, lookup: Option<Lookup>)
    ensures var v := Evaluate(url, host, lookup);
            v.isSuspicious <==> AnyFlaggingHeuristic(url, host, lookup) || v.score >= SuspicionThreshold
  {
  }

  /** Every computed verdict is flagged exactly when it has a reason, and its score is non-negative. */
  lemma EvaluateWellFormed(url: string, host: string, lookup: Option<Lookup>)
    ensures WellFormed(Evaluate(url, host, lookup))
  {
    var fired := FiredReasons(url, host, lookup);
    FiredAreHeuristicReasons(url, host, lookup);
    FiredShapes(fired);
    JoinEmptyIff(fired, ReasonSeparator);
  }

  /** An IP-literal host flags the verdict and its reason comes first. */
  lemma IpLiteralFlagged(url: string, host: string, lookup: Option<Lookup>)
    requires IsIPv4Literal(host)
    ensures var v := Evaluate(url, host, lookup);
            v.isSuspicious && StartsWith(v.reason, IpReason)
  {
    var fired := FiredReasons(url, host, lookup);
    assert fired[0] == IpReason;
    if |fired| > 1 {
      JoinCons(fired[0], fired[1..], ReasonSeparator);
      assert [fired[0]] + fired[1..] == fired;
    }
  }

  /** The reasons of the flagging heuristics that fired are among the fired reasons. */
  lemma FlagsAreFired(url: string, host: string, lookup: Option<Lookup>)
    ensures var fired := FiredReasons(url, host, lookup);
            && (HasExcessiveSubdomains(host) ==> SubdomainReason in fired)
            && (IsLongUrl(url) ==> LongUrlReason in fired)
            && (IsKnownPhishing(lookup) ==> KnownPhishingReason in fired)
            && (IsNewDomain(lookup) ==> NewDomainReason in fired)
  {
  }

  /**
   * Each other flagging heuristic that fired flags the verdict, leaves its
   * reason among the split reasons and adds at least its weight to the score.
   */
  lemma FlaggingHeuristicRecorded(url: string, host: string, lookup: Option<Lookup>)
    ensures var v := Evaluate(url, host, lookup);
            var parts := SplitOn(v.reason, ReasonSeparator);
            && (HasExcessiveSubdomains(host) ==> v.isSuspicious && SubdomainReason in parts && v.score >= SubdomainWeight)
            && (IsLongUrl(url) ==> v.isSuspicious && LongUrlReason in parts && v.score >= LongUrlWeight)
            && (IsKnownPhishing(lookup) ==> v.isSuspicious && KnownPhishingReason in parts && v.score >= KnownPhishingWeight)
            && (IsNewDomain(lookup) ==> v.isSuspicious && NewDomainReason in parts && v.score >= NewDomainWeight)
  {
    ReasonsInDetectionOrder(url, host, lookup);
    FlagsAreFired(url, host, lookup);
    var fired := FiredReasons(url, host, lookup);
    assert AnyFlaggingHeuristic(url, host, lookup) ==> fired != [];
    assert KeywordScore(url) >= 0.0;
  }

  /** An IP-literal host adds exactly 0.6 on top of the other heuristics, and rules out the subdomain heuristic. */
  lemma IpLiteralScore(url: string, host: string, lookup: Option<Lookup>)
    requires IsIPv4Literal(host)
    ensures Evaluate(url, host, lookup).score
            == IpWeight + (if IsLongUrl(url) then LongUrlWeight else 0.0) + KeywordScore(url) + ReputationScore(lookup)
  {
    IpLiteralHasFourLabels(host);
  }

  // ------------------------------------------------------------------ score

  /** The score is never negative. */
  lemma ScoreNonNegative(url: string, host: string, lookup: Option<Lookup>)
    ensures Evaluate(url, host, lookup).score >= 0.0
  {
  }

  /** A lookup that flags nothing and has no positive score. */
  predicate IsNeutral(l: Lookup)
  {
    !l.knownPhishing && l.domainAge >= NewDomainDays && l.suspiciousScore <= 0.0
  }

  /** A failed lookup gives the same verdict as a neutral answer: the local heuristics alone. */
  lemma FailedLookupIsNeutral(url: string, host: string, l: Lookup)
    requires IsNeutral(l)
    ensures Evaluate(url, host, None) == Evaluate(url, host, Some(l))
  {
    assert FiredReasons(url, host, None) == FiredReasons(url, host, Some(l));
  }

  /** A non-positive lookup score changes nothing. */
  lemma NonPositiveApiScoreIgnored(url: string, host: string, l: Lookup)
    requires l.suspiciousScore <= 0.0
    ensures Evaluate(url, host, Some(l)) == Evaluate(url, host, Some(l.(suspiciousScore := 0.0)))
  {
    assert FiredReasons(url, host, Some(l)) == FiredReasons(url, host, Some(l.(suspiciousScore := 0.0)));
  }

  // --------------------------------------------------------------- keywords

  /** The keywords of `kws` that occur in `s`. */
  ghost function MatchedKeywords(s: string, kws: seq<string>): set<string>
  {
    set k | k in kws && Contains(s, k)
  }

  /** For distinct keywords, the hit count is the number of distinct keywords that occur, each counted once however often it occurs. */
  lemma {:induction false} KeywordHitsCountsDistinct(s: string, kws: seq<string>)
    requires forall i, j :: 0 <= i < j < |kws| ==> kws[i] != kws[j]
    ensures KeywordHits(s, kws) == |MatchedKeywords(s, kws)|
    decreases |kws|
  {
    if kws != [] {
      var init := kws[..|kws| - 1];
      var last := kws[|kws| - 1];
      KeywordHitsCountsDistinct(s, init);
      assert last !in init by {
        assert forall j :: 0 <= j < |init| ==> init[j] == kws[j];
      }
      assert kws == init + [last];
      if Contains(s, last) {
        assert MatchedKeywords(s, kws) == MatchedKeywords(s, init) + {last};
      } else {
        assert MatchedKeywords(s, kws) == MatchedKeywords(s, init);
      }
    }
  }

  /** The keyword score is 0.1 times the number of distinct keywords in the lowercased URL, so at most 0.7. */
  lemma KeywordScoreBounds(url: string)
    ensures KeywordScore(url) == KeywordWeight * |MatchedKeywords(ToLower(url), Keywords)| as real
    ensures 0.0 <= KeywordScore(url) <= SuspicionThreshold
  {
    KeywordHitsCountsDistinct(ToLower(url), Keywords);
    assert MatchedKeywords(ToLower(url), Keywords) <= set k | k in Keywords;
    SetOfSeqSize(Keywords);
    assert |MatchedKeywords(ToLower(url), Keywords)| <= 7 by {
      SubsetSize(MatchedKeywords(ToLower(url), Keywords), set k | k in Keywords);
    }
  }

  lemma SetOfSeqSize(kws: seq<string>)
    requires kws == Keywords
    ensures |set k | k in kws| == 7
  {
    assert (set k | k in kws) == {"login", "signin", "account", "bank", "password", "secure", "update"};
  }

  lemma SubsetSize(a: set<string>, b: set<string>)
    requires a <= b
    ensures |a| <= |b|
  {
    assert b == a + (b - a);
  }

  /**
   * Keywords never flag a URL by themselves below the threshold: with no
   * flagging heuristic, no lookup score and at most six keywords, the verdict
   * is safe and has no reason.
   */
  lemma KeywordsAloneDoNotFlag(url: string, host: string, lookup: Option<Lookup>)
    requires !AnyFlaggingHeuristic(url, host, lookup) && ApiScore(lookup) == 0.0
    requires |MatchedKeywords(ToLower(url), Keywords)| <= 6
    ensures !Evaluate(url, host, lookup).isSuspicious && Evaluate(url, host, lookup).reason == ""
  {
    KeywordHitsCountsDistinct(ToLower(url), Keywords);
  }
}
