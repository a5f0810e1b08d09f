# PhishGuard risk scorer and verdict cache in Dafny

PhishGuard is a browser extension. For each top-level navigation, it decides
whether the URL looks like phishing and redirects the tab to a warning page if
it does. This project models the core of its background script
`phishing_extension/background.js`, which has three parts.

- **The risk scorer** (`checkUrlForPhishing`) builds the result
  `{isSuspicious, reason, score}` one heuristic at a time:
  - an IPv4-literal hostname (+0.6);
  - more than four hostname labels (+0.3);
  - a URL longer than 100 characters (+0.2);
  - each of seven sensitive keywords in the lowercased URL (+0.1 each);
  - the reputation lookup: known phishing (+0.9), a domain younger than
    30 days (+0.5), and its own positive score;
  - a final rule: a score of at least 0.7 flags the URL.

  Every heuristic except the keywords and the lookup's own score also flags
  the URL and appends its reason, joined with `" | "`.
- **The verdict cache** (`urlCache`) maps each URL to its verdict and an
  expiry time.
  - A live entry (`expiry > now`) is served as is.
  - On a miss, the scorer runs and its verdict is stored for 12 hours if
    suspicious, or 24 hours if safe.
  - `cleanCache` deletes every entry with `now > expiry`.
- **The navigation listener** (`onBeforeNavigate`) checks only main-frame
  navigations that are not to the browser's own pages (`chrome:`,
  `chrome-extension:`, `about:`). It warns exactly when the verdict is
  suspicious.

The source is imperative, and the model keeps that form:
- `RiskScorer.Score` updates the result field by field and counts keywords in
  a loop. It is proved equal to the declarative verdict `RiskScorer.Evaluate`.
- `VerdictCache.UrlCache` is a class whose `map` field is updated in place by
  `CheckUrl` and `CleanCache`. Each method is proved to leave the map that the
  functions `Check` and `Swept` describe.
- `Navigation.OnBeforeNavigate` runs the listener on such a cache.

Modelling choices:
- The hostname and the URL's protocol are given as inputs next to the URL
  string, instead of being parsed from it.
- The reputation lookup's outcome is an input `Option<Lookup>`. `None` means
  the awaited call threw, and the scorer continues with its local heuristics
  only.
- The score is a `real`, with no floating-point rounding.
- Each call takes one time `now`.

Files:
- `wrappers.dfy`: `Option`.
- `strings.dfy`: the JavaScript string operations used: `join`, `split` on a
  non-empty separator, `includes`, and an ASCII `toLowerCase`. It also holds
  their split/join round-trip lemmas.
- `risk_scorer.dfy`: the heuristics, `Evaluate` and the imperative `Score`.
- `scorer_properties.dfy`: the scorer's invariants.
- `scorer_examples.dfy`: the worked verdicts, stated for every URL with the
  example's features.
- `reputation.dfy`: the simulated lookup's list of known phishing hosts.
- `verdict_cache.dfy`: the cache.
- `navigation.dfy`: the listener.

The sweep at `background.js:23` deletes only entries with `now > expiry`.
So an entry that expires exactly at `now` survives the sweep, although it is
already a miss (line 65). The model follows the code
(`VerdictCache.ExpiryBoundary`).

## Model

| member | source | states |
|---|---|---|
| RiskScorer.Score | phishing_extension/background.js:69-133 | The field-by-field scoring run yields exactly the declarative verdict: flag, joined reasons and summed score of all heuristics and the final rule. |
| RiskScorer.LocalHeuristics | phishing_extension/background.js:70-102 | After heuristics 1 to 4, the flag is set iff a local flagging heuristic fired. The reason is their reasons joined by the separator in order. The score is their weights plus 0.1 per keyword (the loop's invariant). |
| RiskScorer.ReputationHeuristics | phishing_extension/background.js:106-122 | An answered lookup appends "Known phishing site" and then "Very new domain" to the reasons recorded so far, as each fires. It adds 0.9, 0.5 and a positive lookup score to the score. |
| RiskScorer.TracksAppend | phishing_extension/background.js:85 | Appending a reason with the separator only when one is already recorded appends one part to the join of the reasons so far, and sets the flag. |
| ScorerProperties.IpScanGroups | phishing_extension/background.js:74 | The left-to-right matcher of `^\d{1,3}(\.\d{1,3}){3}$`, started in any state, accepts exactly the strings whose dot-split groups complete four 1–3-digit groups. |
| ScorerProperties.IpLiteralIffFourGroups | phishing_extension/background.js:74-75 | A hostname is an IP literal iff it splits at dots into exactly four groups of one to three digits. |
| ScorerProperties.NoOctetRangeCheck | phishing_extension/background.js:74 | There is no octet range check: "999.999.999.999" counts as an IP address. |
| ScorerProperties.IpLiteralHasFourLabels | phishing_extension/background.js:74-87 | An IP-literal hostname has exactly four labels, so it never also counts as excessive subdomains. |
| ScorerProperties.IpLiteralFlagged | phishing_extension/background.js:75-79 | An IP-literal hostname always flags the verdict, and its reason starts with "Uses IP address instead of domain name". |
| ScorerProperties.IpLiteralScore | phishing_extension/background.js:75-79 | An IP-literal hostname contributes exactly 0.6 on top of the length, keyword and lookup terms. |
| ScorerProperties.FlaggingHeuristicRecorded | phishing_extension/background.js:81-94 | Each of excessive subdomains, long URL, known phishing and new domain, when it fires, flags the verdict. Its reason is one of the separator-delimited parts, and the score is at least its weight. |
| ScorerProperties.FlagsAreFired | phishing_extension/background.js:83-117 | The reason of each flagging heuristic that fired is among the recorded reasons. |
| ScorerProperties.SuspiciousIff | phishing_extension/background.js:75-133 | The verdict is suspicious exactly when a flagging heuristic fired or the score is at least 0.7. |
| ScorerProperties.EvaluateWellFormed | phishing_extension/background.js:70-133 | Every verdict is flagged iff it has a reason. A score of 0.7 or more is always flagged, and the score is never negative. |
| ScorerProperties.ReasonsInDetectionOrder | phishing_extension/background.js:77-131 | An unflagged verdict has an empty reason. A flagged one splits at the separator into the fired reasons in detection order (IP, subdomains, length, known phishing, new domain), or into the aggregate reason alone when none fired. |
| ScorerProperties.AggregateReasonOnlyAlone | phishing_extension/background.js:128-133 | "Multiple suspicious patterns detected" appears only as the sole reason: no flagging heuristic fired and the score reached 0.7. |
| ScorerProperties.NoStrayDelimiter | phishing_extension/background.js:85-116 | The reason never starts or ends with the separator. |
| ScorerProperties.FiredAreHeuristicReasons | phishing_extension/background.js:77-116 | Every recorded reason is one of the five heuristic reason strings. |
| ScorerProperties.ReasonShapes | phishing_extension/background.js:77-131 | Every reason string is non-empty, starts and ends with a non-space, and contains no separator. |
| ScorerProperties.ScoreNonNegative | phishing_extension/background.js:70-122 | The score is never negative. |
| ScorerProperties.FailedLookupIsNeutral | phishing_extension/background.js:105-125 | A lookup that threw gives the same verdict as a neutral answer: not known phishing, at least 30 days old, and no positive score. |
| ScorerProperties.NonPositiveApiScoreIgnored | phishing_extension/background.js:120-122 | A non-positive lookup score changes nothing in the verdict. |
| ScorerProperties.KeywordHitsCountsDistinct | phishing_extension/background.js:97-102 | For a list of distinct keywords, the loop counts each keyword that occurs once, however often it occurs. |
| ScorerProperties.KeywordScoreBounds | phishing_extension/background.js:97-102 | The keyword contribution is 0.1 times the number of distinct keywords in the lowercased URL, so it lies between 0 and 0.7. |
| ScorerProperties.KeywordsAloneDoNotFlag | phishing_extension/background.js:97-102 | Keywords never flag or add a reason themselves. With no flagging heuristic, no lookup score and at most six keywords, the verdict is safe and has no reason. |
| ScorerExamples.KeywordHitsUnrolled | phishing_extension/background.js:97-102 | The keyword count is the sum of one hit per keyword: login, signin, account, bank, password, secure, update. |
| ScorerExamples.PrivateAddressIsIpLiteral | phishing_extension/background.js:74 | "192.168.1.1" matches the IP pattern. |
| ScorerExamples.IpWithTwoKeywords | phishing_extension/background.js:74-133 | An IP-literal host with a short URL, two keywords and a neutral lookup gives exactly (true, "Uses IP address instead of domain name", 0.8). An example is "http://192.168.1.1/account-login". |
| ScorerExamples.PlainUrl | phishing_extension/background.js:70-133 | No heuristic, no keyword and no lookup score give the safe verdict (false, "", 0). |
| ScorerExamples.KnownYoungPhishing | phishing_extension/background.js:104-122 | A known phishing domain younger than 30 days, with no local flag, gets "Known phishing site" then "Very new domain" as its two reasons. Its score is 1.4 plus the keyword and lookup terms. |
| ScorerExamples.AllSevenKeywords | phishing_extension/background.js:97-133 | All seven keywords with nothing else reach exactly 0.7. So keywords can flag through the final rule, and then the reason is "Multiple suspicious patterns detected" alone. |
| Reputation.ListedHostFlagged | phishing_extension/background.js:155-167 | A hostname on the known-phishing list is flagged whatever the random age and score. It scores at least 0.9, and "Known phishing site" is among its reasons. |
| Reputation.UnlistedPlainHostSafe | phishing_extension/background.js:155-169 | An unlisted, old, locally clean hostname with at most four keywords is never flagged by the simulated lookup: 0.4 plus a draw below 0.3 stays below 0.7. Five keywords can reach it. |
| VerdictCache.DurationByVerdict | phishing_extension/background.js:2-3 | Suspicious verdicts are stored for 12 h (43 200 000 ms) and safe ones for 24 h (86 400 000 ms). |
| VerdictCache.HitServesStored | phishing_extension/background.js:65-67 | On a live entry, the stored verdict is returned and the cache is unchanged. |
| VerdictCache.MissStoresOnlyUrl | phishing_extension/background.js:135-140 | On a miss, the check returns the scorer's verdict. It adds or overwrites only `url`, with expiry now + 12 h if suspicious or now + 24 h if safe. All other keys and entries are unchanged. |
| VerdictCache.CheckKeepsValid | phishing_extension/background.js:65-145 | If every stored verdict is well-formed, so is the one returned and every one stored afterwards. |
| VerdictCache.RepeatIsHit | phishing_extension/background.js:65-140 | A second check of the same URL before the stored entry expires returns the same verdict and leaves the cache unchanged, whatever the hostname and the lookup say then. |
| VerdictCache.StoredEntryOutlivesNow | phishing_extension/background.js:137-140 | The entry left for `url` is live at the time of the check. |
| VerdictCache.EntryLifetime | phishing_extension/background.js:136-139 | An entry stored at time T is served exactly while now < T + TTL. A sweep keeps it exactly while now ≤ T + TTL. |
| VerdictCache.SuspiciousExpiresFirst | phishing_extension/background.js:2-3 | 12 h after storing, a suspicious verdict is no longer served but a safe one still is. Each is swept one millisecond after its own TTL, and not at the TTL itself. |
| VerdictCache.SweepKeepsExactly | phishing_extension/background.js:20-26 | The sweep keeps exactly the entries with expiry ≥ now, and keeps them unchanged. |
| VerdictCache.SweepLaterSubsumes | phishing_extension/background.js:20-26 | A sweep at a time at or after an earlier sweep's time subsumes it. |
| VerdictCache.SweepIdempotent | phishing_extension/background.js:20-26 | Sweeping twice at the same time is the same as sweeping once. |
| VerdictCache.ExpiryBoundary | phishing_extension/background.js:23 | An entry that expires exactly at `now` survives the sweep at `now`, yet it is a miss at `now`. |
| VerdictCache.SweepInvisibleToCheck | phishing_extension/background.js:20-26 | After a sweep at an earlier time, a check gets the same hit-or-miss answer and returns the same verdict as without the sweep. |
| VerdictCache.SweepKeepsValid | phishing_extension/background.js:20-26 | Sweeping keeps every stored verdict well-formed. |
| VerdictCache.UrlCache.constructor | phishing_extension/background.js:6 | The cache starts empty. |
| VerdictCache.UrlCache.CheckUrl | phishing_extension/background.js:65-140 | Updating the cache in place returns the verdict and leaves the map that `Check` describes. It keeps stored verdicts well-formed. |
| VerdictCache.UrlCache.CleanCache | phishing_extension/background.js:20-26 | Deleting expired keys one at a time, in any order, leaves exactly the swept map. |
| Navigation.SkippedLeaveCacheAlone | phishing_extension/background.js:34-41 | Subframe navigations and `chrome:`, `chrome-extension:` and `about:` pages are ignored, and the cache is untouched. |
| Navigation.WarnIffSuspicious | phishing_extension/background.js:43-59 | An inspected navigation warns exactly when the cached check's verdict is suspicious. The warning carries the URL, the hostname and the verdict's reason, which is never empty. Otherwise the navigation proceeds. |
| Navigation.IpLiteralNavigationWarns | phishing_extension/background.js:43-45 | An inspected, uncached navigation to an IP-literal host always warns. |
| Navigation.OnBeforeNavigate | phishing_extension/background.js:32-60 | The listener on an in-place cache returns the action and leaves the cache that `Navigate` describes. |

## Left out

- `chrome.storage.local` persistence is not modelled (lines 9-15, 28, 143). This covers hydrating the cache from storage and saving it after checks and sweeps. It is host I/O.
- The hourly `setInterval` schedule of the sweep is not modelled (line 18). The sweep is a method that callers invoke with a time.
- Tab redirection and the notification are not modelled (lines 47-58). They become the `Warn` action, which carries the URL, the reason and the hostname those calls use.
- The `onMessage` dispatch (lines 177-194) is not modelled. It only forwards a `checkUrl` request to the scorer. `getStats` only reads storage with a zero default.
- `fetchPhishingAPIResults` is not modelled, except for its fixed list of known phishing hosts (lines 155-157, 167). Its `setTimeout` delay is dropped. Its two `Math.random` draws become the `age` and `score` parameters of `Reputation.SimulatedLookup`. The scorer takes the lookup's decoded outcome as an input.
- Async/await and concurrency are not modelled. Two concurrent checks for the same URL could both score it; each call here runs to completion.
- The two `Date.now()` reads (lines 65 and 139) are one `now` per call.
- WHATWG URL parsing (`new URL`, lines 36 and 69) is not modelled. The hostname and protocol are inputs. A URL that fails to parse, after which the listener rejects, is not modelled. Neither is the WHATWG IPv4 host parser: it rejects a host such as `999.999.999.999` and rewrites other numeric hosts to dotted decimal before the pattern on line 74 sees them, so `ScorerProperties.NoOctetRangeCheck` is a fact about that pattern alone.
- IEEE-754 rounding is not modelled: scores are exact reals. In particular, which side of 0.7 a float sum such as seven times 0.1 falls on is not captured.
- `url.length` counts UTF-16 code units, while Dafny's `string` counts Unicode scalar values. The two agree on every string without characters outside the Basic Multilingual Plane, which count twice in UTF-16.
- RiskScorer.KeywordScore: `toLowerCase` is modelled for ASCII letters only, so the lowercasing agrees with JavaScript's on ASCII URLs. Non-ASCII characters that lowercase to an ASCII letter are not captured: JavaScript maps U+212A KELVIN SIGN to `k`, so a URL with `ban` followed by U+212A gains 0.1 for `bank` in the source but not in the model.
- The `console.error` logging of a failed lookup (line 124) is not modelled.
- `phishing_extension/content.js` (DOM scanning and form blocking) and `phishing_extension/popup.js` (presentation) are not part of this model.
