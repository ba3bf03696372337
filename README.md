# Health-check monitor: a verified model

The monitor reads a list of HTTP endpoints and then runs rounds forever. Each
round probes every endpoint once, in list order. A probe is *up* when a
response arrived, its status is in [200, 299] and it took at most 500 ms;
anything else is *down*. Each probe is added to the counters of the
endpoint's *domain key*: the part of its URL between the first `"//"` and
the next `"/"`. After each round the monitor prints every known domain's
availability as a whole percentage.

The model has five modules:

- `GoStrings` (`go_strings.dfy`) models Go's `strings.Index`, `strings.Split`
  with a non-empty separator, and `strings.Join`. These define what
  `extractDomain` computes.
- `Prober` (`prober.dfy`) holds the endpoint record and the request built
  from it (the method defaults to GET). It also holds the outcome of an
  exchange, the health rule and `checkEndpoint`. The network and the clock
  are a parameter, `Exchange = Request -> Outcome`: the outcome is either a
  request that cannot be built, a transport error after some duration, or a
  response with a status and a duration. A duration is a Go `time.Duration`:
  signed 64-bit nanoseconds.
- `Domain` (`domain.dfy`) holds `extractDomain`. What it proves: for a URL
  containing `"//"`, the result is exactly the run of characters after the
  first `"//"` up to the next `'/'` or the end of the URL.
- `Aggregator` (`aggregator.dfy`) holds the `DomainStatus` counters and the
  status map, where a missing key reads as `{0, 0}`. It also holds the loop
  body of one round, written as an imperative method over the map.
  - The method is proved against a specification: after the round, each
    domain holds what it read before plus its checks and up checks in the
    round.
  - The lemmas about that specification give the other guarantees: counters
    never decrease, untouched keys keep their counters, up checks never
    exceed checks, every key has at least one check, and the key set.
- `Monitor` (`monitor.dfy`) covers the scheduler loop for a given number of
  rounds, starting from an empty map and reporting after every round. It
  also holds the availability figure and the per-round report.

## Model

| member | source | states |
|---|---|---|
| Prober.RequestMethod | main.go:40-43 | the method is the configured one when that is non-empty, and "GET" when it is empty; it is never empty |
| Prober.RequestMethodIdempotent | main.go:40-43 | defaulting an already defaulted method changes nothing |
| Prober.BuildRequest | main.go:40-45 | the request carries the endpoint's URL, headers and body, and its method is the configured one or GET when none is set |
| Prober.Healthy | main.go:59 | the health rule: down exactly when the request could not be built, the client failed, the status is below 200 or above 299, or the duration exceeds 500 ms |
| Prober.CheckEndpoint | main.go:37-63 | the probe is up if and only if a response arrived with status in [200, 299] and duration at most 500 ms; a request that cannot be built gives (down, 0); otherwise the duration reported is the one measured |
| Prober.LatencyBoundInclusive | main.go:59 | a 2xx response in exactly 500 ms is up, and one nanosecond more is down |
| Prober.StatusRangeBounds | main.go:59 | for a fast response, statuses 200 and 299 are up and 199 and 300 are down |
| Prober.TransportErrorIsDown | main.go:56-60 | a client error is down and reports the measured duration, however short it is |
| Prober.ConstructionErrorIsDown | main.go:45-49 | a failed request construction is down with duration 0 |
| Prober.ClassificationExamples | main.go:59-62 | 200 in 100 ms is up; 200 in 600 ms and 503 in 50 ms are down |
| Prober.ProbeUsesRequestMethod | main.go:40-45 | probing an endpoint without a method gives the same result as probing it with method GET |
| GoStrings.Index | main.go:73-74 | the result is -1 when the separator does not occur, and otherwise the first position where it occurs |
| GoStrings.IndexIsFirst | main.go:73-74 | an occurrence with no earlier occurrence is the one Index finds |
| GoStrings.Split | main.go:73-74 | splitting gives at least one part |
| GoStrings.SplitCount | main.go:73-74 | there is more than one part exactly when the separator occurs |
| GoStrings.SplitHead | main.go:73-74 | the first part runs up to the first occurrence (or is the whole string), and the second part is the first part of what follows that occurrence |
| GoStrings.JoinSplit | main.go:73-74 | joining the parts with the separator gives back the original string |
| GoStrings.SplitPartsFree | main.go:73-74 | no part contains the separator |
| GoStrings.SplitSecondPart | main.go:73-74 | the second part is the slice that starts right after the first occurrence, and another occurrence follows it unless it runs to the end |
| Domain.ExtractDomain | main.go:72-76 | the result is the authority read from just after the first "//": a contiguous slice of the URL with no '/', ending at a '/' or at the end of the URL |
| Domain.AuthorityUnique | main.go:72-76 | at most one string has that shape at a given position |
| Domain.ExtractDomainIsAuthority | main.go:72-76 | a string is the extracted domain if and only if it is the authority after the first "//" |
| Domain.ExtractDomainOfParts | main.go:72-76 | scheme + "//" + host + path, where scheme and host have no '/' and path is empty or starts with '/', has domain key host |
| Domain.ExtractDomainHostExample | main.go:72-76 | "https://api.example.com/v1/health" has domain key "api.example.com" |
| Domain.ExtractDomainPortExample | main.go:72-76 | "http://svc:8080/ping" has domain key "svc:8080", port included |
| Aggregator.Observe | main.go:92-93 | what a round keeps of a probe: the endpoint's domain key, and up exactly when the outcome is healthy |
| Aggregator.Lookup | main.go:94 | reading a domain gives its counters when it is in the map, and zero counters when it is not |
| Aggregator.ObservationsUpTo | main.go:91-93 | the first n endpoints of a round give n observations |
| Aggregator.ObservationsAt | main.go:91-93 | the k-th observation is that of the k-th endpoint |
| Aggregator.Round | main.go:91-100 | after the round the keys are the old keys plus the round's domains, and each domain holds what it read before (zero when absent) plus its checks and up checks in the round |
| Aggregator.UpChecksAtMostChecks | main.go:95-98 | up checks never outnumber checks |
| Aggregator.ChecksPositive | main.go:94-95 | a domain has at least one check exactly when it was observed |
| Aggregator.RecordedKeepsUnobserved | main.go:94-99 | a key the round does not mention keeps its counters |
| Aggregator.RecordedMonotone | main.go:95-98 | no counter of an existing key decreases |
| Aggregator.RecordedReportable | main.go:94-99 | every key afterwards has at least one check and 0 <= up checks <= checks, so availability never divides by zero |
| Aggregator.RecordedTwice | main.go:90-100 | recording one stretch of observations and then another is the same as recording both together |
| Aggregator.RecordedUnique | main.go:91-100 | the map a round leaves is determined by the map before it and the round's observations |
| Aggregator.RoundChecks | main.go:91-95 | a round's checks of a domain equal the number of endpoints with that domain key |
| Aggregator.RoundUpChecks | main.go:91-98 | a round's up checks of a domain equal the number of endpoints with that key whose outcome was healthy |
| Aggregator.RoundDomains | main.go:91-99 | a round observes exactly the endpoints' domain keys |
| Aggregator.RoundCounts | main.go:91-100 | after a round, each of those keys has gained one check per endpoint with the key, and one up check per such endpoint that was up |
| Aggregator.CountsAppend | main.go:90-100 | checks and up checks over two stretches of observations add up |
| Aggregator.DomainsAppend | main.go:90-100 | the domains of two stretches are the union of their domains |
| Monitor.RoundedPercent | main.go:67-68 | the percentage is a whole number within half a point of 100 * up / total, and an even one when it is exactly half a point away (ties to even) |
| Monitor.RoundHalfEvenExamples | main.go:67-68 | 1 of 8 prints as 12, 3 of 8 as 38, 1 of 3 as 33 |
| Monitor.RoundedPercentBounds | main.go:67-68 | for 0 <= up <= total the rounded percentage lies in [0, 100]; it is 100 when all checks were up and 0 when none was |
| Monitor.Availability | main.go:67-68 | a domain's availability is a whole percentage in [0, 100], within half a point of the exact ratio, 100 when all checks were up and 0 when none was |
| Monitor.Report | main.go:65-70 | a report has one entry per known domain, and each entry is in [0, 100] |
| Monitor.RoundsDomains | main.go:88-103 | after n rounds the known domains are the endpoints' domain keys, or none when n = 0 |
| Monitor.RoundsChecks | main.go:88-103 | after n rounds, each domain has n checks per endpoint with that key |
| Monitor.RoundsStep | main.go:90-101 | one more round on the state after r rounds gives the state after r + 1 rounds, which stays reportable |
| Monitor.RoundsTotals | main.go:88-103 | after all the rounds the keys are the endpoints' domain keys, each with the number of rounds times its endpoint count as total checks |
| Monitor.Monitor | main.go:88-103 | starting from an empty map, the map after the rounds equals the cumulative tally of every round's observations; it is reportable; keys and totals are as above; there is one report per round, keyed by the endpoints' domains; the report after round r is the report of the map that records the first r rounds, and the last one is the report of the final map |
| Monitor.ReportAfterUnique | main.go:101 | the report printed after a given number of rounds is determined by those rounds |
| Monitor.ReportOfUniformProbes | main.go:65-70 | from an empty map, a domain whose own probes were all up reports 100%, and one whose own probes were all down reports 0%, whatever the other domains' probes were |
| Monitor.MixedDomainsReport | main.go:65-70 | a round with domain "a" up and domain "b" down reports 100% for "a" and 0% for "b" |
| Monitor.SharedDomainRound | main.go:91-101 | two endpoints on one domain, first up and second down, leave that domain at 2 checks, 1 up, 50% availability |

## Left out

- `loadConfig` (YAML file reading) and argument checking with `log.Fatalf`: for these, the endpoint list is simply an input.
- The HTTP client, header attachment, the 2-second timeout and `time.Now`/`time.Since`: one probe's outcome and measured duration come from the `Exchange` parameter, with one exchange per endpoint per round. The model does not say what the network returns; it says only what the monitor does with the outcome.
- The infinite loop and the 15-second `time.Sleep`: `Monitor.Monitor` runs a given number of rounds.
- The output of `logAvailability`: printing and Go's random map iteration order are left out. Each round's report is a map from domain to percentage.
- The `log.Printf` on a request that cannot be built (main.go:47) is left out, because it is output only: the model keeps just the (down, 0) result of that branch.
- Monitor.Availability: not computed in float64. It is the exact ratio 100 * up / total rounded to the nearest whole number, with ties to even as in `%.0f`. Go first divides in float64 and then multiplies by 100. Where the exact ratio is a tie, float64 rounding can break it the other way. The proved bounds (in [0, 100], 100 for all up, 0 for none up) hold either way.
- The counters are unbounded integers: overflow of Go's `int` after about 2^63 checks is not modelled.
- `extractDomain` on a URL without `"//"` indexes past the end of the parts and panics. The model makes the presence of `"//"` a precondition (`Domain.HasAuthority`, `Aggregator.Addressable`) instead of modelling the crash.
- Strings are sequences of characters, while Go strings are bytes. Both separators are single-byte ASCII characters, so the split positions agree; encodings are not modelled.
- The probe's duration is not kept by the round (main.go:92 discards it), so the round's observations keep only the domain key and up/down.
