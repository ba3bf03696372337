// The scheduler loop of `main`, bounded to a given number of rounds: start
// from an empty status map, run a round over every endpoint, then report
// each domain's availability; and the availability figure itself.

module Monitor {
  import opened Prober
  import opened Domain
  import opened Aggregator

  function Abs(x: int): nat
  {
    if x < 0 then -x else x
  }

  /** The Euclidean division of `100 * up` by `total`, and the multiple of
      `total` just above the quotient's. */
  lemma PercentDivision(up: int, total: int)
    requires 1 <= total
    ensures var q, rem := (100 * up) / total, (100 * up) % total;
      && 100 * up == q * total + rem && 0 <= rem < total
      && (q + 1) * total == q * total + total
  {
  }

  /** 100 * up / total rounded to the nearest integer, a tie going to the
      even one: the result is within half a point of the exact ratio, and
      even when it is exactly half a point away. */
  function RoundedPercent(up: int, total: int): (pct: int)
    requires 1 <= total
    ensures 2 * Abs(100 * up - pct * total) <= total
    ensures 2 * Abs(100 * up - pct * total) == total ==> pct % 2 == 0
  {
    var q, rem := (100 * up) / total, (100 * up) % total;
    PercentDivision(up, total);
    if 2 * rem < total then q
    else if 2 * rem > total then q + 1
    else if q % 2 == 0 then q
    else q + 1
  }

  /** Worked ties: 1 of 8 is 12.5%, printed as 12; 3 of 8 is 37.5%,
      printed as 38; 1 of 3 is 33.3...%, printed as 33. */
  lemma RoundHalfEvenExamples()
    ensures RoundedPercent(1, 8) == 12
    ensures RoundedPercent(3, 8) == 38
    ensures RoundedPercent(1, 3) == 33
  {
  }

  /** The truncated percentage is never negative. */
  lemma QuotientNonneg(up: int, total: int)
    requires 1 <= total && 0 <= up
    ensures 0 <= (100 * up) / total
  {
  }

  /** The truncated percentage is at most 100. */
  lemma QuotientAtMostHundred(up: int, total: int)
    requires 1 <= total && up <= total
    ensures (100 * up) / total <= 100
  {
  }

  /** All checks up is exactly 100 percent. */
  lemma FullIsHundred(total: int)
    requires 1 <= total
    ensures (100 * total) / total == 100 && (100 * total) % total == 0
  {
  }

  /** For a share of checks, the rounded percentage lies in [0, 100], and is
      100 when every check was up and 0 when none was. */
  lemma RoundedPercentBounds(up: int, total: int)
    requires 1 <= total && 0 <= up <= total
    ensures var pct := RoundedPercent(up, total);
      && 0 <= pct <= 100
      && (up == total ==> pct == 100)
      && (up == 0 ==> pct == 0)
  {
    QuotientNonneg(up, total);
    QuotientAtMostHundred(up, total);
    var q, rem := (100 * up) / total, (100 * up) % total;
    if q == 100 {
      assert 100 * up == 100 * total + rem;
    }
    if up == total {
      FullIsHundred(total);
    }
  }

  /** A domain's availability as a whole percentage of up checks. */
  function Availability(s: DomainStatus): (pct: int)
    requires Reportable(s)
    ensures 0 <= pct <= 100
    ensures 2 * Abs(100 * s.upChecks - pct * s.totalChecks) <= s.totalChecks
    ensures s.upChecks == s.totalChecks ==> pct == 100
    ensures s.upChecks == 0 ==> pct == 0
  {
    RoundedPercentBounds(s.upChecks, s.totalChecks);
    RoundedPercent(s.upChecks, s.totalChecks)
  }

  /** What logAvailability prints once per round: every known domain with
      its availability. */
  function Report(m: StatusMap): (r: map<string, int>)
    requires AllReportable(m)
    ensures r.Keys == m.Keys
    ensures forall d :: d in r ==> 0 <= r[d] <= 100
  {
    map d | d in m :: Availability(m[d])
  }

  /** The round outcomes fit the endpoint list: one exchange per endpoint. */
  predicate RoundsFit(endpoints: seq<Endpoint>, rounds: seq<seq<Exchange>>)
  {
    forall r :: 0 <= r < |rounds| ==> |rounds[r]| == |endpoints|
  }

  /** The observations of the first `n` rounds, round after round. */
  function RoundsObservations(endpoints: seq<Endpoint>, rounds: seq<seq<Exchange>>, n: nat): seq<Observation>
    requires Addressable(endpoints) && RoundsFit(endpoints, rounds) && n <= |rounds|
  {
    if n == 0 then []
    else RoundsObservations(endpoints, rounds, n - 1) + Observations(endpoints, rounds[n - 1])
  }

  /** After `n` rounds the observed domains are the endpoints' domain keys,
      none before the first round. */
  lemma {:induction false} RoundsDomains(endpoints: seq<Endpoint>, rounds: seq<seq<Exchange>>, n: nat)
    requires Addressable(endpoints) && RoundsFit(endpoints, rounds) && n <= |rounds|
    ensures Domains(RoundsObservations(endpoints, rounds, n)) == if n == 0 then {} else EndpointDomains(endpoints)
    decreases n
  {
    if n > 0 {
      RoundsDomains(endpoints, rounds, n - 1);
      DomainsAppend(RoundsObservations(endpoints, rounds, n - 1), Observations(endpoints, rounds[n - 1]));
      RoundDomains(endpoints, rounds[n - 1]);
    }
  }

  /** `m` rounds of `c` checks and one more make `m + 1` rounds' worth. */
  lemma ChecksStep(before: int, added: int, m: int, c: int)
    requires before == m * c && added == c
    ensures before + added == (m + 1) * c
  {
  }

  /** After `n` rounds each domain has been checked `n` times per endpoint
      with that key. */
  lemma {:induction false} RoundsChecks(endpoints: seq<Endpoint>, rounds: seq<seq<Exchange>>, n: nat, domain: string)
    requires Addressable(endpoints) && RoundsFit(endpoints, rounds) && n <= |rounds|
    ensures Checks(RoundsObservations(endpoints, rounds, n), domain) == n * EndpointCount(endpoints, |endpoints|, domain)
    decreases n
  {
    if n > 0 {
      var m: nat := n - 1;
      var prev, cur := RoundsObservations(endpoints, rounds, m), Observations(endpoints, rounds[m]);
      RoundsChecks(endpoints, rounds, m, domain);
      CountsAppend(prev, cur, domain);
      RoundChecks(endpoints, rounds[m], |endpoints|, domain);
      ChecksStep(Checks(prev, domain), Checks(cur, domain), m, EndpointCount(endpoints, |endpoints|, domain));
    }
  }

  /** Running round `r` on the map after the first `r` rounds gives the map
      after `r + 1` rounds, which stays reportable and holds exactly the
      endpoints' domain keys. */
  lemma RoundsStep(endpoints: seq<Endpoint>, rounds: seq<seq<Exchange>>, r: nat, m: StatusMap, next: StatusMap)
    requires Addressable(endpoints) && RoundsFit(endpoints, rounds) && r < |rounds|
    requires Recorded(map[], RoundsObservations(endpoints, rounds, r), m)
    requires Recorded(m, Observations(endpoints, rounds[r]), next)
    ensures Recorded(map[], RoundsObservations(endpoints, rounds, r + 1), next)
    ensures AllReportable(next)
    ensures next.Keys == EndpointDomains(endpoints)
  {
    var n: nat := r + 1;
    var prev, cur := RoundsObservations(endpoints, rounds, r), Observations(endpoints, rounds[r]);
    assert RoundsObservations(endpoints, rounds, n) == prev + cur;
    RecordedTwice(map[], prev, m, cur, next);
    RecordedReportable(map[], prev, m);
    RecordedReportable(m, cur, next);
    RoundsDomains(endpoints, rounds, n);
  }

  /** The map after all the rounds holds the endpoints' domain keys (none
      when there were no rounds), each checked once per round per endpoint
      with that key. */
  lemma RoundsTotals(endpoints: seq<Endpoint>, rounds: seq<seq<Exchange>>, m: StatusMap)
    requires Addressable(endpoints) && RoundsFit(endpoints, rounds)
    requires Recorded(map[], RoundsObservations(endpoints, rounds, |rounds|), m)
    ensures m.Keys == if rounds == [] then {} else EndpointDomains(endpoints)
    ensures forall d :: d in m ==> m[d].totalChecks == |rounds| * EndpointCount(endpoints, |endpoints|, d)
  {
    RoundsDomains(endpoints, rounds, |rounds|);
    forall d | d in m
      ensures m[d].totalChecks == |rounds| * EndpointCount(endpoints, |endpoints|, d)
    {
      RoundsChecks(endpoints, rounds, |rounds|, d);
    }
  }

  /** `report` is what is printed after the first `n` rounds: the report of
      the map that records those rounds' observations on an empty map. */
  ghost predicate ReportAfter(endpoints: seq<Endpoint>, rounds: seq<seq<Exchange>>, n: nat, report: map<string, int>)
    requires Addressable(endpoints) && RoundsFit(endpoints, rounds) && n <= |rounds|
  {
    exists m :: Recorded(map[], RoundsObservations(endpoints, rounds, n), m) && AllReportable(m) && report == Report(m)
  }

  /** Appending a report with the given keys keeps every report keyed so. */
  lemma KeyedAppend(reports: seq<map<string, int>>, report: map<string, int>, keys: set<string>)
    requires forall k :: 0 <= k < |reports| ==> reports[k].Keys == keys
    requires report.Keys == keys
    ensures forall k :: 0 <= k <= |reports| ==> (reports + [report])[k].Keys == keys
  {
  }

  /** Appending the report of the map after `|reports| + 1` rounds keeps
      every report the report of its round. */
  lemma ReportedAppend(endpoints: seq<Endpoint>, rounds: seq<seq<Exchange>>, reports: seq<map<string, int>>,
                       report: map<string, int>, m: StatusMap)
    requires Addressable(endpoints) && RoundsFit(endpoints, rounds) && |reports| < |rounds|
    requires forall k :: 0 <= k < |reports| ==> ReportAfter(endpoints, rounds, k + 1, reports[k])
    requires Recorded(map[], RoundsObservations(endpoints, rounds, |reports| + 1), m) && AllReportable(m)
    requires report == Report(m)
    ensures forall k :: 0 <= k <= |reports| ==> ReportAfter(endpoints, rounds, k + 1, (reports + [report])[k])
  {
    var longer := reports + [report];
    forall k | 0 <= k <= |reports|
      ensures ReportAfter(endpoints, rounds, k + 1, longer[k])
    {
      if k < |reports| {
        assert longer[k] == reports[k];
      } else {
        assert longer[k] == report;
      }
    }
  }

  /** The report printed after a given number of rounds is determined by
      the rounds. */
  lemma ReportAfterUnique(endpoints: seq<Endpoint>, rounds: seq<seq<Exchange>>, n: nat, r1: map<string, int>, r2: map<string, int>)
    requires Addressable(endpoints) && RoundsFit(endpoints, rounds) && n <= |rounds|
    requires ReportAfter(endpoints, rounds, n, r1) && ReportAfter(endpoints, rounds, n, r2)
    ensures r1 == r2
  {
    var obs := RoundsObservations(endpoints, rounds, n);
    var m1 :| Recorded(map[], obs, m1) && AllReportable(m1) && r1 == Report(m1);
    var m2 :| Recorded(map[], obs, m2) && AllReportable(m2) && r2 == Report(m2);
    RecordedUnique(map[], obs, m1, m2);
  }

  /** The scheduler loop of `main` for a fixed number of rounds, the
      exchanges of round `r` being `rounds[r]`: it starts from an empty
      status map, runs each round and then reports every known domain. */
  method Monitor(endpoints: seq<Endpoint>, rounds: seq<seq<Exchange>>)
      returns (statusMap: StatusMap, reports: seq<map<string, int>>)
    requires Addressable(endpoints) && RoundsFit(endpoints, rounds)
    ensures Recorded(map[], RoundsObservations(endpoints, rounds, |rounds|), statusMap)
    ensures AllReportable(statusMap)
    ensures statusMap.Keys == if rounds == [] then {} else EndpointDomains(endpoints)
    ensures forall d :: d in statusMap ==>
      statusMap[d].totalChecks == |rounds| * EndpointCount(endpoints, |endpoints|, d)
    ensures |reports| == |rounds|
    ensures forall r :: 0 <= r < |rounds| ==> reports[r].Keys == EndpointDomains(endpoints)
    ensures forall r :: 0 <= r < |rounds| ==> ReportAfter(endpoints, rounds, r + 1, reports[r])
    ensures rounds != [] ==> reports[|rounds| - 1] == Report(statusMap)
  {
    statusMap := map[];
    reports := [];
    ghost var domains := EndpointDomains(endpoints);
    ghost var last := Report(statusMap);
    for r := 0 to |rounds|
      invariant Recorded(map[], RoundsObservations(endpoints, rounds, r), statusMap)
      invariant AllReportable(statusMap)
      invariant |reports| == r
      invariant forall k :: 0 <= k < r ==> reports[k].Keys == domains
      invariant forall k :: 0 <= k < r ==> ReportAfter(endpoints, rounds, k + 1, reports[k])
      invariant r > 0 ==> reports[r - 1] == last
      invariant last == Report(statusMap)
    {
      var next := Round(statusMap, endpoints, rounds[r]);
      RoundsStep(endpoints, rounds, r, statusMap, next);
      statusMap := next;
      var report := Report(statusMap);
      assert report.Keys == domains;
      KeyedAppend(reports, report, domains);
      ReportedAppend(endpoints, rounds, reports, report, statusMap);
      reports := reports + [report];
      last := report;
    }
    RoundsTotals(endpoints, rounds, statusMap);
  }

  /** When every probe of a domain was up, its up checks equal its checks. */
  lemma {:induction false} AllUpCounts(obs: seq<Observation>, domain: string)
    requires forall k :: 0 <= k < |obs| && obs[k].domain == domain ==> obs[k].isUp
    ensures UpChecks(obs, domain) == Checks(obs, domain)
    decreases |obs|
  {
    if obs != [] {
      AllUpCounts(obs[..|obs| - 1], domain);
    }
  }

  /** When every probe of a domain was down, it has no up checks. */
  lemma {:induction false} AllDownCounts(obs: seq<Observation>, domain: string)
    requires forall k :: 0 <= k < |obs| && obs[k].domain == domain ==> !obs[k].isUp
    ensures UpChecks(obs, domain) == 0
    decreases |obs|
  {
    if obs != [] {
      AllDownCounts(obs[..|obs| - 1], domain);
    }
  }

  /** Starting from an empty map, a domain whose own probes were all up
      reports 100%, and one whose own probes were all down reports 0%,
      whatever the other domains' probes were. */
  lemma ReportOfUniformProbes(obs: seq<Observation>, m: StatusMap, d: string)
    requires Recorded(map[], obs, m) && AllReportable(m) && d in m
    ensures (forall k :: 0 <= k < |obs| && obs[k].domain == d ==> obs[k].isUp) ==> Report(m)[d] == 100
    ensures (forall k :: 0 <= k < |obs| && obs[k].domain == d ==> !obs[k].isUp) ==> Report(m)[d] == 0
  {
    if forall k :: 0 <= k < |obs| && obs[k].domain == d ==> obs[k].isUp {
      AllUpCounts(obs, d);
    }
    if forall k :: 0 <= k < |obs| && obs[k].domain == d ==> !obs[k].isUp {
      AllDownCounts(obs, d);
    }
  }

  /** A concrete case of the per-domain reading: one domain all up and
      another all down, in one round. */
  lemma MixedDomainsReport(m: StatusMap)
    requires Recorded(map[], [Observation("a", true), Observation("b", false)], m) && AllReportable(m)
    ensures "a" in m && Report(m)["a"] == 100
    ensures "b" in m && Report(m)["b"] == 0
  {
    var obs := [Observation("a", true), Observation("b", false)];
    assert obs[0].domain == "a" && obs[1].domain == "b";
    assert "a" in Domains(obs) && "b" in Domains(obs);
    ReportOfUniformProbes(obs, m, "a");
    ReportOfUniformProbes(obs, m, "b");
  }

  /** Two endpoints on one domain, the first probed up and the second down,
      leave that domain at two checks, one up, and 50% availability. */
  method SharedDomainRound(first: Endpoint, second: Endpoint, up: Exchange, down: Exchange)
      returns (status: DomainStatus, pct: int)
    requires HasAuthority(first.url) && HasAuthority(second.url)
    requires ExtractDomain(first.url) == ExtractDomain(second.url)
    requires Healthy(up(BuildRequest(first))) && !Healthy(down(BuildRequest(second)))
    ensures status == DomainStatus(2, 1) && pct == 50
  {
    var domain := ExtractDomain(first.url);
    var statusMap := Round(map[], [first, second], [up, down]);
    ghost var obs := Observations([first, second], [up, down]);
    ObservationsAt([first, second], [up, down], 2, 0);
    ObservationsAt([first, second], [up, down], 2, 1);
    var o1, o2 := Observation(domain, true), Observation(domain, false);
    assert obs == [] + [o1] + [o2];
    CountsSnoc([], o1, domain);
    CountsSnoc([o1], o2, domain);
    status := statusMap[domain];
    pct := Availability(status);
  }
}
