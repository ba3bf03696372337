// Per-domain counters and one round of probing: every endpoint is probed
// once, in order, and its outcome is added to the counters of its domain.

module Aggregator {
  import opened Prober
  import opened Domain

  /** The counters of one domain: checks recorded, and how many were up. */
  datatype DomainStatus = DomainStatus(totalChecks: int, upChecks: int)

  /** What reading a domain the map does not hold yields: Go's zero value. */
  const Unseen := DomainStatus(0, 0)

  type StatusMap = map<string, DomainStatus>

  /** Reading a domain's counters; a missing domain reads as zero counters. */
  function Lookup(m: StatusMap, domain: string): (s: DomainStatus)
    ensures domain in m ==> s == m[domain]
    ensures domain !in m ==> s.totalChecks == 0 && s.upChecks == 0
  {
    if domain in m then m[domain] else Unseen
  }

  /** Counters that can be reported: at least one check, and no more up
      checks than checks (so the availability is defined and in range). */
  predicate Reportable(s: DomainStatus)
  {
    1 <= s.totalChecks && 0 <= s.upChecks <= s.totalChecks
  }

  /** Every domain present in the map has reportable counters. */
  predicate AllReportable(m: StatusMap)
  {
    forall d :: d in m ==> Reportable(m[d])
  }

  /** Every endpoint's URL has a "//" for its domain key to be cut from. */
  predicate Addressable(endpoints: seq<Endpoint>)
  {
    forall i :: 0 <= i < |endpoints| ==> HasAuthority(endpoints[i].url)
  }

  /** What the round keeps of one probe: the endpoint's domain key and
      whether the probe was up (the duration is dropped). */
  datatype Observation = Observation(domain: string, isUp: bool)

  /** The observation of probing `e` through `exchange`. */
  function Observe(e: Endpoint, exchange: Exchange): (o: Observation)
    requires HasAuthority(e.url)
    ensures o.domain == ExtractDomain(e.url)
    ensures o.isUp <==> Healthy(exchange(BuildRequest(e)))
  {
    Observation(ExtractDomain(e.url), CheckEndpoint(e, exchange).isUp)
  }

  /** The observations of the first `n` endpoints of a round, in order. */
  function ObservationsUpTo(endpoints: seq<Endpoint>, exchanges: seq<Exchange>, n: nat): (obs: seq<Observation>)
    requires Addressable(endpoints) && |exchanges| == |endpoints| && n <= |endpoints|
    ensures |obs| == n
  {
    if n == 0 then []
    else ObservationsUpTo(endpoints, exchanges, n - 1) + [Observe(endpoints[n - 1], exchanges[n - 1])]
  }

  /** The observations of a round, in endpoint order. */
  function Observations(endpoints: seq<Endpoint>, exchanges: seq<Exchange>): (obs: seq<Observation>)
    requires Addressable(endpoints) && |exchanges| == |endpoints|
  {
    ObservationsUpTo(endpoints, exchanges, |endpoints|)
  }

  /** The observation at each position is that of the endpoint there. */
  lemma {:induction false} ObservationsAt(endpoints: seq<Endpoint>, exchanges: seq<Exchange>, n: nat, k: nat)
    requires Addressable(endpoints) && |exchanges| == |endpoints| && k < n <= |endpoints|
    ensures ObservationsUpTo(endpoints, exchanges, n)[k] == Observe(endpoints[k], exchanges[k])
    decreases n
  {
    var prev := ObservationsUpTo(endpoints, exchanges, n - 1);
    assert ObservationsUpTo(endpoints, exchanges, n) == prev + [Observe(endpoints[n - 1], exchanges[n - 1])];
    if k < n - 1 {
      ObservationsAt(endpoints, exchanges, n - 1, k);
    }
  }

  /** The domain keys among the observations. */
  function Domains(obs: seq<Observation>): set<string>
  {
    set i | 0 <= i < |obs| :: obs[i].domain
  }

  /** How many of the observations are of `domain`. */
  function Checks(obs: seq<Observation>, domain: string): nat
  {
    if obs == [] then 0
    else
      var n := |obs| - 1;
      Checks(obs[..n], domain) + (if obs[n].domain == domain then 1 else 0)
  }

  /** How many of the observations are of `domain` and up. */
  function UpChecks(obs: seq<Observation>, domain: string): nat
  {
    if obs == [] then 0
    else
      var n := |obs| - 1;
      UpChecks(obs[..n], domain) + (if obs[n].domain == domain && obs[n].isUp then 1 else 0)
  }

  /** The counters a domain should have after a round: what it read before,
      plus its checks and up checks in the round. */
  function Tallied(m: StatusMap, obs: seq<Observation>, domain: string): DomainStatus
  {
    var s := Lookup(m, domain);
    DomainStatus(s.totalChecks + Checks(obs, domain), s.upChecks + UpChecks(obs, domain))
  }

  /** Up checks never outnumber checks. */
  lemma {:induction false} UpChecksAtMostChecks(obs: seq<Observation>, domain: string)
    ensures UpChecks(obs, domain) <= Checks(obs, domain)
    decreases |obs|
  {
    if obs != [] {
      UpChecksAtMostChecks(obs[..|obs| - 1], domain);
    }
  }

  /** A domain has checks exactly when it is one of the observed domains. */
  lemma {:induction false} ChecksPositive(obs: seq<Observation>, domain: string)
    ensures Checks(obs, domain) >= 1 <==> domain in Domains(obs)
    decreases |obs|
  {
    if obs != [] {
      var n := |obs| - 1;
      ChecksPositive(obs[..n], domain);
      DomainsSnoc(obs[..n], obs[n]);
      assert obs[..n] + [obs[n]] == obs;
    }
  }

  /** The domains of observations with one more at the end. */
  lemma DomainsSnoc(obs: seq<Observation>, o: Observation)
    ensures Domains(obs + [o]) == Domains(obs) + {o.domain}
  {
    var longer := obs + [o];
    forall d | d in Domains(longer)
      ensures d in Domains(obs) + {o.domain}
    {
      var i :| 0 <= i < |longer| && longer[i].domain == d;
      if i < |obs| {
        assert longer[i] == obs[i];
      }
    }
    forall d | d in Domains(obs)
      ensures d in Domains(longer)
    {
      var i :| 0 <= i < |obs| && obs[i].domain == d;
      assert longer[i] == obs[i];
    }
    assert longer[|obs|] == o;
  }

  /** Counting over observations with one more at the end. */
  lemma CountsSnoc(obs: seq<Observation>, o: Observation, domain: string)
    ensures Checks(obs + [o], domain) == Checks(obs, domain) + (if o.domain == domain then 1 else 0)
    ensures UpChecks(obs + [o], domain) == UpChecks(obs, domain) + (if o.domain == domain && o.isUp then 1 else 0)
  {
    assert (obs + [o])[..|obs|] == obs;
  }

  /** One step of the loop keeps every domain's counters equal to what was
      read before the round plus what has been observed so far, and the
      domains present equal to the old ones plus the observed ones. */
  lemma TallyStep(statusMap: StatusMap, before: StatusMap, after: StatusMap,
                  obs: seq<Observation>, o: Observation, status: DomainStatus)
    requires before.Keys == statusMap.Keys + Domains(obs)
    requires forall d :: Lookup(before, d) == Tallied(statusMap, obs, d)
    requires status.totalChecks == Lookup(before, o.domain).totalChecks + 1
    requires status.upChecks == Lookup(before, o.domain).upChecks + if o.isUp then 1 else 0
    requires after == before[o.domain := status]
    ensures after.Keys == statusMap.Keys + Domains(obs + [o])
    ensures forall d :: Lookup(after, d) == Tallied(statusMap, obs + [o], d)
  {
    DomainsSnoc(obs, o);
    forall d
      ensures Lookup(after, d) == Tallied(statusMap, obs + [o], d)
    {
      CountsSnoc(obs, o, d);
      assert Lookup(before, d) == Tallied(statusMap, obs, d);
    }
  }

  /** `after` is `before` with the observations recorded: its domains are
      the old ones and the observed ones, and each domain's counters are
      what it read before (zero if it was absent) plus its checks and up
      checks among the observations. */
  ghost predicate Recorded(before: StatusMap, obs: seq<Observation>, after: StatusMap)
  {
    && after.Keys == before.Keys + Domains(obs)
    && forall d :: d in after ==> after[d] == Tallied(before, obs, d)
  }

  /** The lines of `main` inside the endpoint loop, for every endpoint of a
      round in order: probe it, read its domain's counters (zero when the
      domain is new), add one check and, when up, one up check, and write
      the counters back. */
  method Round(statusMap: StatusMap, endpoints: seq<Endpoint>, exchanges: seq<Exchange>) returns (result: StatusMap)
    requires Addressable(endpoints) && |exchanges| == |endpoints|
    ensures Recorded(statusMap, Observations(endpoints, exchanges), result)
  {
    result := statusMap;
    ghost var obs: seq<Observation> := [];
    for i := 0 to |endpoints|
      invariant obs == ObservationsUpTo(endpoints, exchanges, i)
      invariant result.Keys == statusMap.Keys + Domains(obs)
      invariant forall d :: Lookup(result, d) == Tallied(statusMap, obs, d)
    {
      var isUp := CheckEndpoint(endpoints[i], exchanges[i]).isUp;
      var domain := ExtractDomain(endpoints[i].url);
      ghost var before := result;
      var status := Lookup(result, domain);
      status := status.(totalChecks := status.totalChecks + 1);
      if isUp {
        status := status.(upChecks := status.upChecks + 1);
      }
      result := result[domain := status];
      ghost var o := Observation(domain, isUp);
      TallyStep(statusMap, before, result, obs, o, status);
      obs := obs + [o];
    }
    assert forall d :: d in result ==> Lookup(result, d) == result[d];
  }

  /** Recording determines the map: two maps that record the same
      observations on the same map are equal. */
  lemma RecordedUnique(before: StatusMap, obs: seq<Observation>, m1: StatusMap, m2: StatusMap)
    requires Recorded(before, obs, m1) && Recorded(before, obs, m2)
    ensures m1 == m2
  {
  }

  /** A domain the observations do not mention keeps its counters. */
  lemma RecordedKeepsUnobserved(before: StatusMap, obs: seq<Observation>, after: StatusMap, d: string)
    requires Recorded(before, obs, after)
    requires d in before && d !in Domains(obs)
    ensures d in after && after[d] == before[d]
  {
    ChecksPositive(obs, d);
    UpChecksAtMostChecks(obs, d);
  }

  /** Recording never lowers a counter. */
  lemma RecordedMonotone(before: StatusMap, obs: seq<Observation>, after: StatusMap, d: string)
    requires Recorded(before, obs, after)
    requires d in before
    ensures d in after
    ensures before[d].totalChecks <= after[d].totalChecks
    ensures before[d].upChecks <= after[d].upChecks
  {
  }

  /** Recording keeps every domain reportable: a domain it adds has at
      least one check, and up checks never exceed checks. */
  lemma RecordedReportable(before: StatusMap, obs: seq<Observation>, after: StatusMap)
    requires Recorded(before, obs, after)
    requires AllReportable(before)
    ensures AllReportable(after)
  {
    forall d | d in after
      ensures Reportable(after[d])
    {
      ChecksPositive(obs, d);
      UpChecksAtMostChecks(obs, d);
    }
  }

  /** The domain keys of the configured endpoints. */
  function EndpointDomains(endpoints: seq<Endpoint>): set<string>
    requires Addressable(endpoints)
  {
    set i | 0 <= i < |endpoints| :: ExtractDomain(endpoints[i].url)
  }

  /** How many of the first `n` endpoints have domain key `domain`. */
  function EndpointCount(endpoints: seq<Endpoint>, n: nat, domain: string): nat
    requires Addressable(endpoints) && n <= |endpoints|
  {
    if n == 0 then 0
    else EndpointCount(endpoints, n - 1, domain) + if ExtractDomain(endpoints[n - 1].url) == domain then 1 else 0
  }

  /** A round checks each domain once per endpoint with that key, whatever
      the probes returned. */
  lemma {:induction false} RoundChecks(endpoints: seq<Endpoint>, exchanges: seq<Exchange>, n: nat, domain: string)
    requires Addressable(endpoints) && |exchanges| == |endpoints| && n <= |endpoints|
    ensures Checks(ObservationsUpTo(endpoints, exchanges, n), domain) == EndpointCount(endpoints, n, domain)
    decreases n
  {
    if n > 0 {
      RoundChecks(endpoints, exchanges, n - 1, domain);
      CountsSnoc(ObservationsUpTo(endpoints, exchanges, n - 1), Observe(endpoints[n - 1], exchanges[n - 1]), domain);
    }
  }

  /** A round observes exactly the endpoints' domain keys. */
  lemma {:induction false} RoundDomains(endpoints: seq<Endpoint>, exchanges: seq<Exchange>)
    requires Addressable(endpoints) && |exchanges| == |endpoints|
    ensures Domains(Observations(endpoints, exchanges)) == EndpointDomains(endpoints)
  {
    var obs := Observations(endpoints, exchanges);
    forall d | d in Domains(obs)
      ensures d in EndpointDomains(endpoints)
    {
      var k :| 0 <= k < |obs| && obs[k].domain == d;
      ObservationsAt(endpoints, exchanges, |endpoints|, k);
    }
    forall d | d in EndpointDomains(endpoints)
      ensures d in Domains(obs)
    {
      var k :| 0 <= k < |endpoints| && ExtractDomain(endpoints[k].url) == d;
      ObservationsAt(endpoints, exchanges, |endpoints|, k);
      assert obs[k].domain == d;
    }
  }

  /** How many of the first `n` endpoints have domain key `domain` and a
      healthy outcome. */
  function EndpointUpCount(endpoints: seq<Endpoint>, exchanges: seq<Exchange>, n: nat, domain: string): nat
    requires Addressable(endpoints) && |exchanges| == |endpoints| && n <= |endpoints|
  {
    if n == 0 then 0
    else
      var up := ExtractDomain(endpoints[n - 1].url) == domain && Healthy(exchanges[n - 1](BuildRequest(endpoints[n - 1])));
      EndpointUpCount(endpoints, exchanges, n - 1, domain) + if up then 1 else 0
  }

  /** A round's up checks of a domain are its endpoints with that key whose
      probe was up. */
  lemma {:induction false} RoundUpChecks(endpoints: seq<Endpoint>, exchanges: seq<Exchange>, n: nat, domain: string)
    requires Addressable(endpoints) && |exchanges| == |endpoints| && n <= |endpoints|
    ensures UpChecks(ObservationsUpTo(endpoints, exchanges, n), domain) == EndpointUpCount(endpoints, exchanges, n, domain)
    decreases n
  {
    if n > 0 {
      var m: nat := n - 1;
      var prev, o := ObservationsUpTo(endpoints, exchanges, m), Observe(endpoints[m], exchanges[m]);
      assert ObservationsUpTo(endpoints, exchanges, n) == prev + [o];
      RoundUpChecks(endpoints, exchanges, m, domain);
      CountsSnoc(prev, o, domain);
      assert o.domain == ExtractDomain(endpoints[m].url);
      assert o.isUp <==> Healthy(exchanges[m](BuildRequest(endpoints[m])));
    }
  }

  /** After a round, every domain key of the endpoints has gained one check
      per endpoint with that key and one up check per such endpoint whose
      probe was up. */
  lemma RoundCounts(statusMap: StatusMap, endpoints: seq<Endpoint>, exchanges: seq<Exchange>, result: StatusMap, d: string)
    requires Addressable(endpoints) && |exchanges| == |endpoints|
    requires Recorded(statusMap, Observations(endpoints, exchanges), result)
    requires d in statusMap || d in EndpointDomains(endpoints)
    ensures d in result
    ensures result[d].totalChecks == Lookup(statusMap, d).totalChecks + EndpointCount(endpoints, |endpoints|, d)
    ensures result[d].upChecks == Lookup(statusMap, d).upChecks + EndpointUpCount(endpoints, exchanges, |endpoints|, d)
  {
    RoundDomains(endpoints, exchanges);
    RoundChecks(endpoints, exchanges, |endpoints|, d);
    RoundUpChecks(endpoints, exchanges, |endpoints|, d);
  }

  /** Counting over two stretches of observations adds up. */
  lemma {:induction false} CountsAppend(obs1: seq<Observation>, obs2: seq<Observation>, d: string)
    ensures Checks(obs1 + obs2, d) == Checks(obs1, d) + Checks(obs2, d)
    ensures UpChecks(obs1 + obs2, d) == UpChecks(obs1, d) + UpChecks(obs2, d)
    decreases |obs2|
  {
    if obs2 == [] {
      assert obs1 + obs2 == obs1;
    } else {
      var n := |obs2| - 1;
      CountsAppend(obs1, obs2[..n], d);
      assert obs1 + obs2 == (obs1 + obs2[..n]) + [obs2[n]];
      assert obs2 == obs2[..n] + [obs2[n]];
      CountsSnoc(obs1 + obs2[..n], obs2[n], d);
      CountsSnoc(obs2[..n], obs2[n], d);
    }
  }

  /** The domains of two stretches of observations together. */
  lemma DomainsAppend(obs1: seq<Observation>, obs2: seq<Observation>)
    ensures Domains(obs1 + obs2) == Domains(obs1) + Domains(obs2)
  {
    var both := obs1 + obs2;
    forall d | d in Domains(both)
      ensures d in Domains(obs1) + Domains(obs2)
    {
      var i :| 0 <= i < |both| && both[i].domain == d;
      if i < |obs1| {
        assert both[i] == obs1[i];
      } else {
        assert both[i] == obs2[i - |obs1|];
      }
    }
    forall d | d in Domains(obs1) + Domains(obs2)
      ensures d in Domains(both)
    {
      if d in Domains(obs1) {
        var i :| 0 <= i < |obs1| && obs1[i].domain == d;
        assert both[i] == obs1[i];
      } else {
        var i :| 0 <= i < |obs2| && obs2[i].domain == d;
        assert both[|obs1| + i] == obs2[i];
      }
    }
  }

  /** Recording one stretch and then another is recording both. */
  lemma RecordedTwice(m0: StatusMap, obs1: seq<Observation>, m1: StatusMap, obs2: seq<Observation>, m2: StatusMap)
    requires Recorded(m0, obs1, m1) && Recorded(m1, obs2, m2)
    ensures Recorded(m0, obs1 + obs2, m2)
  {
    DomainsAppend(obs1, obs2);
    forall d | d in m2
      ensures m2[d] == Tallied(m0, obs1 + obs2, d)
    {
      CountsAppend(obs1, obs2, d);
      if d !in m1 {
        ChecksPositive(obs1, d);
        UpChecksAtMostChecks(obs1, d);
      }
    }
  }
}
