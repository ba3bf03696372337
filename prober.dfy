// One probe of one endpoint: the request it issues and the rule that
// classifies what came back as up or down.

module Prober {

  /** Go's time.Duration: a signed 64-bit count of nanoseconds. */
  newtype Duration = d: int | -0x8000_0000_0000_0000 <= d < 0x8000_0000_0000_0000

  const Millisecond: Duration := 1_000_000

  /** The slowest response that still counts as up: 500 ms, inclusive. */
  const MaxLatency: Duration := 500 * Millisecond

  /** One configured target, as loaded from the endpoint list. */
  datatype Endpoint = Endpoint(
    name: string,
    url: string,
    httpMethod: string,
    headers: map<string, string>,
    body: string)

  /** The HTTP request a probe hands to the client. */
  datatype Request = Request(
    httpMethod: string,
    url: string,
    headers: map<string, string>,
    body: string)

  /** What building and sending a request came to: the request could not be
      built, the client returned an error (connection, DNS, TLS, the 2 s
      timeout), or a response arrived; the last two carry the time measured
      around the client call. */
  datatype Outcome =
    | ConstructionError
    | TransportError(elapsed: Duration)
    | Response(statusCode: int, elapsed: Duration)

  /** The network and the clock, seen from one probe: what the exchange of
      a request produced. */
  type Exchange = Request -> Outcome

  /** What a probe reports: whether the endpoint is up, and the duration. */
  datatype ProbeResult = ProbeResult(isUp: bool, elapsed: Duration)

  /** The method the request uses: the configured one, or GET when none is
      configured. */
  function RequestMethod(configured: string): (m: string)
    ensures m != ""
    ensures configured != "" ==> m == configured
    ensures configured == "" ==> m == "GET"
  {
    if configured == "" then "GET" else configured
  }

  /** Defaulting the method a second time changes nothing. */
  lemma RequestMethodIdempotent(configured: string)
    ensures RequestMethod(RequestMethod(configured)) == RequestMethod(configured)
  {
  }

  /** The request built for an endpoint: its URL, headers and body, with the
      method defaulted. */
  function BuildRequest(e: Endpoint): (r: Request)
    ensures r.url == e.url && r.headers == e.headers && r.body == e.body
    ensures r.httpMethod == (if e.httpMethod == "" then "GET" else e.httpMethod)
  {
    Request(RequestMethod(e.httpMethod), e.url, e.headers, e.body)
  }

  /** The health rule: a response arrived, its status is 2xx and it took at
      most 500 ms. It is down exactly when the client failed, the status is
      below 200 or above 299, or the response took longer than 500 ms. */
  predicate Healthy(o: Outcome)
    ensures !Healthy(o) <==>
      (o.ConstructionError? || o.TransportError? || o.statusCode < 200 || o.statusCode > 299 || o.elapsed > MaxLatency)
  {
    o.Response? && 200 <= o.statusCode <= 299 && o.elapsed <= MaxLatency
  }

  /** checkEndpoint: issues the endpoint's request through `exchange` and
      classifies the outcome. */
  function CheckEndpoint(e: Endpoint, exchange: Exchange): (r: ProbeResult)
    ensures var o := exchange(BuildRequest(e));
      && (r.isUp <==> Healthy(o))
      && (o.ConstructionError? ==> r == ProbeResult(false, 0))
      && (!o.ConstructionError? ==> r.elapsed == o.elapsed)
  {
    match exchange(BuildRequest(e))
    case ConstructionError => ProbeResult(false, 0)
    case TransportError(d) => ProbeResult(false, d)
    case Response(code, d) =>
      if code < 200 || code > 299 || d > MaxLatency then ProbeResult(false, d)
      else ProbeResult(true, d)
  }

  /** The latency bound is inclusive: 500 ms is up, one nanosecond more is
      down. */
  lemma LatencyBoundInclusive(e: Endpoint, code: int)
    requires 200 <= code <= 299
    ensures CheckEndpoint(e, _ => Response(code, MaxLatency)).isUp
    ensures !CheckEndpoint(e, _ => Response(code, MaxLatency + 1)).isUp
  {
  }

  /** The status range is [200, 299]: its ends are up, 199 and 300 are down. */
  lemma StatusRangeBounds(e: Endpoint, d: Duration)
    requires 0 <= d <= MaxLatency
    ensures CheckEndpoint(e, _ => Response(200, d)).isUp
    ensures CheckEndpoint(e, _ => Response(299, d)).isUp
    ensures !CheckEndpoint(e, _ => Response(199, d)).isUp
    ensures !CheckEndpoint(e, _ => Response(300, d)).isUp
  {
  }

  /** A transport error is down however fast it came back. */
  lemma TransportErrorIsDown(e: Endpoint, d: Duration)
    ensures CheckEndpoint(e, _ => TransportError(d)) == ProbeResult(false, d)
  {
  }

  /** A request that cannot be built is down with duration 0. */
  lemma ConstructionErrorIsDown(e: Endpoint)
    ensures CheckEndpoint(e, _ => ConstructionError) == ProbeResult(false, 0)
  {
  }

  /** Worked examples: 200 in 100 ms is up, 200 in 600 ms and 503 in 50 ms
      are down. */
  lemma ClassificationExamples(e: Endpoint)
    ensures CheckEndpoint(e, _ => Response(200, 100 * Millisecond)).isUp
    ensures !CheckEndpoint(e, _ => Response(200, 600 * Millisecond)).isUp
    ensures !CheckEndpoint(e, _ => Response(503, 50 * Millisecond)).isUp
  {
  }

  /** The probe passes the request with the defaulted method to the
      exchange: an endpoint without a method is probed with GET, one with a
      method is probed with that method. */
  lemma {:induction false} ProbeUsesRequestMethod(e: Endpoint, exchange: Exchange)
    ensures var sent := if e.httpMethod == "" then e.(httpMethod := "GET") else e;
      CheckEndpoint(e, exchange) == CheckEndpoint(sent, exchange)
  {
    var sent := if e.httpMethod == "" then e.(httpMethod := "GET") else e;
    assert BuildRequest(sent) == BuildRequest(e);
  }
}
