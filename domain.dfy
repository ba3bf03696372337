// The domain key under which the monitor aggregates an endpoint's checks:
// the authority part (host, and port when there is one) of its URL.

module Domain {
  import opened GoStrings

  /** The URL has a "//" for the extraction to split on; without one the
      extraction indexes past the end of the parts and panics. */
  predicate HasAuthority(url: string)
  {
    Index(url, "//") >= 0
  }

  /** `a` is the authority of `url` read from position `start`: the
      characters from `start` up to, but excluding, the next '/' or the end
      of the URL. */
  predicate AuthorityAt(url: string, start: int, a: string)
  {
    && 0 <= start
    && start + |a| <= |url|
    && url[start..start + |a|] == a
    && '/' !in a
    && (start + |a| == |url| || url[start + |a|] == '/')
  }

  /** At most one string is the authority read from a given position. */
  lemma AuthorityUnique(url: string, start: int, a: string, b: string)
    requires AuthorityAt(url, start, a) && AuthorityAt(url, start, b)
    ensures a == b
  {
  }

  /** No character of `s` is '/' when the separator "/" never occurs in it. */
  lemma NoSlash(s: string)
    requires Index(s, "/") < 0
    ensures '/' !in s
  {
    forall k | 0 <= k < |s|
      ensures s[k] != '/'
    {
      OccursAtChar(s, '/', k);
    }
  }

  /** A prefix of a prefix of `url[start..]`, each ending where a '/'
      follows (or at the end), with no '/' in the inner one, is the authority
      read from `start`. */
  lemma NestedPrefixAuthority(url: string, start: int, outer: string, inner: string)
    requires 0 <= start <= |url|
    requires |outer| <= |url| - start && outer == url[start..start + |outer|]
    requires start + |outer| < |url| ==> url[start + |outer|] == '/'
    requires |inner| <= |outer| && inner == outer[..|inner|]
    requires |inner| < |outer| ==> outer[|inner|] == '/'
    requires '/' !in inner
    ensures AuthorityAt(url, start, inner)
  {
    assert url[start..start + |inner|] == outer[..|inner|];
    if |inner| < |outer| {
      assert url[start + |inner|] == outer[|inner|];
    }
  }

  /** The part after the first "//" starts right after it, and a '/'
      follows it unless it runs to the end of the URL. */
  lemma SecondPart(url: string)
    requires HasAuthority(url)
    ensures |Split(url, "//")| >= 2
    ensures var start, p1 := Index(url, "//") + 2, Split(url, "//")[1];
      && start <= |url|
      && |p1| <= |url| - start && p1 == url[start..start + |p1|]
      && (start + |p1| < |url| ==> url[start + |p1|] == '/')
  {
    SplitSecondPart(url, "//");
    var start, p1 := Index(url, "//") + 2, Split(url, "//")[1];
    if start + |p1| < |url| {
      OccursAtHead(url, "//", start + |p1|);
    }
  }

  /** The part before the first '/' is a prefix without '/', followed by a
      '/' unless it is the whole string. */
  lemma FirstSegment(p: string)
    ensures var d := Split(p, "/")[0];
      && |d| <= |p| && d == p[..|d|]
      && (|d| < |p| ==> p[|d|] == '/')
      && '/' !in d
  {
    var d := Split(p, "/")[0];
    SplitFirstPart(p, "/");
    if |d| < |p| {
      OccursAtChar(p, '/', |d|);
    }
    NoSlash(d);
  }

  /** What the two splits of the extraction compute, stated as a position
      in the URL. */
  lemma SplitsGiveAuthority(url: string)
    requires HasAuthority(url)
    ensures |Split(url, "//")| >= 2
    ensures AuthorityAt(url, Index(url, "//") + 2, Split(Split(url, "//")[1], "/")[0])
  {
    SecondPart(url);
    var p1 := Split(url, "//")[1];
    FirstSegment(p1);
    NestedPrefixAuthority(url, Index(url, "//") + 2, p1, Split(p1, "/")[0]);
  }

  /** extractDomain: splits the URL on "//", takes the second part, splits
      that on "/" and takes the first part. The result is the authority
      that follows the first "//". */
  function ExtractDomain(url: string): (domain: string)
    requires HasAuthority(url)
    ensures AuthorityAt(url, Index(url, "//") + 2, domain)
  {
    SplitsGiveAuthority(url);
    var urlParts := Split(url, "//");
    Split(urlParts[1], "/")[0]
  }

  /** The extracted domain is the only string with the authority's shape. */
  lemma {:induction false} ExtractDomainIsAuthority(url: string, a: string)
    requires HasAuthority(url)
    ensures ExtractDomain(url) == a <==> AuthorityAt(url, Index(url, "//") + 2, a)
  {
    if AuthorityAt(url, Index(url, "//") + 2, a) {
      AuthorityUnique(url, Index(url, "//") + 2, a, ExtractDomain(url));
    }
  }

  /** A URL made of a scheme without '/', "//", a host without '/' and a
      path that is empty or starts with '/' has that host as its domain key. */
  lemma ExtractDomainOfParts(url: string, scheme: string, host: string, path: string)
    requires url == scheme + "//" + host + path
    requires '/' !in scheme && '/' !in host
    requires path == [] || path[0] == '/'
    ensures HasAuthority(url) && ExtractDomain(url) == host
  {
    var i := |scheme|;
    assert url[i..i + 2] == "//";
    forall k | 0 <= k < i
      ensures !OccursAt(url, "//", k)
    {
      if OccursAt(url, "//", k) {
        OccursAtHead(url, "//", k);
      }
    }
    IndexIsFirst(url, "//", i);
    assert url[i + 2..i + 2 + |host|] == host;
    if path != [] {
      assert url[i + 2 + |host|] == path[0];
    }
    ExtractDomainIsAuthority(url, host);
  }

  /** Worked example: a host followed by a path. */
  lemma ExtractDomainHostExample()
    ensures HasAuthority("https://api.example.com/v1/health")
    ensures ExtractDomain("https://api.example.com/v1/health") == "api.example.com"
  {
    ExtractDomainOfParts("https://api.example.com/v1/health", "https:", "api.example.com", "/v1/health");
  }

  /** Worked example: the key keeps the port. */
  lemma ExtractDomainPortExample()
    ensures HasAuthority("http://svc:8080/ping")
    ensures ExtractDomain("http://svc:8080/ping") == "svc:8080"
  {
    ExtractDomainOfParts("http://svc:8080/ping", "http:", "svc:8080", "/ping");
  }
}
