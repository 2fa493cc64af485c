/**
  The request-routing decisions of the rate-limiting servlet filter: which
  paths are limited, which client key a request is charged to, how the
  per-client bucket cache is consulted, and whether the request reaches the
  rest of the filter chain or is refused with status 429.

  A bucket is represented by its identity only; whether it yields a token
  when asked is an oracle supplied with each request.
 */
module RateLimitingFilter {
  import opened JavaString

  const LoginPath := "/api/login"
  const RegisterPath := "/api/register"
  const AdminPrefix := "/api/admin"

  /** HTTP 429 Too Many Requests. */
  const TooManyRequestsStatus := 429
  const JsonContentType := "application/json"
  const TooManyRequestsBody := "{\"error\":\"Too many requests. Please try again later.\"}"

  /** The value of a request header, or its absence (`getHeader` returns null). */
  datatype Header = Absent | Present(value: string)

  datatype Request = Request(uri: string, forwardedFor: Header, remoteAddr: string)

  /** The identity of a token bucket; buckets are numbered in creation order. */
  type BucketId = nat

  /**
    The filter's state: the bucket cache keyed by client address, and how
    many buckets have been created so far.
   */
  datatype Filter = Filter(cache: map<string, BucketId>, created: nat)

  /** The client key extracted from a request, or the exception that extraction throws. */
  datatype ClientKey = Key(ip: string) | IndexOutOfBounds

  datatype Response =
    | PassedToChain                                         // filterChain.doFilter(...)
    | Rejected(status: int, contentType: string, body: string)
    | Failed                                                // an exception escapes the filter

  datatype Handled = Handled(filter: Filter, response: Response)

  datatype Lookup = Lookup(filter: Filter, bucket: BucketId)

  /** Every cached bucket was created by this filter, and no two clients share one. */
  ghost predicate Valid(f: Filter) {
    && (forall k :: k in f.cache ==> f.cache[k] < f.created)
    && (forall k1, k2 :: k1 in f.cache && k2 in f.cache && k1 != k2 ==> f.cache[k1] != f.cache[k2])
  }

  /** The filter as constructed: an empty bucket cache and no bucket created yet. */
  function NewFilter(): (f: Filter)
    ensures f.cache == map[] && Valid(f)
  {
    Filter(map[], 0)
  }

  /**
    Whether requests to `path` are rate limited: the login and registration
    paths by exact match, the admin area by character prefix.
   */
  function IsRateLimited(path: string): (limited: bool)
    ensures limited <==> path == LoginPath || path == RegisterPath || AdminPrefix <= path
  {
    path == LoginPath || path == RegisterPath || StartsWith(path, AdminPrefix)
  }

  /** Every path that continues the admin prefix, however it continues, is limited. */
  lemma AdminPrefixAdmitsAnyContinuation(rest: string)
    ensures IsRateLimited(AdminPrefix + rest)
  {
    assert (AdminPrefix + rest)[..|AdminPrefix|] == AdminPrefix;
  }

  /**
    The login and registration paths are matched exactly: extending either
    by any text, a trailing slash included, takes it out of the limited set.
   */
  lemma ExactPathsAdmitNoContinuation(rest: string)
    requires |rest| > 0
    ensures !IsRateLimited(LoginPath + rest)
    ensures !IsRateLimited(RegisterPath + rest)
  {
    var login := LoginPath + rest;
    var register := RegisterPath + rest;
    assert login[5] == 'l' && register[5] == 'r' && AdminPrefix[5] == 'a';
    assert |login| != |LoginPath| && login[5] != RegisterPath[5];
    assert |register| != |RegisterPath| && register[5] != LoginPath[5];
  }

  /**
    The client key: the remote address when there is no `X-Forwarded-For`
    header, otherwise the first element of the header split on commas.
   */
  function GetClientIP(forwardedFor: Header, remoteAddr: string): (r: ClientKey)
    ensures forwardedFor.Absent? ==> r == Key(remoteAddr)
    ensures forwardedFor.Present? ==>
      (r == IndexOutOfBounds <==>
        |forwardedFor.value| > 0 && forall k :: 0 <= k < |forwardedFor.value| ==> forwardedFor.value[k] == ',')
    ensures forwardedFor.Present? && r.Key? ==> IsFirstField(r.ip, forwardedFor.value, ',')
    ensures forwardedFor.Present? && ',' !in forwardedFor.value ==> r == Key(forwardedFor.value)
  {
    match forwardedFor
    case Absent => Key(remoteAddr)
    case Present(header) =>
      var parts := Split(header, ',');
      if |parts| == 0 then IndexOutOfBounds else Key(parts[0])
  }

  /**
    `cache.computeIfAbsent(key, k -> createNewBucket())`: the cached bucket
    when there is one, otherwise a newly created bucket, stored under `key`.
   */
  function ComputeIfAbsent(f: Filter, key: string): (r: Lookup)
    ensures key in r.filter.cache && r.filter.cache[key] == r.bucket
    ensures key in f.cache ==> r.bucket == f.cache[key] && r.filter == f
    ensures key !in f.cache && Valid(f) ==> r.bucket !in f.cache.Values
    ensures r.filter.cache.Keys == f.cache.Keys + {key}
    ensures forall k :: k in f.cache ==> r.filter.cache[k] == f.cache[k]
    ensures Valid(f) ==> Valid(r.filter)
  {
    if key in f.cache then
      Lookup(f, f.cache[key])
    else
      var newBucket := f.created;
      Lookup(Filter(f.cache[key := newBucket], f.created + 1), newBucket)
  }

  /**
    `doFilterInternal`: a request to an unlimited path goes straight on; a
    limited one is charged to its client's bucket and goes on only if that
    bucket grants a token (`grant`), and is refused with 429 otherwise.
   */
  function DoFilterInternal(f: Filter, req: Request, grant: BucketId -> bool): (r: Handled)
    ensures !IsRateLimited(req.uri) ==> r == Handled(f, PassedToChain)
    ensures IsRateLimited(req.uri) && GetClientIP(req.forwardedFor, req.remoteAddr) == IndexOutOfBounds ==>
      r == Handled(f, Failed)
    ensures IsRateLimited(req.uri) && GetClientIP(req.forwardedFor, req.remoteAddr).Key? ==>
      var ip := GetClientIP(req.forwardedFor, req.remoteAddr).ip;
      && ip in r.filter.cache
      && (ip in f.cache ==> r.filter == f)
      && (forall k :: k in f.cache ==> k in r.filter.cache && r.filter.cache[k] == f.cache[k])
      && r.filter.cache.Keys == f.cache.Keys + {ip}
      && (r.response == PassedToChain <==> grant(r.filter.cache[ip]))
      && (r.response != PassedToChain ==>
            r.response == Rejected(TooManyRequestsStatus, JsonContentType, TooManyRequestsBody))
    ensures Valid(f) ==> Valid(r.filter)
  {
    if IsRateLimited(req.uri) then
      match GetClientIP(req.forwardedFor, req.remoteAddr)
      case IndexOutOfBounds => Handled(f, Failed)
      case Key(ip) =>
        var lookup := ComputeIfAbsent(f, ip);
        if grant(lookup.bucket) then
          Handled(lookup.filter, PassedToChain)
        else
          Handled(lookup.filter, Rejected(TooManyRequestsStatus, JsonContentType, TooManyRequestsBody))
    else
      Handled(f, PassedToChain)
  }

  /**
    Two limited requests from the same client, one after the other, are
    charged to the same bucket: the first creates it if needed, the second
    reuses it.
   */
  lemma SameClientSameBucket(f: Filter, req1: Request, req2: Request, grant1: BucketId -> bool, grant2: BucketId -> bool)
    requires IsRateLimited(req1.uri) && IsRateLimited(req2.uri)
    requires GetClientIP(req1.forwardedFor, req1.remoteAddr).Key?
    requires GetClientIP(req1.forwardedFor, req1.remoteAddr) == GetClientIP(req2.forwardedFor, req2.remoteAddr)
    ensures var ip := GetClientIP(req1.forwardedFor, req1.remoteAddr).ip;
      var h1 := DoFilterInternal(f, req1, grant1);
      var h2 := DoFilterInternal(h1.filter, req2, grant2);
      && h2.filter == h1.filter
      && (h2.response == PassedToChain <==> grant2(h1.filter.cache[ip]))
  {
  }

  /** In a valid filter, distinct clients are charged to distinct buckets. */
  lemma DistinctClientsDistinctBuckets(f: Filter, req1: Request, req2: Request, grant: BucketId -> bool)
    requires Valid(f)
    requires IsRateLimited(req1.uri) && IsRateLimited(req2.uri)
    requires GetClientIP(req1.forwardedFor, req1.remoteAddr).Key?
    requires GetClientIP(req2.forwardedFor, req2.remoteAddr).Key?
    requires GetClientIP(req1.forwardedFor, req1.remoteAddr) != GetClientIP(req2.forwardedFor, req2.remoteAddr)
    ensures var ip1 := GetClientIP(req1.forwardedFor, req1.remoteAddr).ip;
      var ip2 := GetClientIP(req2.forwardedFor, req2.remoteAddr).ip;
      var h1 := DoFilterInternal(f, req1, grant);
      var h2 := DoFilterInternal(h1.filter, req2, grant);
      h2.filter.cache[ip1] != h2.filter.cache[ip2]
  {
  }
}
