/** The servlet filter that rate-limits per client and endpoint with token buckets. A bucket
    is an abstract counter of the tokens left; the library's refill is not part of this model. */
module RateLimitFilter {
  import opened Wrappers
  import Text
  import ClientAddress

  const CAPACITY: nat := 100
  const TOO_MANY_REQUESTS: int := 429
  const RETRY_AFTER_SECONDS: string := "60"

  datatype Bucket = Bucket(tokens: nat)

  /** `tryConsume(1)`. */
  function TryConsume(b: Bucket): (r: (bool, Bucket))
    ensures r.0 <==> b.tokens > 0
    ensures r.0 ==> r.1.tokens + 1 == b.tokens
    ensures !r.0 ==> r.1 == b
  {
    if b.tokens > 0 then (true, Bucket(b.tokens - 1)) else (false, b)
  }

  /** How many of `n` consecutive requests a bucket lets through, and the bucket after them. */
  function ConsumeRun(b: Bucket, n: nat): (r: (nat, Bucket))
  {
    if n == 0 then (0, b)
    else
      var prev := ConsumeRun(b, n - 1);
      var step := TryConsume(prev.1);
      (prev.0 + (if step.0 then 1 else 0), step.1)
  }

  /** With no refill, a bucket lets through exactly as many requests as it holds tokens, and
      no more: of `n` requests, `min(n, tokens)` pass. */
  lemma {:induction false} ConsumeRunAdmits(b: Bucket, n: nat)
    ensures ConsumeRun(b, n).0 == (if n <= b.tokens then n else b.tokens)
    ensures ConsumeRun(b, n).1.tokens == (if n <= b.tokens then b.tokens - n else 0)
  {
    if n > 0 {
      ConsumeRunAdmits(b, n - 1);
    }
  }

  /** The request headers and connection data the filter reads. */
  datatype HttpRequest = HttpRequest(
    uri: string,
    authorization: Option<string>,
    apiKey: Option<string>,
    forwardedFor: Option<string>,
    realIp: Option<string>,
    remoteAddr: string)

  datatype FilterResult =
    | Skipped                                       // shouldNotFilter held
    | Forwarded                                     // passed down the chain
    | Rejected(status: int, headers: map<string, string>)
    | Threw(exception: string)                      // the request failed before any bucket was touched

  // ---------------------------------------------------------------- pure parts

  /** `shouldNotFilter`: health checks and static resources bypass the limiter. */
  predicate ShouldNotFilter(path: string) {
    Text.StartsWith(path, "/actuator/") || Text.StartsWith(path, "/static/") || Text.StartsWith(path, "/css/")
    || Text.StartsWith(path, "/js/") || Text.StartsWith(path, "/images/") || path == "/favicon.ico"
  }

  /** API paths are always limited. */
  lemma ApiPathsAreFiltered(path: string)
    requires Text.StartsWith(path, "/api/")
    ensures !ShouldNotFilter(path)
  {
    assert path[2] == 'p';
  }

  /** `extractUserIdFromJWT`: a placeholder that finds no user whatever the header. */
  function ExtractUserIdFromJwt(authorization: Option<string>): (r: Option<string>)
    ensures r.None?
  {
    None
  }

  /** `getClientIpAddress`: the first X-Forwarded-For entry, then X-Real-IP, then the
      connection's address; empty headers count as absent. */
  function ClientIpAddress(req: HttpRequest): (ip: string)
    ensures req.forwardedFor.Some? && req.forwardedFor.value != "" ==> ip == ClientAddress.FirstForwarded(req.forwardedFor.value)
    ensures (req.forwardedFor.None? || req.forwardedFor.value == "") && req.realIp.Some? && req.realIp.value != "" ==>
              ip == req.realIp.value
    ensures (req.forwardedFor.None? || req.forwardedFor.value == "") && (req.realIp.None? || req.realIp.value == "") ==>
              ip == req.remoteAddr
  {
    if req.forwardedFor.Some? && req.forwardedFor.value != "" then ClientAddress.FirstForwarded(req.forwardedFor.value)
    else if req.realIp.Some? && req.realIp.value != "" then req.realIp.value
    else req.remoteAddr
  }

  /** `getClientIpAddress` as written: `split(",")[0]` throws on a comma-only X-Forwarded-For. */
  function ClientIpAddressAsWritten(req: HttpRequest): (r: Result<string, string>)
  {
    if req.forwardedFor.Some? && req.forwardedFor.value != "" then ClientAddress.FirstForwardedAsWritten(req.forwardedFor.value)
    else if req.realIp.Some? && req.realIp.value != "" then Success(req.realIp.value)
    else Success(req.remoteAddr)
  }

  /** `getClientIdentifier`: "user:" and the JWT user id, else "api:" and a non-empty API
      key, else "ip:" and the address. */
  function ClientIdentifier(req: HttpRequest): (id: string)
    ensures ExtractUserIdFromJwt(req.authorization).None? && req.apiKey.Some? && req.apiKey.value != "" ==>
              id == "api:" + req.apiKey.value
    ensures ExtractUserIdFromJwt(req.authorization).None? && (req.apiKey.None? || req.apiKey.value == "") ==>
              id == "ip:" + ClientIpAddress(req)
  {
    match ExtractUserIdFromJwt(req.authorization)
    case Some(userId) => "user:" + userId
    case None =>
      if req.apiKey.Some? && req.apiKey.value != "" then "api:" + req.apiKey.value
      else "ip:" + ClientIpAddress(req)
  }

  /** `getClientIdentifier` as written, over `ClientIpAddressAsWritten`. */
  function ClientIdentifierAsWritten(req: HttpRequest): (r: Result<string, string>)
  {
    match ExtractUserIdFromJwt(req.authorization)
    case Some(userId) => Success("user:" + userId)
    case None =>
      if req.apiKey.Some? && req.apiKey.value != "" then Success("api:" + req.apiKey.value)
      else
        match ClientIpAddressAsWritten(req)
        case Success(ip) => Success("ip:" + ip)
        case Failure(e) => Failure(e)
  }

  /** The identifier as written fails exactly for a request with no API key whose
      X-Forwarded-For is made only of commas, and otherwise is `ClientIdentifier`. */
  lemma ClientIdentifierAgrees(req: HttpRequest)
    ensures ClientIdentifierAsWritten(req).Failure? <==>
              (req.apiKey.None? || req.apiKey.value == "") && req.forwardedFor.Some? && |req.forwardedFor.value| > 0
              && forall k :: 0 <= k < |req.forwardedFor.value| ==> req.forwardedFor.value[k] == ','
    ensures ClientIdentifierAsWritten(req).Success? ==> ClientIdentifierAsWritten(req).value == ClientIdentifier(req)
  {
    if req.forwardedFor.Some? && req.forwardedFor.value != "" {
      ClientAddress.AsWrittenFailsOnCommas(req.forwardedFor.value);
      if ClientAddress.FirstForwardedAsWritten(req.forwardedFor.value).Success? {
        ClientAddress.FirstForwardedAgrees(req.forwardedFor.value);
      }
    }
  }

  /** Since the JWT extractor finds nobody, no identifier is ever a user identifier. */
  lemma UserBranchUnreachable(req: HttpRequest)
    ensures !Text.StartsWith(ClientIdentifier(req), "user:")
  {
    var id := ClientIdentifier(req);
    assert id[0] == 'a' || id[0] == 'i';
  }

  /** Requests with different API keys never share a bucket identity. */
  lemma ApiKeysSeparateClients(a: HttpRequest, b: HttpRequest)
    requires a.apiKey.Some? && a.apiKey.value != "" && b.apiKey.Some? && b.apiKey.value != ""
    requires a.apiKey != b.apiKey
    ensures ClientIdentifier(a) != ClientIdentifier(b)
  {
    assert ClientIdentifier(a)[4..] == a.apiKey.value;
    assert ClientIdentifier(b)[4..] == b.apiKey.value;
  }

  function BucketKey(clientId: string, endpoint: string): string {
    clientId + ":" + endpoint
  }

  /** The 429 reply `handleRateLimitExceeded` writes. */
  function RateLimitExceeded(): (r: FilterResult)
    ensures r.Rejected? && r.status == TOO_MANY_REQUESTS && "Retry-After" in r.headers && r.headers["Retry-After"] == RETRY_AFTER_SECONDS
  {
    Rejected(TOO_MANY_REQUESTS, map["X-Rate-Limit-Exceeded" := "true", "Retry-After" := RETRY_AFTER_SECONDS])
  }

  // ---------------------------------------------------------------- the filter

  class RateLimitingFilter {
    var buckets: map<string, Bucket>

    constructor ()
      ensures buckets == map[]
    {
      buckets := map[];
    }

    /** `getBucket`: the bucket for this client and endpoint, created full the first time the
        key is seen and reused afterwards. */
    method GetBucket(clientId: string, endpoint: string) returns (key: string)
      modifies this
      ensures key == BucketKey(clientId, endpoint) && key in buckets
      ensures key in old(buckets) ==> buckets == old(buckets)
      ensures key !in old(buckets) ==> buckets == old(buckets)[key := Bucket(CAPACITY)]
    {
      key := BucketKey(clientId, endpoint);
      if key !in buckets {
        buckets := buckets[key := Bucket(CAPACITY)];
      }
    }

    /** `shouldNotFilter` then `doFilterInternal`: take one token from the request's bucket
        and forward the request, or answer 429 when the bucket is empty. Reading the client
        identifier as written throws on a comma-only X-Forwarded-For when no API key is sent,
        before any bucket is created or used. */
    method Filter(req: HttpRequest) returns (r: FilterResult)
      modifies this
      ensures ShouldNotFilter(req.uri) ==> r == Skipped && buckets == old(buckets)
      ensures !ShouldNotFilter(req.uri) && ClientIdentifierAsWritten(req).Failure? ==>
                r == Threw(ClientIdentifierAsWritten(req).error) && buckets == old(buckets)
      ensures !ShouldNotFilter(req.uri) && ClientIdentifierAsWritten(req).Success? ==>
                var key := BucketKey(ClientIdentifier(req), req.uri);
                var before := if key in old(buckets) then old(buckets)[key] else Bucket(CAPACITY);
                buckets == old(buckets)[key := TryConsume(before).1]
                && (r == Forwarded <==> before.tokens > 0)
                && (r != Forwarded ==> r == RateLimitExceeded())
    {
      if ShouldNotFilter(req.uri) {
        return Skipped;
      }
      var id := ClientIdentifierAsWritten(req);
      if id.Failure? {
        return Threw(id.error);
      }
      ClientIdentifierAgrees(req);
      var clientId := id.value;
      var key := GetBucket(clientId, req.uri);
      var consumed := TryConsume(buckets[key]);
      buckets := buckets[key := consumed.1];
      if consumed.0 {
        return Forwarded;
      }
      return RateLimitExceeded();
    }
  }
}
