/** The in-memory fixed-window rate limiter on the web layer: one counter per client, all
    counters cleared together once more than a minute has passed since the last clearing. */
module RateLimitInterceptor {
  import opened Wrappers
  import Text
  import ClientAddress

  const WINDOW_MS: int := 60000

  /** The X-RateLimit-Limit, -Remaining and -Reset headers. */
  datatype RateLimitHeaders = RateLimitHeaders(limit: int, remaining: int, reset: int)

  datatype Verdict =
    | Admitted(headers: Option<RateLimitHeaders>)
    | RateLimited(limitHeaders: RateLimitHeaders, message: string)
    | Threw(exception: string)                      // the request failed before it was counted

  /** The counters and the start of the current window. */
  datatype Window = Window(counts: map<string, int>, lastResetTime: int)

  /** `getClientId`: the first X-Forwarded-For entry when the header is present and non-empty,
      otherwise the connection's remote address. */
  function ClientId(forwardedFor: Option<string>, remoteAddr: string): (id: string)
    ensures forwardedFor.Some? && forwardedFor.value != "" ==> id == ClientAddress.FirstForwarded(forwardedFor.value)
    ensures forwardedFor.None? || forwardedFor.value == "" ==> id == remoteAddr
  {
    if forwardedFor.Some? && forwardedFor.value != "" then ClientAddress.FirstForwarded(forwardedFor.value)
    else remoteAddr
  }

  /** `getClientId` as written, which throws on a header made only of commas. */
  function ClientIdAsWritten(forwardedFor: Option<string>, remoteAddr: string): (r: Result<string, string>)
  {
    if forwardedFor.Some? && forwardedFor.value != "" then ClientAddress.FirstForwardedAsWritten(forwardedFor.value)
    else Success(remoteAddr)
  }

  /** The client id as written fails exactly on comma-only headers, and otherwise agrees. */
  lemma ClientIdAgrees(forwardedFor: Option<string>, remoteAddr: string)
    ensures ClientIdAsWritten(forwardedFor, remoteAddr).Failure? <==>
              forwardedFor.Some? && |forwardedFor.value| > 0 && forall k :: 0 <= k < |forwardedFor.value| ==> forwardedFor.value[k] == ','
    ensures ClientIdAsWritten(forwardedFor, remoteAddr).Success? ==>
              ClientIdAsWritten(forwardedFor, remoteAddr).value == ClientId(forwardedFor, remoteAddr)
  {
    if forwardedFor.Some? && forwardedFor.value != "" {
      ClientAddress.AsWrittenFailsOnCommas(forwardedFor.value);
      if ClientAddress.FirstForwardedAsWritten(forwardedFor.value).Success? {
        ClientAddress.FirstForwardedAgrees(forwardedFor.value);
      }
    }
  }

  function CountOf(counts: map<string, int>, client: string): int {
    if client in counts then counts[client] else 0
  }

  /** The window a request at `now` is counted in: a new, empty one once more than a minute
      has passed since the last clearing, the current one otherwise. */
  function Roll(w: Window, now: int): (v: Window)
    ensures now - w.lastResetTime > WINDOW_MS ==> v == Window(map[], now)
    ensures now - w.lastResetTime <= WINDOW_MS ==> v == w
  {
    if now - w.lastResetTime > WINDOW_MS then Window(map[], now) else w
  }

  /** One counted request: the window after it and the client's new count. */
  function Step(w: Window, client: string, now: int): (r: (Window, int))
    ensures r.1 == CountOf(Roll(w, now).counts, client) + 1
    ensures r.0.lastResetTime == Roll(w, now).lastResetTime
    ensures CountOf(r.0.counts, client) == r.1
    ensures forall c :: c != client ==> CountOf(r.0.counts, c) == CountOf(Roll(w, now).counts, c)
  {
    var v := Roll(w, now);
    var n := CountOf(v.counts, client) + 1;
    (Window(v.counts[client := n], v.lastResetTime), n)
  }

  /** The headers and the verdict for a request that brought its client to `count`. */
  function Decide(limit: int, count: int, lastResetTime: int): (v: Verdict)
    ensures v.RateLimited? <==> count > limit
    ensures v.Admitted? ==> v.headers.Some? && v.headers.value.remaining == limit - count
    ensures v.RateLimited? ==> v.limitHeaders.remaining == 0
  {
    var h := RateLimitHeaders(limit, if limit - count > 0 then limit - count else 0, lastResetTime + WINDOW_MS);
    if count > limit then
      RateLimited(h, "Rate limit exceeded. Maximum " + Text.IntToString(limit) + " requests per minute allowed.")
    else Admitted(Some(h))
  }

  // ---------------------------------------------------------------- a run of requests

  datatype Request = Request(client: string, time: int)

  /** The window after a run of requests. */
  function Replay(w: Window, reqs: seq<Request>): Window
  {
    if |reqs| == 0 then w else Step(Replay(w, reqs[..|reqs| - 1]), reqs[|reqs| - 1].client, reqs[|reqs| - 1].time).0
  }

  /** How many requests in the run came from `client`. */
  function Occurrences(reqs: seq<Request>, client: string): nat
  {
    if |reqs| == 0 then 0
    else Occurrences(reqs[..|reqs| - 1], client) + (if reqs[|reqs| - 1].client == client then 1 else 0)
  }

  /** Whether the i-th request of the run is let through. */
  predicate AdmittedAt(w: Window, limit: int, reqs: seq<Request>, i: nat)
    requires i < |reqs|
  {
    Step(Replay(w, reqs[..i]), reqs[i].client, reqs[i].time).1 <= limit
  }

  /** As long as no request falls more than a minute after the window started, every client's
      counter is its starting value plus its requests so far. */
  lemma {:induction false} ReplayCounts(w: Window, reqs: seq<Request>, c: string)
    requires forall k :: 0 <= k < |reqs| ==> reqs[k].time - w.lastResetTime <= WINDOW_MS
    ensures Replay(w, reqs).lastResetTime == w.lastResetTime
    ensures CountOf(Replay(w, reqs).counts, c) == CountOf(w.counts, c) + Occurrences(reqs, c)
  {
    if |reqs| > 0 {
      var init := reqs[..|reqs| - 1];
      ReplayCounts(w, init, c);
    }
  }

  /** Within one window, a request is let through exactly when it is among the first
      `limit` requests its client has made in that window (counting what was already there). */
  lemma SameWindowAdmitsFirstN(w: Window, limit: int, reqs: seq<Request>, i: nat)
    requires i < |reqs|
    requires forall k :: 0 <= k < |reqs| ==> reqs[k].time - w.lastResetTime <= WINDOW_MS
    ensures AdmittedAt(w, limit, reqs, i) <==>
              CountOf(w.counts, reqs[i].client) + Occurrences(reqs[..i + 1], reqs[i].client) <= limit
  {
    var pre := reqs[..i];
    ReplayCounts(w, pre, reqs[i].client);
    assert reqs[..i + 1][..i] == pre;
  }

  /** A fresh window lets exactly the first `limit` requests of a client through. */
  lemma FreshWindowAdmitsFirstN(now: int, limit: int, reqs: seq<Request>, i: nat)
    requires i < |reqs|
    requires forall k :: 0 <= k < |reqs| ==> now <= reqs[k].time <= now + WINDOW_MS
    ensures AdmittedAt(Window(map[], now), limit, reqs, i) <==> Occurrences(reqs[..i + 1], reqs[i].client) <= limit
  {
    SameWindowAdmitsFirstN(Window(map[], now), limit, reqs, i);
  }

  // ---------------------------------------------------------------- the interceptor

  class RateLimitingInterceptor {
    const rateLimitEnabled: bool
    const requestsPerMinute: int
    var requestCounts: map<string, int>
    var lastResetTime: int

    /** The configured switch and limit; the window starts at construction time. */
    constructor (rateLimitEnabled: bool, requestsPerMinute: int, now: int)
      ensures this.rateLimitEnabled == rateLimitEnabled && this.requestsPerMinute == requestsPerMinute
      ensures requestCounts == map[] && lastResetTime == now
    {
      this.rateLimitEnabled := rateLimitEnabled;
      this.requestsPerMinute := requestsPerMinute;
      requestCounts := map[];
      lastResetTime := now;
    }

    function State(): Window
      reads this
    {
      Window(requestCounts, lastResetTime)
    }

    /** `preHandle`. Disabled, it lets everything through and counts nothing; enabled, it
        reads the client id as written, which throws on a comma-only X-Forwarded-For before
        anything is counted, and otherwise counts the request in the current window and
        refuses it once the client's count exceeds the limit. */
    method PreHandle(forwardedFor: Option<string>, remoteAddr: string, now: int) returns (v: Verdict)
      modifies this
      ensures !rateLimitEnabled ==> v == Admitted(None) && State() == old(State())
      ensures rateLimitEnabled && ClientIdAsWritten(forwardedFor, remoteAddr).Failure? ==>
                v == Threw(ClientIdAsWritten(forwardedFor, remoteAddr).error) && State() == old(State())
      ensures rateLimitEnabled && ClientIdAsWritten(forwardedFor, remoteAddr).Success? ==>
                var step := Step(old(State()), ClientId(forwardedFor, remoteAddr), now);
                State() == step.0 && v == Decide(requestsPerMinute, step.1, step.0.lastResetTime)
    {
      if !rateLimitEnabled {
        return Admitted(None);
      }
      var id := ClientIdAsWritten(forwardedFor, remoteAddr);
      if id.Failure? {
        return Threw(id.error);
      }
      ClientIdAgrees(forwardedFor, remoteAddr);
      var clientId := id.value;
      if now - lastResetTime > WINDOW_MS {
        requestCounts := map[];
        lastResetTime := now;
      }
      var currentCount := CountOf(requestCounts, clientId) + 1;
      requestCounts := requestCounts[clientId := currentCount];
      var remaining := if requestsPerMinute - currentCount > 0 then requestsPerMinute - currentCount else 0;
      var headers := RateLimitHeaders(requestsPerMinute, remaining, lastResetTime + WINDOW_MS);
      if currentCount > requestsPerMinute {
        return RateLimited(headers, "Rate limit exceeded. Maximum " + Text.IntToString(requestsPerMinute)
                                    + " requests per minute allowed.");
      }
      return Admitted(Some(headers));
    }
  }
}
