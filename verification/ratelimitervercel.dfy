/**
 * The rate limiter of the serverless API: per IP, the timestamps of its recent calls,
 * pruned to the path's window on every check. The clock is the parameter `now`; the
 * state is the instance's dict, which the platform drops on a cold start.
 */
module VercelLimiter {
  import opened Wrappers
  import opened Text
  import opened Limits

  /** self.limits in insertion order. */
  const Table: seq<Rule> := [
    Rule("/api/bolsas", Limit(200, 60)),
    Rule("/api/bolsas/", Limit(200, 60)),
    Rule("/api/ranking", Limit(50, 60)),
    Rule("/api/editais", Limit(100, 60)),
    Rule("/api/metadata", Limit(100, 60)),
    Rule("/api/analytics", Limit(50, 60)),
    Rule("/api/scrape", Limit(5, 3600)),
    Rule("/api/alertas", Limit(20, 3600)),
    Rule("default", Limit(100, 60))]

  /** get_limit */
  function PathLimit(path: string): (r: Limit)
    ensures r.window == 60 || r.window == 3600
    ensures r.window == 60 ==> 50 <= r.requests <= 200
    ensures r.window == 3600 ==> 5 <= r.requests <= 20
  {
    LimitForWithin(Table, Limit(100, 60), path,
      (l: Limit) => (l.window == 60 && 50 <= l.requests <= 200) || (l.window == 3600 && 5 <= l.requests <= 20));
    LimitFor(Table, Limit(100, 60), path)
  }

  /** A path with an id after /api/bolsas/ gets the bolsas limit through the first prefix entry. */
  lemma BolsaIdLimit()
    ensures PathLimit("/api/bolsas/abc") == Limit(200, 60)
  {
    AgreesOn("/api/bolsas/abc", Table[0].path);
    assert PrefixRule(Table, "/api/bolsas/abc") == Some(0);
  }

  // ---------------------------------------------------------------------------
  // get_client_ip

  /** headers.get(name, '') */
  function Header(headers: map<string, string>, name: string): string {
    if name in headers then headers[name] else ""
  }

  /** s.split(',')[0]: the text before the first comma. */
  function FirstField(s: string): (r: string)
    ensures |r| <= |s| && r == s[..|r|]
    ensures forall i :: 0 <= i < |r| ==> r[i] != ','
    ensures |r| < |s| ==> s[|r|] == ','
  {
    match FindChar(s, ',')
    case None => s
    case Some(i) => s[..i]
  }

  /**
   * get_client_ip: the first entry of x-forwarded-for, stripped; else x-real-ip; else
   * cf-connecting-ip; else 'unknown'. Empty values are passed over.
   */
  function ClientIp(headers: map<string, string>): (r: string)
    ensures r != []
    ensures Strip(FirstField(Header(headers, "x-forwarded-for"))) != [] ==> r == Strip(FirstField(Header(headers, "x-forwarded-for")))
    ensures Strip(FirstField(Header(headers, "x-forwarded-for"))) == [] && Header(headers, "x-real-ip") != [] ==> r == Header(headers, "x-real-ip")
    ensures Strip(FirstField(Header(headers, "x-forwarded-for"))) == [] && Header(headers, "x-real-ip") == []
            ==> r == (if Header(headers, "cf-connecting-ip") != [] then Header(headers, "cf-connecting-ip") else "unknown")
    ensures r == "unknown" || r == Strip(FirstField(Header(headers, "x-forwarded-for")))
            || r == Header(headers, "x-real-ip") || r == Header(headers, "cf-connecting-ip")
  {
    var forwarded := Strip(FirstField(Header(headers, "x-forwarded-for")));
    if forwarded != [] then forwarded
    else if Header(headers, "x-real-ip") != [] then Header(headers, "x-real-ip")
    else if Header(headers, "cf-connecting-ip") != [] then Header(headers, "cf-connecting-ip")
    else "unknown"
  }

  /** Without any of the three headers every caller shares the 'unknown' bucket. */
  lemma NoHeadersIsUnknown()
    ensures ClientIp(map[]) == "unknown"
  {
  }

  // ---------------------------------------------------------------------------
  // check_limit and apply_rate_limit

  /** The timestamps of an IP; a missing IP has none. */
  function Stamps(st: map<string, seq<real>>, ip: string): seq<real> {
    if ip in st then st[ip] else []
  }

  /** [ts for ts in stamps if ts > t] */
  function After(h: seq<real>, t: real): (r: seq<real>)
    ensures |r| <= |h|
    ensures forall i :: 0 <= i < |r| ==> r[i] > t
  {
    if h == [] then [] else (if h[0] > t then [h[0]] else []) + After(h[1..], t)
  }

  /** Python's int() on a float: truncation toward zero. */
  function Trunc(x: real): int {
    if x >= 0.0 then x.Floor else -((-x).Floor)
  }

  /** The dict check_limit returns; retry_after only on a denial. */
  datatype Info = Info(allowed: bool, limit: nat, remaining: int, window: nat, retryAfter: Option<int>, reset: int)

  /**
   * check_limit under the limit lim of the path: prune the IP's stamps to the window,
   * deny when as many as the limit remain, otherwise record now.
   */
  function Step(st: map<string, seq<real>>, ip: string, lim: Limit, now: real): (r: (map<string, seq<real>>, Info))
    requires lim.requests > 0
    ensures var kept := After(Stamps(st, ip), now - lim.window as real);
      && (r.1.allowed <==> |kept| < lim.requests)
      && r.1.limit == lim.requests && r.1.window == lim.window
      && ip in r.0
      && (forall o :: o != ip ==> (o in r.0 <==> o in st) && Stamps(r.0, o) == Stamps(st, o))
      && (!r.1.allowed ==> r.0[ip] == kept && r.1.remaining == 0 && r.1.retryAfter.Some?)
      && (r.1.allowed ==> r.0[ip] == kept + [now] && r.1.remaining == lim.requests - |kept| - 1 && r.1.retryAfter.None?)
  {
    var start := now - lim.window as real;
    var kept := After(Stamps(st, ip), start);
    var count := |kept|;
    if count >= lim.requests then
      var retry := Trunc(lim.window as real - (now - kept[0])) + 1;
      (st[ip := kept], Info(false, lim.requests, 0, lim.window, Some(retry), Trunc(now + retry as real)))
    else
      (st[ip := kept + [now]], Info(true, lim.requests, lim.requests - count - 1, lim.window, None, Trunc(now + lim.window as real)))
  }

  /** check_limit: the step under the path's limit. */
  function CheckLimit(st: map<string, seq<real>>, ip: string, path: string, now: real): (r: (map<string, seq<real>>, Info))
    ensures r.1.allowed <==> |After(Stamps(st, ip), now - PathLimit(path).window as real)| < PathLimit(path).requests
    ensures r.1.limit == PathLimit(path).requests && r.1.window == PathLimit(path).window
  {
    Step(st, ip, PathLimit(path), now)
  }

  /**
   * A denial asks the client to wait at least one second, and no more than a window and
   * a second when the oldest kept call is not in the future.
   */
  lemma RetryAfterBounds(st: map<string, seq<real>>, ip: string, lim: Limit, now: real)
    requires lim.requests > 0
    requires !Step(st, ip, lim, now).1.allowed
    ensures var kept := After(Stamps(st, ip), now - lim.window as real);
      var retry := Step(st, ip, lim, now).1.retryAfter.value;
      && retry >= 1
      && (kept[0] <= now ==> retry <= lim.window + 1)
  {
    var kept := After(Stamps(st, ip), now - lim.window as real);
    var x := lim.window as real - (now - kept[0]);
    assert x > 0.0;
    assert x.Floor >= 0;
    if kept[0] <= now {
      assert x <= lim.window as real;
      assert x.Floor <= lim.window;
    }
  }

  /** Right after an allowed call the IP holds at most the path's limit of calls, all inside the window. */
  lemma AllowedStaysWithinLimit(st: map<string, seq<real>>, ip: string, lim: Limit, now: real)
    requires lim.requests > 0 && lim.window > 0
    requires Step(st, ip, lim, now).1.allowed
    ensures var h := Step(st, ip, lim, now).0[ip];
      |h| <= lim.requests && (forall i :: 0 <= i < |h| ==> h[i] > now - lim.window as real)
      && Step(st, ip, lim, now).1.remaining >= 0
  {
  }

  /** The error apply_rate_limit returns for a denied call. */
  datatype RateError = RateError(error: string, message: string, limit: nat, retryAfter: int, window: nat)

  /**
   * apply_rate_limit: None when the call is allowed, otherwise the error carrying the
   * limit, the window and the retry delay of the check.
   */
  function ApplyRateLimit(st: map<string, seq<real>>, headers: map<string, string>, path: string, now: real)
    : (r: (map<string, seq<real>>, Option<RateError>))
    ensures var c := CheckLimit(st, ClientIp(headers), path, now);
      && r.0 == c.0
      && (r.1.None? <==> c.1.allowed)
      && (r.1.Some? ==>
            && r.1.value.error == "Rate limit exceeded"
            && r.1.value.limit == c.1.limit && r.1.value.window == c.1.window
            && r.1.value.retryAfter == c.1.retryAfter.value)
  {
    var c := CheckLimit(st, ClientIp(headers), path, now);
    if c.1.allowed then (c.0, None)
    else
      var info := c.1;
      var msg := "Você excedeu o limite de " + IntToString(info.limit) + " requisições por " + IntToString(info.window) + " segundos";
      (c.0, Some(RateError("Rate limit exceeded", msg, info.limit, info.retryAfter.value, info.window)))
  }
}
