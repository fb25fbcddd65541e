/**
 * The in-memory sliding-window rate limiter of the API: per IP, a list of
 * (timestamp, count) entries shared by every endpoint, and an occasional sweep of
 * entries older than an hour. The clock is the parameter `now`.
 */
module RateLimiter {
  import opened Wrappers
  import opened Text
  import opened Limits

  /** One recorded call: when, and how many calls it stands for (always 1). */
  datatype Entry = Entry(ts: real, count: int)

  /** requests (a defaultdict of lists) and last_cleanup. */
  datatype State = State(requests: map<string, seq<Entry>>, lastCleanup: real)

  const CleanupInterval: real := 300.0
  const Retention: real := 3600.0

  /** self.limits in insertion order; "default" is an entry like any other. */
  const Table: seq<Rule> := [
    Rule("default", Limit(100, 60)),
    Rule("/api/bolsas", Limit(200, 60)),
    Rule("/api/ranking", Limit(50, 60)),
    Rule("/api/editais", Limit(100, 60)),
    Rule("/api/scrape", Limit(5, 3600)),
    Rule("/api/alertas", Limit(20, 3600))]

  /** get_limit_for_endpoint */
  function EndpointLimit(endpoint: string): (r: Limit)
    ensures r.requests >= 5 && 60 <= r.window <= 3600
  {
    LimitForWithin(Table, Limit(100, 60), endpoint, (l: Limit) => l.requests >= 5 && 60 <= l.window <= 3600);
    LimitFor(Table, Limit(100, 60), endpoint)
  }

  /** The scrape endpoints share the hourly limit of five. */
  lemma ScrapeStartLimit()
    ensures EndpointLimit("/api/scrape/start") == Limit(5, 3600)
  {
    var p := "/api/scrape/start";
    DiffersAt(p, Table[0].path, 0);
    DiffersAt(p, Table[1].path, 5);
    DiffersAt(p, Table[2].path, 5);
    DiffersAt(p, Table[3].path, 5);
    AgreesOn(p, Table[4].path);
    assert PrefixRule(Table, p) == Some(4);
  }

  /** The entries of an IP; a missing IP has none. */
  function History(st: State, ip: string): seq<Entry> {
    if ip in st.requests then st.requests[ip] else []
  }

  /** The entries strictly newer than t, in order. */
  function Newer(h: seq<Entry>, t: real): (r: seq<Entry>)
    ensures |r| <= |h|
  {
    if h == [] then [] else (if h[0].ts > t then [h[0]] else []) + Newer(h[1..], t)
  }

  /** Newer keeps exactly the entries after t. */
  lemma {:induction false} NewerMembers(h: seq<Entry>, t: real)
    ensures forall e :: e in Newer(h, t) <==> e in h && e.ts > t
  {
    if h != [] {
      NewerMembers(h[1..], t);
      assert h == [h[0]] + h[1..];
    }
  }

  /** sum(count for _, count in entries) */
  function Total(h: seq<Entry>): int {
    if h == [] then 0 else h[0].count + Total(h[1..])
  }

  predicate UnitCounts(h: seq<Entry>) {
    forall j :: 0 <= j < |h| ==> h[j].count == 1
  }

  /** _cleanup_old_requests: at most every five minutes, forget entries older than an hour. */
  function Cleanup(st: State, now: real): (r: State)
    ensures now - st.lastCleanup < CleanupInterval ==> r == st
    ensures now - st.lastCleanup >= CleanupInterval ==> (
      && r.lastCleanup == now
      && (forall ip :: ip in r.requests <==> ip in st.requests && Newer(st.requests[ip], now - Retention) != [])
      && (forall ip :: ip in r.requests ==> r.requests[ip] == Newer(st.requests[ip], now - Retention)))
  {
    if now - st.lastCleanup < CleanupInterval then st
    else
      var cutoff := now - Retention;
      State(map ip | ip in st.requests && Newer(st.requests[ip], cutoff) != [] :: Newer(st.requests[ip], cutoff), now)
  }

  /** The dict is_allowed returns. */
  datatype Info = Info(allowed: bool, limit: nat, window: nat, current: int, remaining: Option<int>, retryAfter: Option<int>)

  /**
   * is_allowed under the limit lim of the endpoint: sweep, count this IP's entries inside
   * the window, deny when the count has reached the limit, otherwise record the call and
   * keep only the entries inside the window. Reading requests[ip] creates an empty entry
   * for a new IP.
   */
  function Step(st: State, ip: string, lim: Limit, now: real): (r: (State, Info))
    ensures r.1.allowed <==> Total(Newer(History(Cleanup(st, now), ip), now - lim.window as real)) < lim.requests
    ensures r.1.limit == lim.requests && r.1.window == lim.window
    ensures r.0.lastCleanup == Cleanup(st, now).lastCleanup && ip in r.0.requests
    ensures forall o :: o != ip ==> (o in r.0.requests <==> o in Cleanup(st, now).requests) && History(r.0, o) == History(Cleanup(st, now), o)
  {
    var c := Cleanup(st, now);
    var start := now - lim.window as real;
    var h := History(c, ip);
    var total := Total(Newer(h, start));
    if total >= lim.requests then
      (c.(requests := c.requests[ip := h]), Info(false, lim.requests, lim.window, total, None, Some(lim.window)))
    else
      var h' := Newer(h + [Entry(now, 1)], start);
      (c.(requests := c.requests[ip := h']), Info(true, lim.requests, lim.window, total + 1, Some(lim.requests - total - 1), None))
  }

  /**
   * is_allowed: the step under the endpoint's limit, which reports a limit of at least
   * five calls over a window of one minute to one hour.
   */
  function IsAllowed(st: State, ip: string, endpoint: string, now: real): (r: (State, Info))
    ensures r == Step(st, ip, EndpointLimit(endpoint), now)
    ensures r.1.limit >= 5 && 60 <= r.1.window <= 3600
  {
    var lim := EndpointLimit(endpoint);
    Step(st, ip, lim, now)
  }

  /**
   * A denied call records nothing, reports the count it saw and asks the client to wait a
   * whole window; an allowed one reports the count including itself and what is left.
   */
  lemma StepInfo(st: State, ip: string, lim: Limit, now: real)
    ensures var r := Step(st, ip, lim, now);
      var c := Cleanup(st, now);
      var total := Total(Newer(History(c, ip), now - lim.window as real));
      && (!r.1.allowed ==> History(r.0, ip) == History(c, ip) && r.1.current == total && r.1.retryAfter == Some(lim.window))
      && (r.1.allowed ==> r.1.current == total + 1 && r.1.remaining == Some(lim.requests - total - 1) && lim.requests - total - 1 >= 0)
  {
  }

  lemma {:induction false} NewerAppend(a: seq<Entry>, b: seq<Entry>, t: real)
    ensures Newer(a + b, t) == Newer(a, t) + Newer(b, t)
  {
    if a != [] {
      assert (a + b)[0] == a[0];
      assert (a + b)[1..] == a[1..] + b;
      NewerAppend(a[1..], b, t);
    } else {
      assert a + b == b;
    }
  }

  lemma {:induction false} TotalAppend(a: seq<Entry>, b: seq<Entry>)
    ensures Total(a + b) == Total(a) + Total(b)
  {
    if a != [] {
      assert (a + b)[0] == a[0];
      assert (a + b)[1..] == a[1..] + b;
      TotalAppend(a[1..], b);
    } else {
      assert a + b == b;
    }
  }

  /** Filtering twice by the same time is filtering once. */
  lemma NewerIdempotent(h: seq<Entry>, t: real)
    ensures Newer(Newer(h, t), t) == Newer(h, t)
  {
    NewerNewer(h, t, t);
  }

  /** Filtering by a later time after an earlier one is filtering by the later one. */
  lemma {:induction false} NewerNewer(h: seq<Entry>, t: real, u: real)
    requires t <= u
    ensures Newer(Newer(h, t), u) == Newer(h, u)
  {
    if h != [] {
      NewerNewer(h[1..], t, u);
      var rest := Newer(h[1..], t);
      if h[0].ts > t {
        var n := [h[0]] + rest;
        assert Newer(h, t) == n;
        assert n[0] == h[0] && n[1..] == rest;
        assert Newer(n, u) == (if h[0].ts > u then [h[0]] else []) + Newer(rest, u);
      } else {
        assert Newer(h, t) == rest;
      }
    }
  }

  /** With unit counts the total is the number of entries. */
  lemma {:induction false} TotalOfUnits(h: seq<Entry>)
    requires UnitCounts(h)
    ensures Total(h) == |h|
  {
    if h != [] {
      assert UnitCounts(h[1..]) by {
        assert forall j :: 0 <= j < |h| - 1 ==> h[1..][j] == h[j + 1];
      }
      TotalOfUnits(h[1..]);
    }
  }

  /** What an allowed call leaves for the IP: the old entries inside the window, then the new one. */
  lemma AllowedHistory(st: State, ip: string, lim: Limit, now: real)
    requires lim.window > 0 && Step(st, ip, lim, now).1.allowed
    ensures History(Step(st, ip, lim, now).0, ip)
        == Newer(History(Cleanup(st, now), ip), now - lim.window as real) + [Entry(now, 1)]
  {
    var start := now - lim.window as real;
    var h := History(Cleanup(st, now), ip);
    NewerAppend(h, [Entry(now, 1)], start);
    assert Newer([Entry(now, 1)], start) == [Entry(now, 1)];
  }

  /**
   * Right after an allowed call the IP's calls inside that endpoint's window add up to at
   * most the endpoint's limit.
   */
  lemma AllowedStaysWithinLimit(st: State, ip: string, lim: Limit, now: real)
    requires lim.window > 0 && Step(st, ip, lim, now).1.allowed
    ensures Total(Newer(History(Step(st, ip, lim, now).0, ip), now - lim.window as real)) <= lim.requests
    ensures Step(st, ip, lim, now).1.remaining.Some? && Step(st, ip, lim, now).1.remaining.value >= 0
  {
    var start := now - lim.window as real;
    var h := History(Cleanup(st, now), ip);
    AllowedHistory(st, ip, lim, now);
    var h' := Newer(h, start) + [Entry(now, 1)];
    NewerAppend(Newer(h, start), [Entry(now, 1)], start);
    NewerIdempotent(h, start);
    assert Newer([Entry(now, 1)], start) == [Entry(now, 1)];
    assert Newer(h', start) == h';
    TotalAppend(Newer(h, start), [Entry(now, 1)]);
  }

  /**
   * History is per IP, not per endpoint: an allowed call drops every entry of the IP at
   * or before the start of its own window, including entries an endpoint with a longer
   * window would still count.
   */
  lemma AllowedPrunesSharedHistory(st: State, ip: string, lim: Limit, now: real)
    requires lim.window > 0 && Step(st, ip, lim, now).1.allowed
    ensures forall e :: e in History(Step(st, ip, lim, now).0, ip) ==> e.ts > now - lim.window as real
  {
    AllowedHistory(st, ip, lim, now);
    NewerMembers(History(Cleanup(st, now), ip), now - lim.window as real);
  }

  /** Every recorded entry counts one call, before and after any call. */
  lemma UnitCountsKept(st: State, ip: string, lim: Limit, now: real)
    requires forall o :: o in st.requests ==> UnitCounts(st.requests[o])
    ensures var s := Step(st, ip, lim, now).0;
      forall o :: o in s.requests ==> UnitCounts(s.requests[o])
  {
    var c := Cleanup(st, now);
    forall o | o in c.requests ensures UnitCounts(c.requests[o]) {
      if now - st.lastCleanup >= CleanupInterval {
        NewerKeepsUnits(st.requests[o], now - Retention);
      }
    }
    var r := Step(st, ip, lim, now);
    var h := History(c, ip);
    if r.1.allowed {
      UnitsAppend(h, Entry(now, 1));
      NewerKeepsUnits(h + [Entry(now, 1)], now - lim.window as real);
    }
  }

  lemma {:induction false} NewerKeepsUnits(h: seq<Entry>, t: real)
    requires UnitCounts(h)
    ensures UnitCounts(Newer(h, t))
  {
    if h != [] {
      assert UnitCounts(h[1..]) by {
        assert forall j :: 0 <= j < |h| - 1 ==> h[1..][j] == h[j + 1];
      }
      NewerKeepsUnits(h[1..], t);
    }
  }

  lemma UnitsAppend(h: seq<Entry>, e: Entry)
    requires UnitCounts(h) && e.count == 1
    ensures UnitCounts(h + [e])
  {
    assert forall j :: 0 <= j < |h| ==> (h + [e])[j] == h[j];
  }

  /** With unit counts, after an allowed call the IP holds at most the endpoint's limit of entries. */
  lemma AllowedEntriesWithinLimit(st: State, ip: string, lim: Limit, now: real)
    requires forall o :: o in st.requests ==> UnitCounts(st.requests[o])
    requires lim.window > 0 && Step(st, ip, lim, now).1.allowed
    ensures |History(Step(st, ip, lim, now).0, ip)| <= lim.requests
  {
    var s := Step(st, ip, lim, now).0;
    UnitCountsKept(st, ip, lim, now);
    AllowedStaysWithinLimit(st, ip, lim, now);
    AllowedPrunesSharedHistory(st, ip, lim, now);
    UnitsWithinLimit(History(s, ip), now - lim.window as real, lim.requests);
  }

  /** Unit entries all inside a window whose total is bounded are at most that many. */
  lemma UnitsWithinLimit(h: seq<Entry>, t: real, bound: nat)
    requires UnitCounts(h) && (forall e :: e in h ==> e.ts > t) && Total(Newer(h, t)) <= bound
    ensures |h| <= bound
  {
    NewerAll(h, t);
    TotalOfUnits(h);
  }

  /** Filtering keeps a history whose entries are all newer than t. */
  lemma {:induction false} NewerAll(h: seq<Entry>, t: real)
    requires forall e :: e in h ==> e.ts > t
    ensures Newer(h, t) == h
  {
    if h != [] {
      assert h[0] in h;
      assert forall e :: e in h[1..] ==> e in h;
      NewerAll(h[1..], t);
      assert h == [h[0]] + h[1..];
    }
  }

  /**
   * The sweep never changes a decision: every endpoint window is at most an hour, and the
   * sweep only forgets entries older than an hour.
   */
  lemma CleanupKeepsWindows(st: State, now: real, ip: string, t: real)
    requires t >= now - Retention
    ensures Newer(History(Cleanup(st, now), ip), t) == Newer(History(st, ip), t)
  {
    if now - st.lastCleanup >= CleanupInterval && ip in st.requests {
      var h := st.requests[ip];
      NewerNewer(h, now - Retention, t);
    }
  }
}
