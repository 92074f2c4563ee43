/** The fixed-window rate limiter, per request and over every run. */
module RateLimits {
  import opened ByteStrings

  // What identifies a client.
  type Key = Bytes

  // Nanoseconds on Go's time line; 0 is the zero time, which marks an entry without a window.
  type Time = int

  datatype Entry = Entry(requests: int, resetAt: Time)

  const NO_ENTRY := Entry(0, 0)

  // What one request makes of its client's entry.
  function Counted(e: Entry, now: Time, window: int): Entry {
    var current := if e.resetAt == 0 || now >= e.resetAt then Entry(0, now + window) else e;
    current.(requests := current.requests + 1)
  }

  class RateLimiter {
    var clients: map<Key, Entry>
    const limit: int
    const window: int

    constructor (limit: int, window: int)
      ensures clients == map[] && this.limit == limit && this.window == window
    {
      this.limit, this.window := limit, window;
      clients := map[];
    }

    function EntryOf(key: Key): Entry
      reads this
    {
      if key in clients then clients[key] else NO_ENTRY
    }

    // Whether the request of this client passes.
    method Admit(key: Key, now: Time) returns (admitted: bool)
      modifies this`clients
      ensures clients == old(clients)[key := Counted(old(EntryOf(key)), now, window)]
      ensures admitted <==> EntryOf(key).requests <= limit
    {
      var entry := EntryOf(key);
      if entry.resetAt == 0 || now >= entry.resetAt {
        entry := Entry(0, now + window);
      }
      entry := entry.(requests := entry.requests + 1);
      clients := clients[key := entry];
      admitted := entry.requests <= limit;
    }
  }

  // ---------- runs ----------

  datatype Request = Request(key: Key, at: Time)

  // The entries after a run, and the decisions on the way.
  function Clients(clients: map<Key, Entry>, window: int, reqs: seq<Request>): map<Key, Entry>
    decreases reqs
  {
    if reqs == [] then clients
    else Clients(clients[reqs[0].key := Counted(Lookup(clients, reqs[0].key), reqs[0].at, window)], window, reqs[1..])
  }

  function Lookup(clients: map<Key, Entry>, key: Key): Entry {
    if key in clients then clients[key] else NO_ENTRY
  }

  // How many requests of one client pass.
  function Passed(clients: map<Key, Entry>, limit: int, window: int, reqs: seq<Request>, key: Key): nat
    decreases reqs
  {
    if reqs == [] then 0
    else
      var e := Counted(Lookup(clients, reqs[0].key), reqs[0].at, window);
      (if reqs[0].key == key && e.requests <= limit then 1 else 0)
        + Passed(clients[reqs[0].key := e], limit, window, reqs[1..], key)
  }

  // The times at which one client sends requests.
  function TimesOf(reqs: seq<Request>, key: Key): seq<Time> {
    if reqs == [] then []
    else if reqs[0].key == key then [reqs[0].at] + TimesOf(reqs[1..], key)
    else TimesOf(reqs[1..], key)
  }

  // One client on its own.
  function PassedAlone(e: Entry, limit: int, window: int, times: seq<Time>): nat
    decreases times
  {
    if times == [] then 0
    else
      var e' := Counted(e, times[0], window);
      (if e'.requests <= limit then 1 else 0) + PassedAlone(e', limit, window, times[1..])
  }

  // Main result: the traffic of other clients has no effect.
  lemma {:induction false} ClientsAreIndependent(clients: map<Key, Entry>, limit: int, window: int,
                                                      reqs: seq<Request>, key: Key)
    ensures Passed(clients, limit, window, reqs, key) == PassedAlone(Lookup(clients, key), limit, window, TimesOf(reqs, key))
    decreases reqs
  {
    if reqs != [] {
      var e := Counted(Lookup(clients, reqs[0].key), reqs[0].at, window);
      ClientsAreIndependent(clients[reqs[0].key := e], limit, window, reqs[1..], key);
      if reqs[0].key == key {
        assert TimesOf(reqs, key)[1..] == TimesOf(reqs[1..], key);
      }
    }
  }

  ghost predicate InOrder(times: seq<Time>) {
    forall i, j | 0 <= i < j < |times| :: times[i] <= times[j]
  }

  // ---------- one window ----------

  function Min(a: int, b: int): int {
    if a < b then a else b
  }

  function AtLeastZero(a: int): nat {
    if a < 0 then 0 else a
  }

  // Before the window ends exactly what is left of the limit passes, as far as there are requests.
  lemma {:induction false} WithinWindow(e: Entry, limit: int, window: int, times: seq<Time>)
    requires e.resetAt != 0 && forall i | 0 <= i < |times| :: times[i] < e.resetAt
    ensures PassedAlone(e, limit, window, times) == AtLeastZero(Min(|times|, limit - e.requests))
    decreases times
  {
    if times != [] {
      WithinWindow(Counted(e, times[0], window), limit, window, times[1..]);
    }
  }

  // A request at or after the end of the window is always admitted and starts a new one; a rejected
  // request leaves the end of the window where it is.
  lemma NextWindowOpensOnTime(e: Entry, limit: int, window: int, now: Time)
    requires limit >= 1
    ensures now >= e.resetAt ==> Counted(e, now, window).requests <= limit
    ensures Counted(e, now, window).requests > limit && e.requests >= 0 ==> Counted(e, now, window).resetAt == e.resetAt && now < e.resetAt
  {}

  // ---------- any interval of one window length ----------

  // The number of times before `end`.
  function Before(times: seq<Time>, end: Time): (n: nat)
    ensures n <= |times|
    ensures forall i | 0 <= i < n :: times[i] < end
    ensures n < |times| ==> times[n] >= end
  {
    if times == [] || times[0] >= end then 0 else 1 + Before(times[1..], end)
  }

  lemma {:induction false} SplitPassed(e: Entry, limit: int, window: int, times: seq<Time>, n: nat)
    requires n <= |times| && e.resetAt != 0 && forall i | 0 <= i < n :: times[i] < e.resetAt
    ensures PassedAlone(e, limit, window, times)
         == PassedAlone(e, limit, window, times[..n]) + PassedAlone(Entry(e.requests + n, e.resetAt), limit, window, times[n..])
    decreases n
  {
    if n == 0 {
      assert times[..0] == [] && times[0..] == times;
    } else {
      var e' := Counted(e, times[0], window);
      SplitPassed(e', limit, window, times[1..], n - 1);
      assert times[..n][1..] == times[1..][..n - 1] && times[n..] == times[1..][n - 1..];
    }
  }

  // An entry that some request has left, or none: the request that opens a window counts in it.
  ghost predicate Reachable(e: Entry) {
    e == NO_ENTRY || e.requests >= 1
  }

  // The requests up to the end of the current window, and then those behind it.
  lemma AroundReset(e: Entry, limit: int, window: int, times: seq<Time>) returns (n: nat)
    requires e.resetAt != 0
    ensures n <= |times| && (n < |times| ==> times[n] >= e.resetAt) && (n > 0 ==> times[0] < e.resetAt)
    ensures PassedAlone(e, limit, window, times)
         == AtLeastZero(Min(n, limit - e.requests))
            + PassedAlone(Entry(e.requests + n, e.resetAt), limit, window, times[n..])
  {
    n := Before(times, e.resetAt);
    SplitPassed(e, limit, window, times, n);
    WithinWindow(e, limit, window, times[..n]);
  }

  // Behind the window no more than one limit passes in what is left of the interval.
  lemma BehindReset(e: Entry, limit: nat, window: int, times: seq<Time>, n: nat)
    requires limit >= 1 && InOrder(times) && n <= |times| && times != [] && times[0] > 0
    requires n < |times| ==> times[n] >= e.resetAt && times[|times| - 1] < times[n] + window
    ensures PassedAlone(e, limit, window, times[n..]) <= limit
  {
    if n < |times| {
      LaterIsInOrder(times, n);
      FreshWindow(e, limit, window, times[n..]);
    }
  }

  // Whatever happened before, less than 2 * limit requests of a client pass within any half-open interval
  // of one window length: the request that opened the first window has already passed.
  lemma TwoWindowsAtMost(e: Entry, limit: nat, window: int, times: seq<Time>)
    requires limit >= 1 && Reachable(e) && InOrder(times) && times != [] && times[0] > 0
    requires times[|times| - 1] < times[0] + window
    ensures PassedAlone(e, limit, window, times) <= 2 * limit - 1
  {
    if e.resetAt == 0 {
      FreshWindow(e, limit, window, times);
    } else {
      var n := AroundReset(e, limit, window, times);
      BehindReset(Entry(e.requests + n, e.resetAt), limit, window, times, n);
    }
  }

  // In a closed interval one more may pass: the request at its very end.
  lemma TwoWindowsAtMostClosed(e: Entry, limit: nat, window: int, times: seq<Time>)
    requires limit >= 1 && window > 0 && Reachable(e) && InOrder(times) && times != [] && times[0] > 0
    requires times[|times| - 1] <= times[0] + window
    ensures PassedAlone(e, limit, window, times) <= 2 * limit
  {
    if e.resetAt == 0 || times[0] >= e.resetAt {
      TwoFreshWindows(e, limit, window, times);
    } else {
      var n := AroundReset(e, limit, window, times);
      assert n < |times| ==> times[0] < times[n];
      BehindReset(Entry(e.requests + n, e.resetAt), limit, window, times, n);
    }
  }

  // The first request opens a window that ends with the interval.
  lemma TwoFreshWindows(e: Entry, limit: nat, window: int, times: seq<Time>)
    requires limit >= 1 && window > 0 && InOrder(times) && times != [] && times[0] > 0
    requires e.resetAt == 0 || times[0] >= e.resetAt
    requires times[|times| - 1] <= times[0] + window
    ensures PassedAlone(e, limit, window, times) <= 2 * limit
  {
    var e', more := Counted(e, times[0], window), times[1..];
    var n := AroundReset(e', limit, window, more);
    assert more[n..] == times[n + 1..];
    assert n < |more| ==> times[n + 1] == more[n];
    BehindReset(Entry(e'.requests + n, e'.resetAt), limit, window, times, n + 1);
  }

  lemma LaterIsInOrder(times: seq<Time>, n: nat)
    requires InOrder(times) && n < |times|
    ensures var later := times[n..];
            InOrder(later) && later[0] == times[n] >= times[0] && later[|later| - 1] == times[|times| - 1]
  {
    assert n > 0 ==> times[0] <= times[n];
  }

  // A window that opens now outlasts the interval.
  lemma FreshWindow(e: Entry, limit: nat, window: int, times: seq<Time>)
    requires limit >= 1 && InOrder(times) && times != [] && times[0] > 0 && (e.resetAt == 0 || times[0] >= e.resetAt)
    requires times[|times| - 1] < times[0] + window
    ensures PassedAlone(e, limit, window, times) == Min(|times|, limit)
  {
    var e' := Counted(e, times[0], window);
    WithinWindow(e', limit, window, times[1..]);
  }

  lemma {:induction false} RunsAreReachable(clients: map<Key, Entry>, window: int, reqs: seq<Request>, key: Key)
    requires forall k | k in clients :: clients[k].requests >= 1
    ensures Reachable(Lookup(Clients(clients, window, reqs), key))
    decreases reqs
  {
    if reqs != [] {
      var e := Counted(Lookup(clients, reqs[0].key), reqs[0].at, window);
      RunsAreReachable(clients[reqs[0].key := e], window, reqs[1..], key);
    }
  }

  // The times of one client's requests in a stretch of a run: in order, and from the first to the last
  // no longer than `length`.
  ghost predicate Stretch(times: seq<Time>, length: int) {
    InOrder(times) && times != [] && times[0] > 0 && times[|times| - 1] <= times[0] + length
  }

  // Main result: with any traffic before it and other clients' requests in between, a stretch shorter than
  // a window lets less than 2 * limit requests of a client pass, and one of exactly a window 2 * limit.
  lemma TwoWindowsAtMostInRun(limit: nat, window: int, before: seq<Request>, reqs: seq<Request>, key: Key)
    requires limit >= 1 && window > 0 && Stretch(TimesOf(reqs, key), window)
    ensures Passed(Clients(map[], window, before), limit, window, reqs, key) <= 2 * limit
    ensures Stretch(TimesOf(reqs, key), window - 1)
        ==> Passed(Clients(map[], window, before), limit, window, reqs, key) <= 2 * limit - 1
  {
    var clients, times := Clients(map[], window, before), TimesOf(reqs, key);
    RunsAreReachable(map[], window, before, key);
    ClientsAreIndependent(clients, limit, window, reqs, key);
    TwoWindowsAtMostClosed(Lookup(clients, key), limit, window, times);
    if Stretch(times, window - 1) {
      TwoWindowsAtMost(Lookup(clients, key), limit, window, times);
    }
  }

  // ---------- both bounds are sharp ----------

  // n requests of one client at the same time.
  function Burst(key: Key, at: Time, n: nat): seq<Request> {
    seq(n, i => Request(key, at))
  }

  lemma {:induction false} BurstTimes(key: Key, at: Time, n: nat, more: seq<Request>)
    ensures TimesOf(Burst(key, at, n) + more, key) == seq(n, i => at) + TimesOf(more, key)
    decreases n
  {
    if n == 0 {
      assert Burst(key, at, 0) + more == more;
    } else {
      assert (Burst(key, at, n) + more)[1..] == Burst(key, at, n - 1) + more;
      BurstTimes(key, at, n - 1, more);
      assert seq(n, i => at) == [at] + seq(n - 1, i => at);
    }
  }

  // n requests shortly before the window of `e` ends and m requests at its end.
  lemma AcrossTheEnd(e: Entry, limit: nat, window: int, at: Time, n: nat, m: nat, times: seq<Time>)
    requires limit >= 1 && window > 0 && at > 0 && 0 < m && e.resetAt > 0 && at < e.resetAt
    requires times == seq(n, i => at) + seq(m, i => e.resetAt)
    ensures PassedAlone(e, limit, window, times) == AtLeastZero(Min(n, limit - e.requests)) + Min(m, limit)
  {
    SplitPassed(e, limit, window, times, n);
    assert times[..n] == seq(n, i => at) && times[n..] == seq(m, i => e.resetAt);
    WithinWindow(e, limit, window, times[..n]);
    FreshWindow(Entry(e.requests + n, e.resetAt), limit, window, times[n..]);
  }

  // Half-open: a first request opens a window; the rest of the limit is used at its last moment and a whole
  // limit one moment later.
  lemma HalfOpenBoundIsSharp(key: Key, limit: nat, window: int)
    requires limit >= 1 && window > 1
    ensures var before, reqs := [Request(key, 1)], Burst(key, window, limit - 1) + Burst(key, window + 1, limit);
            && Stretch(TimesOf(reqs, key), window - 1)
            && Passed(Clients(map[], window, before), limit, window, reqs, key) == 2 * limit - 1
  {
    var clients: map<Key, Entry> := map[];
    var before, reqs := [Request(key, 1)], Burst(key, window, limit - 1) + Burst(key, window + 1, limit);
    var e := Entry(1, window + 1);
    assert Counted(Lookup(clients, key), 1, window) == e;
    assert Clients(clients, window, before) == Clients(clients[key := e], window, before[1..]) == clients[key := e];
    BurstTimes(key, window + 1, limit, []);
    assert Burst(key, window + 1, limit) + [] == Burst(key, window + 1, limit);
    BurstTimes(key, window, limit - 1, Burst(key, window + 1, limit));
    var times := seq(limit - 1, i => window) + seq(limit, i => window + 1);
    assert TimesOf(reqs, key) == times;
    AcrossTheEnd(e, limit, window, window, limit - 1, limit, times);
    ClientsAreIndependent(Clients(clients, window, before), limit, window, reqs, key);
  }

  // Closed: a whole limit opens a window and another one opens the next.
  lemma ClosedBoundIsSharp(key: Key, limit: nat, window: int)
    requires limit >= 1 && window > 0
    ensures var reqs := Burst(key, 1, limit) + Burst(key, window + 1, limit);
            Stretch(TimesOf(reqs, key), window) && Passed(map[], limit, window, reqs, key) == 2 * limit
  {
    var reqs := Burst(key, 1, limit) + Burst(key, window + 1, limit);
    BurstTimes(key, window + 1, limit, []);
    assert Burst(key, window + 1, limit) + [] == Burst(key, window + 1, limit);
    BurstTimes(key, 1, limit, Burst(key, window + 1, limit));
    var times := seq(limit, i => 1) + seq(limit, i => window + 1);
    assert TimesOf(reqs, key) == times;
    assert times[1..] == seq(limit - 1, i => 1) + seq(limit, i => window + 1);
    AcrossTheEnd(Entry(1, window + 1), limit, window, 1, limit - 1, limit, times[1..]);
    ClientsAreIndependent(map[], limit, window, reqs, key);
  }
}
