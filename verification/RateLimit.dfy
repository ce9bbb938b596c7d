/** backend/core/rate_limit.py: a Redis counter per key, bumped by INCR and given
    its lifetime by EXPIRE NX. Instants are milliseconds, as Redis keeps them. */
module RateLimit {
  import opened Wrappers

  type Key = string

  /** A counter; `expires` is the first instant at which it is gone. */
  datatype Entry = Entry(value: int, expires: Option<int>)

  type Store = map<Key, Entry>

  /** One call of check_rate_limit at instant `now`. */
  datatype Request = Request(key: Key, limit: int, windowSeconds: int, now: int)

  datatype Verdict = Admitted(count: int) | Refused(retryAfter: int)

  predicate Live(s: Store, k: Key, now: int) {
    k in s && (s[k].expires.Some? ==> now < s[k].expires.value)
  }

  /** GET: 0 for a missing or expired key. */
  function Count(s: Store, k: Key, now: int): int {
    if Live(s, k, now) then s[k].value else 0
  }

  /** A key given so many seconds at `now` still answers at its deadline, and is gone after. */
  function FirstGone(now: int, seconds: int): int {
    now + 1000 * seconds + 1
  }

  /** The milliseconds to the deadline. */
  function LifeLeft(e: Entry, now: int): int {
    e.expires.GetOr(now + 1) - 1 - now
  }

  /** The store after INCR and EXPIRE NX in one pipeline. */
  function Hit(s: Store, r: Request): Store {
    var end := Some(FirstGone(r.now, r.windowSeconds));
    if !Live(s, r.key, r.now) then s[r.key := Entry(1, end)]
    else if s[r.key].expires.None? then s[r.key := Entry(s[r.key].value + 1, end)]
    else s[r.key := s[r.key].(value := s[r.key].value + 1)]
  }

  /** The TTL reply for `life` milliseconds left: Redis rounds to the nearest second. */
  function TtlSeconds(life: int): int {
    (life + 500) / 1000
  }

  function Decide(s: Store, r: Request): Verdict {
    var after := Hit(s, r)[r.key];
    if after.value <= r.limit then Admitted(after.value)
    else Refused(Max(TtlSeconds(LifeLeft(after, r.now)), 1))
  }

  /** The Redis commands the limiter issues, on a store the server updates in place. */
  class Redis {
    var store: Store

    constructor ()
      ensures store == map[]
    {
      store := map[];
    }

    method Incr(k: Key, now: int) returns (value: int)
      modifies this
      ensures value == Count(old(store), k, now) + 1
      ensures store == old(store)[k := Entry(value, if Live(old(store), k, now) then old(store)[k].expires else None)]
    {
      if !Live(store, k, now) {
        store := store[k := Entry(0, None)];
      }
      value := store[k].value + 1;
      store := store[k := store[k].(value := value)];
    }

    method ExpireNx(k: Key, seconds: int, now: int)
      requires k in store
      modifies this
      ensures store == if old(store)[k].expires.Some? then old(store)
                       else old(store)[k := Entry(old(store)[k].value, Some(FirstGone(now, seconds)))]
    {
      if store[k].expires.None? {
        store := store[k := store[k].(expires := Some(FirstGone(now, seconds)))];
      }
    }

    method CheckRateLimit(r: Request) returns (v: Verdict)
      modifies this
      ensures store == Hit(old(store), r)
      ensures v == Decide(old(store), r)
    {
      var count := Incr(r.key, r.now);
      ExpireNx(r.key, r.windowSeconds, r.now);
      if count > r.limit {
        var ttl := TtlSeconds(LifeLeft(store[r.key], r.now));
        return Refused(Max(ttl, 1));
      }
      return Admitted(count);
    }

    method CurrentRateCount(k: Key, now: int) returns (count: int)
      ensures count == Count(store, k, now)
    {
      count := if Live(store, k, now) then store[k].value else 0;
    }
  }

  // ---- runs -------------------------------------------------------------

  function Run(s: Store, rs: seq<Request>): Store
    decreases |rs|
  {
    if rs == [] then s else Run(Hit(s, rs[0]), rs[1..])
  }

  /** How many requests on `k` the run admits at instants in [lo, hi). */
  function Admissions(s: Store, rs: seq<Request>, k: Key, lo: int, hi: int): nat
    decreases |rs|
  {
    if rs == [] then 0
    else
      var r := rs[0];
      (if r.key == k && lo <= r.now < hi && Decide(s, r).Admitted? then 1 else 0)
      + Admissions(Hit(s, r), rs[1..], k, lo, hi)
  }

  function Requests(rs: seq<Request>, k: Key): nat {
    if rs == [] then 0 else (if rs[0].key == k then 1 else 0) + Requests(rs[1..], k)
  }

  ghost predicate Ordered(rs: seq<Request>) {
    forall i, j :: 0 <= i < j < |rs| ==> rs[i].now <= rs[j].now
  }

  /** Every call on `k` comes from one call site: one limit, one window. */
  ghost predicate OneRule(rs: seq<Request>, k: Key, limit: int, window: int) {
    forall i :: 0 <= i < |rs| && rs[i].key == k ==> rs[i].limit == limit && rs[i].windowSeconds == window
  }

  /** What every store the limiter builds satisfies: counters start at 1 and always expire. */
  ghost predicate Timed(s: Store) {
    forall k :: k in s ==> s[k].value >= 1 && s[k].expires.Some?
  }

  lemma {:induction false} RunKeepsTimed(s: Store, rs: seq<Request>)
    requires Timed(s)
    ensures Timed(Run(s, rs))
    decreases |rs|
  {
    if rs != [] {
      RunKeepsTimed(Hit(s, rs[0]), rs[1..]);
    }
  }

  lemma {:induction false} RunAppend(s: Store, a: seq<Request>, b: seq<Request>, k: Key, lo: int, hi: int)
    ensures Run(s, a + b) == Run(Run(s, a), b)
    ensures Admissions(s, a + b, k, lo, hi) == Admissions(s, a, k, lo, hi) + Admissions(Run(s, a), b, k, lo, hi)
    decreases |a|
  {
    if a == [] {
      assert a + b == b;
    } else {
      assert (a + b)[1..] == a[1..] + b;
      RunAppend(Hit(s, a[0]), a[1..], b, k, lo, hi);
    }
  }

  lemma {:induction false} NothingAfter(s: Store, rs: seq<Request>, k: Key, lo: int, hi: int)
    requires forall i :: 0 <= i < |rs| ==> hi <= rs[i].now
    ensures Admissions(s, rs, k, lo, hi) == 0
    decreases |rs|
  {
    if rs != [] {
      NothingAfter(Hit(s, rs[0]), rs[1..], k, lo, hi);
    }
  }

  /** One counter lifetime is exact: while the counter lives, the first `limit - value`
      further requests pass, all later ones are refused, and no request, refused or
      not, moves the end of the lifetime. Requests on other keys are invisible. */
  lemma {:induction false} LifetimeIsExact(s: Store, rs: seq<Request>, k: Key, limit: int, window: int, lo: int, hi: int)
    requires k in s && s[k].expires.Some? && hi <= s[k].expires.value
    requires OneRule(rs, k, limit, window)
    requires forall i :: 0 <= i < |rs| && rs[i].key == k ==> lo <= rs[i].now < hi
    ensures k in Run(s, rs) && Run(s, rs)[k] == Entry(s[k].value + Requests(rs, k), s[k].expires)
    ensures Admissions(s, rs, k, lo, hi) == Min(Requests(rs, k), Max(0, limit - s[k].value))
    decreases |rs|
  {
    if rs != [] {
      LifetimeIsExact(Hit(s, rs[0]), rs[1..], k, limit, window, lo, hi);
    }
  }

  /** A key with no live counter: its next lifetime admits exactly min(requests, limit). */
  lemma NewLifetimeIsExact(s: Store, first: Request, rs: seq<Request>, k: Key)
    requires first.key == k && !Live(s, k, first.now)
    requires OneRule(rs, k, first.limit, first.windowSeconds)
    requires first.windowSeconds > 0
    requires forall i :: 0 <= i < |rs| && rs[i].key == k
                         ==> first.now <= rs[i].now < FirstGone(first.now, first.windowSeconds)
    ensures var end := FirstGone(first.now, first.windowSeconds);
            Admissions(s, [first] + rs, k, first.now, end) == Min(Requests([first] + rs, k), Max(0, first.limit))
  {
    assert ([first] + rs)[1..] == rs;
    assert Requests([first] + rs, k) == 1 + Requests(rs, k);
    LifetimeIsExact(Hit(s, first), rs, k, first.limit, first.windowSeconds, first.now,
                    FirstGone(first.now, first.windowSeconds));
  }

  lemma {:induction false} WithinLifetime(s: Store, rs: seq<Request>, k: Key, limit: int, window: int, lo: int, hi: int)
    requires Timed(s) && Ordered(rs) && OneRule(rs, k, limit, window)
    requires k in s && hi <= s[k].expires.value
    ensures Admissions(s, rs, k, lo, hi) <= Max(0, limit - s[k].value)
    decreases |rs|
  {
    if rs != [] {
      if rs[0].now >= hi {
        NothingAfter(s, rs, k, lo, hi);
      } else {
        WithinLifetime(Hit(s, rs[0]), rs[1..], k, limit, window, lo, hi);
      }
    }
  }

  lemma {:induction false} AtMostTwoLifetimes(
    s: Store, rs: seq<Request>, k: Key, limit: int, window: int, lo: int, hi: int, t: int)
    requires Timed(s) && Ordered(rs) && OneRule(rs, k, limit, window)
    requires forall i :: 0 <= i < |rs| ==> t <= rs[i].now
    requires hi <= t + 1000 * window + 1
    ensures Admissions(s, rs, k, lo, hi)
            <= Max(0, limit) + if Live(s, k, t) then Max(0, limit - s[k].value) else 0
    decreases |rs|
  {
    if rs != [] {
      var r, s' := rs[0], Hit(s, rs[0]);
      if r.now >= hi {
        NothingAfter(s, rs, k, lo, hi);
      } else if r.key == k && !Live(s, k, r.now) {
        WithinLifetime(s', rs[1..], k, limit, window, lo, hi);
      } else {
        AtMostTwoLifetimes(s', rs[1..], k, limit, window, lo, hi, r.now);
      }
    }
  }

  /** The limiter's guarantee. In every run, whatever else happens on other keys, any
      interval no longer than the window, both ends included, wherever it starts, holds at most
      2 * limit - 1 admissions: the counter's first hit lies outside any interval
      that still sees the end of its lifetime. */
  lemma {:induction false} RateBound(s: Store, rs: seq<Request>, k: Key, limit: int, window: int, lo: int, hi: int)
    requires Timed(s) && Ordered(rs) && OneRule(rs, k, limit, window)
    requires hi <= lo + 1000 * window + 1
    ensures Admissions(s, rs, k, lo, hi) <= Max(0, 2 * limit - 1)
    decreases |rs|
  {
    if rs != [] {
      var r, s' := rs[0], Hit(s, rs[0]);
      if r.now < lo {
        RateBound(s', rs[1..], k, limit, window, lo, hi);
      } else {
        AtMostTwoLifetimes(s, rs, k, limit, window, lo, hi, r.now);
      }
    }
  }

  /** `n` calls at one instant. */
  function Burst(k: Key, limit: int, window: int, now: int, n: nat): seq<Request> {
    seq(n, _ => Request(k, limit, window, now))
  }

  lemma {:induction false} BurstCount(k: Key, limit: int, window: int, now: int, n: nat)
    ensures Requests(Burst(k, limit, window, now, n), k) == n
  {
    if n > 0 {
      BurstCount(k, limit, window, now, n - 1);
      assert Burst(k, limit, window, now, n)[1..] == Burst(k, limit, window, now, n - 1);
    }
  }

  /** One hit, `limit - 1` more just before the counter dies, `limit` as it is reborn. */
  function EdgeRun(k: Key, limit: nat, window: nat): seq<Request>
    requires limit > 0
  {
    [Request(k, limit, window, 0)]
    + (Burst(k, limit, window, 1000 * window, limit - 1) + Burst(k, limit, window, 1000 * window + 1, limit))
  }

  lemma EdgeRunIsLegal(k: Key, limit: nat, window: nat)
    requires limit > 0 && window > 0
    ensures Ordered(EdgeRun(k, limit, window)) && OneRule(EdgeRun(k, limit, window), k, limit, window)
  {
    var rs := EdgeRun(k, limit, window);
    assert forall i :: 0 <= i < |rs| ==>
      rs[i] == Request(k, limit, window, if i == 0 then 0 else if i < limit then 1000 * window else 1000 * window + 1);
  }

  lemma {:induction false} OnlyInWindow(s: Store, rs: seq<Request>, k: Key, lo: int, hi: int, hi': int)
    requires hi <= hi' && forall i :: 0 <= i < |rs| ==> rs[i].now < hi
    ensures Admissions(s, rs, k, lo, hi') == Admissions(s, rs, k, lo, hi)
    decreases |rs|
  {
    if rs != [] {
      OnlyInWindow(Hit(s, rs[0]), rs[1..], k, lo, hi, hi');
    }
  }

  /** At its deadline a counter holding 1 still admits limit - 1 calls. */
  lemma AtTheDeadline(s: Store, k: Key, limit: nat, window: nat, hi: int)
    requires limit > 0 && k in s && s[k] == Entry(1, Some(FirstGone(0, window))) && hi > 1000 * window
    ensures var before := Burst(k, limit, window, 1000 * window, limit - 1);
            && Admissions(s, before, k, 1000 * window, hi) == limit - 1
            && !Live(Run(s, before), k, 1000 * window + 1)
  {
    var before := Burst(k, limit, window, 1000 * window, limit - 1);
    BurstCount(k, limit, window, 1000 * window, limit - 1);
    LifetimeIsExact(s, before, k, limit, window, 1000 * window, 1000 * window + 1);
    OnlyInWindow(s, before, k, 1000 * window, 1000 * window + 1, hi);
  }

  /** A burst of `limit` calls on a dead counter is admitted whole. */
  lemma FreshBurst(s: Store, k: Key, limit: nat, window: nat, now: int, lo: int, hi: int)
    requires limit > 0 && window > 0 && !Live(s, k, now) && lo <= now < hi <= now + 1000 * window
    ensures Admissions(s, Burst(k, limit, window, now, limit), k, lo, hi) == limit
  {
    var first, rest := Request(k, limit, window, now), Burst(k, limit, window, now, limit - 1);
    assert Burst(k, limit, window, now, limit) == [first] + rest;
    assert ([first] + rest)[1..] == rest;
    BurstCount(k, limit, window, now, limit - 1);
    LifetimeIsExact(Hit(s, first), rest, k, limit, window, lo, hi);
  }

  /** RateBound cannot be improved, for any limit and any window. */
  lemma RateBoundIsTight(k: Key, limit: nat, window: nat)
    requires limit > 0 && window > 0
    ensures Ordered(EdgeRun(k, limit, window)) && OneRule(EdgeRun(k, limit, window), k, limit, window)
    ensures Admissions(map[], EdgeRun(k, limit, window), k, 1000 * window, 2000 * window) == 2 * limit - 1
  {
    EdgeRunIsLegal(k, limit, window);
    var edge := 1000 * window;
    var before, after := Burst(k, limit, window, edge, limit - 1), Burst(k, limit, window, edge + 1, limit);
    var s := Hit(map[], Request(k, limit, window, 0));
    assert EdgeRun(k, limit, window)[1..] == before + after;
    RunAppend(s, before, after, k, edge, 2 * edge);
    AtTheDeadline(s, k, limit, window, 2 * edge);
    FreshBurst(Run(s, before), k, limit, window, edge + 1, edge, 2 * edge);
  }

  /** What "sliding window" would mean for one key: never more than `limit` admissions in
      any interval of one window, over every run from an empty store. */
  ghost predicate IsSlidingWindow(k: Key, limit: nat, window: nat) {
    forall rs: seq<Request>, lo: int, hi: int ::
      Ordered(rs) && OneRule(rs, k, limit, window) && hi == lo + 1000 * window
      ==> Admissions(map[], rs, k, lo, hi) <= limit
  }

  /** The module calls itself a sliding window; it is one exactly for limits 0 and 1. */
  lemma SlidingWindowOnlyUpToOne(k: Key, limit: nat, window: nat)
    requires window > 0
    ensures IsSlidingWindow(k, limit, window) <==> limit <= 1
  {
    if limit <= 1 {
      forall rs: seq<Request>, lo: int, hi: int
        | Ordered(rs) && OneRule(rs, k, limit, window) && hi == lo + 1000 * window
        ensures Admissions(map[], rs, k, lo, hi) <= limit
      {
        RateBound(map[], rs, k, limit, window, lo, hi);
      }
    } else {
      RateBoundIsTight(k, limit, window);
    }
  }

  /** A refused caller who is alone on its key and comes back after Retry-After seconds is
      admitted exactly when TTL rounded the remaining life up, or to less than a second: it is
      under a second, or at least half a second past a whole one. */
  lemma RetryAfterSuffices(s: Store, r: Request)
    requires Timed(s) && r.limit >= 1 && r.windowSeconds > 0
    requires Decide(s, r).Refused?
    ensures var life := LifeLeft(s[r.key], r.now);
            var again := r.(now := r.now + 1000 * Decide(s, r).retryAfter);
            Decide(Hit(s, r), again).Admitted? <==> life < 1000 || life % 1000 >= 500
  {
    var life := LifeLeft(s[r.key], r.now);
    assert life == 1000 * (life / 1000) + life % 1000;
    assert TtlSeconds(life) == life / 1000 + if life % 1000 >= 500 then 1 else 0;
  }

  /** Retry-After is a whole number of seconds, at least one, and otherwise within half a second
      of the life the counter has left: nobody is told to wait for longer than that. */
  lemma RetryAfterIsNear(s: Store, r: Request)
    requires Timed(s) && r.limit >= 1 && r.windowSeconds > 0
    requires Decide(s, r).Refused?
    ensures var (wait, life) := (1000 * Decide(s, r).retryAfter, LifeLeft(s[r.key], r.now));
            && wait >= 1000 && life - 500 < wait && (wait == 1000 || wait <= life + 500)
  {
    var life := LifeLeft(s[r.key], r.now);
    assert life + 500 == 1000 * TtlSeconds(life) + (life + 500) % 1000;
  }

  /** One call in three seconds: a second one 1.4 s before the end is told to wait one second,
      does, and is refused again. */
  lemma RetryAfterCanFallShort(k: Key)
    ensures var (first, second) := (Request(k, 1, 3, 0), Request(k, 1, 3, 1600));
            var s := Hit(Hit(map[], first), second);
            && Decide(Hit(map[], first), second) == Refused(1)
            && Decide(s, second.(now := 2600)).Refused?
  {
    assert TtlSeconds(1400) == 1;
  }
}
