/** The resend accounting of backend/routers/auth.py: one limiter key counts resends,
    and every answer tells the user how many are left. */
module OtpChallenge {
  import opened Wrappers
  import opened RateLimit

  const RESEND_LIMIT := 5
  const START_LIMIT := 8
  const RESEND_WINDOW_SECONDS := 3600

  /** The limiter key of `scope` for one client address and one account. */
  function RateKey(scope: string, ip: string, suffix: string): Key {
    "rate:" + scope + ":" + ip + if suffix == "" then "" else ":" + suffix
  }

  function SignupResendKey(ip: string, email: string): Key {
    RateKey("signup-otp-resend", ip, email)
  }

  function SignupStartKey(ip: string, email: string): Key {
    RateKey("signup-otp-start", ip, email)
  }

  function LoginResendKey(ip: string, email: string): Key {
    RateKey("login-otp-resend", ip, email)
  }

  function Resend(k: Key, now: int): Request {
    Request(k, RESEND_LIMIT, RESEND_WINDOW_SECONDS, now)
  }

  function Remaining(used: int): int {
    Max(RESEND_LIMIT - used, 0)
  }

  /** The most further resends on `k` that any future can see admitted before the counter
      that is live now (or, if none is, the one the next resend starts) runs out. */
  ghost predicate IsExactRemaining(s: Store, k: Key, now: int, remaining: int) {
    forall rs: seq<Request> :: ResendsOfOneWindow(s, k, now, rs) ==>
      Admissions(s, rs, k, now, WindowEnd(s, k, now, rs)) == Min(Requests(rs, k), remaining)
  }

  ghost function WindowStart(s: Store, k: Key, now: int, rs: seq<Request>): int {
    if Live(s, k, now) || rs == [] then now else rs[0].now
  }

  ghost function WindowEnd(s: Store, k: Key, now: int, rs: seq<Request>): int {
    if Live(s, k, now) then s[k].expires.GetOr(now)
    else FirstGone(WindowStart(s, k, now, rs), RESEND_WINDOW_SECONDS)
  }

  /** A future from `now` on: resends on `k` inside one window, anything on other keys.
      When no counter lives, the future starts with the resend that opens the window. */
  ghost predicate ResendsOfOneWindow(s: Store, k: Key, now: int, rs: seq<Request>) {
    && OneRule(rs, k, RESEND_LIMIT, RESEND_WINDOW_SECONDS)
    && (Live(s, k, now) || rs == [] || (rs[0].key == k && now <= rs[0].now))
    && forall i :: 0 <= i < |rs| && rs[i].key == k
         ==> WindowStart(s, k, now, rs) <= rs[i].now < WindowEnd(s, k, now, rs)
  }

  /** No two different figures can both be exact. */
  lemma ExactRemainingIsUnique(s: Store, k: Key, now: int, a: nat, b: nat)
    requires Timed(s) && IsExactRemaining(s, k, now, a) && IsExactRemaining(s, k, now, b)
    ensures a == b
  {
    var rs := Burst(k, RESEND_LIMIT, RESEND_WINDOW_SECONDS, now, a + b + 1);
    BurstCount(k, RESEND_LIMIT, RESEND_WINDOW_SECONDS, now, a + b + 1);
    assert ResendsOfOneWindow(s, k, now, rs);
  }

  lemma RemainingIsExact(s: Store, k: Key, now: int)
    requires Timed(s)
    ensures IsExactRemaining(s, k, now, Remaining(Count(s, k, now)))
  {
    forall rs: seq<Request> | ResendsOfOneWindow(s, k, now, rs)
      ensures Admissions(s, rs, k, now, WindowEnd(s, k, now, rs))
              == Min(Requests(rs, k), Remaining(Count(s, k, now)))
    {
      var end := WindowEnd(s, k, now, rs);
      if Live(s, k, now) {
        LifetimeIsExact(s, rs, k, RESEND_LIMIT, RESEND_WINDOW_SECONDS, now, end);
      } else if rs != [] {
        LifetimeIsExact(Hit(s, rs[0]), rs[1..], k, RESEND_LIMIT, RESEND_WINDOW_SECONDS, now, end);
      }
    }
  }

  /** Starting over and resending never share a key, whoever the callers are. */
  lemma ScopesDoNotCollide(ip: string, email: string, ip': string, email': string)
    ensures SignupStartKey(ip, email) != SignupResendKey(ip', email')
  {
    assert SignupStartKey(ip, email)[16] == 's' && SignupResendKey(ip', email')[16] == 'r';
  }

  /** What follows the scope in a key. */
  function Tail(ip: string, suffix: string): string {
    ip + if suffix == "" then "" else ":" + suffix
  }

  lemma KeyIsTail(scope: string, ip: string, suffix: string, ip': string, suffix': string)
    ensures RateKey(scope, ip, suffix) == RateKey(scope, ip', suffix') <==> Tail(ip, suffix) == Tail(ip', suffix')
  {
    var head := "rate:" + scope + ":";
    assert RateKey(scope, ip, suffix) == head + Tail(ip, suffix) && RateKey(scope, ip', suffix') == head + Tail(ip', suffix');
    assert (head + Tail(ip, suffix))[|head|..] == Tail(ip, suffix);
    assert (head + Tail(ip', suffix'))[|head|..] == Tail(ip', suffix');
  }

  /** A colon that can be read as the one between address and account. */
  predicate Ambiguous(ip: string, suffix: string) {
    ':' in ip || exists i :: 0 <= i < |suffix| - 1 && suffix[i] == ':'
  }

  /** In a scope that always names an account, another address and account share the key
      exactly when the address has a colon, or the account has one before its last character. */
  lemma KeyIsSharedIff(scope: string, ip: string, suffix: string)
    requires suffix != ""
    ensures (exists ip', suffix' :: suffix' != "" && (ip', suffix') != (ip, suffix) && RateKey(scope, ip', suffix') == RateKey(scope, ip, suffix))
            <==> Ambiguous(ip, suffix)
  {
    var t := Tail(ip, suffix);
    if Ambiguous(ip, suffix) {
      var cut: nat;
      if ':' in ip {
        cut :| 0 <= cut < |ip| && ip[cut] == ':';
      } else {
        var i :| 0 <= i < |suffix| - 1 && suffix[i] == ':';
        cut := |ip| + 1 + i;
      }
      var (ip', suffix') := (t[..cut], t[cut + 1..]);
      assert t == ip' + ":" + suffix';
      KeyIsTail(scope, ip', suffix', ip, suffix);
      assert (ip', suffix') != (ip, suffix);
    } else {
      forall ip', suffix' | suffix' != "" && RateKey(scope, ip', suffix') == RateKey(scope, ip, suffix)
        ensures (ip', suffix') == (ip, suffix)
      {
        KeyIsTail(scope, ip', suffix', ip, suffix);
        OneReading(ip, suffix, ip', suffix');
      }
    }
  }

  lemma OneReading(ip: string, suffix: string, ip': string, suffix': string)
    requires suffix != "" && suffix' != "" && !Ambiguous(ip, suffix) && Tail(ip, suffix) == Tail(ip', suffix')
    ensures ip' == ip && suffix' == suffix
  {
    var (t, t') := (Tail(ip, suffix), Tail(ip', suffix'));
    assert t'[|ip'|] == ':' && t[|ip|] == ':';
    assert |ip'| == |ip|;
    assert ip' == t'[..|ip'|] && ip == t[..|ip|];
    assert suffix' == t'[|ip'| + 1..] && suffix == t[|ip| + 1..];
  }

  /** register_otp_challenge, from the limiter calls to the figure it reports. */
  method RegisterChallenge(redis: Redis, ip: string, email: string, resend: bool, now: int)
    returns (r: Result<int, int>)
    requires Timed(redis.store)
    modifies redis
    ensures Timed(redis.store)
    ensures var k := SignupResendKey(ip, email);
            && (r.Ok? ==> IsExactRemaining(redis.store, k, now, r.value))
            && (resend ==> redis.store == Hit(old(redis.store), Resend(k, now))
                           && r.Ok? == Decide(old(redis.store), Resend(k, now)).Admitted?)
            && (!resend ==> var start := Request(SignupStartKey(ip, email), START_LIMIT, RESEND_WINDOW_SECONDS, now);
                            && redis.store == Hit(old(redis.store), start)
                            && r.Ok? == Decide(old(redis.store), start).Admitted?
                            && Count(redis.store, k, now) == Count(old(redis.store), k, now))
  {
    var k := SignupResendKey(ip, email);
    ScopesDoNotCollide(ip, email, ip, email);
    var used: int;
    if resend {
      var v := redis.CheckRateLimit(Resend(k, now));
      if v.Refused? {
        return Err(v.retryAfter);
      }
      used := v.count;
    } else {
      var v := redis.CheckRateLimit(Request(SignupStartKey(ip, email), START_LIMIT, RESEND_WINDOW_SECONDS, now));
      if v.Refused? {
        return Err(v.retryAfter);
      }
      used := redis.CurrentRateCount(k, now);
    }
    RemainingIsExact(redis.store, k, now);
    return Ok(Max(RESEND_LIMIT - used, 0));
  }

  /** login_otp_challenge: an account without an address is never counted. */
  method LoginChallenge(redis: Redis, ip: string, email: string, resend: bool, now: int)
    returns (r: Result<int, int>)
    requires Timed(redis.store)
    modifies redis
    ensures Timed(redis.store)
    ensures var k := LoginResendKey(ip, email);
            && (email == "" ==> r == Ok(RESEND_LIMIT))
            && (email != "" && r.Ok? ==> IsExactRemaining(redis.store, k, now, r.value))
            && (email != "" && resend ==> redis.store == Hit(old(redis.store), Resend(k, now))
                                          && r.Ok? == Decide(old(redis.store), Resend(k, now)).Admitted?)
            && (email == "" || !resend ==> r.Ok? && redis.store == old(redis.store))
  {
    var remaining := RESEND_LIMIT;
    var k := LoginResendKey(ip, email);
    if resend && email != "" {
      var v := redis.CheckRateLimit(Resend(k, now));
      if v.Refused? {
        return Err(v.retryAfter);
      }
      remaining := Max(RESEND_LIMIT - v.count, 0);
    } else if email != "" {
      var used := redis.CurrentRateCount(k, now);
      remaining := Max(RESEND_LIMIT - used, 0);
    }
    RemainingIsExact(redis.store, k, now);
    return Ok(remaining);
  }
}
