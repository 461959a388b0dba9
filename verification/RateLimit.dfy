/** The retrying transport: how long it waits, how often it tries, and what becomes of the bodies of
    the responses it does not return. Durations are 64-bit nanosecond counts and wrap; the jitter's
    floating-point arithmetic is exact here, except that converting a number that does not fit 64
    bits gives an arbitrary result. */
module RateLimit {
  import opened Prelude

  const TWO_63 := 0x8000_0000_0000_0000
  const TWO_64 := 0x1_0000_0000_0000_0000
  const SECOND := 1_000_000_000
  const MILLISECOND := 1_000_000

  /** The value a 64-bit signed integer keeps of `x`. */
  function Wrap64(x: int): (r: int)
    ensures -TWO_63 <= r < TWO_63 && (r - x) % TWO_64 == 0
    ensures -TWO_63 <= x < TWO_63 ==> r == x
  {
    (x + TWO_63) % TWO_64 - TWO_63
  }

  function Pow2(n: nat): (r: nat)
    ensures r > 0
  {
    if n == 0 then 1 else 2 * Pow2(n - 1)
  }

  function Min(a: int, b: int): int {
    if a <= b then a else b
  }

  // ---------------------------------------------------------------------------
  // Delays
  // ---------------------------------------------------------------------------

  datatype Config = Config(maxRetries: nat, baseBackoff: int, maxBackoff: int, jitterRatio: real) {
    ghost predicate Valid() {
      0 < baseBackoff < TWO_63 && 0 < maxBackoff < TWO_63 && jitterRatio > 0.0
    }
  }

  /** The values the constructor puts in place of the ones it does not accept. */
  function WithDefaults(maxRetries: int, baseBackoff: int, maxBackoff: int, jitterRatio: real): (c: Config)
    requires -TWO_63 <= baseBackoff < TWO_63 && -TWO_63 <= maxBackoff < TWO_63
    ensures c.Valid()
    ensures c.maxRetries == 0 <==> maxRetries <= 0
    ensures maxRetries >= 0 ==> c.maxRetries == maxRetries
    ensures baseBackoff > 0 ==> c.baseBackoff == baseBackoff
    ensures maxBackoff > 0 ==> c.maxBackoff == maxBackoff
    ensures jitterRatio > 0.0 ==> c.jitterRatio == jitterRatio
    ensures baseBackoff <= 0 ==> c.baseBackoff == 500_000_000
    ensures maxBackoff <= 0 ==> c.maxBackoff == 30_000_000_000
    ensures jitterRatio <= 0.0 ==> c.jitterRatio == 0.10
  {
    Config(if maxRetries < 0 then 0 else maxRetries,
           if baseBackoff <= 0 then 500 * MILLISECOND else baseBackoff,
           if maxBackoff <= 0 then 30 * SECOND else maxBackoff,
           if jitterRatio <= 0.0 then 0.10 else jitterRatio)
  }

  datatype RetryAfter = NoHeader | Seconds(n: int) | Date(at: int) | Malformed

  /** The response headers the transport looks at, numbers and dates already parsed. `reset` is
      RateLimit-Reset, `resetTime` RateLimit-ResetTime; times are nanoseconds since the epoch. */
  datatype Headers = Headers(retryAfter: RetryAfter, reset: Option<int>, resetTime: Option<int>,
                             date: Option<int>, rateLimit: Option<(int, int)>)

  /** time.Time.Sub saturates at the largest duration. */
  function Sub(t: int, now: int): (r: int)
    ensures t >= now ==> 0 <= r < TWO_63 && r <= t - now
  {
    var d := t - now;
    if d >= TWO_63 then TWO_63 - 1 else if d < -TWO_63 then -TWO_63 else d
  }

  /** Retry-After: a number of seconds, or a date (section 10.2.3 of RFC 9110). */
  function ParseRetryAfter(h: Headers, now: int): Option<int> {
    match h.retryAfter
    case Seconds(n) => if n >= 0 then Some(Wrap64(n * SECOND)) else None
    case Date(at) => if at > now then Some(Sub(at, now)) else Some(0)
    case NoHeader => None
    case Malformed => None
  }

  /** RateLimit-Reset in seconds, or in milliseconds when it is that large. */
  function ParseRateLimitReset(h: Headers): Option<int> {
    if h.reset.Some? && h.reset.value > 0 then
      Some(if h.reset.value > 100_000_000_000 then h.reset.value * MILLISECOND else h.reset.value * SECOND)
    else h.resetTime
  }

  function TooManyRequests(status: int): bool {
    status == 429
  }

  predicate RetryableStatus(status: int) {
    status == 429 || status == 500 || status == 502 || status == 503 || status == 504
  }

  /** What the base transport answers: a response or an error, never both. */
  datatype Reply = Response(status: int, headers: Headers) | Error(retryable: bool) {
    predicate Retryable() {
      if Response? then RetryableStatus(status) else retryable
    }
  }

  /** 1 << attempt in 64 bits: it turns negative at 63 and 0 from 64 on. */
  function Shifted(attempt: nat): int {
    Wrap64(Pow2(attempt))
  }

  function Exponential(c: Config, attempt: nat): int {
    var multiplier := if Shifted(attempt) > 1024 then 1024 else Shifted(attempt);
    var delay := Wrap64(c.baseBackoff * multiplier);
    if delay > c.maxBackoff then c.maxBackoff else delay
  }

  /** The delay before jitter: the server's wish when it states one, else the exponential one. */
  function BaseDelay(c: Config, attempt: nat, reply: Reply, now: int): int {
    if reply.Error? then Exponential(c, attempt)
    else
      var after := ParseRetryAfter(reply.headers, now);
      var reset := ParseRateLimitReset(reply.headers);
      if after.Some? then after.value
      else if TooManyRequests(reply.status) && reset.Some? && reset.value > now then Sub(reset.value, now)
      else Exponential(c, attempt)
  }

  /** What the server wishes for comes first: Retry-After in seconds or as a date, whatever the status;
      on 429 alone the reset of the limit, in seconds or milliseconds since the epoch by its size, and
      only if that is still to come. Without such a wish, and after an error, the delay is the
      exponential one. */
  lemma DelayFollowsTheServer(c: Config, attempt: nat, status: int, h: Headers, now: int)
    ensures BaseDelay(c, attempt, Error(true), now) == BaseDelay(c, attempt, Error(false), now) == Exponential(c, attempt)
    ensures var d := BaseDelay(c, attempt, Response(status, h), now);
            var reset := match h.reset
                         case Some(n) => if n <= 0 then h.resetTime
                                         else if n <= 100_000_000_000 then Some(n * 1_000_000_000)
                                         else Some(n * 1_000_000)
                         case None => h.resetTime;
            match h.retryAfter
            case Seconds(n) =>
              && (0 <= n <= 9_223_372_036 ==> d == n * 1_000_000_000)
              && (n < 0 ==> WithoutWish(c, attempt, status, reset, now, d))
            case Date(at) =>
              && (at <= now ==> d == 0)
              && (0 < at - now < TWO_63 ==> d == at - now)
              && (at - now >= TWO_63 ==> d == TWO_63 - 1)
            case _ => WithoutWish(c, attempt, status, reset, now, d)
  {
  }

  /** The delay `d` before jitter when there is no Retry-After to go by. */
  ghost predicate WithoutWish(c: Config, attempt: nat, status: int, reset: Option<int>, now: int, d: int) {
    && (status != 429 || reset.None? || reset.value <= now ==> d == Exponential(c, attempt))
    && (status == 429 && reset.Some? && 0 < reset.value - now < TWO_63 ==> d == reset.value - now)
    && (status == 429 && reset.Some? && reset.value - now >= TWO_63 ==> d == TWO_63 - 1)
  }

  function Truncated(x: real): int {
    if x >= 0.0 then x.Floor else -((-x).Floor)
  }

  /** Converting to a 64-bit integer truncates; `wild` is what comes out when it does not fit. */
  function ToInt64(x: real, wild: real -> int): int {
    if (-TWO_63) as real <= x < TWO_63 as real then Truncated(x) else wild(x)
  }

  function Scaled(x: real, factor: real): real {
    x * factor
  }

  /** applyJitter, with `draw` the random number. */
  function Jittered(c: Config, d: int, draw: real, wild: real -> int): int {
    if d <= 0 then 0
    else if c.jitterRatio <= 0.0 then d
    else
      var jitterRange := Scaled(d as real, c.jitterRatio);
      var offset := Scaled(jitterRange, draw * 2.0 - 1.0);
      var final := ToInt64(d as real + offset, wild);
      if final < 0 then 0 else if final > c.maxBackoff then c.maxBackoff else final
  }

  function Delay(c: Config, attempt: nat, reply: Reply, now: int, draw: real, wild: real -> int): int {
    Jittered(c, BaseDelay(c, attempt, reply, now), draw, wild)
  }

  /** Every backoff is between 0 and the maximum, whatever the server asks for and whatever is
      drawn. A configuration without jitter, which the constructor does not let through, would hand
      on the server's wish unbounded; the bound then holds exactly when the wish itself obeys it. */
  lemma BackoffIsBounded(c: Config, attempt: nat, reply: Reply, now: int, draw: real, wild: real -> int)
    requires c.maxBackoff > 0
    ensures var d := Delay(c, attempt, reply, now, draw, wild);
            (0 <= d <= c.maxBackoff) <==> (c.jitterRatio > 0.0 || BaseDelay(c, attempt, reply, now) <= c.maxBackoff)
  {
  }

  /** Jitter stays within its range around the delay, as far as the maximum allows. */
  lemma JitterIsProportional(c: Config, d: int, draw: real, wild: real -> int)
    requires c.Valid() && 0 < d && 0.0 <= draw < 1.0
    requires d as real + Scaled(d as real, c.jitterRatio) < TWO_63 as real
    ensures var j := Jittered(c, d, draw, wild);
            var jitterRange := Scaled(d as real, c.jitterRatio);
            && j as real <= d as real + jitterRange
            && (j < c.maxBackoff ==> j as real > d as real - jitterRange - 1.0)
  {
    hide Scaled, ToInt64;
    var r := Scaled(d as real, c.jitterRatio);
    ScaledIsPositive(d as real, c.jitterRatio);
    ScaledAround(r, draw * 2.0 - 1.0);
    ConversionOf(d as real + Scaled(r, draw * 2.0 - 1.0), wild);
  }

  lemma ScaledIsPositive(x: real, f: real)
    requires x > 0.0 && f > 0.0
    ensures Scaled(x, f) > 0.0
  {
  }

  lemma ScaledAround(r: real, u: real)
    requires r > 0.0 && -1.0 <= u <= 1.0
    ensures -r <= Scaled(r, u) <= r
  {
    NotNegative(r, 1.0 - u);
    NotNegative(r, 1.0 + u);
    assert r * (1.0 + u) == r + r * u;
  }

  lemma NotNegative(a: real, b: real)
    requires a >= 0.0 && b >= 0.0
    ensures a * b >= 0.0
  {
  }

  lemma ConversionOf(y: real, wild: real -> int)
    requires (-TWO_63) as real <= y < TWO_63 as real
    ensures y >= 0.0 ==> 0 <= ToInt64(y, wild) && y - 1.0 < ToInt64(y, wild) as real <= y
    ensures y < 0.0 ==> ToInt64(y, wild) <= 0
  {
    assert y - 1.0 < y.Floor as real <= y;
    assert -y - 1.0 < (-y).Floor as real <= -y;
  }

  lemma {:induction false} Pow2Grows(m: nat, n: nat)
    requires m <= n
    ensures Pow2(m) <= Pow2(n)
  {
    if m < n { Pow2Grows(m, n - 1); }
  }

  lemma {:induction false} Pow2Adds(m: nat, n: nat)
    ensures Pow2(m + n) == Pow2(m) * Pow2(n)
  {
    if m > 0 {
      Pow2Adds(m - 1, n);
      assert Pow2(m + n) == 2 * Pow2(m - 1 + n);
    }
  }

  lemma Powers()
    ensures Pow2(10) == 1024 && Pow2(62) == 0x4000_0000_0000_0000 && Pow2(63) == TWO_63 && Pow2(64) == TWO_64
  {
    assert Pow2(8) == 256;
    assert Pow2(10) == 1024;
    Pow2Adds(8, 8);
    Pow2Adds(16, 16);
    Pow2Adds(32, 10);
    Pow2Adds(42, 10);
    Pow2Adds(52, 10);
    assert Pow2(32) == 0x1_0000_0000;
    assert Pow2(62) == 0x4000_0000_0000_0000;
  }

  /** The multiplier is 2^min(attempt, 10) up to attempt 62; the shift overflows from 63 on. */
  lemma Multiplier(attempt: nat)
    ensures attempt <= 62 ==> Min(Shifted(attempt), 1024) == Pow2(Min(attempt, 10))
    ensures attempt == 63 ==> Shifted(attempt) == -TWO_63
    ensures attempt >= 64 ==> Shifted(attempt) == 0
  {
    Powers();
    if attempt <= 62 {
      Pow2Grows(attempt, 62);
      if attempt <= 10 { Pow2Grows(attempt, 10); } else { Pow2Grows(10, attempt); }
    } else if attempt >= 64 {
      Pow2Adds(64, attempt - 64);
      var p := Pow2(attempt - 64);
      WholeTurns(p);
    }
  }

  lemma WholeTurns(p: int)
    ensures Wrap64(p * TWO_64) == 0
  {
    var r := Wrap64(p * TWO_64);
    assert (r - p * TWO_64) % TWO_64 == 0;
    var q := (r - p * TWO_64) / TWO_64;
    assert r == (q + p) * TWO_64;
    Multiple(q + p, r);
  }

  lemma Multiple(k: int, r: int)
    requires r == k * TWO_64 && -TWO_63 <= r < TWO_63
    ensures k == 0 && r == 0
  {
  }

  /** The documented backoff. */
  function Documented(c: Config, attempt: nat): int {
    Min(c.baseBackoff * Pow2(Min(attempt, 10)), c.maxBackoff)
  }

  /** Before jitter the backoff is min(base * 2^min(attempt, 10), max) exactly up to attempt 62, as long
      as the product fits 64 bits or what is left of it after wrapping still reaches the maximum. From
      attempt 63 on the shift has overflowed and the next try follows without any delay. */
  lemma BackoffIsExponentialExactly(c: Config, attempt: nat)
    requires c.Valid()
    ensures var product := c.baseBackoff * Pow2(Min(attempt, 10));
            Exponential(c, attempt) == Documented(c, attempt) <==>
            attempt <= 62 && (product < TWO_63 || Wrap64(product) >= c.maxBackoff)
    ensures attempt >= 63 ==> forall draw, wild :: Jittered(c, Exponential(c, attempt), draw, wild) == 0
  {
    Multiplier(attempt);
    Powers();
    var m := Pow2(Min(attempt, 10));
    Pow2Grows(Min(attempt, 10), 10);
    ProductWithin(c.baseBackoff, m);
    if attempt == 63 {
      OverflowIsNotPositive(c.baseBackoff);
    } else if attempt >= 64 {
      assert c.baseBackoff * 0 == 0;
    }
  }

  /** A base of 2^53 nanoseconds, about 104 days, overflows at attempt 10: the delay is gone. */
  lemma LargeBaseOverflows(c: Config)
    requires c.Valid() && c.baseBackoff == 0x20_0000_0000_0000
    ensures Exponential(c, 10) < 0 < Documented(c, 10)
  {
    Powers();
    Multiplier(10);
  }

  lemma ProductWithin(b: int, m: int)
    requires b > 0 && 1 <= m <= 1024
    ensures b <= b * m <= b * 1024
  {
    assert b * (m - 1) >= 0 && b * (1024 - m) >= 0;
  }

  /** A multiple of -2^63 wraps to 0 or to -2^63. */
  lemma OverflowIsNotPositive(b: int)
    ensures Wrap64(b * -TWO_63) <= 0
  {
    var r := Wrap64(b * -TWO_63);
    var h := b / 2;
    assert b == 2 * h + b % 2;
    var q := (r - b * -TWO_63) / TWO_64;
    assert r == q * TWO_64 - b * TWO_63;
    assert b * TWO_63 == h * TWO_64 + (b % 2) * TWO_63;
    assert r == (q - h) * TWO_64 - (b % 2) * TWO_63;
  }

  /** The pre-jitter backoff is positive and does not shrink from one attempt to a later one, up to
      attempt 62 and as long as the later product fits 64 bits. */
  lemma BackoffNeverShrinks(c: Config, a: nat, b: nat)
    requires c.Valid() && a <= b <= 62 && c.baseBackoff * Pow2(Min(b, 10)) < TWO_63
    ensures 0 < Exponential(c, a) <= Exponential(c, b)
  {
    hide Exponential;
    Pow2Grows(Min(a, 10), Min(b, 10));
    ProductGrows(c.baseBackoff, Pow2(Min(a, 10)), Pow2(Min(b, 10)));
    BackoffIsExponentialExactly(c, a);
    BackoffIsExponentialExactly(c, b);
  }

  lemma ProductGrows(k: int, m: int, n: int)
    requires k > 0 && 0 < m <= n
    ensures 0 < k * m <= k * n
  {
    assert k * (n - m) >= 0;
  }

  // ---------------------------------------------------------------------------
  // The retry loop
  // ---------------------------------------------------------------------------

  /** A received response; its body is open until somebody closes it. */
  class HttpResponse {
    const status: int
    const headers: Headers
    var bodyOpen: bool

    constructor (status: int, headers: Headers)
      ensures this.status == status && this.headers == headers && bodyOpen
    {
      this.status, this.headers, bodyOpen := status, headers, true;
    }
  }

  datatype TransportError =
    | BufferFailed
    | LimiterCancelled
    | RewindFailed
    | NotRetryable
    | SleepCancelled
    | Exhausted

  /** Everything outside the transport, by attempt. */
  datatype World = World(
    buffers: bool,            // the request body can be read for replay
    admitted: nat -> bool,    // the limiter lets the attempt through before the context is done
    rewinds: nat -> bool,     // the request body can be rewound
    reply: nat -> Reply,
    now: nat -> int,
    draw: nat -> real,
    wild: real -> int,
    sleeps: nat -> bool)      // the backoff is slept to its end

  function Sum(s: seq<int>): int {
    if s == [] then 0 else Sum(s[..|s| - 1]) + s[|s| - 1]
  }

  lemma {:induction false} SumBounded(s: seq<int>, bound: int)
    requires forall d :: d in s ==> 0 <= d <= bound
    ensures 0 <= Sum(s) <= |s| * bound
    ensures forall d :: d in s ==> d <= Sum(s)
  {
    if s != [] {
      var init := s[..|s| - 1];
      assert forall d :: d in init ==> d in s;
      assert s[|s| - 1] in s;
      SumBounded(init, bound);
      assert |s| * bound == (|s| - 1) * bound + bound;
      forall d | d in s ensures d <= Sum(s) {
        assert d in init || d == s[|s| - 1];
      }
    }
  }

  /** The delays the first `n` failed attempts call for. */
  function Delays(c: Config, w: World, n: nat): (r: seq<int>)
    ensures |r| == n && forall k :: 0 <= k < n ==> r[k] == Delay(c, k, w.reply(k), w.now(k), w.draw(k), w.wild)
  {
    seq(n, k requires 0 <= k => Delay(c, k, w.reply(k), w.now(k), w.draw(k), w.wild))
  }

  lemma DelaysExtend(c: Config, w: World, n: nat)
    ensures Delays(c, w, n + 1) == Delays(c, w, n) + [Delay(c, n, w.reply(n), w.now(n), w.draw(n), w.wild)]
  {
    hide Delay;
  }

  /** The latest date among the first `n` replies, or what was known before. */
  function LatestDate(w: World, n: nat, before: Option<int>): Option<int> {
    if n == 0 then before
    else
      var r := w.reply(n - 1);
      if r.Response? && r.headers.date.Some? then r.headers.date else LatestDate(w, n - 1, before)
  }

  function LatestLimit(w: World, n: nat, before: Option<(int, int)>): Option<(int, int)> {
    if n == 0 then before
    else
      var r := w.reply(n - 1);
      if r.Response? && r.headers.rateLimit.Some? then r.headers.rateLimit else LatestLimit(w, n - 1, before)
  }

  /** The date remembered is that of the latest reply that gives one. */
  lemma {:induction false} LatestDateIsLatest(w: World, n: nat, before: Option<int>)
    ensures var d := LatestDate(w, n, before);
            || (d == before && forall k :: 0 <= k < n && w.reply(k).Response? ==> w.reply(k).headers.date.None?)
            || (exists k :: 0 <= k < n && w.reply(k).Response? && w.reply(k).headers.date == d && d.Some?
                            && forall j :: k < j < n && w.reply(j).Response? ==> w.reply(j).headers.date.None?)
  {
    if n > 0 && !(w.reply(n - 1).Response? && w.reply(n - 1).headers.date.Some?) {
      LatestDateIsLatest(w, n - 1, before);
    }
  }

  lemma {:induction false} LatestLimitIsLatest(w: World, n: nat, before: Option<(int, int)>)
    ensures var l := LatestLimit(w, n, before);
            || (l == before && forall k :: 0 <= k < n && w.reply(k).Response? ==> w.reply(k).headers.rateLimit.None?)
            || (exists k :: 0 <= k < n && w.reply(k).Response? && w.reply(k).headers.rateLimit == l && l.Some?
                            && forall j :: k < j < n && w.reply(j).Response? ==> w.reply(j).headers.rateLimit.None?)
  {
    if n > 0 && !(w.reply(n - 1).Response? && w.reply(n - 1).headers.rateLimit.Some?) {
      LatestLimitIsLatest(w, n - 1, before);
    }
  }

  /** How many of the first `n` replies are responses. */
  ghost function Arrived(w: World, n: nat): nat {
    if n == 0 then 0 else Arrived(w, n - 1) + if w.reply(n - 1).Response? then 1 else 0
  }

  /** Each of the first `n` replies calls for another try: a retryable error, or one of five statuses. */
  ghost predicate Retried(w: World, n: nat) {
    forall k: nat :: k < n ==>
      if w.reply(k).Error? then w.reply(k).retryable else w.reply(k).status in {429, 500, 502, 503, 504}
  }

  /** Nothing held up the first `n` tries and the backoffs between them. */
  ghost predicate Unhindered(w: World, n: nat) {
    && (forall k: nat :: k < n ==> w.admitted(k) && (k > 0 ==> w.rewinds(k)))
    && (forall k: nat :: k < n - 1 ==> w.sleeps(k))
  }

  lemma OneMoreTry(w: World, n: nat)
    requires Unhindered(w, n) && w.admitted(n) && (n > 0 ==> w.rewinds(n) && w.sleeps(n - 1))
    ensures Unhindered(w, n + 1)
    ensures Arrived(w, n + 1) == Arrived(w, n) + if w.reply(n).Response? then 1 else 0
    ensures Retried(w, n) && w.reply(n).Retryable() ==> Retried(w, n + 1)
  {
  }

  class GovernorTransport {
    const cfg: Config
    var lastRateLimit: Option<(int, int)>
    var lastServerTime: Option<int>

    constructor (maxRetries: int, baseBackoff: int, maxBackoff: int, jitterRatio: real)
      requires -TWO_63 <= baseBackoff < TWO_63 && -TWO_63 <= maxBackoff < TWO_63
      ensures cfg == WithDefaults(maxRetries, baseBackoff, maxBackoff, jitterRatio) && cfg.Valid()
      ensures lastRateLimit.None? && lastServerTime.None?
    {
      cfg := WithDefaults(maxRetries, baseBackoff, maxBackoff, jitterRatio);
      lastRateLimit, lastServerTime := None, None;
    }

    /** RoundTrip. `tries` counts the requests made, `slept` are the backoffs waited for, `received`
        all responses that arrived.

        There are at most maxRetries + 1 tries, all but the last of which ended in something
        retryable, and at most maxRetries backoffs, each the one its reply calls for. A response is
        returned exactly when there is no error; it is the last one received and its body is open,
        while every other response received has been closed. */
    method RoundTrip(w: World)
      returns (resp: HttpResponse?, err: Option<TransportError>, tries: nat, slept: seq<int>, ghost received: seq<HttpResponse>)
      requires cfg.Valid()
      modifies this
      ensures tries <= cfg.maxRetries + 1 && |slept| <= cfg.maxRetries && |slept| <= tries
      ensures slept == Delays(cfg, w, |slept|)
      ensures Retried(w, |slept|) && Unhindered(w, tries)
      ensures err.None? <==> resp != null
      ensures resp != null ==>
                && tries > 0 && received != [] && received[|received| - 1] == resp && resp.bodyOpen
                && w.reply(tries - 1) == Response(resp.status, resp.headers)
                && (resp.status in {429, 500, 502, 503, 504} ==> tries == cfg.maxRetries + 1)
      ensures forall r :: r in received && r != resp ==> !r.bodyOpen
      ensures forall i, j :: 0 <= i < j < |received| ==> received[i] != received[j]
      ensures |received| == Arrived(w, tries) && forall r :: r in received ==> fresh(r)
      ensures match err
              case None => |slept| == tries - 1
              case Some(NotRetryable) => tries > 0 && w.reply(tries - 1) == Error(false) && |slept| == tries - 1
              case Some(Exhausted) =>
                tries == cfg.maxRetries + 1 && w.reply(tries - 1) == Error(true) && |slept| == tries - 1
              case Some(BufferFailed) => !w.buffers && tries == 0
              case Some(LimiterCancelled) => !w.admitted(tries) && |slept| == tries
              case Some(RewindFailed) => tries > 0 && !w.rewinds(tries) && |slept| == tries
              case Some(SleepCancelled) => tries > 0 && !w.sleeps(tries - 1) && |slept| == tries - 1 && Retried(w, tries)
      ensures !w.buffers ==> err == Some(BufferFailed)
      ensures lastServerTime == LatestDate(w, tries, old(lastServerTime))
      ensures lastRateLimit == LatestLimit(w, tries, old(lastRateLimit))
    {
      hide Delay, Delays, LatestDate, LatestLimit, Config.Valid, Retried, Unhindered, Arrived;
      tries, slept, received := 0, [], [];
      NothingYet(cfg, w, lastServerTime, lastRateLimit);
      if !w.buffers {
        return null, Some(BufferFailed), 0, [], [];
      }
      var lastResp: HttpResponse? := null;
      var attempt := 0;
      while true
        invariant attempt == tries == |slept| <= cfg.maxRetries
        invariant slept == Delays(cfg, w, attempt)
        invariant Retried(w, tries)
        invariant |received| == Arrived(w, tries) && forall r :: r in received ==> fresh(r) && !r.bodyOpen
        invariant Unhindered(w, tries) && (tries > 0 ==> w.sleeps(tries - 1))
        invariant forall i, j :: 0 <= i < j < |received| ==> received[i] != received[j]
        invariant lastResp != null ==> lastResp in received
        invariant lastServerTime == LatestDate(w, tries, old(lastServerTime))
        invariant lastRateLimit == LatestLimit(w, tries, old(lastRateLimit))
        decreases cfg.maxRetries - attempt
      {
        if !w.admitted(attempt) {
          if lastResp != null {
            lastResp.bodyOpen := false;
          }
          return null, Some(LimiterCancelled), tries, slept, received;
        }
        if attempt > 0 && !w.rewinds(attempt) {
          return null, Some(RewindFailed), tries, slept, received;
        }
        var reply := w.reply(attempt);
        lastResp := Receive(w, attempt, old(lastServerTime), old(lastRateLimit));
        OneMoreTry(w, attempt);
        tries := tries + 1;
        if lastResp != null {
          received := received + [lastResp];
          if !RetryableStatus(lastResp.status) {
            return lastResp, None, tries, slept, received;
          }
        } else if !reply.retryable {
          return null, Some(NotRetryable), tries, slept, received;
        }
        if attempt == cfg.maxRetries {
          return lastResp, if lastResp == null then Some(Exhausted) else None, tries, slept, received;
        }
        var delay := Delay(cfg, attempt, reply, w.now(attempt), w.draw(attempt), w.wild);
        if lastResp != null {
          lastResp.bodyOpen := false;
        }
        if !w.sleeps(attempt) {
          return null, Some(SleepCancelled), tries, slept, received;
        }
        DelaysExtend(cfg, w, attempt);
        slept := slept + [delay];
        attempt := attempt + 1;
      }
    }

    /** One request: the response, if any, and what the transport remembers of its headers. */
    method Receive(w: World, attempt: nat, ghost time: Option<int>, ghost limit: Option<(int, int)>) returns (resp: HttpResponse?)
      requires lastServerTime == LatestDate(w, attempt, time) && lastRateLimit == LatestLimit(w, attempt, limit)
      modifies this
      ensures resp == null <==> w.reply(attempt).Error?
      ensures resp != null ==> fresh(resp) && resp.bodyOpen && w.reply(attempt) == Response(resp.status, resp.headers)
      ensures lastServerTime == LatestDate(w, attempt + 1, time)
      ensures lastRateLimit == LatestLimit(w, attempt + 1, limit)
    {
      var reply := w.reply(attempt);
      if reply.Error? {
        return null;
      }
      resp := new HttpResponse(reply.status, reply.headers);
      if reply.headers.date.Some? {
        lastServerTime := reply.headers.date;
      }
      if reply.headers.rateLimit.Some? {
        lastRateLimit := reply.headers.rateLimit;
      }
    }
  }

  lemma NothingYet(c: Config, w: World, time: Option<int>, limit: Option<(int, int)>)
    ensures Retried(w, 0) && Unhindered(w, 0) && Arrived(w, 0) == 0
    ensures Delays(c, w, 0) == [] && LatestDate(w, 0, time) == time && LatestLimit(w, 0, limit) == limit
  {
  }

  /** However often it retries, the transport sleeps at most maxRetries times the maximum backoff. */
  lemma TotalSleepIsBounded(c: Config, w: World, n: nat)
    requires c.Valid() && n <= c.maxRetries
    ensures forall d :: d in Delays(c, w, n) ==> 0 <= d <= c.maxBackoff
    ensures forall d :: d in Delays(c, w, n) ==> d <= Sum(Delays(c, w, n)) <= c.maxRetries * c.maxBackoff
  {
    hide Delay;
    forall d | d in Delays(c, w, n) ensures 0 <= d <= c.maxBackoff {
      var k :| 0 <= k < n && Delays(c, w, n)[k] == d;
      BackoffIsBounded(c, k, w.reply(k), w.now(k), w.draw(k), w.wild);
    }
    SumBounded(Delays(c, w, n), c.maxBackoff);
    assert (c.maxRetries - n) * c.maxBackoff >= 0;
  }
}
