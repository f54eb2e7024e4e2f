/** Bounded retry: configuration, exponential backoff, Retry-After, and the attempt loop. */
module Retry {
  import opened Options

  newtype int64 = x: int | -0x8000_0000_0000_0000 <= x < 0x8000_0000_0000_0000

  /** Durations count nanoseconds. */
  type Duration = int64

  const SECOND: Duration := 1_000_000_000
  const MILLISECOND: Duration := 1_000_000

  // ---------- Configuration ----------

  /** The numeric limits of a client's configuration; zero asks for the default. */
  datatype Config = Config(requestTimeout: Duration, connectTimeout: Duration, responseHeaderTimeout: Duration,
                           maxBodyBytes: int64, maxConcurrent: int64, maxAttempts: int64,
                           baseBackoff: Duration, maxBackoff: Duration)

  datatype ConfigError = NegativeValue | BackoffOrder

  function OrDefault(value: int64, default': int64): int64 {
    if value == 0 then default' else value
  }

  function NewClient(cfg: Config): Result<Config, ConfigError> {
    if cfg.requestTimeout < 0 || cfg.connectTimeout < 0 || cfg.responseHeaderTimeout < 0 || cfg.maxBodyBytes < 0 ||
       cfg.maxConcurrent < 0 || cfg.maxAttempts < 0 || cfg.baseBackoff < 0 || cfg.maxBackoff < 0
    then Err(NegativeValue)
    else
      var client := Config(OrDefault(cfg.requestTimeout, 30 * SECOND), OrDefault(cfg.connectTimeout, 5 * SECOND),
                           OrDefault(cfg.responseHeaderTimeout, 10 * SECOND), OrDefault(cfg.maxBodyBytes, 8_388_608),
                           OrDefault(cfg.maxConcurrent, 8), OrDefault(cfg.maxAttempts, 3),
                           OrDefault(cfg.baseBackoff, 250 * MILLISECOND), OrDefault(cfg.maxBackoff, 2 * SECOND));
      if client.maxBackoff < client.baseBackoff then Err(BackoffOrder) else Ok(client)
  }

  /** What every client relies on. */
  predicate ValidClient(c: Config) {
    && c.requestTimeout > 0 && c.connectTimeout > 0 && c.responseHeaderTimeout > 0 && c.maxBodyBytes > 0
    && c.maxConcurrent > 0 && c.maxAttempts > 0 && 0 < c.baseBackoff <= c.maxBackoff
  }

  const DEFAULTS := Config(30_000_000_000, 5_000_000_000, 10_000_000_000, 8_388_608, 8, 3, 250_000_000, 2_000_000_000)

  /** A client asked for nothing has these values, and one asked for some has these for the others. */
  lemma {:induction false} DefaultsExactly(cfg: Config)
    ensures NewClient(Config(0, 0, 0, 0, 0, 0, 0, 0)) == Ok(DEFAULTS)
    ensures NewClient(cfg).Ok? ==>
      var c := NewClient(cfg).value;
      && (cfg.requestTimeout == 0 ==> c.requestTimeout == DEFAULTS.requestTimeout)
      && (cfg.connectTimeout == 0 ==> c.connectTimeout == DEFAULTS.connectTimeout)
      && (cfg.responseHeaderTimeout == 0 ==> c.responseHeaderTimeout == DEFAULTS.responseHeaderTimeout)
      && (cfg.maxBodyBytes == 0 ==> c.maxBodyBytes == DEFAULTS.maxBodyBytes)
      && (cfg.maxConcurrent == 0 ==> c.maxConcurrent == DEFAULTS.maxConcurrent)
      && (cfg.maxAttempts == 0 ==> c.maxAttempts == DEFAULTS.maxAttempts)
      && (cfg.baseBackoff == 0 ==> c.baseBackoff == DEFAULTS.baseBackoff)
      && (cfg.maxBackoff == 0 ==> c.maxBackoff == DEFAULTS.maxBackoff)
  {
  }

  predicate SomeNegative(c: Config) {
    c.requestTimeout < 0 || c.connectTimeout < 0 || c.responseHeaderTimeout < 0 || c.maxBodyBytes < 0
    || c.maxConcurrent < 0 || c.maxAttempts < 0 || c.baseBackoff < 0 || c.maxBackoff < 0
  }

  /** The client keeps every value that was given. */
  predicate Honours(client: Config, cfg: Config) {
    && client.requestTimeout == OrDefault(cfg.requestTimeout, client.requestTimeout)
    && client.connectTimeout == OrDefault(cfg.connectTimeout, client.connectTimeout)
    && client.responseHeaderTimeout == OrDefault(cfg.responseHeaderTimeout, client.responseHeaderTimeout)
    && client.maxBodyBytes == OrDefault(cfg.maxBodyBytes, client.maxBodyBytes)
    && client.maxConcurrent == OrDefault(cfg.maxConcurrent, client.maxConcurrent)
    && client.maxAttempts == OrDefault(cfg.maxAttempts, client.maxAttempts)
    && client.baseBackoff == OrDefault(cfg.baseBackoff, client.baseBackoff)
    && client.maxBackoff == OrDefault(cfg.maxBackoff, client.maxBackoff)
  }

  /**
   Clients are exactly the valid configurations, each its own fixed point. A configuration is
   refused for a negative value, or for a base above the maximum once defaults are filled in.
   */
  lemma {:induction false} NewClientExactly(cfg: Config)
    ensures NewClient(cfg) == Err(NegativeValue) <==> SomeNegative(cfg)
    ensures NewClient(cfg) == Err(BackoffOrder) <==>
      && !SomeNegative(cfg)
      && OrDefault(cfg.baseBackoff, 250 * MILLISECOND) > OrDefault(cfg.maxBackoff, 2 * SECOND)
    ensures NewClient(cfg).Ok? ==> Honours(NewClient(cfg).value, cfg)
    ensures NewClient(cfg).Ok? ==>
      ValidClient(NewClient(cfg).value) && NewClient(NewClient(cfg).value) == NewClient(cfg)
    ensures ValidClient(cfg) <==> NewClient(cfg) == Ok(cfg)
  {
  }

  // ---------- Backoff ----------

  function Pow2(n: nat): nat {
    if n == 0 then 1 else 2 * Pow2(n - 1)
  }

  function MinInt(a: int, b: int): int {
    if a <= b then a else b
  }

  /** The delay after a failed attempt, counting attempts from one. */
  function BackoffDelay(c: Config, attempt: nat): int
    requires attempt >= 1
  {
    MinInt(c.maxBackoff as int, c.baseBackoff as int * Pow2(attempt - 1))
  }

  lemma {:induction false} Pow2Monotone(a: nat, b: nat)
    requires a <= b
    ensures Pow2(a) <= Pow2(b)
    decreases b
  {
    if a < b { Pow2Monotone(a, b - 1); }
  }

  lemma {:induction false} ScaledPow2Monotone(base: int, a: nat, b: nat)
    requires 0 < base && a <= b
    ensures base * Pow2(a) <= base * Pow2(b)
  {
    Pow2Monotone(a, b);
  }

  lemma {:induction false} ScaledDoubles(base: int, n: nat)
    requires n > 0
    ensures base * Pow2(n) == 2 * (base * Pow2(n - 1))
  {
  }

  lemma {:induction false} BackoffMonotone(c: Config, a: nat, b: nat)
    requires ValidClient(c) && 1 <= a <= b
    ensures 0 < BackoffDelay(c, a) <= BackoffDelay(c, b) <= c.maxBackoff as int
  {
    ScaledPow2Monotone(c.baseBackoff as int, a - 1, b - 1);
    ScaledPow2Monotone(c.baseBackoff as int, 0, a - 1);
  }

  /** The first delay is the base, and each next one is twice the last until the maximum is reached. */
  lemma {:induction false} BackoffDoubles(c: Config, attempt: nat)
    requires ValidClient(c) && attempt >= 1
    ensures BackoffDelay(c, 1) == c.baseBackoff as int
    ensures BackoffDelay(c, attempt + 1) ==
      if 2 * BackoffDelay(c, attempt) <= c.maxBackoff as int then 2 * BackoffDelay(c, attempt) else c.maxBackoff as int
  {
    ScaledDoubles(c.baseBackoff as int, attempt);
    ScaledPow2Monotone(c.baseBackoff as int, 0, 1);
  }

  /** Doubles until the limit; no value on the way leaves 64 bits. */
  method Backoff(c: Config, attempt: int64) returns (delay: Duration)
    requires ValidClient(c)
    ensures delay as int == if attempt >= 1 then BackoffDelay(c, attempt as int) else c.baseBackoff as int
  {
    delay := c.baseBackoff;
    var step: int64 := 1;
    while step < attempt && delay < c.maxBackoff
      invariant step == 1 || 1 < step <= attempt
      invariant delay as int == c.baseBackoff as int * Pow2(step as int - 1) && delay <= c.maxBackoff
      decreases attempt as int - step as int
    {
      ScaledPow2Monotone(c.baseBackoff as int, step as int, attempt as int - 1);
      ScaledDoubles(c.baseBackoff as int, step as int);
      if delay > c.maxBackoff / 2 {
        return c.maxBackoff;
      }
      delay := delay * 2;
      step := step + 1;
    }
    if attempt >= 1 {
      ScaledPow2Monotone(c.baseBackoff as int, step as int - 1, attempt as int - 1);
    }
    if delay > c.maxBackoff {
      return c.maxBackoff;
    }
  }

  // ---------- Retry-After ----------

  /** What trimming and parsing made of the header: in this order a number, then a date. */
  datatype Header = Absent | Seconds(seconds: int64) | Date(when: int) | Unparsable

  /** Two's complement wrap-around of a product. */
  function Wrap(x: int): int64 {
    ((x + 0x8000_0000_0000_0000) % 0x1_0000_0000_0000_0000 - 0x8000_0000_0000_0000) as int64
  }

  /** Time subtraction saturates. */
  function Saturate(x: int): int64 {
    if x < -0x8000_0000_0000_0000 then -0x8000_0000_0000_0000
    else if x >= 0x8000_0000_0000_0000 then 0x7fff_ffff_ffff_ffff
    else x as int64
  }

  function ParseRetryAfter(header: Header, now: int, maximum: Duration): Duration {
    match header
    case Absent => -1
    case Unparsable => -1
    case Seconds(seconds) =>
      if seconds < 0 then -1
      else if maximum <= 0 then 0
      else
        var whole := maximum / SECOND;
        var maxSeconds := if maximum % SECOND != 0 then whole + 1 else whole;
        if seconds > maxSeconds then maximum
        else
          var delay := Wrap(seconds as int * SECOND as int);
          if delay > maximum then maximum else delay
    case Date(when) =>
      var delay := Saturate(when - now);
      if delay < 0 then 0 else if delay > maximum then maximum else delay
  }

  const LAST_WHOLE_SECOND: int := 9_223_372_036

  /** The one product that wraps: a limit beyond the last whole second, and the second after it. */
  predicate Wraps(seconds: int64, maximum: Duration) {
    maximum as int > LAST_WHOLE_SECOND * SECOND as int && seconds as int == LAST_WHOLE_SECOND + 1
  }

  lemma {:induction false} WrapFits(x: int)
    ensures -0x8000_0000_0000_0000 <= x < 0x8000_0000_0000_0000 ==> Wrap(x) as int == x
  {
  }

  lemma {:induction false} WrapAtCorner()
    ensures Wrap((LAST_WHOLE_SECOND + 1) * SECOND as int) < -1
  {
  }

  /** Facts about how many seconds pass the first comparison. */
  lemma {:induction false} SecondsAdmitted(seconds: int64, maximum: Duration)
    requires seconds >= 0 && maximum > 0
    ensures
      var whole := maximum / SECOND;
      var maxSeconds := if maximum % SECOND != 0 then whole + 1 else whole;
      && (seconds > maxSeconds ==> seconds as int * SECOND as int > maximum as int)
      && (seconds <= maxSeconds ==> seconds as int <= LAST_WHOLE_SECOND || Wraps(seconds, maximum))
  {
    var m, q, r := maximum as int, (maximum / SECOND) as int, (maximum % SECOND) as int;
    assert m == q * 1_000_000_000 + r && 0 <= r < 1_000_000_000;
  }

  /**
   A non-negative number of seconds comes out as that delay cut off at the maximum exactly when the
   product does not wrap; in the one case where it does, the result is negative.
   */
  lemma {:induction false} RetryAfterSecondsExactly(seconds: int64, now: int, maximum: Duration)
    requires seconds >= 0 && maximum > 0
    ensures ParseRetryAfter(Seconds(seconds), now, maximum) as int
            == MinInt(seconds as int * SECOND as int, maximum as int)
        <==> !Wraps(seconds, maximum)
    ensures Wraps(seconds, maximum) ==> ParseRetryAfter(Seconds(seconds), now, maximum) < -1
  {
    SecondsAdmitted(seconds, maximum);
    WrapFits(seconds as int * SECOND as int);
    WrapAtCorner();
  }

  const LONGEST := Config(30 * SECOND, 5 * SECOND, 10 * SECOND, 8_388_608, 8, 3, SECOND, 0x7fff_ffff_ffff_ffff)

  /** A client may be given the longest maximum there is, and then one number of seconds wraps. */
  lemma {:induction false} WrappingClientExists(now: int)
    ensures NewClient(LONGEST) == Ok(LONGEST)
    ensures ParseRetryAfter(Seconds(9_223_372_037), now, LONGEST.maxBackoff) < -1
    ensures ParseRetryAfter(Seconds(9_223_372_036), now, LONGEST.maxBackoff) as int == 9_223_372_036 * SECOND as int
    ensures ParseRetryAfter(Seconds(9_223_372_038), now, LONGEST.maxBackoff) == LONGEST.maxBackoff
  {
    NewClientExactly(LONGEST);
    RetryAfterSecondsExactly(9_223_372_037, now, LONGEST.maxBackoff);
    RetryAfterSecondsExactly(9_223_372_036, now, LONGEST.maxBackoff);
    RetryAfterSecondsExactly(9_223_372_038, now, LONGEST.maxBackoff);
  }

  lemma {:induction false} RetryAfterDateExactly(when: int, now: int, maximum: Duration)
    requires maximum > 0
    ensures ParseRetryAfter(Date(when), now, maximum) as int ==
      if when < now then 0 else MinInt(when - now, maximum as int)
  {
  }

  /** The result is within the maximum, and negative only for want of a usable header. */
  lemma {:induction false} RetryAfterBounded(header: Header, now: int, maximum: Duration)
    requires maximum > 0
    ensures ParseRetryAfter(header, now, maximum) <= maximum
    ensures ParseRetryAfter(header, now, maximum) == -1 <==>
      header.Absent? || header.Unparsable? || (header.Seconds? && header.seconds < 0)
    ensures ParseRetryAfter(header, now, maximum) < -1 <==> header.Seconds? && Wraps(header.seconds, maximum)
  {
    if header.Seconds? && header.seconds >= 0 {
      RetryAfterSecondsExactly(header.seconds, now, maximum);
    }
  }

  // ---------- The attempt loop ----------

  datatype Failure =
    | Status(code: int)
    | ResponseTooLarge | HTTPSDowngrade | TooManyRedirects
    | DestinationBlocked | EmbeddedCredentials | UnsupportedScheme
    | Transient            // any other request or read failure

  /** Everything the surroundings decide about one attempt. */
  datatype Surroundings = Surroundings(cancelledBefore: bool, failure: Option<Failure>, header: Header, now: int,
                                       cancelledAfter: bool, sleepFails: bool)

  predicate RetryableStatus(code: int) {
    code in {408, 425, 429, 500, 502, 503, 504}
  }

  predicate ShouldRetry(cancelled: bool, f: Failure) {
    !cancelled && (if f.Status? then RetryableStatus(f.code) else f.Transient?)
  }

  datatype End = Cancelled | Succeeded | Failed(f: Failure) | Interrupted(f: Failure) | Exhausted

  /** How the loop ends at attempt `k`, or `None` when it goes on to the next. */
  function StopAt(c: Config, around: Surroundings, k: nat): Option<End> {
    if around.cancelledBefore then Some(Cancelled)
    else match around.failure
      case None => Some(Succeeded)
      case Some(f) =>
        if k == c.maxAttempts as int || !ShouldRetry(around.cancelledAfter, f) then Some(Failed(f))
        else if around.sleepFails then Some(Interrupted(f))
        else None
  }

  /** The delay asked for after failed attempt `k`: a usable Retry-After, else the backoff. */
  function DelayAfter(c: Config, around: Surroundings, k: nat): int
    requires k >= 1
  {
    var retryAfter := if around.failure.Some? && around.failure.value.Status?
                      then ParseRetryAfter(around.header, around.now, c.maxBackoff) else -1;
    if retryAfter >= 0 then retryAfter as int else BackoffDelay(c, k)
  }

  lemma {:induction false} DelayBounded(c: Config, around: Surroundings, k: nat)
    requires ValidClient(c) && k >= 1
    ensures 0 <= DelayAfter(c, around, k) <= c.maxBackoff as int
  {
    RetryAfterBounded(around.header, around.now, c.maxBackoff);
    BackoffMonotone(c, k, k);
  }

  /** After each of the first attempts comes the delay asked for there. */
  ghost predicate AsAsked(c: Config, around: nat -> Surroundings, delays: seq<Duration>) {
    forall i :: 0 <= i < |delays| ==> delays[i] as int == DelayAfter(c, around(i + 1), i + 1)
  }

  /**
   The delay after failed attempt `k`, said in full. A response that asks for a number of seconds or
   a date is given that much, up to the maximum; after anything else the base is doubled for each
   attempt before, up to the maximum.
   */
  ghost predicate Honoured(c: Config, here: Surroundings, k: nat, delay: Duration)
    requires k >= 1
  {
    var answered := here.failure.Some? && here.failure.value.Status?;
    var backoff := MinInt(c.maxBackoff as int, c.baseBackoff as int * Pow2(k - 1));
    delay as int ==
      match here.header
      case Seconds(n) =>
        if answered && n >= 0 && !Wraps(n, c.maxBackoff) then MinInt(n as int * SECOND as int, c.maxBackoff as int)
        else backoff
      case Date(when) =>
        if !answered then backoff
        else if when < here.now then 0
        else MinInt(when - here.now, c.maxBackoff as int)
      case Absent => backoff
      case Unparsable => backoff
  }

  lemma {:induction false} AskedIsHonoured(c: Config, here: Surroundings, k: nat, delay: Duration)
    requires ValidClient(c) && k >= 1 && delay as int == DelayAfter(c, here, k)
    ensures Honoured(c, here, k, delay)
  {
    RetryAfterBounded(here.header, here.now, c.maxBackoff);
    match here.header {
      case Seconds(n) => if n >= 0 { RetryAfterSecondsExactly(n, here.now, c.maxBackoff); }
      case Date(when) => RetryAfterDateExactly(when, here.now, c.maxBackoff);
      case _ =>
    }
  }

  /** Attempt `k` is followed by another exactly when it fails in passing and nothing stands in the way. */
  lemma {:induction false} GoesOnExactly(c: Config, here: Surroundings, k: nat)
    ensures StopAt(c, here, k).None? <==>
      && !here.cancelledBefore && !here.cancelledAfter && !here.sleepFails
      && here.failure.Some? && k != c.maxAttempts as int
      && match here.failure.value
         case Status(code) =>
           || code == 408 || code == 425 || code == 429
           || code == 500 || code == 502 || code == 503 || code == 504
         case Transient => true
         case _ => false
  {
  }

  /** How the loop ends when it does. */
  lemma {:induction false} EndsExactly(c: Config, here: Surroundings, k: nat)
    ensures StopAt(c, here, k) == Some(Cancelled) <==> here.cancelledBefore
    ensures StopAt(c, here, k) == Some(Succeeded) <==> !here.cancelledBefore && here.failure.None?
    ensures forall f :: StopAt(c, here, k) == Some(Interrupted(f)) <==>
      here.failure == Some(f) && here.sleepFails && StopAt(c, here.(sleepFails := false), k).None?
    ensures forall f :: StopAt(c, here, k) == Some(Failed(f)) <==>
      here.failure == Some(f) && !here.cancelledBefore && StopAt(c, here.(sleepFails := false), k).Some?
    ensures StopAt(c, here, k) != Some(Exhausted)
  {
  }

  function Sum(xs: seq<Duration>): int {
    if xs == [] then 0 else Sum(xs[..|xs| - 1]) + xs[|xs| - 1] as int
  }

  lemma {:induction false} SumBounded(xs: seq<Duration>, limit: int)
    requires forall i :: 0 <= i < |xs| ==> 0 <= xs[i] as int <= limit
    ensures 0 <= Sum(xs) <= |xs| * limit
  {
    if xs != [] { SumBounded(xs[..|xs| - 1], limit); }
  }

  lemma {:induction false} ProductMonotone(a: int, b: int, limit: int)
    requires a <= b && 0 <= limit
    ensures a * limit <= b * limit
  {
  }

  /**
   The loop of a fetch, once it holds a slot and its URL has passed. It goes through attempts that
   fail retryably and ends at the first that does not; `turns` is the number of that turn. Delays
   stay within the limit each and in total, and the loop never runs off its end.
   */
  method FetchLoop(c: Config, around: nat -> Surroundings)
    returns (end: End, attempts: nat, delays: seq<Duration>, turns: nat)
    requires ValidClient(c)
    ensures 1 <= turns <= c.maxAttempts as int
    ensures forall k :: 1 <= k < turns ==> StopAt(c, around(k), k).None?
    ensures StopAt(c, around(turns), turns) == Some(end) && !end.Exhausted?
    ensures attempts == if end.Cancelled? then turns - 1 else turns
    ensures |delays| == if end.Interrupted? then turns else turns - 1
    ensures AsAsked(c, around, delays)
    ensures forall i :: 0 <= i < |delays| ==> Honoured(c, around(i + 1), i + 1, delays[i])
    ensures forall d :: d in delays ==> 0 <= d <= c.maxBackoff
    ensures Sum(delays) <= (c.maxAttempts as int - 1) * c.maxBackoff as int
  {
    var attempt: int64 := 1;
    delays, attempts := [], 0;
    while attempt <= c.maxAttempts
      invariant 1 <= attempt <= c.maxAttempts
      invariant attempts == |delays| == attempt as int - 1
      invariant forall k :: 1 <= k < attempt as int ==> StopAt(c, around(k), k).None?
      invariant AsAsked(c, around, delays)
      decreases c.maxAttempts as int - attempt as int
    {
      turns := attempt as int;
      var here := around(turns);
      TotalDelay(c, around, delays);
      if here.cancelledBefore {
        end := Cancelled;
        return;
      }
      attempts := attempts + 1;
      if here.failure.None? {
        end := Succeeded;
        return;
      }
      var f := here.failure.value;
      if attempt == c.maxAttempts || !ShouldRetry(here.cancelledAfter, f) {
        end := Failed(f);
        return;
      }
      var delay := Backoff(c, attempt);
      var retryAfter: Duration := -1;
      if f.Status? {
        retryAfter := ParseRetryAfter(here.header, here.now, c.maxBackoff);
      }
      if retryAfter >= 0 {
        delay := retryAfter;
      }
      assert delay as int == DelayAfter(c, here, turns);
      delays := delays + [delay];
      if here.sleepFails {
        TotalDelay(c, around, delays);
        end := Interrupted(f);
        return;
      }
      attempt := attempt + 1;
    }
    assert false;
  }

  lemma {:induction false} TotalDelay(c: Config, around: nat -> Surroundings, delays: seq<Duration>)
    requires ValidClient(c) && |delays| < c.maxAttempts as int
    requires AsAsked(c, around, delays)
    ensures forall i :: 0 <= i < |delays| ==> Honoured(c, around(i + 1), i + 1, delays[i])
    ensures forall d :: d in delays ==> 0 <= d <= c.maxBackoff
    ensures Sum(delays) <= (c.maxAttempts as int - 1) * c.maxBackoff as int
  {
    forall i | 0 <= i < |delays| ensures 0 <= delays[i] as int <= c.maxBackoff as int {
      DelayBounded(c, around(i + 1), i + 1);
    }
    forall i | 0 <= i < |delays| ensures Honoured(c, around(i + 1), i + 1, delays[i]) {
      AskedIsHonoured(c, around(i + 1), i + 1, delays[i]);
    }
    SumBounded(delays, c.maxBackoff as int);
    ProductMonotone(|delays|, c.maxAttempts as int - 1, c.maxBackoff as int);
  }
}
