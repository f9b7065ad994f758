/**
 * The token bucket of api/internal/handlers/middleware.go. Times are in seconds, as reals, on a
 * monotone clock.
 */
module TokenBuckets {
  import opened Arithmetic

  /** Capacity, and tokens gained per second. */
  datatype Limit = Limit(cap: real, rate: real)

  /** A limiter of rpm requests a minute. */
  function LimitOf(rpm: nat): Limit { Limit(rpm as real, rpm as real / 60.0) }

  predicate Sound(l: Limit) { l.cap >= 0.0 && l.rate >= 0.0 }

  datatype Bucket = Bucket(tokens: real, lastTime: real)

  function Fresh(l: Limit, now: real): Bucket { Bucket(l.cap, now) }

  function Gain(l: Limit, from: real, to: real): real { (to - from) * l.rate }

  function Refilled(b: Bucket, l: Limit, now: real): real {
    var t := b.tokens + Gain(l, b.lastTime, now);
    if t > l.cap then l.cap else t
  }

  predicate Allows(b: Bucket, l: Limit, now: real) { Refilled(b, l, now) >= 1.0 }

  function Called(b: Bucket, l: Limit, now: real): Bucket {
    var t := Refilled(b, l, now);
    Bucket(if t >= 1.0 then t - 1.0 else t, now)
  }

  predicate InRange(b: Bucket, l: Limit) { 0.0 <= b.tokens <= l.cap }

  class TokenBucket {
    const maxToken: real
    const refillPS: real
    var tokens: real
    var lastTime: real
    var lastSeen: real

    function State(): Bucket
      reads this
    {
      Bucket(tokens, lastTime)
    }

    constructor (rpm: nat, now: real)
      ensures Limit(maxToken, refillPS) == LimitOf(rpm)
      ensures State() == Fresh(LimitOf(rpm), now) && lastSeen == now
    {
      maxToken, refillPS := rpm as real, rpm as real / 60.0;
      tokens, lastTime, lastSeen := rpm as real, now, now;
    }

    method Allow(now: real) returns (ok: bool)
      modifies this`tokens, this`lastTime
      ensures ok == Allows(old(State()), Limit(maxToken, refillPS), now)
      ensures State() == Called(old(State()), Limit(maxToken, refillPS), now)
    {
      var elapsed := now - lastTime;
      assert elapsed * refillPS == Gain(Limit(maxToken, refillPS), lastTime, now);
      lastTime := now;
      tokens := tokens + elapsed * refillPS;
      if tokens > maxToken {
        tokens := maxToken;
      }
      ok := tokens >= 1.0;
      if ok {
        tokens := tokens - 1.0;
      }
    }
  }

  // ---------------------------------------------------------------- arithmetic of the refill

  lemma GainIsMonotone(l: Limit, from: real, mid: real, to: real)
    requires Sound(l) && from <= mid <= to
    ensures Gain(l, from, to) == Gain(l, from, mid) + Gain(l, mid, to)
    ensures Gain(l, from, mid) >= 0.0 && Gain(l, mid, to) >= 0.0
    ensures Gain(l, from, from) == 0.0
  {
    NonNegativeProduct(mid - from, l.rate);
    NonNegativeProduct(to - mid, l.rate);
  }

  lemma RefillInRange(b: Bucket, l: Limit, now: real)
    requires Sound(l) && InRange(b, l) && b.lastTime <= now
    ensures b.tokens <= Refilled(b, l, now) <= l.cap
    ensures Refilled(b, l, now) <= b.tokens + Gain(l, b.lastTime, now)
    ensures InRange(Called(b, l, now), l)
  {
    GainIsMonotone(l, b.lastTime, now, now);
  }

  /** A minute at rpm requests a minute refills any bucket. */
  lemma MinuteRefills(rpm: nat, from: real, to: real)
    requires to - from >= 60.0
    ensures Gain(LimitOf(rpm), from, to) >= LimitOf(rpm).cap
  {
    var r := LimitOf(rpm).rate;
    NonNegativeProduct(to - from - 60.0, r);
    assert (to - from) * r == (to - from - 60.0) * r + 60.0 * r;
  }

  /** 60 / rpm seconds gain one token. */
  lemma SpacingGainsOne(rpm: nat, from: real, to: real)
    requires rpm > 0 && to - from >= 60.0 / rpm as real
    ensures Gain(LimitOf(rpm), from, to) >= 1.0
  {
    var n := rpm as real;
    var excess := to - from - 60.0 / n;
    assert 60.0 / n * n == 60.0;
    NonNegativeProduct(excess, n);
    assert (to - from) * n == excess * n + 60.0;
    assert (to - from) * (n / 60.0) == (to - from) * n / 60.0;
  }

  // ---------------------------------------------------------------- call sequences

  predicate Monotone(times: seq<real>) { forall i, j :: 0 <= i < j < |times| ==> times[i] <= times[j] }

  /** The bucket before call k of a sequence of calls. */
  function Before(b: Bucket, l: Limit, times: seq<real>, k: nat): Bucket
    requires k <= |times|
  {
    if k == 0 then b else Called(Before(b, l, times, k - 1), l, times[k - 1])
  }

  predicate AllowedAt(b: Bucket, l: Limit, times: seq<real>, k: nat)
    requires k < |times|
  {
    Allows(Before(b, l, times, k), l, times[k])
  }

  /** How many of the calls i, ..., j-1 are allowed. */
  function AllowedIn(b: Bucket, l: Limit, times: seq<real>, i: nat, j: nat): nat
    requires i <= j <= |times|
  {
    if i == j then 0 else AllowedIn(b, l, times, i, j - 1) + if AllowedAt(b, l, times, j - 1) then 1 else 0
  }

  predicate GoodStart(b: Bucket, l: Limit, times: seq<real>) {
    Sound(l) && InRange(b, l) && Monotone(times) && (times != [] ==> b.lastTime <= times[0])
  }

  lemma {:induction false} TokensInRange(b: Bucket, l: Limit, times: seq<real>, k: nat)
    requires GoodStart(b, l, times) && k <= |times|
    ensures InRange(Before(b, l, times, k), l)
    ensures Before(b, l, times, k).lastTime == if k == 0 then b.lastTime else times[k - 1]
  {
    if k > 0 {
      TokensInRange(b, l, times, k - 1);
      RefillInRange(Before(b, l, times, k - 1), l, times[k - 1]);
    }
  }

  /** One call: what is left plus what was allowed is the refilled amount. */
  lemma CallSplits(b: Bucket, l: Limit, now: real)
    ensures Called(b, l, now).tokens + (if Allows(b, l, now) then 1.0 else 0.0) == Refilled(b, l, now)
  {
  }

  /** Tokens left plus calls allowed never exceed the capacity plus what the window refills. */
  lemma {:induction false} WindowPotential(b: Bucket, l: Limit, times: seq<real>, i: nat, j: nat)
    requires GoodStart(b, l, times) && i < j <= |times|
    ensures Before(b, l, times, j).tokens + AllowedIn(b, l, times, i, j) as real
         <= l.cap + Gain(l, times[i], times[j - 1])
  {
    var last := Before(b, l, times, j - 1);
    TokensInRange(b, l, times, j - 1);
    RefillInRange(last, l, times[j - 1]);
    CallSplits(last, l, times[j - 1]);
    assert AllowedIn(b, l, times, i, i) == 0;
    if i < j - 1 {
      WindowPotential(b, l, times, i, j - 1);
      GainIsMonotone(l, times[i], times[j - 2], times[j - 1]);
    } else {
      GainIsMonotone(l, times[i], times[i], times[i]);
    }
  }

  /**
   * In any window of length T at most cap + T * rate calls are allowed, and tokens stay within
   * 0..cap; for a limiter of rpm requests a minute that is rpm + T * rpm / 60, and 0..rpm.
   */
  lemma WindowBound(b: Bucket, l: Limit, times: seq<real>, i: nat, j: nat, length: real)
    requires GoodStart(b, l, times) && i < j <= |times| && times[j - 1] - times[i] <= length
    ensures AllowedIn(b, l, times, i, j) as real <= l.cap + length * l.rate
    ensures 0.0 <= Before(b, l, times, j).tokens <= l.cap
  {
    WindowPotential(b, l, times, i, j);
    TokensInRange(b, l, times, j);
    GainWithin(l, times[i], times[j - 1], length);
  }

  lemma GainWithin(l: Limit, from: real, to: real, length: real)
    requires Sound(l) && to - from <= length
    ensures Gain(l, from, to) <= length * l.rate
  {
    NonNegativeProduct(length - (to - from), l.rate);
    assert length * l.rate == (length - (to - from)) * l.rate + (to - from) * l.rate;
  }

  /** A client that spaces its requests at least 60 / rpm seconds apart is never refused. */
  lemma SpacedNeverRefused(b: Bucket, rpm: nat, times: seq<real>, k: nat)
    requires rpm > 0 && GoodStart(b, LimitOf(rpm), times) && b.tokens >= 1.0 && k < |times|
    requires forall i :: 0 < i < |times| ==> times[i] - times[i - 1] >= 60.0 / rpm as real
    ensures AllowedAt(b, LimitOf(rpm), times, k)
  {
    var l := LimitOf(rpm);
    TokensInRange(b, l, times, k);
    RefillInRange(Before(b, l, times, k), l, times[k]);
    if k > 0 {
      SpacingGainsOne(rpm, times[k - 1], times[k]);
    }
  }

  /** After a minute without calls a bucket is full: it answers like a fresh one. */
  lemma IdleMinuteIsFresh(b: Bucket, rpm: nat, now: real)
    requires InRange(b, LimitOf(rpm)) && now - b.lastTime >= 60.0
    ensures Allows(b, LimitOf(rpm), now) == Allows(Fresh(LimitOf(rpm), now), LimitOf(rpm), now)
    ensures Called(b, LimitOf(rpm), now) == Called(Fresh(LimitOf(rpm), now), LimitOf(rpm), now)
  {
    var l := LimitOf(rpm);
    MinuteRefills(rpm, b.lastTime, now);
    GainIsMonotone(l, now, now, now);
    assert Refilled(b, l, now) == l.cap == Refilled(Fresh(l, now), l, now);
  }

  // ---------------------------------------------------------------- forgetting a bucket

  /** From now on the two buckets answer every sequence of calls alike. */
  ghost predicate AnswersAlike(b: Bucket, other: Bucket, l: Limit, now: real) {
    forall times: seq<real>, k: nat :: Monotone(times) && k < |times| && now <= times[0] ==>
      AllowedAt(b, l, times, k) == AllowedAt(other, l, times, k)
  }

  /**
   * A bucket can be forgotten, and a fresh one put in its place, without any later call noticing,
   * exactly when it was full again.
   */
  lemma ForgettableExactly(b: Bucket, rpm: nat, now: real)
    requires InRange(b, LimitOf(rpm)) && b.lastTime <= now
    ensures AnswersAlike(b, Fresh(LimitOf(rpm), now), LimitOf(rpm), now)
            <==> Refilled(b, LimitOf(rpm), now) >= LimitOf(rpm).cap
  {
    var l := LimitOf(rpm);
    if Refilled(b, l, now) >= l.cap {
      forall times: seq<real>, k: nat | Monotone(times) && k < |times| && now <= times[0]
        ensures AllowedAt(b, l, times, k) == AllowedAt(Fresh(l, now), l, times, k)
      {
        FullAnswersLikeFresh(b, l, now, times, k);
      }
    } else if AnswersAlike(b, Fresh(l, now), l, now) {
      BurstNotices(b, rpm, now);
    }
  }

  lemma {:induction false} FullAnswersLikeFresh(b: Bucket, l: Limit, now: real, times: seq<real>, k: nat)
    requires Sound(l) && b.lastTime <= now && Refilled(b, l, now) == l.cap
    requires Monotone(times) && k < |times| && now <= times[0]
    ensures k > 0 ==> Before(b, l, times, k) == Before(Fresh(l, now), l, times, k)
    ensures AllowedAt(b, l, times, k) == AllowedAt(Fresh(l, now), l, times, k)
  {
    GainIsMonotone(l, b.lastTime, now, times[0]);
    GainIsMonotone(l, now, now, times[0]);
    if k > 0 {
      FullAnswersLikeFresh(b, l, now, times, k - 1);
    }
  }

  /** In a burst of calls that are all allowed, each takes one token and none comes back. */
  lemma {:induction false} BurstTokens(b: Bucket, l: Limit, now: real, times: seq<real>, k: nat)
    requires forall i :: 0 <= i < |times| ==> times[i] == now
    requires k < |times| && forall i :: 0 <= i < k ==> AllowedAt(b, l, times, i)
    ensures Refilled(Before(b, l, times, k), l, now) == Refilled(b, l, now) - k as real
  {
    if k > 0 {
      BurstTokens(b, l, now, times, k - 1);
      assert AllowedAt(b, l, times, k - 1);
      assert Before(b, l, times, k).lastTime == now;
      assert Gain(l, now, now) == 0.0;
    }
  }

  lemma {:induction false} FreshBurstAllowed(rpm: nat, now: real, times: seq<real>, k: nat)
    requires forall i :: 0 <= i < |times| ==> times[i] == now
    requires k < |times| == rpm
    ensures forall i :: 0 <= i <= k ==> AllowedAt(Fresh(LimitOf(rpm), now), LimitOf(rpm), times, i)
  {
    if k > 0 {
      FreshBurstAllowed(rpm, now, times, k - 1);
    }
    BurstTokens(Fresh(LimitOf(rpm), now), LimitOf(rpm), now, times, k);
    assert Gain(LimitOf(rpm), now, now) == 0.0;
  }

  /** A burst of rpm calls tells a bucket that is not full from a fresh one. */
  lemma BurstNotices(b: Bucket, rpm: nat, now: real)
    requires AnswersAlike(b, Fresh(LimitOf(rpm), now), LimitOf(rpm), now)
    requires InRange(b, LimitOf(rpm)) && b.lastTime <= now
    ensures Refilled(b, LimitOf(rpm), now) >= LimitOf(rpm).cap
  {
    var l := LimitOf(rpm);
    RefillInRange(b, l, now);
    if rpm > 0 {
      var times := seq(rpm, _ => now);
      FreshBurstAllowed(rpm, now, times, rpm - 1);
      assert forall i: nat :: i < rpm ==> AllowedAt(b, l, times, i);
      BurstTokens(b, l, now, times, rpm - 1);
      assert AllowedAt(b, l, times, rpm - 1);
    }
  }
}
