/**
 * Fetching one EONET response with its retry budgets (fetchEONET in
 * api/internal/ingestor/eonet.go). Replies and interrupted sleeps are arbitrary.
 */
module Fetch {
  import opened Wrappers

  const MAX_RETRIES: nat := 3
  const MAX_TRANSIENT_RETRIES: nat := 2
  const MAX_RETRY_AFTER_SECONDS: nat := 60

  /** A body read within the size limit, or not. T is what the bytes decode to; None when they do not decode. */
  datatype Page<+T> = ReadFailed | Bytes(decoded: Option<T>)

  /** retryAfter is the hint of a 429 or 503 body, absent when unreadable. */
  datatype Reply<+T> = NetworkError | HttpReply(status: int, page: Page<T>, retryAfter: Option<int>)

  /** NoBody is the empty body the loop leaves behind when its last attempt was a retried one. */
  datatype Result<+T> = Failed | NoBody | Body(decoded: Option<T>)

  datatype Trace<+T> = Trace(result: Result<T>, requests: nat, slept: nat)

  predicate Transient<T>(r: Reply<T>) {
    r.NetworkError? || (500 <= r.status < 600 && r.status != 503)
  }

  predicate Busy<T>(r: Reply<T>) {
    r.HttpReply? && (r.status == 429 || r.status == 503)
  }

  function TransientDelay(transients: nat): nat { if transients == 0 then 5 else 15 }

  /** The hint plus five seconds, or 5, 10, 20 seconds without a usable hint. */
  function BusyDelay<T>(r: Reply<T>, attempt: nat): nat
    requires Busy(r) && attempt < MAX_RETRIES
  {
    if r.retryAfter.Some? && r.retryAfter.value > 0 then r.retryAfter.value + 5
    else if attempt == 0 then 5 else if attempt == 1 then 10 else 20
  }

  predicate HintTooLong<T>(r: Reply<T>)
    requires Busy(r)
  {
    r.retryAfter.Some? && r.retryAfter.value > MAX_RETRY_AFTER_SECONDS
  }

  /** What follows from an attempt with this many transient retries already used. */
  function Attempts<T>(replies: nat -> Reply<T>, sleepOk: nat -> bool, attempt: nat, transients: nat): Trace<T>
    requires attempt <= MAX_RETRIES + 1
    decreases MAX_RETRIES + 1 - attempt, 1
  {
    if attempt > MAX_RETRIES then Trace(NoBody, 0, 0)
    else
      var r := replies(attempt);
      if Transient(r) then
        if transients >= MAX_TRANSIENT_RETRIES then Trace(Failed, 1, 0)
        else Retry(replies, sleepOk, attempt, transients + 1, TransientDelay(transients))
      else if r.status == 200 then
        Trace(if r.page.ReadFailed? then Failed else Body(r.page.decoded), 1, 0)
      else if Busy(r) then
        if attempt == MAX_RETRIES || HintTooLong(r) then Trace(Failed, 1, 0)
        else Retry(replies, sleepOk, attempt, transients, BusyDelay(r, attempt))
      else Trace(Failed, 1, 0)
  }

  function Retry<T>(replies: nat -> Reply<T>, sleepOk: nat -> bool, attempt: nat, transients: nat, delay: nat): Trace<T>
    requires attempt <= MAX_RETRIES
    decreases MAX_RETRIES + 1 - attempt, 0
  {
    if !sleepOk(attempt) then Trace(Failed, 1, delay)
    else
      var rest := Attempts(replies, sleepOk, attempt + 1, transients);
      Trace(rest.result, rest.requests + 1, rest.slept + delay)
  }

  /** A fetch: a request that cannot be built fails before anything is sent. */
  function Fetched<T>(buildable: bool, replies: nat -> Reply<T>, sleepOk: nat -> bool): Trace<T> {
    if buildable then Attempts(replies, sleepOk, 0, 0) else Trace(Failed, 0, 0)
  }

  method FetchEONET<T>(buildable: bool, replies: nat -> Reply<T>, sleepOk: nat -> bool)
    returns (result: Result<T>, requests: nat, slept: nat)
    ensures Trace(result, requests, slept) == Fetched(buildable, replies, sleepOk)
  {
    if !buildable {
      return Failed, 0, 0;
    }
    result, requests, slept := FetchFrom(replies, sleepOk, 0, 0);
  }

  /** The retry loop, from an attempt on, with some transient retries used before it. */
  method FetchFrom<T>(replies: nat -> Reply<T>, sleepOk: nat -> bool, first: nat, used: nat)
    returns (result: Result<T>, requests: nat, slept: nat)
    requires first <= MAX_RETRIES + 1
    ensures Trace(result, requests, slept) == Attempts(replies, sleepOk, first, used)
  {
    var transients: nat := used;
    requests, slept := 0, 0;
    var attempt: nat := first;
    ghost var whole := Attempts(replies, sleepOk, attempt, transients);
    while attempt <= MAX_RETRIES
      invariant attempt <= MAX_RETRIES + 1
      invariant var rest := Attempts(replies, sleepOk, attempt, transients);
                whole == Trace(rest.result, requests + rest.requests, slept + rest.slept)
    {
      var r := replies(attempt);
      ghost var onward := Attempts(replies, sleepOk, attempt, transients);
      requests := requests + 1;
      if r.HttpReply? && r.status == 200 {
        return if r.page.ReadFailed? then Failed else Body(r.page.decoded), requests, slept;
      }
      var delay: nat;
      if r.HttpReply? && (r.status == 429 || r.status == 503) {
        if attempt == MAX_RETRIES || HintTooLong(r) {
          return Failed, requests, slept;
        }
        delay := BusyDelay(r, attempt);
      } else if r.NetworkError? || 500 <= r.status < 600 {
        if transients >= MAX_TRANSIENT_RETRIES {
          return Failed, requests, slept;
        }
        delay := TransientDelay(transients);
        transients := transients + 1;
      } else {
        return Failed, requests, slept;
      }
      assert onward == Retry(replies, sleepOk, attempt, transients, delay);
      slept := slept + delay;
      if !sleepOk(attempt) {
        return Failed, requests, slept;
      }
      attempt := attempt + 1;
    }
    return NoBody, requests, slept;
  }

  // ---------------------------------------------------------------- bounds

  /** The most that can still be slept: full hints up to the last attempt, then one transient delay. */
  function SleepBound(attempt: nat, transients: nat): nat {
    if attempt > MAX_RETRIES then 0
    else (MAX_RETRIES - attempt) * (MAX_RETRY_AFTER_SECONDS + 5)
         + if transients < MAX_TRANSIENT_RETRIES then TransientDelay(transients) else 0
  }

  lemma {:induction false} AttemptsBounded<T>(replies: nat -> Reply<T>, sleepOk: nat -> bool, attempt: nat, transients: nat)
    requires attempt <= MAX_RETRIES + 1
    ensures Attempts(replies, sleepOk, attempt, transients).requests <= MAX_RETRIES + 1 - attempt
    ensures Attempts(replies, sleepOk, attempt, transients).slept <= SleepBound(attempt, transients)
    decreases MAX_RETRIES + 1 - attempt
  {
    if attempt <= MAX_RETRIES {
      var r := replies(attempt);
      if Transient(r) {
        AttemptsBounded(replies, sleepOk, attempt + 1, transients + 1);
      } else {
        AttemptsBounded(replies, sleepOk, attempt + 1, transients);
      }
    }
  }

  /** At most four requests and 200 seconds of sleep, whatever the server does. */
  lemma FetchBounded<T>(buildable: bool, replies: nat -> Reply<T>, sleepOk: nat -> bool)
    ensures Fetched(buildable, replies, sleepOk).requests <= 4
    ensures Fetched(buildable, replies, sleepOk).slept <= 200
  {
    AttemptsBounded(replies, sleepOk, 0, 0);
  }

  /** Both bounds are reached: three hints of 60 seconds, then one server error. */
  lemma BoundsAreTight<T>(replies: nat -> Reply<T>, sleepOk: nat -> bool)
    requires forall a: nat :: sleepOk(a)
    requires forall a: nat :: a < 3 ==> replies(a) == HttpReply(429, ReadFailed, Some(60))
    requires replies(3) == HttpReply(500, ReadFailed, None)
    ensures Attempts(replies, sleepOk, 0, 0) == Trace(NoBody, 4, 200)
  {
    assert Attempts(replies, sleepOk, 4, 1) == Trace(NoBody, 0, 0);
    assert Attempts(replies, sleepOk, 3, 0) == Trace(NoBody, 1, 5);
    assert Attempts(replies, sleepOk, 2, 0) == Trace(NoBody, 2, 70);
    assert Attempts(replies, sleepOk, 1, 0) == Trace(NoBody, 3, 135);
  }

  // ---------------------------------------------------------------- the empty body

  /** The reply of this attempt leads to another attempt, as long as transient retries are left. */
  predicate Retried<T>(r: Reply<T>, attempt: nat) {
    Transient(r) || (Busy(r) && attempt < MAX_RETRIES && !HintTooLong(r))
  }

  function TransientsFrom<T>(replies: nat -> Reply<T>, attempt: nat): nat
    decreases MAX_RETRIES + 1 - attempt
  {
    if attempt > MAX_RETRIES then 0
    else TransientsFrom(replies, attempt + 1) + if Transient(replies(attempt)) then 1 else 0
  }

  /** Every attempt from here on is retried, and no sleep is interrupted. */
  predicate AllRetried<T>(replies: nat -> Reply<T>, sleepOk: nat -> bool, attempt: nat)
    decreases MAX_RETRIES + 1 - attempt
  {
    attempt > MAX_RETRIES
    || (Retried(replies(attempt), attempt) && sleepOk(attempt) && AllRetried(replies, sleepOk, attempt + 1))
  }

  lemma {:induction false} NoBodyFrom<T>(replies: nat -> Reply<T>, sleepOk: nat -> bool, attempt: nat, transients: nat)
    requires attempt <= MAX_RETRIES + 1 && transients <= MAX_TRANSIENT_RETRIES
    ensures Attempts(replies, sleepOk, attempt, transients).result.NoBody?
       <==> (&& AllRetried(replies, sleepOk, attempt)
             && transients + TransientsFrom(replies, attempt) <= MAX_TRANSIENT_RETRIES)
    decreases MAX_RETRIES + 1 - attempt
  {
    if attempt <= MAX_RETRIES {
      if !Transient(replies(attempt)) {
        NoBodyFrom(replies, sleepOk, attempt + 1, transients);
      } else if transients < MAX_TRANSIENT_RETRIES {
        NoBodyFrom(replies, sleepOk, attempt + 1, transients + 1);
      }
    }
  }

  /**
   * The fetch ends with no error and an empty body exactly when all four attempts are retried, the
   * last one necessarily for a transient error, with at most two transient errors in all.
   */
  lemma EmptyBodyExactly<T>(buildable: bool, replies: nat -> Reply<T>, sleepOk: nat -> bool)
    ensures Fetched(buildable, replies, sleepOk).result.NoBody?
       <==> (&& buildable
             && (forall a: nat :: a <= MAX_RETRIES ==> Retried(replies(a), a) && sleepOk(a))
             && TransientsFrom(replies, 0) <= MAX_TRANSIENT_RETRIES)
    ensures Fetched(buildable, replies, sleepOk).result.NoBody? ==> Transient(replies(MAX_RETRIES))
  {
    NoBodyFrom(replies, sleepOk, 0, 0);
    AllRetriedIsForall(replies, sleepOk, 0);
    assert Retried(replies(MAX_RETRIES), MAX_RETRIES) <==> Transient(replies(MAX_RETRIES));
  }

  lemma {:induction false} AllRetriedIsForall<T>(replies: nat -> Reply<T>, sleepOk: nat -> bool, attempt: nat)
    ensures AllRetried(replies, sleepOk, attempt)
       <==> forall a: nat :: attempt <= a <= MAX_RETRIES ==> Retried(replies(a), a) && sleepOk(a)
    decreases MAX_RETRIES + 1 - attempt
  {
    if attempt <= MAX_RETRIES {
      AllRetriedIsForall(replies, sleepOk, attempt + 1);
    }
  }

  /** 429, 429, 500, 500: no error, and no body either. */
  lemma MixedFailuresLeaveNoBody<T>(replies: nat -> Reply<T>, sleepOk: nat -> bool)
    requires forall a: nat :: sleepOk(a)
    requires replies(0) == replies(1) == HttpReply(429, ReadFailed, None)
    requires replies(2) == replies(3) == HttpReply(500, ReadFailed, None)
    ensures Attempts(replies, sleepOk, 0, 0).result == NoBody
  {
    NoBodyFrom(replies, sleepOk, 0, 0);
    assert AllRetried(replies, sleepOk, 4) && TransientsFrom(replies, 4) == 0;
    assert AllRetried(replies, sleepOk, 3) && TransientsFrom(replies, 3) == 1;
    assert AllRetried(replies, sleepOk, 2) && TransientsFrom(replies, 2) == 2;
    assert AllRetried(replies, sleepOk, 1) && TransientsFrom(replies, 1) == 2;
  }

  /** A body is returned only from a reply with status 200 that could be read. */
  lemma {:induction false} BodyComesFromOk<T>(replies: nat -> Reply<T>, sleepOk: nat -> bool, attempt: nat, transients: nat)
    requires attempt <= MAX_RETRIES + 1 && Attempts(replies, sleepOk, attempt, transients).result.Body?
    ensures exists a: nat :: attempt <= a <= MAX_RETRIES && replies(a).HttpReply? && replies(a).status == 200
              && replies(a).page == Bytes(Attempts(replies, sleepOk, attempt, transients).result.decoded)
    decreases MAX_RETRIES + 1 - attempt
  {
    var r := replies(attempt);
    if Transient(r) {
      BodyComesFromOk(replies, sleepOk, attempt + 1, transients + 1);
    } else if r.status != 200 {
      BodyComesFromOk(replies, sleepOk, attempt + 1, transients);
    }
  }

  // ---------------------------------------------------------------- the documented retries

  /** Worth the small budget of two: a network error, or any server error but 503. */
  predicate Dropped<T>(r: Reply<T>) {
    match r
    case NetworkError => true
    case HttpReply(status, _, _) => 500 <= status <= 599 && status != 503
  }

  /** Told to come back, before the last attempt and within a minute: 429 and 503. */
  predicate Deferred<T>(r: Reply<T>, attempt: nat) {
    match r
    case NetworkError => false
    case HttpReply(status, _, hint) => status in {429, 503} && attempt < 3 && (hint.None? || hint.value <= 60)
  }

  /** Seconds to wait: 5, then 15, after a drop; the hint and 5 more, or 5, 10, 20, when deferred. */
  function Wait<T>(r: Reply<T>, attempt: nat, drops: nat): nat {
    if Dropped(r) then (if drops == 0 then 5 else 15)
    else if r.HttpReply? && r.retryAfter.Some? && r.retryAfter.value >= 1 then r.retryAfter.value + 5
    else match attempt case 0 => 5 case 1 => 10 case _ => 20
  }

  predicate Retries<T>(r: Reply<T>, attempt: nat, drops: nat) { Deferred(r, attempt) || (Dropped(r) && drops < 2) }

  /** One attempt: a readable 200 ends it with its body, a reply worth it is waited for, anything else fails. */
  lemma AttemptExactly<T>(replies: nat -> Reply<T>, sleepOk: nat -> bool, attempt: nat, drops: nat)
    requires attempt <= 3
    ensures var r := replies(attempt);
            var rest := Attempts(replies, sleepOk, attempt + 1, if Dropped(r) then drops + 1 else drops);
            var wait := Wait(r, attempt, drops);
            Attempts(replies, sleepOk, attempt, drops)
            == if r.HttpReply? && r.status == 200 then Trace(if r.page.Bytes? then Body(r.page.decoded) else Failed, 1, 0)
               else if !Retries(r, attempt, drops) then Trace(Failed, 1, 0)
               else if !sleepOk(attempt) then Trace(Failed, 1, wait)
               else Trace(rest.result, 1 + rest.requests, wait + rest.slept)
  {
  }

  function Drops<T>(replies: nat -> Reply<T>, attempt: nat): nat {
    if attempt == 0 then 0 else Drops(replies, attempt - 1) + if Dropped(replies(attempt - 1)) then 1 else 0
  }

  /** The attempts before this one were all retried, and none of the waits was interrupted. */
  predicate Comes<T>(replies: nat -> Reply<T>, sleepOk: nat -> bool, attempt: nat) {
    forall k: nat :: k < attempt ==> Retries(replies(k), k, Drops(replies, k)) && sleepOk(k)
  }

  predicate HoldsBody<T(==)>(r: Reply<T>, decoded: Option<T>) { r.HttpReply? && r.status == 200 && r.page == Bytes(decoded) }

  lemma {:induction false} ResultFrom<T>(replies: nat -> Reply<T>, sleepOk: nat -> bool, attempt: nat)
    requires attempt <= 4 && Comes(replies, sleepOk, attempt)
    ensures Attempts(replies, sleepOk, 0, 0).result == Attempts(replies, sleepOk, attempt, Drops(replies, attempt)).result
  {
    if attempt > 0 {
      ResultFrom(replies, sleepOk, attempt - 1);
      AttemptExactly(replies, sleepOk, attempt - 1, Drops(replies, attempt - 1));
    }
  }

  lemma {:induction false} BodyFrom<T>(replies: nat -> Reply<T>, sleepOk: nat -> bool, attempt: nat, decoded: Option<T>)
    requires attempt <= 4 && Comes(replies, sleepOk, attempt)
    requires Attempts(replies, sleepOk, attempt, Drops(replies, attempt)).result == Body(decoded)
    ensures exists a: nat :: a <= 3 && Comes(replies, sleepOk, a) && HoldsBody(replies(a), decoded)
    decreases 4 - attempt
  {
    if attempt <= 3 && !HoldsBody(replies(attempt), decoded) {
      AttemptExactly(replies, sleepOk, attempt, Drops(replies, attempt));
      BodyFrom(replies, sleepOk, attempt + 1, decoded);
    }
  }

  /** A body is returned exactly when one of the four attempts comes about and is answered with it. */
  lemma BodyExactly<T>(buildable: bool, replies: nat -> Reply<T>, sleepOk: nat -> bool, decoded: Option<T>)
    ensures Fetched(buildable, replies, sleepOk).result == Body(decoded)
            <==> buildable && exists a: nat :: a <= 3 && Comes(replies, sleepOk, a) && HoldsBody(replies(a), decoded)
  {
    if Attempts(replies, sleepOk, 0, 0).result == Body(decoded) {
      BodyFrom(replies, sleepOk, 0, decoded);
    }
    if a: nat :| a <= 3 && Comes(replies, sleepOk, a) && HoldsBody(replies(a), decoded) {
      ResultFrom(replies, sleepOk, a);
      AttemptExactly(replies, sleepOk, a, Drops(replies, a));
    }
  }
}
