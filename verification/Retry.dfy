/** One hook invocation against an arbitrary scanner and clock: bounded retries, one
    registration recovery, a shared deadline (src/hooks.rs:354-404, 455-484). Times are in
    milliseconds. */
module Retry {
  import opened Octets

  datatype Failure = ConnectFailed | Status(code: nat) | TimedOut | OtherFailure

  datatype Response = Answer | NoContent | Failed(failure: Failure, retryAfter: Option<nat>)

  /** Timeouts are excluded: the scanner may still be working on the first attempt. */
  predicate Transient(f: Failure) {
    f.ConnectFailed? || (f.Status? && (f.code == 429 || 500 <= f.code < 600))
  }

  /** The scanner no longer knows the registration. */
  predicate Unregistered(f: Failure) {
    f.Status? && (f.code == 404 || f.code == 410)
  }

  const RETRY_BASE: nat := 100
  const RETRY_MAX: nat := 5000
  const RETRY_JITTER: nat := 100

  function Power(n: nat): (r: nat)
    ensures r >= 1
  {
    if n == 0 then 1 else 2 * Power(n - 1)
  }

  function Min(a: nat, b: nat): nat {
    if a < b then a else b
  }

  function Max(a: nat, b: nat): nat {
    if a < b then b else a
  }

  /** Exponential in the attempt, at least what the scanner asked for, capped, plus jitter. */
  function Backoff(attempt: nat, retryAfter: Option<nat>, random: nat): (delay: nat)
    ensures RETRY_BASE <= delay < RETRY_MAX + RETRY_JITTER
    ensures retryAfter.Some? && retryAfter.value <= RETRY_MAX ==> delay >= retryAfter.value
  {
    var exponential := RETRY_BASE * Power(Min(if attempt == 0 then 0 else attempt - 1, 16));
    var wanted := if retryAfter.Some? then retryAfter.value else 0;
    Min(Max(exponential, wanted), RETRY_MAX) + random % RETRY_JITTER
  }

  /** 100, 200, 400, 800, 1600, 3200 and then 5000 milliseconds. */
  function Schedule(attempt: nat): nat {
    if attempt <= 1 then 100
    else if attempt == 2 then 200
    else if attempt == 3 then 400
    else if attempt == 4 then 800
    else if attempt == 5 then 1600
    else if attempt == 6 then 3200
    else 5000
  }

  /** The larger of the schedule and of what the scanner asked for, at most five seconds, plus less
      than a tenth of a second. */
  function Pause(attempt: nat, retryAfter: Option<nat>, random: nat): nat {
    var asked := if retryAfter.None? then 0 else if retryAfter.value > 5000 then 5000 else retryAfter.value;
    (if asked > Schedule(attempt) then asked else Schedule(attempt)) + random % 100
  }

  lemma {:induction false} PowerGrows(a: nat, b: nat)
    requires a <= b
    ensures Power(a) <= Power(b)
  {
    if a < b {
      PowerGrows(a, b - 1);
    }
  }

  lemma {:induction false} PowerOf(n: nat)
    ensures n == 0 ==> Power(n) == 1
    ensures n > 0 ==> Power(n) == 2 * Power(n - 1)
  {
  }

  lemma {:induction false} BackoffExact(attempt: nat, retryAfter: Option<nat>, random: nat)
    ensures Backoff(attempt, retryAfter, random) == Pause(attempt, retryAfter, random)
  {
    PowerOf(0);
    PowerOf(1);
    PowerOf(2);
    PowerOf(3);
    PowerOf(4);
    PowerOf(5);
    PowerOf(6);
    if attempt >= 7 {
      PowerGrows(6, Min(attempt - 1, 16));
    }
  }

  // ---- The record of an invocation ----------------------------------------

  /** What follows a hook request: the end of the invocation, because nothing more may be
      tried or because the delay would reach the deadline, or another request. */
  datatype Then = Stop | TooLate(now: nat, delay: nat) | Recover | Sleep(now: nat, delay: nat)

  datatype Attempt = Attempt(registration: nat, request: nat, response: Response, next: Then)

  /** Either no registration could be had, or the last response decides. */
  datatype Ending = Unavailable(error: Error) | Decided(response: Response)

  function Recoveries(attempts: seq<Attempt>): nat {
    if attempts == [] then 0
    else Recoveries(attempts[..|attempts| - 1]) + if attempts[|attempts| - 1].next.Recover? then 1 else 0
  }

  function Sleeps(attempts: seq<Attempt>): nat {
    if attempts == [] then 0
    else Sleeps(attempts[..|attempts| - 1]) + if attempts[|attempts| - 1].next.Sleep? then 1 else 0
  }

  predicate Continues(a: Attempt) {
    a.next.Recover? || a.next.Sleep?
  }

  /** The scanner could not be reached, is busy (429) or failed (5xx). */
  predicate MayPass(r: Response) {
    r.Failed? && (r.failure.ConnectFailed? || (r.failure.Status? && (r.failure.code == 429 || 500 <= r.failure.code <= 599)))
  }

  /** The scanner does not know the registration: 404 or 410. */
  predicate Forgotten(r: Response) {
    r.Failed? && r.failure.Status? && (r.failure.code == 404 || r.failure.code == 410)
  }

  /** An attempt followed by another one was allowed to be: the registration was unknown, or
      the failure was transient and the sleep ends before the deadline. */
  predicate Justified(a: Attempt, request: nat, deadline: nat) {
    && a.request == request
    && (a.next.Recover? ==> Forgotten(a.response))
    && (a.next.Sleep? ==> MayPass(a.response))
    && (a.next.Sleep? ==> a.next.now + a.next.delay < deadline && a.next.delay < 5100)
    && (a.next.TooLate? ==> MayPass(a.response) && a.next.now + a.next.delay >= deadline)
  }

  /** Every attempt before the last led to the next one. */
  predicate Chain(attempts: seq<Attempt>, request: nat, deadline: nat) {
    && (forall k :: 0 <= k < |attempts| ==> Justified(attempts[k], request, deadline))
    && (forall k :: 0 <= k < |attempts| - 1 ==> Continues(attempts[k]))
  }

  /** Giving up is justified too: the answer came, the one recovery or all retries are used
      up, or the failure is of a kind that is never retried. */
  predicate Exhausted(response: Response, recoveries: nat, sleeps: nat, retries: nat) {
    (Forgotten(response) ==> recoveries == 1) && (MayPass(response) ==> sleeps == retries)
  }

  lemma {:induction false} CountSnoc(attempts: seq<Attempt>, a: Attempt)
    ensures Recoveries(attempts + [a]) == Recoveries(attempts) + if a.next.Recover? then 1 else 0
    ensures Sleeps(attempts + [a]) == Sleeps(attempts) + if a.next.Sleep? then 1 else 0
  {
    assert (attempts + [a])[..|attempts|] == attempts;
  }

  /** So far only recoveries and sleeps, as many as counted. */
  predicate Trying(attempts: seq<Attempt>, request: nat, deadline: nat, recovered: bool, tries: nat) {
    && Chain(attempts, request, deadline)
    && (attempts != [] ==> Continues(attempts[|attempts| - 1]))
    && Recoveries(attempts) == (if recovered then 1 else 0)
    && Sleeps(attempts) == tries
    && |attempts| == tries + if recovered then 1 else 0
  }

  lemma {:induction false} TryingSnoc(attempts: seq<Attempt>, a: Attempt, request: nat, deadline: nat, recovered: bool, tries: nat)
    requires Trying(attempts, request, deadline, recovered, tries) && Justified(a, request, deadline)
    ensures Chain(attempts + [a], request, deadline)
    ensures a.next.Recover? && !recovered ==> Trying(attempts + [a], request, deadline, true, tries)
    ensures a.next.Sleep? ==> Trying(attempts + [a], request, deadline, recovered, tries + 1)
    ensures !Continues(a) ==>
              Recoveries(attempts + [a]) == Recoveries(attempts) && Sleeps(attempts + [a]) == Sleeps(attempts)
  {
    CountSnoc(attempts, a);
  }

  /** Attempt `k` used the registration in force: the first one until the recovery, then the
      one obtained by it; its response is the scanner's. */
  predicate Faithful(attempts: seq<Attempt>, k: nat, registered: nat -> Result<nat>, hook: (nat, nat) -> Response)
    requires k < |attempts|
  {
    && registered(Recoveries(attempts[..k])) == Ok(attempts[k].registration)
    && attempts[k].response == hook(k, attempts[k].registration)
  }

  predicate AllFaithful(attempts: seq<Attempt>, registered: nat -> Result<nat>, hook: (nat, nat) -> Response) {
    forall k: nat {:trigger Faithful(attempts, k, registered, hook)} :: k < |attempts| ==> Faithful(attempts, k, registered, hook)
  }

  lemma {:induction false} FaithfulSnoc(
    attempts: seq<Attempt>, a: Attempt, registered: nat -> Result<nat>, hook: (nat, nat) -> Response)
    requires AllFaithful(attempts, registered, hook)
    requires registered(Recoveries(attempts)) == Ok(a.registration) && a.response == hook(|attempts|, a.registration)
    ensures AllFaithful(attempts + [a], registered, hook)
  {
    var all := attempts + [a];
    forall k: nat | k < |all|
      ensures Faithful(all, k, registered, hook)
    {
      if k < |attempts| {
        assert Faithful(attempts, k, registered, hook);
        assert all[..k] == attempts[..k];
      } else {
        assert all[..k] == attempts;
      }
    }
  }

  /** Attempt `k` looked at the clock, and at the delay that is due after as many sleeps. */
  predicate Paced(attempts: seq<Attempt>, k: nat, clock: nat -> nat, random: nat -> nat)
    requires k < |attempts|
  {
    var a, sleeps := attempts[k], Sleeps(attempts[..k]);
    a.next.Sleep? || a.next.TooLate? ==>
      && a.response.Failed? && a.next.now == clock(k)
      && a.next.delay == Pause(sleeps + 1, a.response.retryAfter, random(sleeps))
  }

  predicate AllPaced(attempts: seq<Attempt>, clock: nat -> nat, random: nat -> nat) {
    forall k: nat {:trigger Paced(attempts, k, clock, random)} :: k < |attempts| ==> Paced(attempts, k, clock, random)
  }

  lemma {:induction false} PacedSnoc(attempts: seq<Attempt>, a: Attempt, clock: nat -> nat, random: nat -> nat)
    requires AllPaced(attempts, clock, random)
    requires a.next.Sleep? || a.next.TooLate? ==>
               && a.response.Failed? && a.next.now == clock(|attempts|)
               && a.next.delay == Pause(Sleeps(attempts) + 1, a.response.retryAfter, random(Sleeps(attempts)))
    ensures AllPaced(attempts + [a], clock, random)
  {
    var all := attempts + [a];
    forall k: nat | k < |all|
      ensures Paced(all, k, clock, random)
    {
      if k < |attempts| {
        assert Paced(attempts, k, clock, random);
        assert all[..k] == attempts[..k];
      } else {
        assert all[..k] == attempts;
      }
    }
  }

  /** Every attempt is as the scanner, the registration, the clock and the jitter had it. */
  predicate Recorded(
    attempts: seq<Attempt>, registered: nat -> Result<nat>, hook: (nat, nat) -> Response, clock: nat -> nat, random: nat -> nat)
  {
    AllFaithful(attempts, registered, hook) && AllPaced(attempts, clock, random)
  }

  lemma {:induction false} RecordedSnoc(
    attempts: seq<Attempt>, a: Attempt,
    registered: nat -> Result<nat>, hook: (nat, nat) -> Response, clock: nat -> nat, random: nat -> nat)
    requires Recorded(attempts, registered, hook, clock, random)
    requires registered(Recoveries(attempts)) == Ok(a.registration) && a.response == hook(|attempts|, a.registration)
    requires a.next.Sleep? || a.next.TooLate? ==>
               && a.response.Failed? && a.next.now == clock(|attempts|)
               && a.next.delay == Pause(Sleeps(attempts) + 1, a.response.retryAfter, random(Sleeps(attempts)))
    ensures Recorded(attempts + [a], registered, hook, clock, random)
  {
    FaithfulSnoc(attempts, a, registered, hook);
    PacedSnoc(attempts, a, clock, random);
  }

  /** What follows a response after `tries` sleeps: one recovery, a sleep or the end. */
  method Judge(a: Attempt, retries: nat, tries: nat, recovered: bool, deadline: nat, now: nat, random: nat)
    returns (r: Attempt)
    requires tries <= retries && a.next.Stop?
    ensures r.(next := Stop) == a && Justified(r, a.request, deadline)
    ensures r.next.Recover? ==> !recovered
    ensures r.next.Sleep? ==> tries < retries
    ensures r.next.Sleep? || r.next.TooLate? ==>
              r.response.Failed? && r.next.now == now && r.next.delay == Pause(tries + 1, r.response.retryAfter, random)
    ensures r.next.Stop? ==> (Forgotten(a.response) ==> recovered) && (MayPass(a.response) ==> tries == retries)
  {
    r := a;
    if a.response.Failed? && Unregistered(a.response.failure) && !recovered {
      r := a.(next := Recover);
    } else if a.response.Failed? && Transient(a.response.failure) && tries < retries {
      var delay := Backoff(tries + 1, a.response.retryAfter, random);
      BackoffExact(tries + 1, a.response.retryAfter, random);
      r := a.(next := if now + delay >= deadline then TooLate(now, delay) else Sleep(now, delay));
    }
  }

  /** `invoke`. The scanner (`hook`), the registration (`registered`, which includes building
      the request body), the clock and the jitter are arbitrary. */
  method Invoke(
    retries: nat, timeout: nat, start: nat, request: nat,
    registered: nat -> Result<nat>, hook: (nat, nat) -> Response, clock: nat -> nat, random: nat -> nat)
    returns (attempts: seq<Attempt>, ending: Ending)
    ensures |attempts| <= retries + 2
    ensures Recoveries(attempts) <= 1 && Sleeps(attempts) <= retries
    ensures Chain(attempts, request, start + timeout) && Recorded(attempts, registered, hook, clock, random)
    ensures ending.Decided? ==>
              && attempts != [] && ending.response == attempts[|attempts| - 1].response
              && !Continues(attempts[|attempts| - 1])
    ensures ending.Decided? && attempts[|attempts| - 1].next.Stop? ==>
              Exhausted(ending.response, Recoveries(attempts), Sleeps(attempts), retries)
    ensures ending.Unavailable? ==> registered(Recoveries(attempts)) == Err(ending.error)
    ensures ending.Unavailable? ==> attempts == [] || attempts[|attempts| - 1].next.Recover?
  {
    var deadline := start + timeout;
    attempts := [];
    var first := registered(0);
    if first.Err? {
      return [], Unavailable(first.error);
    }
    var registration := first.value;
    var recovered, tries := false, 0;
    while true
      invariant registered(if recovered then 1 else 0) == Ok(registration)
      invariant tries <= retries && Trying(attempts, request, deadline, recovered, tries)
      invariant Recorded(attempts, registered, hook, clock, random)
      decreases retries - tries, !recovered
    {
      var response := hook(|attempts|, registration);
      var attempt := Judge(Attempt(registration, request, response, Stop), retries, tries, recovered, deadline,
                           clock(|attempts|), random(tries));
      RecordedSnoc(attempts, attempt, registered, hook, clock, random);
      TryingSnoc(attempts, attempt, request, deadline, recovered, tries);
      attempts := attempts + [attempt];
      if !Continues(attempt) {
        return attempts, Decided(response);
      }
      if attempt.next.Sleep? {
        tries := tries + 1;
      } else {
        recovered := true;
        var again := registered(1);
        if again.Err? {
          return attempts, Unavailable(again.error);
        }
        registration := again.value;
      }
    }
  }

  /** A timed-out request is never repeated: it is the last one. */
  lemma {:induction false} NoRetryAfterTimeout(attempts: seq<Attempt>, request: nat, deadline: nat, k: nat)
    requires Chain(attempts, request, deadline)
    requires k < |attempts| && attempts[k].response.Failed? && attempts[k].response.failure.TimedOut?
    ensures k == |attempts| - 1
  {
    assert Justified(attempts[k], request, deadline);
  }
}
