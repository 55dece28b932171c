/** The connection driver (src/server.rs:91-191): read a frame, let the session handle it, ask
    the policy, reply. The policy is arbitrary: it may answer anything, fail or time out. */
module Driver {
  import opened Octets
  import opened Wire
  import opened Protocol
  import opened SessionInvariant
  import S = Sessions

  /** One evaluation of the policy: keepalive ticks before it ended, and how it ended. */
  datatype Evaluation = Evaluation(ticks: nat, result: Result<Decision>)

  /** A command with everything written in response to it. */
  datatype Exchange = Exchange(command: Command, frames: seq<Frame>)

  datatype Served = Served(session: Session, frames: seq<Frame>, close: bool)

  const CONTINUE := Decision(Continue, [])

  /** The decision that replaces a failed or invalid one. */
  function Fallback(failOpen: bool): Decision {
    Decision(if failOpen then Continue else Tempfail, [])
  }

  function Keepalives(n: nat): seq<Frame> {
    seq(n, _ => Empty(RPL_PROGRESS))
  }

  /** Only subscribed stages reach the policy. */
  function Ask(c: Config, stage: Stage, e: Evaluation): Evaluation {
    if stage in c.stages then e else Evaluation(0, Ok(CONTINUE))
  }

  function Try(c: Config, s: Session, d: Result<Decision>): Result<(Session, seq<Frame>)> {
    var decision :- d;
    Complete(c, s, decision)
  }

  /** Reply to a pending callback. */
  function Resolve(c: Config, failOpen: bool, s: Session, e: Evaluation): Result<(Session, seq<Frame>)> {
    match Try(c, s, e.result)
    case Ok(done) => Ok(done)
    case Err(_) => Complete(c, s, Fallback(failOpen))
  }

  function Serve(c: Config, failOpen: bool, s: Session, f: Frame, e: Evaluation): Result<Served> {
    var received :- Receive(c, s, f);
    var step := received.1;
    match step.event
    case None => Ok(Served(received.0, step.frames, step.close))
    case Some(stage) =>
      var asked := Ask(c, stage, e);
      var done :- Resolve(c, failOpen, received.0, asked);
      Ok(Served(done.0, Keepalives(asked.ticks) + (step.frames + done.1), step.close))
  }

  /** How a connection ends: normally, or with the error that closed it. */
  datatype Talk = Talk(exchanges: seq<Exchange>, end: Result<()>)

  function Say(e: Exchange, rest: Talk): Talk {
    Talk([e] + rest.exchanges, rest.end)
  }

  datatype Turn = Over(talk: Talk) | Next(exchange: Exchange, session: Session, rest: Bytes)

  /** One turn of the connection: the next frame, handled and answered. */
  function TakeTurn(c: Config, failOpen: bool, s: Session, input: Bytes, e: Evaluation): (r: Turn)
    ensures r.Next? ==> |r.rest| < |input|
  {
    match ReadFrame(input, c.limits.frameBytes)
    case Eof => Over(Talk([], Ok(())))
    case Failed(error) => Over(Talk([], Err(error)))
    case Got(f, rest) =>
      match Serve(c, failOpen, s, f, e)
      case Err(error) => Over(Talk([], Err(error)))
      case Ok(served) =>
        var exchange := Exchange(Decode(f, c.validIp).value, served.frames);
        if served.close then Over(Talk([exchange], Ok(()))) else Next(exchange, served.session, rest)
  }

  /** The conversation over an input stream; evaluation `k` is the policy's `k`-th turn. */
  function Converse(c: Config, failOpen: bool, s: Session, input: Bytes, policy: nat -> Evaluation, k: nat): Talk
    decreases |input|
  {
    match TakeTurn(c, failOpen, s, input, policy(k))
    case Over(talk) => talk
    case Next(exchange, session, rest) => Say(exchange, Converse(c, failOpen, session, rest, policy, k + 1))
  }

  // ---- Time ---------------------------------------------------------------

  /** Milliseconds. Without an interval no keepalive is sent. */
  datatype Timing = Timing(deadline: nat, interval: Option<nat>)

  /** A ticker needs a positive period. */
  predicate Ticks(t: Timing) {
    t.interval.Some? ==> t.interval.value > 0
  }

  /** What the policy would do: when it is done, if ever, and with what; and how the `k`-th
      keepalive write goes: the time it takes or its error. */
  datatype Effort = Effort(finish: Option<nat>, outcome: Result<Decision>, write: nat -> Result<nat>)

  /** When waiting ends unless a write is slow. */
  function End(t: Timing, e: Effort): (r: nat)
    ensures r <= t.deadline
  {
    if e.finish.Some? && e.finish.value <= t.deadline then e.finish.value else t.deadline
  }

  /** The evaluation as found at a time when waiting is over: a finished policy comes first. */
  function Found(e: Effort, now: nat): Result<Decision> {
    if e.finish.Some? && e.finish.value <= now then e.outcome else Err(Timeout)
  }

  function Tick(e: Evaluation): Evaluation {
    Evaluation(e.ticks + 1, e.result)
  }

  /** Watching from time `now`, the next tick due at `due`, `k` keepalives written: a tick that
      is late counts from when it fires. */
  function Watch(t: Timing, e: Effort, now: nat, due: nat, k: nat): Evaluation
    requires Ticks(t)
    decreases End(t, e) - due
  {
    var end := End(t, e);
    if t.interval.None? || end <= due || end <= now then Evaluation(0, Found(e, if end <= now then now else end))
    else
      var fired := if now < due then due else now;
      match e.write(k)
      case Err(error) => Evaluation(0, Err(error))
      case Ok(spent) => Tick(Watch(t, e, fired + spent, fired + t.interval.value, k + 1))
  }

  /** What the driver sees of an effort. */
  function Evaluated(t: Timing, e: Effort): Evaluation
    requires Ticks(t)
  {
    Watch(t, e, 0, if t.interval.Some? then t.interval.value else 0, 0)
  }

  lemma {:induction false} WatchBound(t: Timing, e: Effort, now: nat, due: nat, k: nat)
    requires Ticks(t)
    ensures var r := Watch(t, e, now, due, k);
            r.ticks > 0 ==> t.interval.Some? && due + (r.ticks - 1) * t.interval.value < End(t, e)
    decreases End(t, e) - due
  {
    var end := End(t, e);
    if t.interval.Some? && due < end && now < end && e.write(k).Ok? {
      var fired := if now < due then due else now;
      var rest := Watch(t, e, fired + e.write(k).value, fired + t.interval.value, k + 1);
      WatchBound(t, e, fired + e.write(k).value, fired + t.interval.value, k + 1);
      if rest.ticks > 0 {
        assert rest.ticks * t.interval.value == (rest.ticks - 1) * t.interval.value + t.interval.value;
      }
    }
  }

  lemma {:induction false} WatchResult(t: Timing, e: Effort, now: nat, due: nat, k: nat)
    requires Ticks(t)
    ensures var r := Watch(t, e, now, due, k).result;
            && (e.finish.None? ==> r.Err?)
            && ((forall i: nat :: e.write(i).Ok?) ==> r == e.outcome || r == Err(Timeout))
            && ((forall i: nat :: e.write(i).Ok?) && e.finish.Some? && e.finish.value <= t.deadline ==> r == e.outcome)
    decreases End(t, e) - due
  {
    var end := End(t, e);
    if t.interval.Some? && due < end && now < end && e.write(k).Ok? {
      var fired := if now < due then due else now;
      WatchResult(t, e, fired + e.write(k).value, fired + t.interval.value, k + 1);
    }
  }

  /** Keepalives are an interval apart and stop before the deadline. While writes succeed, a
      policy done by the deadline gets its outcome through; one that is never done fails. */
  lemma {:induction false} ProgressBounded(t: Timing, e: Effort)
    requires Ticks(t)
    ensures var r := Evaluated(t, e);
            && (r.ticks > 0 ==> t.interval.Some? && r.ticks * t.interval.value < t.deadline)
            && (e.finish.None? ==> r.result.Err?)
            && ((forall i: nat :: e.write(i).Ok?) && e.finish.Some? && e.finish.value <= t.deadline ==> r.result == e.outcome)
  {
    var due := if t.interval.Some? then t.interval.value else 0;
    WatchBound(t, e, 0, due, 0);
    WatchResult(t, e, 0, due, 0);
    var n := Evaluated(t, e).ticks;
    if n > 0 {
      assert n * due == (n - 1) * due + due;
    }
  }

  lemma {:induction false} WatchExact(t: Timing, e: Effort, now: nat, due: nat, k: nat, i: nat)
    requires Ticks(t) && t.interval == Some(i) && now <= due && (forall k: nat :: e.write(k) == Ok(0))
    ensures var end := End(t, e);
            Watch(t, e, now, due, k).ticks == if end <= due || end <= now then 0 else (end - 1 - due) / i + 1
    decreases End(t, e) - due
  {
    var end := End(t, e);
    if due < end && now < end {
      WatchExact(t, e, due, due + i, k + 1, i);
      if due + i < end {
        DivStep(end - 1 - due, i);
      } else {
        DivSmall(end - 1 - due, i);
      }
    }
  }

  lemma {:induction false} DivStep(n: nat, i: nat)
    requires 0 < i <= n
    ensures n / i == (n - i) / i + 1
  {
    var q := (n - i) / i;
    assert n - i == q * i + (n - i) % i;
    assert n == (q + 1) * i + (n - i) % i;
    DivUnique(n, i, q + 1, (n - i) % i);
  }

  lemma {:induction false} DivUnique(n: nat, i: nat, q: nat, r: nat)
    requires 0 < i && r < i && n == q * i + r
    ensures n / i == q
  {
    var p := n / i;
    assert n == p * i + n % i;
    MulOrder(p, q, i);
    MulOrder(q, p, i);
  }

  lemma {:induction false} MulOrder(a: nat, b: nat, i: nat)
    ensures a < b ==> a * i + i <= b * i
  {
    if a < b {
      MulOrder(a, b - 1, i);
      assert b * i == (b - 1) * i + i;
    }
  }

  lemma {:induction false} DivSmall(n: nat, i: nat)
    requires n < i
    ensures n / i == 0
  {
  }

  lemma {:induction false} WatchPrompt(t: Timing, e: Effort, now: nat, due: nat, k: nat)
    requires Ticks(t) && now <= due && (now == 0 || now < End(t, e)) && (forall k: nat :: e.write(k) == Ok(0))
    ensures Watch(t, e, now, due, k).result == if e.finish.Some? && e.finish.value <= t.deadline then e.outcome else Err(Timeout)
    decreases End(t, e) - due
  {
    var end := End(t, e);
    if t.interval.Some? && due < end && now < end {
      WatchPrompt(t, e, due, due + t.interval.value, k + 1);
    }
  }

  /** While writes take no time, a keepalive is written at every interval before the end: after
      `i`, `2 * i` and so on. */
  lemma {:induction false} ProgressExact(t: Timing, e: Effort, i: nat)
    requires Ticks(t) && t.interval == Some(i) && (forall k: nat :: e.write(k) == Ok(0))
    ensures var end := if e.finish.Some? && e.finish.value < t.deadline then e.finish.value else t.deadline;
            && Evaluated(t, e).ticks == (if end == 0 then 0 else (end - 1) / i)
            && Evaluated(t, e).result == (if e.finish.Some? && e.finish.value <= t.deadline then e.outcome else Err(Timeout))
  {
    WatchPrompt(t, e, 0, i, 0);
    var end := End(t, e);
    WatchExact(t, e, 0, i, 0, i);
    if end > 0 {
      if i < end {
        DivStep(end - 1, i);
      } else {
        DivSmall(end - 1, i);
      }
    }
  }

  // ---- The loops ----------------------------------------------------------

  /** The keepalives of `n` ticks followed by those still to come. */
  function Later(n: nat, e: Evaluation): Evaluation {
    Evaluation(n + e.ticks, e.result)
  }

  /** The keepalive loop while the policy runs. */
  method EvaluateWithProgress(t: Timing, e: Effort) returns (written: seq<Frame>, result: Result<Decision>)
    requires Ticks(t)
    ensures written == Keepalives(Evaluated(t, e).ticks) && result == Evaluated(t, e).result
  {
    written := [];
    var end := End(t, e);
    if t.interval.None? {
      return written, Found(e, end);
    }
    var now: nat, due: nat, k: nat := 0, t.interval.value, 0;
    while due < end && now < end
      invariant written == Keepalives(k)
      invariant Evaluated(t, e) == Later(k, Watch(t, e, now, due, k))
      decreases end - due
    {
      var fired := if now < due then due else now;
      var write := e.write(k);
      if write.Err? {
        return written, Err(write.error);
      }
      now, due := fired + write.value, fired + t.interval.value;
      written := written + [Empty(RPL_PROGRESS)];
      k := k + 1;
    }
    result := Found(e, if end <= now then now else end);
  }


  /** Reply to the pending callback, falling back when the decision cannot be carried out. */
  method ResolvePending(session: S.Session, failOpen: bool, result: Result<Decision>) returns (r: Result<seq<Frame>>)
    requires session.Valid()
    modifies session
    ensures session.Valid()
    ensures forall ticks: nat :: match r
              case Ok(frames) => Resolve(session.config, failOpen, old(session.View()), Evaluation(ticks, result)) == Ok((session.View(), frames))
              case Err(error) => Resolve(session.config, failOpen, old(session.View()), Evaluation(ticks, result)) == Err(error)
  {
    if result.Ok? {
      r := session.Complete(result.value);
      if r.Ok? {
        return;
      }
    }
    r := session.Complete(Fallback(failOpen));
  }

  /** One turn of the connection loop. */
  method ServeFrame(session: S.Session, failOpen: bool, f: Frame, t: Timing, e: Effort) returns (r: Result<(seq<Frame>, bool)>)
    requires session.Valid() && Ticks(t)
    modifies session
    ensures r.Ok? ==> session.Valid()
    ensures var want := Serve(session.config, failOpen, old(session.View()), f, Evaluated(t, e));
            match r
            case Ok(done) => want == Ok(Served(session.View(), done.0, done.1))
            case Err(error) => want == Err(error)
  {
    var step := session.Receive(f);
    if step.Err? {
      return Err(step.error);
    }
    var frames := step.value.frames;
    if step.value.event.None? {
      return Ok((frames, step.value.close));
    }
    var stage := step.value.event.value;
    var written: seq<Frame> := [];
    var result: Result<Decision> := Ok(CONTINUE);
    assert Keepalives(0) == [];
    if stage in session.config.stages {
      written, result := EvaluateWithProgress(t, e);
    }
    var replies := ResolvePending(session, failOpen, result);
    if replies.Err? {
      return Err(replies.error);
    }
    r := Ok((written + (frames + replies.value), step.value.close));
  }

  /** `exchanges` followed by `rest`. */
  function Prefixed(exchanges: seq<Exchange>, rest: Talk): Talk {
    Talk(exchanges + rest.exchanges, rest.end)
  }

  lemma {:induction false} PrefixedSnoc(exchanges: seq<Exchange>, e: Exchange, rest: Talk)
    ensures Prefixed(exchanges, Say(e, rest)) == Prefixed(exchanges + [e], rest)
  {
    Reassociate(exchanges, [e], rest.exchanges);
  }

  method HandleFrame(session: S.Session, failOpen: bool, input: Bytes, t: Timing, e: Effort)
    returns (turn: Option<(Exchange, Bytes)>, talk: Talk)
    requires session.Valid() && Ticks(t)
    modifies session
    ensures turn.Some? ==> session.Valid()
    ensures match TakeTurn(session.config, failOpen, old(session.View()), input, Evaluated(t, e))
            case Over(last) => turn.None? && talk == last
            case Next(exchange, next, rest) => turn == Some((exchange, rest)) && session.View() == next
  {
    turn, talk := None, Talk([], Ok(()));
    var read := ReadFrame(input, session.config.limits.frameBytes);
    if read.Eof? {
      return;
    }
    if read.Failed? {
      talk := Talk([], Err(read.error));
      return;
    }
    var served := ServeFrame(session, failOpen, read.frame, t, e);
    if served.Err? {
      talk := Talk([], Err(served.error));
      return;
    }
    var exchange := Exchange(Decode(read.frame, session.config.validIp).value, served.value.0);
    if served.value.1 {
      talk := Talk([exchange], Ok(()));
    } else {
      turn := Some((exchange, read.rest));
    }
  }

  function Evaluations(t: Timing, efforts: nat -> Effort): nat -> Evaluation
    requires Ticks(t)
  {
    (k: nat) => Evaluated(t, efforts(k))
  }

  /** The connection loop. */
  method HandleConnection(c: Config, failOpen: bool, input: Bytes, t: Timing, efforts: nat -> Effort) returns (talk: Talk)
    requires Ticks(t)
    ensures talk == Converse(c, failOpen, FRESH, input, Evaluations(t, efforts), 0)
  {
    ghost var policy := Evaluations(t, efforts);
    var session := new S.Session(c);
    var exchanges: seq<Exchange> := [];
    var rest, k := input, 0;
    ghost var want := Converse(c, failOpen, FRESH, input, policy, 0);
    assert Prefixed([], want) == want;
    while true
      invariant session.config == c && session.Valid()
      invariant want == Prefixed(exchanges, Converse(c, failOpen, session.View(), rest, policy, k))
      decreases |rest|
    {
      var turn, last := HandleFrame(session, failOpen, rest, t, efforts(k));
      if turn.None? {
        return Prefixed(exchanges, last);
      }
      var (exchange, more) := turn.value;
      PrefixedSnoc(exchanges, exchange, Converse(c, failOpen, session.View(), more, policy, k + 1));
      exchanges := exchanges + [exchange];
      rest, k := more, k + 1;
    }
  }

  // ---- Failure path -------------------------------------------------------

  /** The fallback is always carried out: one frame, tempfail or continue, no modification. */
  lemma {:induction false} FallbackSucceeds(c: Config, failOpen: bool, s: Session)
    requires Inv(c, s) && s.pending.Some? && c.limits.frameBytes >= 1
    ensures Complete(c, s, Fallback(failOpen)) ==
            Ok((Settle(s, s.pending.value, Fallback(failOpen).verdict),
                [Empty(if failOpen then RPL_CONTINUE else RPL_TEMPFAIL)]))
  {
    var last := Empty(if failOpen then RPL_CONTINUE else RPL_TEMPFAIL);
    assert FinalFrame(Fallback(failOpen).verdict) == Ok(last);
    assert [] + [last] == [last];
  }

  /** Whatever the policy does, serving a frame fails only if the session refuses the frame. */
  lemma {:induction false} ServeFailsOnInputOnly(c: Config, failOpen: bool, s: Session, f: Frame, e: Evaluation)
    requires Inv(c, s) && c.limits.frameBytes >= 1
    ensures Serve(c, failOpen, s, f, e).Err? <==> Receive(c, s, f).Err?
    ensures Serve(c, failOpen, s, f, e).Err? ==> Serve(c, failOpen, s, f, e).error == Receive(c, s, f).error
  {
    if Receive(c, s, f).Ok? {
      var received := Receive(c, s, f).value;
      ReceivedInv(c, s, f);
      if received.1.event.Some? {
        ResolveSucceeds(c, failOpen, received.0, Ask(c, received.1.event.value, e));
      }
    }
  }

  /** A connection is only ever broken by its input: a bad frame or a command out of place. */
  lemma {:induction false} TurnFailsOnInputOnly(c: Config, failOpen: bool, s: Session, input: Bytes, e: Evaluation)
    requires Inv(c, s)
    ensures var turn := TakeTurn(c, failOpen, s, input, e);
            var read := ReadFrame(input, c.limits.frameBytes);
            turn.Over? && turn.talk.end.Err? <==> read.Failed? || (read.Got? && Receive(c, s, read.frame).Err?)
  {
    var read := ReadFrame(input, c.limits.frameBytes);
    if read.Got? {
      ReadConsumesEncoding(input, c.limits.frameBytes);
      ServeFailsOnInputOnly(c, failOpen, s, read.frame, e);
    }
  }

  lemma {:induction false} ResolveSucceeds(c: Config, failOpen: bool, s: Session, e: Evaluation)
    requires Inv(c, s) && s.pending.Some? && c.limits.frameBytes >= 1
    ensures Resolve(c, failOpen, s, e).Ok?
  {
    FallbackSucceeds(c, failOpen, s);
  }

  lemma {:induction false} ReceivedInv(c: Config, s: Session, f: Frame)
    requires Inv(c, s) && Receive(c, s, f).Ok?
    ensures var received := Receive(c, s, f).value;
            && Inv(c, received.0) && received.0.pending == received.1.event
            && (received.1.event.Some? ==> received.1.frames == [])
  {
    var command := Decode(f, c.validIp).value;
    HandleInv(c, s, command);
    if !command.Negotiate? && !command.Macro? {
      PrepareKeeps(s, command);
      PrepareInv(c, s, command);
      ActShape(c, Prepare(s, command), command);
    }
  }

  lemma {:induction false} FallbackResolves(c: Config, failOpen: bool, s: Session, e: Evaluation)
    requires Inv(c, s) && s.pending.Some? && c.limits.frameBytes >= 1 && Try(c, s, e.result).Err?
    ensures Resolve(c, failOpen, s, e) ==
            Ok((Settle(s, s.pending.value, Fallback(failOpen).verdict),
                [Empty(if failOpen then RPL_CONTINUE else RPL_TEMPFAIL)]))
  {
    FallbackSucceeds(c, failOpen, s);
  }

  /** A decision that fails, for whatever reason, puts only the fallback reply on the wire. */
  lemma {:induction false} FailedDecisionReply(c: Config, failOpen: bool, s: Session, f: Frame, e: Evaluation)
    requires Inv(c, s) && c.limits.frameBytes >= 1 && Receive(c, s, f).Ok?
    requires var received := Receive(c, s, f).value;
             received.1.event.Some? && Try(c, received.0, Ask(c, received.1.event.value, e).result).Err?
    ensures var received := Receive(c, s, f).value;
            var served := Serve(c, failOpen, s, f, e);
            && served.Ok?
            && served.value.frames == Keepalives(Ask(c, received.1.event.value, e).ticks) + [Empty(if failOpen then RPL_CONTINUE else RPL_TEMPFAIL)]
            && served.value.session == Settle(received.0, received.1.event.value, Fallback(failOpen).verdict)
  {
    var received := Receive(c, s, f).value;
    ReceivedInv(c, s, f);
    FallbackResolves(c, failOpen, received.0, Ask(c, received.1.event.value, e));
    var last := Empty(if failOpen then RPL_CONTINUE else RPL_TEMPFAIL);
    assert [] + [last] == [last];
  }
}
