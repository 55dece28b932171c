/** Which commands and decisions a session takes, from the log alone: the state, the connection
    and the greeting are those of the log, a command is refused exactly when it is out of the
    protocol's order or over a limit, and every orderly log is a run (src/session.rs:258-568). */
module ProtocolOrder {
  import opened Octets
  import opened Wire
  import opened Mta
  import opened Protocol
  import opened SessionInvariant
  import opened History

  // ---- The log's own account ----------------------------------------------

  /** The CONNECT in force: the last one, unless a new connection was announced since. */
  function Connected(log: seq<Entry>, n: nat): (r: Option<nat>)
    requires n <= |log|
    ensures r.Some? ==> r.value < n && log[r.value].Got? && log[r.value].command.Connect?
  {
    if n == 0 then None
    else if log[n - 1].Got? && log[n - 1].command.Connect? then Some(n - 1)
    else if log[n - 1].Got? && log[n - 1].command.QuitNewConnection? then None
    else Connected(log, n - 1)
  }

  /** The greeting of this connection. */
  function Greeting(log: seq<Entry>, n: nat): Option<Bytes>
    requires n <= |log|
  {
    if n == 0 then None
    else if log[n - 1].Got? && log[n - 1].command.Helo? then Some(log[n - 1].command.name)
    else if log[n - 1].Got? && log[n - 1].command.QuitNewConnection? then None
    else Greeting(log, n - 1)
  }

  /** Entry `i` stops the connection: a shutdown, or a refused CONNECT or HELO. */
  predicate Stops(log: seq<Entry>, i: nat)
    requires i < |log|
  {
    && log[i].Took? && i > 0 && log[i - 1].Got?
    && (log[i].decision.verdict.Shutdown?
        || (Rejects(log[i].decision.verdict) && (log[i - 1].command.Connect? || log[i - 1].command.Helo?)))
  }

  /** The connection was stopped and no new one announced since. */
  predicate Halted(log: seq<Entry>, n: nat)
    requires n <= |log|
  {
    n > 0 && (Stops(log, n - 1) || (!(log[n - 1].Got? && log[n - 1].command.QuitNewConnection?) && Halted(log, n - 1)))
  }

  predicate HasQuit(log: seq<Entry>, n: nat)
    requires n <= |log|
  {
    exists i :: 0 <= i < n && log[i].Got? && log[i].command.Quit?
  }

  predicate SawData(log: seq<Entry>, m: nat, n: nat)
    requires n <= |log|
  {
    exists i :: m < i < n && log[i].Got? && log[i].command.Data?
  }

  predicate SawEndHeaders(log: seq<Entry>, m: nat, n: nat)
    requires n <= |log|
  {
    exists i :: m < i < n && log[i].Got? && log[i].command.EndHeaders?
  }

  /** How far the transaction opened at `m` has come. */
  function Stretch(log: seq<Entry>, m: nat, n: nat): State
    requires m < n <= |log|
  {
    if SawEndHeaders(log, m, n) then InBody
    else if Headers(log, m, n) != [] then InHeaders
    else if SawData(log, m, n) then InData
    else if Standing(log, m, n, n) != [] then InRecipients
    else InMail
  }

  /** Where the conversation stands. */
  function Phase(log: seq<Entry>, n: nat): State
    requires n <= |log|
  {
    if n == 0 then Initial
    else if HasQuit(log, n) then Closed
    else if Connected(log, n).None? then Negotiated
    else if Halted(log, n) then Stopped
    else match Opened(log, n) case None => Ready case Some(m) => Stretch(log, m, n)
  }

  predicate Consults(c: Config, command: Command) {
    match command
    case Connect(_) => AtConnect in c.stages
    case Helo(_) => AtHelo in c.stages
    case Mail(_) => AtMail in c.stages
    case Recipient(_) => AtRecipient in c.stages
    case EndMessage => true
    case _ => false
  }

  /** The last command still waits for a decision. */
  predicate Waits(c: Config, log: seq<Entry>, n: nat)
    requires n <= |log|
  {
    n > 0 && log[n - 1].Got? && Consults(c, log[n - 1].command)
  }

  predicate Situated(c: Config, log: seq<Entry>, n: nat, s: Session)
    requires n <= |log|
  {
    && s.state == Phase(log, n)
    && (s.pending.Some? <==> Waits(c, log, n))
    && s.helo == Greeting(log, n)
    && s.connection == (if Connected(log, n).None? then None else Some(log[Connected(log, n).value].command.connection))
    && (Connected(log, n).None? ==> !Halted(log, n))
    && (n > 0 ==> log[0].Got? && log[0].command.Negotiate? && s.options == Some(Agree(c, log[0].command.options)))
  }

  // ---- What a command does to the situation -------------------------------

  /** The protocol's order. */
  predicate InOrder(phase: State, command: Command) {
    match command
    case Negotiate(_) => phase == Initial
    case Connect(_) => phase == Negotiated
    case Helo(_) => phase == Ready
    case Mail(_) => phase == Ready
    case Recipient(_) => phase == InMail || phase == InRecipients
    case Data => phase == InRecipients
    case Header(_, _) => phase == InData || phase == InHeaders
    case EndHeaders => phase == InData || phase == InHeaders
    case Body(_) => phase == InBody
    case EndMessage => phase == InBody
    case _ => phase != Initial && phase != Closed
  }

  function Shifted(phase: State, connected: bool, command: Command): State {
    match command
    case Negotiate(_) => Negotiated
    case Connect(_) => Ready
    case Mail(_) => InMail
    case Recipient(_) => InRecipients
    case Data => InData
    case Header(_, _) => InHeaders
    case EndHeaders => InBody
    case Abort => if connected && phase != Stopped then Ready else phase
    case QuitNewConnection => Negotiated
    case Quit => Closed
    case _ => phase
  }

  /** The session side. */
  predicate Shifts(c: Config, s: Session, command: Command, t: Session) {
    && t.state == Shifted(s.state, s.connection.Some?, command)
    && (t.pending.Some? <==> Consults(c, command))
    && t.connection == (if command.Connect? then Some(command.connection)
                        else if command.QuitNewConnection? then None else s.connection)
    && t.helo == (if command.Helo? then Some(command.name) else if command.QuitNewConnection? then None else s.helo)
    && t.options == (if command.Negotiate? then Some(Agree(c, command.options)) else s.options)
  }

  lemma {:induction false} ActShifts(c: Config, s: Session, command: Command)
    requires WellFormed(command) && Plain(command) && Shape(s) && Prepared(s, command) && Act(c, s, command).Ok?
    ensures InOrder(s.state, command) && Shifts(c, s, command, Answer(c, Act(c, s, command).value, command).0)
  {
  }

  lemma {:induction false} HandleShifts(c: Config, s: Session, command: Command, t: Session)
    requires Inv(c, s) && Advance(c, s, Entry.Got(command)) == Some(t)
    ensures InOrder(s.state, command) && Shifts(c, s, command, t)
  {
    if Plain(command) {
      HandleActs(c, s, command, t);
      PrepareKeeps(s, command);
      PrepareInv(c, s, command);
      ActShifts(c, Prepare(s, command), command);
    } else {
      QuietShifts(c, s, command, t);
    }
  }

  lemma {:induction false} QuietShifts(c: Config, s: Session, command: Command, t: Session)
    requires Inv(c, s) && Advance(c, s, Entry.Got(command)) == Some(t) && !Plain(command)
    ensures InOrder(s.state, command) && Shifts(c, s, command, t)
  {
  }

  // ---- The log side -------------------------------------------------------

  lemma {:induction false} QuitStep(log: seq<Entry>, n: nat)
    requires n < |log|
    ensures HasQuit(log, n + 1) <==> HasQuit(log, n) || (log[n].Got? && log[n].command.Quit?)
  {
  }

  lemma {:induction false} SawStep(log: seq<Entry>, m: nat, n: nat)
    requires m < n < |log|
    ensures SawData(log, m, n + 1) <==> SawData(log, m, n) || (log[n].Got? && log[n].command.Data?)
    ensures SawEndHeaders(log, m, n + 1) <==> SawEndHeaders(log, m, n) || (log[n].Got? && log[n].command.EndHeaders?)
  {
  }

  /** Within a transaction. */
  lemma {:induction false} StretchGot(log: seq<Entry>, m: nat, n: nat)
    requires m < n < |log| && log[n].Got? && WellFormed(log[n].command)
    requires InOrder(Stretch(log, m, n), log[n].command) && !log[n].command.Mail? && !IsEnd(log[n].command)
    ensures Stretch(log, m, n + 1) == Shifted(Stretch(log, m, n), true, log[n].command)
  {
    SawStep(log, m, n);
    if IsRecipient(log[n]) {
      StandingGrows(log, m, n);
    } else {
      StandingStays(log, m, n);
    }
  }

  lemma {:induction false} StretchTook(log: seq<Entry>, m: nat, n: nat)
    requires m < n < |log| && log[n].Took? && !Rejects(log[n].decision.verdict)
    ensures Stretch(log, m, n + 1) == Stretch(log, m, n)
  {
    SawStep(log, m, n);
    StandingStays(log, m, n);
  }

  lemma {:induction false} StretchStart(log: seq<Entry>, n: nat)
    requires n < |log|
    ensures Stretch(log, n, n + 1) == InMail
  {
  }

  /** A transaction is open only while the connection is neither stopped nor gone. */
  predicate OpenInside(log: seq<Entry>, n: nat)
    requires n <= |log|
  {
    Opened(log, n).Some? ==> Phase(log, n) == Stretch(log, Opened(log, n).value, n)
  }

  /** Outside a transaction, and where one begins or ends. */
  lemma {:induction false} PhaseGot(log: seq<Entry>, n: nat)
    requires n < |log| && log[n].Got? && WellFormed(log[n].command) && InOrder(Phase(log, n), log[n].command)
    requires (Connected(log, n).None? ==> !Halted(log, n)) && OpenInside(log, n)
    ensures Phase(log, n + 1) == Shifted(Phase(log, n), Connected(log, n).Some?, log[n].command)
    ensures Connected(log, n + 1).None? ==> !Halted(log, n + 1)
  {
    var command := log[n].command;
    QuitStep(log, n);
    if command.Mail? {
      StretchStart(log, n);
    } else if Opened(log, n).Some? && !IsEnd(command) {
      StretchGot(log, Opened(log, n).value, n);
    }
  }

  /** Where a decision about a command leaves the conversation. */
  function Ruled(phase: State, command: Command, v: Verdict, left: bool): State {
    if v.Shutdown? || (Rejects(v) && (command.Connect? || command.Helo?)) then Stopped
    else if EndsAfter(command, v) then Ready
    else if Rejects(v) && command.Recipient? then (if left then InRecipients else InMail)
    else phase
  }

  lemma {:induction false} PhaseRefused(log: seq<Entry>, n: nat)
    requires 0 < n < |log| && log[n].Took? && Rejects(log[n].decision.verdict) && IsRecipient(log[n - 1])
    requires Opened(log, n).Some? && Phase(log, n) == InRecipients == Stretch(log, Opened(log, n).value, n)
    requires !Ends(log, n) && !Stops(log, n)
    ensures Opened(log, n + 1) == Opened(log, n)
    ensures Phase(log, n + 1) ==
            if Standing(log, Opened(log, n).value, n + 1, n + 1) != [] then InRecipients else InMail
  {
    QuitStep(log, n);
    SawStep(log, Opened(log, n).value, n);
  }

  lemma {:induction false} PhaseKept(log: seq<Entry>, n: nat)
    requires 0 < n < |log| && log[n].Took? && !Rejects(log[n].decision.verdict) && !Ends(log, n) && OpenInside(log, n)
    ensures Phase(log, n + 1) == Phase(log, n)
  {
    QuitStep(log, n);
    if Opened(log, n).Some? {
      StretchTook(log, Opened(log, n).value, n);
    }
  }

  lemma {:induction false} PhaseEnded(log: seq<Entry>, n: nat)
    requires 0 < n < |log| && log[n].Took? && (Ends(log, n) || Stops(log, n)) && !HasQuit(log, n)
    requires Connected(log, n).Some? && !Halted(log, n) && (Stops(log, n) || Ends(log, n))
    ensures Phase(log, n + 1) == if Stops(log, n) then Stopped else Ready
  {
    QuitStep(log, n);
  }

  lemma {:induction false} StayConnected(log: seq<Entry>, n: nat)
    requires n < |log| && log[n].Took?
    ensures Connected(log, n + 1) == Connected(log, n) && Greeting(log, n + 1) == Greeting(log, n)
  {
  }

  // ---- The session is where the log says ----------------------------------

  /** Both accounts agree. */
  predicate Placed(c: Config, log: seq<Entry>, n: nat, s: Session)
    requires n <= |log|
  {
    Told(c, log, n, s) && Situated(c, log, n, s)
  }

  lemma {:induction false} PlacedInside(c: Config, log: seq<Entry>, n: nat, s: Session)
    requires n <= |log| && Placed(c, log, n, s)
    ensures OpenInside(log, n)
  {
    if Opened(log, n).Some? {
      assert s.message.sender.Some?;
    }
  }

  lemma {:induction false} GotPlaced(c: Config, log: seq<Entry>, n: nat, s: Session, t: Session)
    requires n < |log| && log[n].Got? && Placed(c, log, n, s) && Advance(c, s, log[n]) == Some(t)
    ensures Situated(c, log, n + 1, t)
  {
    HandleShifts(c, s, log[n].command, t);
    HandleExtends(c, s, log[n].command, t);
    PlacedInside(c, log, n, s);
    PhaseGot(log, n);
  }

  lemma {:induction false} TookSettles(c: Config, s: Session, d: Decision, t: Session)
    requires Inv(c, s) && Advance(c, s, Took(d)) == Some(t)
    ensures s.pending.Some? && t == Settle(s, s.pending.value, d.verdict)
    ensures t.connection == s.connection && t.helo == s.helo && t.options == s.options && t.pending.None?
  {
    CompleteSettles(c, s, d);
  }

  lemma {:induction false} SettledState(s: Session, command: Command, v: Verdict)
    requires Shape(s) && s.pending == StageOf(command) && s.pending.Some? && s.state == StateAt(s.pending.value)
    ensures Settle(s, s.pending.value, v).state == Ruled(s.state, command, v, DropLast(s.message.recipients) != [])
  {
  }

  lemma {:induction false} TookPhase(c: Config, log: seq<Entry>, n: nat, s: Session)
    requires 0 < n < |log| && log[n].Took? && log[n - 1].Got? && WellFormed(log[n - 1].command) && Placed(c, log, n, s)
    requires s.pending == StageOf(log[n - 1].command) && s.pending.Some?
    ensures Phase(log, n + 1) == Ruled(s.state, log[n - 1].command, log[n].decision.verdict, DropLast(s.message.recipients) != [])
    ensures Connected(log, n).Some?
  {
    var command, v := log[n - 1].command, log[n].decision.verdict;
    PlacedInside(c, log, n, s);
    if Stops(log, n) || Ends(log, n) {
      PhaseEnded(log, n);
    } else if Rejects(v) {
      assert IsRecipient(log[n - 1]);
      var m := Opened(log, n).value;
      PhaseRefused(log, n);
      StandingDrops(log, m, n);
      assert DropLast(s.message.recipients) == Standing(log, m, n + 1, n + 1);
    } else {
      PhaseKept(log, n);
    }
  }

  lemma {:induction false} TookPlaced(c: Config, log: seq<Entry>, n: nat, s: Session, t: Session)
    requires n < |log| && log[n].Took? && Placed(c, log, n, s) && Advance(c, s, log[n]) == Some(t)
    requires n > 0 && log[n - 1].Got? ==> WellFormed(log[n - 1].command)
    ensures Situated(c, log, n + 1, t)
  {
    TookSettles(c, s, log[n].decision, t);
    SettledState(s, log[n - 1].command, log[n].decision.verdict);
    TookPhase(c, log, n, s);
    StayConnected(log, n);
  }

  lemma {:induction false} StepPlaced(c: Config, log: seq<Entry>, n: nat, s: Session, t: Session)
    requires n < |log| && Placed(c, log, n, s) && Advance(c, s, log[n]) == Some(t)
    requires n > 0 && log[n - 1].Got? ==> WellFormed(log[n - 1].command)
    ensures Placed(c, log, n + 1, t)
  {
    StepTold(c, log, n, s, t);
    if log[n].Got? {
      GotPlaced(c, log, n, s, t);
    } else {
      TookPlaced(c, log, n, s, t);
    }
  }

  /** In every reachable state: the state name, the pending question, the connection, the
      greeting and the options are those of the log. */
  lemma {:induction false} RunPlaced(c: Config, log: seq<Entry>, n: nat)
    requires n <= |log| && After(c, log, n).Some?
    ensures Placed(c, log, n, After(c, log, n).value)
  {
    if n == 0 {
      RunExplained(c, log, 0);
    } else {
      RunPlaced(c, log, n - 1);
      if n > 1 {
        LogWellFormed(c, log, n - 1, n - 2);
      }
      var s, t := LastEntry(c, log, n);
      StepPlaced(c, log, n - 1, s, t);
    }
  }
}
