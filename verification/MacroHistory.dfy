/** Macro scoping as a function of the log: which batch is visible for a stage letter, and
    why (src/session.rs:199-225, 303-331, 397-410). */
module MacroHistory {
  import opened Octets
  import opened Wire
  import opened Protocol
  import opened History

  predicate Sends(e: Entry, stage: Byte) {
    e.Got? && e.command.Macro? && e.command.stage == stage
  }

  /** The command a batch for this stage belongs to. */
  predicate Uses(e: Entry, stage: Byte) {
    e.Got? && !e.command.Macro? && Opcode(e.command) == stage
  }

  /** Entry `i` forgets batches of this stage: a new connection forgets all of them, the
      start and the end of a transaction those that are not per connection. */
  predicate Forgets(log: seq<Entry>, i: nat, stage: Byte)
    requires i < |log|
  {
    || (log[i].Got? && log[i].command.QuitNewConnection?)
    || (!Lasting(stage) && (IsMail(log[i]) || Ends(log, i)))
  }

  /** Stage letters C and H: what was said about the connection holds for all its messages. */
  predicate Lasting(stage: Byte) {
    stage == 67 || stage == 72
  }

  function Waiting(log: seq<Entry>, n: nat, stage: Byte): Option<Batch>
    requires n <= |log|
  {
    if n == 0 then None
    else if Sends(log[n - 1], stage) then Some(Collect(log[n - 1].command.values))
    else if Uses(log[n - 1], stage) || Forgets(log, n - 1, stage) then None
    else Waiting(log, n - 1, stage)
  }

  function Active(log: seq<Entry>, n: nat, stage: Byte): Option<Batch>
    requires n <= |log|
  {
    if n == 0 then None
    else if Uses(log[n - 1], stage) then Waiting(log, n - 1, stage)
    else if Forgets(log, n - 1, stage) then None
    else Active(log, n - 1, stage)
  }

  function BatchAt(batches: Batches, stage: Byte): Option<Batch> {
    if stage in batches then Some(batches[stage]) else None
  }

  predicate MacrosTold(log: seq<Entry>, n: nat, s: Session, stage: Byte)
    requires n <= |log|
  {
    BatchAt(s.macros, stage) == Active(log, n, stage) && BatchAt(s.waiting, stage) == Waiting(log, n, stage)
  }

  // ---- The session follows the log ----------------------------------------

  lemma {:induction false} ResetAt(s: Session, stage: Byte)
    ensures BatchAt(Reset(s).macros, stage) == if PerConnection(stage) then BatchAt(s.macros, stage) else None
    ensures BatchAt(Reset(s).waiting, stage) == if PerConnection(stage) then BatchAt(s.waiting, stage) else None
  {
  }

  lemma {:induction false} PrepareAt(s: Session, command: Command, stage: Byte)
    ensures var t := Prepare(s, command);
            if Opcode(command) == stage then
              BatchAt(t.macros, stage) == BatchAt(s.waiting, stage) && BatchAt(t.waiting, stage) == None
            else if command.Mail? && !PerConnection(stage) then
              BatchAt(t.macros, stage) == None && BatchAt(t.waiting, stage) == None
            else
              BatchAt(t.macros, stage) == BatchAt(s.macros, stage) && BatchAt(t.waiting, stage) == BatchAt(s.waiting, stage)
  {
  }

  /** Acting on a command forgets batches exactly for ABORT, QUIT and QUIT_NC. */
  lemma {:induction false} ActAt(c: Config, s: Session, command: Command, stage: Byte)
    requires WellFormed(command) && Act(c, s, command).Ok?
    ensures var t := Act(c, s, command).value;
            if command.QuitNewConnection? || (!PerConnection(stage) && (command.Abort? || command.Quit?)) then
              BatchAt(t.macros, stage) == None && BatchAt(t.waiting, stage) == None
            else
              BatchAt(t.macros, stage) == BatchAt(s.macros, stage) && BatchAt(t.waiting, stage) == BatchAt(s.waiting, stage)
  {
  }

  lemma {:induction false} GotActs(c: Config, s: Session, command: Command, t: Session)
    requires Advance(c, s, Entry.Got(command)) == Some(t) && !command.Macro? && !command.Negotiate?
    ensures WellFormed(command) && Act(c, Prepare(s, command), command).Ok?
    ensures t.macros == Act(c, Prepare(s, command), command).value.macros
    ensures t.waiting == Act(c, Prepare(s, command), command).value.waiting
  {
    HandleActs(c, s, command, t);
  }

  /** A plain command uses its own batch and forgets others as it begins or ends a transaction. */
  lemma {:induction false} CommandAt(c: Config, s: Session, command: Command, stage: Byte)
    requires WellFormed(command) && MacroStage(stage) && Act(c, Prepare(s, command), command).Ok?
    ensures var t := Act(c, Prepare(s, command), command).value;
            if Opcode(command) == stage then
              BatchAt(t.macros, stage) == BatchAt(s.waiting, stage) && BatchAt(t.waiting, stage) == None
            else if command.QuitNewConnection? || (!PerConnection(stage) && (command.Mail? || IsEnd(command))) then
              BatchAt(t.macros, stage) == None && BatchAt(t.waiting, stage) == None
            else
              BatchAt(t.macros, stage) == BatchAt(s.macros, stage) && BatchAt(t.waiting, stage) == BatchAt(s.waiting, stage)
  {
    PrepareAt(s, command, stage);
    ActAt(c, Prepare(s, command), command, stage);
  }

  /** The log says the same of what is active and what is waiting. */
  lemma {:induction false} CommandTold(log: seq<Entry>, n: nat, command: Command, stage: Byte)
    requires n < |log| && log[n] == Entry.Got(command) && WellFormed(command) && Plain(command) && MacroStage(stage)
    ensures if Opcode(command) == stage then
              Active(log, n + 1, stage) == Waiting(log, n, stage) && Waiting(log, n + 1, stage) == None
            else if command.QuitNewConnection? || (!PerConnection(stage) && (command.Mail? || IsEnd(command))) then
              Active(log, n + 1, stage) == None && Waiting(log, n + 1, stage) == None
            else
              Active(log, n + 1, stage) == Active(log, n, stage) && Waiting(log, n + 1, stage) == Waiting(log, n, stage)
  {
  }

  lemma {:induction false} GotMacros(c: Config, log: seq<Entry>, n: nat, s: Session, command: Command, t: Session, stage: Byte)
    requires n < |log| && log[n] == Entry.Got(command) && MacroStage(stage) && MacrosTold(log, n, s, stage)
    requires WellFormed(command) && Plain(command) && Act(c, Prepare(s, command), command) == Ok(t)
    ensures MacrosTold(log, n + 1, t, stage)
  {
    CommandAt(c, s, command, stage);
    CommandTold(log, n, command, stage);
  }

  /** A decision forgets batches exactly when it ends the transaction. */
  lemma {:induction false} SettleAt(s: Session, command: Command, v: Verdict, stage: Byte)
    requires StageOf(command).Some?
    ensures var t := Settle(s, StageOf(command).value, v);
            if EndsAfter(command, v) && !PerConnection(stage) then
              BatchAt(t.macros, stage) == None && BatchAt(t.waiting, stage) == None
            else
              BatchAt(t.macros, stage) == BatchAt(s.macros, stage) && BatchAt(t.waiting, stage) == BatchAt(s.waiting, stage)
  {
    ResetAt(s.(pending := None), stage);
  }

  lemma {:induction false} TookMacros(log: seq<Entry>, n: nat, s: Session, d: Decision, stage: Byte)
    requires n < |log| && log[n] == Took(d) && MacrosTold(log, n, s, stage)
    requires s.pending.Some? && PendingIsLast(log, n, s)
    ensures MacrosTold(log, n + 1, Settle(s, s.pending.value, d.verdict), stage)
  {
    SettleAt(s, log[n - 1].command, d.verdict, stage);
  }

  lemma {:induction false} SentMacros(c: Config, log: seq<Entry>, n: nat, s: Session, t: Session, stage: Byte)
    requires n < |log| && log[n].Got? && (log[n].command.Macro? || log[n].command.Negotiate?)
    requires MacroStage(stage) && MacrosTold(log, n, s, stage) && Advance(c, s, log[n]) == Some(t)
    ensures MacrosTold(log, n + 1, t, stage)
  {
  }

  lemma {:induction false} StepMacros(c: Config, log: seq<Entry>, n: nat, s: Session, t: Session, stage: Byte)
    requires n < |log| && MacroStage(stage) && MacrosTold(log, n, s, stage) && PendingIsLast(log, n, s)
    requires Advance(c, s, log[n]) == Some(t)
    ensures MacrosTold(log, n + 1, t, stage)
  {
    match log[n]
    case Took(d) => TookMacros(log, n, s, d, stage);
    case Got(command) =>
      if command.Macro? || command.Negotiate? {
        SentMacros(c, log, n, s, t, stage);
      } else {
        GotActs(c, s, command, t);
        GotMacros(c, log, n, s, command, Act(c, Prepare(s, command), command).value, stage);
      }
  }

  lemma {:induction false} RunStep(c: Config, log: seq<Entry>, n: nat, stage: Byte)
    requires 0 < n <= |log| && MacroStage(stage) && After(c, log, n).Some?
    requires PendingIsLast(log, n - 1, After(c, log, n - 1).value)
    requires MacrosTold(log, n - 1, After(c, log, n - 1).value, stage)
    ensures MacrosTold(log, n, After(c, log, n).value, stage)
  {
    StepMacros(c, log, n - 1, After(c, log, n - 1).value, After(c, log, n).value, stage);
  }

  /** In every reachable state the active and waiting batches are those of the log. */
  lemma {:induction false} RunMacros(c: Config, log: seq<Entry>, n: nat, stage: Byte)
    requires n <= |log| && MacroStage(stage) && After(c, log, n).Some?
    ensures MacrosTold(log, n, After(c, log, n).value, stage)
  {
    if n > 0 {
      RunMacros(c, log, n - 1, stage);
      RunPending(c, log, n - 1);
      RunStep(c, log, n, stage);
    }
  }

  // ---- Where an active batch comes from -----------------------------------

  /** Entry `i` leaves what is waiting for this stage alone. */
  predicate Passes(log: seq<Entry>, i: nat, stage: Byte)
    requires i < |log|
  {
    !Sends(log[i], stage) && !Uses(log[i], stage) && !Forgets(log, i, stage)
  }

  predicate Quiet(log: seq<Entry>, from: nat, to: nat, stage: Byte)
    requires to <= |log|
  {
    forall i :: from <= i < to ==> Passes(log, i, stage)
  }

  /** The batch sent at `j` is used by the command at `i` and visible ever since: nothing
      replaced, used or forgot it in between, and nothing used or forgot it afterwards. */
  predicate Provenance(log: seq<Entry>, n: nat, stage: Byte, j: nat, i: nat)
    requires n <= |log|
  {
    && j < i < n && Sends(log[j], stage) && Uses(log[i], stage)
    && Quiet(log, j + 1, i, stage)
    && (forall k :: i < k < n ==> !Uses(log[k], stage) && !Forgets(log, k, stage))
  }

  lemma {:induction false} WaitingSource(log: seq<Entry>, n: nat, stage: Byte) returns (j: nat)
    requires n <= |log| && Waiting(log, n, stage).Some?
    ensures j < n && Sends(log[j], stage) && Quiet(log, j + 1, n, stage)
    ensures Waiting(log, n, stage) == Some(Collect(log[j].command.values))
  {
    if Sends(log[n - 1], stage) {
      j := n - 1;
    } else {
      j := WaitingSource(log, n - 1, stage);
    }
  }

  lemma {:induction false} SourceWaits(log: seq<Entry>, n: nat, stage: Byte, j: nat)
    requires j < n <= |log| && Sends(log[j], stage) && Quiet(log, j + 1, n, stage)
    ensures Waiting(log, n, stage) == Some(Collect(log[j].command.values))
  {
    if j < n - 1 {
      assert Passes(log, n - 1, stage);
      SourceWaits(log, n - 1, stage, j);
    }
  }

  /** Every active batch has a provenance. */
  lemma {:induction false} ActiveSource(log: seq<Entry>, n: nat, stage: Byte) returns (j: nat, i: nat)
    requires n <= |log| && Active(log, n, stage).Some?
    ensures Provenance(log, n, stage, j, i) && Active(log, n, stage) == Some(Collect(log[j].command.values))
  {
    if Uses(log[n - 1], stage) {
      i := n - 1;
      j := WaitingSource(log, n - 1, stage);
    } else {
      j, i := ActiveSource(log, n - 1, stage);
    }
  }

  /** And every batch with a provenance is the active one. */
  lemma {:induction false} SourceActive(log: seq<Entry>, n: nat, stage: Byte, j: nat, i: nat)
    requires n <= |log| && Provenance(log, n, stage, j, i)
    ensures Active(log, n, stage) == Some(Collect(log[j].command.values))
  {
    if i == n - 1 {
      SourceWaits(log, i, stage, j);
    } else {
      SourceActive(log, n - 1, stage, j, i);
    }
  }

  /** A batch is visible in a reachable session exactly when the log accounts for it. */
  lemma {:induction false} VisibleBatch(c: Config, log: seq<Entry>, stage: Byte, batch: Batch)
    requires MacroStage(stage) && After(c, log, |log|).Some?
    ensures BatchAt(After(c, log, |log|).value.macros, stage) == Some(batch) <==>
            exists j: nat, i: nat :: Provenance(log, |log|, stage, j, i) && batch == Collect(log[j].command.values)
  {
    RunMacros(c, log, |log|, stage);
    ActiveIff(log, |log|, stage, batch);
  }

  lemma {:induction false} ActiveIff(log: seq<Entry>, n: nat, stage: Byte, batch: Batch)
    requires n <= |log|
    ensures Active(log, n, stage) == Some(batch) <==>
            exists j: nat, i: nat :: Provenance(log, n, stage, j, i) && batch == Collect(log[j].command.values)
  {
    if Active(log, n, stage).Some? {
      var j, i := ActiveSource(log, n, stage);
      assert Provenance(log, n, stage, j, i);
    }
    forall j: nat, i: nat | Provenance(log, n, stage, j, i)
      ensures Active(log, n, stage) == Some(Collect(log[j].command.values))
    {
      SourceActive(log, n, stage, j, i);
    }
  }
}
