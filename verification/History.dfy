/** Whole runs of a session. The message handed to the policy is explained by the log of
    commands and decisions alone (src/session.rs:324-402, 550-566). */
module History {
  import opened Octets
  import opened Wire
  import opened Mta
  import opened Protocol
  import opened SessionInvariant

  /** Commands accepted and decisions carried out, in order; a refused decision leaves no
      trace and a refused command ends the connection. */
  datatype Entry = Got(command: Command) | Took(decision: Decision)

  function Advance(c: Config, s: Session, e: Entry): Option<Session> {
    match e
    case Got(command) =>
      if !WellFormed(command) then None
      else (match Handle(c, s, command) case Ok(next) => Some(next.0) case Err(_) => None)
    case Took(d) => (match Complete(c, s, d) case Ok(next) => Some(next.0) case Err(_) => None)
  }

  /** The session after the first `n` entries, if they form a run. */
  function After(c: Config, log: seq<Entry>, n: nat): Option<Session>
    requires n <= |log|
  {
    if n == 0 then Some(FRESH)
    else
      match After(c, log, n - 1)
      case None => None
      case Some(s) => Advance(c, s, log[n - 1])
  }

  lemma {:induction false} AfterPrefix(c: Config, a: seq<Entry>, b: seq<Entry>, n: nat)
    requires n <= |a|
    ensures After(c, a + b, n) == After(c, a, n)
  {
    if n > 0 {
      AfterPrefix(c, a, b, n - 1);
      assert (a + b)[n - 1] == a[n - 1];
    }
  }

  // ---- The transaction according to the log -------------------------------

  predicate IsMail(e: Entry) {
    e.Got? && e.command.Mail? && e.command.fields != []
  }

  predicate IsRecipient(e: Entry) {
    e.Got? && e.command.Recipient? && e.command.fields != []
  }

  /** A decision about this command ends the transaction. */
  predicate EndsAfter(command: Command, v: Verdict) {
    v.Shutdown? || command.EndMessage? || Finishes(v) || (command.Mail? && Rejects(v))
  }

  /** Entry `i` ends whatever transaction is open. */
  predicate Ends(log: seq<Entry>, i: nat)
    requires i < |log|
  {
    match log[i]
    case Got(command) => command.Abort? || command.Quit? || command.QuitNewConnection?
    case Took(d) => i > 0 && log[i - 1].Got? && EndsAfter(log[i - 1].command, d.verdict)
  }

  /** The MAIL that opened the current transaction. */
  function Opened(log: seq<Entry>, n: nat): (r: Option<nat>)
    requires n <= |log|
    ensures r.Some? ==> r.value < n && IsMail(log[r.value])
    ensures r.Some? ==> forall i :: r.value < i < n ==> !IsMail(log[i]) && !Ends(log, i)
  {
    if n == 0 then None
    else if IsMail(log[n - 1]) then Some(n - 1)
    else if Ends(log, n - 1) then None
    else Opened(log, n - 1)
  }

  /** Entry `i` is answered, before `n`, by a refusal. */
  predicate Refused(log: seq<Entry>, i: nat, n: nat)
    requires i < n <= |log|
  {
    i + 1 < n && log[i + 1].Took? && Rejects(log[i + 1].decision.verdict)
  }

  /** Recipients of entries after `m` and before `k` that were not refused before `n`. */
  function Standing(log: seq<Entry>, m: nat, k: nat, n: nat): seq<Party>
    requires m < k <= n <= |log|
  {
    if k == m + 1 then []
    else if IsRecipient(log[k - 1]) && !Refused(log, k - 1, n) then
      Standing(log, m, k - 1, n) + [Party(log[k - 1].command.fields[0], log[k - 1].command.fields[1..])]
    else Standing(log, m, k - 1, n)
  }

  function Headers(log: seq<Entry>, m: nat, n: nat): seq<Field>
    requires m < n <= |log|
  {
    if n == m + 1 then []
    else if log[n - 1].Got? && log[n - 1].command.Header? then
      Headers(log, m, n - 1) + [Field(log[n - 1].command.name, log[n - 1].command.value)]
    else Headers(log, m, n - 1)
  }

  function Content(log: seq<Entry>, m: nat, n: nat): Bytes
    requires m < n <= |log|
  {
    if n == m + 1 then []
    else if log[n - 1].Got? && log[n - 1].command.Body? then Content(log, m, n - 1) + log[n - 1].command.chunk
    else Content(log, m, n - 1)
  }

  /** Payload bytes of the MAIL at `m` and of every RCPT since, refused or not. */
  function Envelope(log: seq<Entry>, m: nat, n: nat): nat
    requires m < n <= |log| && IsMail(log[m])
  {
    if n == m + 1 then |Join(log[m].command.fields)|
    else Envelope(log, m, n - 1) + if IsRecipient(log[n - 1]) then |Join(log[n - 1].command.fields)| else 0
  }

  /** What one command adds to the message. */
  function Charge(e: Entry): nat {
    if !e.Got? then 0
    else
      match e.command
      case Header(name, value) => |name| + |value| + 4
      case EndHeaders => 2
      case Body(chunk) => |chunk|
      case _ => 0
  }

  /** Message bytes since the MAIL at `m`. */
  function Charged(log: seq<Entry>, m: nat, n: nat): nat
    requires m < n <= |log|
  {
    if n == m + 1 then 0 else Charged(log, m, n - 1) + Charge(log[n - 1])
  }

  /** The transaction as the log tells it. */
  predicate Tells(log: seq<Entry>, m: nat, n: nat, t: Transaction)
    requires m < n <= |log| && IsMail(log[m])
  {
    && t.sender == Some(Party(log[m].command.fields[0], log[m].command.fields[1..]))
    && t.recipients == Standing(log, m, n, n)
    && t.headers == Headers(log, m, n)
    && t.body == Content(log, m, n)
    && t.envelopeBytes == Envelope(log, m, n)
    && t.bytes == Charged(log, m, n)
  }

  predicate Explained(log: seq<Entry>, n: nat, t: Transaction)
    requires n <= |log|
  {
    match Opened(log, n)
    case None => t == NO_TRANSACTION
    case Some(m) => Tells(log, m, n, t)
  }

  /** A pending callback is about the entry just received. */
  predicate PendingIsLast(log: seq<Entry>, n: nat, s: Session)
    requires n <= |log|
  {
    s.pending.Some? ==> n > 0 && log[n - 1].Got? && StageOf(log[n - 1].command) == s.pending
  }

  // ---- One entry more -----------------------------------------------------

  /** The envelope charge is the payload of the command. */
  lemma {:induction false} CostIsPayload(fields: seq<Bytes>)
    ensures EnvelopeCost(fields) == |Join(fields)|
  {
    if fields != [] {
      CostIsPayload(fields[..|fields| - 1]);
    }
  }

  lemma {:induction false} StandingHorizon(log: seq<Entry>, m: nat, k: nat, n: nat)
    requires m < k <= n < |log|
    requires k < n || !log[n].Took? || !Rejects(log[n].decision.verdict)
    ensures Standing(log, m, k, n + 1) == Standing(log, m, k, n)
  {
    if k > m + 1 {
      StandingHorizon(log, m, k - 1, n);
    }
  }

  /** An entry that is neither a recipient nor a refusal leaves the recipients alone. */
  lemma {:induction false} StandingStays(log: seq<Entry>, m: nat, n: nat)
    requires m < n < |log| && !IsRecipient(log[n])
    requires !log[n].Took? || !Rejects(log[n].decision.verdict)
    ensures Standing(log, m, n + 1, n + 1) == Standing(log, m, n, n)
  {
    StandingHorizon(log, m, n, n);
  }

  lemma {:induction false} StandingGrows(log: seq<Entry>, m: nat, n: nat)
    requires m < n < |log| && IsRecipient(log[n])
    ensures Standing(log, m, n + 1, n + 1) == Standing(log, m, n, n) + [Party(log[n].command.fields[0], log[n].command.fields[1..])]
  {
    StandingHorizon(log, m, n, n);
  }

  /** A refusal removes exactly the recipient it answers. */
  lemma {:induction false} StandingDrops(log: seq<Entry>, m: nat, n: nat)
    requires m < n < |log| && n > 0 && log[n].Took? && Rejects(log[n].decision.verdict)
    requires m < n - 1 && IsRecipient(log[n - 1])
    ensures Standing(log, m, n, n) == Standing(log, m, n + 1, n + 1) + [Party(log[n - 1].command.fields[0], log[n - 1].command.fields[1..])]
  {
    StandingHorizon(log, m, n - 1, n);
    assert !Refused(log, n - 1, n);
    assert Refused(log, n - 1, n + 1);
    assert Standing(log, m, n, n + 1) == Standing(log, m, n - 1, n + 1);
  }

  // ---- What an entry does to the transaction ------------------------------

  predicate IsContent(command: Command) {
    command.Recipient? || command.Header? || command.EndHeaders? || command.Body?
  }

  predicate IsEnd(command: Command) {
    command.Abort? || command.Quit? || command.QuitNewConnection?
  }

  /** The transaction after an accepted command. */
  function Extended(m: Transaction, command: Command): Transaction
    requires WellFormed(command)
  {
    match command
    case Mail(fields) => NO_TRANSACTION.(sender := Some(Party(fields[0], fields[1..])), envelopeBytes := EnvelopeCost(fields))
    case Recipient(fields) =>
      m.(recipients := m.recipients + [Party(fields[0], fields[1..])], envelopeBytes := m.envelopeBytes + EnvelopeCost(fields))
    case Header(name, value) => m.(headers := m.headers + [Field(name, value)], bytes := m.bytes + HeaderCost(Field(name, value)))
    case EndHeaders => m.(bytes := m.bytes + 2)
    case Body(chunk) => m.(body := m.body + chunk, bytes := m.bytes + |chunk|)
    case _ => if IsEnd(command) then NO_TRANSACTION else m
  }

  lemma {:induction false} ActExtends(c: Config, s: Session, command: Command)
    requires WellFormed(command) && Shape(s) && Prepared(s, command) && Act(c, s, command).Ok?
    requires command.Mail? ==> s.message == NO_TRANSACTION
    ensures Act(c, s, command).value.message == Extended(s.message, command)
    ensures IsContent(command) ==> s.message.sender.Some?
  {
  }

  predicate Plain(command: Command) {
    !command.Negotiate? && !command.Macro?
  }

  /** A handled command has been prepared, acted on and answered. */
  lemma {:induction false} HandleActs(c: Config, s: Session, command: Command, t: Session)
    requires Advance(c, s, Entry.Got(command)) == Some(t) && Plain(command)
    ensures WellFormed(command) && Prepared(s, command) && Act(c, Prepare(s, command), command).Ok?
    ensures t == Answer(c, Act(c, Prepare(s, command), command).value, command).0
  {
  }

  lemma {:induction false} HandleQuiet(c: Config, s: Session, command: Command, t: Session)
    requires Advance(c, s, Entry.Got(command)) == Some(t) && !Plain(command)
    ensures WellFormed(command) && t.message == s.message && t.pending.None?
  {
  }

  /** A command handled: its transaction, and what is pending. */
  lemma {:induction false} HandleExtends(c: Config, s: Session, command: Command, t: Session)
    requires Inv(c, s) && Advance(c, s, Entry.Got(command)) == Some(t)
    ensures WellFormed(command) && t.message == Extended(s.message, command)
    ensures IsContent(command) ==> s.message.sender.Some?
    ensures t.pending == Event(c, command)
  {
    if Plain(command) {
      HandleActs(c, s, command, t);
      PlainExtends(c, s, command);
    } else {
      HandleQuiet(c, s, command, t);
    }
  }

  lemma {:induction false} PlainExtends(c: Config, s: Session, command: Command)
    requires Inv(c, s) && WellFormed(command) && Plain(command) && Prepared(s, command)
    requires Act(c, Prepare(s, command), command).Ok?
    ensures var t := Act(c, Prepare(s, command), command).value;
            && t.message == Extended(s.message, command) && t.pending.None?
            && (IsContent(command) ==> s.message.sender.Some?)
  {
    var p := Prepare(s, command);
    PrepareKeeps(s, command);
    PrepareInv(c, s, command);
    ActExtends(c, p, command);
    ActShape(c, p, command);
    if command.Mail? {
      MailIgnoresPast(s.message, command);
    }
  }

  lemma {:induction false} MailIgnoresPast(m: Transaction, command: Command)
    requires WellFormed(command) && command.Mail?
    ensures Extended(m, command) == Extended(NO_TRANSACTION, command)
  {
  }

  /** The transaction after a decision about a command. */
  function Judged(m: Transaction, command: Command, v: Verdict): Transaction {
    if EndsAfter(command, v) then NO_TRANSACTION
    else if command.Recipient? && Rejects(v) then m.(recipients := DropLast(m.recipients))
    else m
  }

  lemma {:induction false} SettleJudges(s: Session, command: Command, v: Verdict)
    requires Shape(s) && StageOf(command).Some? && s.state == StateAt(StageOf(command).value)
    ensures Settle(s, StageOf(command).value, v).message == Judged(s.message, command, v)
  {
  }

  lemma {:induction false} CompleteJudges(c: Config, s: Session, command: Command, d: Decision, t: Session)
    requires Inv(c, s) && Advance(c, s, Took(d)) == Some(t) && s.pending == StageOf(command)
    ensures StageOf(command).Some? && t.message == Judged(s.message, command, d.verdict) && t.pending.None?
  {
    SettleJudges(s, command, d.verdict);
    SettleShape(s, d.verdict);
  }

  // ---- And the log says the same ------------------------------------------

  lemma {:induction false} MailTold(log: seq<Entry>, n: nat, m: Transaction)
    requires n < |log| && IsMail(log[n]) && WellFormed(log[n].command)
    ensures Explained(log, n + 1, Extended(m, log[n].command))
  {
    CostIsPayload(log[n].command.fields);
  }

  lemma {:induction false} RecipientTold(log: seq<Entry>, n: nat, m: Transaction)
    requires n < |log| && IsRecipient(log[n]) && WellFormed(log[n].command) && Explained(log, n, m) && m.sender.Some?
    ensures Explained(log, n + 1, Extended(m, log[n].command))
  {
    StandingGrows(log, Opened(log, n).value, n);
    CostIsPayload(log[n].command.fields);
  }

  lemma {:induction false} ContentTold(log: seq<Entry>, n: nat, m: Transaction)
    requires n < |log| && log[n].Got? && (log[n].command.Header? || log[n].command.EndHeaders? || log[n].command.Body?)
    requires WellFormed(log[n].command) && Explained(log, n, m) && m.sender.Some?
    ensures Explained(log, n + 1, Extended(m, log[n].command))
  {
    StandingStays(log, Opened(log, n).value, n);
  }

  /** Entries with no bearing on the transaction. */
  predicate Neutral(e: Entry) {
    match e
    case Got(command) => !command.Mail? && !IsContent(command) && !IsEnd(command)
    case Took(d) => !Rejects(d.verdict)
  }

  lemma {:induction false} NeutralTold(log: seq<Entry>, n: nat, m: Transaction)
    requires n < |log| && Neutral(log[n]) && !Ends(log, n) && Explained(log, n, m)
    ensures Explained(log, n + 1, m)
  {
    if Opened(log, n).Some? {
      StandingStays(log, Opened(log, n).value, n);
    }
  }

  lemma {:induction false} GotTold(log: seq<Entry>, n: nat, m: Transaction)
    requires n < |log| && log[n].Got? && WellFormed(log[n].command) && Explained(log, n, m)
    requires IsContent(log[n].command) ==> m.sender.Some?
    ensures Explained(log, n + 1, Extended(m, log[n].command))
  {
    var command := log[n].command;
    if command.Mail? {
      MailTold(log, n, m);
    } else if command.Recipient? {
      RecipientTold(log, n, m);
    } else if IsContent(command) {
      ContentTold(log, n, m);
    } else if !IsEnd(command) {
      NeutralTold(log, n, m);
    }
  }

  lemma {:induction false} RefusalTold(log: seq<Entry>, n: nat, m: Transaction)
    requires 0 < n < |log| && log[n].Took? && Rejects(log[n].decision.verdict) && !Ends(log, n)
    requires IsRecipient(log[n - 1]) && Explained(log, n, m) && m.sender.Some?
    ensures Explained(log, n + 1, m.(recipients := DropLast(m.recipients)))
  {
    var o := Opened(log, n).value;
    StandingDrops(log, o, n);
    assert DropLast(m.recipients) == Standing(log, o, n + 1, n + 1);
  }

  lemma {:induction false} TookTold(log: seq<Entry>, n: nat, m: Transaction)
    requires 0 < n < |log| && log[n].Took? && log[n - 1].Got? && WellFormed(log[n - 1].command) && Explained(log, n, m)
    requires log[n - 1].command.Recipient? ==> m.sender.Some?
    requires log[n - 1].command.Connect? || log[n - 1].command.Helo? ==> m == NO_TRANSACTION
    requires StageOf(log[n - 1].command).Some?
    ensures Explained(log, n + 1, Judged(m, log[n - 1].command, log[n].decision.verdict))
  {
    var command, v := log[n - 1].command, log[n].decision.verdict;
    if !Ends(log, n) {
      if !Rejects(v) {
        NeutralTold(log, n, m);
      } else if command.Recipient? {
        RefusalTold(log, n, m);
      }
    }
  }

  // ---- Every run ----------------------------------------------------------

  /** `s` is the session after the first `n` entries. */
  predicate Reaches(c: Config, log: seq<Entry>, n: nat, s: Session)
    requires n <= |log|
  {
    After(c, log, n) == Some(s)
  }

  /** The last entry of a run, with the sessions before and after it. */
  lemma {:induction false} LastEntry(c: Config, log: seq<Entry>, n: nat) returns (s: Session, t: Session)
    requires 0 < n <= |log| && After(c, log, n).Some?
    ensures Reaches(c, log, n - 1, s) && Reaches(c, log, n, t) && Advance(c, s, log[n - 1]) == Some(t)
  {
    s, t := After(c, log, n - 1).value, After(c, log, n).value;
  }

  lemma {:induction false} LogWellFormed(c: Config, log: seq<Entry>, n: nat, i: nat)
    requires i < n <= |log| && After(c, log, n).Some?
    ensures log[i].Got? ==> WellFormed(log[i].command)
  {
    var s, t := LastEntry(c, log, n);
    if i < n - 1 {
      LogWellFormed(c, log, n - 1, i);
    } else {
      assert log[i].Got? ==> Advance(c, s, log[i]).Some?;
    }
  }

  lemma {:induction false} AdvanceInv(c: Config, s: Session, e: Entry)
    requires Inv(c, s) && Advance(c, s, e).Some?
    ensures Inv(c, Advance(c, s, e).value)
  {
    match e
    case Got(command) => HandleInv(c, s, command);
    case Took(d) => CompleteInv(c, s, d);
  }

  predicate Told(c: Config, log: seq<Entry>, n: nat, s: Session)
    requires n <= |log|
  {
    Inv(c, s) && Explained(log, n, s.message) && PendingIsLast(log, n, s)
  }

  lemma {:induction false} GotStep(c: Config, log: seq<Entry>, n: nat, s: Session, t: Session)
    requires n < |log| && log[n].Got? && Told(c, log, n, s) && Advance(c, s, log[n]) == Some(t)
    ensures Explained(log, n + 1, t.message) && PendingIsLast(log, n + 1, t)
  {
    HandleExtends(c, s, log[n].command, t);
    GotTold(log, n, s.message);
  }

  lemma {:induction false} TookStep(c: Config, log: seq<Entry>, n: nat, s: Session, t: Session)
    requires n < |log| && log[n].Took? && Told(c, log, n, s) && Advance(c, s, log[n]) == Some(t)
    requires n > 0 && log[n - 1].Got? ==> WellFormed(log[n - 1].command)
    ensures Explained(log, n + 1, t.message) && PendingIsLast(log, n + 1, t)
  {
    assert s.pending.Some?;
    CompleteJudges(c, s, log[n - 1].command, log[n].decision, t);
    TookTold(log, n, s.message);
  }

  lemma {:induction false} StepTold(c: Config, log: seq<Entry>, n: nat, s: Session, t: Session)
    requires n < |log| && Told(c, log, n, s) && Advance(c, s, log[n]) == Some(t)
    requires n > 0 && log[n - 1].Got? ==> WellFormed(log[n - 1].command)
    ensures Told(c, log, n + 1, t)
  {
    AdvanceInv(c, s, log[n]);
    if log[n].Got? {
      GotStep(c, log, n, s, t);
    } else {
      TookStep(c, log, n, s, t);
    }
  }

  /** In every reachable state the invariant holds, and the transaction is exactly what the
      log since the last MAIL says. */
  lemma {:induction false} RunExplained(c: Config, log: seq<Entry>, n: nat)
    requires n <= |log| && After(c, log, n).Some?
    ensures Told(c, log, n, After(c, log, n).value)
  {
    if n == 0 {
      FreshInv(c);
    } else {
      RunExplained(c, log, n - 1);
      if n > 1 {
        LogWellFormed(c, log, n - 1, n - 2);
      }
      var s, t := LastEntry(c, log, n);
      StepTold(c, log, n - 1, s, t);
    }
  }

  lemma {:induction false} RunPending(c: Config, log: seq<Entry>, n: nat)
    requires n <= |log| && After(c, log, n).Some?
    ensures PendingIsLast(log, n, After(c, log, n).value)
  {
    RunExplained(c, log, n);
  }

  /** At every end-of-message callback the policy sees the last MAIL's sender, exactly the
      recipients not refused since, and the headers and body received since; no transaction
      boundary lies in between. */
  lemma {:induction false} SnapshotIsHistory(c: Config, log: seq<Entry>) returns (m: nat)
    requires After(c, log, |log|).Some? && After(c, log, |log|).value.pending == Some(AtEnd)
    ensures m < |log| && IsMail(log[m])
    ensures forall i :: m < i < |log| ==> !IsMail(log[i]) && !Ends(log, i)
    ensures Tells(log, m, |log|, After(c, log, |log|).value.message)
    ensures After(c, log, |log|).value.message.recipients != []
  {
    RunExplained(c, log, |log|);
    m := Opened(log, |log|).value;
  }

  // ---- Envelope budget ----------------------------------------------------

  function RecipientCommands(log: seq<Entry>, m: nat, n: nat): nat
    requires m < n <= |log|
  {
    if n == m + 1 then 0 else RecipientCommands(log, m, n - 1) + if IsRecipient(log[n - 1]) then 1 else 0
  }

  lemma {:induction false} FirstFieldCosts(fields: seq<Bytes>)
    requires fields != [] && fields[0] != []
    ensures |Join(fields)| >= 2
  {
    if |fields| > 1 {
      FirstFieldCosts(fields[..|fields| - 1]);
    }
  }

  predicate Sound(e: Entry) {
    e.Got? ==> WellFormed(e.command)
  }

  lemma {:induction false} RecipientsCost(log: seq<Entry>, m: nat, n: nat)
    requires m < n <= |log| && IsMail(log[m]) && forall i :: m <= i < n ==> Sound(log[i])
    ensures Envelope(log, m, n) >= 2 + 2 * RecipientCommands(log, m, n)
  {
    assert Sound(log[n - 1]);
    if n == m + 1 {
      FirstFieldCosts(log[m].command.fields);
    } else {
      RecipientsCost(log, m, n - 1);
      if IsRecipient(log[n - 1]) {
        FirstFieldCosts(log[n - 1].command.fields);
      }
    }
  }

  /** Refused recipients are charged too: one transaction never takes more RCPT commands
      than half the envelope budget. */
  lemma {:induction false} RecipientsBounded(c: Config, log: seq<Entry>, n: nat)
    requires n <= |log| && After(c, log, n).Some? && Opened(log, n).Some?
    ensures 2 + 2 * RecipientCommands(log, Opened(log, n).value, n) <= c.limits.envelopeBytes
  {
    RunExplained(c, log, n);
    forall i: nat | i < n
      ensures Sound(log[i])
    {
      LogWellFormed(c, log, n, i);
    }
    RecipientsCost(log, Opened(log, n).value, n);
  }
}
