/** Acceptance from the log alone: a command is taken exactly when nothing waits for a decision,
    it is in the protocol's order and within the limits; a decision exactly when one is waited for
    and it can be put on the wire; and the logs that obey this are exactly the runs
    (src/session.rs:258-568). */
module Acceptance {
  import opened Octets
  import opened Wire
  import opened Modifications
  import opened Mta
  import opened Protocol
  import opened SessionInvariant
  import opened History
  import opened MacroHistory
  import opened ProtocolOrder
  import opened FinalReplies
  import S = Sessions

  // ---- Limits -------------------------------------------------------------

  function BatchCost(b: Option<Batch>): nat {
    if b.Some? then BatchBytes(b.value) else 0
  }

  /** Bytes of the batches active and waiting for the first `k` stage letters. */
  function MacroCost(log: seq<Entry>, n: nat, k: nat): nat
    requires n <= |log| && k <= |STAGES|
  {
    if k == 0 then 0
    else MacroCost(log, n, k - 1) + BatchCost(Active(log, n, STAGES[k - 1])) + BatchCost(Waiting(log, n, STAGES[k - 1]))
  }

  /** Within the transaction opened at `m`. */
  predicate AffordableSince(c: Config, log: seq<Entry>, m: nat, command: Command)
    requires m < |log| && IsMail(log[m])
  {
    var n := |log|;
    && (command.Recipient? ==>
          Envelope(log, m, n) + |Join(command.fields)| <= c.limits.envelopeBytes && |Standing(log, m, n, n)| < c.limits.recipients)
    && (command.Header? ==>
          && Charged(log, m, n) + |command.name| + |command.value| + 4 <= c.limits.messageBytes
          && |Headers(log, m, n)| < c.limits.headers)
    && (command.EndHeaders? ==> Charged(log, m, n) + 2 <= c.limits.messageBytes)
    && (command.Body? ==> Charged(log, m, n) + |command.chunk| <= c.limits.messageBytes)
  }

  /** The command is within the limits. */
  predicate Affordable(c: Config, log: seq<Entry>, command: Command) {
    && (command.Negotiate? ==> command.options.version >= 6 && c.macroRequest.Ok?)
    && (command.Macro? ==> MacroCost(log + [Entry.Got(command)], |log| + 1, |STAGES|) <= c.limits.macroBytes)
    && (command.Mail? ==> |Join(command.fields)| <= c.limits.envelopeBytes)
    && (Opened(log, |log|).Some? ==> AffordableSince(c, log, Opened(log, |log|).value, command))
  }

  predicate Allowed(c: Config, log: seq<Entry>, command: Command) {
    && WellFormed(command) && !Waits(c, log, |log|)
    && InOrder(Phase(log, |log|), command) && Affordable(c, log, command)
  }

  // ---- The session's limits are the log's ---------------------------------

  /** Room in the transaction for a command that is in order. */
  predicate Room(c: Config, m: Transaction, command: Command) {
    match command
    case Mail(fields) => EnvelopeCost(fields) <= c.limits.envelopeBytes
    case Recipient(fields) =>
      m.envelopeBytes + EnvelopeCost(fields) <= c.limits.envelopeBytes && |m.recipients| < c.limits.recipients
    case Header(name, value) =>
      m.bytes + |name| + |value| + 4 <= c.limits.messageBytes && |m.headers| < c.limits.headers
    case EndHeaders => m.bytes + 2 <= c.limits.messageBytes
    case Body(chunk) => m.bytes + |chunk| <= c.limits.messageBytes
    case _ => true
  }

  lemma {:induction false} ActIff(c: Config, s: Session, command: Command)
    requires WellFormed(command) && Plain(command) && Prepared(s, command)
    requires command.Mail? ==> s.message == NO_TRANSACTION
    ensures Act(c, s, command).Ok? <==> InOrder(s.state, command) && Room(c, s.message, command)
  {
  }

  lemma {:induction false} HandleIff(c: Config, s: Session, command: Command)
    requires WellFormed(command) && Plain(command)
    ensures Handle(c, s, command).Ok? <==>
            s.pending.None? && s.state != Initial && s.state != Closed && InOrder(s.state, command) && Room(c, s.message, command)
  {
    PrepareKeeps(s, command);
    RoomIgnoresPast(c, s.message, command);
    if s.pending.None? && s.state != Initial && s.state != Closed && (command.Mail? ==> s.state == Ready) {
      ActIff(c, Prepare(s, command), command);
    }
  }

  lemma {:induction false} RoomIgnoresPast(c: Config, m: Transaction, command: Command)
    ensures command.Mail? ==> Room(c, m, command) == Room(c, NO_TRANSACTION, command)
  {
  }

  lemma {:induction false} RoomIsAffordable(c: Config, log: seq<Entry>, m: Transaction, command: Command)
    requires Explained(log, |log|, m) && WellFormed(command) && Plain(command)
    requires IsContent(command) ==> m.sender.Some?
    ensures Room(c, m, command) <==> Affordable(c, log, command)
  {
    if command.Mail? || command.Recipient? {
      CostIsPayload(command.fields);
    }
  }

  lemma {:induction false} ContentIsInside(c: Config, log: seq<Entry>, s: Session, command: Command)
    requires Told(c, log, |log|, s) && InOrder(s.state, command) && IsContent(command)
    ensures s.message.sender.Some?
  {
  }

  // ---- Macros -------------------------------------------------------------

  lemma {:induction false} CostTold(log: seq<Entry>, n: nat, s: Session, k: nat)
    requires n <= |log| && k <= |STAGES| && forall j :: 0 <= j < k ==> MacrosTold(log, n, s, STAGES[j])
    ensures MacroBytes(s.macros, s.waiting, k) == MacroCost(log, n, k)
  {
    if k > 0 {
      CostTold(log, n, s, k - 1);
      assert MacrosTold(log, n, s, STAGES[k - 1]);
    }
  }

  lemma {:induction false} BatchAdded(log: seq<Entry>, s: Session, command: Command, x: Byte)
    requires command.Macro? && MacrosTold(log, |log|, s, x)
    ensures var more := log + [Entry.Got(command)];
            MacrosTold(more, |log| + 1, s.(waiting := s.waiting[command.stage := Collect(command.values)]), x)
  {
    var more := log + [Entry.Got(command)];
    LogPrefix(log, Entry.Got(command), |log|, x);
  }

  lemma {:induction false} LogPrefix(log: seq<Entry>, e: Entry, n: nat, x: Byte)
    requires n <= |log|
    ensures Active(log + [e], n, x) == Active(log, n, x) && Waiting(log + [e], n, x) == Waiting(log, n, x)
  {
    if n > 0 {
      LogPrefix(log, e, n - 1, x);
      assert (log + [e])[n - 1] == log[n - 1];
      assert Forgets(log + [e], n - 1, x) == Forgets(log, n - 1, x);
    }
  }

  lemma {:induction false} StagesAreLetters(j: nat)
    requires j < |STAGES|
    ensures MacroStage(STAGES[j])
  {
  }

  lemma {:induction false} AddedTold(c: Config, log: seq<Entry>, s: Session, command: Command, j: nat)
    requires j < |STAGES| && command.Macro? && After(c, log, |log|) == Some(s)
    ensures MacrosTold(log + [Entry.Got(command)], |log| + 1,
                       s.(waiting := s.waiting[command.stage := Collect(command.values)]), STAGES[j])
  {
    StagesAreLetters(j);
    RunMacros(c, log, |log|, STAGES[j]);
    BatchAdded(log, s, command, STAGES[j]);
  }

  lemma {:induction false} MacroIff(c: Config, log: seq<Entry>, s: Session, command: Command)
    requires command.Macro? && After(c, log, |log|) == Some(s)
    ensures MacroStep(c, s, command.stage, command.values).Ok? <==>
            MacroCost(log + [Entry.Got(command)], |log| + 1, |STAGES|) <= c.limits.macroBytes
  {
    var more := log + [Entry.Got(command)];
    var next := s.(waiting := s.waiting[command.stage := Collect(command.values)]);
    forall j: nat | j < |STAGES|
      ensures MacrosTold(more, |log| + 1, next, STAGES[j])
    {
      AddedTold(c, log, s, command, j);
    }
    CostTold(more, |log| + 1, next, |STAGES|);
  }

  // ---- Commands -----------------------------------------------------------

  /** A command is accepted in a reachable session exactly when the log allows it. */
  lemma {:induction false} CommandAccepted(c: Config, log: seq<Entry>, s: Session, command: Command)
    requires After(c, log, |log|) == Some(s) && WellFormed(command)
    ensures Handle(c, s, command).Ok? <==> Allowed(c, log, command)
  {
    RunPlaced(c, log, |log|);
    if Plain(command) {
      PlainAccepted(c, log, s, command);
    } else {
      if command.Macro? {
        MacroIff(c, log, s, command);
      }
      QuietAllowed(c, log, s, command);
    }
  }

  lemma {:induction false} QuietAllowed(c: Config, log: seq<Entry>, s: Session, command: Command)
    requires Situated(c, log, |log|, s) && WellFormed(command) && !Plain(command)
    requires command.Macro? ==>
               (MacroStep(c, s, command.stage, command.values).Ok? <==>
                MacroCost(log + [Entry.Got(command)], |log| + 1, |STAGES|) <= c.limits.macroBytes)
    ensures Handle(c, s, command).Ok? <==> Allowed(c, log, command)
  {
    QuietAccepted(c, s, command);
  }

  lemma {:induction false} PlainAccepted(c: Config, log: seq<Entry>, s: Session, command: Command)
    requires Placed(c, log, |log|, s) && WellFormed(command) && Plain(command)
    ensures Handle(c, s, command).Ok? <==> Allowed(c, log, command)
  {
    HandleIff(c, s, command);
    if InOrder(s.state, command) {
      if IsContent(command) {
        ContentIsInside(c, log, s, command);
      }
      RoomIsAffordable(c, log, s.message, command);
      OrderedPhase(s.state, command);
    }
  }

  lemma {:induction false} OrderedPhase(phase: State, command: Command)
    requires InOrder(phase, command) && Plain(command)
    ensures phase != Initial && phase != Closed
  {
  }

  lemma {:induction false} QuietAccepted(c: Config, s: Session, command: Command)
    requires WellFormed(command) && !Plain(command)
    ensures Handle(c, s, command).Ok? <==>
            && s.pending.None? && InOrder(s.state, command)
            && (if command.Macro? then MacroStep(c, s, command.stage, command.values).Ok?
                else command.options.version >= 6 && c.macroRequest.Ok?)
  {
  }

  // ---- Decisions ----------------------------------------------------------

  /** The action bit an edit needs, by its response letter: h i m b e + 2 - q. */
  function LetterBit(letter: Byte): bv32 {
    if letter == 104 || letter == 105 then 0x01
    else if letter == 109 then 0x10
    else if letter == 98 then 0x02
    else if letter == 101 then 0x40
    else if letter == 43 then 0x04
    else if letter == 50 then 0x80
    else if letter == 45 then 0x08
    else if letter == 113 then 0x20
    else 0
  }

  /** The capability checked is the one the letters on the wire need. */
  lemma {:induction false} CapabilityIsLetter(m: Modification, leading: bool)
    requires Frames(m, leading).Ok?
    ensures var fs := Frames(m, leading).value;
            fs != [] && forall k :: 0 <= k < |fs| ==> LetterBit(fs[k].command) == Capability(m)
  {
    if m.ReplaceBody? {
      BodyFramesCarryBody(m.body);
    }
  }

  /** The bit was agreed on. */
  predicate Agreed(o: Options, bit: bv32) {
    o.actions & bit != 0
  }

  predicate FrameAllowed(c: Config, o: Options, f: Frame) {
    Agreed(o, LetterBit(f.command)) && |f.payload| + 1 <= c.limits.frameBytes
  }

  predicate FramesAllowed(c: Config, o: Options, fs: seq<Frame>) {
    forall k :: 0 <= k < |fs| ==> FrameAllowed(c, o, fs[k])
  }

  /** Colon spaces dropped from raw insertions are still counted. */
  function Slack(m: Modification, leading: bool): nat {
    if m.InsertRawHeader? && !leading then 1 else 0
  }

  /** Every modification can be encoded, each of its frames is agreed on and within the frame
      limit, and the bytes up to it are within the message limit. */
  predicate ScriptAllowed(c: Config, o: Options, leading: bool, mods: seq<Modification>) {
    mods == [] ||
    (var front, last := mods[..|mods| - 1], mods[|mods| - 1];
     && ScriptAllowed(c, o, leading, front)
     && AllEncodable(front, leading) && Frames(last, leading).Ok?
     && FramesAllowed(c, o, Frames(last, leading).value)
     && TotalPayload(ScriptFrames(front, leading)) + TotalPayload(Frames(last, leading).value) + Slack(last, leading) <= c.limits.messageBytes)
  }

  lemma {:induction false} AgreedByLetter(o: Options, m: Modification)
    ensures Protocol.Allowed(o, m) <==> Agreed(o, Capability(m))
  {
  }

  lemma {:induction false} FramesAllowedIff(c: Config, o: Options, m: Modification, leading: bool)
    requires Frames(m, leading).Ok?
    ensures FramesAllowed(c, o, Frames(m, leading).value) <==>
            Protocol.Allowed(o, m) && !Oversized(Frames(m, leading).value, c.limits.frameBytes)
  {
    var fs := Frames(m, leading).value;
    CapabilityIsLetter(m, leading);
    AgreedByLetter(o, m);
    AllowedOneByOne(c, o, fs, Capability(m));
  }

  lemma {:induction false} AllowedOneByOne(c: Config, o: Options, fs: seq<Frame>, bit: bv32)
    requires fs != [] && forall k :: 0 <= k < |fs| ==> LetterBit(fs[k].command) == bit
    ensures FramesAllowed(c, o, fs) <==> Agreed(o, bit) && !Oversized(fs, c.limits.frameBytes)
  {
    assert LetterBit(fs[0].command) == bit;
    if FramesAllowed(c, o, fs) {
      assert FrameAllowed(c, o, fs[0]);
      assert forall k :: 0 <= k < |fs| ==> FrameAllowed(c, o, fs[k]);
    }
  }

  lemma {:induction false} SerialiseIff(c: Config, o: Options, leading: bool, before: seq<Frame>, m: Modification)
    ensures Serialise(c, o, leading, TotalPayload(before), m).Ok? <==>
            && Frames(m, leading).Ok? && FramesAllowed(c, o, Frames(m, leading).value)
            && TotalPayload(before) + TotalPayload(Frames(m, leading).value) + Slack(m, leading) <= c.limits.messageBytes
  {
    if Frames(m, leading).Ok? {
      SizePrediction(m, leading);
      FramesAllowedIff(c, o, m, leading);
    }
  }

  lemma {:induction false} ScriptIff(c: Config, o: Options, leading: bool, mods: seq<Modification>)
    ensures SerialiseAll(c, o, leading, mods).Ok? <==> ScriptAllowed(c, o, leading, mods)
  {
    if mods != [] {
      var front, last := mods[..|mods| - 1], mods[|mods| - 1];
      ScriptIff(c, o, leading, front);
      if SerialiseAll(c, o, leading, front).Ok? {
        S.SerialisedScript(c, o, leading, front);
        SerialiseIff(c, o, leading, SerialiseAll(c, o, leading, front).value, last);
      }
    }
  }

  lemma {:induction false} ScriptFramesAllowed(c: Config, o: Options, leading: bool, mods: seq<Modification>)
    requires ScriptAllowed(c, o, leading, mods)
    ensures AllEncodable(mods, leading) && FramesAllowed(c, o, ScriptFrames(mods, leading))
  {
    if mods != [] {
      ScriptFramesAllowed(c, o, leading, mods[..|mods| - 1]);
      S.EncodableSnoc(mods, leading);
    }
  }

  /** An edit reaches the MTA only if the action its letter stands for was agreed on. */
  lemma {:induction false} OnlyAgreedEdits(c: Config, s: Session, d: Decision)
    requires DecisionFrames(c, s, d).Ok?
    ensures var fs := DecisionFrames(c, s, d).value;
            fs != [] && s.options.Some? && FramesAllowed(c, s.options.value, fs[..|fs| - 1])
  {
    var fs, o := DecisionFrames(c, s, d).value, s.options.value;
    var edits := SerialiseAll(c, o, LeadingSpace(s), d.modifications).value;
    ScriptIff(c, o, LeadingSpace(s), d.modifications);
    ScriptFramesAllowed(c, o, LeadingSpace(s), d.modifications);
    S.SerialisedScript(c, o, LeadingSpace(s), d.modifications);
    assert fs[..|fs| - 1] == [] || fs[..|fs| - 1] == edits;
  }

  predicate ReplyAllowed(c: Config, v: Verdict) {
    match v
    case Reply(code, enhanced, text) =>
      && 400 <= code < 600 && Clean(text) && (enhanced.Some? ==> EnhancedCode(code, enhanced.value))
      && |ReplyText(code, enhanced, text)| + 2 <= c.limits.frameBytes
    case _ => c.limits.frameBytes >= 1
  }

  lemma {:induction false} ReplyIff(c: Config, v: Verdict)
    ensures ReplyAllowed(c, v) <==> FinalFrame(v).Ok? && |FinalFrame(v).value.payload| + 1 <= c.limits.frameBytes
  {
    if v.Reply? {
      ReplyIsOneLine(v.code, v.enhanced, v.text);
      if FinalFrame(v).Ok? {
        var line := ReplyText(v.code, v.enhanced, v.text);
        JoinLengths(line, []);
        StringsRoundTrip(FinalFrame(v).value.payload, [line]);
      }
    }
  }

  /** The decision answers the command that waits, modifies only at the end of a message, and
      can be put on the wire. */
  predicate DecisionAllowed(c: Config, log: seq<Entry>, d: Decision) {
    && Waits(c, log, |log|)
    && (d.modifications != [] ==> log[|log| - 1].command.EndMessage?)
    && |d.modifications| <= c.limits.modifications
    && log[0].Got? && log[0].command.Negotiate?
    && (var o := Agree(c, log[0].command.options);
        ScriptAllowed(c, o, o.protocol & 0x10_0000 != 0, d.modifications))
    && ReplyAllowed(c, d.verdict)
  }

  lemma {:induction false} FramesIff(c: Config, s: Session, d: Decision)
    ensures DecisionFrames(c, s, d).Ok? <==>
            && s.pending.Some? && s.options.Some? && (d.modifications != [] ==> s.pending.value == AtEnd)
            && |d.modifications| <= c.limits.modifications
            && ScriptAllowed(c, s.options.value, LeadingSpace(s), d.modifications) && ReplyAllowed(c, d.verdict)
  {
    if s.options.Some? {
      ScriptIff(c, s.options.value, LeadingSpace(s), d.modifications);
    }
    ReplyIff(c, d.verdict);
  }

  lemma {:induction false} LeadingIsAgreed(s: Session)
    ensures LeadingSpace(s) <==> s.options.Some? && s.options.value.protocol & 0x10_0000 != 0
  {
  }

  /** A decision is carried out in a reachable session exactly when the log allows it. */
  lemma {:induction false} DecisionAccepted(c: Config, log: seq<Entry>, s: Session, d: Decision)
    requires After(c, log, |log|) == Some(s)
    ensures Complete(c, s, d).Ok? <==> DecisionAllowed(c, log, d)
  {
    RunPlaced(c, log, |log|);
    PlacedDecision(c, log, s, d);
  }

  lemma {:induction false} PlacedDecision(c: Config, log: seq<Entry>, s: Session, d: Decision)
    requires Placed(c, log, |log|, s)
    ensures Complete(c, s, d).Ok? <==> DecisionAllowed(c, log, d)
  {
    FramesIff(c, s, d);
    LeadingIsAgreed(s);
  }

  // ---- Runs ---------------------------------------------------------------

  /** Every entry is allowed by those before it. */
  predicate Orderly(c: Config, log: seq<Entry>) {
    log == [] ||
    (var front := log[..|log| - 1];
     && Orderly(c, front)
     && (match log[|log| - 1]
         case Got(command) => Allowed(c, front, command)
         case Took(d) => DecisionAllowed(c, front, d)))
  }

  lemma {:induction false} NextAllowed(c: Config, front: seq<Entry>, s: Session, e: Entry)
    requires After(c, front, |front|) == Some(s)
    ensures Advance(c, s, e).Some? <==>
            match e case Got(command) => Allowed(c, front, command) case Took(d) => DecisionAllowed(c, front, d)
  {
    match e
    case Got(command) =>
      if WellFormed(command) {
        CommandAccepted(c, front, s, command);
      }
    case Took(d) => DecisionAccepted(c, front, s, d);
  }

  /** The runs of a session are exactly the orderly logs. */
  lemma {:induction false} RunsAreOrderly(c: Config, log: seq<Entry>)
    ensures After(c, log, |log|).Some? <==> Orderly(c, log)
  {
    if log != [] {
      var front, last := log[..|log| - 1], log[|log| - 1];
      RunsAreOrderly(c, front);
      assert log == front + [last];
      AfterPrefix(c, front, [last], |front|);
      if After(c, front, |front|).Some? {
        NextAllowed(c, front, After(c, front, |front|).value, last);
      }
    }
  }
}
