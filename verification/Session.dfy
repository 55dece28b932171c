/** The session object whose methods update its fields in place (src/session.rs:115-568);
    each method is proved against the state machine of module Protocol. */
module Sessions {
  import opened Octets
  import opened Wire
  import opened Modifications
  import opened Mta
  import opened Protocol
  import opened RawMessage
  import opened SessionInvariant

  /** The predicted size bounds the produced one. */
  lemma {:induction false} PredictionBounds(m: Modification, leading: bool)
    requires Frames(m, leading).Ok?
    ensures TotalPayload(Frames(m, leading).value) <= PayloadBytes(m, leading)
  {
    SizePrediction(m, leading);
  }

  lemma {:induction false} TotalAppend(a: seq<Frame>, b: seq<Frame>)
    ensures TotalPayload(a + b) == TotalPayload(a) + TotalPayload(b)
  {
    if b == [] {
      assert a + b == a;
    } else {
      TotalAppend(a, b[..|b| - 1]);
      assert (a + b)[..|a + b| - 1] == a + b[..|b| - 1];
    }
  }

  lemma {:induction false} TotalPrefix(fs: seq<Frame>, k: nat)
    requires k <= |fs|
    ensures TotalPayload(fs[..k]) <= TotalPayload(fs)
  {
    assert fs == fs[..k] + fs[k..];
    TotalAppend(fs[..k], fs[k..]);
  }

  predicate FramesFit(fs: seq<Frame>, max: nat) {
    forall k :: 0 <= k < |fs| ==> |fs[k].payload| + 1 <= max
  }

  lemma {:induction false} EncodableSnoc(mods: seq<Modification>, leading: bool)
    requires mods != [] && AllEncodable(mods[..|mods| - 1], leading) && Frames(mods[|mods| - 1], leading).Ok?
    ensures AllEncodable(mods, leading)
    ensures ScriptFrames(mods, leading) ==
            ScriptFrames(mods[..|mods| - 1], leading) + Frames(mods[|mods| - 1], leading).value
  {
    forall k | 0 <= k < |mods|
      ensures Frames(mods[k], leading).Ok?
    {
      if k < |mods| - 1 {
        assert mods[..|mods| - 1][k] == mods[k];
      }
    }
  }

  /** A serialised script is its modifications' frames in order. */
  lemma {:induction false} SerialisedScript(c: Config, options: Options, leading: bool, mods: seq<Modification>)
    requires SerialiseAll(c, options, leading, mods).Ok?
    ensures AllEncodable(mods, leading)
    ensures SerialiseAll(c, options, leading, mods).value == ScriptFrames(mods, leading)
  {
    if mods != [] {
      SerialisedScript(c, options, leading, mods[..|mods| - 1]);
      EncodableSnoc(mods, leading);
    }
  }

  lemma {:induction false} SerialisedOne(c: Config, options: Options, leading: bool, before: seq<Frame>, m: Modification)
    requires Serialise(c, options, leading, TotalPayload(before), m).Ok?
    requires FramesFit(before, c.limits.frameBytes)
    ensures var fs := Serialise(c, options, leading, TotalPayload(before), m).value;
            TotalPayload(before + fs) <= c.limits.messageBytes && FramesFit(before + fs, c.limits.frameBytes)
  {
    var fs := Serialise(c, options, leading, TotalPayload(before), m).value;
    PredictionBounds(m, leading);
    TotalAppend(before, fs);
  }

  /** Modification frames total at most the message limit, each within the frame limit. */
  lemma {:induction false} SerialisedWithin(c: Config, options: Options, leading: bool, mods: seq<Modification>)
    requires SerialiseAll(c, options, leading, mods).Ok?
    ensures var fs := SerialiseAll(c, options, leading, mods).value;
            TotalPayload(fs) <= c.limits.messageBytes && FramesFit(fs, c.limits.frameBytes)
  {
    if mods != [] {
      var front := mods[..|mods| - 1];
      SerialisedWithin(c, options, leading, front);
      SerialisedOne(c, options, leading, SerialiseAll(c, options, leading, front).value, mods[|mods| - 1]);
    }
  }

  /** Adding `m` to an already serialised prefix. */
  lemma {:induction false} SerialiseSnoc(c: Config, options: Options, leading: bool, mods: seq<Modification>, j: nat)
    requires j < |mods|
    ensures SerialiseAll(c, options, leading, mods[..j + 1]) ==
            match SerialiseAll(c, options, leading, mods[..j])
            case Err(e) => Err(e)
            case Ok(before) =>
              (match Serialise(c, options, leading, TotalPayload(before), mods[j])
               case Err(e) => Err(e)
               case Ok(fs) => Ok(before + fs))
  {
    assert mods[..j + 1][..j] == mods[..j];
  }

  /** A failure of a prefix is the failure of the whole. */
  lemma {:induction false} SerialiseFails(c: Config, options: Options, leading: bool, mods: seq<Modification>, j: nat)
    requires j <= |mods| && SerialiseAll(c, options, leading, mods[..j]).Err?
    ensures SerialiseAll(c, options, leading, mods) == SerialiseAll(c, options, leading, mods[..j])
    decreases |mods| - j
  {
    if j == |mods| {
      assert mods[..j] == mods;
    } else {
      SerialiseSnoc(c, options, leading, mods, j);
      SerialiseFails(c, options, leading, mods, j + 1);
    }
  }

  lemma {:induction false} AppendOne(before: seq<Frame>, fs: seq<Frame>, k: nat)
    requires k < |fs|
    ensures before + fs[..k] + [fs[k]] == before + fs[..k + 1]
    ensures TotalPayload(before + fs[..k + 1]) == TotalPayload(before + fs[..k]) + |fs[k].payload|
    ensures TotalPayload(before + fs[..k + 1]) <= TotalPayload(before) + TotalPayload(fs)
  {
    TotalAppend(before + fs[..k], [fs[k]]);
    TotalOfOne(fs[k]);
    Reassociate(before, fs[..k], [fs[k]]);
    SliceSnoc(fs, k);
    TotalAppend(before, fs[..k + 1]);
    TotalPrefix(fs, k + 1);
  }

  /** The order in which commands come: C H M R U T L N B E. */
  function Turn(stage: Byte): nat {
    if stage == 67 then 0
    else if stage == 72 then 1
    else if stage == 77 then 2
    else if stage == 82 then 3
    else if stage == 85 then 4
    else if stage == 84 then 5
    else if stage == 76 then 6
    else if stage == 78 then 7
    else if stage == 66 then 8
    else 9
  }

  predicate NoneLater(batches: Batches, stage: Byte, name: Bytes) {
    forall later: Byte :: MacroStage(later) && Turn(later) > Turn(stage) ==> ValueIn(batches, later, name) == None
  }

  lemma {:induction false} StageIndex(stage: Byte) returns (k: nat)
    requires MacroStage(stage)
    ensures k < |STAGES| && STAGES[k] == stage && Turn(stage) == 9 - k
  {
    k := 9 - Turn(stage);
  }

  lemma {:induction false} LaterBefore(batches: Batches, k: nat, name: Bytes)
    requires k < |STAGES| && forall j :: 0 <= j < k ==> ValueIn(batches, STAGES[j], name) == None
    ensures MacroStage(STAGES[k]) && NoneLater(batches, STAGES[k], name)
  {
    forall later: Byte | MacroStage(later) && Turn(later) > Turn(STAGES[k])
      ensures ValueIn(batches, later, name) == None
    {
      var j := StageIndex(later);
    }
  }

  class Session {
    const config: Config
    var state: State
    var options: Option<Options>
    var connection: Option<Connection>
    var helo: Option<Bytes>
    var message: Transaction
    var macros: Batches
    var pendingMacros: Batches
    var pending: Option<Stage>

    function View(): Protocol.Session
      reads this
    {
      Protocol.Session(state, options, connection, helo, message, macros, pendingMacros, pending)
    }

    /** The state name determines what exists, charges are exact, limits are kept. */
    ghost predicate Valid()
      reads this
    {
      Inv(config, View())
    }

    constructor (config: Config)
      ensures View() == FRESH && this.config == config && Valid()
    {
      this.config := config;
      state, options, connection, helo := Initial, None, None, None;
      message, macros, pendingMacros, pending := NO_TRANSACTION, map[], map[], None;
      new;
      FreshInv(config);
    }

    method ResetMessage()
      modifies this
      ensures View() == Reset(old(View()))
    {
      message := NO_TRANSACTION;
      macros := KeepConnection(macros);
      pendingMacros := KeepConnection(pendingMacros);
      pending := None;
    }

    method ActivateMacros(command: Byte)
      modifies this
      ensures View() == Activate(old(View()), command)
    {
      if command in pendingMacros {
        macros := macros[command := pendingMacros[command]];
        pendingMacros := pendingMacros - {command};
      } else {
        macros := macros - {command};
      }
    }

    /** Charge message bytes; the charge stands even when it exceeds the limit. */
    method Account(bytes: nat) returns (r: Result<()>)
      modifies this`message
      ensures message == old(message).(bytes := old(message).bytes + bytes)
      ensures r == if message.bytes > config.limits.messageBytes then Err(Limit) else Ok(())
    {
      message := message.(bytes := message.bytes + bytes);
      if message.bytes > config.limits.messageBytes {
        return Err(Limit);
      }
      r := Ok(());
    }

    /** Charge every field of an envelope command, attempted recipients included. */
    method AccountEnvelope(fields: seq<Bytes>) returns (r: Result<()>)
      modifies this`message
      ensures message == old(message).(envelopeBytes := old(message).envelopeBytes + EnvelopeCost(fields))
      ensures r == if message.envelopeBytes > config.limits.envelopeBytes then Err(Limit) else Ok(())
    {
      for i := 0 to |fields|
        invariant message == old(message).(envelopeBytes := old(message).envelopeBytes + EnvelopeCost(fields[..i]))
      {
        assert fields[..i + 1][..i] == fields[..i];
        message := message.(envelopeBytes := message.envelopeBytes + |fields[i]| + 1);
      }
      assert fields[..|fields|] == fields;
      if message.envelopeBytes > config.limits.envelopeBytes {
        return Err(Limit);
      }
      r := Ok(());
    }

    /** The value of a macro at the latest stage that defines it, plain or braced; later means
        later in a transaction. */
    method MacroValue(name: Bytes) returns (r: Option<Bytes>)
      ensures r.Some? ==> exists stage :: MacroStage(stage) && ValueIn(macros, stage, name) == r && NoneLater(macros, stage, name)
      ensures r.None? ==> forall stage :: MacroStage(stage) ==> ValueIn(macros, stage, name) == None
    {
      for k := 0 to |STAGES|
        invariant forall j :: 0 <= j < k ==> ValueIn(macros, STAGES[j], name) == None
      {
        var stage := STAGES[k];
        if stage in macros {
          var plain := Get(macros[stage], name);
          if plain.Some? {
            LaterBefore(macros, k, name);
            return plain;
          }
          var braced := Get(macros[stage], Braced(name));
          if braced.Some? {
            LaterBefore(macros, k, name);
            return braced;
          }
        }
      }
      forall stage | MacroStage(stage)
        ensures ValueIn(macros, stage, name) == None
      {
        var k := StageIndex(stage);
      }
      r := None;
    }

    /** Bytes held by active and waiting batches together. */
    method CountMacros() returns (total: nat)
      ensures total == MacroBytes(macros, pendingMacros, |STAGES|)
    {
      total := 0;
      for n := 0 to |STAGES|
        invariant total == MacroBytes(macros, pendingMacros, n)
      {
        total := total + BytesAt(macros, STAGES[n]) + BytesAt(pendingMacros, STAGES[n]);
      }
    }

    /** The message as the milter sees it. */
    method RawMessage() returns (raw: Bytes)
      ensures raw == RenderMessage(message.headers, message.body, LeadingSpace(View()))
    {
      raw := PrintMessage(message.headers, message.body, LeadingSpace(View()));
    }

    method ReceiveNegotiate(offered: Options) returns (r: Result<Step>)
      modifies this
      ensures var want := NegotiateStep(config, old(View()), offered);
              match r case Ok(step) => want == Ok((View(), step)) case Err(e) => want == Err(e)
    {
      if state != Initial {
        return Err(Error.Protocol);
      }
      if offered.version < VERSION {
        return Err(Invalid);
      }
      var agreed := Agree(config, offered);
      if config.macroRequest.Err? {
        return Err(config.macroRequest.error);
      }
      options := Some(agreed);
      state := Negotiated;
      r := Ok(Step([OptionsFrame(agreed, config.macroRequest.value)], None, false));
    }

    method ReceiveMacro(stage: Byte, values: seq<(Bytes, Bytes)>) returns (r: Result<Step>)
      modifies this
      ensures var want := MacroStep(config, old(View()), stage, values);
              match r case Ok(step) => want == Ok((View(), step)) case Err(e) => want == Err(e)
    {
      pendingMacros := pendingMacros[stage := Collect(values)];
      var total := CountMacros();
      if total > config.limits.macroBytes {
        return Err(Limit);
      }
      r := Ok(QUIET);
    }

    /** MAIL, RCPT and DATA. */
    method PerformEnvelope(command: Command) returns (r: Result<()>)
      requires WellFormed(command) && (command.Mail? || command.Recipient? || command.Data?)
      modifies this
      ensures var want := Act(config, old(View()), command);
              match r case Ok(_) => want == Ok(View()) case Err(e) => want == Err(e)
    {
      r := Ok(());
      match command
      case Mail(fields) =>
        var ok := AccountEnvelope(fields);
        if ok.Err? { return ok; }
        message := message.(sender := Some(PartyFrom(fields)));
        state := InMail;
      case Recipient(fields) =>
        if state != InMail && state != InRecipients { return Err(Error.Protocol); }
        var ok := AccountEnvelope(fields);
        if ok.Err? { return ok; }
        if |message.recipients| >= config.limits.recipients { return Err(Limit); }
        message := message.(recipients := message.recipients + [PartyFrom(fields)]);
        state := InRecipients;
      case Data =>
        if state != InRecipients { return Err(Error.Protocol); }
        state := InData;
      case _ =>
    }

    /** Header, end of headers, body and end of message. */
    method PerformContent(command: Command) returns (r: Result<()>)
      requires WellFormed(command) && (command.Header? || command.EndHeaders? || command.Body? || command.EndMessage?)
      modifies this
      ensures var want := Act(config, old(View()), command);
              match r case Ok(_) => want == Ok(View()) case Err(e) => want == Err(e)
    {
      r := Ok(());
      match command
      case Header(name, value) =>
        if state != InData && state != InHeaders { return Err(Error.Protocol); }
        if |message.headers| >= config.limits.headers { return Err(Limit); }
        var ok := Account(|name| + |value| + 4);
        if ok.Err? { return ok; }
        message := message.(headers := message.headers + [Field(name, value)]);
        state := InHeaders;
      case EndHeaders =>
        if state != InData && state != InHeaders { return Err(Error.Protocol); }
        var ok := Account(2);
        if ok.Err? { return ok; }
        state := InBody;
      case Body(chunk) =>
        if state != InBody { return Err(Error.Protocol); }
        var ok := Account(|chunk|);
        if ok.Err? { return ok; }
        message := message.(body := message.body + chunk);
      case EndMessage =>
        if state != InBody { return Err(Error.Protocol); }
      case _ =>
    }

    /** The command match in `receive`. */
    method Perform(command: Command) returns (r: Result<()>)
      requires WellFormed(command)
      modifies this
      ensures var want := Act(config, old(View()), command);
              match r case Ok(_) => want == Ok(View()) case Err(e) => want == Err(e)
    {
      r := Ok(());
      match command
      case Connect(info) =>
        if state != Negotiated { return Err(Error.Protocol); }
        connection := Some(info);
        state := Ready;
      case Helo(name) =>
        if state != Ready { return Err(Error.Protocol); }
        helo := Some(name);
      case Abort =>
        ResetMessage();
        if connection.Some? && state != Stopped {
          state := Ready;
        }
      case QuitNewConnection =>
        ResetMessage();
        connection, helo := None, None;
        macros, pendingMacros := map[], map[];
        state := Negotiated;
      case Quit =>
        ResetMessage();
        state := Closed;
      case Unknown(_) =>
      case Macro(_, _) =>
      case Negotiate(_) =>
      case Mail(_) => r := PerformEnvelope(command);
      case Recipient(_) => r := PerformEnvelope(command);
      case Data => r := PerformEnvelope(command);
      case _ => r := PerformContent(command);
    }

    /** Reset before MAIL, keeping its own macro batch, then activate the command's batch. */
    method PrepareFor(command: Command)
      modifies this
      ensures View() == Prepare(old(View()), command)
    {
      if command.Mail? {
        var mail := if CMD_MAIL in pendingMacros then Some(pendingMacros[CMD_MAIL]) else None;
        pendingMacros := pendingMacros - {CMD_MAIL};
        ResetMessage();
        if mail.Some? {
          pendingMacros := pendingMacros[CMD_MAIL := mail.value];
        }
        assert View() == Carry(old(View()));
      }
      ActivateMacros(Opcode(command));
    }

    /** `receive`; after an error the connection is dropped, so only the error is described. */
    method Receive(frame: Frame) returns (r: Result<Step>)
      requires Valid()
      modifies this
      ensures var want := Protocol.Receive(config, old(View()), frame);
              match r case Ok(step) => want == Ok((View(), step)) case Err(e) => want == Err(e)
      ensures r.Ok? ==> Valid()
    {
      r := Dispatch(frame);
      if r.Ok? {
        HandleInv(config, old(View()), Decode(frame, config.validIp).value);
      }
    }

    method Dispatch(frame: Frame) returns (r: Result<Step>)
      modifies this
      ensures var want := Protocol.Receive(config, old(View()), frame);
              match r case Ok(step) => want == Ok((View(), step)) case Err(e) => want == Err(e)
    {
      if pending.Some? {
        return Err(Invalid);
      }
      var decoded := Decode(frame, config.validIp);
      if decoded.Err? {
        return Err(decoded.error);
      }
      var command := decoded.value;
      if state == Closed {
        return Err(Invalid);
      }
      if command.Negotiate? {
        r := ReceiveNegotiate(command.options);
        return;
      }
      if state == Initial {
        return Err(Invalid);
      }
      if command.Macro? {
        r := ReceiveMacro(command.stage, command.values);
        return;
      }
      if command.Mail? && state != Ready {
        return Err(Error.Protocol);
      }
      PrepareFor(command);
      var done := Perform(command);
      if done.Err? {
        return Err(done.error);
      }
      var event := Event(config, command);
      if event.Some? {
        pending := event;
        r := Ok(Step([], event, false));
      } else {
        r := Ok(Step(if AnswersItself(View(), command) then [Empty(RPL_CONTINUE)] else [], None, command.Quit?));
      }
    }

    /** The loop over one modification's frames. The check on bytes really produced can
        never fire, because the predicted size was checked first. */
    method AppendFrames(before: seq<Frame>, spent: nat, fs: seq<Frame>)
      returns (r: Result<seq<Frame>>, outputBytes: nat)
      requires spent == TotalPayload(before)
      requires spent + TotalPayload(fs) <= config.limits.messageBytes
      ensures r == if Oversized(fs, config.limits.frameBytes) then Err(Limit) else Ok(before + fs)
      ensures r.Ok? ==> outputBytes == TotalPayload(r.value)
    {
      outputBytes := spent;
      var frames := before;
      assert before + fs[..0] == before;
      for k := 0 to |fs|
        invariant frames == before + fs[..k]
        invariant outputBytes == TotalPayload(frames)
        invariant forall i :: 0 <= i < k ==> |fs[i].payload| + 1 <= config.limits.frameBytes
      {
        if |fs[k].payload| + 1 > config.limits.frameBytes {
          return Err(Limit), outputBytes;
        }
        AppendOne(before, fs, k);
        outputBytes := outputBytes + |fs[k].payload|;
        if outputBytes > config.limits.messageBytes {
          assert false;
        }
        frames := frames + [fs[k]];
      }
      assert fs[..|fs|] == fs;
      r := Ok(frames);
    }

    /** One modification: capability, predicted size, then its frames. */
    method SerialiseOne(agreed: Options, leading: bool, before: seq<Frame>, spent: nat, m: Modification)
      returns (r: Result<seq<Frame>>, outputBytes: nat)
      requires spent == TotalPayload(before)
      ensures var want := Serialise(config, agreed, leading, spent, m);
              match r case Ok(frames) => want.Ok? && frames == before + want.value case Err(e) => want == Err(e)
      ensures r.Ok? ==> outputBytes == TotalPayload(r.value)
    {
      if !Allowed(agreed, m) {
        return Err(NotNegotiated), spent;
      }
      if spent + PayloadBytes(m, leading) > config.limits.messageBytes {
        return Err(Limit), spent;
      }
      var produced := Frames(m, leading);
      if produced.Err? {
        return Err(produced.error), spent;
      }
      PredictionBounds(m, leading);
      r, outputBytes := AppendFrames(before, spent, produced.value);
    }

    /** The serialisation loop of `complete`. */
    method SerialiseLoop(agreed: Options, modifications: seq<Modification>) returns (r: Result<seq<Frame>>)
      ensures r == SerialiseAll(config, agreed, LeadingSpace(View()), modifications)
    {
      var leading := LeadingSpace(View());
      var frames: seq<Frame> := [];
      var outputBytes := 0;
      for j := 0 to |modifications|
        invariant SerialiseAll(config, agreed, leading, modifications[..j]) == Ok(frames)
        invariant outputBytes == TotalPayload(frames)
      {
        SerialiseSnoc(config, agreed, leading, modifications, j);
        var more, spent := SerialiseOne(agreed, leading, frames, outputBytes, modifications[j]);
        if more.Err? {
          SerialiseFails(config, agreed, leading, modifications, j + 1);
          return more;
        }
        frames, outputBytes := more.value, spent;
      }
      assert modifications[..|modifications|] == modifications;
      r := Ok(frames);
    }

    /** `complete`: on failure nothing has changed and the callback is still pending. */
    method Complete(decision: Decision) returns (r: Result<seq<Frame>>)
      requires Valid()
      modifies this
      ensures Valid()
      ensures var want := Protocol.Complete(config, old(View()), decision);
              match r case Ok(frames) => want == Ok((View(), frames)) case Err(e) => want == Err(e)
      ensures r.Err? ==> View() == old(View())
    {
      if pending.None? || options.None? {
        return Err(Invalid);
      }
      var stage := pending.value;
      if decision.modifications != [] && stage != AtEnd {
        return Err(Invalid);
      }
      if |decision.modifications| > config.limits.modifications {
        return Err(Limit);
      }
      var serialised := SerialiseLoop(options.value, decision.modifications);
      if serialised.Err? {
        return serialised;
      }
      var last := FinalFrame(decision.verdict);
      if last.Err? {
        return Err(last.error);
      }
      if |last.value.payload| + 1 > config.limits.frameBytes {
        return Err(Limit);
      }
      var frames := serialised.value;
      if Rejects(decision.verdict) || decision.verdict.Discard? {
        frames := [];
      }
      SettleAt(stage, decision.verdict);
      SettleInv(config, old(View()), decision.verdict);
      r := Ok(frames + [last.value]);
    }

    /** The state change of an accepted decision. */
    method SettleAt(stage: Stage, verdict: Verdict)
      modifies this
      ensures View() == Settle(old(View()), stage, verdict)
    {
      pending := None;
      if verdict.Shutdown? {
        ResetMessage();
        state := Stopped;
      } else if Rejects(verdict) && stage == AtRecipient {
        message := message.(recipients := DropLast(message.recipients));
        state := if message.recipients == [] then InMail else InRecipients;
      } else if Rejects(verdict) && (stage == AtConnect || stage == AtHelo) {
        state := Stopped;
      } else if stage == AtEnd || Rejects(verdict) || Finishes(verdict) {
        ResetMessage();
        state := Ready;
      }
    }
  }
}
