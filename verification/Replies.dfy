/** Reply discipline over whole connections, seen from an MTA that knows only the bytes of
    the negotiation reply (src/session.rs:268-299, 421-434, 486-548; src/server.rs:101-162). */
module Replies {
  import opened Octets
  import opened Wire
  import opened Modifications
  import opened Protocol
  import opened SessionInvariant
  import opened Driver
  import opened FinalReplies

  // ---- The MTA's expectations ---------------------------------------------

  /** c a r t d y 4, and O in reply to negotiation. */
  predicate IsFinal(f: Frame) {
    || f.command == 99 || f.command == 97 || f.command == 114 || f.command == 116 || f.command == 100
    || f.command == 121 || f.command == 52 || f.command == 79
  }

  /** h i m b e + 2 - q. */
  predicate IsEdit(f: Frame) {
    || f.command == 104 || f.command == 105 || f.command == 109 || f.command == 98 || f.command == 101
    || f.command == 43 || f.command == 50 || f.command == 45 || f.command == 113
  }

  /** p. */
  predicate IsProgress(f: Frame) {
    f.command == 112
  }

  /** The options in a negotiation reply. */
  function ReadOptions(f: Frame): Option<Options> {
    var p := f.payload;
    if f.command == CMD_NEGOTIATE && |p| >= 12 then Some(Options(Word(p[0..4]), Word(p[4..8]), Word(p[8..12]))) else None
  }

  function Learn(agreed: Option<Options>, x: Exchange): Option<Options> {
    if x.command.Negotiate? && x.frames != [] then ReadOptions(x.frames[0]) else agreed
  }

  /** The bit by which an MTA is told not to expect a reply, by the letter of its command:
      C H M R T U N B L. */
  function NoReplyBit(letter: Byte): Option<bv32> {
    if letter == 67 then Some(0x1000)
    else if letter == 72 then Some(0x2000)
    else if letter == 77 then Some(0x4000)
    else if letter == 82 then Some(0x8000)
    else if letter == 84 then Some(0x1_0000)
    else if letter == 85 then Some(0x2_0000)
    else if letter == 78 then Some(0x4_0000)
    else if letter == 66 then Some(0x8_0000)
    else if letter == 76 then Some(0x80)
    else None
  }

  /** The MTA waits for a reply to negotiation (O), to end of message (E), and to every command
      whose no-reply bit was not agreed on. */
  predicate Awaits(agreed: Option<Options>, command: Command) {
    var letter := Opcode(command);
    || letter == 79 || letter == 69
    || (agreed.Some? && NoReplyBit(letter).Some? && agreed.value.protocol & NoReplyBit(letter).value == 0)
  }

  /** The milter's table is the MTA's. */
  lemma {:induction false} BitsAgree(command: Command)
    ensures ReplyBit(command) == NoReplyBit(Opcode(command))
    ensures command.Negotiate? <==> Opcode(command) == 79
    ensures command.EndMessage? <==> Opcode(command) == 69
  {
  }

  /** `ticks` keepalives, then modifications, then one final reply. Keepalives need a policy
      to be waiting for, modifications the end of the message. */
  predicate Replied(c: Config, command: Command, fs: seq<Frame>, ticks: nat) {
    && ticks < |fs|
    && (forall k :: 0 <= k < ticks ==> IsProgress(fs[k]))
    && (forall k :: ticks <= k < |fs| - 1 ==> IsEdit(fs[k]))
    && IsFinal(fs[|fs| - 1])
    && (ticks > 0 ==> StageOf(command).Some? && StageOf(command).value in c.stages)
    && (ticks < |fs| - 1 ==> command.EndMessage?)
  }

  ghost predicate Proper(c: Config, agreed: Option<Options>, x: Exchange) {
    if Awaits(agreed, x.command) then exists ticks :: Replied(c, x.command, x.frames, ticks)
    else x.frames == []
  }

  ghost predicate Disciplined(c: Config, agreed: Option<Options>, xs: seq<Exchange>)
    decreases |xs|
  {
    xs == [] || (Proper(c, agreed, xs[0]) && Disciplined(c, Learn(agreed, xs[0]), xs[1..]))
  }

  // ---- What a decision writes ---------------------------------------------

  lemma {:induction false} FramesAreEdits(m: Modification, leading: bool)
    requires Frames(m, leading).Ok?
    ensures forall k :: 0 <= k < |Frames(m, leading).value| ==> IsEdit(Frames(m, leading).value[k])
  {
    if m.ReplaceBody? {
      BodyFramesCarryBody(m.body);
    }
  }

  predicate AllEdits(fs: seq<Frame>) {
    forall k :: 0 <= k < |fs| ==> IsEdit(fs[k])
  }

  lemma {:induction false} SerialisedAreEdits(c: Config, options: Options, leading: bool, mods: seq<Modification>)
    requires SerialiseAll(c, options, leading, mods).Ok?
    ensures AllEdits(SerialiseAll(c, options, leading, mods).value)
  {
    if mods != [] {
      SerialisedAreEdits(c, options, leading, mods[..|mods| - 1]);
      FramesAreEdits(mods[|mods| - 1], leading);
    }
  }

  /** The frames of an accepted decision: edits, if at all, only at end of message, and the
      final reply behind them. */
  lemma {:induction false} DecisionShape(c: Config, s: Session, d: Decision)
    requires DecisionFrames(c, s, d).Ok?
    ensures var fs := DecisionFrames(c, s, d).value;
            && fs != [] && IsFinal(fs[|fs| - 1]) && AllEdits(fs[..|fs| - 1])
            && (|fs| > 1 ==> s.pending == Some(AtEnd))
  {
    SerialisedAreEdits(c, s.options.value, LeadingSpace(s), d.modifications);
  }

  lemma {:induction false} WithKeepalives(c: Config, command: Command, ticks: nat, fs: seq<Frame>)
    requires fs != [] && IsFinal(fs[|fs| - 1]) && AllEdits(fs[..|fs| - 1])
    requires |fs| > 1 ==> command.EndMessage?
    requires ticks > 0 ==> StageOf(command).Some? && StageOf(command).value in c.stages
    ensures Replied(c, command, Keepalives(ticks) + ([] + fs), ticks)
  {
    var all := Keepalives(ticks) + ([] + fs);
    forall k | ticks <= k < |all| - 1
      ensures IsEdit(all[k])
    {
      assert all[k] == fs[..|fs| - 1][k - ticks];
    }
  }

  lemma {:induction false} ResolveShape(c: Config, failOpen: bool, s: Session, e: Evaluation)
    requires Inv(c, s) && s.pending.Some? && Resolve(c, failOpen, s, e).Ok?
    ensures var (t, fs) := Resolve(c, failOpen, s, e).value;
            && Inv(c, t) && t.pending.None? && t.options == s.options
            && fs != [] && IsFinal(fs[|fs| - 1]) && AllEdits(fs[..|fs| - 1])
            && (|fs| > 1 ==> s.pending == Some(AtEnd))
  {
    var d := if Try(c, s, e.result).Ok? then e.result.value else Fallback(failOpen);
    assert Resolve(c, failOpen, s, e) == Complete(c, s, d);
    DecisionShape(c, s, d);
    CompleteInv(c, s, d);
    SettleShape(s, d.verdict);
  }

  // ---- Negotiation --------------------------------------------------------

  lemma {:induction false} ThreeWords(o: Options, a: Bytes, b: Bytes, d: Bytes, rest: Bytes)
    requires |a| == |b| == |d| == 4 && Word(a) == o.version && Word(b) == o.actions && Word(d) == o.protocol
    ensures ReadOptions(Frame(CMD_NEGOTIATE, a + b + d + rest)) == Some(o)
  {
    var p := a + b + d + rest;
    assert p[0..4] == a && p[4..8] == b && p[8..12] == d;
  }

  /** The MTA reads the agreed options off the reply. */
  lemma {:induction false} OptionsRoundTrip(o: Options, request: Bytes)
    ensures ReadOptions(OptionsFrame(o, request)) == Some(o)
    ensures OptionsFrame(o, request).command == 79 && OptionsFrame(o, request).payload[12..] == request
  {
    WordRoundTrip(o.version);
    WordRoundTrip(o.actions);
    WordRoundTrip(o.protocol);
    ThreeWords(o, WordBytes(o.version), WordBytes(o.actions), WordBytes(o.protocol), request);
  }

  /** Negotiation is answered with one frame: the agreed options, then the macros asked for. */
  lemma {:induction false} NegotiationAnswered(c: Config, s: Session, f: Frame, offered: Options)
    requires Decode(f, c.validIp) == Ok(Negotiate(offered)) && Receive(c, s, f).Ok?
    ensures var (t, step) := Receive(c, s, f).value;
            && |step.frames| == 1 && step.event.None? && !step.close
            && ReadOptions(step.frames[0]) == Some(Agree(c, offered)) && t.options == Some(Agree(c, offered))
            && |step.frames[0].payload| >= 12 && c.macroRequest == Ok(step.frames[0].payload[12..])
  {
    OptionsRoundTrip(Agree(c, offered), c.macroRequest.value);
    assert Receive(c, s, f) == NegotiateStep(c, s, offered);
  }

  // ---- Every exchange -----------------------------------------------------

  /** Between exchanges nothing is pending and both sides agree on the options. */
  predicate InStep(c: Config, s: Session, agreed: Option<Options>) {
    Inv(c, s) && s.pending.None? && s.options == agreed
  }

  lemma {:induction false} NegotiateProper(c: Config, s: Session, f: Frame, command: Command)
    requires Inv(c, s) && s.pending.None? && Decode(f, c.validIp) == Ok(command) && command.Negotiate?
    requires Receive(c, s, f).Ok?
    ensures var (t, step) := Receive(c, s, f).value;
            && step.event.None? && Proper(c, s.options, Exchange(command, step.frames))
            && Learn(s.options, Exchange(command, step.frames)) == t.options
  {
    BitsAgree(command);
    var agreed := Agree(c, command.options);
    var frame := OptionsFrame(agreed, c.macroRequest.value);
    OptionsRoundTrip(agreed, c.macroRequest.value);
    assert Replied(c, command, [frame], 0);
  }

  lemma {:induction false} SilentProper(c: Config, s: Session, f: Frame, command: Command)
    requires Inv(c, s) && s.pending.None? && Decode(f, c.validIp) == Ok(command) && !command.Negotiate?
    requires Receive(c, s, f).Ok? && Receive(c, s, f).value.1.event.None?
    ensures var (t, step) := Receive(c, s, f).value;
            Proper(c, s.options, Exchange(command, step.frames)) && t.options == s.options
  {
    BitsAgree(command);
    var (t, step) := Receive(c, s, f).value;
    if !command.Macro? {
      PrepareKeeps(s, command);
      PrepareInv(c, s, command);
      ActShape(c, Prepare(s, command), command);
      if step.frames != [] {
        assert Replied(c, command, step.frames, 0);
      }
    }
  }

  lemma {:induction false} StageAwaited(c: Config, s: Session, command: Command)
    requires Agreed(c, s) && s.options.Some? && Event(c, command).Some?
    ensures Awaits(s.options, command)
  {
    BitsAgree(command);
    var stage := StageOf(command).value;
    if stage != AtEnd {
      assert Answered(s.options.value, stage);
    }
  }

  lemma {:induction false} EventAwaited(c: Config, s: Session, f: Frame, command: Command)
    requires Inv(c, s) && s.pending.None? && Decode(f, c.validIp) == Ok(command)
    requires Receive(c, s, f).Ok? && Receive(c, s, f).value.1.event.Some?
    ensures var (t, step) := Receive(c, s, f).value;
            && step.frames == [] && step.event == StageOf(command) && t.options == s.options
            && Awaits(s.options, command)
  {
    PrepareKeeps(s, command);
    PrepareInv(c, s, command);
    ActShape(c, Prepare(s, command), command);
    StageAwaited(c, s, command);
  }

  lemma {:induction false} EventProper(c: Config, failOpen: bool, s: Session, f: Frame, command: Command, e: Evaluation)
    requires Inv(c, s) && s.pending.None? && Decode(f, c.validIp) == Ok(command)
    requires Receive(c, s, f).Ok? && Receive(c, s, f).value.1.event.Some?
    requires Serve(c, failOpen, s, f, e).Ok?
    ensures var served := Serve(c, failOpen, s, f, e).value;
            Proper(c, s.options, Exchange(command, served.frames)) && InStep(c, served.session, s.options)
  {
    var (t, step) := Receive(c, s, f).value;
    EventAwaited(c, s, f, command);
    ReceivedInv(c, s, f);
    var asked := Ask(c, step.event.value, e);
    ResolveShape(c, failOpen, t, asked);
    WithKeepalives(c, command, asked.ticks, Resolve(c, failOpen, t, asked).value.1);
  }

  lemma {:induction false} ServeProper(c: Config, failOpen: bool, s: Session, f: Frame, e: Evaluation, agreed: Option<Options>)
    requires InStep(c, s, agreed) && Serve(c, failOpen, s, f, e).Ok?
    ensures var served := Serve(c, failOpen, s, f, e).value;
            var x := Exchange(Decode(f, c.validIp).value, served.frames);
            Proper(c, agreed, x) && InStep(c, served.session, Learn(agreed, x))
  {
    var command := Decode(f, c.validIp).value;
    var step := Receive(c, s, f).value.1;
    ReceivedInv(c, s, f);
    if step.event.Some? {
      EventAwaited(c, s, f, command);
      EventProper(c, failOpen, s, f, command, e);
    } else if command.Negotiate? {
      NegotiateProper(c, s, f, command);
    } else {
      SilentProper(c, s, f, command);
    }
  }

  // ---- Every connection ---------------------------------------------------

  lemma {:induction false} TurnProper(c: Config, failOpen: bool, s: Session, input: Bytes, e: Evaluation, agreed: Option<Options>)
    requires InStep(c, s, agreed)
    ensures match TakeTurn(c, failOpen, s, input, e)
            case Over(talk) => Disciplined(c, agreed, talk.exchanges)
            case Next(x, t, _) => Proper(c, agreed, x) && InStep(c, t, Learn(agreed, x))
  {
    var read := ReadFrame(input, c.limits.frameBytes);
    if read.Got? && Serve(c, failOpen, s, read.frame, e).Ok? {
      ServeProper(c, failOpen, s, read.frame, e, agreed);
    }
  }

  lemma {:induction false} ConverseDisciplined(
    c: Config, failOpen: bool, s: Session, input: Bytes, policy: nat -> Evaluation, k: nat, agreed: Option<Options>)
    requires InStep(c, s, agreed)
    ensures Disciplined(c, agreed, Converse(c, failOpen, s, input, policy, k).exchanges)
    decreases |input|
  {
    TurnProper(c, failOpen, s, input, policy(k), agreed);
    match TakeTurn(c, failOpen, s, input, policy(k))
    case Over(_) =>
    case Next(x, t, rest) =>
      ConverseDisciplined(c, failOpen, t, rest, policy, k + 1, Learn(agreed, x));
      var others := Converse(c, failOpen, t, rest, policy, k + 1).exchanges;
      assert ([x] + others)[1..] == others;
  }

  /** For every byte stream and every policy, each command the MTA waits on gets exactly one
      final reply, in order, and every other command gets none. */
  lemma {:induction false} ReplyDiscipline(c: Config, failOpen: bool, input: Bytes, policy: nat -> Evaluation)
    ensures Disciplined(c, None, Converse(c, failOpen, FRESH, input, policy, 0).exchanges)
  {
    FreshInv(c);
    ConverseDisciplined(c, failOpen, FRESH, input, policy, 0, None);
  }

  // ---- Counting -----------------------------------------------------------

  function Finals(fs: seq<Frame>): nat {
    if fs == [] then 0 else Finals(fs[..|fs| - 1]) + if IsFinal(fs[|fs| - 1]) then 1 else 0
  }

  function Written(xs: seq<Exchange>): seq<Frame> {
    if xs == [] then [] else xs[0].frames + Written(xs[1..])
  }

  function Awaited(agreed: Option<Options>, xs: seq<Exchange>): nat
    decreases |xs|
  {
    if xs == [] then 0
    else (if Awaits(agreed, xs[0].command) then 1 else 0) + Awaited(Learn(agreed, xs[0]), xs[1..])
  }

  lemma {:induction false} NoFinals(fs: seq<Frame>)
    requires forall k :: 0 <= k < |fs| ==> !IsFinal(fs[k])
    ensures Finals(fs) == 0
  {
    if fs != [] {
      NoFinals(fs[..|fs| - 1]);
    }
  }

  lemma {:induction false} FinalsAppend(a: seq<Frame>, b: seq<Frame>)
    ensures Finals(a + b) == Finals(a) + Finals(b)
  {
    if b == [] {
      assert a + b == a;
    } else {
      FinalsAppend(a, b[..|b| - 1]);
      assert (a + b)[..|a + b| - 1] == a + b[..|b| - 1];
    }
  }

  lemma {:induction false} OneFinal(c: Config, command: Command, fs: seq<Frame>, ticks: nat)
    requires Replied(c, command, fs, ticks)
    ensures Finals(fs) == 1
  {
    NoFinals(fs[..|fs| - 1]);
  }

  lemma {:induction false} ProperFinals(c: Config, agreed: Option<Options>, x: Exchange)
    requires Proper(c, agreed, x)
    ensures Finals(x.frames) == if Awaits(agreed, x.command) then 1 else 0
  {
    if Awaits(agreed, x.command) {
      var ticks :| Replied(c, x.command, x.frames, ticks);
      OneFinal(c, x.command, x.frames, ticks);
    }
  }

  /** As many final replies are written as the MTA waits for. */
  lemma {:induction false} RepliesBalance(c: Config, agreed: Option<Options>, xs: seq<Exchange>)
    requires Disciplined(c, agreed, xs)
    ensures Finals(Written(xs)) == Awaited(agreed, xs)
    decreases |xs|
  {
    if xs != [] {
      var fs := xs[0].frames;
      RepliesBalance(c, Learn(agreed, xs[0]), xs[1..]);
      FinalsAppend(fs, Written(xs[1..]));
      ProperFinals(c, agreed, xs[0]);
    }
  }

  // ---- The exchanges are the input ----------------------------------------

  /** The exchanges are, one by one, the commands framed at the front of the input; `rest` is
      what was not answered. */
  predicate Covers(c: Config, input: Bytes, xs: seq<Exchange>, fs: seq<Frame>, rest: Bytes) {
    && AllFit(fs, c.limits.frameBytes)
    && input == EncodeAll(fs) + rest
    && |fs| == |xs|
    && forall k :: 0 <= k < |xs| ==> Decode(fs[k], c.validIp) == Ok(xs[k].command)
  }

  lemma {:induction false} CoversNone(c: Config, input: Bytes)
    ensures Covers(c, input, [], [], input)
  {
  }

  lemma {:induction false} CoversCons(
    c: Config, input: Bytes, f: Frame, x: Exchange, later: Bytes, xs: seq<Exchange>, fs: seq<Frame>, rest: Bytes)
    requires Fits(f, c.limits.frameBytes) && input == Encode(f).value + later && Decode(f, c.validIp) == Ok(x.command)
    requires Covers(c, later, xs, fs, rest)
    ensures Covers(c, input, [x] + xs, [f] + fs, rest)
  {
    var all := [f] + fs;
    assert all[1..] == fs;
    assert forall k :: 0 < k < |all| ==> all[k] == fs[k - 1];
    Reassociate(Encode(f).value, EncodeAll(fs), rest);
  }

  lemma {:induction false} AnswerCloses(c: Config, s: Session, command: Command)
    ensures Answer(c, s, command).1.close <==> command.Quit?
  {
  }

  lemma {:induction false} HandleCloses(c: Config, s: Session, command: Command)
    requires WellFormed(command) && Handle(c, s, command).Ok?
    ensures Handle(c, s, command).value.1.close <==> command.Quit?
  {
    if !command.Negotiate? && !command.Macro? {
      AnswerCloses(c, Act(c, Prepare(s, command), command).value, command);
    }
  }

  lemma {:induction false} ReceiveCloses(c: Config, s: Session, f: Frame)
    requires Receive(c, s, f).Ok?
    ensures Decode(f, c.validIp).Ok?
    ensures Receive(c, s, f).value.1.close <==> Decode(f, c.validIp).value.Quit?
  {
    HandleCloses(c, s, Decode(f, c.validIp).value);
  }

  /** Only QUIT closes. */
  lemma {:induction false} CloseIsQuit(c: Config, failOpen: bool, s: Session, f: Frame, e: Evaluation)
    requires Serve(c, failOpen, s, f, e).Ok?
    ensures Decode(f, c.validIp).Ok?
    ensures Serve(c, failOpen, s, f, e).value.close <==> Decode(f, c.validIp).value.Quit?
  {
    ReceiveCloses(c, s, f);
  }

  /** How one turn moves along the input. */
  lemma {:induction false} TurnCovers(c: Config, failOpen: bool, s: Session, input: Bytes, e: Evaluation)
    ensures match TakeTurn(c, failOpen, s, input, e)
            case Over(talk) =>
              (talk.exchanges == [] && (talk.end.Ok? <==> input == []))
              || (ReadFrame(input, c.limits.frameBytes).Got? && talk.end.Ok? && |talk.exchanges| == 1
                  && talk.exchanges[0].command.Quit?
                  && Decode(ReadFrame(input, c.limits.frameBytes).frame, c.validIp) == Ok(talk.exchanges[0].command))
            case Next(x, _, rest) =>
              && ReadFrame(input, c.limits.frameBytes).Got? && ReadFrame(input, c.limits.frameBytes).rest == rest
              && Decode(ReadFrame(input, c.limits.frameBytes).frame, c.validIp) == Ok(x.command) && !x.command.Quit?
  {
    var read := ReadFrame(input, c.limits.frameBytes);
    if read.Got? && Serve(c, failOpen, s, read.frame, e).Ok? {
      CloseIsQuit(c, failOpen, s, read.frame, e);
    }
  }

  /** QUIT comes last, if at all, and ends the connection normally. */
  predicate QuitsLast(talk: Talk) {
    var xs := talk.exchanges;
    && (forall k :: 0 <= k < |xs| - 1 ==> !xs[k].command.Quit?)
    && (xs != [] && xs[|xs| - 1].command.Quit? ==> talk.end.Ok?)
  }

  lemma {:induction false} QuitsLater(x: Exchange, rest: Talk)
    requires !x.command.Quit? && QuitsLast(rest)
    ensures QuitsLast(Say(x, rest))
  {
    var xs := [x] + rest.exchanges;
    assert forall k :: 0 < k < |xs| ==> xs[k] == rest.exchanges[k - 1];
  }

  /** Every command at the front of the input has its exchange; a connection that ends normally
      has answered the whole input or ended with QUIT, one that fails has not. */
  predicate Covered(c: Config, input: Bytes, talk: Talk, fs: seq<Frame>, rest: Bytes) {
    && Covers(c, input, talk.exchanges, fs, rest) && QuitsLast(talk)
    && (talk.end.Ok? ==> rest == [] || (talk.exchanges != [] && talk.exchanges[|talk.exchanges| - 1].command.Quit?))
    && (talk.end.Err? ==> rest != [])
  }

  lemma {:induction false} LastTurnCovers(c: Config, failOpen: bool, s: Session, input: Bytes, e: Evaluation)
    returns (fs: seq<Frame>, rest: Bytes)
    requires TakeTurn(c, failOpen, s, input, e).Over?
    ensures Covered(c, input, TakeTurn(c, failOpen, s, input, e).talk, fs, rest)
  {
    TurnCovers(c, failOpen, s, input, e);
    var talk := TakeTurn(c, failOpen, s, input, e).talk;
    if talk.exchanges == [] {
      fs, rest := [], input;
      CoversNone(c, input);
    } else {
      var read := ReadFrame(input, c.limits.frameBytes);
      ReadConsumesEncoding(input, c.limits.frameBytes);
      CoversNone(c, read.rest);
      CoversCons(c, input, read.frame, talk.exchanges[0], read.rest, [], [], read.rest);
      fs, rest := [read.frame] + [], read.rest;
      assert talk.exchanges == [talk.exchanges[0]] + [];
    }
  }

  lemma {:induction false} OneMoreCovers(
    c: Config, input: Bytes, f: Frame, x: Exchange, later: Bytes, talk: Talk, fs: seq<Frame>, rest: Bytes)
    requires Fits(f, c.limits.frameBytes) && input == Encode(f).value + later && Decode(f, c.validIp) == Ok(x.command)
    requires !x.command.Quit? && Covered(c, later, talk, fs, rest)
    ensures Covered(c, input, Say(x, talk), [f] + fs, rest)
  {
    CoversCons(c, input, f, x, later, talk.exchanges, fs, rest);
    QuitsLater(x, talk);
  }

  lemma {:induction false} ConverseCovers(
    c: Config, failOpen: bool, s: Session, input: Bytes, policy: nat -> Evaluation, k: nat)
    returns (fs: seq<Frame>, rest: Bytes)
    ensures Covered(c, input, Converse(c, failOpen, s, input, policy, k), fs, rest)
    decreases |input|
  {
    var turn := TakeTurn(c, failOpen, s, input, policy(k));
    if turn.Over? {
      fs, rest := LastTurnCovers(c, failOpen, s, input, policy(k));
    } else {
      TurnCovers(c, failOpen, s, input, policy(k));
      var f := ReadFrame(input, c.limits.frameBytes).frame;
      ReadConsumesEncoding(input, c.limits.frameBytes);
      var others;
      others, rest := ConverseCovers(c, failOpen, turn.session, turn.rest, policy, k + 1);
      fs := [f] + others;
      OneMoreCovers(c, input, f, turn.exchange, turn.rest, Converse(c, failOpen, turn.session, turn.rest, policy, k + 1), others, rest);
    }
  }

  /** The whole promise for a connection: the commands of the input are answered in order, each
      awaited one exactly once and no other, and as many final replies are written as awaited. */
  lemma {:induction false} ConnectionAnswered(c: Config, failOpen: bool, input: Bytes, policy: nat -> Evaluation)
    returns (fs: seq<Frame>, rest: Bytes)
    ensures var talk := Converse(c, failOpen, FRESH, input, policy, 0);
            && Covered(c, input, talk, fs, rest)
            && Disciplined(c, None, talk.exchanges)
            && Finals(Written(talk.exchanges)) == Awaited(None, talk.exchanges)
  {
    fs, rest := ConverseCovers(c, failOpen, FRESH, input, policy, 0);
    ReplyDiscipline(c, failOpen, input, policy);
    RepliesBalance(c, None, Converse(c, failOpen, FRESH, input, policy, 0).exchanges);
  }

  /** The connection loop keeps that promise. */
  method AnswerConnection(c: Config, failOpen: bool, input: Bytes, t: Timing, efforts: nat -> Effort)
    returns (talk: Talk, ghost fs: seq<Frame>, ghost rest: Bytes)
    requires Ticks(t)
    ensures Covered(c, input, talk, fs, rest)
    ensures Disciplined(c, None, talk.exchanges) && Finals(Written(talk.exchanges)) == Awaited(None, talk.exchanges)
  {
    talk := HandleConnection(c, failOpen, input, t, efforts);
    fs, rest := ConnectionAnswered(c, failOpen, input, Evaluations(t, efforts));
  }

  // ---- Decisions are answered with their own verdict ----------------------

  /** At every stage: a decision that can be carried out is written behind the keepalives, and
      its last frame tells the MTA its verdict. */
  lemma {:induction false} DecisionAnswered(c: Config, failOpen: bool, s: Session, f: Frame, ticks: nat, d: Decision)
    requires Inv(c, s) && Receive(c, s, f).Ok?
    requires var (t, step) := Receive(c, s, f).value;
             step.event.Some? && step.event.value in c.stages && DecisionFrames(c, t, d).Ok?
    ensures var (t, step) := Receive(c, s, f).value;
            var served := Serve(c, failOpen, s, f, Evaluation(ticks, Ok(d)));
            && served.Ok? && served.value.frames == Keepalives(ticks) + DecisionFrames(c, t, d).value
            && served.value.session == Settle(t, step.event.value, d.verdict)
            && served.value.frames != []
            && ReadOutcome(served.value.frames[|served.value.frames| - 1]) == Some(Intended(d.verdict))
  {
    var (t, step) := Receive(c, s, f).value;
    ReceivedInv(c, s, f);
    VerdictReadBack(c, t, d);
    var fs := DecisionFrames(c, t, d).value;
    assert [] + fs == fs;
  }

  /** An end of message nobody subscribed to is answered with a bare continue. */
  lemma {:induction false} UnsubscribedEnd(c: Config, failOpen: bool, s: Session, f: Frame, e: Evaluation)
    requires Inv(c, s) && c.limits.frameBytes >= 1 && Receive(c, s, f).Ok?
    requires Decode(f, c.validIp) == Ok(EndMessage) && AtEnd !in c.stages
    ensures var served := Serve(c, failOpen, s, f, e);
            served.Ok? && served.value.frames == [Frame(99, [])]
  {
    ReceivedInv(c, s, f);
    var (t, step) := Receive(c, s, f).value;
    ContinueWritten(c, t);
    assert Keepalives(0) + ([] + [Frame(99, [])]) == [Frame(99, [])];
  }

  lemma {:induction false} ContinueWritten(c: Config, s: Session)
    requires Inv(c, s) && s.pending.Some? && c.limits.frameBytes >= 1
    ensures DecisionFrames(c, s, CONTINUE) == Ok([Frame(99, [])])
  {
    assert [] + [Frame(99, [])] == [Frame(99, [])];
  }
}
