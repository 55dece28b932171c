/** The per-connection milter session as a state machine over values: what each command
    and each decision does (src/session.rs:258-568). */
module Protocol {
  import opened Octets
  import opened Wire
  import opened Modifications
  import opened Mta

  datatype Limits = Limits(
    frameBytes: nat, messageBytes: nat, envelopeBytes: nat,
    headers: nat, recipients: nat, macroBytes: nat, modifications: nat)

  datatype Stage = AtConnect | AtHelo | AtMail | AtRecipient | AtEnd

  datatype State =
    | Initial
    | Negotiated
    | Ready
    | InMail
    | InRecipients
    | InData
    | InHeaders
    | InBody
    | Stopped
    | Closed

  /** One mail transaction; `bytes` and `envelopeBytes` are what has been accounted for. */
  datatype Transaction = Transaction(
    sender: Option<Party>, recipients: seq<Party>, headers: seq<Field>, body: Bytes,
    bytes: nat, envelopeBytes: nat)

  const NO_TRANSACTION := Transaction(None, [], [], [], 0, 0)

  /** A macro batch without duplicate names. */
  type Batch = seq<(Bytes, Bytes)>
  type Batches = map<Byte, Batch>

  /** What the policy and the configuration fix for a connection. `macroRequest` is the
      encoded macro request, or the error of encoding it. */
  datatype Config = Config(
    limits: Limits, stages: set<Stage>, wanted: bv32, macroRequest: Result<Bytes>,
    validIp: (Byte, Bytes) -> bool)

  datatype Session = Session(
    state: State, options: Option<Options>, connection: Option<Connection>, helo: Option<Bytes>,
    message: Transaction, macros: Batches, waiting: Batches, pending: Option<Stage>)

  const FRESH := Session(Initial, None, None, None, NO_TRANSACTION, map[], map[], None)

  datatype Step = Step(frames: seq<Frame>, event: Option<Stage>, close: bool)

  const QUIET := Step([], None, false)

  datatype Verdict =
    | Continue
    | Accept
    | Reject
    | Tempfail
    | Discard
    | Reply(code: nat, enhanced: Option<Bytes>, text: Bytes)
    | Shutdown

  datatype Decision = Decision(verdict: Verdict, modifications: seq<Modification>)

  // ---- Macros -------------------------------------------------------------

  /** Later names replace earlier ones. */
  function Put(batch: Batch, name: Bytes, value: Bytes): Batch {
    if batch == [] then [(name, value)]
    else if batch[0].0 == name then [(name, value)] + batch[1..]
    else [batch[0]] + Put(batch[1..], name, value)
  }

  function Collect(values: seq<(Bytes, Bytes)>): Batch {
    if values == [] then []
    else
      var last := values[|values| - 1];
      Put(Collect(values[..|values| - 1]), last.0, last.1)
  }

  function Get(batch: Batch, name: Bytes): Option<Bytes> {
    if batch == [] then None
    else if batch[0].0 == name then Some(batch[0].1)
    else Get(batch[1..], name)
  }

  lemma {:induction false} GetPut(batch: Batch, name: Bytes, value: Bytes, other: Bytes)
    ensures Get(Put(batch, name, value), other) == if other == name then Some(value) else Get(batch, other)
  {
    if batch != [] && batch[0].0 != name {
      GetPut(batch[1..], name, value, other);
      assert Put(batch, name, value)[1..] == Put(batch[1..], name, value);
    } else if batch != [] {
      assert Put(batch, name, value)[1..] == batch[1..];
    }
  }

  /** The last value sent under a name. */
  function LastValue(values: seq<(Bytes, Bytes)>, name: Bytes): Option<Bytes> {
    if values == [] then None
    else if values[|values| - 1].0 == name then Some(values[|values| - 1].1)
    else LastValue(values[..|values| - 1], name)
  }

  /** Looking a name up in a batch gives the last value sent under it. */
  lemma {:induction false} CollectKeepsLast(values: seq<(Bytes, Bytes)>, name: Bytes)
    ensures Get(Collect(values), name) == LastValue(values, name)
  {
    if values != [] {
      var front, last := values[..|values| - 1], values[|values| - 1];
      CollectKeepsLast(front, name);
      GetPut(Collect(front), last.0, last.1, name);
    }
  }

  function BatchBytes(batch: Batch): nat {
    if batch == [] then 0 else |batch[0].0| + |batch[0].1| + BatchBytes(batch[1..])
  }

  /** What a batch of values costs: a name sent again replaces the value it had. */
  function ValuesCost(values: seq<(Bytes, Bytes)>): int {
    if values == [] then 0
    else
      var front, last := values[..|values| - 1], values[|values| - 1];
      ValuesCost(front) + |last.1|
        + (match LastValue(front, last.0) case None => |last.0| case Some(before) => -|before|)
  }

  lemma {:induction false} PutCost(batch: Batch, name: Bytes, value: Bytes)
    ensures BatchBytes(Put(batch, name, value)) == BatchBytes(batch) + |value|
              + (match Get(batch, name) case None => |name| case Some(before) => -|before|)
  {
    if batch != [] && batch[0].0 != name {
      PutCost(batch[1..], name, value);
      assert Put(batch, name, value)[1..] == Put(batch[1..], name, value);
    } else if batch != [] {
      assert Put(batch, name, value)[1..] == batch[1..];
    } else {
      assert Put(batch, name, value)[1..] == [];
    }
  }

  /** The bytes charged for a batch are those of its names and of the last value of each. */
  lemma {:induction false} CollectCost(values: seq<(Bytes, Bytes)>)
    ensures BatchBytes(Collect(values)) == ValuesCost(values)
  {
    if values != [] {
      var front, last := values[..|values| - 1], values[|values| - 1];
      CollectCost(front);
      PutCost(Collect(front), last.0, last.1);
      CollectKeepsLast(front, last.0);
    }
  }

  function BytesAt(batches: Batches, stage: Byte): nat {
    if stage in batches then BatchBytes(batches[stage]) else 0
  }

  /** Stage letters from the latest to the earliest: E B N L T U R M H C. */
  const STAGES: seq<Byte> :=
    [CMD_EOM, CMD_BODY, CMD_EOH, CMD_HEADER, CMD_DATA, CMD_UNKNOWN, CMD_RCPT, CMD_MAIL, CMD_HELO, CMD_CONNECT]

  /** Bytes held for the first `n` stage letters. */
  function MacroBytes(macros: Batches, waiting: Batches, n: nat): nat
    requires n <= |STAGES|
  {
    if n == 0 then 0
    else MacroBytes(macros, waiting, n - 1) + BytesAt(macros, STAGES[n - 1]) + BytesAt(waiting, STAGES[n - 1])
  }

  predicate PerConnection(stage: Byte) {
    stage == CMD_CONNECT || stage == CMD_HELO
  }

  function KeepConnection(batches: Batches): Batches {
    map stage | stage in batches && PerConnection(stage) :: batches[stage]
  }

  function Reset(s: Session): Session {
    s.(message := NO_TRANSACTION, macros := KeepConnection(s.macros), waiting := KeepConnection(s.waiting), pending := None)
  }

  /** The transaction reset before MAIL, which keeps the MAIL batch already received. */
  function Carry(s: Session): Session {
    var clean := Reset(s);
    if CMD_MAIL in s.waiting then clean.(waiting := clean.waiting[CMD_MAIL := s.waiting[CMD_MAIL]]) else clean
  }

  function Activate(s: Session, command: Byte): Session {
    if command in s.waiting then s.(macros := s.macros[command := s.waiting[command]], waiting := s.waiting - {command})
    else s.(macros := s.macros - {command})
  }

  function Braced(name: Bytes): Bytes {
    [123] + name + [125]
  }

  function ValueIn(batches: Batches, stage: Byte, name: Bytes): Option<Bytes> {
    if stage !in batches then None
    else if Get(batches[stage], name).Some? then Get(batches[stage], name)
    else Get(batches[stage], [123] + name + [125])
  }

  // ---- Commands -----------------------------------------------------------

  const BASE_PROTOCOL: bv32 := NR_HEADER | NR_DATA | NR_UNKNOWN | NR_EOH | NR_BODY | HEADER_LEADING_SPACE

  function StageBit(stage: Stage): bv32 {
    match stage
    case AtConnect => NR_CONNECT
    case AtHelo => NR_HELO
    case AtMail => NR_MAIL
    case AtRecipient => NR_RCPT
    case AtEnd => 0
  }

  function Unless(subscribed: bool, bit: bv32): bv32 {
    if subscribed then 0 else bit
  }

  /** Protocol bits the milter is ready to agree to. */
  function Mask(stages: set<Stage>): bv32 {
    BASE_PROTOCOL | Unless(AtConnect in stages, NR_CONNECT) | Unless(AtHelo in stages, NR_HELO)
      | Unless(AtMail in stages, NR_MAIL) | Unless(AtRecipient in stages, NR_RCPT)
  }

  function Agree(c: Config, offered: Options): Options {
    Options(VERSION, offered.actions & (c.wanted & SUPPORTED_ACTIONS), offered.protocol & Mask(c.stages))
  }

  function NegotiateStep(c: Config, s: Session, offered: Options): Result<(Session, Step)> {
    if s.state != Initial then Err(Error.Protocol)
    else if offered.version < VERSION then Err(Invalid)
    else
      var request :- c.macroRequest;
      var agreed := Agree(c, offered);
      Ok((s.(options := Some(agreed), state := Negotiated), Step([OptionsFrame(agreed, request)], None, false)))
  }

  function MacroStep(c: Config, s: Session, stage: Byte, values: seq<(Bytes, Bytes)>): Result<(Session, Step)> {
    var next := s.(waiting := s.waiting[stage := Collect(values)]);
    if MacroBytes(next.macros, next.waiting, |STAGES|) > c.limits.macroBytes then Err(Limit)
    else Ok((next, QUIET))
  }

  function EnvelopeCost(fields: seq<Bytes>): nat {
    if fields == [] then 0 else EnvelopeCost(fields[..|fields| - 1]) + |fields[|fields| - 1]| + 1
  }

  function PartyFrom(fields: seq<Bytes>): Party
    requires fields != []
  {
    Party(fields[0], fields[1..])
  }

  function HeaderCost(f: Field): nat {
    |f.name| + |f.value| + 4
  }

  /** The effect of a command on the session, before deciding who answers it. */
  function Act(c: Config, s: Session, command: Command): Result<Session>
    requires WellFormed(command)
  {
    var m := s.message;
    match command
    case Connect(info) =>
      if s.state != Negotiated then Err(Error.Protocol)
      else Ok(s.(connection := Some(info), state := Ready))
    case Helo(name) =>
      if s.state != Ready then Err(Error.Protocol)
      else Ok(s.(helo := Some(name)))
    case Mail(fields) =>
      var cost := m.envelopeBytes + EnvelopeCost(fields);
      if cost > c.limits.envelopeBytes then Err(Limit)
      else Ok(s.(message := m.(sender := Some(PartyFrom(fields)), envelopeBytes := cost), state := InMail))
    case Recipient(fields) =>
      var cost := m.envelopeBytes + EnvelopeCost(fields);
      if s.state != InMail && s.state != InRecipients then Err(Error.Protocol)
      else if cost > c.limits.envelopeBytes || |m.recipients| >= c.limits.recipients then Err(Limit)
      else
        Ok(s.(message := m.(recipients := m.recipients + [PartyFrom(fields)], envelopeBytes := cost), state := InRecipients))
    case Data =>
      if s.state != InRecipients then Err(Error.Protocol)
      else Ok(s.(state := InData))
    case Header(name, value) =>
      var cost := m.bytes + HeaderCost(Field(name, value));
      if s.state != InData && s.state != InHeaders then Err(Error.Protocol)
      else if |m.headers| >= c.limits.headers || cost > c.limits.messageBytes then Err(Limit)
      else Ok(s.(message := m.(headers := m.headers + [Field(name, value)], bytes := cost), state := InHeaders))
    case EndHeaders =>
      if s.state != InData && s.state != InHeaders then Err(Error.Protocol)
      else if m.bytes + 2 > c.limits.messageBytes then Err(Limit)
      else Ok(s.(message := m.(bytes := m.bytes + 2), state := InBody))
    case Body(chunk) =>
      if s.state != InBody then Err(Error.Protocol)
      else if m.bytes + |chunk| > c.limits.messageBytes then Err(Limit)
      else Ok(s.(message := m.(body := m.body + chunk, bytes := m.bytes + |chunk|)))
    case EndMessage => if s.state != InBody then Err(Error.Protocol) else Ok(s)
    case Abort =>
      var clean := Reset(s);
      Ok(if s.connection.Some? && s.state != Stopped then clean.(state := Ready) else clean)
    case QuitNewConnection =>
      Ok(Reset(s).(connection := None, helo := None, macros := map[], waiting := map[], state := Negotiated))
    case Quit => Ok(Reset(s).(state := Closed))
    case _ => Ok(s)
  }

  /** The stage at which the policy may be asked about a command. */
  function StageOf(command: Command): Option<Stage> {
    match command
    case Connect(_) => Some(AtConnect)
    case Helo(_) => Some(AtHelo)
    case Mail(_) => Some(AtMail)
    case Recipient(_) => Some(AtRecipient)
    case EndMessage => Some(AtEnd)
    case _ => None
  }

  /** The bit by which an MTA and a milter agree that a command is not answered. */
  function ReplyBit(command: Command): Option<bv32> {
    match command
    case Connect(_) => Some(NR_CONNECT)
    case Helo(_) => Some(NR_HELO)
    case Mail(_) => Some(NR_MAIL)
    case Recipient(_) => Some(NR_RCPT)
    case Data => Some(NR_DATA)
    case Header(_, _) => Some(NR_HEADER)
    case EndHeaders => Some(NR_EOH)
    case Body(_) => Some(NR_BODY)
    case Unknown(_) => Some(NR_UNKNOWN)
    case _ => None
  }

  function Event(c: Config, command: Command): Option<Stage> {
    var stage := StageOf(command);
    if stage.Some? && (stage.value == AtEnd || stage.value in c.stages) then stage else None
  }

  predicate AnswersItself(s: Session, command: Command) {
    ReplyBit(command).Some? && s.options.Some? && s.options.value.protocol & ReplyBit(command).value == 0
  }

  /** A callback is left pending, or an expected reply is given at once. */
  function Answer(c: Config, s: Session, command: Command): (Session, Step) {
    var event := Event(c, command);
    if event.Some? then (s.(pending := event), Step([], event, false))
    else (s, Step(if AnswersItself(s, command) then [Empty(RPL_CONTINUE)] else [], None, command.Quit?))
  }

  function Prepare(s: Session, command: Command): Session {
    Activate(if command.Mail? then Carry(s) else s, Opcode(command))
  }

  function Handle(c: Config, s: Session, command: Command): Result<(Session, Step)>
    requires WellFormed(command)
  {
    if s.pending.Some? || s.state == Closed then Err(Invalid)
    else if command.Negotiate? then NegotiateStep(c, s, command.options)
    else if s.state == Initial then Err(Invalid)
    else if command.Macro? then MacroStep(c, s, command.stage, command.values)
    else if command.Mail? && s.state != Ready then Err(Error.Protocol)
    else
      var acted :- Act(c, Prepare(s, command), command);
      Ok(Answer(c, acted, command))
  }

  /** `Session::receive`. */
  function Receive(c: Config, s: Session, f: Frame): Result<(Session, Step)> {
    if s.pending.Some? then Err(Invalid)
    else
      var command :- Decode(f, c.validIp);
      Handle(c, s, command)
  }

  // ---- Decisions ----------------------------------------------------------

  predicate LeadingSpace(s: Session) {
    s.options.Some? && s.options.value.protocol & HEADER_LEADING_SPACE != 0
  }

  predicate Oversized(fs: seq<Frame>, max: nat) {
    exists k :: 0 <= k < |fs| && |fs[k].payload| + 1 > max
  }

  predicate Allowed(options: Options, m: Modification) {
    options.actions & Capability(m) != 0
  }

  /** The frames of one modification, after `spent` payload bytes have been used. */
  function Serialise(c: Config, options: Options, leading: bool, spent: nat, m: Modification): Result<seq<Frame>> {
    if !Allowed(options, m) then Err(NotNegotiated)
    else if spent + PayloadBytes(m, leading) > c.limits.messageBytes then Err(Limit)
    else
      var fs :- Frames(m, leading);
      if Oversized(fs, c.limits.frameBytes) then Err(Limit) else Ok(fs)
  }

  function SerialiseAll(c: Config, options: Options, leading: bool, mods: seq<Modification>): Result<seq<Frame>> {
    if mods == [] then Ok([])
    else
      var before :- SerialiseAll(c, options, leading, mods[..|mods| - 1]);
      var fs :- Serialise(c, options, leading, TotalPayload(before), mods[|mods| - 1]);
      Ok(before + fs)
  }

  predicate Rejects(v: Verdict) {
    v.Reject? || v.Tempfail? || v.Reply? || v.Shutdown?
  }

  /** Ends filtering of this message without refusing it. */
  predicate Finishes(v: Verdict) {
    v.Accept? || v.Discard?
  }

  function Digit(n: nat): Byte
    requires n < 10
  {
    48 + n
  }

  function CodeText(code: nat): Bytes
    requires code < 1000
  {
    [Digit(code / 100), Digit(code / 10 % 10), Digit(code % 10)]
  }

  const DOT: Byte := 46

  function SplitDots(s: Bytes): seq<Bytes> {
    match Find(s, 0, DOT)
    case None => [s]
    case Some(i) => [s[..i]] + SplitDots(s[i + 1..])
  }

  predicate StatusPart(p: Bytes) {
    0 < |p| <= 3 && forall i :: 0 <= i < |p| ==> 48 <= p[i] <= 57
  }

  /** An enhanced code has the class of the reply code and two numeric parts. */
  predicate EnhancedOk(code: nat, enhanced: Bytes)
    requires code < 1000
  {
    var parts := SplitDots(enhanced);
    |parts| == 3 && parts[0] == [Digit(code / 100)] && StatusPart(parts[1]) && StatusPart(parts[2])
  }

  function ReplyText(code: nat, enhanced: Option<Bytes>, text: Bytes): Bytes
    requires code < 1000
  {
    CodeText(code) + (if enhanced.Some? then [SP] + enhanced.value else []) + [SP] + text
  }

  function FinalFrame(v: Verdict): Result<Frame> {
    match v
    case Continue => Ok(Empty(RPL_CONTINUE))
    case Accept => Ok(Empty(RPL_ACCEPT))
    case Reject => Ok(Empty(RPL_REJECT))
    case Tempfail => Ok(Empty(RPL_TEMPFAIL))
    case Discard => Ok(Empty(RPL_DISCARD))
    case Shutdown => Ok(Empty(RPL_SHUTDOWN))
    case Reply(code, enhanced, text) =>
      if !(400 <= code < 600) || !Clean(text) then Err(Invalid)
      else if enhanced.Some? && !EnhancedOk(code, enhanced.value) then Err(Invalid)
      else StringFrame(RPL_REPLY, [ReplyText(code, enhanced, text)])
  }

  function DropLast<T>(list: seq<T>): seq<T> {
    if list == [] then [] else list[..|list| - 1]
  }

  /** The session after a decision at `stage`. */
  function Settle(s: Session, stage: Stage, v: Verdict): Session {
    var done := s.(pending := None);
    if v.Shutdown? then Reset(done).(state := Stopped)
    else if Rejects(v) && stage == AtRecipient then
      var left := DropLast(s.message.recipients);
      done.(message := s.message.(recipients := left), state := if left == [] then InMail else InRecipients)
    else if Rejects(v) && (stage == AtConnect || stage == AtHelo) then done.(state := Stopped)
    else if stage == AtEnd || Rejects(v) || Finishes(v) then Reset(done).(state := Ready)
    else done
  }

  /** What a decision puts on the wire: everything is checked before anything is sent. */
  function DecisionFrames(c: Config, s: Session, d: Decision): Result<seq<Frame>> {
    if s.pending.None? || s.options.None? then Err(Invalid)
    else if d.modifications != [] && s.pending.value != AtEnd then Err(Invalid)
    else if |d.modifications| > c.limits.modifications then Err(Limit)
    else
      var edits :- SerialiseAll(c, s.options.value, LeadingSpace(s), d.modifications);
      var last :- FinalFrame(d.verdict);
      if |last.payload| + 1 > c.limits.frameBytes then Err(Limit)
      else Ok((if Rejects(d.verdict) || d.verdict.Discard? then [] else edits) + [last])
  }

  /** `Session::complete`. */
  function Complete(c: Config, s: Session, d: Decision): Result<(Session, seq<Frame>)> {
    var frames :- DecisionFrames(c, s, d);
    Ok((if s.pending.Some? then Settle(s, s.pending.value, d.verdict) else s, frames))
  }
}
