/** What holds in every reachable session state, whatever the MTA sends and the policy
    decides (src/session.rs:258-568). */
module SessionInvariant {
  import opened Octets
  import opened Wire
  import opened Mta
  import opened Protocol

  // ---- The invariant ------------------------------------------------------

  /** The state name determines what exists. */
  predicate Shape(s: Session) {
    var m := s.message;
    match s.state
    case Initial => s == FRESH
    case Negotiated => s.connection.None? && s.helo.None? && m == NO_TRANSACTION
    case Ready => s.connection.Some? && m == NO_TRANSACTION
    case Stopped => s.connection.Some? && m == NO_TRANSACTION
    case Closed => m == NO_TRANSACTION
    case InMail => s.connection.Some? && m.sender.Some? && m.recipients == [] && m.headers == [] && m.body == []
    case InRecipients => s.connection.Some? && m.sender.Some? && m.recipients != [] && m.headers == [] && m.body == []
    case InData => s.connection.Some? && m.sender.Some? && m.recipients != [] && m.headers == [] && m.body == []
    case InHeaders => s.connection.Some? && m.sender.Some? && m.recipients != [] && m.headers != [] && m.body == []
    case InBody => s.connection.Some? && m.sender.Some? && m.recipients != []
  }

  function StateAt(stage: Stage): State {
    match stage
    case AtConnect => Ready
    case AtHelo => Ready
    case AtMail => InMail
    case AtRecipient => InRecipients
    case AtEnd => InBody
  }

  /** A pending callback fixes the state and was subscribed to. */
  predicate Asked(c: Config, s: Session) {
    s.pending.Some? ==> s.state == StateAt(s.pending.value) && (s.pending.value == AtEnd || s.pending.value in c.stages)
  }

  /** Negotiation never gives away the reply to a subscribed stage. */
  predicate Agreed(c: Config, s: Session) {
    && (s.state != Initial ==> s.options.Some?)
    && (s.options.Some? ==> forall stage <- c.stages :: Answered(s.options.value, stage))
  }

  predicate Disjoint(a: bv32, b: bv32) {
    a & b == 0
  }

  /** The MTA waits for a reply at this stage. */
  predicate Answered(o: Options, stage: Stage) {
    Disjoint(o.protocol, StageBit(stage))
  }

  function HeadersCost(fs: seq<Field>): nat {
    if fs == [] then 0 else HeadersCost(fs[..|fs| - 1]) + HeaderCost(fs[|fs| - 1])
  }

  /** The charge is exact and within every limit. */
  predicate Accounted(c: Config, s: Session) {
    Exact(s) && WithinLimits(c, s.message)
  }

  predicate Exact(s: Session) {
    s.message.bytes == HeadersCost(s.message.headers) + if s.state == InBody then 2 + |s.message.body| else 0
  }

  predicate WithinLimits(c: Config, m: Transaction) {
    && m.bytes <= c.limits.messageBytes
    && |m.headers| <= c.limits.headers
    && |m.recipients| <= c.limits.recipients
    && m.envelopeBytes <= c.limits.envelopeBytes
  }

  predicate MacrosFit(c: Config, s: Session) {
    && (forall stage <- s.macros :: MacroStage(stage))
    && (forall stage <- s.waiting :: MacroStage(stage))
    && MacroBytes(s.macros, s.waiting, |STAGES|) <= c.limits.macroBytes
  }

  predicate Inv(c: Config, s: Session) {
    Shape(s) && Asked(c, s) && Agreed(c, s) && Accounted(c, s) && MacrosFit(c, s)
  }

  lemma {:induction false} FreshInv(c: Config)
    ensures Inv(c, FRESH)
  {
    NoMacros(|STAGES|);
  }

  lemma {:induction false} NoMacros(n: nat)
    requires n <= |STAGES|
    ensures MacroBytes(map[], map[], n) == 0
  {
    if n > 0 {
      NoMacros(n - 1);
    }
  }

  // ---- Macro bytes --------------------------------------------------------

  predicate NoMore(a: Session, b: Session, stage: Byte) {
    BytesAt(a.macros, stage) + BytesAt(a.waiting, stage) <= BytesAt(b.macros, stage) + BytesAt(b.waiting, stage)
  }

  lemma {:induction false} MacroBytesLess(a: Session, b: Session, n: nat)
    requires n <= |STAGES| && forall k :: 0 <= k < n ==> NoMore(a, b, STAGES[k])
    ensures MacroBytes(a.macros, a.waiting, n) <= MacroBytes(b.macros, b.waiting, n)
  {
    if n > 0 {
      MacroBytesLess(a, b, n - 1);
    }
  }

  /** Resetting, carrying the MAIL batch and activating a batch never hold more bytes. */
  lemma {:induction false} ResetShrinks(c: Config, s: Session)
    requires MacrosFit(c, s)
    ensures MacrosFit(c, Reset(s))
  {
    MacroBytesLess(Reset(s), s, |STAGES|);
  }

  lemma {:induction false} CarryShrinks(c: Config, s: Session)
    requires MacrosFit(c, s)
    ensures MacrosFit(c, Carry(s))
  {
    MacroBytesLess(Carry(s), s, |STAGES|);
  }

  lemma {:induction false} ActivateShrinks(c: Config, s: Session, command: Byte)
    requires MacrosFit(c, s)
    ensures MacrosFit(c, Activate(s, command))
  {
    MacroBytesLess(Activate(s, command), s, |STAGES|);
  }

  lemma {:induction false} PrepareShrinks(c: Config, s: Session, command: Command)
    requires MacrosFit(c, s)
    ensures MacrosFit(c, Prepare(s, command))
  {
    if command.Mail? {
      CarryShrinks(c, s);
      ActivateShrinks(c, Carry(s), Opcode(command));
    } else {
      ActivateShrinks(c, s, Opcode(command));
    }
  }

  lemma {:induction false} ActMacros(c: Config, s: Session, command: Command)
    requires WellFormed(command) && MacrosFit(c, s) && Act(c, s, command).Ok?
    ensures MacrosFit(c, Act(c, s, command).value)
  {
    if command.Abort? || command.Quit? {
      ResetShrinks(c, s);
    } else if command.QuitNewConnection? {
      NoMacros(|STAGES|);
    }
  }

  lemma {:induction false} SettleMacros(c: Config, s: Session, stage: Stage, v: Verdict)
    requires MacrosFit(c, s)
    ensures MacrosFit(c, Settle(s, stage, v))
  {
    ResetShrinks(c, s.(pending := None));
  }

  // ---- Negotiation --------------------------------------------------------

  lemma {:induction false} DisjointOr(a: bv32, b: bv32, bit: bv32)
    requires Disjoint(a, bit) && Disjoint(b, bit)
    ensures Disjoint(a | b, bit)
  {
  }

  lemma {:induction false} DisjointAnd(offered: bv32, mask: bv32, bit: bv32)
    requires Disjoint(mask, bit)
    ensures Disjoint(offered & mask, bit)
  {
  }

  lemma {:induction false} MaskClear(stages: set<Stage>, stage: Stage)
    requires stage in stages
    ensures Disjoint(Mask(stages), StageBit(stage))
  {
    var bit := StageBit(stage);
    var a := Unless(AtConnect in stages, NR_CONNECT);
    var b := Unless(AtHelo in stages, NR_HELO);
    var d := Unless(AtMail in stages, NR_MAIL);
    var e := Unless(AtRecipient in stages, NR_RCPT);
    assert Disjoint(BASE_PROTOCOL, bit) && Disjoint(a, bit) && Disjoint(b, bit) && Disjoint(d, bit) && Disjoint(e, bit);
    DisjointOr(BASE_PROTOCOL, a, bit);
    DisjointOr(BASE_PROTOCOL | a, b, bit);
    DisjointOr(BASE_PROTOCOL | a | b, d, bit);
    DisjointOr(BASE_PROTOCOL | a | b | d, e, bit);
  }

  lemma {:induction false} AgreeKeepsReplies(c: Config, offered: Options, stage: Stage)
    requires stage in c.stages
    ensures Answered(Agree(c, offered), stage)
  {
    MaskClear(c.stages, stage);
    DisjointAnd(offered.protocol, Mask(c.stages), StageBit(stage));
  }

  predicate Subset(a: bv32, b: bv32) {
    a & b == a
  }

  lemma {:induction false} AndIsSubset(a: bv32, b: bv32)
    ensures Subset(a & b, a) && Subset(a & b, b)
  {
  }

  lemma {:induction false} SubsetTrans(a: bv32, b: bv32, c: bv32)
    requires Subset(a, b) && Subset(b, c)
    ensures Subset(a, c)
  {
  }

  lemma {:induction false} ActionsWithin(offered: bv32, wanted: bv32, supported: bv32)
    ensures var agreed := offered & (wanted & supported);
            Subset(agreed, offered) && Subset(agreed, wanted) && Subset(agreed, supported)
  {
    AndIsSubset(offered, wanted & supported);
    AndIsSubset(wanted, supported);
    SubsetTrans(offered & (wanted & supported), wanted & supported, wanted);
    SubsetTrans(offered & (wanted & supported), wanted & supported, supported);
  }

  /** Only what the MTA offered and the policy wants is agreed on, and nothing unsupported. */
  lemma {:induction false} AgreeWithinOffer(c: Config, offered: Options)
    ensures var o := Agree(c, offered);
            && Subset(o.actions, offered.actions) && Subset(o.actions, c.wanted) && Subset(o.actions, SUPPORTED_ACTIONS)
            && Subset(o.protocol, offered.protocol) && o.version == VERSION
  {
    ActionsWithin(offered.actions, c.wanted, SUPPORTED_ACTIONS);
    AndIsSubset(offered.protocol, Mask(c.stages));
  }

  lemma {:induction false} SubsetOfAnd(bit: bv32, a: bv32, b: bv32)
    requires Subset(bit, a) && Subset(bit, b)
    ensures Subset(bit, a & b)
  {
  }

  lemma {:induction false} SubsetOfOr(bit: bv32, a: bv32, b: bv32)
    requires Subset(bit, a)
    ensures Subset(bit, a | b) && Subset(bit, b | a)
  {
  }

  /** Every action offered, wanted and supported is agreed on. */
  lemma {:induction false} AgreesActions(c: Config, offered: Options, bit: bv32)
    requires Subset(bit, offered.actions) && Subset(bit, c.wanted) && Subset(bit, 0xff)
    ensures Subset(bit, Agree(c, offered).actions)
  {
    SubsetOfAnd(bit, c.wanted, SUPPORTED_ACTIONS);
    SubsetOfAnd(bit, offered.actions, c.wanted & SUPPORTED_ACTIONS);
  }

  /** The protocol bits the milter is glad of: no reply to data, headers, end of headers, body and
      unknown commands, leading spaces, and no reply to stages nobody subscribed to. */
  predicate Welcome(c: Config, bit: bv32) {
    || bit == 0x80 || bit == 0x1_0000 || bit == 0x2_0000 || bit == 0x4_0000 || bit == 0x8_0000 || bit == 0x10_0000
    || (bit == 0x1000 && AtConnect !in c.stages) || (bit == 0x2000 && AtHelo !in c.stages)
    || (bit == 0x4000 && AtMail !in c.stages) || (bit == 0x8000 && AtRecipient !in c.stages)
  }

  lemma {:induction false} WelcomeInMask(c: Config, bit: bv32)
    requires Welcome(c, bit)
    ensures Subset(bit, Mask(c.stages))
  {
    var a := Unless(AtConnect in c.stages, NR_CONNECT);
    var b := Unless(AtHelo in c.stages, NR_HELO);
    var d := Unless(AtMail in c.stages, NR_MAIL);
    var e := Unless(AtRecipient in c.stages, NR_RCPT);
    if bit == 0x8000 {
      SubsetOfOr(bit, e, BASE_PROTOCOL | a | b | d);
    } else if bit == 0x4000 {
      SubsetOfOr(bit, d, BASE_PROTOCOL | a | b);
      SubsetOfOr(bit, BASE_PROTOCOL | a | b | d, e);
    } else if bit == 0x2000 {
      SubsetOfOr(bit, b, BASE_PROTOCOL | a);
      SubsetOfOr(bit, BASE_PROTOCOL | a | b, d);
      SubsetOfOr(bit, BASE_PROTOCOL | a | b | d, e);
    } else {
      SubsetOfOr(bit, if bit == 0x1000 then a else BASE_PROTOCOL, if bit == 0x1000 then BASE_PROTOCOL else a);
      SubsetOfOr(bit, BASE_PROTOCOL | a, b);
      SubsetOfOr(bit, BASE_PROTOCOL | a | b, d);
      SubsetOfOr(bit, BASE_PROTOCOL | a | b | d, e);
    }
  }

  /** Every welcome bit the MTA offers is agreed on. */
  lemma {:induction false} AgreesProtocol(c: Config, offered: Options, bit: bv32)
    requires Subset(bit, offered.protocol) && Welcome(c, bit)
    ensures Subset(bit, Agree(c, offered).protocol)
  {
    WelcomeInMask(c, bit);
    SubsetOfAnd(bit, offered.protocol, Mask(c.stages));
  }

  // ---- Every step keeps it ------------------------------------------------

  lemma {:induction false} NegotiateInv(c: Config, s: Session, offered: Options)
    requires Inv(c, s) && NegotiateStep(c, s, offered).Ok?
    ensures Inv(c, NegotiateStep(c, s, offered).value.0)
  {
    forall stage | stage in c.stages
      ensures Answered(Agree(c, offered), stage)
    {
      AgreeKeepsReplies(c, offered, stage);
    }
  }

  /** Preparing a command changes the message only for MAIL, which starts a new one. */
  lemma {:induction false} PrepareKeeps(s: Session, command: Command)
    ensures var t := Prepare(s, command);
            && t.state == s.state && t.options == s.options && t.connection == s.connection && t.helo == s.helo
            && t.message == (if command.Mail? then NO_TRANSACTION else s.message)
            && t.pending == (if command.Mail? then None else s.pending)
  {
  }

  lemma {:induction false} HeadersSnoc(fs: seq<Field>, f: Field)
    ensures HeadersCost(fs + [f]) == HeadersCost(fs) + HeaderCost(f)
  {
    assert (fs + [f])[..|fs|] == fs;
  }

  /** A session about to act on a command; MAIL comes with a clean transaction. */
  predicate Prepared(s: Session, command: Command) {
    s.state != Initial && s.state != Closed && s.pending.None? && (command.Mail? ==> s.state == Ready)
  }

  lemma {:induction false} ActShape(c: Config, s: Session, command: Command)
    requires WellFormed(command) && Prepared(s, command) && Shape(s) && Act(c, s, command).Ok?
    requires !command.Negotiate? && !command.Macro?
    ensures var t := Act(c, s, command).value;
            && Shape(t) && t.pending.None? && t.state != Initial && t.options == s.options
            && (StageOf(command).Some? ==> t.state == StateAt(StageOf(command).value))
  {
  }

  lemma {:induction false} HeaderActs(c: Config, s: Session, name: Bytes, value: Bytes)
    requires WellFormed(Header(name, value)) && Act(c, s, Header(name, value)).Ok?
    ensures var (m, t) := (s.message, Act(c, s, Header(name, value)).value);
            && s.state != InBody && t.state != InBody
            && t.message == m.(headers := m.headers + [Field(name, value)], bytes := m.bytes + HeaderCost(Field(name, value)))
  {
  }

  lemma {:induction false} HeaderExact(c: Config, s: Session, name: Bytes, value: Bytes)
    requires WellFormed(Header(name, value)) && Exact(s) && Act(c, s, Header(name, value)).Ok?
    ensures Exact(Act(c, s, Header(name, value)).value)
  {
    HeaderActs(c, s, name, value);
    HeadersSnoc(s.message.headers, Field(name, value));
  }

  /** Commands other than header, end of headers and body keep the content or drop it. */
  lemma {:induction false} ContentKept(c: Config, s: Session, command: Command)
    requires WellFormed(command) && Prepared(s, command) && Shape(s) && Act(c, s, command).Ok?
    requires !command.Header? && !command.EndHeaders? && !command.Body?
    ensures var t := Act(c, s, command).value;
            || (t.message.headers == [] && t.message.bytes == 0 && t.state != InBody)
            || (t.message.headers == s.message.headers && t.message.body == s.message.body
                && t.message.bytes == s.message.bytes && (t.state == InBody <==> s.state == InBody))
  {
  }

  lemma {:induction false} ActExact(c: Config, s: Session, command: Command)
    requires WellFormed(command) && Prepared(s, command) && Shape(s) && Exact(s) && Act(c, s, command).Ok?
    ensures Exact(Act(c, s, command).value)
  {
    if command.Header? {
      HeaderExact(c, s, command.name, command.value);
    } else if !command.EndHeaders? && !command.Body? {
      ContentKept(c, s, command);
    }
  }

  lemma {:induction false} ActWithin(c: Config, s: Session, command: Command)
    requires WellFormed(command) && WithinLimits(c, s.message) && Act(c, s, command).Ok?
    ensures WithinLimits(c, Act(c, s, command).value.message)
  {
  }

  lemma {:induction false} ActInv(c: Config, s: Session, command: Command)
    requires WellFormed(command) && Prepared(s, command) && Inv(c, s) && Act(c, s, command).Ok?
    requires !command.Negotiate? && !command.Macro?
    ensures Inv(c, Answer(c, Act(c, s, command).value, command).0)
  {
    ActShape(c, s, command);
    ActExact(c, s, command);
    ActWithin(c, s, command);
    ActMacros(c, s, command);
  }

  lemma {:induction false} PrepareInv(c: Config, s: Session, command: Command)
    requires Inv(c, s) && Prepared(s, command)
    ensures Inv(c, Prepare(s, command)) && Prepared(Prepare(s, command), command)
  {
    PrepareKeeps(s, command);
    PrepareShrinks(c, s, command);
  }

  /** Every command the session accepts keeps the invariant. */
  lemma {:induction false} HandleInv(c: Config, s: Session, command: Command)
    requires WellFormed(command) && Inv(c, s) && Handle(c, s, command).Ok?
    ensures Inv(c, Handle(c, s, command).value.0)
  {
    if command.Negotiate? {
      NegotiateInv(c, s, command.options);
    } else if command.Macro? {
    } else {
      PrepareInv(c, s, command);
      ActInv(c, Prepare(s, command), command);
    }
  }

  lemma {:induction false} SettleShape(s: Session, v: Verdict)
    requires Shape(s) && s.pending.Some? && s.state == StateAt(s.pending.value)
    ensures var t := Settle(s, s.pending.value, v);
            Shape(t) && t.pending.None? && t.options == s.options && t.state != Initial
  {
  }

  lemma {:induction false} SettleAccounted(c: Config, s: Session, v: Verdict)
    requires Accounted(c, s) && Shape(s) && s.pending.Some? && s.state == StateAt(s.pending.value)
    ensures Accounted(c, Settle(s, s.pending.value, v))
  {
  }

  lemma {:induction false} SettleInv(c: Config, s: Session, v: Verdict)
    requires Inv(c, s) && s.pending.Some?
    ensures Inv(c, Settle(s, s.pending.value, v))
  {
    SettleMacros(c, s, s.pending.value, v);
    SettleShape(s, v);
    SettleAccounted(c, s, v);
  }

  /** Every decision keeps the invariant; a refused decision changes nothing. */
  lemma {:induction false} CompleteInv(c: Config, s: Session, d: Decision)
    requires Inv(c, s) && Complete(c, s, d).Ok?
    ensures Inv(c, Complete(c, s, d).value.0)
  {
    SettleInv(c, s, d.verdict);
  }

  // ---- Consequences -------------------------------------------------------

  /** What asking about a recipient does to the session. */
  lemma {:induction false} RecipientAsked(c: Config, s: Session, fields: seq<Bytes>)
    requires Inv(c, s) && WellFormed(Recipient(fields)) && Handle(c, s, Recipient(fields)).Ok?
    ensures var (t, step) := Handle(c, s, Recipient(fields)).value;
            && (s.state == InMail || s.state == InRecipients) && step.event == Event(c, Recipient(fields))
            && t == s.(state := InRecipients, pending := step.event, macros := t.macros, waiting := t.waiting,
                       message := s.message.(recipients := s.message.recipients + [PartyFrom(fields)],
                                             envelopeBytes := s.message.envelopeBytes + EnvelopeCost(fields)))
  {
    PrepareKeeps(s, Recipient(fields));
  }

  lemma {:induction false} RecipientRefused(c: Config, s: Session, t: Session, party: Party, v: Verdict)
    requires Shape(s) && (s.state == InMail || s.state == InRecipients) && Rejects(v) && !v.Shutdown?
    requires t.message.recipients == s.message.recipients + [party]
    ensures var after := Settle(t, AtRecipient, v);
            after == t.(pending := None, state := s.state, message := t.message.(recipients := s.message.recipients))
  {
    assert DropLast(s.message.recipients + [party]) == s.message.recipients;
  }

  /** A refused recipient leaves the session exactly as before the attempt, apart from the
      bytes charged and the recipient macros used up. */
  lemma {:induction false} RefusalUndoesRecipient(c: Config, s: Session, fields: seq<Bytes>, d: Decision)
    requires Inv(c, s) && WellFormed(Recipient(fields)) && Handle(c, s, Recipient(fields)).Ok?
    requires var asked := Handle(c, s, Recipient(fields)).value;
             asked.1.event.Some? && Complete(c, asked.0, d).Ok? && Rejects(d.verdict) && !d.verdict.Shutdown?
    ensures var asked := Handle(c, s, Recipient(fields)).value;
            var after := Complete(c, asked.0, d).value.0;
            && asked.1.event == Some(AtRecipient)
            && asked.0.message.recipients == s.message.recipients + [PartyFrom(fields)]
            && after == s.(macros := after.macros, waiting := after.waiting, pending := None,
                           message := s.message.(envelopeBytes := s.message.envelopeBytes + EnvelopeCost(fields)))
  {
    var t := Handle(c, s, Recipient(fields)).value.0;
    RecipientAsked(c, s, fields);
    RecipientRefused(c, s, t, PartyFrom(fields), d.verdict);
    CompleteSettles(c, t, d);
  }

  lemma {:induction false} CompleteSettles(c: Config, s: Session, d: Decision)
    requires Complete(c, s, d).Ok?
    ensures s.pending.Some? && Complete(c, s, d).value.0 == Settle(s, s.pending.value, d.verdict)
  {
  }

  /** Once stopped, the policy is not asked again until a new connection begins. */
  lemma {:induction false} StoppedIsSilent(c: Config, s: Session, command: Command)
    requires Inv(c, s) && s.state == Stopped && WellFormed(command) && Handle(c, s, command).Ok?
    ensures var next := Handle(c, s, command).value;
            && next.1.event.None?
            && (command.QuitNewConnection? ==> next.0.state == Negotiated)
            && (command.Quit? ==> next.0.state == Closed && next.1.close)
            && (!command.QuitNewConnection? && !command.Quit? ==> next.0.state == Stopped)
  {
    PrepareKeeps(s, command);
  }

  /** The request to the scanner never misses the connection, nor the sender once MAIL was seen. */
  lemma {:induction false} RequestHasItsParts(c: Config, s: Session)
    requires Inv(c, s) && s.pending.Some?
    ensures s.connection.Some? && s.options.Some?
    ensures s.pending.value in {AtMail, AtRecipient, AtEnd} ==> s.message.sender.Some?
    ensures s.pending.value in {AtRecipient, AtEnd} ==> s.message.recipients != []
  {
  }
}
