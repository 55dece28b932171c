/** From a scanner's answer to a decision and to the MTA's message (src/hooks.rs:1196-1321):
    exactly which answers are accepted, and what an accepted one does. */
module Translation {
  import opened Octets
  import opened Wire
  import opened Modifications
  import opened Mta
  import opened Slots
  import opened Changes
  import opened EnvelopeEdits
  import opened StructuredEdits
  import opened RecipientLists
  import opened Encodability
  import opened RawMessage
  import opened Replacement
  import opened RawReplacement
  import opened ReplacementLaws
  import opened Protocol
  import opened SessionLaws
  import opened Rulings
  import opened Answers

  // ---- The loops ----------------------------------------------------------

  /** The accumulator holds the draft. */
  ghost predicate Drafts(edits: Edits, d: Draft)
    reads edits
  {
    && edits.Valid() && edits.Headers() == d.headers && edits.Marks() == d.marks
    && edits.headerChanges == d.changes && edits.headerDeletes == d.deleted
    && edits.Recipients() == d.recipients && edits.RecipientMarks() == d.recipientMarks
    && edits.recipientDeletes == d.recipientsDeleted && edits.from == d.from
    && (edits.IsEmpty() <==> d.count == 0)
  }

  lemma {:induction false} SubstitutedUntouched(list: seq<Field>, index: nat, field: Field)
    requires index < |list|
    ensures Substituted(list, Untouched(|list|), index, field) == list[index := field]
  {
  }

  lemma {:induction false} NoEmptySnoc(changes: seq<HeaderEdit>, e: HeaderEdit)
    ensures NoEmptySet(changes + [e]) <==> NoEmptySet(changes) && ValueOf(e) != []
  {
    var all := changes + [e];
    assert all[|changes|] == e;
    assert forall k :: 0 <= k < |changes| ==> all[k] == changes[k];
  }

  /** One set operation does to the lists what the scanner author expects. */
  method ApplySet(edits: Edits, op: SetOp, isText: Bytes -> bool, ghost d: Draft) returns (r: Result<()>)
    requires Drafts(edits, d) && edits.headers == Untouched(|edits.origin.headers|)
    modifies edits
    ensures r.Ok? <==> SetAccepted(edits.origin, op, isText)
    ensures r.Ok? ==> Drafts(edits, SetOn(edits.origin, d, op)) && edits.headers == Untouched(|edits.origin.headers|)
    ensures r.Ok? ==> (NoEmptySet(edits.headerChanges) <==> NoEmptySet(old(edits.headerChanges)) && NewValue(op) != Some([]))
  {
    r := edits.Set(op, isText);
    if r.Ok? && !op.SetFrom? {
      SubstitutedUntouched(d.headers, op.index,
                           Field(edits.origin.headers[op.index].name, OnWire(NewValue(op).value, edits.origin.leading)));
      NoEmptySnoc(old(edits.headerChanges), HeaderEdit(op.index, NewValue(op)));
    }
  }

  /** The replacement found among the first `n` sets, if any. */
  ghost predicate RawFound(t: Target, a: Answer, n: nat, isText: Bytes -> bool, raw: Option<seq<Modification>>)
    requires n <= |a.sets| && Within(t)
  {
    match raw
    case None => forall k :: 0 <= k < n ==> !a.sets[k].RawSet?
    case Some(mods) => exists k :: 0 <= k < n && RawAt(t, a, k, isText, mods)
  }

  predicate RawAt(t: Target, a: Answer, k: nat, isText: Bytes -> bool, mods: seq<Modification>)
    requires k < |a.sets| && Within(t)
  {
    a.sets[k].RawSet? && Replace(t, a.sets[k].encoded, a.sets[k].decoded, isText) == Ok(mods)
  }

  /** The first `n` sets have been carried out. */
  ghost predicate SetsDone(edits: Edits, a: Answer, raw: bool, n: nat)
    requires n <= |a.sets|
    reads edits
  {
    && Drafts(edits, AfterSets(edits.origin, a, raw, n))
    && edits.headers == Untouched(|edits.origin.headers|)
    && (NoEmptySet(edits.headerChanges) <==> NoEmpty(a, raw, n))
  }

  lemma {:induction false} NoRawYet(t: Target, a: Answer, n: nat, isText: Bytes -> bool, found: Option<seq<Modification>>)
    requires n < |a.sets| && Within(t) && !a.sets[n].RawSet? && RawFound(t, a, n, isText, found)
    ensures RawFound(t, a, n + 1, isText, found)
  {
    if found.Some? {
      var k :| 0 <= k < n && RawAt(t, a, k, isText, found.value);
    }
  }

  lemma {:induction false} NextSet(o: Origin, a: Answer, raw: bool, n: nat)
    requires n < |a.sets|
    ensures var e := a.sets[n];
            AfterSets(o, a, raw, n + 1) ==
            if e.EditSet? && Counts(e.message, raw) then SetOn(o, AfterSets(o, a, raw, n), e.op) else AfterSets(o, a, raw, n)
    ensures NoEmpty(a, raw, n + 1) <==> NoEmpty(a, raw, n) && !Empties(a.sets[n], raw)
  {
  }

  method ApplyEdit(edits: Edits, a: Answer, raw: bool, n: nat, isText: Bytes -> bool) returns (r: Result<()>)
    requires n < |a.sets| && SetsDone(edits, a, raw, n)
    modifies edits
    ensures r.Ok? <==> (a.sets[n].EditSet? && Counts(a.sets[n].message, raw) ==> SetAccepted(edits.origin, a.sets[n].op, isText))
    ensures r.Ok? ==> SetsDone(edits, a, raw, n + 1)
  {
    var entry := a.sets[n];
    NextSet(edits.origin, a, raw, n);
    if entry.EditSet? && Counts(entry.message, raw) {
      r := ApplySet(edits, entry.op, isText, AfterSets(edits.origin, a, raw, n));
    } else {
      r := Ok(());
    }
  }

  /** The replacement among the first `n` sets; a second one is an error. */
  function RawUpTo(t: Target, a: Answer, n: nat, isText: Bytes -> bool): Result<Option<seq<Modification>>>
    requires n <= |a.sets| && Within(t)
  {
    if n == 0 then Ok(None)
    else
      var before :- RawUpTo(t, a, n - 1, isText);
      var entry := a.sets[n - 1];
      if !entry.RawSet? then Ok(before)
      else if before.Some? then Err(Invalid)
      else
        var mods :- Replace(t, entry.encoded, entry.decoded, isText);
        Ok(Some(mods))
  }

  method ApplyRaw(t: Target, a: Answer, n: nat, found: Option<seq<Modification>>, isText: Bytes -> bool)
    returns (r: Result<Option<seq<Modification>>>)
    requires n < |a.sets| && Within(t) && RawUpTo(t, a, n, isText) == Ok(found)
    ensures r == RawUpTo(t, a, n + 1, isText)
  {
    var entry := a.sets[n];
    if entry.RawSet? {
      if found.Some? {
        return Err(Invalid);
      }
      var mods :- RawReplace(t, entry.encoded, entry.decoded, isText);
      r := Ok(Some(mods));
    } else {
      r := Ok(found);
    }
  }

  lemma {:induction false} RawUpToFinds(t: Target, a: Answer, n: nat, isText: Bytes -> bool)
    requires n <= |a.sets| && Within(t) && RawUpTo(t, a, n, isText).Ok?
    ensures RawFound(t, a, n, isText, RawUpTo(t, a, n, isText).value)
  {
    if n > 0 {
      RawUpToFinds(t, a, n - 1, isText);
      if a.sets[n - 1].RawSet? {
        assert RawAt(t, a, n - 1, isText, RawUpTo(t, a, n, isText).value.value);
      } else {
        NoRawYet(t, a, n - 1, isText, RawUpTo(t, a, n - 1, isText).value);
      }
    }
  }

  method ApplyRuling(a: Answer, n: nat, said: Said) returns (r: Result<Said>)
    requires n < |a.sets| && Hears(RulingOps(a, n)) == Ok(said)
    ensures r == Hears(RulingOps(a, n + 1))
  {
    if a.sets[n].RulingSet? {
      HearsSnoc(RulingOps(a, n), a.sets[n].ruling);
      r := Hear(said, a.sets[n].ruling);
    } else {
      r := Ok(said);
    }
  }

  /** The edits among the first `n` sets are accepted. */
  predicate EditsAccepted(o: Origin, a: Answer, raw: bool, n: nat, isText: Bytes -> bool)
    requires n <= |a.sets|
  {
    n == 0 ||
    (EditsAccepted(o, a, raw, n - 1, isText)
     && (a.sets[n - 1].EditSet? && Counts(a.sets[n - 1].message, raw) ==> SetAccepted(o, a.sets[n - 1].op, isText)))
  }

  /** What the loop over the sets has gathered. */
  datatype Gathered = Gathered(raw: Option<seq<Modification>>, said: Said)

  /** Carrying out the first `n` sets meets no error. */
  predicate Smooth(o: Origin, t: Target, a: Answer, raw: bool, n: nat, isText: Bytes -> bool)
    requires n <= |a.sets| && Within(t)
  {
    EditsAccepted(o, a, raw, n, isText) && RawUpTo(t, a, n, isText).Ok? && Hears(RulingOps(a, n)).Ok?
  }

  /** An error stays. */
  lemma {:induction false} NeverSmooth(o: Origin, t: Target, a: Answer, raw: bool, k: nat, n: nat, isText: Bytes -> bool)
    requires k <= n <= |a.sets| && Within(t) && !Smooth(o, t, a, raw, k, isText)
    ensures !Smooth(o, t, a, raw, n, isText)
  {
    if k < n {
      NeverSmooth(o, t, a, raw, k, n - 1, isText);
      if a.sets[n - 1].RulingSet? {
        HearsSnoc(RulingOps(a, n - 1), a.sets[n - 1].ruling);
      }
    }
  }

  lemma {:induction false} SmoothEntry(o: Origin, t: Target, a: Answer, raw: bool, n: nat, isText: Bytes -> bool)
    requires n < |a.sets| && Within(t) && Smooth(o, t, a, raw, n, isText)
    ensures Smooth(o, t, a, raw, n + 1, isText) <==> EntryAccepted(o, t, a, raw, n, isText)
  {
    RawUpToFinds(t, a, n, isText);
    match a.sets[n]
    case RawSet(encoded, decoded) => AcceptedIff(t, encoded, decoded, isText);
    case EditSet(_, _) =>
    case RulingSet(_) => HeardAsSaid(RulingOps(a, n + 1));
  }

  /** Which is to say that every entry is acceptable. */
  lemma {:induction false} SmoothIff(o: Origin, t: Target, a: Answer, raw: bool, n: nat, isText: Bytes -> bool)
    requires n <= |a.sets| && Within(t)
    ensures Smooth(o, t, a, raw, n, isText) <==> SetsAccepted(o, t, a, raw, n, isText)
  {
    if n > 0 {
      SmoothIff(o, t, a, raw, n - 1, isText);
      if Smooth(o, t, a, raw, n - 1, isText) {
        SmoothEntry(o, t, a, raw, n - 1, isText);
      } else {
        NeverSmooth(o, t, a, raw, n - 1, n, isText);
      }
    }
  }

  method ApplyEntry(edits: Edits, t: Target, a: Answer, raw: bool, n: nat, g: Gathered, isText: Bytes -> bool)
    returns (r: Result<Gathered>)
    requires n < |a.sets| && Within(t) && SetsDone(edits, a, raw, n) && EditsAccepted(edits.origin, a, raw, n, isText)
    requires RawUpTo(t, a, n, isText) == Ok(g.raw) && Hears(RulingOps(a, n)) == Ok(g.said)
    modifies edits
    ensures r.Ok? <==> Smooth(edits.origin, t, a, raw, n + 1, isText)
    ensures r.Ok? ==> SetsDone(edits, a, raw, n + 1)
    ensures r.Ok? ==> RawUpTo(t, a, n + 1, isText) == Ok(r.value.raw) && Hears(RulingOps(a, n + 1)) == Ok(r.value.said)
  {
    var found := ApplyRaw(t, a, n, g.raw, isText);
    var said := ApplyRuling(a, n, g.said);
    var done := ApplyEdit(edits, a, raw, n, isText);
    if found.Err? {
      return Err(found.error);
    }
    if said.Err? {
      return Err(said.error);
    }
    if done.Err? {
      return Err(done.error);
    }
    r := Ok(Gathered(found.value, said.value));
  }

  method ApplySets(edits: Edits, t: Target, a: Answer, raw: bool, isText: Bytes -> bool) returns (r: Result<Gathered>)
    requires Within(t) && SetsDone(edits, a, raw, 0)
    modifies edits
    ensures r.Ok? <==> Smooth(edits.origin, t, a, raw, |a.sets|, isText)
    ensures r.Ok? ==> SetsDone(edits, a, raw, |a.sets|)
    ensures r.Ok? ==> RawUpTo(t, a, |a.sets|, isText) == Ok(r.value.raw) && Hears(RulingOps(a, |a.sets|)) == Ok(r.value.said)
  {
    var g := Gathered(None, UNSAID);
    for n := 0 to |a.sets|
      invariant SetsDone(edits, a, raw, n) && EditsAccepted(edits.origin, a, raw, n, isText)
      invariant RawUpTo(t, a, n, isText) == Ok(g.raw) && Hears(RulingOps(a, n)) == Ok(g.said)
    {
      r := ApplyEntry(edits, t, a, raw, n, g, isText);
      if r.Err? {
        NeverSmooth(edits.origin, t, a, raw, n + 1, |a.sets|, isText);
        return;
      }
      g := r.value;
    }
    r := Ok(g);
  }

  method ApplyAdds(edits: Edits, a: Answer, raw: bool) returns (r: Result<()>)
    requires Drafts(edits, AfterAdds(edits.origin, a, raw, 0))
    modifies edits
    ensures r.Ok? <==> AddsAccepted(edits.origin, a, raw, |a.adds|)
    ensures r.Ok? ==> Drafts(edits, AfterAdds(edits.origin, a, raw, |a.adds|))
    ensures r.Ok? ==> edits.headerChanges == old(edits.headerChanges)
  {
    for n := 0 to |a.adds|
      invariant Drafts(edits, AfterAdds(edits.origin, a, raw, n)) && edits.headerChanges == old(edits.headerChanges)
      invariant AddsAccepted(edits.origin, a, raw, n)
    {
      r := ApplyAdd(edits, a, raw, n);
      if r.Err? {
        return;
      }
    }
    r := Ok(());
  }

  method ApplyAdd(edits: Edits, a: Answer, raw: bool, n: nat) returns (r: Result<()>)
    requires n < |a.adds| && Drafts(edits, AfterAdds(edits.origin, a, raw, n))
    modifies edits
    ensures r.Ok? <==>
            (Counts(a.adds[n].message, raw) ==> AddAccepted(edits.origin, AfterAdds(edits.origin, a, raw, n), a.adds[n].op))
    ensures r.Ok? ==> Drafts(edits, AfterAdds(edits.origin, a, raw, n + 1)) && edits.headerChanges == old(edits.headerChanges)
  {
    r := Ok(());
    if Counts(a.adds[n].message, raw) {
      r := edits.Add(a.adds[n].op);
    }
  }

  method ApplyDeletes(edits: Edits, a: Answer, raw: bool) returns (r: Result<()>)
    requires Drafts(edits, AfterDeletes(edits.origin, a, raw, 0))
    modifies edits
    ensures r.Ok? <==> DeletesAccepted(edits.origin, a, raw, |a.deletes|)
    ensures r.Ok? ==> Drafts(edits, AfterDeletes(edits.origin, a, raw, |a.deletes|))
    ensures r.Ok? ==> edits.headerChanges == old(edits.headerChanges)
  {
    for n := 0 to |a.deletes|
      invariant Drafts(edits, AfterDeletes(edits.origin, a, raw, n)) && edits.headerChanges == old(edits.headerChanges)
      invariant DeletesAccepted(edits.origin, a, raw, n)
    {
      r := ApplyDelete(edits, a, raw, n);
      if r.Err? {
        return;
      }
    }
    r := Ok(());
  }

  method ApplyDelete(edits: Edits, a: Answer, raw: bool, n: nat) returns (r: Result<()>)
    requires n < |a.deletes| && Drafts(edits, AfterDeletes(edits.origin, a, raw, n))
    modifies edits
    ensures r.Ok? <==>
            (Counts(a.deletes[n].message, raw) ==> DeleteAccepted(AfterDeletes(edits.origin, a, raw, n), a.deletes[n].op))
    ensures r.Ok? ==> Drafts(edits, AfterDeletes(edits.origin, a, raw, n + 1)) && edits.headerChanges == old(edits.headerChanges)
  {
    r := Ok(());
    if Counts(a.deletes[n].message, raw) {
      r := edits.Delete(a.deletes[n].op);
    }
  }

  /** Every modification can be put on the wire. */
  method CheckFrames(mods: seq<Modification>, leading: bool) returns (r: Result<()>)
    ensures r.Ok? <==> AllEncodable(mods, leading)
  {
    for k := 0 to |mods|
      invariant forall i :: 0 <= i < k ==> Frames(mods[i], leading).Ok?
    {
      var fs := Frames(mods[k], leading);
      if fs.Err? {
        return Err(fs.error);
      }
    }
    r := Ok(());
  }

  // ---- Compiling a draft --------------------------------------------------

  /** The accumulator compiles exactly when the draft does. */
  lemma {:induction false} CompilesIff(edits: Edits, d: Draft, isText: Bytes -> bool)
    requires Drafts(edits, d)
    ensures edits.HeadersCompilable(isText) && edits.EnvelopeCompilable(isText) <==> DraftCompiles(edits.origin, d, isText)
  {
    ConvertIff(LiveOf(edits.addedRecipients));
    LiveAreNew(|edits.origin.recipients|, edits.recipients, edits.recipientDeletes, edits.addedRecipients, Converts);
  }

  /** Its script goes on the wire exactly when the draft may. */
  lemma {:induction false} SendableIff(edits: Edits, d: Draft)
    requires Drafts(edits, d) && edits.origin.maxHeaders < 0x1_0000_0000
    requires (edits.from.Some? ==> Milter(edits.from.value, true).Ok?) && AllConvert(LiveOf(edits.addedRecipients))
    ensures AllEncodable(edits.WholeScript(), edits.origin.leading) <==> DraftSendable(edits.origin, d)
  {
    var o, leading := edits.origin, edits.origin.leading;
    var n := |o.headers|;
    EditsInRange(edits.headerChanges, edits.headerDeletes, n);
    var changes := HeaderScript(o, edits.headerChanges, edits.headerDeletes);
    var inserts := InsertScript(edits.headers, edits.addedHeaders, n, |edits.headers|);
    var envelope := EnvelopeScript(edits.from, DeletedAddresses(o, edits.recipientDeletes), LiveOf(edits.addedRecipients));
    EncodableAppend(changes + inserts, envelope, leading);
    EncodableAppend(changes, inserts, leading);
    HeaderScriptEncodable(o, edits.headerChanges, edits.headerDeletes, leading);
    InsertsEncodable(edits.headers, edits.addedHeaders, n, |edits.headers|, leading);
    MarkedOk(edits.headers, edits.addedHeaders, n);
    EnvelopeEncodable(o, edits.from, edits.recipientDeletes, LiveOf(edits.addedRecipients), leading);
    LiveAreNew(|o.recipients|, edits.recipients, edits.recipientDeletes, edits.addedRecipients, AddableOk);
  }

  // ---- What the MTA ends with ---------------------------------------------

  function OriginOf(c: Config, s: Session): Origin {
    Origin(s.message.headers, s.message.recipients, c.limits.headers, c.limits.recipients, LeadingSpace(s))
  }

  /** The session is within its own limits, and those within the index type of the wire. */
  predicate Sized(c: Config, s: Session) {
    && |s.message.headers| <= c.limits.headers < 0x1_0000_0000
    && |s.message.recipients| <= c.limits.recipients
  }

  /** The message shows the replacement: its fields in order and its body. */
  predicate Shows(final: Message, raw: Bytes, t: Target) {
    match Parse(raw, t.maxHeaders)
    case Err(_) => false
    case Ok(p) =>
      && Laid(raw, p.fields, |raw|) && p.bodyStart <= |raw|
      && Normalised(final.headers, TextsOf(raw, p.fields), t.leading)
      && final.FinalBody() == raw[p.bodyStart..]
  }

  /** No undeleted recipient has the address of a deleted one. */
  predicate KeptApart(recipients: seq<Party>, deleted: seq<nat>) {
    forall i, k :: 0 <= i < |recipients| && i !in Elements(deleted) && 0 <= k < |deleted| && deleted[k] < |recipients| ==>
      recipients[i].address != recipients[deleted[k]].address
  }

  /** The MTA holds the message of this session. */
  predicate Mirrors(msg: Message, s: Session) {
    && msg.headers == s.message.headers && msg.body == s.message.body && msg.replacement == None
    && msg.recipients == s.message.recipients
  }

  /** The MTA ends with what the answer asks for; for recipients, that is as far as deleting by
      address allows. */
  ghost predicate Delivers(c: Config, s: Session, a: Answer, msg: Message, final: Message) {
    var d := Drafted(OriginOf(c, s), a);
    && final.sender == (if d.from.Some? then PartyOf(d.from.value, true) else msg.sender)
    && (multiset(final.recipients) == multiset(d.recipients) <==> KeptApart(msg.recipients, d.recipientsDeleted))
    && (if HasRaw(a) then
          exists k :: 0 <= k < |a.sets| && a.sets[k].RawSet? && a.sets[k].decoded.Some?
                      && Shows(final, a.sets[k].decoded.value, TargetOf(c, s))
        else final.headers == d.headers && final.FinalBody() == msg.body)
  }

  /** Running the script gives the MTA what the answer asks for. */
  ghost predicate Delivered(c: Config, s: Session, a: Answer, msg: Message, mods: seq<Modification>) {
    var ran := Run(msg, mods, LeadingSpace(s));
    ran.Some? && Delivers(c, s, a, msg, ran.value)
  }

  /** And the message is held or not as it should be. */
  ghost predicate Fulfilled(c: Config, s: Session, a: Answer, msg: Message, mods: seq<Modification>, held: bool) {
    Delivered(c, s, a, msg, mods) && Run(msg, mods, LeadingSpace(s)).value.held == held
  }

  lemma {:induction false} ApartIff(o: Origin, deletes: seq<nat>)
    requires forall k :: 0 <= k < |deletes| ==> deletes[k] < |o.recipients|
    ensures Unshared(o.recipients, deletes, DeletedAddresses(o, deletes)) <==> KeptApart(o.recipients, deletes)
  {
    var addresses := DeletedAddresses(o, deletes);
    assert forall k :: 0 <= k < |deletes| ==> addresses[k] == o.recipients[deletes[k]].address;
    assert forall k :: 0 <= k < |deletes| ==> addresses[k] in Addresses(addresses);
  }

  /** The structured half of the answer. */
  lemma {:induction false} StructuredDelivers(edits: Edits, d: Draft, msg: Message)
    requires Drafts(edits, d) && msg.headers == edits.origin.headers && msg.recipients == edits.origin.recipients
    ensures var final := edits.Described(msg);
            && final.headers == d.headers
            && final.sender == (if d.from.Some? then PartyOf(d.from.value, true) else msg.sender)
            && final == msg.(headers := final.headers, sender := final.sender, recipients := final.recipients)
            && (multiset(final.recipients) == multiset(d.recipients) <==> KeptApart(msg.recipients, d.recipientsDeleted))
  {
    ApartIff(edits.origin, edits.recipientDeletes);
    RecipientsMet(edits.origin, edits.recipientDeletes, edits.addedRecipients, edits.recipients);
  }

  lemma {:induction false} ReplacementDelivers(
    c: Config, s: Session, a: Answer, k: nat, mods: seq<Modification>, isText: Bytes -> bool, msg: Message, middle: Message)
    requires Sized(c, s) && Mirrors(msg, s) && k < |a.sets| && RawAt(TargetOf(c, s), a, k, isText, mods)
    requires AllEncodable(mods, LeadingSpace(s))
    requires middle.headers == msg.headers && middle.body == msg.body && middle.replacement == None
    ensures var r := Run(middle, mods, LeadingSpace(s));
            && r.Some? && a.sets[k].decoded.Some? && Shows(r.value, a.sets[k].decoded.value, TargetOf(c, s))
            && r.value == middle.(headers := r.value.headers, replacement := r.value.replacement)
  {
    assert a.sets[k].decoded.Some?;
    var p, final := ReplacementCorrect(TargetOf(c, s), a.sets[k].encoded, a.sets[k].decoded.value, isText, middle);
  }

  /** Both halves: structured edits first, then the replacement. */
  lemma {:induction false} AnswerDelivers(
    c: Config, s: Session, a: Answer, edits: Edits, structured: seq<Modification>, raw: Option<seq<Modification>>,
    isText: Bytes -> bool, msg: Message)
    requires Sized(c, s) && Classified(a) && Mirrors(msg, s)
    requires edits.origin == OriginOf(c, s) && Drafts(edits, Drafted(edits.origin, a))
    requires Run(msg, structured, LeadingSpace(s)) == Some(edits.Described(msg))
    requires RawFound(TargetOf(c, s), a, |a.sets|, isText, raw)
    requires AllEncodable(structured + Maybe(raw), LeadingSpace(s))
    ensures Fulfilled(c, s, a, msg, structured + Maybe(raw), msg.held)
  {
    StructuredDelivers(edits, Drafted(edits.origin, a), msg);
    match raw
    case None => assert structured + [] == structured;
    case Some(mods) =>
      var k :| 0 <= k < |a.sets| && RawAt(TargetOf(c, s), a, k, isText, mods);
      DeletesSpareHeaders(edits.origin, a, |a.deletes|);
      EncodableAppend(structured, mods, LeadingSpace(s));
      ReplacementDelivers(c, s, a, k, mods, isText, msg, edits.Described(msg));
      RunAppend(msg, structured, mods, LeadingSpace(s));
  }

  function Maybe(raw: Option<seq<Modification>>): seq<Modification> {
    if raw.Some? then raw.value else []
  }

  /** With an empty set value there is no replacement, and the headers come out too short. */
  lemma {:induction false} EmptySetMisses(
    c: Config, s: Session, a: Answer, edits: Edits, structured: seq<Modification>, raw: Option<seq<Modification>>,
    isText: Bytes -> bool, msg: Message)
    requires Sized(c, s) && Classified(a) && !NoEmpty(a, HasRaw(a), |a.sets|)
    requires edits.origin == OriginOf(c, s) && Drafts(edits, Drafted(edits.origin, a))
    requires Shorter(msg, structured, LeadingSpace(s), edits.Headers())
    requires RawFound(TargetOf(c, s), a, |a.sets|, isText, raw)
    ensures !Delivered(c, s, a, msg, structured + Maybe(raw))
  {
    SetsSpareHeaders(edits.origin, a, |a.sets|);
    assert !HasRaw(a) && raw.None?;
    assert structured + [] == structured;
  }

  lemma {:induction false} OnlyRaw(a: Answer, k: nat)
    requires forall i, k :: 0 <= i < k < |a.sets| ==> !(a.sets[i].RawSet? && a.sets[k].RawSet?)
    requires k < |a.sets| && a.sets[k].RawSet?
    ensures forall i :: 0 <= i < |a.sets| && a.sets[i].RawSet? ==> i == k
  {
    forall i | 0 <= i < |a.sets| && a.sets[i].RawSet?
      ensures i == k
    {
      assert !(i < k) && !(k < i);
    }
  }

  lemma {:induction false} RawSendableAt(t: Target, a: Answer, k: nat, isText: Bytes -> bool, mods: seq<Modification>)
    requires k < |a.sets| && Within(t) && RawAt(t, a, k, isText, mods)
    ensures a.sets[k].decoded.Some? && (AllEncodable(mods, t.leading) <==> Insertable(t, a.sets[k].decoded.value))
  {
    assert a.sets[k].decoded.Some?;
    InsertableIff(t, a.sets[k].encoded, a.sets[k].decoded.value, isText);
  }

  lemma {:induction false} RawSendableIff(t: Target, a: Answer, isText: Bytes -> bool, raw: Option<seq<Modification>>)
    requires Within(t) && RawFound(t, a, |a.sets|, isText, raw)
    requires forall i, k :: 0 <= i < k < |a.sets| ==> !(a.sets[i].RawSet? && a.sets[k].RawSet?)
    ensures AllEncodable(Maybe(raw), t.leading) <==> RawSendable(t, a)
    ensures raw.Some? <==> HasRaw(a)
  {
    if raw.Some? {
      var k :| 0 <= k < |a.sets| && RawAt(t, a, k, isText, raw.value);
      OnlyRaw(a, k);
      RawSendableAt(t, a, k, isText, raw.value);
    }
  }

  lemma {:induction false} OneRaw(o: Origin, t: Target, a: Answer, raw: bool, isText: Bytes -> bool)
    requires Within(t) && SetsAccepted(o, t, a, raw, |a.sets|, isText)
    ensures forall i, k :: 0 <= i < k < |a.sets| ==> !(a.sets[i].RawSet? && a.sets[k].RawSet?)
  {
    forall i, k | 0 <= i < k < |a.sets|
      ensures !(a.sets[i].RawSet? && a.sets[k].RawSet?)
    {
      EachAccepted(o, t, a, raw, |a.sets|, k, isText);
    }
  }

  // ---- Translate ----------------------------------------------------------

  /** All operations are individually possible. */
  predicate Possible(c: Config, s: Session, a: Answer, isText: Bytes -> bool)
    requires Sized(c, s)
  {
    var o, raw := OriginOf(c, s), HasRaw(a);
    && SetsAccepted(o, TargetOf(c, s), a, raw, |a.sets|, isText)
    && AddsAccepted(o, a, raw, |a.adds|)
    && DeletesAccepted(o, a, raw, |a.deletes|)
  }

  /** What they amount to can be compiled and sent at this stage. */
  predicate Feasible(c: Config, s: Session, stage: Stage, a: Answer, isText: Bytes -> bool)
    requires Sized(c, s)
  {
    var o := OriginOf(c, s);
    var d := Drafted(o, a);
    && (stage == AtEnd || (d.count == 0 && !HasRaw(a)))
    && DraftCompiles(o, d, isText) && DraftSendable(o, d)
    && RawSendable(TargetOf(c, s), a)
  }

  /** All ruling operations of the answer. */
  function AllRulings(a: Answer): seq<RulingOp> {
    RulingOps(a, |a.sets|)
  }

  /** The answer asks for the message to be held. */
  predicate Holds(a: Answer) {
    LastAction(AllRulings(a)) == Rulings.QUARANTINE
  }

  predicate Acceptable(c: Config, s: Session, stage: Stage, a: Answer, isText: Bytes -> bool)
    requires Sized(c, s)
  {
    && |a.sets| + |a.adds| + |a.deletes| <= c.limits.modifications
    && Possible(c, s, a, isText) && Feasible(c, s, stage, a, isText) && Ruled(AllRulings(a), stage)
  }

  /** All operations of the answer, accumulated but not yet compiled. */
  method Accumulate(c: Config, s: Session, edits: Edits, a: Answer, isText: Bytes -> bool) returns (r: Result<Gathered>)
    requires Sized(c, s) && edits.origin == OriginOf(c, s) && SetsDone(edits, a, HasRaw(a), 0)
    modifies edits
    ensures r.Ok? <==> Possible(c, s, a, isText)
    ensures r.Ok? ==> Drafts(edits, Drafted(edits.origin, a)) && RawFound(TargetOf(c, s), a, |a.sets|, isText, r.value.raw)
    ensures r.Ok? ==> Hears(RulingOps(a, |a.sets|)) == Ok(r.value.said)
    ensures r.Ok? ==> (NoEmptySet(edits.headerChanges) <==> NoEmpty(a, HasRaw(a), |a.sets|))
  {
    var hasRaw := HasRaw(a);
    SmoothIff(edits.origin, TargetOf(c, s), a, hasRaw, |a.sets|, isText);
    r := ApplySets(edits, TargetOf(c, s), a, hasRaw, isText);
    if r.Ok? {
      RawUpToFinds(TargetOf(c, s), a, |a.sets|, isText);
      var added := ApplyAdds(edits, a, hasRaw);
      if added.Err? {
        return Err(added.error);
      }
      var deleted := ApplyDeletes(edits, a, hasRaw);
      if deleted.Err? {
        return Err(deleted.error);
      }
    }
  }

  /** Compile, append the replacement, check every frame. */
  method Emit(edits: Edits, raw: Option<seq<Modification>>, isText: Bytes -> bool, ghost msg: Message)
    returns (r: Result<seq<Modification>>)
    requires edits.Valid() && edits.origin.maxHeaders < 0x1_0000_0000 && msg.headers == edits.origin.headers
    ensures r.Ok? <==> Emittable(edits, raw, isText)
    ensures r.Ok? ==> r.value == edits.WholeScript() + Maybe(raw)
    ensures r.Ok? ==> AllEncodable(r.value, edits.origin.leading)
    ensures r.Ok? && NoEmptySet(edits.headerChanges) ==>
              Run(msg, edits.WholeScript(), edits.origin.leading) == Some(edits.Described(msg))
    ensures r.Ok? && !NoEmptySet(edits.headerChanges) ==>
              Shorter(msg, edits.WholeScript(), edits.origin.leading, edits.Headers())
    ensures r.Ok? && edits.IsEmpty() && raw.None? ==> r.value == []
  {
    var structured :- edits.Modifications(isText, msg);
    var mods := structured + if raw.Some? then raw.value else [];
    var sendable := CheckFrames(mods, edits.origin.leading);
    if sendable.Err? {
      return Err(sendable.error);
    }
    r := Ok(mods);
  }

  /** The accumulated edits compile, and they and the replacement go on the wire. */
  ghost predicate Emittable(edits: Edits, raw: Option<seq<Modification>>, isText: Bytes -> bool)
    reads edits
    requires edits.Valid() && edits.origin.maxHeaders < 0x1_0000_0000
  {
    && edits.HeadersCompilable(isText) && edits.EnvelopeCompilable(isText)
    && AllEncodable(edits.WholeScript() + Maybe(raw), edits.origin.leading)
  }

  lemma {:induction false} EmittableIff(
    c: Config, s: Session, edits: Edits, a: Answer, raw: Option<seq<Modification>>, isText: Bytes -> bool)
    requires Sized(c, s) && Possible(c, s, a, isText)
    requires edits.origin == OriginOf(c, s) && Drafts(edits, Drafted(edits.origin, a))
    requires RawFound(TargetOf(c, s), a, |a.sets|, isText, raw)
    ensures raw.Some? <==> HasRaw(a)
    ensures Emittable(edits, raw, isText) <==>
            var d := Drafted(edits.origin, a);
            DraftCompiles(edits.origin, d, isText) && DraftSendable(edits.origin, d) && RawSendable(TargetOf(c, s), a)
  {
    var d := Drafted(edits.origin, a);
    OneRaw(edits.origin, TargetOf(c, s), a, HasRaw(a), isText);
    RawSendableIff(TargetOf(c, s), a, isText, raw);
    CompilesIff(edits, d, isText);
    if DraftCompiles(edits.origin, d, isText) {
      SendableIff(edits, d);
      EncodableAppend(edits.WholeScript(), Maybe(raw), edits.origin.leading);
    }
  }

  lemma {:induction false} FeasibleIff(
    c: Config, s: Session, stage: Stage, edits: Edits, a: Answer, raw: Option<seq<Modification>>, isText: Bytes -> bool)
    requires Sized(c, s) && Possible(c, s, a, isText)
    requires edits.origin == OriginOf(c, s) && Drafts(edits, Drafted(edits.origin, a))
    requires RawFound(TargetOf(c, s), a, |a.sets|, isText, raw)
    ensures Feasible(c, s, stage, a, isText) <==>
            (stage == AtEnd || (edits.IsEmpty() && raw.None?)) && Emittable(edits, raw, isText)
  {
    EmittableIff(c, s, edits, a, raw, isText);
  }

  /** Compile and check everything that was accumulated. */
  method Compile(c: Config, s: Session, stage: Stage, edits: Edits, a: Answer, raw: Option<seq<Modification>>,
                 isText: Bytes -> bool, ghost msg: Message)
    returns (r: Result<seq<Modification>>)
    requires Sized(c, s) && Classified(a) && Mirrors(msg, s) && Possible(c, s, a, isText)
    requires edits.origin == OriginOf(c, s) && Drafts(edits, Drafted(edits.origin, a))
    requires NoEmptySet(edits.headerChanges) <==> NoEmpty(a, HasRaw(a), |a.sets|)
    requires RawFound(TargetOf(c, s), a, |a.sets|, isText, raw)
    ensures r.Ok? <==> Feasible(c, s, stage, a, isText)
    ensures r.Ok? ==> Scripted(c, s, stage, a, msg, r.value)
  {
    FeasibleIff(c, s, stage, edits, a, raw, isText);
    if stage != AtEnd && (!edits.IsEmpty() || raw.Some?) {
      return Err(Invalid);
    }
    r := Emit(edits, raw, isText, msg);
    if r.Ok? {
      EmittedScript(c, s, stage, a, edits, edits.WholeScript(), raw, isText, msg);
    }
  }

  lemma {:induction false} EmittedScript(
    c: Config, s: Session, stage: Stage, a: Answer, edits: Edits, script: seq<Modification>, raw: Option<seq<Modification>>,
    isText: Bytes -> bool, msg: Message)
    requires Sized(c, s) && Classified(a) && Mirrors(msg, s)
    requires edits.origin == OriginOf(c, s) && Drafts(edits, Drafted(edits.origin, a))
    requires NoEmptySet(edits.headerChanges) <==> NoEmpty(a, HasRaw(a), |a.sets|)
    requires RawFound(TargetOf(c, s), a, |a.sets|, isText, raw) && AllEncodable(script + Maybe(raw), LeadingSpace(s))
    requires NoEmptySet(edits.headerChanges) ==> Run(msg, script, LeadingSpace(s)) == Some(edits.Described(msg))
    requires !NoEmptySet(edits.headerChanges) ==> Shorter(msg, script, LeadingSpace(s), edits.Headers())
    requires stage != AtEnd ==> script + Maybe(raw) == []
    ensures Scripted(c, s, stage, a, msg, script + Maybe(raw))
  {
    if NoEmpty(a, HasRaw(a), |a.sets|) {
      AnswerDelivers(c, s, a, edits, script, raw, isText, msg);
    } else {
      EmptySetMisses(c, s, a, edits, script, raw, isText, msg);
    }
  }

  const HOLD_REASON: Bytes := [77, 84, 65, 32, 72, 111, 111, 107, 115, 32, 112, 111, 108, 105, 99, 121]  // "MTA Hooks policy"

  lemma {:induction false} DeliversHeld(c: Config, s: Session, a: Answer, msg: Message, final: Message, held: bool)
    requires Delivers(c, s, a, msg, final)
    ensures Delivers(c, s, a, msg, final.(held := held))
  {
    if HasRaw(a) {
      var k :| 0 <= k < |a.sets| && a.sets[k].RawSet? && a.sets[k].decoded.Some?
               && Shows(final, a.sets[k].decoded.value, TargetOf(c, s));
      assert Shows(final.(held := held), a.sets[k].decoded.value, TargetOf(c, s));
    }
  }

  /** Delivery does not depend on the hold flag. */
  lemma {:induction false} DeliversHeldIff(c: Config, s: Session, a: Answer, msg: Message, final: Message)
    ensures Delivers(c, s, a, msg, final.(held := true)) <==> Delivers(c, s, a, msg, final)
  {
    var after := final.(held := true);
    if Delivers(c, s, a, msg, final) {
      DeliversHeld(c, s, a, msg, final, true);
    }
    if Delivers(c, s, a, msg, after) {
      DeliversHeld(c, s, a, msg, after, final.held);
      assert after.(held := final.held) == final;
    }
  }

  lemma {:induction false} HoldLast(c: Config, s: Session, a: Answer, msg: Message, mods: seq<Modification>)
    ensures Delivered(c, s, a, msg, mods + [Quarantine(HOLD_REASON)]) <==> Delivered(c, s, a, msg, mods)
    ensures Delivered(c, s, a, msg, mods) ==> Fulfilled(c, s, a, msg, mods + [Quarantine(HOLD_REASON)], true)
  {
    RunHold(msg, mods, LeadingSpace(s));
    var ran := Run(msg, mods, LeadingSpace(s));
    if ran.Some? {
      DeliversHeldIff(c, s, a, msg, ran.value);
    }
  }

  lemma {:induction false} RunHold(msg: Message, mods: seq<Modification>, leading: bool)
    ensures Run(msg, mods + [Quarantine(HOLD_REASON)], leading) ==
            if Run(msg, mods, leading).Some? then Some(Run(msg, mods, leading).value.(held := true)) else None
  {
    RunSnoc(msg, mods, Quarantine(HOLD_REASON), leading);
  }

  /** What an accepted answer leads to: the verdict it rules, no modification before the end of
      the message, and the described message at the MTA exactly when no header is set to the
      empty string. */
  ghost predicate Translated(c: Config, s: Session, stage: Stage, a: Answer, msg: Message, d: Decision) {
    && d.verdict == Verdicts(AllRulings(a))
    && (stage != AtEnd ==> d.modifications == [])
    && (Fulfilled(c, s, a, msg, d.modifications, msg.held || Holds(a)) <==> NoEmpty(a, HasRaw(a), |a.sets|))
  }

  /** The script without a ruling. */
  ghost predicate Scripted(c: Config, s: Session, stage: Stage, a: Answer, msg: Message, mods: seq<Modification>) {
    && (stage != AtEnd ==> mods == [])
    && (if NoEmpty(a, HasRaw(a), |a.sets|) then Fulfilled(c, s, a, msg, mods, msg.held) else !Delivered(c, s, a, msg, mods))
  }

  lemma {:induction false} RulingAdded(c: Config, s: Session, stage: Stage, a: Answer, msg: Message, mods: seq<Modification>)
    requires Scripted(c, s, stage, a, msg, mods) && (Holds(a) ==> stage == AtEnd)
    ensures Translated(c, s, stage, a, msg,
                       Decision(Verdicts(AllRulings(a)), mods + if Holds(a) then [Quarantine(HOLD_REASON)] else []))
  {
    if Holds(a) {
      HoldLast(c, s, a, msg, mods);
    } else {
      assert mods + [] == mods;
    }
  }

  method Gather(c: Config, s: Session, stage: Stage, a: Answer, isText: Bytes -> bool, ghost msg: Message)
    returns (r: Result<seq<Modification>>, said: Said)
    requires Sized(c, s) && Classified(a) && Mirrors(msg, s)
    ensures r.Ok? <==> Possible(c, s, a, isText) && Feasible(c, s, stage, a, isText)
    ensures r.Ok? ==> Scripted(c, s, stage, a, msg, r.value) && Hears(RulingOps(a, |a.sets|)) == Ok(said)
  {
    said := UNSAID;
    var edits := new Edits(OriginOf(c, s));
    var gathered := Accumulate(c, s, edits, a, isText);
    if gathered.Err? {
      r := Err(gathered.error);
    } else {
      said := gathered.value.said;
      r := Compile(c, s, stage, edits, a, gathered.value.raw, isText, msg);
    }
  }

  /** `translate`: accepts exactly the acceptable answers, and does what they ask. */
  method Translate(c: Config, s: Session, stage: Stage, a: Answer, isText: Bytes -> bool, ghost msg: Message)
    returns (r: Result<Decision>)
    requires Sized(c, s) && Classified(a) && Mirrors(msg, s)
    ensures r.Ok? <==> Acceptable(c, s, stage, a, isText)
    ensures r.Ok? ==> Translated(c, s, stage, a, msg, r.value)
  {
    if |a.sets| + |a.adds| + |a.deletes| > c.limits.modifications {
      return Err(Limit);
    }
    var mods, said := Gather(c, s, stage, a, isText, msg);
    if mods.Err? {
      return Err(mods.error);
    }
    var ruling := Rule(said, stage);
    RulingMeans(AllRulings(a), stage);
    if ruling.Err? {
      return Err(ruling.error);
    }
    ActionsDiffer();
    RulingAdded(c, s, stage, a, msg, mods.value);
    r := Ok(Decision(ruling.value.verdict, mods.value + if ruling.value.quarantine then [Quarantine(HOLD_REASON)] else []));
  }
}
