/** A scanner's answer and the message it describes, in terms of plain lists: sets, then adds,
    then deletes; a whole-message replacement makes edits under /message void
    (src/hooks.rs:1196-1267). */
module Answers {
  import opened Octets
  import opened Modifications
  import opened Mta
  import opened Slots
  import opened Changes
  import opened EnvelopeEdits
  import opened StructuredEdits
  import opened Encodability
  import opened RawMessage
  import opened Matching
  import opened Replacement
  import opened RawReplacement
  import opened Rulings

  /** One entry of the answer's set list; `message` says whether its path lies under /message. */
  datatype SetEntry =
    | RawSet(encoded: nat, decoded: Option<Bytes>)
    | EditSet(op: SetOp, message: bool)
    | RulingSet(ruling: RulingOp)

  datatype AddEntry = AddEntry(op: AddOp, message: bool)
  datatype DeleteEntry = DeleteEntry(op: DeleteOp, message: bool)

  datatype Answer = Answer(sets: seq<SetEntry>, adds: seq<AddEntry>, deletes: seq<DeleteEntry>)

  /** Header operations have a path under /message, envelope operations have not. */
  predicate Classified(a: Answer) {
    && (forall k :: 0 <= k < |a.sets| && a.sets[k].EditSet? ==> SetPlaced(a.sets[k]))
    && (forall k :: 0 <= k < |a.adds| ==> AddPlaced(a.adds[k]))
    && (forall k :: 0 <= k < |a.deletes| ==> DeletePlaced(a.deletes[k]))
  }

  predicate SetPlaced(e: SetEntry)
    requires e.EditSet?
  {
    (e.op.SetField? || e.op.SetValue? ==> e.message) && (e.op.SetFrom? ==> !e.message)
  }

  predicate AddPlaced(e: AddEntry) {
    (e.op.AddField? ==> e.message) && (e.op.AddParty? ==> !e.message)
  }

  predicate DeletePlaced(e: DeleteEntry) {
    (e.op.DeleteField? ==> e.message) && (e.op.DeleteParty? ==> !e.message)
  }

  predicate HasRaw(a: Answer) {
    exists k :: 0 <= k < |a.sets| && a.sets[k].RawSet?
  }

  predicate Counts(message: bool, raw: bool) {
    !raw || !message
  }

  // ---- The described lists ------------------------------------------------

  /** Headers and recipients as a scanner author thinks of them, where each entry comes from,
      and which originals were changed and deleted; `count` operations took part. */
  datatype Draft = Draft(
    headers: seq<Field>, marks: seq<Mark<Field>>, changes: seq<HeaderEdit>, deleted: seq<nat>,
    recipients: seq<Party>, recipientMarks: seq<Mark<Address>>, recipientsDeleted: seq<nat>,
    from: Option<Address>, count: nat)

  function Start(o: Origin): Draft {
    Draft(o.headers, Keeps(|o.headers|), [], [], o.recipients, Keeps(|o.recipients|), [], None, 0)
  }

  function NewValue(op: SetOp): Option<Bytes> {
    match op
    case SetField(_, field) => if field.Some? then Some(field.value.value) else None
    case SetValue(_, value) => value
    case _ => None
  }

  predicate SetAccepted(o: Origin, op: SetOp, isText: Bytes -> bool) {
    match op
    case SetField(i, field) =>
      i < |o.headers| && field.Some? && isText(o.headers[i].name) && SameName(field.value.name, o.headers[i].name)
    case SetValue(i, value) => i < |o.headers| && value.Some?
    case SetFrom(address) => address.Some?
    case SetOther => false
  }

  function SetOn(o: Origin, d: Draft, op: SetOp): Draft {
    if op.SetFrom? then d.(from := op.address, count := d.count + 1)
    else if NewValue(op).Some? && op.index < |o.headers| && op.index < |d.headers| then
      d.(headers := d.headers[op.index := Field(o.headers[op.index].name, OnWire(NewValue(op).value, o.leading))],
         changes := d.changes + [HeaderEdit(op.index, NewValue(op))], count := d.count + 1)
    else d
  }

  predicate AddAccepted(o: Origin, d: Draft, op: AddOp) {
    match op
    case AddField(field, at) => |d.headers| < o.maxHeaders && field.Some? && (at.Some? ==> at.value <= |d.headers|)
    case AddParty(address, at) =>
      |d.recipients| < o.maxRecipients && address.Some? && (at.Some? ==> at.value <= |d.recipients|)
    case AddOther => false
  }

  /** At the end, or before the entry at the given position. */
  function Joined<T>(list: seq<T>, at: Option<U32>, item: T): seq<T> {
    if at.None? then list + [item]
    else if at.value <= |list| then list[..at.value] + [item] + list[at.value..]
    else list
  }

  function AddOn(o: Origin, d: Draft, op: AddOp): Draft {
    match op
    case AddField(field, at) =>
      if field.None? then d
      else
        d.(headers := Joined(d.headers, at, OnWireField(field.value, o.leading)),
           marks := Joined(d.marks, at, New(field.value)), count := d.count + 1)
    case AddParty(address, at) =>
      if address.None? then d
      else
        d.(recipients := Joined(d.recipients, at, PartyOf(address.value, false)),
           recipientMarks := Joined(d.recipientMarks, at, New(address.value)), count := d.count + 1)
    case AddOther => d
  }

  predicate DeleteAccepted(d: Draft, op: DeleteOp) {
    match op
    case DeleteField(i) => i < |d.headers|
    case DeleteParty(i) => i < |d.recipients|
    case DeleteOther => false
  }

  function DeleteOn(d: Draft, op: DeleteOp): Draft {
    match op
    case DeleteField(i) =>
      if i < |d.headers| == |d.marks| then
        d.(headers := RemoveAt(d.headers, i), marks := RemoveAt(d.marks, i),
           deleted := d.deleted + Origins(d.marks[i]), count := d.count + 1)
      else d
    case DeleteParty(i) =>
      if i < |d.recipients| == |d.recipientMarks| then
        d.(recipients := RemoveAt(d.recipients, i), recipientMarks := RemoveAt(d.recipientMarks, i),
           recipientsDeleted := d.recipientsDeleted + Origins(d.recipientMarks[i]), count := d.count + 1)
      else d
    case DeleteOther => d
  }

  function AfterSets(o: Origin, a: Answer, raw: bool, n: nat): Draft
    requires n <= |a.sets|
  {
    if n == 0 then Start(o)
    else
      var d := AfterSets(o, a, raw, n - 1);
      var e := a.sets[n - 1];
      if e.EditSet? && Counts(e.message, raw) then SetOn(o, d, e.op) else d
  }

  function AfterAdds(o: Origin, a: Answer, raw: bool, n: nat): Draft
    requires n <= |a.adds|
  {
    if n == 0 then AfterSets(o, a, raw, |a.sets|)
    else
      var d := AfterAdds(o, a, raw, n - 1);
      if Counts(a.adds[n - 1].message, raw) then AddOn(o, d, a.adds[n - 1].op) else d
  }

  function AfterDeletes(o: Origin, a: Answer, raw: bool, n: nat): Draft
    requires n <= |a.deletes|
  {
    if n == 0 then AfterAdds(o, a, raw, |a.adds|)
    else
      var d := AfterDeletes(o, a, raw, n - 1);
      if Counts(a.deletes[n - 1].message, raw) then DeleteOn(d, a.deletes[n - 1].op) else d
  }

  /** The lists after all operations of the answer. */
  function Drafted(o: Origin, a: Answer): Draft {
    AfterDeletes(o, a, HasRaw(a), |a.deletes|)
  }

  predicate Empties(e: SetEntry, raw: bool) {
    e.EditSet? && Counts(e.message, raw) && NewValue(e.op) == Some([])
  }

  /** No header is set to the empty string. */
  predicate NoEmpty(a: Answer, raw: bool, n: nat)
    requires n <= |a.sets|
  {
    forall k :: 0 <= k < n ==> !Empties(a.sets[k], raw)
  }

  /** The ruling operations among the first `n` sets. */
  function RulingOps(a: Answer, n: nat): seq<RulingOp>
    requires n <= |a.sets|
  {
    if n == 0 then []
    else if a.sets[n - 1].RulingSet? then RulingOps(a, n - 1) + [a.sets[n - 1].ruling]
    else RulingOps(a, n - 1)
  }

  // ---- Which answers are accepted -----------------------------------------

  predicate EntryAccepted(o: Origin, t: Target, a: Answer, raw: bool, k: nat, isText: Bytes -> bool)
    requires k < |a.sets| && Within(t)
  {
    match a.sets[k]
    case RawSet(encoded, decoded) =>
      (forall i :: 0 <= i < k ==> !a.sets[i].RawSet?) && Accepted(t, encoded, decoded, isText)
    case EditSet(op, message) => Counts(message, raw) ==> SetAccepted(o, op, isText)
    case RulingSet(_) => Audible(RulingOps(a, k + 1))
  }

  predicate SetsAccepted(o: Origin, t: Target, a: Answer, raw: bool, n: nat, isText: Bytes -> bool)
    requires n <= |a.sets| && Within(t)
  {
    n == 0 || (SetsAccepted(o, t, a, raw, n - 1, isText) && EntryAccepted(o, t, a, raw, n - 1, isText))
  }

  lemma {:induction false} EachAccepted(o: Origin, t: Target, a: Answer, raw: bool, n: nat, k: nat, isText: Bytes -> bool)
    requires k < n <= |a.sets| && Within(t) && SetsAccepted(o, t, a, raw, n, isText)
    ensures EntryAccepted(o, t, a, raw, k, isText)
  {
    if k < n - 1 {
      EachAccepted(o, t, a, raw, n - 1, k, isText);
    }
  }

  predicate AddsAccepted(o: Origin, a: Answer, raw: bool, n: nat)
    requires n <= |a.adds|
  {
    forall k :: 0 <= k < n && Counts(a.adds[k].message, raw) ==> AddAccepted(o, AfterAdds(o, a, raw, k), a.adds[k].op)
  }

  predicate DeletesAccepted(o: Origin, a: Answer, raw: bool, n: nat)
    requires n <= |a.deletes|
  {
    forall k :: 0 <= k < n && Counts(a.deletes[k].message, raw) ==> DeleteAccepted(AfterDeletes(o, a, raw, k), a.deletes[k].op)
  }

  /** No original header is changed or deleted twice, names and deleted addresses are text,
      and addresses convert. */
  predicate DraftCompiles(o: Origin, d: Draft, isText: Bytes -> bool) {
    var edits := AllEdits(d.changes, d.deleted);
    && Distinct(edits) && AllText(edits, o.headers, isText)
    && (d.from.Some? ==> Milter(d.from.value, true).Ok?)
    && (forall k :: 0 <= k < |d.recipientsDeleted| ==>
          d.recipientsDeleted[k] < |o.recipients| && isText(o.recipients[d.recipientsDeleted[k]].address))
    && AllNew(d.recipientMarks, Converts)
  }

  /** Names, values and addresses are such as may go on the wire. */
  predicate DraftSendable(o: Origin, d: Draft) {
    && EditsOk(AllEdits(d.changes, d.deleted), o.headers)
    && AllNew(d.marks, FieldOk)
    && SenderOk(d.from)
    && (forall k :: 0 <= k < |d.recipientsDeleted| ==>
          d.recipientsDeleted[k] < |o.recipients| && Unbroken(o.recipients[d.recipientsDeleted[k]].address))
    && AllNew(d.recipientMarks, AddableOk)
  }

  /** The replacement in the answer, if any, goes on the wire. */
  predicate RawSendable(t: Target, a: Answer)
    requires Within(t)
  {
    forall k :: 0 <= k < |a.sets| && a.sets[k].RawSet? ==> a.sets[k].decoded.Some? && Insertable(t, a.sets[k].decoded.value)
  }

  /** What differs from the session's own headers can be inserted and deleted as it stands. */
  predicate Insertable(t: Target, raw: Bytes)
    requires Within(t)
  {
    && Parse(raw, t.maxHeaders).Ok?
    && (ParseBounds(raw, t.maxHeaders);
        var texts := TextsOf(raw, Parse(raw, t.maxHeaders).value.fields);
        EditSendable(t, texts, Picks(t.headers, Looks(texts, t.leading))))
  }

  lemma {:induction false} InsertableIff(t: Target, encoded: nat, raw: Bytes, isText: Bytes -> bool)
    requires Within(t) && Replace(t, encoded, Some(raw), isText).Ok?
    ensures AllEncodable(Replace(t, encoded, Some(raw), isText).value, t.leading) <==> Insertable(t, raw)
  {
    var p := Parse(raw, t.maxHeaders).value;
    ParseBounds(raw, t.maxHeaders);
    ScriptEncodable(t, TextsOf(raw, p.fields), raw[p.bodyStart..]);
  }

  // ---- With a replacement, header edits are void --------------------------

  lemma {:induction false} SetsSpareHeaders(o: Origin, a: Answer, n: nat)
    requires n <= |a.sets| && Classified(a)
    ensures AfterSets(o, a, true, n).headers == o.headers
    ensures NoEmpty(a, true, n)
  {
    if n > 0 {
      SetsSpareHeaders(o, a, n - 1);
      assert a.sets[n - 1].EditSet? ==> SetPlaced(a.sets[n - 1]);
    }
  }

  lemma {:induction false} AddsSpareHeaders(o: Origin, a: Answer, n: nat)
    requires n <= |a.adds| && Classified(a)
    ensures AfterAdds(o, a, true, n).headers == o.headers
  {
    if n == 0 {
      SetsSpareHeaders(o, a, |a.sets|);
    } else {
      AddsSpareHeaders(o, a, n - 1);
      assert AddPlaced(a.adds[n - 1]);
    }
  }

  lemma {:induction false} DeletesSpareHeaders(o: Origin, a: Answer, n: nat)
    requires n <= |a.deletes| && Classified(a)
    ensures AfterDeletes(o, a, true, n).headers == o.headers
  {
    if n == 0 {
      AddsSpareHeaders(o, a, |a.adds|);
    } else {
      DeletesSpareHeaders(o, a, n - 1);
      assert DeletePlaced(a.deletes[n - 1]);
    }
  }

  // ---- Rulings along the set list -----------------------------------------

  lemma {:induction false} HearsSnoc(ops: seq<RulingOp>, op: RulingOp)
    ensures Hears(ops + [op]) == match Hears(ops) case Err(e) => Err(e) case Ok(said) => Hear(said, op)
  {
    assert (ops + [op])[..|ops|] == ops;
  }
}
