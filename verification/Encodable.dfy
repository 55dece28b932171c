/** Which compiled scripts go on the wire: every name, value and address is of the right form
    (src/protocol.rs:532-627, src/hooks.rs:1265-1267). */
module Encodability {
  import opened Octets
  import opened Wire
  import opened Modifications
  import opened Mta
  import opened Slots
  import opened Changes
  import opened EnvelopeEdits
  import opened StructuredEdits
  import opened Matching
  import opened Replacement
  import opened RawReplacement

  predicate HeaderOk(name: Bytes, value: Bytes) {
    ValidName(name) && HeaderValueOk(value)
  }

  predicate FieldOk(f: Field) {
    HeaderOk(f.name, f.value)
  }

  lemma {:induction false} OkIsNulFree(name: Bytes, value: Bytes)
    requires HeaderOk(name, value)
    ensures NulFree(name) && NulFree(value) && NulFree([SP] + value)
  {
    assert forall i: nat :: i < |value| ==> ClearAt(value, i);
    assert forall i: nat :: i < |value| && ClearAt(value, i) ==> value[i] != NUL;
    assert forall i :: 0 <= i < |value| ==> ([SP] + value)[i + 1] == value[i];
  }

  lemma {:induction false} HeaderEncodable(m: Modification, leading: bool)
    requires m.AddHeader? || m.InsertHeader? || (m.ChangeHeader? && m.occurrence > 0)
    ensures Frames(m, leading).Ok? <==> HeaderOk(m.name, m.value)
  {
    if HeaderOk(m.name, m.value) {
      OkIsNulFree(m.name, m.value);
      assert AllNulFree([m.name, OnWire(m.value, leading)]);
    }
  }

  lemma {:induction false} EncodableAppend(a: seq<Modification>, b: seq<Modification>, leading: bool)
    ensures AllEncodable(a + b, leading) <==> AllEncodable(a, leading) && AllEncodable(b, leading)
  {
    assert forall k :: 0 <= k < |a| ==> (a + b)[k] == a[k];
    assert forall k :: 0 <= k < |b| ==> (a + b)[|a| + k] == b[k];
  }

  // ---- Changes ------------------------------------------------------------

  predicate EditsOk(edits: seq<HeaderEdit>, fields: seq<Field>) {
    forall k :: 0 <= k < |edits| ==> edits[k].at < |fields| && HeaderOk(fields[edits[k].at].name, ValueOf(edits[k]))
  }

  lemma {:induction false} EditsOkPermutes(a: seq<HeaderEdit>, b: seq<HeaderEdit>, fields: seq<Field>)
    requires multiset(a) == multiset(b) && EditsOk(a, fields)
    ensures EditsOk(b, fields)
  {
    forall k | 0 <= k < |b|
      ensures b[k].at < |fields| && HeaderOk(fields[b[k].at].name, ValueOf(b[k]))
    {
      assert b[k] in multiset(a);
    }
  }

  lemma {:induction false} ChangesEncodable(edits: seq<HeaderEdit>, fields: seq<Field>, leading: bool)
    requires |fields| < 0x1_0000_0000 && InRange(edits, |fields|)
    ensures AllEncodable(ChangeScript(edits, fields), leading) <==> EditsOk(edits, fields)
  {
    forall k | 0 <= k < |edits|
      ensures Frames(ChangeScript(edits, fields)[k], leading).Ok? <==>
              HeaderOk(fields[edits[k].at].name, ValueOf(edits[k]))
    {
      HeaderEncodable(ChangeOf(edits[k], fields), leading);
    }
  }

  lemma {:induction false} HeaderScriptEncodable(o: Origin, changes: seq<HeaderEdit>, deletes: seq<nat>, leading: bool)
    requires InRange(AllEdits(changes, deletes), |o.headers|) && |o.headers| < 0x1_0000_0000
    ensures AllEncodable(HeaderScript(o, changes, deletes), leading) <==> EditsOk(AllEdits(changes, deletes), o.headers)
  {
    var edits := AllEdits(changes, deletes);
    var sorted := SortDescending(edits);
    SortedInRange(edits, |o.headers|);
    ChangesEncodable(sorted, o.headers, leading);
    if EditsOk(edits, o.headers) {
      EditsOkPermutes(edits, sorted, o.headers);
    }
    if EditsOk(sorted, o.headers) {
      EditsOkPermutes(sorted, edits, o.headers);
    }
  }

  // ---- Insertions ---------------------------------------------------------

  predicate AddedOk(slots: seq<Slot>, added: seq<Option<Field>>, n: nat, p: nat)
    requires AllRefer(slots, n, added) && p <= |slots|
  {
    forall k :: 0 <= k < p && slots[k].Added? ==> Refers(slots[k], n, added) && FieldOk(added[slots[k].index].value)
  }

  lemma {:induction false} InsertsEncodable(slots: seq<Slot>, added: seq<Option<Field>>, n: nat, p: nat, leading: bool)
    requires AllRefer(slots, n, added) && p <= |slots| < 0x1_0000_0000
    ensures AllEncodable(InsertScript(slots, added, n, p), leading) <==> AddedOk(slots, added, n, p)
  {
    if p > 0 {
      InsertsEncodable(slots, added, n, p - 1, leading);
      if slots[p - 1].Added? {
        var last := InsertionAt(slots, added, n, p - 1);
        EncodableAppend(InsertScript(slots, added, n, p - 1), [last], leading);
        HeaderEncodable(last, leading);
        assert [last][0] == last;
      }
    }
  }

  lemma {:induction false} MarkedOk(slots: seq<Slot>, added: seq<Option<Field>>, n: nat)
    requires AllRefer(slots, n, added)
    ensures AddedOk(slots, added, n, |slots|) <==> AllNew(Marking(slots, n, added), FieldOk)
  {
    var marks := Marking(slots, n, added);
    forall k | 0 <= k < |slots|
      ensures slots[k].Added? <==> marks[k].New?
      ensures slots[k].Added? ==> Refers(slots[k], n, added) && marks[k].item == added[slots[k].index].value
    {
      assert Refers(slots[k], n, added);
    }
  }

  // ---- Envelope -----------------------------------------------------------

  /** No NUL and no line break. */
  predicate Unbroken(s: Bytes) {
    forall i :: 0 <= i < |s| ==> s[i] != 0 && s[i] != 10 && s[i] != 13
  }

  lemma {:induction false} UnbrokenIsClean(s: Bytes)
    ensures Unbroken(s) <==> Clean(s)
    ensures Unbroken(s) ==> NulFree(s)
  {
  }

  predicate AddressOk(address: Bytes, parameters: Option<Bytes>) {
    address != [] && Unbroken(address) && (parameters.Some? ==> Unbroken(parameters.value))
  }

  /** Addresses go on the wire exactly when they are not empty and, like their parameters,
      hold no NUL and no line break; so do reasons, which may be empty. */
  lemma {:induction false} AddressEncodable(address: Bytes, parameters: Option<Bytes>, leading: bool)
    ensures Frames(ChangeFrom(address, parameters), leading).Ok? <==> AddressOk(address, parameters)
    ensures Frames(AddRecipient(address, parameters), leading).Ok? <==> AddressOk(address, parameters)
    ensures Frames(DeleteRecipient(address), leading).Ok? <==> Unbroken(address)
    ensures Frames(Quarantine(address), leading).Ok? <==> Unbroken(address)
  {
    UnbrokenIsClean(address);
    if parameters.Some? {
      UnbrokenIsClean(parameters.value);
    }
    assert NulFree(address) ==> AllNulFree([address]);
    assert NulFree(address) && (parameters.Some? ==> NulFree(parameters.value)) ==> AllNulFree([address] + Optional(parameters));
  }

  predicate DeletedOk(o: Origin, deletes: seq<nat>)
    requires forall k :: 0 <= k < |deletes| ==> deletes[k] < |o.recipients|
  {
    forall k :: 0 <= k < |deletes| ==> Unbroken(o.recipients[deletes[k]].address)
  }

  predicate SenderOk(from: Option<Address>) {
    from.None? ||
    (var party := Milter(from.value, true);
     party.Ok? && AddressOk(party.value.0, party.value.1))
  }

  /** An address that converts and goes on the wire as a new recipient. */
  predicate AddableOk(a: Address) {
    Milter(a, false).Ok? && AddressOk(Milter(a, false).value.0, Milter(a, false).value.1)
  }

  predicate Converts(a: Address) {
    Milter(a, false).Ok?
  }

  lemma {:induction false} FromEncodable(from: Option<Address>, leading: bool)
    requires from.Some? ==> Milter(from.value, true).Ok?
    ensures AllEncodable(FromScript(from), leading) <==> SenderOk(from)
  {
    if from.Some? {
      var party := Milter(from.value, true).value;
      AddressEncodable(party.0, party.1, leading);
      assert FromScript(from)[0] == ChangeFrom(party.0, party.1);
    }
  }

  lemma {:induction false} DropsEncodable(o: Origin, deletes: seq<nat>, leading: bool)
    requires forall k :: 0 <= k < |deletes| ==> deletes[k] < |o.recipients|
    ensures AllEncodable(DeleteScript(DeletedAddresses(o, deletes)), leading) <==> DeletedOk(o, deletes)
  {
    var script := DeleteScript(DeletedAddresses(o, deletes));
    forall k | 0 <= k < |deletes|
      ensures Frames(script[k], leading).Ok? <==> Unbroken(o.recipients[deletes[k]].address)
    {
      AddressEncodable(o.recipients[deletes[k]].address, None, leading);
    }
  }

  lemma {:induction false} AddsEncodable(live: seq<Address>, leading: bool)
    requires AllConvert(live)
    ensures AllEncodable(AddScript(live), leading) <==> AllOf(live, AddableOk)
  {
    forall k | 0 <= k < |live|
      ensures Frames(AddScript(live)[k], leading).Ok? <==> AddableOk(live[k])
    {
      var party := Milter(live[k], false).value;
      AddressEncodable(party.0, party.1, leading);
    }
  }

  lemma {:induction false} EnvelopeEncodable(
    o: Origin, from: Option<Address>, deletes: seq<nat>, live: seq<Address>, leading: bool)
    requires (from.Some? ==> Milter(from.value, true).Ok?) && AllConvert(live)
    requires forall k :: 0 <= k < |deletes| ==> deletes[k] < |o.recipients|
    ensures AllEncodable(EnvelopeScript(from, DeletedAddresses(o, deletes), live), leading) <==>
            SenderOk(from) && DeletedOk(o, deletes) && AllOf(live, AddableOk)
  {
    var addresses := DeletedAddresses(o, deletes);
    EncodableAppend(FromScript(from) + DeleteScript(addresses), AddScript(live), leading);
    EncodableAppend(FromScript(from), DeleteScript(addresses), leading);
    FromEncodable(from, leading);
    DropsEncodable(o, deletes, leading);
    AddsEncodable(live, leading);
  }

  lemma {:induction false} ConvertIff(live: seq<Address>)
    ensures AllConvert(live) <==> AllOf(live, Converts)
  {
  }

  // ---- Replacements -------------------------------------------------------

  /** A replacement field that can be inserted as it stands. */
  predicate Wireworthy(f: Field, leading: bool) {
    FieldOk(f) && (leading || StartsWith(f.value, SP))
  }

  lemma {:induction false} RawInsertEncodable(index: U32, f: Field, leading: bool)
    ensures Frames(InsertRawHeader(index, f.name, f.value), leading).Ok? <==> Wireworthy(f, leading)
  {
    if Wireworthy(f, leading) {
      OkIsNulFree(f.name, f.value);
      var value := if leading then f.value else f.value[1..];
      assert NulFree(value);
      assert AllNulFree([f.name, value]);
    }
  }

  predicate TextsWorthy(texts: seq<Field>, keep: seq<bool>, p: nat, leading: bool)
    requires p <= |texts| == |keep|
  {
    forall q :: 0 <= q < p ==> keep[q] || Wireworthy(texts[q], leading)
  }

  lemma {:induction false} RawInsertsEncodable(texts: seq<Field>, keep: seq<bool>, p: nat, leading: bool)
    requires p <= |texts| == |keep| && |texts| < 0x1_0000_0000
    ensures AllEncodable(Inserts(texts, keep, p), leading) <==> TextsWorthy(texts, keep, p, leading)
  {
    if p > 0 {
      RawInsertsEncodable(texts, keep, p - 1, leading);
      if !keep[p - 1] {
        var last := InsertOf(texts, p - 1);
        EncodableAppend(Inserts(texts, keep, p - 1), [last], leading);
        RawInsertEncodable(p - 1, texts[p - 1], leading);
        assert [last][0] == last;
      }
    }
  }

  lemma {:induction false} EditsOkCons(e: HeaderEdit, edits: seq<HeaderEdit>, fields: seq<Field>)
    requires e.at < |fields|
    ensures EditsOk([e] + edits, fields) <==> HeaderOk(fields[e.at].name, ValueOf(e)) && EditsOk(edits, fields)
  {
    var all := [e] + edits;
    assert all[0] == e;
    assert forall j :: 0 <= j < |edits| ==> all[j + 1] == edits[j];
  }

  lemma {:induction false} EmptyValueOk(name: Bytes)
    ensures HeaderOk(name, []) <==> ValidName(name)
  {
  }

  predicate NamesOk(headers: seq<Field>, gone: set<nat>, k: nat)
    requires k <= |headers|
  {
    forall i :: 0 <= i < k && i in gone ==> ValidName(headers[i].name)
  }

  lemma {:induction false} DeletesOk(headers: seq<Field>, gone: set<nat>, k: nat)
    requires k <= |headers|
    ensures EditsOk(DeleteEdits(gone, k), headers) <==> NamesOk(headers, gone, k)
  {
    if k > 0 {
      DeletesOk(headers, gone, k - 1);
      if k - 1 in gone {
        EditsOkCons(HeaderEdit(k - 1, None), DeleteEdits(gone, k - 1), headers);
        EmptyValueOk(headers[k - 1].name);
      }
    }
  }

  /** Unmatched fields can be inserted, and unmatched originals deleted, as they stand. */
  predicate EditSendable(t: Target, texts: seq<Field>, picks: seq<Option<nat>>)
    requires |picks| == |texts|
  {
    && (forall p :: 0 <= p < |texts| && picks[p].None? ==> Wireworthy(texts[p], t.leading))
    && (forall i: nat :: i < |t.headers| && !IsPicked(picks, i) ==> ValidName(t.headers[i].name))
  }

  lemma {:induction false} DeletesSendable(t: Target, texts: seq<Field>)
    requires Addressable(t, texts)
    ensures var gone := Gone(t, texts);
            && InRange(DeleteEdits(gone, |t.headers|), |t.headers|)
            && (AllEncodable(ChangeScript(DeleteEdits(gone, |t.headers|), t.headers), t.leading) <==>
                NamesOk(t.headers, gone, |t.headers|))
  {
    DeletesInRange(Gone(t, texts), |t.headers|);
    ChangesEncodable(DeleteEdits(Gone(t, texts), |t.headers|), t.headers, t.leading);
    DeletesOk(t.headers, Gone(t, texts), |t.headers|);
  }

  /** The picks say what is gone and what is kept. */
  lemma {:induction false} PicksTell(t: Target, texts: seq<Field>)
    ensures var picks := Picks(t.headers, Looks(texts, t.leading));
            && (forall i: nat :: i < |t.headers| ==> (i in Gone(t, texts) <==> !IsPicked(picks, i)))
            && (forall p :: 0 <= p < |texts| ==> (Keep(t, texts)[p] <==> picks[p].Some?))
  {
    var picks := Picks(t.headers, Looks(texts, t.leading));
    assert picks[..|texts|] == picks;
    forall i: nat | i < |t.headers|
      ensures i in Gone(t, texts) <==> !IsPicked(picks, i)
    {
      PickedIsRetained(t.headers, Looks(texts, t.leading), |texts|, i);
    }
  }

  /** A replacement script goes on the wire exactly then; a changed body always does. */
  lemma {:induction false} ScriptEncodable(t: Target, texts: seq<Field>, body: Bytes)
    requires Addressable(t, texts)
    ensures AllEncodable(Script(t, texts, body), t.leading) <==>
            EditSendable(t, texts, Picks(t.headers, Looks(texts, t.leading)))
  {
    DeletesSendable(t, texts);
    var deletes := ChangeScript(DeleteEdits(Gone(t, texts), |t.headers|), t.headers);
    var inserts := Inserts(texts, Keep(t, texts), |texts|);
    EncodableAppend(deletes + inserts, BodyEdit(t, body), t.leading);
    EncodableAppend(deletes, inserts, t.leading);
    RawInsertsEncodable(texts, Keep(t, texts), |texts|, t.leading);
    SendableParts(t, texts);
  }

  lemma {:induction false} SendableParts(t: Target, texts: seq<Field>)
    ensures EditSendable(t, texts, Picks(t.headers, Looks(texts, t.leading))) <==>
            NamesOk(t.headers, Gone(t, texts), |t.headers|) && TextsWorthy(texts, Keep(t, texts), |texts|, t.leading)
  {
    PicksTell(t, texts);
  }
}
