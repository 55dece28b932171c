/** Structured edits: set, add and delete operations on the indexed header and
    recipient lists, accumulated in slot lists and compiled to one linear script
    (src/hooks.rs:878-1080). */
module StructuredEdits {
  import opened Octets
  import opened Modifications
  import opened Mta
  import opened Scripts
  import opened Slots
  import opened Changes
  import opened EnvelopeEdits

  /** The part of the session the edits refer to. Header values are as received. */
  datatype Origin = Origin(
    headers: seq<Field>, recipients: seq<Party>, maxHeaders: nat, maxRecipients: nat, leading: bool)

  // ---- Operations, with JSON payloads already parsed (None: malformed) ------

  datatype SetOp =
    | SetField(index: nat, field: Option<Field>)
    | SetValue(index: nat, value: Option<Bytes>)
    | SetFrom(address: Option<Address>)
    | SetOther

  datatype AddOp =
    | AddField(field: Option<Field>, at: Option<U32>)
    | AddParty(address: Option<Address>, at: Option<U32>)
    | AddOther

  datatype DeleteOp =
    | DeleteField(index: nat)
    | DeleteParty(index: nat)
    | DeleteOther

  // ---- What the accumulated lists denote ----------------------------------

  /** The original fields with the set values substituted, later sets over earlier ones. */
  function Current(fields: seq<Field>, changes: seq<HeaderEdit>, leading: bool): (r: seq<Field>)
    requires forall k :: 0 <= k < |changes| ==> changes[k].at < |fields|
    ensures |r| == |fields|
  {
    if changes == [] then fields
    else
      var e := changes[|changes| - 1];
      Current(fields, changes[..|changes| - 1], leading)[e.at := Field(fields[e.at].name, OnWire(ValueOf(e), leading))]
  }

  function OnWireField(f: Field, leading: bool): Field {
    Field(f.name, OnWire(f.value, leading))
  }

  function WireFields(added: seq<Option<Field>>, leading: bool): seq<Option<Field>> {
    seq(|added|, k requires 0 <= k < |added| =>
      if added[k].Some? then Some(OnWireField(added[k].value, leading)) else None)
  }

  function Parties(added: seq<Option<Address>>): seq<Option<Party>> {
    seq(|added|, k requires 0 <= k < |added| =>
      if added[k].Some? then Some(PartyOf(added[k].value, false)) else None)
  }

  lemma {:induction false} CurrentUntouched(fields: seq<Field>, changes: seq<HeaderEdit>, leading: bool, t: nat)
    requires forall k :: 0 <= k < |changes| ==> changes[k].at < |fields|
    requires t < |fields| && Fresh(t, changes)
    ensures Current(fields, changes, leading)[t] == fields[t]
  {
    if changes != [] {
      CurrentUntouched(fields, changes[..|changes| - 1], leading, t);
      assert changes[|changes| - 1].at != t;
    }
  }

  lemma {:induction false} CurrentAt(fields: seq<Field>, changes: seq<HeaderEdit>, leading: bool, k: nat)
    requires forall k :: 0 <= k < |changes| ==> changes[k].at < |fields|
    requires k < |changes| && Distinct(changes)
    ensures Current(fields, changes, leading)[changes[k].at] ==
            Field(fields[changes[k].at].name, OnWire(ValueOf(changes[k]), leading))
  {
    var last := |changes| - 1;
    if k < last {
      CurrentAt(fields, changes[..last], leading, k);
      assert changes[last].at != changes[k].at;
    }
  }

  // ---- Header script ------------------------------------------------------

  function Deletions(deletes: seq<nat>): seq<HeaderEdit> {
    seq(|deletes|, k requires 0 <= k < |deletes| => HeaderEdit(deletes[k], None))
  }

  function AllEdits(changes: seq<HeaderEdit>, deletes: seq<nat>): seq<HeaderEdit> {
    changes + Deletions(deletes)
  }

  predicate InRange(edits: seq<HeaderEdit>, n: nat) {
    forall k :: 0 <= k < |edits| ==> edits[k].at < n
  }

  /** A set to the empty string: the MTA takes it as a delete. */
  function Emptied(changes: seq<HeaderEdit>): set<nat> {
    set k | 0 <= k < |changes| && ValueOf(changes[k]) == [] :: changes[k].at
  }

  predicate NoEmptySet(changes: seq<HeaderEdit>) {
    forall k :: 0 <= k < |changes| ==> ValueOf(changes[k]) != []
  }

  lemma {:induction false} EditsExplain(fields: seq<Field>, changes: seq<HeaderEdit>, deletes: seq<nat>, leading: bool)
    requires InRange(changes, |fields|) && InRange(Deletions(deletes), |fields|)
    requires Distinct(AllEdits(changes, deletes))
    ensures Explains(AllEdits(changes, deletes), fields, Current(fields, changes, leading),
                     Elements(deletes) + Emptied(changes), leading)
  {
    var edits := AllEdits(changes, deletes);
    var current := Current(fields, changes, leading);
    var gone := Elements(deletes) + Emptied(changes);
    DistinctParts(changes, deletes);
    forall k | 0 <= k < |edits|
      ensures Effect(edits[k], fields, current, gone, leading)
    {
      if k < |changes| {
        CurrentAt(fields, changes, leading, k);
        assert edits[k] == changes[k];
      } else {
        assert edits[k] == HeaderEdit(deletes[k - |changes|], None);
      }
    }
    forall t | 0 <= t < |fields| && Fresh(t, edits)
      ensures t !in gone && current[t] == fields[t]
    {
      FreshParts(t, changes, deletes);
      CurrentUntouched(fields, changes, leading, t);
    }
  }

  lemma {:induction false} FreshParts(t: nat, changes: seq<HeaderEdit>, deletes: seq<nat>)
    requires Fresh(t, AllEdits(changes, deletes))
    ensures Fresh(t, changes) && t !in Elements(deletes)
  {
    var edits := AllEdits(changes, deletes);
    forall k | 0 <= k < |changes|
      ensures changes[k].at != t
    {
      assert edits[k] == changes[k];
    }
    forall k | 0 <= k < |deletes|
      ensures deletes[k] != t
    {
      assert edits[|changes| + k].at == deletes[k];
    }
  }

  lemma {:induction false} DistinctParts(changes: seq<HeaderEdit>, deletes: seq<nat>)
    requires Distinct(AllEdits(changes, deletes))
    ensures Distinct(changes)
    ensures forall k :: 0 <= k < |changes| ==> changes[k].at !in Elements(deletes)
    ensures forall k :: 0 <= k < |changes| && ValueOf(changes[k]) != [] ==> changes[k].at !in Emptied(changes)
  {
    var edits := AllEdits(changes, deletes);
    forall i, k | 0 <= i < k < |changes|
      ensures changes[i].at != changes[k].at
    {
      assert edits[i] == changes[i] && edits[k] == changes[k];
    }
    forall i, k | 0 <= i < |changes| && 0 <= k < |deletes|
      ensures changes[i].at != deletes[k]
    {
      assert edits[i] == changes[i] && edits[|changes| + k].at == deletes[k];
    }
  }

  /** What is emitted for the added slot at position `p`. */
  function InsertionAt(slots: seq<Slot>, added: seq<Option<Field>>, n: nat, p: nat): Modification
    requires AllRefer(slots, n, added) && p < |slots| < 0x1_0000_0000 && slots[p].Added?
  {
    assert Refers(slots[p], n, added);
    var f := added[slots[p].index].value;
    if p == |slots| - 1 then AddHeader(f.name, f.value) else InsertHeader(p, f.name, f.value)
  }

  function InsertScript(slots: seq<Slot>, added: seq<Option<Field>>, n: nat, p: nat): seq<Modification>
    requires AllRefer(slots, n, added) && p <= |slots| < 0x1_0000_0000
  {
    if p == 0 then []
    else if slots[p - 1].Added? then InsertScript(slots, added, n, p - 1) + [InsertionAt(slots, added, n, p - 1)]
    else InsertScript(slots, added, n, p - 1)
  }

  /** Insertions stand at their final positions, an append only in the last one. */
  lemma {:induction false} InsertScriptPlaces(
    slots: seq<Slot>, added: seq<Option<Field>>, n: nat, final: seq<Field>, leading: bool, p: nat)
    requires AllRefer(slots, n, added) && p <= |slots| < 0x1_0000_0000 && |final| == |slots|
    requires forall k :: 0 <= k < |slots| && slots[k].Added? ==>
      final[k] == OnWireField(added[slots[k].index].value, leading)
    ensures Inserting(InsertScript(slots, added, n, p), final, IsOriginal(slots), p, leading)
  {
    if p > 0 {
      InsertScriptPlaces(slots, added, n, final, leading, p - 1);
      if slots[p - 1].Added? {
        InsertingSnoc(InsertScript(slots, added, n, p - 1), InsertionAt(slots, added, n, p - 1), final, IsOriginal(slots), p - 1, leading);
      }
    }
  }

  /** The insertion loop takes each added entry out of its place exactly once. */
  method EmitInserts(slots: seq<Slot>, added: seq<Option<Field>>, n: nat) returns (mods: seq<Modification>)
    requires AllRefer(slots, n, added) && |slots| < 0x1_0000_0000
    requires forall k :: 0 <= k < |slots| && slots[k].Added? ==> multiset(slots)[slots[k]] <= 1
    ensures mods == InsertScript(slots, added, n, |slots|)
  {
    mods := [];
    var left := added;
    for p := 0 to |slots|
      invariant |left| == |added|
      invariant forall k :: p <= k < |slots| && slots[k].Added? ==> left[slots[k].index] == added[slots[k].index]
      invariant mods == InsertScript(slots, added, n, p)
    {
      if slots[p].Added? {
        var i := slots[p].index;
        assert left[i].Some?;
        var header := left[i].value;
        left := left[i := None];
        forall k | p < k < |slots| && slots[k].Added?
          ensures slots[k].index != i
        {
          SlotsDiffer(slots, k, p);
        }
        mods := mods + [if p == |slots| - 1 then AddHeader(header.name, header.value)
                        else InsertHeader(p, header.name, header.value)];
      }
    }
  }

  /** The working list after all operations. */
  function FinalHeaders(o: Origin, changes: seq<HeaderEdit>, added: seq<Option<Field>>, slots: seq<Slot>): seq<Field>
    requires InRange(changes, |o.headers|) && AllRefer(slots, |o.headers|, added)
  {
    assert AllRefer(slots, |o.headers|, WireFields(added, o.leading)) by {
      forall k | 0 <= k < |slots|
        ensures Refers(slots[k], |o.headers|, WireFields(added, o.leading))
      {
        assert Refers(slots[k], |o.headers|, added);
      }
    }
    Working(slots, Current(o.headers, changes, o.leading), WireFields(added, o.leading))
  }

  lemma {:induction false} ConsistentWireFields(
    n: nat, slots: seq<Slot>, deletes: seq<nat>, added: seq<Option<Field>>, leading: bool)
    requires Consistent(n, slots, deletes, added)
    ensures Consistent(n, slots, deletes, WireFields(added, leading))
  {
    forall k | 0 <= k < |slots|
      ensures Refers(slots[k], n, WireFields(added, leading))
    {
      assert Refers(slots[k], n, added);
    }
  }

  function HeaderScript(o: Origin, changes: seq<HeaderEdit>, deletes: seq<nat>): seq<Modification>
    requires InRange(AllEdits(changes, deletes), |o.headers|) && |o.headers| < 0x1_0000_0000
  {
    SortedInRange(AllEdits(changes, deletes), |o.headers|);
    ChangeScript(SortDescending(AllEdits(changes, deletes)), o.headers)
  }

  lemma {:induction false} SortedInRange(edits: seq<HeaderEdit>, n: nat)
    requires InRange(edits, n)
    ensures InRange(SortDescending(edits), n)
  {
    var sorted := SortDescending(edits);
    forall k | 0 <= k < |sorted|
      ensures sorted[k].at < n
    {
      assert sorted[k] in multiset(edits);
    }
  }

  /** First half: changes and deletes leave the surviving originals, less those set to nothing. */
  lemma {:induction false} ChangesLeave(o: Origin, changes: seq<HeaderEdit>, deletes: seq<nat>, msg: Message)
    requires |o.headers| < 0x1_0000_0000 && msg.headers == o.headers
    requires InRange(changes, |o.headers|) && InRange(AllEdits(changes, deletes), |o.headers|)
    requires Distinct(AllEdits(changes, deletes))
    ensures RunsTo(msg, HeaderScript(o, changes, deletes),
                   KeptFrom(Current(o.headers, changes, o.leading), Elements(deletes) + Emptied(changes), 0), o.leading)
  {
    var edits := AllEdits(changes, deletes);
    var current := Current(o.headers, changes, o.leading);
    var gone := Elements(deletes) + Emptied(changes);
    forall k | 0 <= k < |deletes|
      ensures Deletions(deletes)[k].at < |o.headers|
    {
      assert edits[|changes| + k] == Deletions(deletes)[k];
    }
    EditsExplain(o.headers, changes, deletes, o.leading);
    ExplainsPermutes(edits, SortDescending(edits), o.headers, current, gone, o.leading);
    SortConflicts(edits);
    SortedInRange(edits, |o.headers|);
    AllChangesRun(msg, SortDescending(edits), o.headers, current, gone, o.leading);
  }

  /** Everything the header half of a compiled edit list needs to be right. */
  ghost predicate Compiled(
    o: Origin, changes: seq<HeaderEdit>, deletes: seq<nat>, added: seq<Option<Field>>, slots: seq<Slot>,
    inserts: seq<Modification>)
  {
    && |o.headers| < 0x1_0000_0000
    && InRange(changes, |o.headers|) && InRange(AllEdits(changes, deletes), |o.headers|)
    && Distinct(AllEdits(changes, deletes))
    && Consistent(|o.headers|, slots, deletes, added)
    && Inserting(inserts, FinalHeaders(o, changes, added, slots), IsOriginal(slots), |slots|, o.leading)
  }

  /** Compiler correctness, header half: the script turns the originals into the working list. */
  lemma {:induction false} HeadersCompile(
    o: Origin, changes: seq<HeaderEdit>, deletes: seq<nat>, added: seq<Option<Field>>, slots: seq<Slot>,
    inserts: seq<Modification>, msg: Message)
    requires Compiled(o, changes, deletes, added, slots, inserts) && NoEmptySet(changes)
    requires msg.headers == o.headers
    ensures RunsTo(msg, HeaderScript(o, changes, deletes) + inserts, FinalHeaders(o, changes, added, slots), o.leading)
  {
    var current := Current(o.headers, changes, o.leading);
    var final, keep := FinalHeaders(o, changes, added, slots), IsOriginal(slots);
    ChangesLeave(o, changes, deletes, msg);
    assert Elements(deletes) + Emptied(changes) == Elements(deletes);
    ConsistentWireFields(|o.headers|, slots, deletes, added, o.leading);
    SurvivorsAreMarked(slots, deletes, current, WireFields(added, o.leading));
    var middle := msg.(headers := Marked(final, keep, 0));
    InsertingRuns(middle, inserts, final, keep, |final|, o.leading);
    BuiltEnds(final, keep);
    RunAppend(msg, HeaderScript(o, changes, deletes), inserts, o.leading);
  }

  /** If the script runs at all, it leaves fewer headers than wanted. */
  predicate Shorter(msg: Message, mods: seq<Modification>, leading: bool, wanted: seq<Field>) {
    var r := Run(msg, mods, leading);
    r.Some? ==> |r.value.headers| < |wanted|
  }

  /** The empty set value is the only obstacle: with one, the MTA's list ends up too short. */
  lemma {:induction false} EmptySetFails(
    o: Origin, changes: seq<HeaderEdit>, deletes: seq<nat>, added: seq<Option<Field>>, slots: seq<Slot>,
    inserts: seq<Modification>, msg: Message)
    requires Compiled(o, changes, deletes, added, slots, inserts) && !NoEmptySet(changes)
    requires msg.headers == o.headers
    ensures var r := Run(msg, HeaderScript(o, changes, deletes) + inserts, o.leading);
            r.Some? ==> |r.value.headers| < |FinalHeaders(o, changes, added, slots)|
  {
    var current := Current(o.headers, changes, o.leading);
    var final, keep := FinalHeaders(o, changes, added, slots), IsOriginal(slots);
    ChangesLeave(o, changes, deletes, msg);
    ConsistentWireFields(|o.headers|, slots, deletes, added, o.leading);
    SurvivorsAreMarked(slots, deletes, current, WireFields(added, o.leading));
    var gone := Elements(deletes) + Emptied(changes);
    var k :| 0 <= k < |changes| && ValueOf(changes[k]) == [];
    DistinctParts(changes, deletes);
    assert changes[k].at in gone && changes[k].at !in Elements(deletes);
    KeptLess(current, Elements(deletes), gone, 0);
    var middle := msg.(headers := KeptFrom(current, gone, 0));
    InsertingGrows(middle, inserts, final, keep, |final|, o.leading);
    InsertingCount(inserts, final, keep, |final|, o.leading);
    RunAppend(msg, HeaderScript(o, changes, deletes), inserts, o.leading);
  }

  /** The smallest case: the only header, `A: x`, set to nothing. The MTA deletes it, the
      working list still shows it. */
  lemma {:induction false} EmptySetExample(o: Origin, msg: Message)
    requires o.headers == msg.headers == [Field([65], [120])]
    ensures var changes := [HeaderEdit(0, Some([]))];
            && InRange(AllEdits(changes, []), 1)
            && Run(msg, HeaderScript(o, changes, []), o.leading) == Some(msg.(headers := []))
            && FinalHeaders(o, changes, [], Untouched(1)) == [Field([65], [])]
  {
    var changes := [HeaderEdit(0, Some([]))];
    assert AllEdits(changes, []) == changes;
    ChangesLeave(o, changes, [], msg);
    var current := Current(o.headers, changes, o.leading);
    assert 0 in Elements([]) + Emptied(changes) by {
      assert ValueOf(changes[0]) == [];
    }
    assert KeptFrom(current, Elements([]) + Emptied(changes), 0) == [];
    assert changes[..0] == [];
  }

  // ---- Recipients ---------------------------------------------------------

  lemma {:induction false} PartiesRefer(n: nat, slots: seq<Slot>, added: seq<Option<Address>>)
    requires AllRefer(slots, n, added)
    ensures AllRefer(slots, n, Parties(added))
  {
    forall k | 0 <= k < |slots|
      ensures Refers(slots[k], n, Parties(added))
    {
      assert Refers(slots[k], n, added);
    }
  }

  function FinalRecipients(o: Origin, added: seq<Option<Address>>, slots: seq<Slot>): seq<Party>
    requires AllRefer(slots, |o.recipients|, added)
  {
    PartiesRefer(|o.recipients|, slots, added);
    Working(slots, o.recipients, Parties(added))
  }

  function DeletedAddresses(o: Origin, deletes: seq<nat>): seq<Bytes>
    requires forall k :: 0 <= k < |deletes| ==> deletes[k] < |o.recipients|
  {
    seq(|deletes|, k requires 0 <= k < |deletes| => o.recipients[deletes[k]].address)
  }

  method EmitRecipientDeletes(o: Origin, deletes: seq<nat>, isText: Bytes -> bool) returns (r: Result<seq<Modification>>)
    requires forall k :: 0 <= k < |deletes| ==> deletes[k] < |o.recipients|
    ensures r.Ok? <==> forall k :: 0 <= k < |deletes| ==> isText(o.recipients[deletes[k]].address)
    ensures r.Ok? ==> r.value == DeleteScript(DeletedAddresses(o, deletes))
  {
    var mods: seq<Modification> := [];
    for j := 0 to |deletes|
      invariant mods == DeleteScript(DeletedAddresses(o, deletes))[..j]
      invariant forall k :: 0 <= k < j ==> isText(o.recipients[deletes[k]].address)
    {
      var recipient := o.recipients[deletes[j]];
      if !isText(recipient.address) {
        return Err(Invalid);
      }
      SliceSnoc(DeleteScript(DeletedAddresses(o, deletes)), j);
      mods := mods + [DeleteRecipient(recipient.address)];
    }
    r := Ok(mods);
  }

  lemma {:induction false} LiveSnoc(added: seq<Option<Address>>, j: nat)
    requires j < |added|
    ensures LiveOf(added[..j + 1]) == LiveOf(added[..j]) + if added[j].Some? then [added[j].value] else []
  {
    assert added[..j + 1][..j] == added[..j];
  }

  lemma {:induction false} LivePrefixFails(added: seq<Option<Address>>, j: nat)
    requires j < |added| && added[j].Some? && Milter(added[j].value, false).Err?
    ensures !AllConvert(LiveOf(added))
    decreases |added|
  {
    var last := |added| - 1;
    var live := LiveOf(added[..last]);
    if j < last {
      LivePrefixFails(added[..last], j);
      var k :| 0 <= k < |live| && Milter(live[k], false).Err?;
      assert LiveOf(added)[k] == live[k];
    } else {
      assert LiveOf(added)[|live|] == added[last].value;
    }
  }

  method EmitRecipientAdds(added: seq<Option<Address>>) returns (r: Result<seq<Modification>>)
    ensures r.Ok? <==> AllConvert(LiveOf(added))
    ensures r.Ok? ==> r.value == AddScript(LiveOf(added))
  {
    var mods: seq<Modification> := [];
    for j := 0 to |added|
      invariant AllConvert(LiveOf(added[..j])) && mods == AddScript(LiveOf(added[..j]))
    {
      LiveSnoc(added, j);
      if added[j].Some? {
        var party := Milter(added[j].value, false);
        if party.Err? {
          LivePrefixFails(added, j);
          return Err(party.error);
        }
        mods := mods + [AddRecipient(party.value.0, party.value.1)];
      }
    }
    assert added[..|added|] == added;
    r := Ok(mods);
  }

  // ---- The accumulator ----------------------------------------------------

  /** The list with every slot of one original position replaced. */
  function Substituted(list: seq<Field>, slots: seq<Slot>, index: nat, field: Field): seq<Field>
    requires |list| == |slots|
  {
    seq(|list|, k requires 0 <= k < |list| => if slots[k] == Original(index) then field else list[k])
  }

  lemma {:induction false} SetSubstitutes(
    o: Origin, changes: seq<HeaderEdit>, added: seq<Option<Field>>, slots: seq<Slot>, e: HeaderEdit)
    requires InRange(changes, |o.headers|) && e.at < |o.headers| && AllRefer(slots, |o.headers|, added)
    ensures InRange(changes + [e], |o.headers|)
    ensures FinalHeaders(o, changes + [e], added, slots) ==
            Substituted(FinalHeaders(o, changes, added, slots), slots, e.at,
                        Field(o.headers[e.at].name, OnWire(ValueOf(e), o.leading)))
  {
    assert (changes + [e])[..|changes|] == changes;
  }

  /** The original a removed entry stood for, if any. */
  function Origins<T>(m: Mark<T>): seq<nat> {
    if m.Kept? then [m.index] else []
  }

  function InsertPoint(at: Option<U32>, length: nat): Result<nat> {
    if at.None? then Ok(length) else if at.value <= length then Ok(at.value) else Err(Invalid)
  }

  class Edits {
    const origin: Origin
    var headerChanges: seq<HeaderEdit>
    var headerDeletes: seq<nat>
    var addedHeaders: seq<Option<Field>>
    var headers: seq<Slot>
    var from: Option<Address>
    var recipientDeletes: seq<nat>
    var addedRecipients: seq<Option<Address>>
    var recipients: seq<Slot>

    ghost predicate Valid()
      reads this
    {
      && InRange(headerChanges, |origin.headers|)
      && Consistent(|origin.headers|, headers, headerDeletes, addedHeaders)
      && Consistent(|origin.recipients|, recipients, recipientDeletes, addedRecipients)
      && |headers| <= origin.maxHeaders && |recipients| <= origin.maxRecipients
      && |origin.headers| <= origin.maxHeaders
    }

    /** The header list as the operations so far describe it. */
    ghost function Headers(): seq<Field>
      reads this
      requires Valid()
    {
      FinalHeaders(origin, headerChanges, addedHeaders, headers)
    }

    ghost function Recipients(): seq<Party>
      reads this
      requires Valid()
    {
      FinalRecipients(origin, addedRecipients, recipients)
    }

    /** Where the entries of the working header list come from. */
    ghost function Marks(): seq<Mark<Field>>
      reads this
      requires Valid()
    {
      Marking(headers, |origin.headers|, addedHeaders)
    }

    ghost function RecipientMarks(): seq<Mark<Address>>
      reads this
      requires Valid()
    {
      Marking(recipients, |origin.recipients|, addedRecipients)
    }

    constructor (o: Origin)
      requires |o.headers| <= o.maxHeaders && |o.recipients| <= o.maxRecipients
      ensures Valid() && origin == o
      ensures headers == Untouched(|o.headers|) && headerChanges == []
      ensures Headers() == o.headers && Recipients() == o.recipients && from == None
      ensures Marks() == Keeps(|o.headers|) && RecipientMarks() == Keeps(|o.recipients|)
      ensures headerDeletes == [] && recipientDeletes == [] && IsEmpty()
    {
      origin := o;
      headerChanges, headerDeletes, addedHeaders := [], [], [];
      recipientDeletes, addedRecipients, from := [], [], None;
      headers := Untouched(|o.headers|);
      recipients := Untouched(|o.recipients|);
      new;
      ConsistentInitially<Field>(|o.headers|);
      ConsistentInitially<Address>(|o.recipients|);
      MarkingInitially<Field>(|o.headers|);
      MarkingInitially<Address>(|o.recipients|);
    }

    /** No operation has been recorded. */
    predicate IsEmpty()
      reads this
    {
      && headerChanges == [] && headerDeletes == [] && addedHeaders == []
      && from == None && recipientDeletes == [] && addedRecipients == []
    }

    /** Set a header value or the sender. Header indexes name original positions. */
    method Set(op: SetOp, isText: Bytes -> bool) returns (r: Result<()>)
      requires Valid()
      modifies this
      ensures r.Ok? <==>
        match op
        case SetField(i, field) =>
          && i < |origin.headers| && field.Some?
          && isText(origin.headers[i].name) && SameName(field.value.name, origin.headers[i].name)
        case SetValue(i, value) => i < |origin.headers| && value.Some?
        case SetFrom(address) => address.Some?
        case SetOther => false
      ensures r.Ok? ==> Valid() && Recipients() == old(Recipients()) && headers == old(headers) && !IsEmpty()
      ensures r.Ok? ==> Marks() == old(Marks()) && RecipientMarks() == old(RecipientMarks())
      ensures r.Ok? ==> headerDeletes == old(headerDeletes) && recipientDeletes == old(recipientDeletes)
      ensures r.Ok? && op.SetFrom? ==> Headers() == old(Headers()) && from == op.address && headerChanges == old(headerChanges)
      ensures r.Ok? && !op.SetFrom? ==>
        && from == old(from)
        && headerChanges == old(headerChanges)
             + [HeaderEdit(op.index, Some(if op.SetField? then op.field.value.value else op.value.value))]
        && Headers() == Substituted(old(Headers()), headers, op.index,
             Field(origin.headers[op.index].name,
                   OnWire(if op.SetField? then op.field.value.value else op.value.value, origin.leading)))
    {
      match op
      case SetField(index, field) =>
        if index >= |origin.headers| || field.None? {
          return Err(Invalid);
        }
        var name := origin.headers[index].name;
        if !isText(name) || !SameName(field.value.name, name) {
          return Err(Invalid);
        }
        SetSubstitutes(origin, headerChanges, addedHeaders, headers, HeaderEdit(index, Some(field.value.value)));
        headerChanges := headerChanges + [HeaderEdit(index, Some(field.value.value))];
        r := Ok(());
      case SetValue(index, value) =>
        if index >= |origin.headers| || value.None? {
          return Err(Invalid);
        }
        SetSubstitutes(origin, headerChanges, addedHeaders, headers, HeaderEdit(index, Some(value.value)));
        headerChanges := headerChanges + [HeaderEdit(index, Some(value.value))];
        r := Ok(());
      case SetFrom(address) =>
        if address.None? {
          return Err(Invalid);
        }
        from := address;
        r := Ok(());
      case SetOther =>
        r := Err(Invalid);
    }

    /** Add a header or a recipient, at a position of the working list or at its end. */
    method Add(op: AddOp) returns (r: Result<()>)
      requires Valid()
      modifies this
      ensures r.Ok? <==>
        match op
        case AddField(field, at) =>
          old(|headers|) < origin.maxHeaders && field.Some? && (at.Some? ==> at.value <= old(|Headers()|))
        case AddParty(address, at) =>
          old(|recipients|) < origin.maxRecipients && address.Some? && (at.Some? ==> at.value <= old(|Recipients()|))
        case AddOther => false
      ensures r.Ok? ==> Valid() && from == old(from) && headerChanges == old(headerChanges) && !IsEmpty()
      ensures r.Ok? ==> headerDeletes == old(headerDeletes) && recipientDeletes == old(recipientDeletes)
      ensures r.Ok? && op.AddField? ==> Recipients() == old(Recipients()) && RecipientMarks() == old(RecipientMarks())
      ensures r.Ok? && op.AddField? && op.at.None? ==>
        && Headers() == old(Headers()) + [OnWireField(op.field.value, origin.leading)]
        && Marks() == old(Marks()) + [New(op.field.value)]
      ensures r.Ok? && op.AddField? && op.at.Some? ==>
        && Headers() == old(Headers())[..op.at.value] + [OnWireField(op.field.value, origin.leading)] + old(Headers())[op.at.value..]
        && Marks() == old(Marks())[..op.at.value] + [New(op.field.value)] + old(Marks())[op.at.value..]
      ensures r.Ok? && op.AddParty? ==> Headers() == old(Headers()) && Marks() == old(Marks())
      ensures r.Ok? && op.AddParty? && op.at.None? ==>
        && Recipients() == old(Recipients()) + [PartyOf(op.address.value, false)]
        && RecipientMarks() == old(RecipientMarks()) + [New(op.address.value)]
      ensures r.Ok? && op.AddParty? && op.at.Some? ==>
        && Recipients() == old(Recipients())[..op.at.value] + [PartyOf(op.address.value, false)] + old(Recipients())[op.at.value..]
        && RecipientMarks() == old(RecipientMarks())[..op.at.value] + [New(op.address.value)] + old(RecipientMarks())[op.at.value..]
    {
      match op
      case AddField(field, at) =>
        if |headers| >= origin.maxHeaders {
          return Err(Limit);
        }
        if field.None? {
          return Err(Invalid);
        }
        r := AddHeaderSlot(field.value, at);
      case AddParty(address, at) =>
        if |recipients| >= origin.maxRecipients {
          return Err(Limit);
        }
        if address.None? {
          return Err(Invalid);
        }
        r := AddRecipientSlot(address.value, at);
      case AddOther =>
        r := Err(Invalid);
    }

    /** Record an added header and place its slot; a position past the end is an error. */
    method AddHeaderSlot(field: Field, at: Option<U32>) returns (r: Result<()>)
      requires Valid() && |headers| < origin.maxHeaders
      modifies this`addedHeaders, this`headers
      ensures r.Ok? <==> InsertPoint(at, old(|headers|)).Ok?
      ensures r.Ok? ==> Valid()
      ensures r.Ok? ==>
        Headers() == InsertAt(old(Headers()), InsertPoint(at, old(|headers|)).value, OnWireField(field, origin.leading))
      ensures r.Ok? ==> Marks() == InsertAt(old(Marks()), InsertPoint(at, old(|headers|)).value, New(field)) && !IsEmpty()
    {
      var slot := Added(|addedHeaders|);
      var point := InsertPoint(at, |headers|);
      if point.Err? {
        addedHeaders := addedHeaders + [Some(field)];
        return Err(Invalid);
      }
      AddWorks(origin, headerChanges, headerDeletes, addedHeaders, headers, point.value, field);
      MarkingInsert(headers, |origin.headers|, addedHeaders, point.value, field);
      addedHeaders := addedHeaders + [Some(field)];
      headers := InsertAt(headers, point.value, slot);
      r := Ok(());
    }

    method AddRecipientSlot(address: Address, at: Option<U32>) returns (r: Result<()>)
      requires Valid() && |recipients| < origin.maxRecipients
      modifies this`addedRecipients, this`recipients
      ensures r.Ok? <==> InsertPoint(at, old(|recipients|)).Ok?
      ensures r.Ok? ==> Valid()
      ensures r.Ok? ==>
        Recipients() == InsertAt(old(Recipients()), InsertPoint(at, old(|recipients|)).value, PartyOf(address, false))
      ensures r.Ok? ==>
        RecipientMarks() == InsertAt(old(RecipientMarks()), InsertPoint(at, old(|recipients|)).value, New(address)) && !IsEmpty()
    {
      var slot := Added(|addedRecipients|);
      var point := InsertPoint(at, |recipients|);
      if point.Err? {
        addedRecipients := addedRecipients + [Some(address)];
        return Err(Invalid);
      }
      AddPartyWorks(origin, recipientDeletes, addedRecipients, recipients, point.value, address);
      MarkingInsert(recipients, |origin.recipients|, addedRecipients, point.value, address);
      addedRecipients := addedRecipients + [Some(address)];
      recipients := InsertAt(recipients, point.value, slot);
      r := Ok(());
    }

    /** Delete one entry of a working list. */
    method Delete(op: DeleteOp) returns (r: Result<()>)
      requires Valid()
      modifies this
      ensures r.Ok? <==>
        match op
        case DeleteField(i) => i < old(|headers|)
        case DeleteParty(i) => i < old(|recipients|)
        case DeleteOther => false
      ensures r.Ok? ==> Valid() && from == old(from) && headerChanges == old(headerChanges) && !IsEmpty()
      ensures r.Ok? && op.DeleteField? ==>
        && Marks() == RemoveAt(old(Marks()), op.index) && RecipientMarks() == old(RecipientMarks())
        && headerDeletes == old(headerDeletes) + Origins(old(Marks())[op.index]) && recipientDeletes == old(recipientDeletes)
      ensures r.Ok? && op.DeleteParty? ==>
        && RecipientMarks() == RemoveAt(old(RecipientMarks()), op.index) && Marks() == old(Marks())
        && recipientDeletes == old(recipientDeletes) + Origins(old(RecipientMarks())[op.index]) && headerDeletes == old(headerDeletes)
      ensures r.Ok? && op.DeleteField? ==>
        Recipients() == old(Recipients()) && Headers() == RemoveAt(old(Headers()), op.index)
      ensures r.Ok? && op.DeleteParty? ==>
        Headers() == old(Headers()) && Recipients() == RemoveAt(old(Recipients()), op.index)
    {
      match op
      case DeleteField(index) =>
        if index >= |headers| {
          return Err(Invalid);
        }
        DeleteHeaderSlot(index);
        r := Ok(());
      case DeleteParty(index) =>
        if index >= |recipients| {
          return Err(Invalid);
        }
        DeleteRecipientSlot(index);
        r := Ok(());
      case DeleteOther =>
        r := Err(Invalid);
    }

    method DeleteHeaderSlot(index: nat)
      requires Valid() && index < |headers|
      modifies this`headers, this`headerDeletes, this`addedHeaders
      ensures Valid() && Headers() == RemoveAt(old(Headers()), index) && !IsEmpty()
      ensures Marks() == RemoveAt(old(Marks()), index)
      ensures headerDeletes == old(headerDeletes) + Origins(old(Marks())[index])
    {
      match headers[index] {
        case Original(i) =>
          DeleteOriginalWorks(origin, headerChanges, headerDeletes, addedHeaders, headers, index);
          headerDeletes := headerDeletes + [i];
        case Added(i) =>
          DeleteAddedWorks(origin, headerChanges, headerDeletes, addedHeaders, headers, index);
          addedHeaders := addedHeaders[i := None];
      }
      headers := RemoveAt(headers, index);
    }

    method DeleteRecipientSlot(index: nat)
      requires Valid() && index < |recipients|
      modifies this`recipients, this`recipientDeletes, this`addedRecipients
      ensures Valid() && Recipients() == RemoveAt(old(Recipients()), index) && !IsEmpty()
      ensures RecipientMarks() == RemoveAt(old(RecipientMarks()), index)
      ensures recipientDeletes == old(recipientDeletes) + Origins(old(RecipientMarks())[index])
    {
      match recipients[index] {
        case Original(i) =>
          DeleteOriginalPartyWorks(origin, recipientDeletes, addedRecipients, recipients, index);
          recipientDeletes := recipientDeletes + [i];
        case Added(i) =>
          DeleteAddedPartyWorks(origin, recipientDeletes, addedRecipients, recipients, index);
          addedRecipients := addedRecipients[i := None];
      }
      recipients := RemoveAt(recipients, index);
    }

    /** One operation per original header, and edited names are text. */
    ghost predicate HeadersCompilable(isText: Bytes -> bool)
      reads this
    {
      var edits := AllEdits(headerChanges, headerDeletes);
      Distinct(edits) && AllText(edits, origin.headers, isText)
    }

    /** Addresses convert, and deleted ones are text. */
    ghost predicate EnvelopeCompilable(isText: Bytes -> bool)
      reads this
      requires Valid()
    {
      && (from.Some? ==> Milter(from.value, true).Ok?)
      && (forall k :: 0 <= k < |recipientDeletes| ==> isText(origin.recipients[recipientDeletes[k]].address))
      && AllConvert(LiveOf(addedRecipients))
    }

    /** The message the operations describe: the working header list, the new sender, and
        the undeleted recipients followed by the added ones. */
    ghost function Described(m: Message): Message
      reads this
      requires Valid()
    {
      Readdressed(m.(headers := Headers()), from, DeletedAddresses(origin, recipientDeletes), LiveOf(addedRecipients))
    }

    /** Everything that is emitted, in order. */
    ghost function WholeScript(): seq<Modification>
      reads this
      requires Valid() && origin.maxHeaders < 0x1_0000_0000
      requires (from.Some? ==> Milter(from.value, true).Ok?) && AllConvert(LiveOf(addedRecipients))
    {
      EditsInRange(headerChanges, headerDeletes, |origin.headers|);
      HeaderScript(origin, headerChanges, headerDeletes)
        + InsertScript(headers, addedHeaders, |origin.headers|, |headers|)
        + EnvelopeScript(from, DeletedAddresses(origin, recipientDeletes), LiveOf(addedRecipients))
    }

    /** Header half: changes and deletes from the back, then inserts by final position. */
    method CompileHeaders(isText: Bytes -> bool) returns (r: Result<seq<Modification>>, ghost inserts: seq<Modification>)
      requires Valid() && origin.maxHeaders < 0x1_0000_0000
      ensures r.Ok? <==> HeadersCompilable(isText)
      ensures r.Ok? ==> Compiled(origin, headerChanges, headerDeletes, addedHeaders, headers, inserts)
      ensures r.Ok? ==> r.value == HeaderScript(origin, headerChanges, headerDeletes) + inserts
      ensures r.Ok? ==> inserts == InsertScript(headers, addedHeaders, |origin.headers|, |headers|)
    {
      EditsInRange(headerChanges, headerDeletes, |origin.headers|);
      var edits := SortDescending(AllEdits(headerChanges, headerDeletes));
      SortedInRange(AllEdits(headerChanges, headerDeletes), |origin.headers|);
      SortKeeps(AllEdits(headerChanges, headerDeletes), origin.headers, isText);
      OriginalsFit(|origin.headers|, headers, headerDeletes, addedHeaders, headerChanges, origin);
      var changes := EmitChanges(edits, origin.headers, isText);
      if changes.Err? {
        return changes, [];
      }
      var added := EmitInserts(headers, addedHeaders, |origin.headers|);
      InsertScriptPlaces(headers, addedHeaders, |origin.headers|, Headers(), origin.leading, |headers|);
      inserts := added;
      r := Ok(changes.value + added);
    }

    /** Envelope half: sender, deleted recipients, added recipients. */
    method CompileEnvelope(isText: Bytes -> bool) returns (r: Result<seq<Modification>>)
      requires Valid()
      ensures r.Ok? <==> EnvelopeCompilable(isText)
      ensures r.Ok? ==> r.value == EnvelopeScript(from, DeletedAddresses(origin, recipientDeletes), LiveOf(addedRecipients))
    {
      var sender: seq<Modification> := [];
      if from.Some? {
        var party :- Milter(from.value, true);
        sender := [ChangeFrom(party.0, party.1)];
      }
      var deleted :- EmitRecipientDeletes(origin, recipientDeletes, isText);
      var added :- EmitRecipientAdds(addedRecipients);
      r := Ok(sender + deleted + added);
    }

    /** Compile the accumulated operations. The script is accepted exactly when nothing
        conflicts, and the MTA ends up with the described message exactly when no header
        was set to the empty string. */
    method Modifications(isText: Bytes -> bool, ghost msg: Message) returns (r: Result<seq<Modification>>)
      requires Valid() && origin.maxHeaders < 0x1_0000_0000
      requires msg.headers == origin.headers
      ensures r.Ok? <==> HeadersCompilable(isText) && EnvelopeCompilable(isText)
      ensures r.Ok? ==> (Run(msg, r.value, origin.leading) == Some(Described(msg)) <==> NoEmptySet(headerChanges))
      ensures r.Ok? && !NoEmptySet(headerChanges) ==> Shorter(msg, r.value, origin.leading, Headers())
      ensures r.Ok? ==> r.value == WholeScript()
      ensures r.Ok? && IsEmpty() ==> r.value == []
    {
      ghost var inserts;
      r, inserts := CompileHeaders(isText);
      if r.Ok? {
        var envelope := CompileEnvelope(isText);
        if envelope.Err? {
          return envelope;
        }
        if IsEmpty() {
          NoAdditions(headers, addedHeaders, |origin.headers|, inserts, Headers(), origin.leading);
        }
        CompiledRuns(origin, headerChanges, headerDeletes, addedHeaders, headers, inserts,
                     from, DeletedAddresses(origin, recipientDeletes), LiveOf(addedRecipients), msg);
        r := Ok(r.value + envelope.value);
      }
    }
  }

  lemma {:induction false} NoAdditions(
    slots: seq<Slot>, added: seq<Option<Field>>, n: nat, mods: seq<Modification>, final: seq<Field>, leading: bool)
    requires added == [] && AllRefer(slots, n, added) && |final| == |slots|
    requires Inserting(mods, final, IsOriginal(slots), |slots|, leading)
    ensures mods == []
  {
    forall k | 0 <= k < |slots|
      ensures IsOriginal(slots)[k]
    {
      assert Refers(slots[k], n, added);
    }
    NothingToInsert(mods, final, IsOriginal(slots), |slots|, leading);
  }

  lemma {:induction false} EditsInRange(changes: seq<HeaderEdit>, deletes: seq<nat>, n: nat)
    requires InRange(changes, n) && forall k :: 0 <= k < |deletes| ==> deletes[k] < n
    ensures InRange(AllEdits(changes, deletes), n)
  {
  }

  lemma {:induction false} SortKeeps(edits: seq<HeaderEdit>, fields: seq<Field>, isText: Bytes -> bool)
    ensures Distinct(SortDescending(edits)) <==> Distinct(edits)
    ensures AllText(SortDescending(edits), fields, isText) <==> AllText(edits, fields, isText)
  {
    var sorted := SortDescending(edits);
    SortConflicts(edits);
    StrictIfDistinct(sorted);
    if AllText(edits, fields, isText) {
      TextPermutes(edits, sorted, fields, isText);
    }
    if AllText(sorted, fields, isText) {
      TextPermutes(sorted, edits, fields, isText);
    }
  }

  lemma {:induction false} OriginalsFit(
    n: nat, slots: seq<Slot>, deletes: seq<nat>, added: seq<Option<Field>>, changes: seq<HeaderEdit>, o: Origin)
    requires n == |o.headers| && Consistent(n, slots, deletes, added) && InRange(changes, n)
    ensures forall k :: 0 <= k < |slots| && slots[k].Added? ==>
      && multiset(slots)[slots[k]] <= 1
      && FinalHeaders(o, changes, added, slots)[k] == OnWireField(added[slots[k].index].value, o.leading)
  {
  }

  lemma {:induction false} CompiledRuns(
    o: Origin, changes: seq<HeaderEdit>, deletes: seq<nat>, added: seq<Option<Field>>, slots: seq<Slot>,
    inserts: seq<Modification>, from: Option<Address>, addresses: seq<Bytes>, live: seq<Address>, msg: Message)
    requires Compiled(o, changes, deletes, added, slots, inserts) && msg.headers == o.headers
    requires (from.Some? ==> Milter(from.value, true).Ok?) && AllConvert(live)
    ensures var script := HeaderScript(o, changes, deletes) + inserts + EnvelopeScript(from, addresses, live);
            var goal := Readdressed(msg.(headers := FinalHeaders(o, changes, added, slots)), from, addresses, live);
            && (Run(msg, script, o.leading) == Some(goal) <==> NoEmptySet(changes))
            && (!NoEmptySet(changes) ==> Shorter(msg, script, o.leading, goal.headers))
  {
    var front := HeaderScript(o, changes, deletes) + inserts;
    RunAppend(msg, front, EnvelopeScript(from, addresses, live), o.leading);
    var middle := Run(msg, front, o.leading);
    if middle.Some? {
      EnvelopeRuns(middle.value, from, addresses, live, o.leading);
    }
    if NoEmptySet(changes) {
      HeadersCompile(o, changes, deletes, added, slots, inserts, msg);
    } else {
      EmptySetFails(o, changes, deletes, added, slots, inserts, msg);
    }
  }

  lemma {:induction false} AddWorks(
    o: Origin, changes: seq<HeaderEdit>, deletes: seq<nat>, added: seq<Option<Field>>, slots: seq<Slot>, at: nat, f: Field)
    requires InRange(changes, |o.headers|) && Consistent(|o.headers|, slots, deletes, added) && at <= |slots|
    ensures Consistent(|o.headers|, InsertAt(slots, at, Added(|added|)), deletes, added + [Some(f)])
    ensures FinalHeaders(o, changes, added + [Some(f)], InsertAt(slots, at, Added(|added|))) ==
            InsertAt(FinalHeaders(o, changes, added, slots), at, OnWireField(f, o.leading))
  {
    ConsistentInsert(|o.headers|, slots, deletes, added, at, f);
    var wire := WireFields(added, o.leading);
    assert WireFields(added + [Some(f)], o.leading) == wire + [Some(OnWireField(f, o.leading))];
    ConsistentWireFields(|o.headers|, slots, deletes, added, o.leading);
    WorkingInsert(slots, Current(o.headers, changes, o.leading), wire, at, OnWireField(f, o.leading));
  }

  lemma {:induction false} DeleteOriginalWorks(
    o: Origin, changes: seq<HeaderEdit>, deletes: seq<nat>, added: seq<Option<Field>>, slots: seq<Slot>, at: nat)
    requires InRange(changes, |o.headers|) && Consistent(|o.headers|, slots, deletes, added)
    requires at < |slots| && slots[at].Original?
    ensures Consistent(|o.headers|, RemoveAt(slots, at), deletes + [slots[at].index], added)
    ensures FinalHeaders(o, changes, added, RemoveAt(slots, at)) == RemoveAt(FinalHeaders(o, changes, added, slots), at)
    ensures Marking(RemoveAt(slots, at), |o.headers|, added) == RemoveAt(Marking(slots, |o.headers|, added), at)
  {
    MarkingRemove(|o.headers|, slots, deletes, added, at);
    ConsistentWireFields(|o.headers|, slots, deletes, added, o.leading);
    WorkingRemove(|o.headers|, slots, deletes, Current(o.headers, changes, o.leading), WireFields(added, o.leading), at);
    ConsistentRemoveOriginal(|o.headers|, slots, deletes, added, at);
  }

  lemma {:induction false} DeleteAddedWorks(
    o: Origin, changes: seq<HeaderEdit>, deletes: seq<nat>, added: seq<Option<Field>>, slots: seq<Slot>, at: nat)
    requires InRange(changes, |o.headers|) && Consistent(|o.headers|, slots, deletes, added)
    requires at < |slots| && slots[at].Added?
    ensures Consistent(|o.headers|, RemoveAt(slots, at), deletes, added[slots[at].index := None])
    ensures FinalHeaders(o, changes, added[slots[at].index := None], RemoveAt(slots, at)) ==
            RemoveAt(FinalHeaders(o, changes, added, slots), at)
    ensures Marking(RemoveAt(slots, at), |o.headers|, added[slots[at].index := None]) == RemoveAt(Marking(slots, |o.headers|, added), at)
  {
    MarkingRemove(|o.headers|, slots, deletes, added, at);
    var wire := WireFields(added, o.leading);
    ConsistentWireFields(|o.headers|, slots, deletes, added, o.leading);
    WorkingRemove(|o.headers|, slots, deletes, Current(o.headers, changes, o.leading), wire, at);
    ConsistentRemoveAdded(|o.headers|, slots, deletes, added, at);
    assert WireFields(added[slots[at].index := None], o.leading) == wire[slots[at].index := None];
  }

  lemma {:induction false} ConsistentParties(n: nat, slots: seq<Slot>, deletes: seq<nat>, added: seq<Option<Address>>)
    requires Consistent(n, slots, deletes, added)
    ensures Consistent(n, slots, deletes, Parties(added))
  {
    PartiesRefer(n, slots, added);
  }

  lemma {:induction false} AddPartyWorks(
    o: Origin, deletes: seq<nat>, added: seq<Option<Address>>, slots: seq<Slot>, at: nat, a: Address)
    requires Consistent(|o.recipients|, slots, deletes, added) && at <= |slots|
    ensures Consistent(|o.recipients|, InsertAt(slots, at, Added(|added|)), deletes, added + [Some(a)])
    ensures FinalRecipients(o, added + [Some(a)], InsertAt(slots, at, Added(|added|))) ==
            InsertAt(FinalRecipients(o, added, slots), at, PartyOf(a, false))
  {
    ConsistentInsert(|o.recipients|, slots, deletes, added, at, a);
    ConsistentParties(|o.recipients|, slots, deletes, added);
    assert Parties(added + [Some(a)]) == Parties(added) + [Some(PartyOf(a, false))];
    WorkingInsert(slots, o.recipients, Parties(added), at, PartyOf(a, false));
  }

  lemma {:induction false} DeleteOriginalPartyWorks(
    o: Origin, deletes: seq<nat>, added: seq<Option<Address>>, slots: seq<Slot>, at: nat)
    requires Consistent(|o.recipients|, slots, deletes, added) && at < |slots| && slots[at].Original?
    ensures Consistent(|o.recipients|, RemoveAt(slots, at), deletes + [slots[at].index], added)
    ensures FinalRecipients(o, added, RemoveAt(slots, at)) == RemoveAt(FinalRecipients(o, added, slots), at)
    ensures Marking(RemoveAt(slots, at), |o.recipients|, added) == RemoveAt(Marking(slots, |o.recipients|, added), at)
  {
    MarkingRemove(|o.recipients|, slots, deletes, added, at);
    ConsistentParties(|o.recipients|, slots, deletes, added);
    WorkingRemove(|o.recipients|, slots, deletes, o.recipients, Parties(added), at);
    ConsistentRemoveOriginal(|o.recipients|, slots, deletes, added, at);
  }

  lemma {:induction false} DeleteAddedPartyWorks(
    o: Origin, deletes: seq<nat>, added: seq<Option<Address>>, slots: seq<Slot>, at: nat)
    requires Consistent(|o.recipients|, slots, deletes, added) && at < |slots| && slots[at].Added?
    ensures Consistent(|o.recipients|, RemoveAt(slots, at), deletes, added[slots[at].index := None])
    ensures FinalRecipients(o, added[slots[at].index := None], RemoveAt(slots, at)) ==
            RemoveAt(FinalRecipients(o, added, slots), at)
    ensures Marking(RemoveAt(slots, at), |o.recipients|, added[slots[at].index := None]) == RemoveAt(Marking(slots, |o.recipients|, added), at)
  {
    MarkingRemove(|o.recipients|, slots, deletes, added, at);
    ConsistentParties(|o.recipients|, slots, deletes, added);
    WorkingRemove(|o.recipients|, slots, deletes, o.recipients, Parties(added), at);
    ConsistentRemoveAdded(|o.recipients|, slots, deletes, added, at);
    assert Parties(added[slots[at].index := None]) == Parties(added)[slots[at].index := None];
  }
}
