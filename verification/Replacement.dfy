/** Whole-message replacement: parse the scanner's message, keep an ordered
    subsequence of identical fields, delete the rest from the back and insert the
    new ones by final position (src/hooks.rs:1082-1193). */
module Replacement {
  import opened Octets
  import opened Modifications
  import opened Mta
  import opened Scripts
  import opened Changes
  import opened RawMessage
  import opened Matching

  /** The session's message and the limits a replacement is held to. */
  datatype Target = Target(
    headers: seq<Field>, body: Bytes, messageBytes: nat, maxHeaders: nat, maxModifications: nat, leading: bool)

  // ---- The script ---------------------------------------------------------

  function Look(text: Field, leading: bool): Option<Field> {
    match Lookup(text.value, leading)
    case Some(v) => Some(Field(text.name, v))
    case None => None
  }

  function Looks(texts: seq<Field>, leading: bool): seq<Option<Field>> {
    seq(|texts|, p requires 0 <= p < |texts| => Look(texts[p], leading))
  }

  /** The replacement fields with values as the MTA holds them. */
  function Wanted(texts: seq<Field>, leading: bool): seq<Field> {
    seq(|texts|, p requires 0 <= p < |texts| =>
      var look := Look(texts[p], leading); if look.Some? then look.value else texts[p])
  }

  function Keep(t: Target, texts: seq<Field>): seq<bool> {
    var looks := Looks(texts, t.leading);
    seq(|texts|, p requires 0 <= p < |texts| => MatchAt(t.headers, looks, p).Some?)
  }

  function Gone(t: Target, texts: seq<Field>): set<nat> {
    Dropped(t.headers, Looks(texts, t.leading), |texts|)
  }

  /** Deletions of the given positions below `k`, last position first. */
  function DeleteEdits(gone: set<nat>, k: nat): seq<HeaderEdit> {
    if k == 0 then []
    else if k - 1 in gone then [HeaderEdit(k - 1, None)] + DeleteEdits(gone, k - 1)
    else DeleteEdits(gone, k - 1)
  }

  function InsertOf(texts: seq<Field>, p: nat): Modification
    requires p < |texts| < 0x1_0000_0000
  {
    InsertRawHeader(p, texts[p].name, texts[p].value)
  }

  function Inserts(texts: seq<Field>, keep: seq<bool>, p: nat): seq<Modification>
    requires p <= |texts| == |keep| && |texts| < 0x1_0000_0000
  {
    if p == 0 then []
    else if keep[p - 1] then Inserts(texts, keep, p - 1)
    else Inserts(texts, keep, p - 1) + [InsertOf(texts, p - 1)]
  }

  function BodyEdit(t: Target, body: Bytes): seq<Modification> {
    if body != t.body then [ReplaceBody(body)] else []
  }

  predicate Addressable(t: Target, texts: seq<Field>) {
    |t.headers| < 0x1_0000_0000 && |texts| < 0x1_0000_0000
  }

  function Script(t: Target, texts: seq<Field>, body: Bytes): seq<Modification>
    requires Addressable(t, texts)
  {
    DeletesInRange(Gone(t, texts), |t.headers|);
    ChangeScript(DeleteEdits(Gone(t, texts), |t.headers|), t.headers)
      + Inserts(texts, Keep(t, texts), |texts|) + BodyEdit(t, body)
  }

  lemma {:induction false} DeletesInRange(gone: set<nat>, k: nat)
    ensures forall j :: 0 <= j < |DeleteEdits(gone, k)| ==> DeleteEdits(gone, k)[j].at < k
  {
    if k > 0 {
      DeletesInRange(gone, k - 1);
    }
  }

  // ---- Retained originals are the kept replacement fields -----------------

  lemma {:induction false} KeptNone<T>(list: seq<T>, gone: set<nat>, k: nat)
    requires k <= |list| && forall j :: k <= j < |list| ==> j in gone
    ensures KeptFrom(list, gone, k) == []
    decreases |list| - k
  {
    if k < |list| {
      KeptNone(list, gone, k + 1);
    }
  }

  lemma {:induction false} KeptAppend<T>(list: seq<T>, gone: set<nat>, i: nat, k: nat)
    requires k <= i < |list| && forall j :: i <= j < |list| ==> j in gone
    ensures KeptFrom(list, gone - {i}, k) == KeptFrom(list, gone, k) + [list[i]]
    decreases i - k
  {
    var less := gone - {i};
    if k == i {
      KeptNone(list, less, i + 1);
      KeptNone(list, gone, i);
      assert KeptFrom(list, less, i) == [list[i]] + KeptFrom(list, less, i + 1);
    } else {
      var head := if k in gone then [] else [list[k]];
      KeptAppend(list, gone, i, k + 1);
      Reassociate(head, KeptFrom(list, gone, k + 1), [list[i]]);
      assert KeptFrom(list, less, k) == head + KeptFrom(list, less, k + 1);
    }
  }

  /** The marked entries before position `p`. */
  function MarkedTo<T>(final: seq<T>, keep: seq<bool>, p: nat): seq<T>
    requires p <= |final| == |keep|
  {
    if p == 0 then [] else MarkedTo(final, keep, p - 1) + if keep[p - 1] then [final[p - 1]] else []
  }

  lemma {:induction false} MarkedSplits<T>(final: seq<T>, keep: seq<bool>, p: nat)
    requires p <= |final| == |keep|
    ensures MarkedTo(final, keep, p) + Marked(final, keep, p) == Marked(final, keep, 0)
  {
    if p == 0 {
      assert [] + Marked(final, keep, 0) == Marked(final, keep, 0);
    } else {
      MarkedSplits(final, keep, p - 1);
      Reassociate(MarkedTo(final, keep, p - 1), if keep[p - 1] then [final[p - 1]] else [], Marked(final, keep, p));
    }
  }

  lemma {:induction false} RetainedAreMarked(t: Target, texts: seq<Field>, p: nat)
    requires p <= |texts|
    ensures KeptFrom(t.headers, Dropped(t.headers, Looks(texts, t.leading), p), 0) ==
            MarkedTo(Wanted(texts, t.leading), Keep(t, texts), p)
  {
    var looks := Looks(texts, t.leading);
    if p == 0 {
      KeptNone(t.headers, Dropped(t.headers, looks, 0), 0);
    } else {
      RetainedAreMarked(t, texts, p - 1);
      var before := Dropped(t.headers, looks, p - 1);
      var m := MatchAt(t.headers, looks, p - 1);
      if m.Some? {
        RetainedBelow(t.headers, looks, p - 1);
        assert Dropped(t.headers, looks, p) == before - {m.value};
        KeptAppend(t.headers, before, m.value, 0);
        assert t.headers[m.value] == Wanted(texts, t.leading)[p - 1];
      } else {
        assert Dropped(t.headers, looks, p) == before;
      }
    }
  }

  lemma {:induction false} SurvivorsAreWanted(t: Target, texts: seq<Field>)
    ensures KeptFrom(t.headers, Gone(t, texts), 0) == Marked(Wanted(texts, t.leading), Keep(t, texts), 0)
  {
    var final, keep := Wanted(texts, t.leading), Keep(t, texts);
    RetainedAreMarked(t, texts, |texts|);
    MarkedSplits(final, keep, |texts|);
    assert MarkedTo(final, keep, |texts|) + [] == MarkedTo(final, keep, |texts|);
  }

  // ---- The script replaces the message ------------------------------------

  lemma {:induction false} DeletesStrict(gone: set<nat>, k: nat)
    ensures Strict(DeleteEdits(gone, k))
  {
    if k > 0 {
      DeletesStrict(gone, k - 1);
      DeletesInRange(gone, k - 1);
      var rest := DeleteEdits(gone, k - 1);
      if k - 1 in gone {
        assert DeleteEdits(gone, k)[1..] == rest;
      }
    }
  }

  lemma {:induction false} DeletesCover(gone: set<nat>, k: nat, i: nat)
    requires i < k
    ensures i in gone <==> !Fresh(i, DeleteEdits(gone, k))
    ensures forall j :: 0 <= j < |DeleteEdits(gone, k)| ==>
              DeleteEdits(gone, k)[j].at in gone && DeleteEdits(gone, k)[j].value == None
  {
    var rest := DeleteEdits(gone, k - 1);
    DeletesInRange(gone, k - 1);
    if i < k - 1 {
      DeletesCover(gone, k - 1, i);
    } else if k > 1 {
      DeletesCover(gone, k - 1, 0);
    }
    if k - 1 in gone {
      var all := DeleteEdits(gone, k);
      assert all[0].at == k - 1 && all[1..] == rest;
      assert forall j :: 0 < j < |all| ==> all[j] == rest[j - 1];
      assert forall j :: 0 <= j < |rest| ==> rest[j] == all[j + 1];
    }
  }

  lemma {:induction false} DeletesExplain(fields: seq<Field>, gone: set<nat>, leading: bool)
    ensures Explains(DeleteEdits(gone, |fields|), fields, fields, gone, leading)
  {
    var edits := DeleteEdits(gone, |fields|);
    DeletesInRange(gone, |fields|);
    forall k | 0 <= k < |edits|
      ensures Effect(edits[k], fields, fields, gone, leading)
    {
      DeletesCover(gone, |fields|, 0);
    }
    forall i | 0 <= i < |fields| && Fresh(i, edits)
      ensures i !in gone
    {
      DeletesCover(gone, |fields|, i);
    }
  }

  lemma {:induction false} EncodableFront(mods: seq<Modification>, last: Modification, leading: bool)
    requires AllEncodable(mods + [last], leading)
    ensures AllEncodable(mods, leading) && Frames(last, leading).Ok?
  {
    var all := mods + [last];
    assert all[|mods|] == last;
    assert forall k :: 0 <= k < |mods| ==> mods[k] == all[k];
  }

  lemma {:induction false} InsertPlaces(texts: seq<Field>, p: nat, leading: bool)
    requires p < |texts| < 0x1_0000_0000 && Frames(InsertOf(texts, p), leading).Ok?
    ensures Places(InsertOf(texts, p), Wanted(texts, leading), p, leading)
  {
  }

  lemma {:induction false} InsertsPlace(t: Target, texts: seq<Field>, keep: seq<bool>, p: nat)
    requires p <= |texts| == |keep| && |texts| < 0x1_0000_0000
    requires AllEncodable(Inserts(texts, keep, p), t.leading)
    ensures Inserting(Inserts(texts, keep, p), Wanted(texts, t.leading), keep, p, t.leading)
  {
    if p > 0 {
      var before := Inserts(texts, keep, p - 1);
      if keep[p - 1] {
        InsertsPlace(t, texts, keep, p - 1);
      } else {
        var last := InsertOf(texts, p - 1);
        EncodableFront(before, last, t.leading);
        InsertsPlace(t, texts, keep, p - 1);
        InsertPlaces(texts, p - 1, t.leading);
        InsertingSnoc(before, last, Wanted(texts, t.leading), keep, p - 1, t.leading);
      }
    }
  }

  /** Compiler correctness: once every insertion can be put on the wire, the MTA is left
      with exactly the replacement fields in order and the replacement body. */
  lemma {:induction false} ReplacementRuns(t: Target, texts: seq<Field>, body: Bytes, msg: Message)
    requires Addressable(t, texts)
    requires msg.headers == t.headers && msg.body == t.body && msg.replacement == None
    requires AllEncodable(Inserts(texts, Keep(t, texts), |texts|), t.leading)
    ensures var r := Run(msg, Script(t, texts, body), t.leading);
            && r.Some? && r.value.FinalBody() == body
            && r.value == msg.(headers := Wanted(texts, t.leading), replacement := r.value.replacement)
  {
    var gone, final, keep := Gone(t, texts), Wanted(texts, t.leading), Keep(t, texts);
    var edits := DeleteEdits(gone, |t.headers|);
    DeletesInRange(gone, |t.headers|);
    var deletes := ChangeScript(edits, t.headers);
    var inserts := Inserts(texts, keep, |texts|);
    DeletesStrict(gone, |t.headers|);
    DeletesExplain(t.headers, gone, t.leading);
    AllChangesRun(msg, edits, t.headers, t.headers, gone, t.leading);
    SurvivorsAreWanted(t, texts);
    var middle := msg.(headers := Marked(final, keep, 0));
    InsertsPlace(t, texts, keep, |texts|);
    InsertingRuns(middle, inserts, final, keep, |final|, t.leading);
    BuiltEnds(final, keep);
    RunAppend(msg, deletes, inserts, t.leading);
    var before := msg.(headers := final);
    RunAppend(msg, deletes + inserts, BodyEdit(t, body), t.leading);
    BodyRuns(before, t, body);
  }

  lemma {:induction false} RunOne(msg: Message, m: Modification, leading: bool)
    ensures Run(msg, [m], leading) == Apply(msg, EditOf(m, leading))
  {
    assert [m][..0] == [];
  }

  lemma {:induction false} BodyRuns(msg: Message, t: Target, body: Bytes)
    requires msg.body == t.body && msg.replacement == None
    ensures var r := Run(msg, BodyEdit(t, body), t.leading);
            r.Some? && r.value.FinalBody() == body && r.value == msg.(replacement := r.value.replacement)
  {
    if body != t.body {
      RunOne(msg, ReplaceBody(body), t.leading);
      assert [] + body == body;
    }
  }
}
