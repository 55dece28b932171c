/** `raw_replacement` as a whole (src/hooks.rs:1082-1193): limits, parsing, indexed
    matching and emission, and the laws relating it to the printer. */
module RawReplacement {
  import opened Octets
  import opened Modifications
  import opened Mta
  import opened Scripts
  import opened Changes
  import opened RawMessage
  import opened Matching
  import opened Replacement

  // ---- Specification ------------------------------------------------------

  /** Length of a base64 text: section 4 of RFC 4648. */
  function EncodedLength(n: nat): nat {
    (n + 2) / 3 * 4
  }

  predicate TextField(f: Field, isText: Bytes -> bool) {
    isText(f.name) && isText(f.value)
  }

  /** Inserted fields and names of deleted originals have to be UTF-8. */
  predicate InsertsAreText(texts: seq<Field>, keep: seq<bool>, p: nat, isText: Bytes -> bool)
    requires p <= |texts| == |keep|
  {
    forall k :: 0 <= k < p ==> keep[k] || TextField(texts[k], isText)
  }

  predicate DeletesAreText(headers: seq<Field>, gone: set<nat>, from: nat, isText: Bytes -> bool) {
    forall i :: from <= i < |headers| && i in gone ==> isText(headers[i].name)
  }

  function EditTo(t: Target, texts: seq<Field>, body: Bytes, isText: Bytes -> bool): Result<seq<Modification>>
    requires Addressable(t, texts)
  {
    if !InsertsAreText(texts, Keep(t, texts), |texts|, isText)
       || !DeletesAreText(t.headers, Gone(t, texts), 0, isText) then Err(Invalid)
    else if |Script(t, texts, body)| > t.maxModifications then Err(Limit)
    else Ok(Script(t, texts, body))
  }

  /** A session within its own header limit. */
  predicate Within(t: Target) {
    |t.headers| <= t.maxHeaders < 0x1_0000_0000
  }

  function EditParsed(t: Target, raw: Bytes, p: Parsed, isText: Bytes -> bool): Result<seq<Modification>>
    requires Within(t) && Laid(raw, p.fields, |raw|) && |p.fields| <= t.maxHeaders && p.bodyStart <= |raw|
  {
    EditTo(t, TextsOf(raw, p.fields), raw[p.bodyStart..], isText)
  }

  /** The answer is a base64 text of `encoded` characters, or is not one (`decoded` is None). */
  function Replace(t: Target, encoded: nat, decoded: Option<Bytes>, isText: Bytes -> bool): Result<seq<Modification>>
    requires Within(t)
  {
    if encoded > EncodedLength(t.messageBytes) then Err(Limit)
    else if decoded.None? then Err(Invalid)
    else
      var raw := decoded.value;
      if |raw| > t.messageBytes then Err(Limit)
      else if Parse(raw, t.maxHeaders).Err? then Err(Parse(raw, t.maxHeaders).error)
      else
        ParseBounds(raw, t.maxHeaders);
        EditParsed(t, raw, Parse(raw, t.maxHeaders).value, isText)
  }

  lemma {:induction false} ParseBounds(raw: Bytes, max: nat)
    requires Parse(raw, max).Ok?
    ensures var p := Parse(raw, max).value;
            Laid(raw, p.fields, |raw|) && |p.fields| <= max && p.bodyStart <= |raw|
  {
    ParseCount(raw, 0, [], max);
    ParseLaid(raw, 0, [], max);
  }

  // ---- Which replacements are accepted ------------------------------------

  /** How many fields were matched. */
  function Matches(picks: seq<Option<nat>>): nat {
    if picks == [] then 0
    else Matches(picks[..|picks| - 1]) + if picks[|picks| - 1].Some? then 1 else 0
  }

  predicate IsPicked(picks: seq<Option<nat>>, i: nat) {
    exists p :: 0 <= p < |picks| && picks[p] == Some(i)
  }

  /** With `picks` the greedy matches: every unmatched field is text, every unmatched original
      has a name that is text, and the deletes, the inserts and the body change together are
      within the limit. */
  predicate EditAccepted(t: Target, texts: seq<Field>, body: Bytes, picks: seq<Option<nat>>, isText: Bytes -> bool)
    requires |picks| == |texts|
  {
    && (forall p :: 0 <= p < |texts| && picks[p].None? ==> isText(texts[p].name) && isText(texts[p].value))
    && (forall i: nat :: i < |t.headers| && !IsPicked(picks, i) ==> isText(t.headers[i].name))
    && |t.headers| - Matches(picks) + |texts| - Matches(picks) + (if body == t.body then 0 else 1) <= t.maxModifications
  }

  /** A base64 text of at most the length the message limit allows, decoding to a message within
      the limit, whose header block parses within the header limit, and whose edit is accepted. */
  predicate Accepted(t: Target, encoded: nat, decoded: Option<Bytes>, isText: Bytes -> bool)
    requires Within(t)
  {
    && encoded <= (t.messageBytes + 2) / 3 * 4
    && decoded.Some? && |decoded.value| <= t.messageBytes
    && Parse(decoded.value, t.maxHeaders).Ok?
    && ParsedAccepted(t, decoded.value, isText)
  }

  predicate ParsedAccepted(t: Target, raw: Bytes, isText: Bytes -> bool)
    requires Within(t) && Parse(raw, t.maxHeaders).Ok?
  {
    ParseBounds(raw, t.maxHeaders);
    var p := Parse(raw, t.maxHeaders).value;
    var texts := TextsOf(raw, p.fields);
    EditAccepted(t, texts, raw[p.bodyStart..], Picks(t.headers, Looks(texts, t.leading)), isText)
  }

  lemma {:induction false} PickedIsRetained(original: seq<Field>, looks: seq<Option<Field>>, p: nat, i: nat)
    requires p <= |looks|
    ensures i in Retained(original, looks, p) <==> IsPicked(Picks(original, looks)[..p], i)
  {
    if p > 0 {
      PickedIsRetained(original, looks, p - 1, i);
      var picks := Picks(original, looks);
      SliceSnoc(picks, p - 1);
      PickedSnoc(picks[..p - 1], picks[p - 1], i);
    }
  }

  lemma {:induction false} PickedSnoc(picks: seq<Option<nat>>, last: Option<nat>, i: nat)
    ensures IsPicked(picks + [last], i) <==> IsPicked(picks, i) || last == Some(i)
  {
    var all := picks + [last];
    assert all[|picks|] == last;
    assert forall p :: 0 <= p < |picks| ==> all[p] == picks[p];
  }

  lemma {:induction false} InsertCount(t: Target, texts: seq<Field>, p: nat)
    requires Addressable(t, texts) && p <= |texts|
    ensures |Inserts(texts, Keep(t, texts), p)| + Matches(Picks(t.headers, Looks(texts, t.leading))[..p]) == p
  {
    if p > 0 {
      InsertCount(t, texts, p - 1);
      var picks := Picks(t.headers, Looks(texts, t.leading));
      assert picks[..p][..p - 1] == picks[..p - 1];
    }
  }

  lemma {:induction false} DeleteCount<T>(list: seq<T>, gone: set<nat>, k: nat)
    requires k <= |list|
    ensures |DeleteEdits(gone, k)| + |KeptFrom(list, gone, 0)| == k + |KeptFrom(list, gone, k)|
  {
    if k > 0 {
      DeleteCount(list, gone, k - 1);
    }
  }

  lemma {:induction false} MarkedCount<T>(t: Target, texts: seq<Field>, final: seq<T>, p: nat)
    requires p <= |texts| == |final|
    ensures |MarkedTo(final, Keep(t, texts), p)| == Matches(Picks(t.headers, Looks(texts, t.leading))[..p])
  {
    if p > 0 {
      MarkedCount(t, texts, final, p - 1);
      var picks := Picks(t.headers, Looks(texts, t.leading));
      assert picks[..p][..p - 1] == picks[..p - 1];
    }
  }

  /** As many originals are kept as fields are matched; the rest is deleted and inserted. */
  lemma {:induction false} ScriptSize(t: Target, texts: seq<Field>, body: Bytes)
    requires Addressable(t, texts)
    ensures var kept := Matches(Picks(t.headers, Looks(texts, t.leading)));
            |Script(t, texts, body)| == |t.headers| - kept + |texts| - kept + if body == t.body then 0 else 1
  {
    var picks, n := Picks(t.headers, Looks(texts, t.leading)), |texts|;
    assert picks[..n] == picks;
    InsertCount(t, texts, n);
    DeleteCount(t.headers, Gone(t, texts), |t.headers|);
    RetainedAreMarked(t, texts, n);
    MarkedCount(t, texts, Wanted(texts, t.leading), n);
    DeletesInRange(Gone(t, texts), |t.headers|);
  }

  lemma {:induction false} EditAcceptedIff(t: Target, texts: seq<Field>, body: Bytes, isText: Bytes -> bool)
    requires Addressable(t, texts)
    ensures EditTo(t, texts, body, isText).Ok? <==>
            EditAccepted(t, texts, body, Picks(t.headers, Looks(texts, t.leading)), isText)
  {
    var looks := Looks(texts, t.leading);
    var picks := Picks(t.headers, looks);
    ScriptSize(t, texts, body);
    assert picks[..|texts|] == picks;
    forall i: nat | i < |t.headers|
      ensures i in Gone(t, texts) <==> !IsPicked(picks, i)
    {
      PickedIsRetained(t.headers, looks, |texts|, i);
    }
    assert forall p :: 0 <= p < |texts| ==> (Keep(t, texts)[p] <==> picks[p].Some?);
  }

  /** Acceptance, without the script: exactly the replacements described above. */
  lemma {:induction false} AcceptedIff(t: Target, encoded: nat, decoded: Option<Bytes>, isText: Bytes -> bool)
    requires Within(t)
    ensures Replace(t, encoded, decoded, isText).Ok? <==> Accepted(t, encoded, decoded, isText)
  {
    if decoded.Some? && Parse(decoded.value, t.maxHeaders).Ok? {
      ParseBounds(decoded.value, t.maxHeaders);
      var p := Parse(decoded.value, t.maxHeaders).value;
      EditAcceptedIff(t, TextsOf(decoded.value, p.fields), decoded.value[p.bodyStart..], isText);
    }
  }

  // ---- The loops ----------------------------------------------------------

  predicate Flags(retained: seq<bool>, t: Target, texts: seq<Field>, p: nat)
    requires p <= |texts|
  {
    && |retained| == |t.headers|
    && forall i: nat :: i < |retained| ==> (retained[i] <==> i in Retained(t.headers, Looks(texts, t.leading), p))
  }

  /** The matching loop has dealt with the fields before `p`. */
  predicate Matched(t: Target, texts: seq<Field>, p: nat, retained: seq<bool>, cursor: nat, inserted: seq<Modification>, isText: Bytes -> bool)
    requires Addressable(t, texts)
  {
    && p <= |texts|
    && Flags(retained, t, texts, p)
    && cursor == Cursor(t.headers, Looks(texts, t.leading), p)
    && inserted == Inserts(texts, Keep(t, texts), p)
    && InsertsAreText(texts, Keep(t, texts), p, isText)
  }

  lemma {:induction false} FlagRetained(t: Target, texts: seq<Field>, p: nat, retained: seq<bool>, index: nat)
    requires p < |texts| && Flags(retained, t, texts, p)
    requires MatchAt(t.headers, Looks(texts, t.leading), p) == Some(index)
    ensures index < |retained| && Flags(retained[index := true], t, texts, p + 1)
  {
    var looks := Looks(texts, t.leading);
    assert Retained(t.headers, looks, p + 1) == Retained(t.headers, looks, p) + {index};
  }

  lemma {:induction false} RetainStep(
    t: Target, texts: seq<Field>, p: nat, retained: seq<bool>, cursor: nat, inserted: seq<Modification>, index: nat, isText: Bytes -> bool)
    requires Addressable(t, texts) && p < |texts| && Matched(t, texts, p, retained, cursor, inserted, isText)
    requires MatchAt(t.headers, Looks(texts, t.leading), p) == Some(index)
    ensures index < |retained|
    ensures Matched(t, texts, p + 1, retained[index := true], index + 1, inserted, isText)
  {
    FlagRetained(t, texts, p, retained, index);
    assert Keep(t, texts)[p];
  }

  lemma {:induction false} InsertStep(
    t: Target, texts: seq<Field>, p: nat, retained: seq<bool>, cursor: nat, inserted: seq<Modification>, isText: Bytes -> bool)
    requires Addressable(t, texts) && p < |texts| && Matched(t, texts, p, retained, cursor, inserted, isText)
    requires MatchAt(t.headers, Looks(texts, t.leading), p) == None
    requires TextField(texts[p], isText)
    ensures Matched(t, texts, p + 1, retained, cursor, inserted + [InsertOf(texts, p)], isText)
  {
  }

  lemma {:induction false} NotText(t: Target, texts: seq<Field>, p: nat, isText: Bytes -> bool)
    requires p < |texts| && MatchAt(t.headers, Looks(texts, t.leading), p) == None && !TextField(texts[p], isText)
    ensures !InsertsAreText(texts, Keep(t, texts), |texts|, isText)
  {
    assert !Keep(t, texts)[p];
  }

  method FindCandidate(headers: seq<Field>, candidates: Index, look: Option<Field>, cursor: nat) returns (r: Option<nat>)
    requires Indexes(candidates, headers, |headers|)
    ensures r == if look.Some? then FirstAt(headers, look.value, cursor) else None
  {
    if look.None? {
      return None;
    }
    var indices := Candidates(candidates, look.value);
    IndexFindsFirst(headers, look.value, cursor);
    var k := PartitionPoint(indices, cursor);
    r := if k < |indices| then Some(indices[k]) else None;
  }

  /** The matching loop: an index lookup per replacement field. */
  method MatchFields(t: Target, texts: seq<Field>, candidates: Index, isText: Bytes -> bool)
    returns (r: Result<(seq<bool>, seq<Modification>)>)
    requires Addressable(t, texts) && Indexes(candidates, t.headers, |t.headers|)
    ensures r.Ok? <==> InsertsAreText(texts, Keep(t, texts), |texts|, isText)
    ensures r.Err? ==> r.error == Invalid
    ensures r.Ok? ==> Flags(r.value.0, t, texts, |texts|)
    ensures r.Ok? ==> r.value.1 == Inserts(texts, Keep(t, texts), |texts|)
  {
    var retained := seq(|t.headers|, _ => false);
    var cursor := 0;
    var inserted: seq<Modification> := [];
    for position := 0 to |texts|
      invariant Matched(t, texts, position, retained, cursor, inserted, isText)
    {
      var text := texts[position];
      var matched := FindCandidate(t.headers, candidates, Look(text, t.leading), cursor);
      assert matched == MatchAt(t.headers, Looks(texts, t.leading), position);
      if matched.Some? {
        RetainStep(t, texts, position, retained, cursor, inserted, matched.value, isText);
        retained := retained[matched.value := true];
        cursor := matched.value + 1;
      } else {
        if !TextField(text, isText) {
          NotText(t, texts, position, isText);
          return Err(Invalid);
        }
        InsertStep(t, texts, position, retained, cursor, inserted, isText);
        inserted := inserted + [InsertRawHeader(position, text.name, text.value)];
      }
    }
    r := Ok((retained, inserted));
  }

  lemma {:induction false} ChangeScriptCons(e: HeaderEdit, edits: seq<HeaderEdit>, fields: seq<Field>)
    requires |fields| < 0x1_0000_0000 && e.at < |fields|
    requires forall k :: 0 <= k < |edits| ==> edits[k].at < |fields|
    ensures ChangeScript([e] + edits, fields) == [ChangeOf(e, fields)] + ChangeScript(edits, fields)
  {
  }

  /** Deletions of the originals in `gone` below `k`, last first. */
  function Deletes(headers: seq<Field>, gone: set<nat>, k: nat): seq<Modification>
    requires k <= |headers| < 0x1_0000_0000
  {
    DeletesInRange(gone, k);
    ChangeScript(DeleteEdits(gone, k), headers)
  }

  lemma {:induction false} DeletesStep(headers: seq<Field>, gone: set<nat>, k: nat)
    requires k < |headers| < 0x1_0000_0000
    ensures Deletes(headers, gone, k + 1) ==
            if k in gone then [ChangeOf(HeaderEdit(k, None), headers)] + Deletes(headers, gone, k)
            else Deletes(headers, gone, k)
  {
    DeletesInRange(gone, k);
    DeletesInRange(gone, k + 1);
    if k in gone {
      ChangeScriptCons(HeaderEdit(k, None), DeleteEdits(gone, k), headers);
    }
  }

  /** `result` deletes the originals from position `i` on. */
  predicate Deleting(headers: seq<Field>, gone: set<nat>, i: nat, result: seq<Modification>)
    requires |headers| < 0x1_0000_0000
  {
    i <= |headers| && result + Deletes(headers, gone, i) == Deletes(headers, gone, |headers|)
  }

  lemma {:induction false} DeletingStep(headers: seq<Field>, gone: set<nat>, i: nat, result: seq<Modification>)
    requires i < |headers| < 0x1_0000_0000 && Deleting(headers, gone, i + 1, result)
    ensures i !in gone ==> Deleting(headers, gone, i, result)
    ensures i in gone ==>
              Deleting(headers, gone, i, result + [ChangeHeader(Occurrence(headers, i), headers[i].name, [])])
  {
    DeletesStep(headers, gone, i);
    if i in gone {
      Reassociate(result, [ChangeOf(HeaderEdit(i, None), headers)], Deletes(headers, gone, i));
    }
  }

  lemma {:induction false} DeletingEnds(headers: seq<Field>, gone: set<nat>, result: seq<Modification>)
    requires |headers| < 0x1_0000_0000
    ensures Deleting(headers, gone, |headers|, [])
    ensures Deleting(headers, gone, 0, result) ==> result == Deletes(headers, gone, |headers|)
  {
    assert Deletes(headers, gone, 0) == [];
    assert [] + Deletes(headers, gone, |headers|) == Deletes(headers, gone, |headers|);
    assert result + [] == result;
  }

  /** The reverse loop over the originals, using the precomputed occurrence numbers. */
  method DeleteRest(headers: seq<Field>, retained: seq<bool>, occurrences: seq<U32>, ghost gone: set<nat>, isText: Bytes -> bool)
    returns (r: Result<seq<Modification>>)
    requires |headers| == |retained| == |occurrences| < 0x1_0000_0000
    requires forall i :: 0 <= i < |headers| ==> occurrences[i] == Occurrence(headers, i)
    requires forall i :: 0 <= i < |headers| ==> (i in gone <==> !retained[i])
    ensures r.Ok? <==> DeletesAreText(headers, gone, 0, isText)
    ensures r.Err? ==> r.error == Invalid
    ensures r.Ok? ==> r.value == Deletes(headers, gone, |headers|)
  {
    var result: seq<Modification> := [];
    var i := |headers|;
    DeletingEnds(headers, gone, []);
    while i > 0
      invariant 0 <= i <= |headers|
      invariant Deleting(headers, gone, i, result)
      invariant DeletesAreText(headers, gone, i, isText)
    {
      i := i - 1;
      DeletingStep(headers, gone, i, result);
      if !retained[i] {
        if !isText(headers[i].name) {
          return Err(Invalid);
        }
        result := result + [ChangeHeader(occurrences[i], headers[i].name, [])];
      }
    }
    DeletingEnds(headers, gone, result);
    r := Ok(result);
  }

  method EmitReplacement(t: Target, texts: seq<Field>, body: Bytes, isText: Bytes -> bool)
    returns (r: Result<seq<Modification>>)
    requires Addressable(t, texts)
    ensures r == EditTo(t, texts, body, isText)
  {
    var candidates, occurrences := BuildIndex(t.headers);
    var matched := MatchFields(t, texts, candidates, isText);
    if matched.Err? {
      return Err(matched.error);
    }
    ghost var gone := Gone(t, texts);
    var deletes := DeleteRest(t.headers, matched.value.0, occurrences, gone, isText);
    if deletes.Err? {
      return deletes;
    }
    var result := deletes.value + matched.value.1;
    if body != t.body {
      result := result + [ReplaceBody(body)];
    } else {
      assert result + [] == result;
    }
    assert result == Script(t, texts, body);
    if |result| > t.maxModifications {
      return Err(Limit);
    }
    r := Ok(result);
  }

  /** `raw_replacement`: the indexed, looped form computes the linear-scan specification. */
  method RawReplace(t: Target, encoded: nat, decoded: Option<Bytes>, isText: Bytes -> bool)
    returns (r: Result<seq<Modification>>)
    requires Within(t)
    ensures r == Replace(t, encoded, decoded, isText)
    ensures r.Ok? <==> Accepted(t, encoded, decoded, isText)
  {
    AcceptedIff(t, encoded, decoded, isText);
    if encoded > EncodedLength(t.messageBytes) {
      return Err(Limit);
    }
    if decoded.None? {
      return Err(Invalid);
    }
    var raw := decoded.value;
    if |raw| > t.messageBytes {
      return Err(Limit);
    }
    var parsed := ParseHeaders(raw, t.maxHeaders);
    if parsed.Err? {
      return Err(parsed.error);
    }
    ParseBounds(raw, t.maxHeaders);
    var texts := TextsOf(raw, parsed.value.fields);
    r := EmitReplacement(t, texts, raw[parsed.value.bodyStart..], isText);
  }
}
