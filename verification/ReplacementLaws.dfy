/** What a whole-message replacement promises: the MTA ends with exactly the message the
    scanner sent, printing that message gives the bytes back, and answering with the
    message as printed changes nothing. */
module ReplacementLaws {
  import opened Octets
  import opened Wire
  import opened Modifications
  import opened Mta
  import opened Scripts
  import opened RawMessage
  import opened Matching
  import opened Replacement
  import opened RawReplacement

  // ---- The MTA ends with the replacement ----------------------------------

  lemma {:induction false} EncodableParts(a: seq<Modification>, b: seq<Modification>, c: seq<Modification>, leading: bool)
    requires AllEncodable(a + b + c, leading)
    ensures AllEncodable(b, leading)
  {
    forall k | 0 <= k < |b|
      ensures Frames(b[k], leading).Ok?
    {
      assert (a + b + c)[|a| + k] == b[k];
    }
  }

  lemma {:induction false} InsertsContain(texts: seq<Field>, keep: seq<bool>, n: nat, p: nat) returns (k: nat)
    requires p < n <= |texts| == |keep| && |texts| < 0x1_0000_0000 && !keep[p]
    ensures k < |Inserts(texts, keep, n)| && Inserts(texts, keep, n)[k] == InsertOf(texts, p)
  {
    if p == n - 1 {
      k := |Inserts(texts, keep, n - 1)|;
    } else {
      k := InsertsContain(texts, keep, n - 1, p);
    }
  }

  /** No field is lost to the missing colon space: kept fields were found by their value,
      inserted ones went on the wire. */
  lemma {:induction false} AllLook(t: Target, texts: seq<Field>, p: nat)
    requires Addressable(t, texts) && p < |texts|
    requires AllEncodable(Inserts(texts, Keep(t, texts), |texts|), t.leading)
    ensures Look(texts[p], t.leading).Some?
  {
    if !Keep(t, texts)[p] {
      var k := InsertsContain(texts, Keep(t, texts), |texts|, p);
    }
  }

  /** The replacement as fields the MTA holds: every text with its colon space removed
      as the negotiated mode asks. */
  predicate Normalised(final: seq<Field>, texts: seq<Field>, leading: bool) {
    && |final| == |texts|
    && forall p :: 0 <= p < |texts| ==> Look(texts[p], leading) == Some(final[p])
  }

  lemma {:induction false} WantedNormalised(t: Target, texts: seq<Field>)
    requires Addressable(t, texts)
    requires AllEncodable(Inserts(texts, Keep(t, texts), |texts|), t.leading)
    ensures Normalised(Wanted(texts, t.leading), texts, t.leading)
  {
    forall p | 0 <= p < |texts|
      ensures Look(texts[p], t.leading) == Some(Wanted(texts, t.leading)[p])
    {
      AllLook(t, texts, p);
    }
  }

  /** Whenever the replacement is accepted and goes on the wire, the script leaves the MTA
      with exactly the parsed fields in order and the replacement body, and touches nothing
      else. */
  lemma {:induction false} ReplacementCorrect(t: Target, encoded: nat, raw: Bytes, isText: Bytes -> bool, msg: Message)
    returns (p: Parsed, final: Message)
    requires Within(t) && Replace(t, encoded, Some(raw), isText).Ok?
    requires AllEncodable(Replace(t, encoded, Some(raw), isText).value, t.leading)
    requires msg.headers == t.headers && msg.body == t.body && msg.replacement == None
    ensures Parse(raw, t.maxHeaders) == Ok(p) && Laid(raw, p.fields, |raw|) && p.bodyStart <= |raw|
    ensures Run(msg, Replace(t, encoded, Some(raw), isText).value, t.leading) == Some(final)
    ensures ApplyFrames(msg, ScriptFrames(Replace(t, encoded, Some(raw), isText).value, t.leading)) == Some(final)
    ensures Normalised(final.headers, TextsOf(raw, p.fields), t.leading)
    ensures final.FinalBody() == raw[p.bodyStart..]
    ensures final == msg.(headers := final.headers, replacement := final.replacement)
  {
    p := Parse(raw, t.maxHeaders).value;
    ParseBounds(raw, t.maxHeaders);
    var texts, body := TextsOf(raw, p.fields), raw[p.bodyStart..];
    var mods := Script(t, texts, body);
    assert Replace(t, encoded, Some(raw), isText).value == mods;
    EncodableParts(Deletes(t.headers, Gone(t, texts), |t.headers|), Inserts(texts, Keep(t, texts), |texts|), BodyEdit(t, body), t.leading);
    WantedNormalised(t, texts);
    ReplacementRuns(t, texts, body, msg);
    ScriptFramesMean(msg, mods, t.leading);
    final := Run(msg, mods, t.leading).value;
  }

  // ---- Printing the result ------------------------------------------------

  /** Without leading-space negotiation a colon space before a line break is not kept. */
  predicate Lossy(text: Bytes, leading: bool) {
    !leading && StartsWith(text, SP) && StartsWithBreak(text[1..])
  }

  predicate Lossless(texts: seq<Field>, leading: bool) {
    forall k :: 0 <= k < |texts| ==> !Lossy(texts[k].value, leading)
  }

  lemma {:induction false} TextsKept(final: seq<Field>, texts: seq<Field>, leading: bool)
    requires Normalised(final, texts, leading)
    ensures ToTexts(final, leading) == texts <==> Lossless(texts, leading)
  {
    var back := ToTexts(final, leading);
    assert forall k :: 0 <= k < |texts| ==> Look(texts[k], leading) == Some(final[k]);
    assert forall k :: 0 <= k < |texts| ==> (back[k] == texts[k] <==> !Lossy(texts[k].value, leading));
  }

  lemma {:induction false} FoldedTail(value: Bytes)
    requires value != [] && value[0] != LF
    ensures Folded(value[1..]) <==> Folded(value)
  {
    var tail := value[1..];
    if Folded(value) {
      forall i: nat | i < |tail| && BreakAt(tail, i)
        ensures BlankAt(tail, i + 1)
      {
        assert BreakAt(value, i + 1);
      }
    }
    if Folded(tail) {
      forall i: nat | i < |value| && BreakAt(value, i)
        ensures BlankAt(value, i + 1)
      {
        assert BreakAt(tail, i - 1);
      }
    }
  }

  lemma {:induction false} LookFolded(text: Field, leading: bool)
    requires Look(text, leading).Some?
    ensures var f := Look(text, leading).value;
            f.name == text.name && (Folded(f.value) <==> Folded(text.value))
  {
    if !leading && !StartsWithBreak(text.value) {
      FoldedTail(text.value);
    }
  }

  lemma {:induction false} TextFolded(value: Bytes, leading: bool)
    ensures Folded(Text(value, leading)) <==> Folded(value)
  {
    if !leading && !StartsWithBreak(value) {
      var text := [SP] + value;
      assert text[1..] == value;
      FoldedTail(text);
    }
  }

  /** A header the printer can print so that the parser finds it again. */
  predicate Printable(fs: seq<Field>) {
    forall k :: 0 <= k < |fs| ==> ValidName(fs[k].name) && Folded(fs[k].value)
  }

  lemma {:induction false} PrintableTexts(fs: seq<Field>, leading: bool)
    ensures GoodTexts(ToTexts(fs, leading)) <==> Printable(fs)
  {
    var texts := ToTexts(fs, leading);
    forall k | 0 <= k < |fs|
      ensures GoodText(texts[k]) <==> ValidName(fs[k].name) && Folded(fs[k].value)
    {
      TextFolded(fs[k].value, leading);
    }
  }

  lemma {:induction false} NormalisedPrintable(final: seq<Field>, texts: seq<Field>, leading: bool)
    requires Normalised(final, texts, leading) && GoodTexts(texts)
    ensures Printable(final)
  {
    forall k | 0 <= k < |final|
      ensures ValidName(final[k].name) && Folded(final[k].value)
    {
      assert Look(texts[k], leading) == Some(final[k]);
      assert GoodText(texts[k]);
      LookFolded(texts[k], leading);
    }
  }

  lemma {:induction false} ParsedGood(raw: Bytes, max: nat)
    requires Parse(raw, max).Ok?
    ensures var p := Parse(raw, max).value;
            Laid(raw, p.fields, |raw|) && GoodTexts(TextsOf(raw, p.fields))
  {
    ParseBounds(raw, max);
    ParseTiles(raw, 0, [], max);
    var p := Parse(raw, max).value;
    TiledGood(raw, p.fields, p.headersEnd);
  }

  /** Every header field, and the blank line, ends in CRLF. */
  predicate CrlfBlock(raw: Bytes, p: Parsed) {
    CrlfFields(raw, p.fields, p.headersEnd) && p.bodyStart == p.headersEnd + 2
  }

  lemma {:induction false} BlankLineBytes(raw: Bytes, block: Bytes, h: nat, b: nat, crlf: bool)
    requires h < b <= |raw| && LineBreak(raw, h, b)
    requires if crlf then block == raw[..h] else |block| > h
    ensures block + CRLF + raw[b..] == raw <==> crlf && b == h + 2
  {
    if crlf && b == h + 2 {
      assert raw == raw[..h] + [raw[h], raw[h + 1]] + raw[b..];
    }
    assert |block + CRLF + raw[b..]| == |block| + 2 + |raw| - b;
  }

  lemma {:induction false} ReprintBlock(raw: Bytes, max: nat)
    requires Parse(raw, max).Ok?
    ensures var p := Parse(raw, max).value;
            && Laid(raw, p.fields, |raw|) && p.bodyStart <= |raw|
            && (RenderTexts(TextsOf(raw, p.fields)) + CRLF + raw[p.bodyStart..] == raw <==> CrlfBlock(raw, p))
  {
    var p := Parse(raw, max).value;
    ParseBounds(raw, max);
    ParseTiles(raw, 0, [], max);
    Reprint(raw, p.fields, p.headersEnd);
    BlankLineBytes(raw, RenderTexts(TextsOf(raw, p.fields)), p.headersEnd, p.bodyStart, CrlfFields(raw, p.fields, p.headersEnd));
  }

  /** If the printed result is the replacement itself, no text was altered on the way. */
  lemma {:induction false} SameBytesSameTexts(raw: Bytes, max: nat, final: seq<Field>, leading: bool)
    requires Parse(raw, max).Ok?
    requires var p := Parse(raw, max).value;
             && Laid(raw, p.fields, |raw|) && p.bodyStart <= |raw| && |p.fields| <= max
             && Normalised(final, TextsOf(raw, p.fields), leading)
             && RenderMessage(final, raw[p.bodyStart..], leading) == raw
    ensures ToTexts(final, leading) == TextsOf(raw, Parse(raw, max).value.fields)
  {
    var p := Parse(raw, max).value;
    ParsedGood(raw, max);
    NormalisedPrintable(final, TextsOf(raw, p.fields), leading);
    PrintableTexts(final, leading);
    var q := ParsePrinted(ToTexts(final, leading), raw[p.bodyStart..], max);
  }

  /** Re-rendering the normalised replacement gives the replacement bytes exactly when
      every header line ended in CRLF and no colon space was lost. */
  lemma {:induction false} Rerender(raw: Bytes, max: nat, final: seq<Field>, leading: bool)
    requires Parse(raw, max).Ok?
    requires var p := Parse(raw, max).value;
             && Laid(raw, p.fields, |raw|) && p.bodyStart <= |raw|
             && Normalised(final, TextsOf(raw, p.fields), leading)
    ensures var p := Parse(raw, max).value;
            RenderMessage(final, raw[p.bodyStart..], leading) == raw <==>
            CrlfBlock(raw, p) && Lossless(TextsOf(raw, p.fields), leading)
  {
    var p := Parse(raw, max).value;
    ParseBounds(raw, max);
    TextsKept(final, TextsOf(raw, p.fields), leading);
    ReprintBlock(raw, max);
    if RenderMessage(final, raw[p.bodyStart..], leading) == raw {
      SameBytesSameTexts(raw, max, final, leading);
    }
  }

  // ---- Replacements that do not come back as they were --------------------

  /** A session without headers or body. */
  const BLANK := Target([], [], 100, 1, 10, false)

  /** The blank session accepts the replacement, its script goes on the wire and leaves `final`. */
  predicate Becomes(raw: Bytes, isText: Bytes -> bool, msg: Message, mods: seq<Modification>, final: Message) {
    && Replace(BLANK, EncodedLength(|raw|), Some(raw), isText) == Ok(mods)
    && AllEncodable(mods, false) && Run(msg, mods, false) == Some(final)
  }

  /** A replacement with the single field `A` is accepted by a blank session, goes on the wire
      and is what the MTA ends with. */
  lemma {:induction false} OneFieldReplacement(raw: Bytes, p: Parsed, text: Bytes, isText: Bytes -> bool, msg: Message)
    returns (mods: seq<Modification>, final: Message)
    requires Parse(raw, 1) == Ok(p) && Laid(raw, p.fields, |raw|) && p.bodyStart <= |raw| <= 100
    requires TextsOf(raw, p.fields) == [Field([65], text)] && raw[p.bodyStart..] == []
    requires HeaderValueOk(text) && StartsWith(text, SP) && NulFree(text) && isText([65]) && isText(text)
    requires msg.headers == [] && msg.body == [] && msg.replacement == None
    ensures Becomes(raw, isText, msg, mods, final)
    ensures final.headers == [Field([65], text[1..])]
    ensures final.FinalBody() == []
  {
    var texts := [Field([65], text)];
    assert Keep(BLANK, texts) == [false];
    assert Gone(BLANK, texts) == {};
    mods := [InsertOf(texts, 0)];
    assert Inserts(texts, [false], 1) == [] + mods;
    assert Script(BLANK, texts, []) == mods;
    EncodedFits(|raw|, 100);
    assert AllNulFree([[65], text[1..]]);
    var q;
    q, final := ReplacementCorrect(BLANK, EncodedLength(|raw|), raw, isText, msg);
    assert Look(texts[0], false) == Some(final.headers[0]);
    assert final.headers == [final.headers[0]];
  }

  /** A lost colon space: without leading-space negotiation the replacement
      `A: ` CRLF ` x` CRLF CRLF is accepted and sent, but the result prints as
      `A:` CRLF ` x` CRLF CRLF. */
  lemma {:induction false} LossyExample(isText: Bytes -> bool, msg: Message) returns (mods: seq<Modification>, final: Message)
    requires isText([65]) && isText([SP, CR, LF, SP, 120])
    requires msg.headers == [] && msg.body == [] && msg.replacement == None
    ensures var raw := [65, COLON, SP, CR, LF, SP, 120, CR, LF, CR, LF];
            && Becomes(raw, isText, msg, mods, final)
            && RenderMessage(final.headers, final.FinalBody(), false) == [65, COLON, CR, LF, SP, 120, CR, LF, CR, LF] != raw
  {
    var text: Bytes := [SP, CR, LF, SP, 120];
    var p := LossyParsed();
    LossyText(text);
    mods, final := OneFieldReplacement([65, COLON, SP, CR, LF, SP, 120, CR, LF, CR, LF], p, text, isText, msg);
    LossyPrinted(text);
  }

  lemma {:induction false} LossyPrinted(text: Bytes)
    requires text == [SP, CR, LF, SP, 120]
    ensures RenderMessage([Field([65], text[1..])], [], false) == [65, COLON, CR, LF, SP, 120, CR, LF, CR, LF]
  {
    assert text[1..] == [CR, LF, SP, 120];
    PrintedField(text[1..]);
  }

  lemma {:induction false} LossyText(text: Bytes)
    requires text == [SP, CR, LF, SP, 120]
    ensures HeaderValueOk(text) && NulFree(text)
  {
    assert Folded(text) by {
      assert forall i: nat :: i < |text| && BreakAt(text, i) ==> i == 2;
    }
  }

  lemma {:induction false} LossyParsed() returns (p: Parsed)
    ensures var raw := [65, COLON, SP, CR, LF, SP, 120, CR, LF, CR, LF];
            && Parse(raw, 1) == Ok(p) && Laid(raw, p.fields, |raw|) && p.bodyStart <= |raw|
            && TextsOf(raw, p.fields) == [Field([65], [SP, CR, LF, SP, 120])] && raw[p.bodyStart..] == []
  {
    var f := Field([65], [SP, CR, LF, SP, 120]);
    LossyText(f.value);
    assert RenderTexts([f]) == RenderLine(f) + [];
    assert [65, COLON, SP, CR, LF, SP, 120, CR, LF, CR, LF] == RenderTexts([f]) + CRLF + [];
    p := ParsePrinted([f], [], 1);
  }

  lemma {:induction false} PrintedField(value: Bytes)
    ensures RenderMessage([Field([65], value)], [], false) == [65, COLON] + Text(value, false) + [CR, LF, CR, LF]
  {
    var f := Field([65], Text(value, false));
    assert ToTexts([Field([65], value)], false) == [f];
    assert RenderTexts([f]) == RenderLine(f) + [];
  }

  /** A bare line feed: the replacement `A: x` LF CRLF is accepted and sent, but the result
      prints with CRLF behind the field. */
  lemma {:induction false} BareFeedExample(isText: Bytes -> bool, msg: Message) returns (mods: seq<Modification>, final: Message)
    requires isText([65]) && isText([SP, 120])
    requires msg.headers == [] && msg.body == [] && msg.replacement == None
    ensures var raw := [65, COLON, SP, 120, LF, CR, LF];
            && Becomes(raw, isText, msg, mods, final)
            && RenderMessage(final.headers, final.FinalBody(), false) == [65, COLON, SP, 120, CR, LF, CR, LF] != raw
  {
    var p := BareFeedParsed();
    var text: Bytes := [SP, 120];
    mods, final := OneFieldReplacement([65, COLON, SP, 120, LF, CR, LF], p, text, isText, msg);
    BareFeedPrinted(text);
  }

  lemma {:induction false} BareFeedPrinted(text: Bytes)
    requires text == [SP, 120]
    ensures RenderMessage([Field([65], text[1..])], [], false) == [65, COLON, SP, 120, CR, LF, CR, LF]
  {
    assert text[1..] == [120];
    PrintedField(text[1..]);
  }

  lemma {:induction false} BareFeedParsed() returns (p: Parsed)
    ensures var raw := [65, COLON, SP, 120, LF, CR, LF];
            && Parse(raw, 1) == Ok(p) && Laid(raw, p.fields, |raw|) && p.bodyStart <= |raw|
            && TextsOf(raw, p.fields) == [Field([65], [SP, 120])] && raw[p.bodyStart..] == []
  {
    var raw: Bytes := [65, COLON, SP, 120, LF, CR, LF];
    var fields := [RawField([65], 2, 4)];
    p := Parsed(fields, 5, 7);
    FindIs(raw, 0, LF, 4);
    FindIs(raw, 0, COLON, 1);
    assert raw[0..1] == [65] && [] + fields == fields;
    ParseMore(raw, 0, [], 1, 5, fields);
    BlankLine(raw, 5, fields, 1);
    assert raw[2..4] == [SP, 120];
  }

  // ---- Answering with the printed message ---------------------------------

  lemma {:induction false} LookText(f: Field, leading: bool)
    ensures Look(Field(f.name, Text(f.value, leading)), leading) == Some(f)
  {
    if !leading && !StartsWithBreak(f.value) {
      assert ([SP] + f.value)[1..] == f.value;
    }
  }

  lemma {:induction false} FieldMatches(original: seq<Field>, looks: seq<Option<Field>>, p: nat)
    requires p < |looks| == |original| && looks[p] == Some(original[p])
    requires Cursor(original, looks, p) == p
    ensures MatchAt(original, looks, p) == Some(p) && Cursor(original, looks, p + 1) == p + 1
  {
    assert FirstAt(original, original[p], p) == Some(p);
  }

  lemma {:induction false} CursorFollows(original: seq<Field>, looks: seq<Option<Field>>, p: nat)
    requires p <= |looks| == |original| && forall k :: 0 <= k < |looks| ==> looks[k] == Some(original[k])
    ensures Cursor(original, looks, p) == p
  {
    if p > 0 {
      CursorFollows(original, looks, p - 1);
      FieldMatches(original, looks, p - 1);
    }
  }

  lemma {:induction false} MatchesOwn(original: seq<Field>, looks: seq<Option<Field>>, k: nat)
    requires k < |looks| == |original| && forall k :: 0 <= k < |looks| ==> looks[k] == Some(original[k])
    ensures MatchAt(original, looks, k) == Some(k)
  {
    CursorFollows(original, looks, k);
    FieldMatches(original, looks, k);
  }

  lemma {:induction false} RetainsOwn(original: seq<Field>, looks: seq<Option<Field>>, p: nat, k: nat)
    requires k < p <= |looks| == |original| && forall k :: 0 <= k < |looks| ==> looks[k] == Some(original[k])
    ensures k in Retained(original, looks, p)
  {
    if k == p - 1 {
      MatchesOwn(original, looks, k);
    } else {
      RetainsOwn(original, looks, p - 1, k);
    }
  }

  lemma {:induction false} NoDeletes(gone: set<nat>, k: nat)
    requires gone == {}
    ensures DeleteEdits(gone, k) == []
  {
    if k > 0 {
      NoDeletes(gone, k - 1);
    }
  }

  lemma {:induction false} NoInserts(texts: seq<Field>, keep: seq<bool>, p: nat)
    requires p <= |texts| == |keep| && |texts| < 0x1_0000_0000
    ensures Inserts(texts, keep, p) == [] <==> forall k :: 0 <= k < p ==> keep[k]
  {
    if p > 0 {
      NoInserts(texts, keep, p - 1);
    }
  }

  lemma {:induction false} UnchangedScript(t: Target, texts: seq<Field>)
    requires Addressable(t, texts) && Normalised(t.headers, texts, t.leading)
    ensures Script(t, texts, t.body) == []
    ensures Gone(t, texts) == {} && forall k :: 0 <= k < |texts| ==> Keep(t, texts)[k]
  {
    var looks := Looks(texts, t.leading);
    forall k: nat | k < |texts|
      ensures MatchAt(t.headers, looks, k).Some? && k in Retained(t.headers, looks, |texts|)
    {
      MatchesOwn(t.headers, looks, k);
      RetainsOwn(t.headers, looks, |texts|, k);
    }
    assert Gone(t, texts) == {};
    NoDeletes(Gone(t, texts), |t.headers|);
    NoInserts(texts, Keep(t, texts), |texts|);
  }

  lemma {:induction false} DeletesNone(gone: set<nat>, k: nat, i: nat)
    requires DeleteEdits(gone, k) == [] && i < k
    ensures i !in gone
  {
    DeletesCover(gone, k, i);
  }

  /** An empty script means the replacement fields are the originals. */
  lemma {:induction false} EmptyScript(t: Target, texts: seq<Field>, body: Bytes)
    requires Addressable(t, texts) && Script(t, texts, body) == []
    ensures Normalised(t.headers, texts, t.leading) && body == t.body
  {
    var gone, keep, final := Gone(t, texts), Keep(t, texts), Wanted(texts, t.leading);
    DeletesInRange(gone, |t.headers|);
    assert |Script(t, texts, body)| == |DeleteEdits(gone, |t.headers|)| + |Inserts(texts, keep, |texts|)| + |BodyEdit(t, body)|;
    NoInserts(texts, keep, |texts|);
    forall i: nat | i < |t.headers|
      ensures i !in gone
    {
      DeletesNone(gone, |t.headers|, i);
    }
    KeptAll(t.headers, gone, 0);
    MarkedAll(final, keep, 0);
    SurvivorsAreWanted(t, texts);
    assert t.headers[0..] == t.headers && final[0..] == final;
    forall p | 0 <= p < |texts|
      ensures Look(texts[p], t.leading) == Some(t.headers[p])
    {
      assert keep[p];
      assert Looks(texts, t.leading)[p].Some?;
      assert final[p] == t.headers[p];
    }
  }

  /** A replacement is answered with no modification exactly when it denotes the
      session's own message. */
  lemma {:induction false} NoChange(t: Target, texts: seq<Field>, body: Bytes, isText: Bytes -> bool)
    requires Addressable(t, texts)
    ensures EditTo(t, texts, body, isText) == Ok([]) <==> Normalised(t.headers, texts, t.leading) && body == t.body
  {
    if Normalised(t.headers, texts, t.leading) && body == t.body {
      UnchangedScript(t, texts);
    }
    if EditTo(t, texts, body, isText) == Ok([]) {
      EmptyScript(t, texts, body);
    }
  }

  lemma {:induction false} EncodedFits(n: nat, max: nat)
    requires n <= max
    ensures EncodedLength(n) <= EncodedLength(max)
  {
  }

  /** A parsed replacement within the limits is edited as parsed. */
  lemma {:induction false} ReplaceIsEdit(t: Target, encoded: nat, raw: Bytes, p: Parsed, isText: Bytes -> bool)
    requires Within(t) && encoded <= EncodedLength(t.messageBytes) && |raw| <= t.messageBytes
    requires Parse(raw, t.maxHeaders) == Ok(p)
    ensures Laid(raw, p.fields, |raw|) && |p.fields| <= t.maxHeaders && p.bodyStart <= |raw|
    ensures Replace(t, encoded, Some(raw), isText) == EditTo(t, TextsOf(raw, p.fields), raw[p.bodyStart..], isText)
  {
    ParseBounds(raw, t.maxHeaders);
  }

  lemma {:induction false} EchoKept(t: Target, raw: Bytes, encoded: nat, isText: Bytes -> bool)
    requires Within(t) && raw == RenderMessage(t.headers, t.body, t.leading) && |raw| <= t.messageBytes
    requires encoded <= EncodedLength(t.messageBytes) && Printable(t.headers)
    ensures Replace(t, encoded, Some(raw), isText) == Ok([])
  {
    var texts := ToTexts(t.headers, t.leading);
    PrintableTexts(t.headers, t.leading);
    var p := ParsePrinted(texts, t.body, t.maxHeaders);
    ReplaceIsEdit(t, encoded, raw, p, isText);
    forall k | 0 <= k < |texts|
      ensures Look(texts[k], t.leading) == Some(t.headers[k])
    {
      LookText(t.headers[k], t.leading);
    }
    NoChange(t, texts, t.body, isText);
  }

  lemma {:induction false} UnchangedIsPrintable(t: Target, raw: Bytes, encoded: nat, isText: Bytes -> bool)
    requires Within(t) && Replace(t, encoded, Some(raw), isText) == Ok([])
    ensures Printable(t.headers)
  {
    var p := Parse(raw, t.maxHeaders).value;
    ParsedGood(raw, t.maxHeaders);
    ReplaceIsEdit(t, encoded, raw, p, isText);
    NoChange(t, TextsOf(raw, p.fields), raw[p.bodyStart..], isText);
    NormalisedPrintable(t.headers, TextsOf(raw, p.fields), t.leading);
  }

  /** Printer and parser undo each other: submitting the printed message back passes every
      limit and changes nothing, exactly when all names are printable and colon-free and
      every line feed in a value is followed by a blank. Both leading-space modes. */
  lemma {:induction false} PrintedIsUnchanged(t: Target, raw: Bytes, encoded: nat, isText: Bytes -> bool)
    requires Within(t) && raw == RenderMessage(t.headers, t.body, t.leading) && |raw| <= t.messageBytes
    requires encoded == 4 * ((|raw| + 2) / 3)
    ensures Replace(t, encoded, Some(raw), isText) == Ok([]) <==> Printable(t.headers)
  {
    EncodedFits(|raw|, t.messageBytes);
    if Printable(t.headers) {
      EchoKept(t, raw, encoded, isText);
    }
    if Replace(t, encoded, Some(raw), isText) == Ok([]) {
      UnchangedIsPrintable(t, raw, encoded, isText);
    }
  }

  // ---- One field stays one field ------------------------------------------

  /** The text of a header the scanner asked to add, as the printer shows it. */
  function AddedText(name: Bytes, value: Bytes, leading: bool): Field {
    Field(name, Text(OnWire(value, leading), leading))
  }

  /** In either mode an added header is printed with one space behind the colon, unless it is
      empty or begins with a line break. */
  lemma {:induction false} AddedIsSpaced(name: Bytes, value: Bytes, leading: bool)
    ensures value != [] && !StartsWithBreak(value) ==> AddedText(name, value, leading) == Field(name, [SP] + value)
    ensures value != [] && StartsWithBreak(value) ==>
              AddedText(name, value, leading) == Field(name, if leading then [SP] + value else value)
  {
  }

  lemma {:induction false} AddedGood(name: Bytes, value: Bytes, leading: bool)
    ensures GoodText(AddedText(name, value, leading)) <==> ValidName(name) && Folded(value)
  {
    TextFolded(OnWire(value, leading), leading);
    if leading && value != [] {
      assert ([SP] + value)[1..] == value;
      FoldedTail([SP] + value);
    }
  }

  predicate ParsesTo(raw: Bytes, max: nat, texts: seq<Field>, body: Bytes) {
    match Parse(raw, max)
    case Err(_) => false
    case Ok(p) =>
      && Laid(raw, p.fields, |raw|) && p.bodyStart <= |raw|
      && TextsOf(raw, p.fields) == texts && raw[p.bodyStart..] == body
  }

  /** Inside any well-formed block, an added header is parsed back as exactly one field with
      its own name and value if and only if its name is valid and its value is folded; every
      value `header_value` accepts is. */
  lemma {:induction false} AddedStaysOneField(
    before: seq<Field>, name: Bytes, value: Bytes, after: seq<Field>, body: Bytes, max: nat, leading: bool)
    requires GoodTexts(before) && GoodTexts(after) && |before| + 1 + |after| <= max
    ensures var fs := before + [AddedText(name, value, leading)] + after;
            ParsesTo(RenderTexts(fs) + CRLF + body, max, fs, body) <==> ValidName(name) && Folded(value)
    ensures HeaderValueOk(value) ==> Folded(value)
    ensures Look(AddedText(name, value, leading), leading) == Some(Field(name, OnWire(value, leading)))
  {
    var added := AddedText(name, value, leading);
    var fs := before + [added] + after;
    var raw := RenderTexts(fs) + CRLF + body;
    AddedGood(name, value, leading);
    LookText(Field(name, OnWire(value, leading)), leading);
    if ValidName(name) && Folded(value) {
      assert GoodTexts(fs) by {
        assert forall k :: 0 <= k < |fs| ==> GoodText(fs[k]);
      }
      var p := ParsePrinted(fs, body, max);
    }
    if ParsesTo(raw, max, fs, body) {
      ParsedGood(raw, max);
      assert fs[|before|] == added;
    }
  }
}
