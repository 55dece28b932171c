/** The printer `Session::raw_message` (src/session.rs:243-257) and the header parser
    of `raw_replacement` (src/hooks.rs:1095-1133), and how far each undoes the other. */
module RawMessage {
  import opened Octets
  import opened Modifications
  import opened Mta

  // ---- Printer ------------------------------------------------------------

  /** What stands behind the colon for a field value as received. */
  function Text(value: Bytes, leading: bool): Bytes {
    if leading || StartsWithBreak(value) then value else [SP] + value
  }

  /** The value a replacement field is compared by; none when it lacks the colon space. */
  function Lookup(text: Bytes, leading: bool): Option<Bytes> {
    if leading || StartsWithBreak(text) then Some(text)
    else if StartsWith(text, SP) then Some(text[1..])
    else None
  }

  function RenderLine(f: Field): Bytes {
    f.name + [COLON] + f.value + CRLF
  }

  /** A header block from fields whose values are the texts behind the colon. */
  function RenderTexts(fs: seq<Field>): Bytes {
    if fs == [] then [] else RenderLine(fs[0]) + RenderTexts(fs[1..])
  }

  function ToTexts(fs: seq<Field>, leading: bool): seq<Field> {
    seq(|fs|, k requires 0 <= k < |fs| => Field(fs[k].name, Text(fs[k].value, leading)))
  }

  function RenderMessage(fs: seq<Field>, body: Bytes, leading: bool): Bytes {
    RenderTexts(ToTexts(fs, leading)) + CRLF + body
  }

  lemma {:induction false} RenderAppend(a: seq<Field>, b: seq<Field>)
    ensures RenderTexts(a + b) == RenderTexts(a) + RenderTexts(b)
  {
    if a == [] {
      assert a + b == b;
    } else {
      RenderAppend(a[1..], b);
      assert (a + b)[1..] == a[1..] + b;
      Reassociate(RenderLine(a[0]), RenderTexts(a[1..]), RenderTexts(b));
    }
  }

  lemma {:induction false} RenderSnoc(a: seq<Field>, f: Field)
    ensures RenderTexts(a + [f]) == RenderTexts(a) + RenderLine(f)
  {
    RenderAppend(a, [f]);
    assert RenderTexts([f]) == RenderLine(f) + [];
  }

  /** The printing loop. */
  method PrintMessage(fs: seq<Field>, body: Bytes, leading: bool) returns (raw: Bytes)
    ensures raw == RenderMessage(fs, body, leading)
  {
    raw := [];
    for i := 0 to |fs|
      invariant raw == RenderTexts(ToTexts(fs, leading)[..i])
    {
      var line := fs[i].name + [COLON];
      if !leading && !StartsWithBreak(fs[i].value) {
        line := line + [SP];
      }
      line := line + fs[i].value + CRLF;
      var texts := ToTexts(fs, leading);
      assert line == RenderLine(texts[i]);
      SliceSnoc(texts, i);
      RenderSnoc(texts[..i], texts[i]);
      raw := raw + line;
    }
    assert ToTexts(fs, leading)[..|fs|] == ToTexts(fs, leading);
    raw := raw + CRLF + body;
  }

  // ---- Parser -------------------------------------------------------------

  /** A field by position: its value is `raw[start..stop]`. */
  datatype RawField = RawField(name: Bytes, start: nat, stop: nat)

  /** `headersEnd` is where the blank line starts. */
  datatype Parsed = Parsed(fields: seq<RawField>, headersEnd: nat, bodyStart: nat)

  predicate Laid(raw: Bytes, fields: seq<RawField>, offset: nat) {
    && offset <= |raw|
    && forall k :: 0 <= k < |fields| ==> fields[k].start <= fields[k].stop <= offset
  }

  /** Line content ends before the break, be it CRLF or a bare LF. */
  function ContentEnd(raw: Bytes, offset: nat, end: nat): (stop: nat)
    requires offset <= end < |raw|
    ensures offset <= stop <= end
  {
    if end > offset && raw[end - 1] == CR then end - 1 else end
  }

  function Extend(fields: seq<RawField>, stop: nat): seq<RawField>
    requires fields != []
  {
    fields[|fields| - 1 := fields[|fields| - 1].(stop := stop)]
  }

  datatype Line = Fail(error: Error) | Done(parsed: Parsed) | More(offset: nat, fields: seq<RawField>)

  /** What the parser does with the line at `offset`. */
  function ParseLine(raw: Bytes, offset: nat, fields: seq<RawField>, maxFields: nat): (r: Line)
    requires offset <= |raw|
    ensures r.More? ==> offset < r.offset <= |raw|
    ensures r.Done? ==> r.parsed.fields == fields && r.parsed.headersEnd == offset < r.parsed.bodyStart <= |raw|
  {
    match Find(raw, offset, LF)
    case None => Fail(Invalid)
    case Some(end) =>
      var stop := ContentEnd(raw, offset, end);
      if stop == offset then Done(Parsed(fields, offset, end + 1))
      else if IsBlank(raw[offset]) then
        if fields == [] then Fail(Invalid) else More(end + 1, Extend(fields, stop))
      else
        match Find(raw, offset, COLON)
        case None => Fail(Invalid)
        case Some(colon) =>
          if colon >= stop || !ValidName(raw[offset..colon]) then Fail(Invalid)
          else if |fields| >= maxFields then Fail(Limit)
          else More(end + 1, fields + [RawField(raw[offset..colon], colon + 1, stop)])
  }

  function ParseFrom(raw: Bytes, offset: nat, fields: seq<RawField>, maxFields: nat): (r: Result<Parsed>)
    requires offset <= |raw|
    ensures r.Ok? ==> offset <= r.value.headersEnd < r.value.bodyStart <= |raw|
    decreases |raw| - offset
  {
    match ParseLine(raw, offset, fields, maxFields)
    case Fail(e) => Err(e)
    case Done(parsed) => Ok(parsed)
    case More(next, more) => ParseFrom(raw, next, more, maxFields)
  }

  /** The outcome of parsing on from a given state; equations between states are stated with it. */
  function ParseRest(raw: Bytes, offset: nat, fields: seq<RawField>, maxFields: nat): Result<Parsed>
    requires offset <= |raw|
  {
    ParseFrom(raw, offset, fields, maxFields)
  }

  function Parse(raw: Bytes, maxFields: nat): Result<Parsed> {
    ParseFrom(raw, 0, [], maxFields)
  }

  /** One turn of the parsing loop. */
  method ReadLine(raw: Bytes, offset: nat, fields: seq<RawField>, maxFields: nat) returns (r: Line)
    requires offset <= |raw|
    ensures r == ParseLine(raw, offset, fields, maxFields)
  {
    var line := Find(raw, offset, LF);
    if line.None? {
      return Fail(Invalid);
    }
    var end := line.value;
    var stop := ContentEnd(raw, offset, end);
    if stop == offset {
      return Done(Parsed(fields, offset, end + 1));
    }
    if IsBlank(raw[offset]) {
      if fields == [] {
        return Fail(Invalid);
      }
      return More(end + 1, Extend(fields, stop));
    }
    var colon := Find(raw, offset, COLON);
    if colon.None? || colon.value >= stop || !ValidName(raw[offset..colon.value]) {
      return Fail(Invalid);
    }
    if |fields| >= maxFields {
      return Fail(Limit);
    }
    r := More(end + 1, fields + [RawField(raw[offset..colon.value], colon.value + 1, stop)]);
  }

  /** The parsing loop over `offset` and `fields`. */
  method ParseHeaders(raw: Bytes, maxFields: nat) returns (r: Result<Parsed>)
    ensures r == Parse(raw, maxFields)
  {
    var fields: seq<RawField> := [];
    var offset := 0;
    while true
      invariant offset <= |raw|
      invariant Parse(raw, maxFields) == ParseFrom(raw, offset, fields, maxFields)
      decreases |raw| - offset
    {
      var line := ReadLine(raw, offset, fields, maxFields);
      match line
      case Fail(e) => return Err(e);
      case Done(parsed) => return Ok(parsed);
      case More(next, more) => offset, fields := next, more;
    }
  }

  function TextOf(raw: Bytes, f: RawField): Field
    requires f.start <= f.stop <= |raw|
  {
    Field(f.name, raw[f.start..f.stop])
  }

  function TextsOf(raw: Bytes, fields: seq<RawField>): seq<Field>
    requires Laid(raw, fields, |raw|)
  {
    seq(|fields|, k requires 0 <= k < |fields| => TextOf(raw, fields[k]))
  }

  lemma {:induction false} ParseLaid(raw: Bytes, o: nat, fields: seq<RawField>, maxFields: nat)
    requires Laid(raw, fields, o) && ParseFrom(raw, o, fields, maxFields).Ok?
    ensures var p := ParseFrom(raw, o, fields, maxFields).value; Laid(raw, p.fields, p.headersEnd)
    decreases |raw| - o
  {
    var line := ParseLine(raw, o, fields, maxFields);
    if line.More? {
      ParseLaid(raw, line.offset, line.fields, maxFields);
    }
  }

  // ---- The parser reads back what the printer wrote -----------------------

  /** Every line feed in `raw[from..to]` is followed by a blank before `to`. */
  predicate FoldedIn(raw: Bytes, from: nat, to: nat) {
    && to <= |raw|
    && forall i: nat {:trigger BreakAt(raw, i)} :: from <= i < to && BreakAt(raw, i) ==> i + 1 < to && BlankAt(raw, i + 1)
  }

  predicate CrlfAt(raw: Bytes, e: nat) {
    e + 1 < |raw| && raw[e] == CR && raw[e + 1] == LF
  }

  /** The break between `stop` and `next` is CRLF or a bare LF. */
  predicate LineBreak(raw: Bytes, stop: nat, next: nat) {
    && stop < next <= |raw| && raw[next - 1] == LF
    && (next == stop + 1 || (next == stop + 2 && raw[stop] == CR))
  }

  /** And the carriage return belongs to the break. */
  predicate FieldBreak(raw: Bytes, stop: nat, next: nat) {
    LineBreak(raw, stop, next) && (next == stop + 1 ==> stop > 0 && raw[stop - 1] != CR)
  }

  lemma {:induction false} ExtendTwice(fields: seq<RawField>, a: nat, b: nat)
    requires fields != []
    ensures Extend(Extend(fields, a), b) == Extend(fields, b)
  {
  }

  lemma {:induction false} ExtendLast(fields: seq<RawField>, f: RawField, stop: nat)
    ensures Extend(fields + [f], stop) == fields + [f.(stop := stop)]
  {
  }

  lemma {:induction false} ParseMore(
    raw: Bytes, o: nat, fields: seq<RawField>, maxFields: nat, next: nat, more: seq<RawField>)
    requires o <= |raw| && ParseLine(raw, o, fields, maxFields) == More(next, more)
    ensures ParseRest(raw, o, fields, maxFields) == ParseRest(raw, next, more, maxFields)
  {
  }

  /** One continuation line: either more of the value follows, or it ends at `e`. */
  lemma {:induction false} ContinueLine(raw: Bytes, o: nat, fields: seq<RawField>, e: nat, next: nat, maxFields: nat)
    returns (end: nat, stop: nat)
    requires fields != []
    requires o < e && FieldBreak(raw, e, next) && FoldedIn(raw, o, e) && IsBlank(raw[o])
    ensures o < stop <= end < |raw|
    ensures ParseLine(raw, o, fields, maxFields) == More(end + 1, Extend(fields, stop))
    ensures (end + 1 < e && IsBlank(raw[end + 1])) || (end + 1 == next && stop == e)
  {
    end := Find(raw, o, LF).value;
    stop := ContentEnd(raw, o, end);
    assert BreakAt(raw, end);
  }

  /** The parser consumes the continuation lines of a folded value up to its end. */
  lemma {:induction false} ContinueField(raw: Bytes, o: nat, fields: seq<RawField>, e: nat, next: nat, maxFields: nat)
    requires fields != []
    requires o < e && FieldBreak(raw, e, next) && FoldedIn(raw, o, e) && IsBlank(raw[o])
    ensures ParseRest(raw, o, fields, maxFields) == ParseRest(raw, next, Extend(fields, e), maxFields)
    decreases e - o
  {
    var end, stop := ContinueLine(raw, o, fields, e, next, maxFields);
    ParseMore(raw, o, fields, maxFields, end + 1, Extend(fields, stop));
    if end < e && end + 1 != next {
      ExtendTwice(fields, stop, e);
      ContinueField(raw, end + 1, Extend(fields, stop), e, next, maxFields);
    }
  }

  /** The first line of a field. */
  lemma {:induction false} FirstLine(
    raw: Bytes, o: nat, fields: seq<RawField>, name: Bytes, e: nat, next: nat, maxFields: nat)
    returns (end: nat, stop: nat)
    requires |fields| < maxFields && ValidName(name)
    requires o + |name| < e && FieldBreak(raw, e, next) && raw[o..o + |name|] == name && raw[o + |name|] == COLON
    requires FoldedIn(raw, o + |name| + 1, e)
    ensures o + |name| < stop <= end < |raw|
    ensures ParseLine(raw, o, fields, maxFields) == More(end + 1, fields + [RawField(name, o + |name| + 1, stop)])
    ensures (end + 1 < e && IsBlank(raw[end + 1])) || (end + 1 == next && stop == e)
  {
    var start := o + |name| + 1;
    forall i | o <= i < start - 1
      ensures raw[i] != LF && raw[i] != COLON && !IsBlank(raw[i])
    {
      assert raw[i] == name[i - o];
    }
    end := Find(raw, o, LF).value;
    stop := ContentEnd(raw, o, end);
    assert BreakAt(raw, end);
    FindIs(raw, o, COLON, start - 1);
  }

  /** One field is parsed as that field. */
  lemma {:induction false} ParseField(
    raw: Bytes, o: nat, fields: seq<RawField>, name: Bytes, start: nat, e: nat, next: nat, maxFields: nat)
    requires |fields| < maxFields && ValidName(name)
    requires start == o + |name| + 1 <= e && FieldBreak(raw, e, next)
    requires raw[o..o + |name|] == name && raw[o + |name|] == COLON && FoldedIn(raw, start, e)
    ensures ParseRest(raw, o, fields, maxFields) ==
            ParseRest(raw, next, fields + [RawField(name, start, e)], maxFields)
  {
    var end, stop := FirstLine(raw, o, fields, name, e, next, maxFields);
    var more := fields + [RawField(name, start, stop)];
    ParseMore(raw, o, fields, maxFields, end + 1, more);
    if end + 1 != next {
      ContinueField(raw, end + 1, more, e, next, maxFields);
      ExtendLast(fields, RawField(name, start, stop), e);
    }
  }

  predicate GoodText(f: Field) {
    ValidName(f.name) && Folded(f.value)
  }

  predicate GoodTexts(fs: seq<Field>) {
    forall k :: 0 <= k < |fs| ==> GoodText(fs[k])
  }

  lemma {:induction false} FoldedInPlace(raw: Bytes, start: nat, e: nat, value: Bytes)
    requires start <= e <= |raw| && raw[start..e] == value && Folded(value)
    ensures FoldedIn(raw, start, e)
  {
    forall i: nat | start <= i < e && BreakAt(raw, i)
      ensures i + 1 < e && BlankAt(raw, i + 1)
    {
      assert raw[i] == value[i - start];
      assert BreakAt(value, i - start);
      assert BlankAt(value, i - start + 1);
      assert raw[i + 1] == value[i + 1 - start];
    }
  }

  lemma {:induction false} BlankLine(raw: Bytes, o: nat, fields: seq<RawField>, maxFields: nat)
    requires CrlfAt(raw, o)
    ensures ParseRest(raw, o, fields, maxFields) == Ok(Parsed(fields, o, o + 2))
  {
    FindIs(raw, o, LF, o + 1);
  }

  lemma {:induction false} TextsSnoc(raw: Bytes, fields: seq<RawField>, f: RawField)
    requires Laid(raw, fields, |raw|) && f.start <= f.stop <= |raw|
    ensures Laid(raw, fields + [f], |raw|)
    ensures TextsOf(raw, fields + [f]) == TextsOf(raw, fields) + [TextOf(raw, f)]
  {
  }

  /** `all` is the outcome of parsing the printed fields `fs` from `o` on. */
  predicate BlockParsed(raw: Bytes, o: nat, fields: seq<RawField>, fs: seq<Field>, body: Bytes, all: seq<RawField>, maxFields: nat) {
    && (var h := o + |RenderTexts(fs)|;
        && h + 2 <= |raw| && raw[h + 2..] == body
        && ParseRest(raw, o, fields, maxFields) == Ok(Parsed(all, h, h + 2)))
    && Laid(raw, fields, |raw|) && Laid(raw, all, |raw|)
    && TextsOf(raw, all) == TextsOf(raw, fields) + fs
  }

  lemma {:induction false} BlockEnd(raw: Bytes, o: nat, fields: seq<RawField>, body: Bytes, maxFields: nat)
    requires Laid(raw, fields, o) && raw[o..] == CRLF + body
    ensures BlockParsed(raw, o, fields, [], body, fields, maxFields)
  {
    assert raw[o] == raw[o..][0] && raw[o + 1] == raw[o..][1];
    BlankLine(raw, o, fields, maxFields);
    assert raw[o + 2..] == raw[o..][2..] == body;
  }

  /** The parser has consumed `f`: it continues at `next` with one field more. */
  predicate Consumed(raw: Bytes, o: nat, fields: seq<RawField>, f: Field, next: nat, more: seq<RawField>, maxFields: nat) {
    && o <= next <= |raw| && next == o + |RenderLine(f)|
    && ParseRest(raw, o, fields, maxFields) == ParseRest(raw, next, more, maxFields)
    && Laid(raw, fields, |raw|) && Laid(raw, more, next) && Laid(raw, more, |raw|)
    && |more| == |fields| + 1
    && TextsOf(raw, more) == TextsOf(raw, fields) + [f]
  }

  /** The field `f` occupies `raw[o..e]` and ends in CRLF. */
  predicate Placed(raw: Bytes, o: nat, f: Field, start: nat, e: nat) {
    && start == o + |f.name| + 1 <= e && CrlfAt(raw, e)
    && raw[o..o + |f.name|] == f.name && raw[o + |f.name|] == COLON
    && raw[start..e] == f.value
  }

  /** Where the parts of a printed line stand in the message. */
  lemma {:induction false} LinePositions(raw: Bytes, o: nat, f: Field, rest: Bytes) returns (start: nat, e: nat)
    requires o <= |raw| && raw[o..] == RenderLine(f) + rest
    ensures Placed(raw, o, f, start, e)
    ensures e + 2 == o + |RenderLine(f)| && raw[e + 2..] == rest
  {
    var line := RenderLine(f);
    var n, m := |f.name|, |f.value|;
    start, e := o + n + 1, o + n + 1 + m;
    assert |line| == n + 1 + m + 2 && |raw| == o + |line| + |rest|;
    assert line[..n] == f.name && line[n] == COLON && line[n + 1..n + 1 + m] == f.value;
    assert line[n + 1 + m] == CR && line[n + 2 + m] == LF;
    assert forall i :: 0 <= i < |line| ==> raw[o + i] == (line + rest)[i] == line[i];
    assert raw[o + |line|..] == raw[o..][|line|..] == rest;
  }

  lemma {:induction false} PlacedParses(
    raw: Bytes, o: nat, fields: seq<RawField>, f: Field, start: nat, e: nat, maxFields: nat)
    requires Placed(raw, o, f, start, e) && GoodText(f) && |fields| < maxFields
    ensures ParseRest(raw, o, fields, maxFields) ==
            ParseRest(raw, e + 2, fields + [RawField(f.name, start, e)], maxFields)
  {
    FoldedInPlace(raw, start, e, f.value);
    ParseField(raw, o, fields, f.name, start, e, e + 2, maxFields);
  }

  lemma {:induction false} PlacedText(raw: Bytes, o: nat, fields: seq<RawField>, f: Field, start: nat, e: nat)
    requires Laid(raw, fields, o) && Placed(raw, o, f, start, e)
    ensures var more := fields + [RawField(f.name, start, e)];
            && Laid(raw, fields, |raw|) && Laid(raw, more, e + 2) && Laid(raw, more, |raw|)
            && TextsOf(raw, more) == TextsOf(raw, fields) + [f]
  {
    TextsSnoc(raw, fields, RawField(f.name, start, e));
  }

  lemma {:induction false} PlacedConsumed(
    raw: Bytes, o: nat, fields: seq<RawField>, f: Field, start: nat, e: nat, maxFields: nat)
    requires Laid(raw, fields, o) && Placed(raw, o, f, start, e) && GoodText(f) && |fields| < maxFields
    requires e + 2 == o + |RenderLine(f)|
    ensures Consumed(raw, o, fields, f, e + 2, fields + [RawField(f.name, start, e)], maxFields)
  {
    PlacedParses(raw, o, fields, f, start, e, maxFields);
    PlacedText(raw, o, fields, f, start, e);
  }

  lemma {:induction false} BlockJoins(
    raw: Bytes, o: nat, fields: seq<RawField>, fs: seq<Field>, body: Bytes,
    next: nat, more: seq<RawField>, all: seq<RawField>, maxFields: nat)
    requires fs != [] && Consumed(raw, o, fields, fs[0], next, more, maxFields)
    requires BlockParsed(raw, next, more, fs[1..], body, all, maxFields)
    ensures BlockParsed(raw, o, fields, fs, body, all, maxFields)
  {
    var h := next + |RenderTexts(fs[1..])|;
    assert h == o + |RenderTexts(fs)| by {
      assert RenderTexts(fs) == RenderLine(fs[0]) + RenderTexts(fs[1..]);
    }
    assert TextsOf(raw, all) == TextsOf(raw, fields) + fs by {
      Reassociate(TextsOf(raw, fields), [fs[0]], fs[1..]);
      assert [fs[0]] + fs[1..] == fs;
    }
  }

  lemma {:induction false} BlockShape(fs: seq<Field>, body: Bytes)
    requires fs != []
    ensures RenderTexts(fs) + CRLF + body == RenderLine(fs[0]) + (RenderTexts(fs[1..]) + CRLF + body)
  {
    Regroup(RenderLine(fs[0]), RenderTexts(fs[1..]), CRLF, body);
  }

  /** A printed header block parses to its fields, wherever it starts and whatever the body is. */
  lemma {:induction false} ParseBlock(
    raw: Bytes, o: nat, fields: seq<RawField>, fs: seq<Field>, body: Bytes, maxFields: nat)
    returns (all: seq<RawField>)
    requires Laid(raw, fields, o) && raw[o..] == RenderTexts(fs) + CRLF + body
    requires GoodTexts(fs) && |fields| + |fs| <= maxFields
    ensures BlockParsed(raw, o, fields, fs, body, all, maxFields)
    decreases |fs|
  {
    if fs == [] {
      assert RenderTexts(fs) + CRLF + body == CRLF + body;
      BlockEnd(raw, o, fields, body, maxFields);
      all := fields;
    } else {
      BlockShape(fs, body);
      assert GoodText(fs[0]) && GoodTexts(fs[1..]);
      var start, e := LinePositions(raw, o, fs[0], RenderTexts(fs[1..]) + CRLF + body);
      var next, more := e + 2, fields + [RawField(fs[0].name, start, e)];
      PlacedConsumed(raw, o, fields, fs[0], start, e, maxFields);
      all := ParseBlock(raw, next, more, fs[1..], body, maxFields);
      BlockJoins(raw, o, fields, fs, body, next, more, all, maxFields);
    }
  }

  lemma {:induction false} Regroup(a: Bytes, b: Bytes, c: Bytes, d: Bytes)
    ensures a + b + c + d == a + (b + c + d)
  {
  }

  /** Parsing what was printed returns the fields, in either leading-space mode. */
  lemma {:induction false} ParsePrinted(fs: seq<Field>, body: Bytes, maxFields: nat) returns (p: Parsed)
    requires GoodTexts(fs) && |fs| <= maxFields
    ensures var raw := RenderTexts(fs) + CRLF + body;
            && Parse(raw, maxFields) == Ok(p)
            && Laid(raw, p.fields, |raw|) && TextsOf(raw, p.fields) == fs
            && p.bodyStart <= |raw| && raw[p.bodyStart..] == body
  {
    var raw := RenderTexts(fs) + CRLF + body;
    assert raw[0..] == raw;
    var all := ParseBlock(raw, 0, [], fs, body, maxFields);
    var h := |RenderTexts(fs)|;
    p := Parsed(all, h, h + 2);
    assert TextsOf(raw, []) + fs == fs;
  }

  // ---- What a successful parse says about the bytes -----------------------

  function LineStart(f: RawField): int {
    f.start - 1 - |f.name|
  }

  /** One field fills the bytes from its line start to its final break. */
  predicate Occupies(raw: Bytes, f: RawField, next: nat) {
    && 0 <= LineStart(f) && f.start <= f.stop && FieldBreak(raw, f.stop, next)
    && raw[LineStart(f)..f.start - 1] == f.name && raw[f.start - 1] == COLON
    && ValidName(f.name) && FoldedIn(raw, f.start, f.stop)
  }

  /** The fields tile `raw[..o]`. */
  predicate Tiled(raw: Bytes, fields: seq<RawField>, o: nat) {
    if fields == [] then o == 0
    else
      var f := fields[|fields| - 1];
      Occupies(raw, f, o) && Tiled(raw, fields[..|fields| - 1], LineStart(f))
  }

  /** A continuation line prolongs the last field. */
  lemma {:induction false} ContinuationTiles(raw: Bytes, o: nat, fields: seq<RawField>, end: nat, stop: nat)
    requires o <= |raw| && fields != [] && Tiled(raw, fields, o)
    requires Find(raw, o, LF) == Some(end) && stop == ContentEnd(raw, o, end) && stop > o && IsBlank(raw[o])
    ensures Tiled(raw, Extend(fields, stop), end + 1)
  {
    var last := |fields| - 1;
    var f := fields[last];
    assert Extend(fields, stop)[..last] == fields[..last];
    forall i: nat | f.start <= i < stop && BreakAt(raw, i)
      ensures i + 1 < stop && BlankAt(raw, i + 1)
    {
    }
  }

  lemma {:induction false} FieldTiles(raw: Bytes, o: nat, fields: seq<RawField>, end: nat, stop: nat, colon: nat)
    requires o <= |raw| && Tiled(raw, fields, o)
    requires Find(raw, o, LF) == Some(end) && stop == ContentEnd(raw, o, end)
    requires Find(raw, o, COLON) == Some(colon) && colon < stop && ValidName(raw[o..colon])
    ensures Tiled(raw, fields + [RawField(raw[o..colon], colon + 1, stop)], end + 1)
  {
    var f := RawField(raw[o..colon], colon + 1, stop);
    assert (fields + [f])[..|fields|] == fields;
  }

  /** The two kinds of line behind which the header block goes on. */
  lemma {:induction false} MoreIs(raw: Bytes, o: nat, fields: seq<RawField>, maxFields: nat, next: nat, more: seq<RawField>)
    returns (end: nat, stop: nat, colon: nat)
    requires o <= |raw| && ParseLine(raw, o, fields, maxFields) == More(next, more)
    ensures Find(raw, o, LF) == Some(end) && stop == ContentEnd(raw, o, end) && stop > o && next == end + 1
    ensures if IsBlank(raw[o]) then fields != [] && more == Extend(fields, stop)
            else && Find(raw, o, COLON) == Some(colon) && colon < stop && ValidName(raw[o..colon])
                 && more == fields + [RawField(raw[o..colon], colon + 1, stop)]
  {
    end := Find(raw, o, LF).value;
    stop := ContentEnd(raw, o, end);
    colon := if IsBlank(raw[o]) then 0 else Find(raw, o, COLON).value;
  }

  lemma {:induction false} MoreTiles(raw: Bytes, o: nat, fields: seq<RawField>, maxFields: nat, next: nat, more: seq<RawField>)
    requires o <= |raw| && Tiled(raw, fields, o) && ParseLine(raw, o, fields, maxFields) == More(next, more)
    ensures Tiled(raw, more, next)
  {
    var end, stop, colon := MoreIs(raw, o, fields, maxFields, next, more);
    if IsBlank(raw[o]) {
      ContinuationTiles(raw, o, fields, end, stop);
    } else {
      FieldTiles(raw, o, fields, end, stop, colon);
    }
  }

  lemma {:induction false} ParseTiles(raw: Bytes, o: nat, fields: seq<RawField>, maxFields: nat)
    requires o <= |raw| && Tiled(raw, fields, o) && ParseFrom(raw, o, fields, maxFields).Ok?
    ensures var p := ParseFrom(raw, o, fields, maxFields).value;
            Tiled(raw, p.fields, p.headersEnd) && LineBreak(raw, p.headersEnd, p.bodyStart)
    decreases |raw| - o
  {
    var line := ParseLine(raw, o, fields, maxFields);
    if line.More? {
      MoreTiles(raw, o, fields, maxFields, line.offset, line.fields);
      ParseTiles(raw, line.offset, line.fields, maxFields);
    }
  }

  /** Fields that tile the front of the message are parsed as those fields. */
  lemma {:induction false} TiledParses(raw: Bytes, fields: seq<RawField>, o: nat, maxFields: nat)
    requires o <= |raw| && Tiled(raw, fields, o) && |fields| <= maxFields
    ensures ParseRest(raw, 0, [], maxFields) == ParseRest(raw, o, fields, maxFields)
  {
    if fields != [] {
      var front, f := fields[..|fields| - 1], fields[|fields| - 1];
      TiledParses(raw, front, LineStart(f), maxFields);
      OccupiedParses(raw, front, f, o, maxFields);
      assert fields == front + [f];
    }
  }

  lemma {:induction false} OccupiedParses(raw: Bytes, fields: seq<RawField>, f: RawField, next: nat, maxFields: nat)
    requires Occupies(raw, f, next) && |fields| < maxFields
    ensures ParseRest(raw, LineStart(f), fields, maxFields) == ParseRest(raw, next, fields + [f], maxFields)
  {
    ParseField(raw, LineStart(f), fields, f.name, f.start, f.stop, next, maxFields);
  }

  lemma {:induction false} BlankParses(raw: Bytes, h: nat, b: nat, fields: seq<RawField>, maxFields: nat)
    requires LineBreak(raw, h, b)
    ensures ParseRest(raw, h, fields, maxFields) == Ok(Parsed(fields, h, b))
  {
    FindIs(raw, h, LF, b - 1);
  }

  lemma {:induction false} ParseCount(raw: Bytes, o: nat, fields: seq<RawField>, max: nat)
    requires o <= |raw| && |fields| <= max && ParseFrom(raw, o, fields, max).Ok?
    ensures |ParseFrom(raw, o, fields, max).value.fields| <= max
    decreases |raw| - o
  {
    var line := ParseLine(raw, o, fields, max);
    if line.More? {
      ParseCount(raw, line.offset, line.fields, max);
    }
  }

  /** What the parser accepts, and as what: exactly the messages that are tiled by at most so many
      fields, each a valid name, a colon, a folded value and a break, up to a blank line. */
  lemma {:induction false} ParsesExactly(raw: Bytes, p: Parsed, maxFields: nat)
    ensures Parse(raw, maxFields) == Ok(p) <==>
            p.headersEnd <= |raw| && Tiled(raw, p.fields, p.headersEnd) && |p.fields| <= maxFields
            && LineBreak(raw, p.headersEnd, p.bodyStart)
  {
    if Parse(raw, maxFields) == Ok(p) {
      ParseTiles(raw, 0, [], maxFields);
      ParseCount(raw, 0, [], maxFields);
    }
    if p.headersEnd <= |raw| && Tiled(raw, p.fields, p.headersEnd) && |p.fields| <= maxFields
       && LineBreak(raw, p.headersEnd, p.bodyStart) {
      TiledParses(raw, p.fields, p.headersEnd, maxFields);
      BlankParses(raw, p.headersEnd, p.bodyStart, p.fields, maxFields);
    }
  }

  lemma {:induction false} TiledLaid(raw: Bytes, fields: seq<RawField>, o: nat)
    requires Tiled(raw, fields, o) && o <= |raw|
    ensures Laid(raw, fields, o)
  {
    if fields != [] {
      var last := |fields| - 1;
      TiledLaid(raw, fields[..last], LineStart(fields[last]));
      assert fields == fields[..last] + [fields[last]];
    }
  }

  lemma {:induction false} TiledGood(raw: Bytes, fields: seq<RawField>, o: nat)
    requires Tiled(raw, fields, o) && o <= |raw| && Laid(raw, fields, |raw|)
    ensures GoodTexts(TextsOf(raw, fields))
  {
    if fields != [] {
      var last := |fields| - 1;
      var f := fields[last];
      TiledLaid(raw, fields[..last], LineStart(f));
      TiledGood(raw, fields[..last], LineStart(f));
      assert fields == fields[..last] + [f];
      TextsSnoc(raw, fields[..last], f);
      var value := raw[f.start..f.stop];
      forall i: nat | i < |value| && BreakAt(value, i)
        ensures BlankAt(value, i + 1)
      {
        assert BreakAt(raw, f.start + i);
        assert BlankAt(raw, f.start + i + 1);
      }
    }
  }

  /** Every field ends in CRLF rather than a bare LF. */
  predicate CrlfFields(raw: Bytes, fields: seq<RawField>, o: nat) {
    fields == [] ||
    (var f := fields[|fields| - 1];
     o == f.stop + 2 && 0 <= LineStart(f) && CrlfFields(raw, fields[..|fields| - 1], LineStart(f)))
  }

  /** One field more: the block grows by at least what the field occupies. */
  lemma {:induction false} ReprintSnoc(raw: Bytes, front: seq<RawField>, f: RawField, o: nat)
    requires Occupies(raw, f, o) && Laid(raw, front, |raw|)
    ensures Laid(raw, front + [f], |raw|)
    ensures RenderTexts(TextsOf(raw, front + [f])) == RenderTexts(TextsOf(raw, front)) + RenderLine(TextOf(raw, f))
  {
    TextsSnoc(raw, front, f);
    RenderSnoc(TextsOf(raw, front), TextOf(raw, f));
  }

  /** How a printed block compares with the bytes it was parsed from. */
  predicate Compares(raw: Bytes, block: Bytes, o: nat, crlf: bool)
    requires o <= |raw|
  {
    if crlf then block == raw[..o] else |block| > o
  }

  lemma {:induction false} ComparesSnoc(raw: Bytes, block: Bytes, f: RawField, o: nat, crlf: bool)
    requires Occupies(raw, f, o) && Compares(raw, block, LineStart(f), crlf)
    ensures Compares(raw, block + RenderLine(TextOf(raw, f)), o, crlf && o == f.stop + 2)
  {
    ReprintLine(raw, f, o);
  }

  /** Printing parsed fields reproduces the block exactly when every field ended in CRLF, and
      lengthens it otherwise. */
  lemma {:induction false} Reprint(raw: Bytes, fields: seq<RawField>, o: nat)
    requires Tiled(raw, fields, o) && o <= |raw| && Laid(raw, fields, |raw|)
    ensures Compares(raw, RenderTexts(TextsOf(raw, fields)), o, CrlfFields(raw, fields, o))
  {
    if fields != [] {
      var last := |fields| - 1;
      var f := fields[last];
      var front, b := fields[..last], LineStart(f);
      TiledLaid(raw, front, b);
      Reprint(raw, front, b);
      assert fields == front + [f];
      ReprintSnoc(raw, front, f, o);
      ComparesSnoc(raw, RenderTexts(TextsOf(raw, front)), f, o, CrlfFields(raw, front, b));
    } else {
      assert raw[..0] == [];
    }
  }

  lemma {:induction false} ReprintLine(raw: Bytes, f: RawField, o: nat)
    requires Occupies(raw, f, o)
    ensures |RenderLine(TextOf(raw, f))| == f.stop + 2 - LineStart(f)
    ensures o == f.stop + 2 ==> raw[..LineStart(f)] + RenderLine(TextOf(raw, f)) == raw[..o]
  {
    if o == f.stop + 2 {
      var b := LineStart(f);
      assert raw[..o] == raw[..b] + raw[b..f.start - 1] + [raw[f.start - 1]] + raw[f.start..f.stop] + [raw[f.stop], raw[f.stop + 1]];
    }
  }
}
