/** The verdict part of a scanner's answer: the last action and the SMTP response assembled from
    the set list (src/hooks.rs:1205-1242, 1268-1316). */
module Rulings {
  import opened Octets
  import opened Protocol

  /** JSON values as far as they matter here. */
  datatype Scalar = NullValue | TextValue(text: Bytes) | NumberValue(number: nat) | OtherValue

  /** The response so far: absent, an object, or something that is not an object. */
  datatype Response =
    | Absent
    | Object(code: Option<Scalar>, enhanced: Option<Scalar>, text: Option<Scalar>)
    | NotObject

  datatype RulingOp =
    | SetAction(value: Scalar)
    | SetResponse(response: Response)
    | SetCode(value: Scalar)
    | SetEnhanced(value: Scalar)
    | SetText(value: Scalar)

  datatype Said = Said(action: Bytes, response: Response)

  const ACCEPT: Bytes := [97, 99, 99, 101, 112, 116]  // "accept"
  const REJECT: Bytes := [114, 101, 106, 101, 99, 116]  // "reject"
  const DISCARD: Bytes := [100, 105, 115, 99, 97, 114, 100]  // "discard"
  const QUARANTINE: Bytes := [113, 117, 97, 114, 97, 110, 116, 105, 110, 101]  // "quarantine"
  const DISCONNECT: Bytes := [100, 105, 115, 99, 111, 110, 110, 101, 99, 116]  // "disconnect"
  const REJECTED: Bytes :=
    [82, 101, 106, 101, 99, 116, 101, 100, 32, 98, 121, 32, 112, 111, 108, 105, 99, 121]  // "Rejected by policy"

  const UNSAID := Said(ACCEPT, Absent)

  function Hear(s: Said, op: RulingOp): Result<Said> {
    if op.SetAction? then
      if op.value.TextValue? then Ok(s.(action := op.value.text)) else Err(Invalid)
    else if op.SetResponse? then Ok(s.(response := op.response))
    else
      var now := if s.response.Absent? then Object(None, None, None) else s.response;
      if now.NotObject? then Err(Invalid)
      else Ok(s.(response :=
                   if op.SetCode? then now.(code := Some(op.value))
                   else if op.SetEnhanced? then now.(enhanced := Some(op.value))
                   else now.(text := Some(op.value))))
  }

  /** What is to be done: the verdict, and whether the message is held. */
  datatype Ruling = Ruling(verdict: Verdict, quarantine: bool)

  function RejectReply(r: Response): Result<Verdict> {
    if r.NotObject? then Err(Invalid)
    else
      var code := if r.Object? then r.code else None;
      var enhanced := if r.Object? then r.enhanced else None;
      var text := if r.Object? then r.text else None;
      if code.Some? && !(code.value.NumberValue? && code.value.number < 0x1_0000) then Err(Invalid)
      else if enhanced.Some? && !enhanced.value.NullValue? && !enhanced.value.TextValue? then Err(Invalid)
      else if text.Some? && !text.value.TextValue? then Err(Invalid)
      else
        Ok(Reply(if code.Some? then code.value.number else 550,
                 if enhanced.Some? && enhanced.value.TextValue? then Some(enhanced.value.text) else None,
                 if text.Some? then text.value.text else REJECTED))
  }

  function Rule(s: Said, stage: Stage): Result<Ruling> {
    if s.action == REJECT then
      var reply :- RejectReply(s.response);
      Ok(Ruling(reply, false))
    else if !s.response.Absent? then Err(Invalid)
    else if s.action == ACCEPT then Ok(Ruling(Continue, false))
    else if s.action == DISCARD && stage != AtConnect && stage != AtHelo then Ok(Ruling(Discard, false))
    else if s.action == QUARANTINE && stage == AtEnd then Ok(Ruling(Continue, true))
    else if s.action == DISCONNECT then Ok(Ruling(Shutdown, false))
    else Err(Invalid)
  }

  function Hears(ops: seq<RulingOp>): Result<Said> {
    if ops == [] then Ok(UNSAID)
    else
      var before :- Hears(ops[..|ops| - 1]);
      Hear(before, ops[|ops| - 1])
  }

  // ---- What a scanner author can rely on ----------------------------------

  /** The action last set, "accept" if none was. */
  function LastAction(ops: seq<RulingOp>): Bytes {
    if ops == [] then ACCEPT
    else
      var last := ops[|ops| - 1];
      if last.SetAction? && last.value.TextValue? then last.value.text else LastAction(ops[..|ops| - 1])
  }

  /** The parts of the response. */
  datatype Part = CodePart | EnhancedPart | TextPart

  function PartIn(op: RulingOp, part: Part): Option<Scalar> {
    if op.SetCode? && part.CodePart? then Some(op.value)
    else if op.SetEnhanced? && part.EnhancedPart? then Some(op.value)
    else if op.SetText? && part.TextPart? then Some(op.value)
    else if op.SetResponse? && op.response.Object? then
      (match part case CodePart => op.response.code case EnhancedPart => op.response.enhanced case TextPart => op.response.text)
    else None
  }

  /** The part last given; setting the whole response replaces all of them. */
  function LastPart(ops: seq<RulingOp>, part: Part): Option<Scalar> {
    if ops == [] then None
    else
      var last := ops[|ops| - 1];
      if last.SetResponse? || PartIn(last, part).Some? then PartIn(last, part)
      else LastPart(ops[..|ops| - 1], part)
  }

  predicate SetsPart(op: RulingOp) {
    op.SetCode? || op.SetEnhanced? || op.SetText?
  }

  /** The response last set as a whole is neither an object nor null. */
  predicate Misshapen(ops: seq<RulingOp>) {
    ops != [] &&
    (var last := ops[|ops| - 1];
     if last.SetResponse? then last.response.NotObject? else Misshapen(ops[..|ops| - 1]))
  }

  /** There is a response: a part was set, or a whole that is not null, since the last null. */
  predicate Responds(ops: seq<RulingOp>) {
    ops != [] &&
    (var last := ops[|ops| - 1];
     if last.SetResponse? then !last.response.Absent?
     else SetsPart(last) || Responds(ops[..|ops| - 1]))
  }

  /** Actions are texts, and parts are set only of a response that is an object or absent. */
  predicate Audible(ops: seq<RulingOp>) {
    forall k :: 0 <= k < |ops| ==>
      (ops[k].SetAction? ==> ops[k].value.TextValue?) && (SetsPart(ops[k]) ==> !Misshapen(ops[..k]))
  }

  lemma {:induction false} AudibleFront(ops: seq<RulingOp>)
    requires ops != []
    ensures var front, last := ops[..|ops| - 1], ops[|ops| - 1];
            Audible(ops) <==>
            && Audible(front) && (last.SetAction? ==> last.value.TextValue?) && (SetsPart(last) ==> !Misshapen(front))
  {
    var front := ops[..|ops| - 1];
    assert forall k :: 0 <= k < |front| ==> front[k] == ops[k] && front[..k] == ops[..k];
    assert ops[..|front|] == front;
  }

  /** What was heard is what the operations say. */
  predicate Sums(s: Said, ops: seq<RulingOp>) {
    && s.action == LastAction(ops)
    && (s.response.NotObject? <==> Misshapen(ops))
    && (s.response.Absent? <==> !Responds(ops))
    && (s.response.Object? ==>
          && s.response.code == LastPart(ops, CodePart) && s.response.enhanced == LastPart(ops, EnhancedPart)
          && s.response.text == LastPart(ops, TextPart))
    && (!s.response.Object? ==> forall part :: LastPart(ops, part) == None)
  }

  lemma {:induction false} HearSums(s: Said, ops: seq<RulingOp>)
    requires ops != [] && Sums(s, ops[..|ops| - 1])
    requires Hear(s, ops[|ops| - 1]).Ok?
    ensures Sums(Hear(s, ops[|ops| - 1]).value, ops)
  {
  }

  /** Answers are heard exactly when audible, and then as the operations say. */
  lemma {:induction false} HeardAsSaid(ops: seq<RulingOp>)
    ensures Hears(ops).Ok? <==> Audible(ops)
    ensures Hears(ops).Ok? ==> Sums(Hears(ops).value, ops)
  {
    if ops != [] {
      var front := ops[..|ops| - 1];
      HeardAsSaid(front);
      AudibleFront(ops);
      if Hears(front).Ok? && Hear(Hears(front).value, ops[|ops| - 1]).Ok? {
        HearSums(Hears(front).value, ops);
      }
    }
  }

  predicate GoodCode(v: Option<Scalar>) {
    v.Some? ==> v.value.NumberValue? && v.value.number < 65536
  }

  predicate GoodEnhanced(v: Option<Scalar>) {
    v.Some? ==> v.value.NullValue? || v.value.TextValue?
  }

  predicate GoodText(v: Option<Scalar>) {
    v.Some? ==> v.value.TextValue?
  }

  /** Which operations make a ruling at this stage. */
  predicate Ruled(ops: seq<RulingOp>, stage: Stage) {
    var action := LastAction(ops);
    && Audible(ops)
    && (if action == REJECT then
          && !Misshapen(ops) && GoodCode(LastPart(ops, CodePart)) && GoodEnhanced(LastPart(ops, EnhancedPart))
          && GoodText(LastPart(ops, TextPart))
        else
          && !Responds(ops)
          && (action == ACCEPT || action == DISCONNECT
              || (action == DISCARD && stage != AtConnect && stage != AtHelo)
              || (action == QUARANTINE && stage == AtEnd)))
  }

  /** The verdict they make: a refusal carries the last code, 550 by default, the last enhanced
      code if one was given, and the last text, "Rejected by policy" by default. */
  function Verdicts(ops: seq<RulingOp>): Verdict {
    var action := LastAction(ops);
    if action == REJECT then
      var code, enhanced, text := LastPart(ops, CodePart), LastPart(ops, EnhancedPart), LastPart(ops, TextPart);
      Reply(if code.Some? && code.value.NumberValue? then code.value.number else 550,
            if enhanced.Some? && enhanced.value.TextValue? then Some(enhanced.value.text) else None,
            if text.Some? && text.value.TextValue? then text.value.text else REJECTED)
    else if action == DISCARD then Discard
    else if action == DISCONNECT then Shutdown
    else Continue
  }

  lemma {:induction false} ActionsDiffer()
    ensures ACCEPT != REJECT && ACCEPT != DISCARD && ACCEPT != QUARANTINE && ACCEPT != DISCONNECT
    ensures REJECT != DISCARD && REJECT != QUARANTINE && REJECT != DISCONNECT
    ensures DISCARD != QUARANTINE && DISCARD != DISCONNECT && QUARANTINE != DISCONNECT
  {
    assert ACCEPT[0] != REJECT[0] && QUARANTINE[0] != DISCONNECT[0];
    assert |ACCEPT| == |REJECT| == 6 && |DISCARD| == 7 && |QUARANTINE| == |DISCONNECT| == 10;
  }

  /** The ruling, from the operations alone: when there is one, which verdict it is, and that the
      message is held exactly for a quarantine. */
  lemma {:induction false} RulingMeans(ops: seq<RulingOp>, stage: Stage)
    ensures Hears(ops).Ok? && Rule(Hears(ops).value, stage).Ok? <==> Ruled(ops, stage)
    ensures Ruled(ops, stage) ==>
              Rule(Hears(ops).value, stage).value == Ruling(Verdicts(ops), LastAction(ops) == QUARANTINE)
  {
    HeardAsSaid(ops);
    ActionsDiffer();
  }
}
