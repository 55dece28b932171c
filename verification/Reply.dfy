/** Final replies as the MTA reads them (src/session.rs:486-548). */
module FinalReplies {
  import opened Octets
  import opened Wire
  import opened Modifications
  import opened Protocol

  lemma {:induction false} CleanJoin(a: Bytes, b: Byte, c: Bytes)
    requires Clean(a) && Clean([b]) && Clean(c)
    ensures Clean(a + [b] + c)
  {
    assert b == [b][0];
  }

  predicate AllClean(parts: seq<Bytes>) {
    forall k :: 0 <= k < |parts| ==> Clean(parts[k])
  }

  lemma {:induction false} CleanIfPartsAre(s: Bytes)
    requires AllClean(SplitDots(s))
    ensures Clean(s)
  {
    match Find(s, 0, DOT)
    case None => assert SplitDots(s)[0] == s;
    case Some(i) =>
      var parts := SplitDots(s);
      assert parts[0] == s[..i] && parts[1..] == SplitDots(s[i + 1..]);
      CleanIfPartsAre(s[i + 1..]);
      CleanJoin(s[..i], DOT, s[i + 1..]);
      assert s == s[..i] + [DOT] + s[i + 1..];
  }

  lemma {:induction false} EnhancedClean(code: nat, enhanced: Bytes)
    requires code < 1000 && EnhancedOk(code, enhanced)
    ensures Clean(enhanced)
  {
    var parts := SplitDots(enhanced);
    assert Clean(parts[0]) && Clean(parts[1]) && Clean(parts[2]);
    CleanIfPartsAre(enhanced);
  }

  lemma {:induction false} ReplyTextClean(code: nat, enhanced: Option<Bytes>, text: Bytes)
    requires code < 1000 && Clean(text) && (enhanced.Some? ==> EnhancedOk(code, enhanced.value))
    ensures Clean(ReplyText(code, enhanced, text))
  {
    var head := CodeText(code);
    if enhanced.Some? {
      EnhancedClean(code, enhanced.value);
      CleanJoin(head, SP, enhanced.value);
      head := head + [SP] + enhanced.value;
      assert CodeText(code) + ([SP] + enhanced.value) == head;
    } else {
      assert head + [] == head;
    }
    CleanJoin(head, SP, text);
    assert ReplyText(code, enhanced, text) == head + [SP] + text;
  }

  predicate OneToThreeDigits(p: Bytes) {
    1 <= |p| <= 3 && forall i :: 0 <= i < |p| ==> 48 <= p[i] <= 57
  }

  /** The class of the code, a dot, the subject up to a dot at `k`, and the detail: section 2 of RFC 3463. */
  predicate EnhancedWith(code: nat, enhanced: Bytes, k: nat) {
    && 2 <= k < |enhanced|
    && enhanced[0] as int == 48 + code / 100 && enhanced[1] == 46 && enhanced[k] == 46
    && OneToThreeDigits(enhanced[2..k]) && OneToThreeDigits(enhanced[k + 1..])
  }

  predicate EnhancedCode(code: nat, enhanced: Bytes) {
    exists k: nat :: k < |enhanced| && EnhancedWith(code, enhanced, k)
  }

  lemma {:induction false} SplitAt(s: Bytes, i: nat)
    requires i < |s| && s[i] == DOT && forall j :: 0 <= j < i ==> s[j] != DOT
    ensures SplitDots(s) == [s[..i]] + SplitDots(s[i + 1..])
  {
    FindIs(s, 0, DOT, i);
  }

  lemma {:induction false} SplitWhole(s: Bytes)
    requires forall j :: 0 <= j < |s| ==> s[j] != DOT
    ensures SplitDots(s) == [s]
  {
  }

  lemma {:induction false} SplitThree(enhanced: Bytes, k: nat)
    requires 2 <= k < |enhanced| && enhanced[1] == DOT && enhanced[k] == DOT && enhanced[0] != DOT
    requires OneToThreeDigits(enhanced[2..k]) && OneToThreeDigits(enhanced[k + 1..])
    ensures SplitDots(enhanced) == [enhanced[..1], enhanced[2..k], enhanced[k + 1..]]
  {
    SplitAt(enhanced, 1);
    var rest := enhanced[2..];
    assert forall j :: 0 <= j < k - 2 ==> rest[j] == enhanced[2..k][j];
    SplitAt(rest, k - 2);
    assert rest[..k - 2] == enhanced[2..k] && rest[k - 1..] == enhanced[k + 1..];
    SplitWhole(enhanced[k + 1..]);
  }

  lemma {:induction false} SplitIsThree(enhanced: Bytes) returns (k: nat)
    requires |SplitDots(enhanced)| == 3 && |SplitDots(enhanced)[0]| == 1
    ensures 2 <= k < |enhanced| && enhanced[1] == DOT && enhanced[k] == DOT
    ensures SplitDots(enhanced) == [enhanced[..1], enhanced[2..k], enhanced[k + 1..]]
  {
    assert Find(enhanced, 0, DOT) == Some(1);
    var rest := enhanced[2..];
    var i := Find(rest, 0, DOT).value;
    k := i + 2;
    assert SplitDots(rest) == [rest[..i]] + SplitDots(rest[i + 1..]);
    assert rest[..i] == enhanced[2..k] && rest[i + 1..] == enhanced[k + 1..];
    assert Find(enhanced[k + 1..], 0, DOT).None?;
  }

  /** An enhanced code is accepted exactly in the form class.subject.detail. */
  lemma {:induction false} EnhancedMeans(code: nat, enhanced: Bytes)
    requires code < 1000
    ensures EnhancedOk(code, enhanced) <==> EnhancedCode(code, enhanced)
  {
    if EnhancedOk(code, enhanced) {
      var k := SplitIsThree(enhanced);
      assert enhanced[..1][0] == enhanced[0];
      assert EnhancedWith(code, enhanced, k);
    }
    if EnhancedCode(code, enhanced) {
      var k: nat :| k < |enhanced| && EnhancedWith(code, enhanced, k);
      SplitThree(enhanced, k);
      assert enhanced[..1] == [enhanced[0]];
    }
  }

  /** A custom SMTP reply is accepted exactly when its code, enhanced code and text are in
      order, and then the MTA reads back one line without NUL, CR or LF. */
  lemma {:induction false} ReplyIsOneLine(code: nat, enhanced: Option<Bytes>, text: Bytes)
    ensures FinalFrame(Reply(code, enhanced, text)).Ok? <==>
            400 <= code < 600 && Clean(text) && (enhanced.Some? ==> EnhancedCode(code, enhanced.value))
    ensures var f := FinalFrame(Reply(code, enhanced, text));
            f.Ok? ==> f.value.command == RPL_REPLY && Strings(f.value.payload) == Ok([ReplyText(code, enhanced, text)])
                      && Clean(ReplyText(code, enhanced, text))
  {
    if code < 1000 && enhanced.Some? {
      EnhancedMeans(code, enhanced.value);
    }
    if 400 <= code < 600 && Clean(text) && (enhanced.Some? ==> EnhancedOk(code, enhanced.value)) {
      var line := ReplyText(code, enhanced, text);
      ReplyTextClean(code, enhanced, text);
      StringsRoundTrip(Join([line]), [line]);
    }
  }

  /** The session takes for refused, finished or to be gone on with what the MTA is told is so. */
  lemma {:induction false} BothSidesAgree(v: Verdict)
    requires FinalFrame(v).Ok?
    ensures var letter := FinalFrame(v).value.command;
            && (Rejects(v) <==> letter == 114 || letter == 116 || letter == 121 || letter == 52)
            && (Finishes(v) <==> letter == 97 || letter == 100)
            && (v.Shutdown? <==> letter == 52)
            && (!Rejects(v) && !Finishes(v) <==> letter == 99)
  {
  }

  /** What the MTA does about the command, as the response letter tells it. */
  datatype Outcome = GoesOn | Accepted | Refused5xx | Refused4xx | Dropped | RefusedWith(text: Bytes) | Closing

  /** The response letters y c a r t d 4. */
  function ReadOutcome(f: Frame): Option<Outcome> {
    if f.command == 121 then
      (match Strings(f.payload) case Ok(v) => if |v| == 1 then Some(RefusedWith(v[0])) else None case Err(_) => None)
    else if f.command == 99 then Some(GoesOn)
    else if f.command == 97 then Some(Accepted)
    else if f.command == 114 then Some(Refused5xx)
    else if f.command == 116 then Some(Refused4xx)
    else if f.command == 100 then Some(Dropped)
    else if f.command == 52 then Some(Closing)
    else None
  }

  function Intended(v: Verdict): Outcome {
    match v
    case Continue => GoesOn
    case Accept => Accepted
    case Reject => Refused5xx
    case Tempfail => Refused4xx
    case Discard => Dropped
    case Shutdown => Closing
    case Reply(code, enhanced, text) => RefusedWith(if code < 1000 then ReplyText(code, enhanced, text) else [])
  }

  /** A reply line: the code in decimal, the enhanced code if any, and the text. */
  lemma {:induction false} ReplyLine(code: nat, enhanced: Option<Bytes>, text: Bytes)
    requires 400 <= code < 600
    ensures var line := ReplyText(code, enhanced, text);
            && |line| >= 4 && 48 <= line[0] <= 57 && 48 <= line[1] <= 57 && 48 <= line[2] <= 57
            && (line[0] as int - 48) * 100 + (line[1] as int - 48) * 10 + (line[2] as int - 48) == code && line[3] == SP
            && line[4..] == (if enhanced.Some? then enhanced.value + [SP] + text else text)
  {
    var line := ReplyText(code, enhanced, text);
    assert code == code / 100 * 100 + code / 10 % 10 * 10 + code % 10;
    if enhanced.Some? {
      assert line == CodeText(code) + [SP] + (enhanced.value + [SP] + text);
    } else {
      assert line == CodeText(code) + [SP] + text;
    }
  }

  /** The final frame of an accepted decision tells the MTA the verdict. */
  lemma {:induction false} VerdictReadBack(c: Config, s: Session, d: Decision)
    requires DecisionFrames(c, s, d).Ok?
    ensures var fs := DecisionFrames(c, s, d).value;
            fs != [] && ReadOutcome(fs[|fs| - 1]) == Some(Intended(d.verdict))
  {
    if d.verdict.Reply? {
      ReplyIsOneLine(d.verdict.code, d.verdict.enhanced, d.verdict.text);
    }
  }
}
