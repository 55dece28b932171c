/** The whole way at the end of a message: the MTA's command, the scanner's answer, the frames the
    driver writes, and the message the MTA is left with. */
module EndToEnd {
  import opened Octets
  import opened Wire
  import opened Mta
  import opened Protocol
  import opened SessionInvariant
  import opened Driver
  import opened SessionLaws
  import opened Answers
  import opened Translation
  import H = History

  lemma {:induction false} ReachableInv(c: Config, s: Session)
    requires Reachable(c, s)
    ensures Inv(c, s)
  {
    var log :| H.After(c, log, |log|) == Some(s);
    H.RunExplained(c, log, |log|);
  }

  /** A session at the end of a message, about to consult the scanner. */
  ghost predicate AtEndOfMessage(c: Config, s: Session, f: Frame) {
    && Reachable(c, s) && AtEnd in c.stages
    && Decode(f, c.validIp) == Ok(EndMessage) && Receive(c, s, f).Ok?
  }

  /** The session the scanner is asked about. */
  function Consulted(c: Config, s: Session, f: Frame): Session
    requires Receive(c, s, f).Ok?
  {
    Receive(c, s, f).value.0
  }

  lemma {:induction false} ConsultedSession(c: Config, s: Session, f: Frame)
    requires AtEndOfMessage(c, s, f)
    ensures var t := Consulted(c, s, f);
            Inv(c, t) && t.message == s.message && t.pending == Some(AtEnd) && Receive(c, s, f).value.1 == Step([], Some(AtEnd), false)
  {
    ReachableInv(c, s);
    ReceivedInv(c, s, f);
    PrepareKeeps(s, EndMessage);
  }

  /** An accepted decision is written behind the keepalives. */
  lemma {:induction false} DecisionWritten(c: Config, failOpen: bool, s: Session, f: Frame, ticks: nat, d: Decision)
    requires AtEndOfMessage(c, s, f) && DecisionFrames(c, Consulted(c, s, f), d).Ok?
    ensures var served := Serve(c, failOpen, s, f, Evaluation(ticks, Ok(d)));
            served.Ok? && served.value.frames == Keepalives(ticks) + DecisionFrames(c, Consulted(c, s, f), d).value
  {
    ConsultedSession(c, s, f);
    var fs := DecisionFrames(c, Consulted(c, s, f), d).value;
    assert [] + fs == fs;
  }

  /** The edits between the keepalives and the final reply. */
  function EditsIn(fs: seq<Frame>, ticks: nat): seq<Frame>
    requires ticks < |fs|
  {
    fs[ticks..|fs| - 1]
  }

  /** The written edits leave the MTA with what the answer describes. */
  ghost predicate Arrives(c: Config, s: Session, a: Answer, msg: Message, edits: seq<Frame>, held: bool) {
    var ran := ApplyFrames(msg, edits);
    ran.Some? && Delivers(c, s, a, msg, ran.value) && ran.value.held == held
  }

  lemma {:induction false} EditsArrive(c: Config, s: Session, a: Answer, msg: Message, d: Decision, held: bool)
    requires DecisionFrames(c, s, d).Ok? && d.verdict.Continue?
    ensures DecisionFrames(c, s, d).value != []
    ensures Arrives(c, s, a, msg, EditsIn(DecisionFrames(c, s, d).value, 0), held) <==>
            Fulfilled(c, s, a, msg, d.modifications, held)
  {
    DecisionMeans(c, s, d, msg);
    var fs := DecisionFrames(c, s, d).value;
    assert fs[0..|fs| - 1] == fs[..|fs| - 1];
  }

  lemma {:induction false} EditsBehindKeepalives(ticks: nat, fs: seq<Frame>)
    requires fs != []
    ensures EditsIn(Keepalives(ticks) + fs, ticks) == EditsIn(fs, 0)
  {
  }

  /** Scanner's answer to MTA's message: the driver's turn always succeeds. If the answer is
      acceptable and lets the message pass within the output limits, the edits written leave the
      MTA with what it describes, exactly when no header is set to the empty string; if it cannot
      be carried out, only the fallback reply is written. */
  method AnswerEndOfMessage(
    c: Config, failOpen: bool, s: Session, f: Frame, a: Answer, isText: Bytes -> bool, ticks: nat, ghost msg: Message)
    returns (r: Result<Decision>)
    requires AtEndOfMessage(c, s, f) && c.limits.frameBytes >= 1 && c.limits.headers < 0x1_0000_0000
    requires Classified(a) && Mirrors(msg, s)
    ensures Sized(c, Consulted(c, s, f))
    ensures r.Ok? <==> Acceptable(c, Consulted(c, s, f), AtEnd, a, isText)
    ensures Serve(c, failOpen, s, f, Evaluation(ticks, r)).Ok?
    ensures var fs := Serve(c, failOpen, s, f, Evaluation(ticks, r)).value.frames;
            var t := Consulted(c, s, f);
            if r.Err? || DecisionFrames(c, t, r.value).Err? then
              fs == Keepalives(ticks) + [Empty(if failOpen then RPL_CONTINUE else RPL_TEMPFAIL)]
            else
              ticks < |fs| &&
              (r.value.verdict.Continue? ==>
                 (Arrives(c, t, a, msg, EditsIn(fs, ticks), msg.held || Holds(a))
                  <==> NoEmpty(a, HasRaw(a), |a.sets|)))
  {
    var t := Consulted(c, s, f);
    ConsultedSession(c, s, f);
    r := Translate(c, t, AtEnd, a, isText, msg);
    if r.Ok? && DecisionFrames(c, t, r.value).Ok? {
      DecisionWritten(c, failOpen, s, f, ticks, r.value);
      AcceptedArrives(c, t, a, msg, r.value, ticks);
    } else {
      ReachableInv(c, s);
      FailedDecisionReply(c, failOpen, s, f, Evaluation(ticks, r));
    }
  }

  lemma {:induction false} AcceptedArrives(c: Config, t: Session, a: Answer, msg: Message, d: Decision, ticks: nat)
    requires Translated(c, t, AtEnd, a, msg, d) && DecisionFrames(c, t, d).Ok?
    ensures var fs := Keepalives(ticks) + DecisionFrames(c, t, d).value;
            ticks < |fs| &&
            (d.verdict.Continue? ==>
               (Arrives(c, t, a, msg, EditsIn(fs, ticks), msg.held || Holds(a))
                <==> NoEmpty(a, HasRaw(a), |a.sets|)))
  {
    DecisionMeans(c, t, d, msg);
    if d.verdict.Continue? {
      EditsArrive(c, t, a, msg, d, msg.held || Holds(a));
      EditsBehindKeepalives(ticks, DecisionFrames(c, t, d).value);
    }
  }
}
