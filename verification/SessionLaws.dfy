/** Where the components meet: the accounted bytes bound the printed message, answering with
    the printed message changes nothing in any reachable session, and the frames of a decision
    mean its modifications. */
module SessionLaws {
  import opened Octets
  import opened Wire
  import opened Modifications
  import opened Mta
  import opened RawMessage
  import opened Replacement
  import opened RawReplacement
  import opened ReplacementLaws
  import opened Protocol
  import opened SessionInvariant
  import H = History
  import S = Sessions
  import D = Driver

  // ---- Accounting covers the printed message ------------------------------

  /** Fields printed without a colon space. */
  function Unspaced(fs: seq<Field>, leading: bool): nat {
    if fs == [] then 0
    else Unspaced(fs[..|fs| - 1], leading) + if leading || StartsWithBreak(fs[|fs| - 1].value) then 1 else 0
  }

  lemma {:induction false} RenderedLength(fs: seq<Field>, leading: bool)
    ensures |RenderTexts(ToTexts(fs, leading))| + Unspaced(fs, leading) == HeadersCost(fs)
  {
    if fs != [] {
      var front, last := fs[..|fs| - 1], fs[|fs| - 1];
      RenderedLength(front, leading);
      var text := Field(last.name, Text(last.value, leading));
      assert ToTexts(fs, leading) == ToTexts(front, leading) + [text];
      RenderSnoc(ToTexts(front, leading), text);
    }
  }

  /** In state Body the printed message is what was charged for it, less one byte for every field
      printed without a colon space; so it is never longer, and within the limit. */
  lemma {:induction false} RawMessageBounded(c: Config, s: Session)
    requires Inv(c, s) && s.state == InBody
    ensures var (headers, body) := (s.message.headers, s.message.body);
            && |RenderMessage(headers, body, LeadingSpace(s))| + Unspaced(headers, LeadingSpace(s)) == s.message.bytes
            && s.message.bytes <= c.limits.messageBytes
  {
    RenderedLength(s.message.headers, LeadingSpace(s));
  }

  function TargetOf(c: Config, s: Session): Target {
    Target(s.message.headers, s.message.body, c.limits.messageBytes, c.limits.headers, c.limits.modifications, LeadingSpace(s))
  }

  /** In every reachable end-of-message session, submitting the printed message as the
      replacement is accepted and yields no modification, exactly when the header names are
      printable and every line feed in a value is followed by a blank. */
  lemma {:induction false} EchoIsUnchanged(
    c: Config, log: seq<H.Entry>, s: Session, raw: Bytes, encoded: nat, isText: Bytes -> bool)
    requires H.After(c, log, |log|) == Some(s) && s.pending == Some(AtEnd)
    requires c.limits.headers < 0x1_0000_0000
    requires raw == RenderMessage(s.message.headers, s.message.body, LeadingSpace(s)) && encoded == 4 * ((|raw| + 2) / 3)
    ensures |s.message.headers| <= c.limits.headers
    ensures Replace(TargetOf(c, s), encoded, Some(raw), isText) == Ok([]) <==> Printable(s.message.headers)
  {
    H.RunExplained(c, log, |log|);
    RawMessageBounded(c, s);
    PrintedIsUnchanged(TargetOf(c, s), raw, encoded, isText);
  }

  // ---- Frames mean modifications ------------------------------------------

  /** What the MTA makes of an accepted decision: if it is refused or discarded no edit was
      sent, otherwise the edits have exactly the effect of the modifications, total at most
      the message limit and fit the frame limit one by one. */
  lemma {:induction false} DecisionMeans(c: Config, s: Session, d: Decision, msg: Message)
    requires DecisionFrames(c, s, d).Ok?
    ensures var fs := DecisionFrames(c, s, d).value;
            && fs != []
            && (Rejects(d.verdict) || d.verdict.Discard? ==> |fs| == 1)
            && (!Rejects(d.verdict) && !d.verdict.Discard? ==>
                  ApplyFrames(msg, fs[..|fs| - 1]) == Mta.Run(msg, d.modifications, LeadingSpace(s)))
            && TotalPayload(fs[..|fs| - 1]) <= c.limits.messageBytes
            && S.FramesFit(fs, c.limits.frameBytes)
  {
    var leading := LeadingSpace(s);
    var fs := DecisionFrames(c, s, d).value;
    var edits := SerialiseAll(c, s.options.value, leading, d.modifications).value;
    S.SerialisedWithin(c, s.options.value, leading, d.modifications);
    S.SerialisedScript(c, s.options.value, leading, d.modifications);
    ScriptFramesMean(msg, d.modifications, leading);
    var last := FinalFrame(d.verdict).value;
    if Rejects(d.verdict) || d.verdict.Discard? {
      assert fs == [] + [last] == [last];
      assert fs[..0] == [];
    } else {
      assert fs == edits + [last];
      assert fs[..|fs| - 1] == edits;
    }
  }

  lemma {:induction false} SerialisedAllowed(c: Config, options: Options, leading: bool, mods: seq<Modification>, k: nat)
    requires SerialiseAll(c, options, leading, mods).Ok? && k < |mods|
    ensures Allowed(options, mods[k])
  {
    if k < |mods| - 1 {
      SerialisedAllowed(c, options, leading, mods[..|mods| - 1], k);
    }
  }

  /** A modification reaches the MTA only if its capability was negotiated, and only at end
      of message. */
  lemma {:induction false} OnlyNegotiated(c: Config, s: Session, d: Decision, k: nat)
    requires DecisionFrames(c, s, d).Ok? && k < |d.modifications|
    ensures s.pending == Some(AtEnd) && s.options.Some? && Allowed(s.options.value, d.modifications[k])
    ensures |d.modifications| <= c.limits.modifications
  {
    SerialisedAllowed(c, s.options.value, LeadingSpace(s), d.modifications, k);
  }

  // ---- The driver only visits reachable sessions --------------------------

  lemma {:induction false} AfterSnoc(c: Config, log: seq<H.Entry>, e: H.Entry)
    requires H.After(c, log, |log|).Some?
    ensures H.After(c, log + [e], |log| + 1) == H.Advance(c, H.After(c, log, |log|).value, e)
  {
    H.AfterPrefix(c, log, [e], |log|);
  }

  /** Reachable by some run of commands and decisions. */
  ghost predicate Reachable(c: Config, s: Session) {
    exists log :: H.After(c, log, |log|) == Some(s)
  }

  lemma {:induction false} AdvanceReachable(c: Config, s: Session, e: H.Entry)
    requires Reachable(c, s) && H.Advance(c, s, e).Some?
    ensures Reachable(c, H.Advance(c, s, e).value)
  {
    var log :| H.After(c, log, |log|) == Some(s);
    AfterSnoc(c, log, e);
    var longer := log + [e];
    assert |longer| == |log| + 1;
    assert H.After(c, longer, |longer|).Some?;
  }

  /** Whatever the policy does, one turn of the driver leads from a reachable session to a
      reachable one, so everything proved of runs holds of connections. */
  lemma {:induction false} ServeReachable(c: Config, failOpen: bool, s: Session, f: Frame, e: D.Evaluation)
    requires Reachable(c, s) && D.Serve(c, failOpen, s, f, e).Ok?
    ensures Reachable(c, D.Serve(c, failOpen, s, f, e).value.session)
  {
    var command := Decode(f, c.validIp).value;
    var (t, step) := Receive(c, s, f).value;
    AdvanceReachable(c, s, H.Entry.Got(command));
    if step.event.Some? {
      var asked := D.Ask(c, step.event.value, e);
      var d := if D.Try(c, t, asked.result).Ok? then asked.result.value else D.Fallback(failOpen);
      assert D.Resolve(c, failOpen, t, asked) == Complete(c, t, d);
      AdvanceReachable(c, t, H.Took(d));
    }
  }
}
