/** A run that reaches the end of a message, so that what is proved about such runs is proved
    about something. */
module ExampleRun {
  import opened Octets
  import opened Wire
  import opened Mta
  import opened Protocol
  import opened History

  predicate Roomy(c: Config) {
    && c.stages == {} && c.macroRequest.Ok? && c.limits.messageBytes >= 9 && c.limits.envelopeBytes >= 4
    && c.limits.headers >= 1 && c.limits.recipients >= 1
  }

  const PEER := Connection([104], FAMILY_UNKNOWN, None, None)
  const OFFER := Options(VERSION, 0, 0)
  const NO_BATCHES: Batches := map[]

  /** Sender `a`, recipient `b`, header `A: x`, body `y`. */
  const SMALL_RUN: seq<Entry> := [
    Entry.Got(Negotiate(OFFER)), Entry.Got(Connect(PEER)), Entry.Got(Mail([[97]])), Entry.Got(Recipient([[98]])),
    Entry.Got(Data), Entry.Got(Header([65], [120])), Entry.Got(EndHeaders), Entry.Got(Body([121])), Entry.Got(EndMessage)]

  function Talking(c: Config, state: State, message: Transaction, pending: Option<Stage>): Session {
    Session(state, Some(Agree(c, OFFER)), Some(PEER), None, message, NO_BATCHES, NO_BATCHES, pending)
  }

  const SMALL_FROM := Transaction(Some(Party([97], [])), [], [], [], 0, 2)
  const SMALL_TO := Transaction(Some(Party([97], [])), [Party([98], [])], [], [], 0, 4)
  const SMALL_HEADER := SMALL_TO.(headers := [Field([65], [120])], bytes := 6)
  const SMALL_MESSAGE := SMALL_HEADER.(body := [121], bytes := 9)

  lemma {:induction false} NothingActivated(s: Session, command: Command)
    requires s.macros == NO_BATCHES && s.waiting == NO_BATCHES && s.pending.None?
    ensures Prepare(s, command) == if command.Mail? then s.(message := NO_TRANSACTION) else s
  {
    assert KeepConnection(NO_BATCHES) == NO_BATCHES;
    assert NO_BATCHES - {Opcode(command)} == NO_BATCHES;
  }

  lemma {:induction false} SmallStep(c: Config, s: Session, command: Command, t: Session)
    requires WellFormed(command) && !command.Negotiate? && !command.Macro? && (command.Mail? ==> s.state == Ready)
    requires s.macros == NO_BATCHES && s.waiting == NO_BATCHES && s.pending.None? && s.state != Closed && s.state != Initial
    requires Act(c, if command.Mail? then s.(message := NO_TRANSACTION) else s, command) == Ok(t)
    ensures Advance(c, s, Entry.Got(command)) == Some(Answer(c, t, command).0)
  {
    NothingActivated(s, command);
  }

  lemma {:induction false} SmallStart(c: Config)
    requires Roomy(c)
    ensures Advance(c, FRESH, SMALL_RUN[0]) == Some(Talking(c, Negotiated, NO_TRANSACTION, None).(connection := None))
    ensures Advance(c, Talking(c, Negotiated, NO_TRANSACTION, None).(connection := None), SMALL_RUN[1]) ==
            Some(Talking(c, Ready, NO_TRANSACTION, None))
  {
    NothingActivated(Talking(c, Negotiated, NO_TRANSACTION, None).(connection := None), Connect(PEER));
  }

  lemma {:induction false} SmallMail(c: Config)
    requires Roomy(c)
    ensures Advance(c, Talking(c, Ready, NO_TRANSACTION, None), SMALL_RUN[2]) == Some(Talking(c, InMail, SMALL_FROM, None))
  {
    var a: seq<Bytes> := [[97]];
    assert EnvelopeCost(a) == 2 && PartyFrom(a) == Party([97], []);
    SmallStep(c, Talking(c, Ready, NO_TRANSACTION, None), Mail(a), Talking(c, InMail, SMALL_FROM, None));
  }

  lemma {:induction false} SmallRecipient(c: Config)
    requires Roomy(c)
    ensures Advance(c, Talking(c, InMail, SMALL_FROM, None), SMALL_RUN[3]) == Some(Talking(c, InRecipients, SMALL_TO, None))
    ensures Advance(c, Talking(c, InRecipients, SMALL_TO, None), SMALL_RUN[4]) == Some(Talking(c, InData, SMALL_TO, None))
  {
    var b: seq<Bytes> := [[98]];
    assert EnvelopeCost(b) == 2 && PartyFrom(b) == Party([98], []);
    assert [] + [PartyFrom(b)] == [PartyFrom(b)];
    SmallStep(c, Talking(c, InMail, SMALL_FROM, None), Recipient(b), Talking(c, InRecipients, SMALL_TO, None));
    SmallStep(c, Talking(c, InRecipients, SMALL_TO, None), Data, Talking(c, InData, SMALL_TO, None));
  }

  lemma {:induction false} SmallHeader(c: Config)
    requires Roomy(c)
    ensures Advance(c, Talking(c, InData, SMALL_TO, None), SMALL_RUN[5]) == Some(Talking(c, InHeaders, SMALL_HEADER, None))
    ensures Advance(c, Talking(c, InHeaders, SMALL_HEADER, None), SMALL_RUN[6]) ==
            Some(Talking(c, InBody, SMALL_HEADER.(bytes := 8), None))
  {
    assert [] + [Field([65], [120])] == [Field([65], [120])];
    SmallStep(c, Talking(c, InData, SMALL_TO, None), Header([65], [120]), Talking(c, InHeaders, SMALL_HEADER, None));
    SmallStep(c, Talking(c, InHeaders, SMALL_HEADER, None), EndHeaders, Talking(c, InBody, SMALL_HEADER.(bytes := 8), None));
  }

  lemma {:induction false} SmallContent(c: Config)
    requires Roomy(c)
    ensures Advance(c, Talking(c, InBody, SMALL_HEADER.(bytes := 8), None), SMALL_RUN[7]) ==
            Some(Talking(c, InBody, SMALL_MESSAGE, None))
    ensures Advance(c, Talking(c, InBody, SMALL_MESSAGE, None), SMALL_RUN[8]) ==
            Some(Talking(c, InBody, SMALL_MESSAGE, Some(AtEnd)))
  {
    var y: Bytes := [121];
    assert [] + y == y;
    SmallStep(c, Talking(c, InBody, SMALL_HEADER.(bytes := 8), None), Body(y), Talking(c, InBody, SMALL_MESSAGE, None));
    SmallStep(c, Talking(c, InBody, SMALL_MESSAGE, None), EndMessage, Talking(c, InBody, SMALL_MESSAGE, None));
  }

  lemma {:induction false} OneMore(c: Config, log: seq<Entry>, n: nat, s: Session, t: Session)
    requires n < |log| && Reaches(c, log, n, s) && Advance(c, s, log[n]) == Some(t)
    ensures Reaches(c, log, n + 1, t)
  {
  }

  /** The end-of-message callback is reached: what is said about such runs is said about something. */
  lemma {:induction false} SmallRunEnds(c: Config)
    requires Roomy(c)
    ensures Reaches(c, SMALL_RUN, |SMALL_RUN|, Talking(c, InBody, SMALL_MESSAGE, Some(AtEnd)))
  {
    SmallStart(c);
    SmallMail(c);
    SmallRecipient(c);
    SmallHeader(c);
    SmallContent(c);
    OneMore(c, SMALL_RUN, 0, FRESH, Talking(c, Negotiated, NO_TRANSACTION, None).(connection := None));
    OneMore(c, SMALL_RUN, 1, Talking(c, Negotiated, NO_TRANSACTION, None).(connection := None), Talking(c, Ready, NO_TRANSACTION, None));
    OneMore(c, SMALL_RUN, 2, Talking(c, Ready, NO_TRANSACTION, None), Talking(c, InMail, SMALL_FROM, None));
    OneMore(c, SMALL_RUN, 3, Talking(c, InMail, SMALL_FROM, None), Talking(c, InRecipients, SMALL_TO, None));
    OneMore(c, SMALL_RUN, 4, Talking(c, InRecipients, SMALL_TO, None), Talking(c, InData, SMALL_TO, None));
    OneMore(c, SMALL_RUN, 5, Talking(c, InData, SMALL_TO, None), Talking(c, InHeaders, SMALL_HEADER, None));
    OneMore(c, SMALL_RUN, 6, Talking(c, InHeaders, SMALL_HEADER, None), Talking(c, InBody, SMALL_HEADER.(bytes := 8), None));
    OneMore(c, SMALL_RUN, 7, Talking(c, InBody, SMALL_HEADER.(bytes := 8), None), Talking(c, InBody, SMALL_MESSAGE, None));
    OneMore(c, SMALL_RUN, 8, Talking(c, InBody, SMALL_MESSAGE, None), Talking(c, InBody, SMALL_MESSAGE, Some(AtEnd)));
  }
}
