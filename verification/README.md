# mta-hooks-milter: verified model

mta-hooks-milter sits between an MTA speaking the milter protocol and a scanner speaking MTA
Hooks. This project models, in Dafny, the path from the MTA's byte stream through the
per-connection session to the edit script sent back, and proves what that path promises for
every stream, every policy and every scanner answer.

The pieces, from the wire up:

- `Octets`, `Wire`, `Commands`, `Modifications`: bytes, frames, string lists, the command decoder,
  modifications and their frames, size prediction.
- `Mta`: the MTA's side of end-of-message editing. It reads a response frame as an edit and
  applies edits one at a time; insert positions are absolute, change positions count occurrences
  per name, an empty changed value deletes. Edits with a position that does not exist have no
  meaning, so a script that "runs" never uses one.
- `Scripts`, `Changes`, `Slots`, `EnvelopeEdits`, `StructuredEdits`, `RecipientLists`: the compiler
  for set, add and delete operations.
- `RawMessage`, `Matching`, `Replacement`, `RawReplacement`, `ReplacementLaws`: printer, parser and
  compiler for a whole replacement message.
- `Protocol`, `Sessions`, `SessionInvariant`, `History`, `MacroHistory`, `SessionLaws`: the session as
  a state machine over values, the session object proved against it, the inductive invariant, and
  what the log of commands and decisions says about every reachable state.
- `ProtocolOrder`, `Acceptance`: the protocol's order and limits read off the log alone, and the proof
  that the session accepts exactly the commands and decisions they allow.
- `ExampleRun`: a run that reaches an end-of-message callback.
- `Driver`, `FinalReplies`, `Replies`: the connection loop, final replies as the MTA reads them, and reply
  discipline.
- `Retry`, `Registration`: one hook invocation, and the registration shared by concurrent ones.
- `Encodability`, `Rulings`, `Answers`, `Translation`, `EndToEnd`: from a scanner's answer to a decision,
  to the frames written and to the message the MTA is left with.

Classes (`StructuredEdits.Edits`, `Sessions.Session`) and loops stand where the program updates
things in place; each such method is tied to a function of its inputs or of the old state, and the
promises are proved about that function.

Three promises are false as they stand; each is proved with its exact condition and has a lemma at a
failing input. A header set to the empty string is deleted by the MTA although the working list keeps
it: the compiled script is right if and only if no set value is empty (`Edits.Modifications`,
`EmptySetExample`). Re-printing a replacement returns its bytes if and only if every header field and
the blank line ended in CRLF (lines inside a folded field may end in a bare line feed) and, without
leading-space negotiation, no value begins with a space and then a line break (`Rerender`,
`LossyExample`, `BareFeedExample`). Recipients are deleted by address, so the MTA ends with the
recipients of the working list if and only if no kept original shares the address of a deleted one
(`RecipientsMet`, `SharedAddressExample`).

## Model

| member | source | states |
|---|---|---|
| `Wire.ReadEncoded` | src/protocol.rs:174-219 | a frame within the reader's limit is read back and only its own bytes are consumed |
| `Wire.ReadConsumesEncoding` | src/protocol.rs:191-219 | every successful read re-encodes to exactly the bytes consumed; the length is between 1 and the limit |
| `Wire.FrameLayout` | src/protocol.rs:174-190 | a frame is its big-endian length, its command letter and its payload |
| `Wire.ReadFailure` | src/protocol.rs:191-219 | end of input exactly for no bytes; a cut-off frame, a zero length and a length above the limit each fail with their own error; anything else is read |
| `Wire.StreamRoundTrip` | src/protocol.rs:174-219 | a stream is read as a frame list if and only if it is the concatenation of their encodings and each is within the limit |
| `Wire.StringsRoundTrip` | src/protocol.rs:412-440 | `strings` returns a list exactly when the payload is what `string_frame` builds from that NUL-free list |
| `Wire.SplitStrings` | src/protocol.rs:412-428 | the splitting loop computes the specified list or the unterminated-string error |
| `Wire.BuildStringFrame` | src/protocol.rs:430-440 | the building loop joins NUL-free values and refuses a NUL |
| `Wire.Decode` | src/protocol.rs:284-409 | every decoded command is well formed (non-empty envelope, macro stage letters, named macros, named header) and has the frame's opcode |
| `Commands.DecodeInvertsSent` | src/protocol.rs:284-409 | a frame decodes to a command if and only if it is the milter encoding of that command and the command is one an MTA may send; covers all fifteen commands |
| `Modifications.CheckHeaderValue` | src/protocol.rs:630-652 | the scanning loop accepts exactly the values whose every line feed is followed by a blank, whose carriage returns precede a line feed, and that hold no other control character |
| `Modifications.ValueMeans` | src/protocol.rs:630-652 | the accepted values are those of a grammar: tabs and octets from 32 up except DEL, and line breaks, LF or CR LF, that a space or tab follows |
| `Modifications.NameMeans` | src/protocol.rs:563-565 | header names are non-empty, printable and without colon |
| `Modifications.BodyFramesCarryBody` | src/protocol.rs:551-559 | body frames concatenate to the body, there is at least one, every chunk but the last is exactly 65,536 bytes and the last at most that |
| `Modifications.SizePrediction` | src/protocol.rs:497-627 | the payload produced equals the payload predicted, one byte less for a raw insert without leading space |
| `Mta.PositionOf` | src/protocol.rs:454-459 | counting earlier fields of the same name, ignoring case, addresses exactly the field meant |
| `Octets.SameNameMeans` | src/hooks.rs:1006 | names are the same exactly when equal letter by letter up to the case of A to Z |
| `Mta.FramesMean` | src/protocol.rs:532-627 | the frames of one modification, read by the MTA, have the effect of that modification |
| `Mta.ScriptFramesMean` | src/protocol.rs:532-627 | sending a whole script frame by frame has the effect of the script |
| `Scripts.InsertingRuns` | src/hooks.rs:1030-1044 | inserts in order of final position, an append only in the last place, build the final list; every position is within the list when used |
| `Changes.SortConflicts` | src/hooks.rs:1010-1022 | the descending sort yields strictly descending positions exactly when no original is named twice |
| `Changes.EmitChanges` | src/hooks.rs:1017-1029 | the emission loop succeeds exactly when no two operations name one header and edited names are text, and then emits one change per operation |
| `Changes.AllChangesRun` | src/hooks.rs:1002-1029 | changes and deletes issued from the back leave the edited, undeleted fields: occurrence numbers counted on the original list stay right |
| `Slots.ConsistentInitially` | src/hooks.rs:897-907 | the initial slot list names every original once, in order |
| `Slots.ConsistentInsert` | src/hooks.rs:1068-1080 | inserting a slot keeps originals ascending and every live addition in exactly one slot |
| `Slots.ConsistentRemoveOriginal` | src/hooks.rs:974-996 | deleting an original keeps survivors ascending and, with the deleted ones, a partition of the originals |
| `Slots.ConsistentRemoveAdded` | src/hooks.rs:974-996 | deleting an added entry leaves it in no slot |
| `Slots.LiveAreNew` | src/hooks.rs:949-996 | the live additions are exactly the new entries of the working list |
| `StructuredEdits.Edits.constructor` | src/hooks.rs:897-907 | the working lists start as the session's |
| `StructuredEdits.Edits.Set` | src/hooks.rs:916-948 | accepted exactly for an existing original header with the same name or a parsed sender; substitutes that value and nothing else |
| `StructuredEdits.Edits.Add` | src/hooks.rs:949-973 | accepted exactly below the limit with, if an index is given, one inside the list; without an index the entry is appended, with index i it stands at i between the old entries before i and those from i on; headers and recipients alike |
| `StructuredEdits.Edits.Delete` | src/hooks.rs:974-996 | accepted exactly for an existing position; removes that entry of the working list |
| `StructuredEdits.EmitInserts` | src/hooks.rs:1030-1044 | each live addition is taken out exactly once (the expect never fires) and emitted at its position |
| `StructuredEdits.InsertScriptPlaces` | src/hooks.rs:1030-1044 | what is emitted puts every addition at its final position, appending only in the last one |
| `StructuredEdits.HeadersCompile` | src/hooks.rs:1000-1044 | the header script turns the original headers into the working list |
| `StructuredEdits.EmptySetFails` | src/hooks.rs:1024-1029 | with an empty set value the MTA's list ends up shorter than the working list |
| `StructuredEdits.EmptySetExample` | src/hooks.rs:1024-1029 | the smallest case: the only header set to nothing is deleted |
| `StructuredEdits.Edits.CompileHeaders` | src/hooks.rs:1000-1044 | succeeds exactly without conflicting or non-text header operations; the emitted list is the changes and the inserts that meet the compiler's conditions |
| `StructuredEdits.Edits.CompileEnvelope` | src/hooks.rs:1045-1064 | succeeds exactly when all addresses convert and deleted ones are text |
| `StructuredEdits.Edits.Modifications` | src/hooks.rs:1000-1066 | compiler correctness: accepted exactly when nothing conflicts, and running the script on the MTA's message gives the described message if and only if no set value is empty; nothing recorded, nothing emitted |
| `EnvelopeEdits.EnvelopeRuns` | src/hooks.rs:1045-1064 | sender, deletions and additions have the described effect on the envelope and no other |
| `EnvelopeEdits.MilterMeans` | src/hooks.rs:833-866 | an address is wrapped in angle brackets unless it already is; an empty one becomes <> where a null sender is allowed and is refused otherwise |
| `RecipientLists.WorkingContents` | src/hooks.rs:949-996 | a working list holds exactly the undeleted originals and the live additions |
| `RecipientLists.RecipientsMet` | src/hooks.rs:1052-1064 | the MTA ends with the recipients of the working list, in some order, if and only if no kept original shares a deleted address |
| `RecipientLists.SharedAddressExample` | src/hooks.rs:1052-1057 | two recipients with one address, the first deleted: the working list keeps one, the MTA none |
| `RawMessage.PrintMessage` | src/session.rs:243-257 | the printing loop renders every field with its colon space, the blank line and the body |
| `RawMessage.ParseHeaders` | src/hooks.rs:1095-1133 | the parsing loop over offset and fields computes the line-by-line parse |
| `RawMessage.ParseField` | src/hooks.rs:1097-1132 | a printed field, however folded, is parsed as that one field |
| `RawMessage.ParsePrinted` | src/hooks.rs:1095-1133 | parsing a printed header block gives its fields and the body |
| `RawMessage.ParseTiles` | src/hooks.rs:1095-1133 | after a successful parse the fields and their breaks tile the header block, and the blank line follows |
| `RawMessage.ParsesExactly` | src/hooks.rs:1095-1133 | a message parses to given fields and body if and only if the fields tile its header block, number at most the limit, and a blank line follows; no other parse exists |
| `RawMessage.Reprint` | src/session.rs:243-257 | printing parsed fields never shortens the block and reproduces it exactly when every field ended in CRLF |
| `Matching.IndexFindsFirst` | src/hooks.rs:1157-1160 | the candidate list with partition_point gives the first identical original at or after the cursor |
| `Matching.RetainedBelow` | src/hooks.rs:1157-1163 | retained positions lie below the cursor, so they strictly increase |
| `Matching.GreedyIff` | src/hooks.rs:1148-1171 | what is retained is the one list of picks in which each field takes the first identical original after the previous pick, and takes none only if there is none |
| `Matching.BuildIndex` | src/hooks.rs:1134-1147 | the index lists every position of every field; occurrence numbers count earlier fields of the same name |
| `RawReplacement.FindCandidate` | src/hooks.rs:1157-1160 | the indexed lookup equals the linear scan |
| `RawReplacement.MatchFields` | src/hooks.rs:1148-1171 | the matching loop computes the greedy retention of the linear scan and inserts exactly the unmatched fields; fails exactly when one of those is not text |
| `RawReplacement.DeleteRest` | src/hooks.rs:1172-1182 | the reverse loop deletes exactly the unretained originals, last first, with the right occurrence numbers |
| `RawReplacement.RawReplace` | src/hooks.rs:1084-1193 | the indexed, looped form computes the specified outcome for every input, and is accepted if and only if encoded and raw length are within the limits, the base64 decodes, the block parses, each field without an identical original behind the previous match is text, each unretained name is text, and unretained originals, unmatched fields and a differing body number at most the modification limit |
| `RawReplacement.AcceptedIff` | src/hooks.rs:1084-1193 | the same acceptance condition for the specified outcome, stated on bytes, tiling and greedy picks |
| `RawReplacement.ScriptSize` | src/hooks.rs:1148-1192 | one modification per unretained original, per unmatched field and for a differing body |
| `Replacement.SurvivorsAreWanted` | src/hooks.rs:1148-1171 | the retained originals are, in order, the kept replacement fields |
| `Replacement.ReplacementRuns` | src/hooks.rs:1172-1188 | deletes, inserts and body replacement leave exactly the replacement fields and body |
| `ReplacementLaws.ReplacementCorrect` | src/hooks.rs:1084-1193 | whenever the replacement is accepted and encodable, the frames leave the MTA with exactly the parsed fields in order, normalised as `lookup` does, and the replacement body; nothing else changes |
| `ReplacementLaws.Rerender` | src/session.rs:243-257 | re-rendering the result gives the replacement bytes if and only if every header field and the blank line ended in CRLF and no colon space was lost |
| `ReplacementLaws.LossyExample` | src/hooks.rs:1152-1156 | a whole replacement that is accepted and sent without leading-space negotiation, but prints without the colon space its value was folded behind |
| `ReplacementLaws.BareFeedExample` | src/hooks.rs:1104-1108 | a whole replacement whose field ends in a bare line feed: accepted and sent, printed with CRLF |
| `ReplacementLaws.NoChange` | src/hooks.rs:1148-1192 | a replacement yields no modification if and only if it denotes the session's own fields and body |
| `Encodability.ScriptEncodable` | src/hooks.rs:1261-1267 | a replacement script can be sent exactly when each unretained name is a valid header name and each unmatched field has a valid name and a well-formed value |
| `ReplacementLaws.PrintedIsUnchanged` | src/hooks.rs:1084-1193 | submitting the printed message back, base64 encoded to four characters per three bytes, passes all limits and changes nothing if and only if names are printable and values folded, in both modes |
| `ReplacementLaws.AddedStaysOneField` | src/protocol.rs:630-652 | inside any well-formed block an added header is parsed back as exactly one field with its value if and only if its name is valid and its value folded, as every accepted value is |
| `ReplacementLaws.AddedIsSpaced` | src/protocol.rs:567-571 | a non-empty added value stands behind a colon and a space; one that begins with a line break does so only with leading space negotiated |
| `Protocol.CollectKeepsLast` | src/session.rs:303-305 | a macro batch gives the last value sent under a name |
| `Protocol.CollectCost` | src/session.rs:303-317 | a batch is charged the bytes of each name sent and of the last value under it |
| `Sessions.Session.constructor` | src/session.rs:168-183 | a new session is in the initial state and valid |
| `Sessions.Session.ResetMessage` | src/session.rs:199-204 | clears the transaction and every batch that is not per connection |
| `Sessions.Session.ActivateMacros` | src/session.rs:205-211 | moves the waiting batch of a command to the active ones, or drops the active one |
| `Sessions.Session.MacroValue` | src/session.rs:212-225 | returns the value at the stage whose command comes latest in a transaction (connect, HELO, MAIL, RCPT, DATA, end of headers, body end) among those that define the name, plain or braced, and none only if no stage does |
| `Sessions.Session.Account` | src/session.rs:226-236 | charges the bytes and fails exactly past the message limit |
| `Sessions.Session.AccountEnvelope` | src/session.rs:436-450 | charges every field plus one and fails exactly past the envelope limit |
| `Sessions.Session.RawMessage` | src/session.rs:243-257 | prints the session's own message in the negotiated mode |
| `Sessions.Session.Receive` | src/session.rs:258-435 | the new state, reply and event, or the error, are those of the state machine, and the invariant is kept |
| `Sessions.Session.AppendFrames` | src/session.rs:473-484 | appends a modification's frames unless one is oversized; the check on bytes produced can never fire |
| `Sessions.Session.Complete` | src/session.rs:452-568 | new state and frames are those of the state machine; on failure nothing has changed; the invariant is kept |
| `Sessions.SerialisedScript` | src/session.rs:461-485 | a serialised decision is its modifications' frames in order |
| `Sessions.SerialisedWithin` | src/session.rs:461-485 | modification frames total at most the message limit, each within the frame limit |
| `SessionInvariant.AgreeKeepsReplies` | src/session.rs:273-293 | a subscribed stage never has its no-reply bit negotiated |
| `SessionInvariant.AgreeWithinOffer` | src/session.rs:289-293 | only offered, wanted and supported actions and offered protocol bits are agreed on |
| `SessionInvariant.AgreesActions` | src/session.rs:289-293 | every action bit offered, wanted and supported is agreed on |
| `SessionInvariant.AgreesProtocol` | src/session.rs:273-293 | every offered protocol bit that waives a reply to an unused command, or asks for leading space, is agreed on |
| `SessionInvariant.HandleInv` | src/session.rs:258-435 | every accepted command keeps the invariant: state name determines what exists, a pending stage fixes the state, charges are exact, counts, bytes and macro bytes are within limits |
| `SessionInvariant.CompleteInv` | src/session.rs:452-568 | every carried-out decision keeps the invariant |
| `SessionInvariant.RefusalUndoesRecipient` | src/session.rs:554-560 | refusing a recipient restores the session before the attempt, apart from the bytes charged and macros used |
| `SessionInvariant.StoppedIsSilent` | src/session.rs:397-415 | once stopped no event occurs and the state stays until QUIT_NC or QUIT |
| `SessionInvariant.RequestHasItsParts` | src/hooks.rs:715-748 | at every callback the connection exists, and the sender from MAIL on, so the "missing" errors cannot occur |
| `History.RunExplained` | src/session.rs:258-568 | in every reachable state the invariant holds and the transaction is exactly what the log since the last MAIL says |
| `History.SnapshotIsHistory` | src/session.rs:324-402 | at every EOM callback: address and parameters are the first and the remaining fields of the last MAIL, exactly the recipients not refused since, headers in order, concatenated body, no transaction boundary in between, at least one recipient |
| `History.RecipientsBounded` | src/session.rs:436-450 | RCPT commands of one transaction, refused ones included, number at most half the envelope budget |
| `ProtocolOrder.RunPlaced` | src/session.rs:258-568 | in every reachable session the state is the phase the log is in: what was last connected, greeted, refused, sent and decided fixes the state and the callback waited for; a refused CONNECT or HELO stops the session |
| `Acceptance.CommandAccepted` | src/session.rs:258-450 | a command is accepted if and only if no decision is awaited, it is in order after the log, and its fields, bytes, headers and macros stay within the limits as counted on the log |
| `Acceptance.ScriptIff` | src/session.rs:461-485 | modifications are serialised if and only if each is encodable, each frame carries a letter whose action bit was agreed and fits the frame limit, and their predicted bytes fit the message limit |
| `Acceptance.DecisionAccepted` | src/session.rs:452-548 | a decision is carried out if and only if a callback waits for it, edits come only at EOM, in number, bytes and letters within what was agreed, and the reply is well formed |
| `Acceptance.RunsAreOrderly` | src/session.rs:258-568 | a log of commands and decisions is a run of the session if and only if each entry is allowed by the log before it |
| `ExampleRun.SmallRunEnds` | src/session.rs:258-435 | nine commands of a small transaction lead to an end-of-message callback: the run theorems are not empty |
| `MacroHistory.RunMacros` | src/session.rs:303-331 | active and waiting batches are those the log determines |
| `MacroHistory.VisibleBatch` | src/session.rs:199-211 | a batch is visible if and only if it was the last one sent before the latest matching command, used once, and not forgotten by a transaction boundary or a new connection since |
| `SessionLaws.RawMessageBounded` | src/session.rs:226-257 | in state Body the printed message is exactly as long as the accounted bytes, less one byte for each header that is printed without a colon space |
| `SessionLaws.EchoIsUnchanged` | src/hooks.rs:1084-1193 | in every reachable EOM session, answering with the printed message yields an empty list if and only if names are printable and values folded |
| `SessionLaws.DecisionMeans` | src/session.rs:452-548 | refused and discarded messages get no edit; otherwise the edits sent mean the modifications, within the output limits |
| `SessionLaws.OnlyNegotiated` | src/session.rs:455-466 | modifications are sent only at EOM and only with a negotiated capability |
| `Acceptance.OnlyAgreedEdits` | src/session.rs:461-485 | every edit frame written carries a response letter whose own action bit was agreed on and fits the frame limit |
| `SessionLaws.ServeReachable` | src/server.rs:101-162 | whatever the policy does, the driver moves between reachable sessions |
| `Driver.EvaluateWithProgress` | src/server.rs:166-191 | the keepalive loop over ticks, slow and failing writes and the deadline yields exactly the keepalives and the result of the timed specification |
| `Driver.ProgressBounded` | src/server.rs:166-191 | keepalives are an interval apart and stop before the deadline; while writes succeed, a policy done by the deadline gets its outcome through; one never done fails |
| `Driver.ProgressExact` | src/server.rs:166-191 | while writes take no time exactly one keepalive per interval is written before the policy is done or the deadline comes, and the result is the outcome or a timeout |
| `Driver.ServeFrame` | src/server.rs:109-149 | one turn writes keepalives, then replies, falling back when the decision fails |
| `Driver.HandleConnection` | src/server.rs:91-163 | the loop over the byte stream carries on exactly the specified conversation |
| `Driver.FallbackSucceeds` | src/server.rs:139-146 | the second `complete` always succeeds with exactly one frame, continue or tempfail by `fail_open` |
| `Driver.FailedDecisionReply` | src/server.rs:125-148 | a failed or invalid decision puts only keepalives and the fallback reply on the wire |
| `Driver.TurnFailsOnInputOnly` | src/server.rs:101-109 | a connection fails if and only if its input does: a bad frame or a refused command |
| `Replies.OptionsRoundTrip` | src/protocol.rs:231-249 | the MTA reads the agreed options off the negotiation reply |
| `Replies.NegotiationAnswered` | src/session.rs:268-299 | negotiation is answered with one frame, the agreed options followed by the macros asked for |
| `FinalReplies.ReplyIsOneLine` | src/session.rs:507-534 | a custom SMTP reply is accepted exactly for a 4xx or 5xx code, clean text and a matching enhanced code, and is read back as one clean line |
| `FinalReplies.ReplyLine` | src/session.rs:516-534 | the line is the three digits of the code, the enhanced code if there is one, and the text, with single spaces |
| `FinalReplies.EnhancedMeans` | src/session.rs:516-527 | an enhanced code is accepted exactly in the form class.subject.detail with the class of the reply code and one to three digits in each other part |
| `FinalReplies.VerdictReadBack` | src/session.rs:489-548 | the final frame tells the MTA the verdict |
| `FinalReplies.BothSidesAgree` | src/session.rs:489-548 | the session counts as refused or finished exactly what the response letter tells the MTA is so |
| `Replies.BitsAgree` | src/session.rs:334-432 | the milter withholds a reply by the same bit the MTA expects for each command letter |
| `Replies.DecisionAnswered` | src/server.rs:109-149 | at every subscribed stage a decision that can be carried out is written after the keepalives, takes effect, and is read by the MTA as that very verdict |
| `Replies.UnsubscribedEnd` | src/server.rs:111-126 | an end of message nobody subscribed to is answered with continue and nothing else |
| `Replies.ReplyDiscipline` | src/server.rs:101-162 | for every stream and policy, each recorded command the MTA waits on, by its own table from command letter to no-reply bit, gets exactly one final reply, every other one none; keepalives only while a subscribed callback is pending, edits only at EOM |
| `Replies.RepliesBalance` | src/server.rs:101-162 | as many final replies are written as the MTA waits for |
| `Replies.ConverseCovers` | src/server.rs:101-162 | the exchanges are, one by one, the commands framed at the front of the input; a normal end leaves no input unless the last command was QUIT, an error leaves some |
| `Replies.ConnectionAnswered` | src/server.rs:91-163 | coverage, discipline and balance together: the commands of the input are answered in order, each awaited one exactly once and no other |
| `Replies.AnswerConnection` | src/server.rs:91-163 | the connection loop keeps that promise |
| `Retry.Backoff` | src/hooks.rs:477-484 | at least 100 ms, below 5.1 s, and at least Retry-After up to the cap |
| `Retry.BackoffExact` | src/hooks.rs:477-484 | the delay is the larger of the doubling schedule from 100 ms and Retry-After, each capped at 5 s, plus the jitter |
| `Retry.Invoke` | src/hooks.rs:354-404 | at most retries + 2 requests with one id, at most one recovery, each pause exactly the backoff due after so many sleeps, no sleep reaching the deadline, every further request justified, every stop justified, the registration in force used |
| `Retry.NoRetryAfterTimeout` | src/hooks.rs:455-465 | a timed-out request is the last one |
| `Registration.RegistrationSafe` | src/hooks.rs:182-206 | under every interleaving at most one registration request is in flight and each registration leaves the cell at most once, so is taken for deregistration at most once |
| `Registration.NewerKept` | src/hooks.rs:369-383 | failures on other ids, any number of different ones in any order, never discard a valid registration nor cause another one |
| `Registration.OneReplacement` | src/hooks.rs:369-383 | any number of failures on registrations known at the start, current and older ones mixed, lead to at most one new registration, which stays |
| `Registration.DiscardsAreEarned` | src/hooks.rs:369-383 | over every schedule, with expiry and deregistration: whoever discarded a registration had been told that this very one is unknown while using it |
| `Registration.DiscardIsFinal` | src/hooks.rs:369-383 | a discarded id never stands in the cell again, the discarding task never uses it again, and nobody starts to |
| `Registration.TakenAndShared` | src/hooks.rs:182-206 | deregistration takes the stored id out, a valid stored id is used as it is, and a missing or expired one is registered anew |
| `Registration.CanFinish` | src/hooks.rs:354-383 | in every reachable state a task that wants a registration has a schedule that gives it one, and one that was refused gets another than it lost, so the lock never blocks for good |
| `Registration.RecoveryRuns` | src/hooks.rs:369-383 | an undisturbed recovery replaces the lost registration if it is still stored, and otherwise uses the stored one without registering; there is no second recovery |
| `Translation.CheckFrames` | src/hooks.rs:1265-1267 | succeeds exactly when every modification can be put on the wire |
| `Translation.CompilesIff` | src/hooks.rs:1000-1066 | the accumulated edits compile exactly when the described lists do: no original named twice, text where text is needed, addresses that convert |
| `Translation.SendableIff` | src/hooks.rs:1261-1267 | the compiled script goes on the wire exactly when every changed, deleted and added name, value and address is well formed |
| `Encodability.AddressEncodable` | src/protocol.rs:590-627 | address modifications go on the wire exactly for addresses and parameters without NUL, CR or LF, and non-empty where something is added |
| `Rulings.HeardAsSaid` | src/hooks.rs:1213-1242 | action, code, enhanced code and text are the last ones given, a whole response replacing all three; refused exactly when one of them is misshapen |
| `Rulings.RulingMeans` | src/hooks.rs:1268-1316 | accepted if and only if the last action is known and allowed at that stage, no response accompanies an action other than reject, and the last code, enhanced code and text given have the right types; a rejection replies with exactly those, 550 and "Rejected by policy" where none was given |
| `Translation.Translate` | src/hooks.rs:1196-1321 | accepted exactly for acceptable answers; running the accepted decision on the MTA's message gives what the answer describes (sets, then adds, then deletes on plain lists, or the replacement message with edits under /message void; quarantine holds) if and only if no header is set to the empty string; no modification before EOM |
| `EndToEnd.AnswerEndOfMessage` | src/server.rs:109-149 | scanner's answer to MTA's message in any reachable session: the turn always succeeds; if the answer is carried out, the edits written leave the MTA with what it describes exactly when no header is set to the empty string; otherwise only the fallback reply is written |

## Left out

- Integer widths: `usize` arithmetic is unbounded here, so the checked additions never overflow; header limits are taken below 2^32, where `as u32` does not truncate.
- Error texts: errors are told apart by kind, and the two HTTP error families by what the retry loop asks of them.
- JSON, UTF-8 and base64: answers arrive parsed, text is a predicate, base64 keeps only its length arithmetic; `array_index` and path spelling are part of parsing.
- Translation.Translate: which of several errors is returned is not stated; recipients are met up to order, and exactly when no kept one shares a deleted address.
- Retry.Invoke: building the request body is merged with obtaining the registration, as both can only fail the invocation.
- Sessions.Session.Receive: the half-updated session after an error is not described, since the driver drops it.
- `MacroLists::encode`: the encoded macro request is an input; it would only add an easy member.
- IP address syntax in CONNECT: a predicate of the caller.
- ESMTP parameter formatting in `Address::milter`: an input.
- `request` projection of properties, timestamps and macros: field plumbing; only its unreachable errors are covered.
- Deleting a recipient: the MTA model removes every recipient with that address; real queue behaviour beyond the documented indexes is not modelled.
- Driver.EvaluateWithProgress: when a tick and the policy are ready at the same moment the policy is taken first, where the program picks either.
- Driver.HandleConnection: a stop request is the end of input at a frame boundary; failures of reply writes and idle timeouts end the connection outside the model.
- A failed keepalive write: a comment calls it fatal, the code treats it as a policy failure and falls back, and so does the model.
- Startup registration retries, `serve`, HTTP, TLS, statistics and the command line: wrappers around libraries or counting.
- Fairness of the registration lock: that a waiting task can always be served is stated, not that it will be.
