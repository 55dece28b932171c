/** The MTA's side of end-of-message editing: a message it holds, the edit each
    response frame denotes, and their effect one frame at a time. Insert positions
    are absolute and zero-based, change positions are one-based occurrences per
    name, and an empty changed value deletes (src/protocol.rs:448, 454). */
module Mta {
  import opened Octets
  import opened Wire
  import opened Modifications

  /** A header field as it travels between MTA and milter. */
  datatype Field = Field(name: Bytes, value: Bytes)

  datatype Party = Party(address: Bytes, parameters: seq<Bytes>)

  /** `replacement` accumulates body chunks; the old body is kept until one arrives. */
  datatype Message = Message(
    headers: seq<Field>, body: Bytes, replacement: Option<Bytes>,
    sender: Party, recipients: seq<Party>, held: bool)
  {
    function FinalBody(): Bytes {
      if replacement.Some? then replacement.value else body
    }
  }

  datatype Edit =
    | Add(field: Field)
    | Insert(index: nat, field: Field)
    | Change(occurrence: nat, field: Field)
    | Chunk(bytes: Bytes)
    | From(party: Party)
    | AddTo(party: Party)
    | DeleteTo(address: Bytes)
    | Hold

  // ---- Reading a response frame -------------------------------------------

  function ReadFields(p: Bytes): Option<Field> {
    match Strings(p)
    case Ok(v) => if |v| == 2 then Some(Field(v[0], v[1])) else None
    case Err(_) => None
  }

  function ReadParty(p: Bytes): Option<Party> {
    match Strings(p)
    case Ok(v) => if |v| == 1 || |v| == 2 then Some(Party(v[0], v[1..])) else None
    case Err(_) => None
  }

  function ReadEdit(f: Frame): Option<Edit> {
    var p := f.payload;
    if f.command == RPL_ADD_HEADER then
      var field := ReadFields(p);
      if field.Some? then Some(Add(field.value)) else None
    else if f.command == RPL_INSERT_HEADER || f.command == RPL_CHANGE_HEADER then
      var field := if |p| < 4 then None else ReadFields(p[4..]);
      if field.None? then None
      else if f.command == RPL_INSERT_HEADER then Some(Insert(FromBe(p[..4]), field.value))
      else Some(Change(FromBe(p[..4]), field.value))
    else if f.command == RPL_BODY then Some(Chunk(p))
    else if f.command == RPL_CHANGE_FROM || f.command == RPL_ADD_RCPT || f.command == RPL_ADD_RCPT_PAR || f.command == RPL_DELETE_RCPT then
      var party := ReadParty(p);
      if party.None? then None
      else if f.command == RPL_CHANGE_FROM then Some(From(party.value))
      else if f.command == RPL_DELETE_RCPT then Some(DeleteTo(party.value.address))
      else Some(AddTo(party.value))
    else if f.command == RPL_QUARANTINE then Some(Hold)
    else None
  }

  // ---- Effect -------------------------------------------------------------

  /** How many of `fields` carry this name. */
  function Count(fields: seq<Field>, name: Bytes): (r: nat)
    ensures r <= |fields|
  {
    if fields == [] then 0
    else Count(fields[..|fields| - 1], name) + if SameName(fields[|fields| - 1].name, name) then 1 else 0
  }

  /** Where the given one-based occurrence of a name stands, if there is one. */
  function Position(fields: seq<Field>, name: Bytes, occurrence: nat): (r: Option<nat>)
    ensures r.Some? ==> r.value < |fields|
  {
    if fields == [] then None
    else
      var last := |fields| - 1;
      if SameName(fields[last].name, name) && Count(fields[..last], name) + 1 == occurrence then Some(last)
      else Position(fields[..last], name, occurrence)
  }

  /** Deleting an address removes every recipient that carries it. */
  function Without(parties: seq<Party>, address: Bytes): seq<Party> {
    if parties == [] then []
    else (if parties[0].address == address then [] else [parties[0]]) + Without(parties[1..], address)
  }

  function InsertAt<T>(list: seq<T>, index: nat, item: T): seq<T>
    requires index <= |list|
  {
    list[..index] + [item] + list[index..]
  }

  function RemoveAt<T>(list: seq<T>, index: nat): seq<T>
    requires index < |list|
  {
    list[..index] + list[index + 1..]
  }

  /** Partial: an insert position past the end or a missing occurrence has no meaning. */
  function Apply(m: Message, e: Edit): Option<Message> {
    match e
    case Add(field) => Some(m.(headers := m.headers + [field]))
    case Insert(index, field) =>
      if index <= |m.headers| then Some(m.(headers := InsertAt(m.headers, index, field))) else None
    case Change(occurrence, field) =>
      (match Position(m.headers, field.name, occurrence)
       case None => None
       case Some(i) =>
         if field.value == [] then Some(m.(headers := RemoveAt(m.headers, i)))
         else Some(m.(headers := m.headers[i := field])))
    case Chunk(bytes) =>
      Some(m.(replacement := Some((if m.replacement.Some? then m.replacement.value else []) + bytes)))
    case From(party) => Some(m.(sender := party))
    case AddTo(party) => Some(m.(recipients := m.recipients + [party]))
    case DeleteTo(address) => Some(m.(recipients := Without(m.recipients, address)))
    case Hold => Some(m.(held := true))
  }

  /** One frame more. */
  function ApplyNext(before: Option<Message>, f: Frame): Option<Message> {
    if before.Some? && ReadEdit(f).Some? then Apply(before.value, ReadEdit(f).value) else None
  }

  function ApplyFrames(m: Message, fs: seq<Frame>): Option<Message> {
    if fs == [] then Some(m) else ApplyNext(ApplyFrames(m, fs[..|fs| - 1]), fs[|fs| - 1])
  }

  // ---- Modifications ------------------------------------------------------

  /** The edit a modification stands for once it can be put on the wire. */
  function EditOf(m: Modification, leading: bool): Edit {
    match m
    case AddHeader(name, value) => Add(Field(name, OnWire(value, leading)))
    case InsertHeader(index, name, value) => Insert(index, Field(name, OnWire(value, leading)))
    case ChangeHeader(occurrence, name, value) => Change(occurrence, Field(name, OnWire(value, leading)))
    case InsertRawHeader(index, name, value) =>
      Insert(index, Field(name, if leading || value == [] then value else value[1..]))
    case ReplaceBody(body) => Chunk(body)
    case ChangeFrom(address, p) => From(Party(address, Optional(p)))
    case AddRecipient(address, p) => AddTo(Party(address, Optional(p)))
    case DeleteRecipient(address) => DeleteTo(address)
    case Quarantine(_) => Hold
  }

  /** Run a script of modifications from the front. */
  function Run(m: Message, mods: seq<Modification>, leading: bool): Option<Message> {
    if mods == [] then Some(m)
    else
      match Run(m, mods[..|mods| - 1], leading)
      case None => None
      case Some(before) => Apply(before, EditOf(mods[|mods| - 1], leading))
  }

  lemma {:induction false} RunSnoc(m: Message, mods: seq<Modification>, last: Modification, leading: bool)
    ensures Run(m, mods + [last], leading) ==
            match Run(m, mods, leading)
            case None => None
            case Some(before) => Apply(before, EditOf(last, leading))
  {
    assert (mods + [last])[..|mods|] == mods;
  }

  lemma {:induction false} RunAppend(m: Message, a: seq<Modification>, b: seq<Modification>, leading: bool)
    ensures Run(m, a + b, leading) ==
            if Run(m, a, leading).Some? then Run(Run(m, a, leading).value, b, leading) else None
  {
    if b == [] {
      assert a + b == a;
    } else {
      RunAppend(m, a, b[..|b| - 1], leading);
      assert (a + b)[..|a + b| - 1] == a + b[..|b| - 1];
    }
  }

  lemma {:induction false} ApplySnoc(m: Message, fs: seq<Frame>, f: Frame)
    ensures ApplyFrames(m, fs + [f]) == ApplyNext(ApplyFrames(m, fs), f)
  {
    assert (fs + [f])[..|fs|] == fs;
  }

  lemma {:induction false} ApplyFramesAppend(m: Message, a: seq<Frame>, b: seq<Frame>)
    ensures ApplyFrames(m, a + b) ==
            if ApplyFrames(m, a).Some? then ApplyFrames(ApplyFrames(m, a).value, b) else None
  {
    if b == [] {
      assert a + b == a;
    } else {
      var front, last := b[..|b| - 1], b[|b| - 1];
      ApplyFramesAppend(m, a, front);
      Reassociate(a, front, [last]);
      assert b == front + [last];
      ApplySnoc(m, a + front, last);
      if ApplyFrames(m, a).Some? {
        ApplySnoc(ApplyFrames(m, a).value, front, last);
      }
    }
  }

  lemma {:induction false} ApplyOne(m: Message, f: Frame)
    ensures ApplyFrames(m, [f]) == if ReadEdit(f).Some? then Apply(m, ReadEdit(f).value) else None
  {
    assert [f][..0] == [];
  }

  lemma {:induction false} ReadFieldsOf(name: Bytes, value: Bytes)
    requires NulFree(name) && NulFree(value)
    ensures ReadFields(Join([name, value])) == Some(Field(name, value))
  {
    StringsRoundTrip(Join([name, value]), [name, value]);
  }

  lemma {:induction false} ReadPartyOf(address: Bytes, p: Option<Bytes>)
    requires NulFree(address) && (p.Some? ==> NulFree(p.value))
    ensures ReadParty(Join([address] + Optional(p))) == Some(Party(address, Optional(p)))
  {
    StringsRoundTrip(Join([address] + Optional(p)), [address] + Optional(p));
    assert ([address] + Optional(p))[1..] == Optional(p);
  }

  lemma {:induction false} ReadHeaderFrames(command: Byte, index: Option<U32>, name: Bytes, value: Bytes)
    requires NulFree(name) && NulFree(value)
    ensures HeaderFrames(command, index, name, value).Ok?
    ensures var fs := HeaderFrames(command, index, name, value).value;
            && |fs| == 1 && fs[0].command == command
            && (index.None? ==> ReadFields(fs[0].payload) == Some(Field(name, value)))
            && (index.Some? ==> |fs[0].payload| >= 4 && FromBe(fs[0].payload[..4]) == index.value
                                && ReadFields(fs[0].payload[4..]) == Some(Field(name, value)))
  {
    ReadFieldsOf(name, value);
    if index.Some? {
      BeRoundTrip(index.value);
      var p := ToBe(index.value) + Join([name, value]);
      assert p[..4] == ToBe(index.value) && p[4..] == Join([name, value]);
    }
  }

  lemma {:induction false} HeaderFramesMean(m: Modification, leading: bool)
    requires m.AddHeader? || m.InsertHeader? || m.ChangeHeader? || m.InsertRawHeader?
    requires Frames(m, leading).Ok?
    ensures var fs := Frames(m, leading).value;
            |fs| == 1 && ReadEdit(fs[0]) == Some(EditOf(m, leading))
  {
    match m
    case AddHeader(name, value) => ReadHeaderFrames(RPL_ADD_HEADER, None, name, OnWire(value, leading));
    case InsertHeader(index, name, value) => ReadHeaderFrames(RPL_INSERT_HEADER, Some(index), name, OnWire(value, leading));
    case ChangeHeader(occurrence, name, value) =>
      ReadHeaderFrames(RPL_CHANGE_HEADER, Some(occurrence), name, OnWire(value, leading));
    case InsertRawHeader(index, name, value) =>
      ReadHeaderFrames(RPL_INSERT_HEADER, Some(index), name, if leading then value else value[1..]);
    case _ =>
  }

  lemma {:induction false} AddressFramesMean(command: Byte, address: Bytes, p: Option<Bytes>)
    requires AddressFrames(command, address, p).Ok?
    ensures var fs := AddressFrames(command, address, p).value;
            |fs| == 1 && fs[0].command == command && ReadParty(fs[0].payload) == Some(Party(address, Optional(p)))
  {
    ReadPartyOf(address, p);
  }

  lemma {:induction false} TextFramesMean(command: Byte, text: Bytes)
    requires TextFrames(command, text).Ok?
    ensures var fs := TextFrames(command, text).value;
            |fs| == 1 && fs[0].command == command && ReadParty(fs[0].payload) == Some(Party(text, []))
  {
    ReadPartyOf(text, None);
    assert [text] + Optional(None) == [text];
  }

  lemma {:induction false} ReadEnvelopeEdit(f: Frame, party: Party)
    requires ReadParty(f.payload) == Some(party)
    ensures f.command == RPL_CHANGE_FROM ==> ReadEdit(f) == Some(From(party))
    ensures f.command == RPL_ADD_RCPT || f.command == RPL_ADD_RCPT_PAR ==> ReadEdit(f) == Some(AddTo(party))
    ensures f.command == RPL_DELETE_RCPT ==> ReadEdit(f) == Some(DeleteTo(party.address))
    ensures f.command == RPL_QUARANTINE ==> ReadEdit(f) == Some(Hold)
  {
  }

  lemma {:induction false} ChangeFromMeans(address: Bytes, p: Option<Bytes>, leading: bool)
    requires Frames(ChangeFrom(address, p), leading).Ok?
    ensures var fs := Frames(ChangeFrom(address, p), leading).value;
            |fs| == 1 && ReadEdit(fs[0]) == Some(From(Party(address, Optional(p))))
  {
    AddressFramesMean(RPL_CHANGE_FROM, address, p);
    ReadEnvelopeEdit(Frames(ChangeFrom(address, p), leading).value[0], Party(address, Optional(p)));
  }

  lemma {:induction false} AddRecipientMeans(address: Bytes, p: Option<Bytes>, leading: bool)
    requires Frames(AddRecipient(address, p), leading).Ok?
    ensures var fs := Frames(AddRecipient(address, p), leading).value;
            |fs| == 1 && ReadEdit(fs[0]) == Some(AddTo(Party(address, Optional(p))))
  {
    AddressFramesMean(if p.Some? then RPL_ADD_RCPT_PAR else RPL_ADD_RCPT, address, p);
    ReadEnvelopeEdit(Frames(AddRecipient(address, p), leading).value[0], Party(address, Optional(p)));
  }

  lemma {:induction false} DeleteRecipientMeans(address: Bytes, leading: bool)
    requires Frames(DeleteRecipient(address), leading).Ok?
    ensures var fs := Frames(DeleteRecipient(address), leading).value;
            |fs| == 1 && ReadEdit(fs[0]) == Some(DeleteTo(address))
  {
    TextFramesMean(RPL_DELETE_RCPT, address);
    ReadEnvelopeEdit(Frames(DeleteRecipient(address), leading).value[0], Party(address, []));
  }

  lemma {:induction false} QuarantineMeans(reason: Bytes, leading: bool)
    requires Frames(Quarantine(reason), leading).Ok?
    ensures var fs := Frames(Quarantine(reason), leading).value;
            |fs| == 1 && ReadEdit(fs[0]) == Some(Hold)
  {
    TextFramesMean(RPL_QUARANTINE, reason);
    ReadEnvelopeEdit(Frames(Quarantine(reason), leading).value[0], Party(reason, []));
  }

  lemma {:induction false} ChunksAccumulate(m: Message, fs: seq<Frame>)
    requires |fs| > 0
    requires forall k :: 0 <= k < |fs| ==> fs[k].command == RPL_BODY
    ensures ApplyFrames(m, fs) == Apply(m, Chunk(Concat(Payloads(fs))))
  {
    var last := |fs| - 1;
    var before := fs[..last];
    assert Payloads(fs)[..last] == Payloads(before);
    if last == 0 {
      ApplyOne(m, fs[0]);
      assert fs == [fs[0]];
      assert Payloads(fs) == [fs[0].payload];
      ConcatOne(fs[0].payload);
    } else {
      ChunksAccumulate(m, before);
      var kept := if m.replacement.Some? then m.replacement.value else [];
      var sent := Concat(Payloads(before));
      assert kept + sent + fs[last].payload == kept + (sent + fs[last].payload);
    }
  }

  /** What the MTA reads off a modification's frames is the edit it stands for. */
  lemma {:induction false} FramesMean(msg: Message, m: Modification, leading: bool)
    requires Frames(m, leading).Ok?
    ensures ApplyFrames(msg, Frames(m, leading).value) == Apply(msg, EditOf(m, leading))
  {
    var fs := Frames(m, leading).value;
    if m.ReplaceBody? {
      BodyFramesCarryBody(m.body);
      ChunksAccumulate(msg, fs);
    } else {
      match m {
        case ChangeFrom(address, p) => ChangeFromMeans(address, p, leading);
        case AddRecipient(address, p) => AddRecipientMeans(address, p, leading);
        case DeleteRecipient(address) => DeleteRecipientMeans(address, leading);
        case Quarantine(reason) => QuarantineMeans(reason, leading);
        case _ => HeaderFramesMean(m, leading);
      }
      assert fs == [fs[0]];
      ApplyOne(msg, fs[0]);
    }
  }

  predicate AllEncodable(mods: seq<Modification>, leading: bool) {
    forall k :: 0 <= k < |mods| ==> Frames(mods[k], leading).Ok?
  }

  function ScriptFrames(mods: seq<Modification>, leading: bool): seq<Frame>
    requires AllEncodable(mods, leading)
  {
    if mods == [] then []
    else ScriptFrames(mods[..|mods| - 1], leading) + Frames(mods[|mods| - 1], leading).value
  }

  /** Sending a whole script frame by frame has the meaning of the script. */
  lemma {:induction false} ScriptFramesMean(msg: Message, mods: seq<Modification>, leading: bool)
    requires AllEncodable(mods, leading)
    ensures ApplyFrames(msg, ScriptFrames(mods, leading)) == Run(msg, mods, leading)
  {
    if mods != [] {
      var last := |mods| - 1;
      ScriptFramesMean(msg, mods[..last], leading);
      ApplyFramesAppend(msg, ScriptFrames(mods[..last], leading), Frames(mods[last], leading).value);
      var before := Run(msg, mods[..last], leading);
      if before.Some? {
        FramesMean(before.value, mods[last], leading);
      }
    }
  }

  // ---- Occurrence numbers -------------------------------------------------

  lemma {:induction false} CountPrefix(fields: seq<Field>, name: Bytes, i: nat)
    requires i < |fields| && SameName(fields[i].name, name)
    ensures Count(fields[..i], name) < Count(fields, name)
  {
    var last := |fields| - 1;
    if i < last {
      CountPrefix(fields[..last], name, i);
      assert fields[..last][..i] == fields[..i];
    }
  }

  /** Counting the earlier fields of the same name addresses a field exactly. */
  lemma {:induction false} PositionOf(fields: seq<Field>, i: nat)
    requires i < |fields|
    ensures Position(fields, fields[i].name, Count(fields[..i], fields[i].name) + 1) == Some(i)
  {
    var last := |fields| - 1;
    if i < last {
      var name := fields[i].name;
      CountPrefix(fields[..last], name, i);
      assert fields[..last][..i] == fields[..i];
      PositionOf(fields[..last], i);
    }
  }
}
