/** Modifications and their wire form (src/protocol.rs:442-659). */
module Modifications {
  import opened Octets
  import opened Wire

  datatype Modification =
    | AddHeader(name: Bytes, value: Bytes)
    | InsertHeader(index: U32, name: Bytes, value: Bytes)
    | ChangeHeader(occurrence: U32, name: Bytes, value: Bytes)
    | ReplaceBody(body: Bytes)
    | InsertRawHeader(index: U32, name: Bytes, value: Bytes)
    | ChangeFrom(address: Bytes, parameters: Option<Bytes>)
    | AddRecipient(address: Bytes, parameters: Option<Bytes>)
    | DeleteRecipient(address: Bytes)
    | Quarantine(reason: Bytes)

  const BODY_CHUNK: nat := 65_536

  function Capability(m: Modification): bv32 {
    match m
    case AddHeader(_, _) => ADD_HEADERS
    case InsertHeader(_, _, _) => ADD_HEADERS
    case InsertRawHeader(_, _, _) => ADD_HEADERS
    case ChangeHeader(_, _, _) => CHANGE_HEADERS
    case ReplaceBody(_) => CHANGE_BODY
    case ChangeFrom(_, _) => CHANGE_FROM
    case AddRecipient(_, parameters) => if parameters.Some? then ADD_RECIPIENT_PAR else ADD_RECIPIENT
    case DeleteRecipient(_) => DELETE_RECIPIENT
    case Quarantine(_) => QUARANTINE
  }

  // ---- Header syntax ------------------------------------------------------

  predicate ValidName(name: Bytes) {
    name != [] && forall i :: 0 <= i < |name| ==> 33 <= name[i] <= 126 && name[i] != COLON
  }

  /** Header names hold no space, control, DEL or non-ASCII byte and no colon. */
  lemma {:induction false} NameMeans(name: Bytes)
    ensures ValidName(name) <==> |name| > 0 && forall i :: 0 <= i < |name| ==> name[i] > 32 && name[i] < 127 && name[i] != 58
  {
  }

  predicate IsBlank(b: Byte) {
    b == SP || b == TAB
  }

  predicate BlankAt(s: Bytes, i: nat) {
    i < |s| && IsBlank(s[i])
  }

  predicate BreakAt(s: Bytes, i: nat) {
    i < |s| && s[i] == LF
  }

  /** Every line feed is followed, inside the value, by a blank: folding, section 2.2.3 of RFC 5322. */
  predicate Folded(value: Bytes) {
    forall i: nat {:trigger BreakAt(value, i)} :: i < |value| && BreakAt(value, i) ==> BlankAt(value, i + 1)
  }

  predicate ClearAt(value: Bytes, i: nat)
    requires i < |value|
  {
    && (value[i] == CR ==> i + 1 < |value| && value[i + 1] == LF)
    && (value[i] < 32 ==> value[i] == TAB || value[i] == CR || value[i] == LF)
    && value[i] != 127
  }

  /** No carriage return outside a line break and no other control character. */
  predicate CleanText(value: Bytes) {
    forall i: nat :: i < |value| ==> ClearAt(value, i)
  }

  predicate HeaderValueOk(value: Bytes) {
    Folded(value) && CleanText(value)
  }

  /** The grammar of a value read from `from` on: text octets, and line breaks, LF or CR LF, that a
      space or tab follows. */
  predicate ReadsAsValue(value: Bytes, from: nat)
    requires from <= |value|
    decreases |value| - from
  {
    from == |value| ||
    (&& ReadsAsValue(value, from + 1)
     && (|| value[from] == 9 || 32 <= value[from] < 127 || value[from] > 127
         || (value[from] == 10 && from + 1 < |value| && (value[from + 1] == 32 || value[from + 1] == 9))
         || (value[from] == 13 && from + 1 < |value| && value[from + 1] == 10)))
  }

  lemma {:induction false} ReadsIff(value: Bytes, from: nat)
    requires from <= |value|
    ensures ReadsAsValue(value, from) <==>
            && (forall i: nat {:trigger BreakAt(value, i)} :: from <= i < |value| && BreakAt(value, i) ==> BlankAt(value, i + 1))
            && (forall i: nat :: from <= i < |value| ==> ClearAt(value, i))
    decreases |value| - from
  {
    if from < |value| {
      ReadsIff(value, from + 1);
      assert ReadsAsValue(value, from) <==>
             ReadsAsValue(value, from + 1) && (BreakAt(value, from) ==> BlankAt(value, from + 1)) && ClearAt(value, from);
    }
  }

  /** Values are accepted exactly when they follow the grammar. */
  lemma {:induction false} ValueMeans(value: Bytes)
    ensures HeaderValueOk(value) <==> ReadsAsValue(value, 0)
  {
    ReadsIff(value, 0);
  }

  /** The scanning loop of `header_value`; it accepts exactly the folded, control-free values. */
  method CheckHeaderValue(value: Bytes) returns (r: Result<()>)
    ensures r.Ok? <==> HeaderValueOk(value)
    ensures r.Err? ==> r.error == Invalid
  {
    var i := 0;
    while i < |value|
      invariant 0 <= i <= |value|
      invariant forall k: nat {:trigger BreakAt(value, k)} :: k < i && BreakAt(value, k) ==> BlankAt(value, k + 1)
      invariant forall k: nat :: k < i ==> ClearAt(value, k)
    {
      var c := value[i];
      if c == CR {
        i := i + 1;
        if i >= |value| || value[i] != LF {
          assert !ClearAt(value, i - 1);
          return Err(Invalid);
        }
        c := LF;
      }
      if c == LF {
        if i + 1 >= |value| || !IsBlank(value[i + 1]) {
          assert BreakAt(value, i) && !BlankAt(value, i + 1);
          return Err(Invalid);
        }
      } else if (c < 32 && c != TAB) || c == 127 {
        assert !ClearAt(value, i);
        return Err(Invalid);
      }
      i := i + 1;
    }
    r := Ok(());
  }

  /** No NUL and no line break: what addresses, parameters and reasons must satisfy. */
  predicate Clean(value: Bytes) {
    forall i :: 0 <= i < |value| ==> value[i] != NUL && value[i] != CR && value[i] != LF
  }

  // ---- Frames -------------------------------------------------------------

  /** The value as it travels: with leading-space negotiation the colon space is explicit. */
  function OnWire(value: Bytes, leading: bool): Bytes {
    if leading && value != [] then [SP] + value else value
  }

  function Chunks(body: Bytes): (r: seq<Bytes>)
    requires body != []
    ensures r != [] && forall k :: 0 <= k < |r| ==> 0 < |r[k]| <= BODY_CHUNK
    ensures forall k :: 0 <= k < |r| - 1 ==> |r[k]| == BODY_CHUNK
  {
    if |body| <= BODY_CHUNK then [body] else [body[..BODY_CHUNK]] + Chunks(body[BODY_CHUNK..])
  }

  function BodyFrames(body: Bytes): seq<Frame> {
    if body == [] then [Empty(RPL_BODY)]
    else
      var chunks := Chunks(body);
      seq(|chunks|, k requires 0 <= k < |chunks| => Frame(RPL_BODY, chunks[k]))
  }

  function HeaderFrames(command: Byte, index: Option<U32>, name: Bytes, value: Bytes): Result<seq<Frame>> {
    var f :- StringFrame(command, [name, value]);
    Ok([if index.Some? then Frame(command, ToBe(index.value) + f.payload) else f])
  }

  function Optional(p: Option<Bytes>): seq<Bytes> {
    if p.Some? then [p.value] else []
  }

  function AddressFrames(command: Byte, address: Bytes, parameters: Option<Bytes>): Result<seq<Frame>> {
    if !Clean(address) || address == [] || (parameters.Some? && !Clean(parameters.value)) then Err(Invalid)
    else
      var f :- StringFrame(command, [address] + Optional(parameters));
      Ok([f])
  }

  function TextFrames(command: Byte, text: Bytes): Result<seq<Frame>> {
    if !Clean(text) then Err(Invalid)
    else
      var f :- StringFrame(command, [text]);
      Ok([f])
  }

  /** `Modification::frames`. */
  function Frames(m: Modification, leading: bool): Result<seq<Frame>> {
    match m
    case InsertRawHeader(index, name, value) =>
      if !ValidName(name) || !HeaderValueOk(value) then Err(Invalid)
      else if leading then HeaderFrames(RPL_INSERT_HEADER, Some(index), name, value)
      else if StartsWith(value, SP) then HeaderFrames(RPL_INSERT_HEADER, Some(index), name, value[1..])
      else Err(Invalid)
    case ReplaceBody(body) => Ok(BodyFrames(body))
    case AddHeader(name, value) =>
      if !ValidName(name) || !HeaderValueOk(value) then Err(Invalid)
      else HeaderFrames(RPL_ADD_HEADER, None, name, OnWire(value, leading))
    case InsertHeader(index, name, value) =>
      if !ValidName(name) || !HeaderValueOk(value) then Err(Invalid)
      else HeaderFrames(RPL_INSERT_HEADER, Some(index), name, OnWire(value, leading))
    case ChangeHeader(occurrence, name, value) =>
      if !ValidName(name) || !HeaderValueOk(value) || occurrence == 0 then Err(Invalid)
      else HeaderFrames(RPL_CHANGE_HEADER, Some(occurrence), name, OnWire(value, leading))
    case ChangeFrom(address, parameters) => AddressFrames(RPL_CHANGE_FROM, address, parameters)
    case AddRecipient(address, parameters) =>
      AddressFrames(if parameters.Some? then RPL_ADD_RCPT_PAR else RPL_ADD_RCPT, address, parameters)
    case DeleteRecipient(address) => TextFrames(RPL_DELETE_RCPT, address)
    case Quarantine(reason) => TextFrames(RPL_QUARANTINE, reason)
  }

  // ---- Size prediction ----------------------------------------------------

  /** `Modification::payload_bytes`. */
  function PayloadBytes(m: Modification, leading: bool): nat {
    match m
    case ReplaceBody(body) => |body|
    case InsertRawHeader(_, name, value) => |name| + |value| + 6
    case AddHeader(name, value) => |name| + |value| + 2 + (if leading && value != [] then 1 else 0)
    case InsertHeader(_, name, value) => |name| + |value| + 2 + (if leading && value != [] then 1 else 0) + 4
    case ChangeHeader(_, name, value) => |name| + |value| + 2 + (if leading && value != [] then 1 else 0) + 4
    case ChangeFrom(address, p) => |address| + (if p.Some? then |p.value| + 2 else 1)
    case AddRecipient(address, p) => |address| + (if p.Some? then |p.value| + 2 else 1)
    case DeleteRecipient(value) => |value| + 1
    case Quarantine(value) => |value| + 1
  }

  function TotalPayload(fs: seq<Frame>): nat {
    if fs == [] then 0 else TotalPayload(fs[..|fs| - 1]) + |fs[|fs| - 1].payload|
  }

  function Payloads(fs: seq<Frame>): seq<Bytes> {
    seq(|fs|, k requires 0 <= k < |fs| => fs[k].payload)
  }

  lemma {:induction false} TotalIsConcat(fs: seq<Frame>)
    ensures TotalPayload(fs) == |Concat(Payloads(fs))|
  {
    if fs != [] {
      TotalIsConcat(fs[..|fs| - 1]);
      assert Payloads(fs)[..|fs| - 1] == Payloads(fs[..|fs| - 1]);
    }
  }

  lemma {:induction false} ChunksConcat(body: Bytes)
    requires body != []
    ensures Concat(Chunks(body)) == body
  {
    if |body| <= BODY_CHUNK {
      ConcatOne(body);
    } else {
      ChunksConcat(body[BODY_CHUNK..]);
      ConcatAppend([body[..BODY_CHUNK]], Chunks(body[BODY_CHUNK..]));
      ConcatOne(body[..BODY_CHUNK]);
      assert body == body[..BODY_CHUNK] + body[BODY_CHUNK..];
    }
  }

  /** Body replacement: the chunks are bounded, there is at least one, and together they are the body. */
  lemma {:induction false} BodyFramesCarryBody(body: Bytes)
    ensures var fs := BodyFrames(body);
            && |fs| > 0
            && Concat(Payloads(fs)) == body
            && (forall k :: 0 <= k < |fs| ==> fs[k].command == 98 && |fs[k].payload| <= 65_536)
            && (forall k :: 0 <= k < |fs| - 1 ==> |fs[k].payload| == 65_536)
  {
    var fs := BodyFrames(body);
    if body == [] {
      assert Payloads(fs) == [body];
      ConcatOne(body);
    } else {
      assert Payloads(fs) == Chunks(body);
      ChunksConcat(body);
    }
  }

  lemma {:induction false} JoinLengths(a: Bytes, b: Bytes)
    ensures |Join([a])| == |a| + 1
    ensures |Join([a, b])| == |a| + |b| + 2
  {
    assert Join([a]) == Join([]) + Terminated(a);
    assert [a, b][..1] == [a];
    assert Join([a, b]) == Join([a]) + Terminated(b);
  }

  lemma {:induction false} JoinOptional(a: Bytes, p: Option<Bytes>)
    ensures |Join([a] + Optional(p))| == |a| + if p.Some? then |p.value| + 2 else 1
  {
    JoinLengths(a, if p.Some? then p.value else []);
    assert [a] + Optional(p) == if p.Some? then [a, p.value] else [a];
  }

  lemma {:induction false} TotalOfOne(f: Frame)
    ensures TotalPayload([f]) == |f.payload|
  {
    assert [f][..0] == [];
  }

  lemma {:induction false} HeaderSize(command: Byte, index: Option<U32>, name: Bytes, value: Bytes)
    ensures var fs := HeaderFrames(command, index, name, value);
            fs.Ok? ==> TotalPayload(fs.value) == |name| + |value| + 2 + if index.Some? then 4 else 0
  {
    var fs := HeaderFrames(command, index, name, value);
    if fs.Ok? {
      JoinLengths(name, value);
      TotalOfOne(fs.value[0]);
    }
  }

  lemma {:induction false} AddressSize(command: Byte, address: Bytes, p: Option<Bytes>)
    ensures var fs := AddressFrames(command, address, p);
            fs.Ok? ==> TotalPayload(fs.value) == |address| + if p.Some? then |p.value| + 2 else 1
  {
    var fs := AddressFrames(command, address, p);
    if fs.Ok? {
      JoinOptional(address, p);
      TotalOfOne(fs.value[0]);
    }
  }

  lemma {:induction false} TextSize(command: Byte, text: Bytes)
    ensures var fs := TextFrames(command, text);
            fs.Ok? ==> TotalPayload(fs.value) == |text| + 1
  {
    var fs := TextFrames(command, text);
    if fs.Ok? {
      JoinLengths(text, []);
      TotalOfOne(fs.value[0]);
    }
  }

  /** The size predicted before serialising is the size produced, except that a raw
      insertion without leading-space negotiation drops its colon space. */
  lemma {:induction false} SizePrediction(m: Modification, leading: bool)
    requires Frames(m, leading).Ok?
    ensures TotalPayload(Frames(m, leading).value) ==
            PayloadBytes(m, leading) - (if m.InsertRawHeader? && !leading then 1 else 0)
  {
    match m
    case ReplaceBody(body) =>
      BodyFramesCarryBody(body);
      TotalIsConcat(BodyFrames(body));
    case InsertRawHeader(index, name, value) =>
      HeaderSize(RPL_INSERT_HEADER, Some(index), name, if leading then value else value[1..]);
    case AddHeader(name, value) => HeaderSize(RPL_ADD_HEADER, None, name, OnWire(value, leading));
    case InsertHeader(index, name, value) =>
      HeaderSize(RPL_INSERT_HEADER, Some(index), name, OnWire(value, leading));
    case ChangeHeader(occurrence, name, value) =>
      HeaderSize(RPL_CHANGE_HEADER, Some(occurrence), name, OnWire(value, leading));
    case ChangeFrom(a, p) => AddressSize(RPL_CHANGE_FROM, a, p);
    case AddRecipient(a, p) => AddressSize(if p.Some? then RPL_ADD_RCPT_PAR else RPL_ADD_RCPT, a, p);
    case DeleteRecipient(a) => TextSize(RPL_DELETE_RCPT, a);
    case Quarantine(a) => TextSize(RPL_QUARANTINE, a);
  }
}
