/** Milter framing: length-prefixed frames, NUL-terminated string lists,
    commands, and the modifications sent back to the MTA (src/protocol.rs). */
module Wire {
  import opened Octets

  // Command letters.
  const CMD_NEGOTIATE: Byte := 79  // 'O'
  const CMD_CONNECT: Byte := 67  // 'C'
  const CMD_MACRO: Byte := 68  // 'D'
  const CMD_HELO: Byte := 72  // 'H'
  const CMD_MAIL: Byte := 77  // 'M'
  const CMD_RCPT: Byte := 82  // 'R'
  const CMD_DATA: Byte := 84  // 'T'
  const CMD_HEADER: Byte := 76  // 'L'
  const CMD_EOH: Byte := 78  // 'N'
  const CMD_BODY: Byte := 66  // 'B'
  const CMD_EOM: Byte := 69  // 'E'
  const CMD_ABORT: Byte := 65  // 'A'
  const CMD_QUIT: Byte := 81  // 'Q'
  const CMD_QUIT_NC: Byte := 75  // 'K'
  const CMD_UNKNOWN: Byte := 85  // 'U'

  // Response letters.
  const RPL_ADD_HEADER: Byte := 104  // 'h'
  const RPL_INSERT_HEADER: Byte := 105  // 'i'
  const RPL_CHANGE_HEADER: Byte := 109  // 'm'
  const RPL_BODY: Byte := 98  // 'b'
  const RPL_CHANGE_FROM: Byte := 101  // 'e'
  const RPL_ADD_RCPT: Byte := 43  // '+'
  const RPL_ADD_RCPT_PAR: Byte := 50  // '2'
  const RPL_DELETE_RCPT: Byte := 45  // '-'
  const RPL_QUARANTINE: Byte := 113  // 'q'
  const RPL_CONTINUE: Byte := 99  // 'c'
  const RPL_ACCEPT: Byte := 97  // 'a'
  const RPL_REJECT: Byte := 114  // 'r'
  const RPL_TEMPFAIL: Byte := 116  // 't'
  const RPL_DISCARD: Byte := 100  // 'd'
  const RPL_REPLY: Byte := 121  // 'y'
  const RPL_SHUTDOWN: Byte := 52  // '4'
  const RPL_PROGRESS: Byte := 112  // 'p'

  // Address families in CONNECT.
  const FAMILY_UNKNOWN: Byte := 85  // 'U'
  const FAMILY_INET: Byte := 52  // '4'
  const FAMILY_INET6: Byte := 54  // '6'
  const FAMILY_LOCAL: Byte := 76  // 'L'

  // ---- Frames -------------------------------------------------------------

  datatype Frame = Frame(command: Byte, payload: Bytes)

  function Empty(command: Byte): Frame {
    Frame(command, [])
  }

  function Encode(f: Frame): (r: Result<Bytes>)
    ensures r.Ok? <==> |f.payload| + 1 < 0x1_0000_0000
  {
    if |f.payload| + 1 < 0x1_0000_0000 then
      Ok(ToBe(|f.payload| + 1) + [f.command] + f.payload)
    else
      Err(Limit)
  }

  /** Four bytes of length, most significant first, counting the command; then command and payload. */
  lemma {:induction false} FrameLayout(f: Frame)
    requires Encode(f).Ok?
    ensures var r := Encode(f).value;
            && |r| == |f.payload| + 5
            && r[0] as int * 0x100_0000 + r[1] as int * 0x1_0000 + r[2] as int * 0x100 + r[3] == |f.payload| + 1
            && r[4] == f.command && r[5..] == f.payload
  {
    var r := Encode(f).value;
    BeRoundTrip(|f.payload| + 1);
    assert r[..4] == ToBe(|f.payload| + 1);
    assert FromBe(r[..4]) == |f.payload| + 1;
  }

  datatype Read = Eof | Got(frame: Frame, rest: Bytes) | Failed(error: Error)

  /** One frame off the front of the stream; end of input is normal only between frames. */
  function ReadFrame(input: Bytes, max: nat): Read {
    if input == [] then Eof
    else if |input| < 4 then Failed(Io)
    else
      var length := FromBe(input[..4]);
      if length == 0 then Failed(Invalid)
      else if length > max then Failed(Limit)
      else if |input| < 4 + length then Failed(Io)
      else Got(Frame(input[4], input[5..4 + length]), input[4 + length..])
  }

  /** A frame that fits the reader's limit is read back, and only its own bytes are consumed. */
  lemma {:induction false} ReadEncoded(f: Frame, rest: Bytes, max: nat)
    requires Encode(f).Ok? && |f.payload| + 1 <= max
    ensures ReadFrame(Encode(f).value + rest, max) == Got(f, rest)
  {
    var input := Encode(f).value + rest;
    BeRoundTrip(|f.payload| + 1);
    assert input[..4] == ToBe(|f.payload| + 1);
    assert input[5..4 + (|f.payload| + 1)] == f.payload;
    assert input[4 + (|f.payload| + 1)..] == rest;
  }

  /** Every successful read re-encodes to exactly the bytes it consumed. */
  lemma {:induction false} ReadConsumesEncoding(input: Bytes, max: nat)
    requires ReadFrame(input, max).Got?
    ensures var r := ReadFrame(input, max);
            && 1 <= |r.frame.payload| + 1 <= max
            && Encode(r.frame).Ok?
            && input == Encode(r.frame).value + r.rest
  {
    var r := ReadFrame(input, max);
    var length := FromBe(input[..4]);
    BeInjective(input[..4]);
    assert |r.frame.payload| + 1 == length;
    assert input == input[..4] + [input[4]] + input[5..4 + length] + input[4 + length..];
  }

  /** Why a read fails: the stream ends within a frame, the length is zero or over the limit. */
  lemma {:induction false} ReadFailure(input: Bytes, max: nat)
    ensures var r := ReadFrame(input, max);
            && (r.Eof? <==> input == [])
            && (0 < |input| < 4 ==> r == Failed(Io))
            && (|input| >= 4 ==>
                  var length := input[0] as int * 0x100_0000 + input[1] as int * 0x1_0000 + input[2] as int * 0x100 + input[3];
                  && (length == 0 ==> r == Failed(Invalid))
                  && (length > 0 && length > max ==> r == Failed(Limit))
                  && (0 < length <= max && |input| < 4 + length ==> r == Failed(Io))
                  && (0 < length <= max && |input| >= 4 + length ==> r.Got?))
  {
    if |input| >= 4 {
      var p := input[..4];
      assert p[0] == input[0] && p[1] == input[1] && p[2] == input[2] && p[3] == input[3];
      assert FromBe(p) == input[0] as int * 0x100_0000 + input[1] as int * 0x1_0000 + input[2] as int * 0x100 + input[3];
    }
  }

  function ReadAll(input: Bytes, max: nat): Result<seq<Frame>>
    decreases |input|
  {
    match ReadFrame(input, max)
    case Eof => Ok([])
    case Failed(e) => Err(e)
    case Got(f, rest) =>
      var others :- ReadAll(rest, max);
      Ok([f] + others)
  }

  predicate Fits(f: Frame, max: nat) {
    |f.payload| + 1 <= max && |f.payload| + 1 < 0x1_0000_0000
  }

  predicate AllFit(fs: seq<Frame>, max: nat) {
    forall k :: 0 <= k < |fs| ==> Fits(fs[k], max)
  }

  function EncodeAll(fs: seq<Frame>): Bytes
    requires forall k :: 0 <= k < |fs| ==> Encode(fs[k]).Ok?
  {
    if fs == [] then [] else Encode(fs[0]).value + EncodeAll(fs[1..])
  }

  lemma {:induction false} ReadAllEncodes(input: Bytes, max: nat)
    requires ReadAll(input, max).Ok?
    ensures var fs := ReadAll(input, max).value;
            AllFit(fs, max) && input == EncodeAll(fs)
    decreases |input|
  {
    match ReadFrame(input, max)
    case Eof =>
    case Got(f, rest) =>
      ReadConsumesEncoding(input, max);
      ReadAllEncodes(rest, max);
      var others := ReadAll(rest, max).value;
      assert ([f] + others)[1..] == others;
  }

  lemma {:induction false} ReadAllOfEncoded(fs: seq<Frame>, max: nat)
    requires AllFit(fs, max)
    ensures ReadAll(EncodeAll(fs), max) == Ok(fs)
  {
    if fs != [] {
      assert Fits(fs[0], max);
      ReadEncoded(fs[0], EncodeAll(fs[1..]), max);
      ReadAllOfEncoded(fs[1..], max);
      assert fs == [fs[0]] + fs[1..];
    }
  }

  /** Reading inverts writing: a stream is read as `fs` exactly when it is the
      concatenation of their encodings and each of them is within the limit. */
  lemma {:induction false} StreamRoundTrip(input: Bytes, fs: seq<Frame>, max: nat)
    ensures ReadAll(input, max) == Ok(fs) <==>
            AllFit(fs, max) && input == EncodeAll(fs)
  {
    if ReadAll(input, max).Ok? {
      ReadAllEncodes(input, max);
    }
    if AllFit(fs, max) {
      ReadAllOfEncoded(fs, max);
    }
  }

  // ---- NUL-terminated string lists ----------------------------------------

  predicate NulFree(s: Bytes) {
    forall i :: 0 <= i < |s| ==> s[i] != NUL
  }

  predicate AllNulFree(values: seq<Bytes>) {
    forall k :: 0 <= k < |values| ==> NulFree(values[k])
  }

  function Terminated(value: Bytes): Bytes {
    value + [NUL]
  }

  function Join(values: seq<Bytes>): Bytes {
    if values == [] then [] else Join(values[..|values| - 1]) + Terminated(values[|values| - 1])
  }

  /** Split after every NUL. */
  function Pieces(p: Bytes): (r: seq<Bytes>)
    ensures AllNulFree(r)
  {
    match Find(p, 0, NUL)
    case None => []
    case Some(i) => [p[..i]] + Pieces(p[i + 1..])
  }

  function Strings(p: Bytes): (r: Result<seq<Bytes>>)
    ensures r.Ok? ==> AllNulFree(r.value)
  {
    if p == [] then Ok([])
    else if p[|p| - 1] != NUL then Err(Invalid)
    else Ok(Pieces(p))
  }

  lemma {:induction false} JoinAppend(a: seq<Bytes>, b: seq<Bytes>)
    ensures Join(a + b) == Join(a) + Join(b)
  {
    if b == [] {
      assert a + b == a;
    } else {
      var front, last := b[..|b| - 1], b[|b| - 1];
      JoinAppend(a, front);
      assert (a + b)[..|a + b| - 1] == a + front;
      Reassociate(Join(a), Join(front), Terminated(last));
    }
  }

  lemma {:induction false} JoinCons(v: Bytes, rest: seq<Bytes>)
    ensures Join([v] + rest) == Terminated(v) + Join(rest)
  {
    JoinAppend([v], rest);
    assert Join([v]) == Join([]) + Terminated(v);
  }

  lemma {:induction false} FirstPiece(v: Bytes, rest: Bytes)
    requires NulFree(v)
    ensures Pieces(Terminated(v) + rest) == [v] + Pieces(rest)
  {
    var p := Terminated(v) + rest;
    FindIs(p, 0, NUL, |v|);
    assert p[..|v|] == v && p[|v| + 1..] == rest;
  }

  lemma {:induction false} PiecesOfJoin(values: seq<Bytes>)
    requires AllNulFree(values)
    ensures Pieces(Join(values)) == values
  {
    if values != [] {
      var v, rest := values[0], values[1..];
      assert values == [v] + rest;
      assert NulFree(v);
      JoinCons(v, rest);
      FirstPiece(v, Join(rest));
      PiecesOfJoin(rest);
    }
  }

  lemma {:induction false} JoinOfPieces(p: Bytes)
    requires p != [] ==> p[|p| - 1] == NUL
    ensures Join(Pieces(p)) == p
  {
    match Find(p, 0, NUL)
    case None =>
    case Some(i) =>
      var head, rest := p[..i], p[i + 1..];
      SplitAt(p, i);
      JoinOfPieces(rest);
      JoinCons(head, Pieces(rest));
  }

  lemma {:induction false} SplitAt(p: Bytes, i: nat)
    requires i < |p| && p[i] == NUL
    ensures p == Terminated(p[..i]) + p[i + 1..]
  {
  }

  /** `strings` accepts exactly the payloads `string_frame` can build, and returns their values. */
  lemma {:induction false} StringsRoundTrip(p: Bytes, values: seq<Bytes>)
    ensures Strings(p) == Ok(values) <==> AllNulFree(values) && p == Join(values)
  {
    if Strings(p) == Ok(values) && p != [] {
      JoinOfPieces(p);
    }
    if AllNulFree(values) && p == Join(values) {
      PiecesOfJoin(values);
    }
  }

  /** The loop of `strings`. */
  method SplitStrings(p: Bytes) returns (r: Result<seq<Bytes>>)
    ensures r == Strings(p)
  {
    if p == [] {
      return Ok([]);
    }
    if p[|p| - 1] != NUL {
      return Err(Invalid);
    }
    var result: seq<Bytes> := [];
    var start := 0;
    for i := 0 to |p|
      invariant start <= i
      invariant forall k :: start <= k < i ==> p[k] != NUL
      invariant AllNulFree(result) && Join(result) == p[..start]
    {
      if p[i] == NUL {
        var piece := p[start..i];
        assert (result + [piece])[..|result|] == result;
        assert p[..start] + Terminated(piece) == p[..i + 1];
        result := result + [piece];
        start := i + 1;
      }
    }
    assert p[..start] == p;
    StringsRoundTrip(p, result);
    r := Ok(result);
  }

  function StringFrame(command: Byte, values: seq<Bytes>): Result<Frame> {
    if AllNulFree(values) then Ok(Frame(command, Join(values))) else Err(Invalid)
  }

  /** The loop of `string_frame`. */
  method BuildStringFrame(command: Byte, values: seq<Bytes>) returns (r: Result<Frame>)
    ensures r == StringFrame(command, values)
  {
    var p: Bytes := [];
    for i := 0 to |values|
      invariant p == Join(values[..i])
      invariant forall k :: 0 <= k < i ==> NulFree(values[k])
    {
      if !NulFree(values[i]) {
        return Err(Invalid);
      }
      assert values[..i + 1][..i] == values[..i];
      p := p + (values[i] + [NUL]);
    }
    assert values[..|values|] == values;
    r := Ok(Frame(command, p));
  }

  // ---- Commands -----------------------------------------------------------

  const VERSION: bv32 := 6
  const ADD_HEADERS: bv32 := 1
  const CHANGE_BODY: bv32 := 2
  const ADD_RECIPIENT: bv32 := 4
  const DELETE_RECIPIENT: bv32 := 8
  const CHANGE_HEADERS: bv32 := 16
  const QUARANTINE: bv32 := 32
  const CHANGE_FROM: bv32 := 64
  const ADD_RECIPIENT_PAR: bv32 := 128
  const SUPPORTED_ACTIONS: bv32 := 255
  const NR_HEADER: bv32 := 0x80
  const NR_CONNECT: bv32 := 0x1000
  const NR_HELO: bv32 := 0x2000
  const NR_MAIL: bv32 := 0x4000
  const NR_RCPT: bv32 := 0x8000
  const NR_DATA: bv32 := 0x1_0000
  const NR_UNKNOWN: bv32 := 0x2_0000
  const NR_EOH: bv32 := 0x4_0000
  const NR_BODY: bv32 := 0x8_0000
  const HEADER_LEADING_SPACE: bv32 := 0x10_0000

  datatype Options = Options(version: bv32, actions: bv32, protocol: bv32)

  function Pack(a: bv8, b: bv8, c: bv8, d: bv8): bv32 {
    (a as bv32 << 24) | (b as bv32 << 16) | (c as bv32 << 8) | d as bv32
  }

  function Low(w: bv32): bv8 {
    (w & 0xff) as bv8
  }

  /** Big-endian words of flags. */
  function WordBytes(w: bv32): (r: Bytes)
    ensures |r| == 4
  {
    [Low(w >> 24) as int, Low(w >> 16) as int, Low(w >> 8) as int, Low(w) as int]
  }

  function Word(p: Bytes): bv32
    requires |p| == 4
  {
    Pack(p[0] as bv8, p[1] as bv8, p[2] as bv8, p[3] as bv8)
  }

  lemma {:induction false} PackLow(a: bv8, b: bv8, c: bv8, d: bv8)
    ensures var w := Pack(a, b, c, d);
            Low(w >> 24) == a && Low(w >> 16) == b && Low(w >> 8) == c && Low(w) == d
  {
  }

  lemma {:induction false} LowPack(w: bv32)
    ensures Pack(Low(w >> 24), Low(w >> 16), Low(w >> 8), Low(w)) == w
  {
  }

  lemma {:induction false} ThroughOctet(x: bv8)
    ensures x as int as bv8 == x
  {
  }

  lemma {:induction false} NextOctet(x: bv8)
    requires x as int < 255
    ensures (x + 1) as int == x as int + 1
  {
  }

  lemma {:induction false} OctetOf(n: Byte) returns (x: bv8)
    ensures x as int == n
  {
    if n == 0 {
      x := 0;
    } else {
      var before := OctetOf(n - 1);
      NextOctet(before);
      x := before + 1;
    }
  }

  lemma {:induction false} ThroughByte(n: Byte)
    ensures n as bv8 as int == n
  {
    var x := OctetOf(n);
    ThroughOctet(x);
  }

  lemma {:induction false} WordRoundTrip(w: bv32)
    ensures Word(WordBytes(w)) == w
  {
    ThroughOctet(Low(w >> 24));
    ThroughOctet(Low(w >> 16));
    ThroughOctet(Low(w >> 8));
    ThroughOctet(Low(w));
    LowPack(w);
  }

  lemma {:induction false} WordOfBytes(b: Bytes)
    requires |b| == 4
    ensures WordBytes(Word(b)) == b
  {
    PackLow(b[0] as bv8, b[1] as bv8, b[2] as bv8, b[3] as bv8);
    ThroughByte(b[0]);
    ThroughByte(b[1]);
    ThroughByte(b[2]);
    ThroughByte(b[3]);
  }

  function OptionsFrame(o: Options, macroRequest: Bytes): Frame {
    Frame(CMD_NEGOTIATE, WordBytes(o.version) + WordBytes(o.actions) + WordBytes(o.protocol) + macroRequest)
  }

  datatype Connection = Connection(hostname: Bytes, family: Byte, port: Option<nat>, address: Option<Bytes>)

  datatype Command =
    | Negotiate(options: Options)
    | Connect(connection: Connection)
    | Macro(stage: Byte, values: seq<(Bytes, Bytes)>)
    | Helo(name: Bytes)
    | Mail(fields: seq<Bytes>)
    | Recipient(fields: seq<Bytes>)
    | Data
    | Header(name: Bytes, value: Bytes)
    | EndHeaders
    | Body(chunk: Bytes)
    | EndMessage
    | Abort
    | Quit
    | QuitNewConnection
    | Unknown(text: Bytes)

  /** The stage letters C H M R T U N E L B that a macro batch may carry. */
  predicate MacroStage(b: Byte) {
    || b == CMD_CONNECT || b == CMD_HELO || b == CMD_MAIL || b == CMD_RCPT || b == CMD_DATA
    || b == CMD_UNKNOWN || b == CMD_EOH || b == CMD_EOM || b == CMD_HEADER || b == CMD_BODY
  }

  predicate Named(values: seq<(Bytes, Bytes)>) {
    forall i :: 0 <= i < |values| ==> values[i].0 != []
  }

  /** What the decoder guarantees about every command it returns. */
  predicate WellFormed(c: Command) {
    match c
    case Macro(stage, values) => MacroStage(stage) && Named(values)
    case Mail(fields) => fields != [] && fields[0] != []
    case Recipient(fields) => fields != [] && fields[0] != []
    case Header(name, value) => name != [] && NulFree(name) && NulFree(value)
    case _ => true
  }

  function Opcode(c: Command): Byte {
    match c
    case Negotiate(_) => CMD_NEGOTIATE
    case Connect(_) => CMD_CONNECT
    case Macro(_, _) => CMD_MACRO
    case Helo(_) => CMD_HELO
    case Mail(_) => CMD_MAIL
    case Recipient(_) => CMD_RCPT
    case Data => CMD_DATA
    case Header(_, _) => CMD_HEADER
    case EndHeaders => CMD_EOH
    case Body(_) => CMD_BODY
    case EndMessage => CMD_EOM
    case Abort => CMD_ABORT
    case Quit => CMD_QUIT
    case QuitNewConnection => CMD_QUIT_NC
    case Unknown(_) => CMD_UNKNOWN
  }

  function Pairs(fields: seq<Bytes>): (r: Result<seq<(Bytes, Bytes)>>)
    requires |fields| % 2 == 0
    ensures r.Ok? ==> Named(r.value)
  {
    if fields == [] then Ok([])
    else if fields[0] == [] then Err(Invalid)
    else
      var rest :- Pairs(fields[2..]);
      Ok([(fields[0], fields[1])] + rest)
  }

  /** CONNECT: hostname, family letter, then port and address unless the family is unknown. */
  function DecodeConnect(p: Bytes, validIp: (Byte, Bytes) -> bool): Result<Command> {
    match Find(p, 0, NUL)
    case None => Err(Invalid)
    case Some(end) =>
      if end + 1 >= |p| then Err(Invalid)
      else
        var family := p[end + 1];
        var tail := p[end + 2..];
        if family == FAMILY_UNKNOWN && tail == [] then
          Ok(Connect(Connection(p[..end], family, None, None)))
        else if family == FAMILY_INET || family == FAMILY_INET6 || family == FAMILY_LOCAL then
          if |tail| < 3 then Err(Invalid)
          else
            var fields :- Strings(tail[2..]);
            if |fields| != 1 then Err(Invalid)
            else if family != FAMILY_LOCAL && !validIp(family, fields[0]) then Err(Invalid)
            else Ok(Connect(Connection(p[..end], family, Some(tail[0] as int * 256 + tail[1]), Some(fields[0]))))
        else Err(Invalid)
  }

  /** A macro batch: the stage letter, then names and values in turn. */
  function DecodeMacro(p: Bytes): (r: Result<Command>)
    ensures r.Ok? ==> r.value.Macro? && WellFormed(r.value)
  {
    if p == [] || !MacroStage(p[0]) then Err(Invalid)
    else
      var fields :- Strings(p[1..]);
      if |fields| % 2 != 0 then Err(Invalid)
      else
        var values :- Pairs(fields);
        Ok(Macro(p[0], values))
  }

  /** Commands without a payload: T N E A Q K. */
  predicate Bare(command: Byte) {
    || command == CMD_DATA || command == CMD_EOH || command == CMD_EOM
    || command == CMD_ABORT || command == CMD_QUIT || command == CMD_QUIT_NC
  }

  /** `Command::decode`; address syntax in CONNECT is the caller's predicate. */
  function Decode(f: Frame, validIp: (Byte, Bytes) -> bool): (r: Result<Command>)
    ensures r.Ok? ==> WellFormed(r.value) && Opcode(r.value) == f.command
  {
    var p := f.payload;
    if f.command == CMD_NEGOTIATE then
      if |p| != 12 then Err(Invalid)
      else Ok(Negotiate(Options(Word(p[0..4]), Word(p[4..8]), Word(p[8..12]))))
    else if f.command == CMD_CONNECT then
      DecodeConnect(p, validIp)
    else if f.command == CMD_MACRO then
      DecodeMacro(p)
    else if f.command == CMD_HELO || f.command == CMD_UNKNOWN then
      var fields :- Strings(p);
      if |fields| != 1 then Err(Invalid)
      else Ok(if f.command == CMD_HELO then Helo(fields[0]) else Unknown(fields[0]))
    else if f.command == CMD_MAIL || f.command == CMD_RCPT then
      var fields :- Strings(p);
      if fields == [] || fields[0] == [] then Err(Invalid)
      else Ok(if f.command == CMD_MAIL then Mail(fields) else Recipient(fields))
    else if f.command == CMD_HEADER then
      var fields :- Strings(p);
      if |fields| != 2 || fields[0] == [] then Err(Invalid)
      else Ok(Header(fields[0], fields[1]))
    else if f.command == CMD_BODY then
      Ok(Body(p))
    else if Bare(f.command) then
      if p != [] then Err(Invalid)
      else Ok(if f.command == CMD_DATA then Data
              else if f.command == CMD_EOH then EndHeaders
              else if f.command == CMD_EOM then EndMessage
              else if f.command == CMD_ABORT then Abort
              else if f.command == CMD_QUIT then Quit
              else QuitNewConnection)
    else Err(Invalid)
  }
}
