/** The command decoder against the MTA's encoding of each command (src/protocol.rs:284-409):
    a frame decodes to a command exactly when it is that command's encoding. */
module Commands {
  import opened Octets
  import opened Wire

  function Flatten(values: seq<(Bytes, Bytes)>): (r: seq<Bytes>)
    ensures |r| == 2 * |values|
  {
    if values == [] then [] else [values[0].0, values[0].1] + Flatten(values[1..])
  }

  function Port(n: nat): Bytes
    requires n < 0x1_0000
  {
    [n / 256, n % 256]
  }

  function ConnectTail(c: Connection): Bytes
    requires c.port.Some? ==> c.port.value < 0x1_0000
  {
    if c.port.Some? && c.address.Some? then Port(c.port.value) + Join([c.address.value]) else []
  }

  /** What an MTA may send. */
  predicate Sendable(c: Command, validIp: (Byte, Bytes) -> bool) {
    match c
    case Connect(info) =>
      && NulFree(info.hostname)
      && (if info.family == 85 then info.port == None && info.address == None
          else
            && (info.family == 52 || info.family == 54 || info.family == 76)
            && info.port.Some? && info.port.value < 0x1_0000
            && info.address.Some? && NulFree(info.address.value)
            && (info.family != 76 ==> validIp(info.family, info.address.value)))
    case Macro(stage, values) => MacroStage(stage) && AllNulFree(Flatten(values)) && Named(values)
    case Helo(name) => NulFree(name)
    case Unknown(text) => NulFree(text)
    case Mail(fields) => AllNulFree(fields) && fields != [] && fields[0] != []
    case Recipient(fields) => AllNulFree(fields) && fields != [] && fields[0] != []
    case Header(name, value) => name != [] && NulFree(name) && NulFree(value)
    case _ => true
  }

  /** The letters of the commands: O C D H M R T L N B E A Q K U. */
  function Letter(c: Command): Byte {
    match c
    case Negotiate(_) => 79
    case Connect(_) => 67
    case Macro(_, _) => 68
    case Helo(_) => 72
    case Mail(_) => 77
    case Recipient(_) => 82
    case Data => 84
    case Header(_, _) => 76
    case EndHeaders => 78
    case Body(_) => 66
    case EndMessage => 69
    case Abort => 65
    case Quit => 81
    case QuitNewConnection => 75
    case Unknown(_) => 85
  }

  /** The milter protocol's frame for a command. */
  function Sent(c: Command): Frame
    requires c.Connect? && c.connection.port.Some? ==> c.connection.port.value < 0x1_0000
  {
    Frame(Letter(c),
          match c
          case Negotiate(o) => WordBytes(o.version) + WordBytes(o.actions) + WordBytes(o.protocol)
          case Connect(info) => ConnectPayload(info)
          case Macro(stage, values) => [stage] + Join(Flatten(values))
          case Helo(name) => Join([name])
          case Unknown(text) => Join([text])
          case Mail(fields) => Join(fields)
          case Recipient(fields) => Join(fields)
          case Header(name, value) => Join([name, value])
          case Body(chunk) => chunk
          case _ => [])
  }

  // ---- Macro pairs --------------------------------------------------------

  lemma {:induction false} NamedCons(v: (Bytes, Bytes), rest: seq<(Bytes, Bytes)>)
    ensures Named([v] + rest) <==> v.0 != [] && Named(rest)
  {
    var all := [v] + rest;
    assert all[0] == v;
    assert forall i :: 0 <= i < |rest| ==> all[i + 1] == rest[i];
  }

  lemma {:induction false} PairsFlatten(fields: seq<Bytes>, values: seq<(Bytes, Bytes)>)
    requires |fields| % 2 == 0
    ensures Pairs(fields) == Ok(values) <==> fields == Flatten(values) && Named(values)
    decreases |fields|
  {
    if fields == [] {
      assert values != [] ==> Flatten(values) != [];
    } else {
      if values != [] {
        PairsFlatten(fields[2..], values[1..]);
        assert values == [values[0]] + values[1..];
        NamedCons(values[0], values[1..]);
        FlattenCons(fields, values);
      }
      if Pairs(fields).Ok? && Pairs(fields[2..]).Ok? {
        assert Pairs(fields).value == [(fields[0], fields[1])] + Pairs(fields[2..]).value;
        assert Pairs(fields).value[1..] == Pairs(fields[2..]).value;
      }
    }
  }

  lemma {:induction false} FlattenCons(fields: seq<Bytes>, values: seq<(Bytes, Bytes)>)
    requires |fields| >= 2 && values != []
    ensures fields == Flatten(values) <==>
            fields[0] == values[0].0 && fields[1] == values[0].1 && fields[2..] == Flatten(values[1..])
  {
    assert fields == [fields[0], fields[1]] + fields[2..];
  }

  // ---- Words --------------------------------------------------------------

  lemma {:induction false} WordIff(b: Bytes, w: bv32)
    requires |b| == 4
    ensures Word(b) == w <==> b == WordBytes(w)
  {
    WordOfBytes(b);
    WordRoundTrip(w);
  }

  lemma {:induction false} SplitWords(p: Bytes, a: Bytes, b: Bytes, d: Bytes)
    requires |p| == 12 && |a| == |b| == |d| == 4
    ensures p == a + b + d <==> p[0..4] == a && p[4..8] == b && p[8..12] == d
  {
    assert p == p[0..4] + p[4..8] + p[8..12];
  }

  lemma {:induction false} NegotiateIff(f: Frame, o: Options, validIp: (Byte, Bytes) -> bool)
    requires f.command == CMD_NEGOTIATE
    ensures Decode(f, validIp) == Ok(Negotiate(o)) <==> f == Sent(Negotiate(o))
  {
    var p := f.payload;
    var a, b, d := WordBytes(o.version), WordBytes(o.actions), WordBytes(o.protocol);
    if |p| == 12 {
      SplitWords(p, a, b, d);
      WordIff(p[0..4], o.version);
      WordIff(p[4..8], o.actions);
      WordIff(p[8..12], o.protocol);
    }
  }

  // ---- CONNECT ------------------------------------------------------------

  lemma {:induction false} PortIff(a: Byte, b: Byte, n: nat)
    requires n < 0x1_0000
    ensures a as int * 256 + b == n <==> [a, b] == Port(n)
  {
  }

  lemma {:induction false} TailSplits(tail: Bytes)
    requires |tail| >= 3
    ensures tail == [tail[0], tail[1]] + tail[2..]
  {
  }

  /** The hostname ends at the first NUL. */
  lemma {:induction false} HostSplits(p: Bytes, host: Bytes, family: Byte, tail: Bytes)
    ensures p == Terminated(host) + [family] + tail && NulFree(host) <==>
            Find(p, 0, NUL) == Some(|host|) && |host| + 1 < |p| && p[..|host|] == host
            && p[|host| + 1] == family && p[|host| + 2..] == tail
  {
    if p == Terminated(host) + [family] + tail && NulFree(host) {
      assert forall i :: 0 <= i < |host| ==> p[i] == host[i];
      FindIs(p, 0, NUL, |host|);
    }
    if Find(p, 0, NUL) == Some(|host|) && |host| + 1 < |p| && p[..|host|] == host {
      assert p == p[..|host|] + [p[|host|]] + [p[|host| + 1]] + p[|host| + 2..];
      assert forall i :: 0 <= i < |host| ==> host[i] == p[i];
    }
  }

  predicate TailMatches(tail: Bytes, info: Connection, validIp: (Byte, Bytes) -> bool) {
    if info.family == FAMILY_UNKNOWN then tail == [] && info.port == None && info.address == None
    else
      && (info.family == FAMILY_INET || info.family == FAMILY_INET6 || info.family == FAMILY_LOCAL)
      && |tail| >= 3 && info.address.Some? && Strings(tail[2..]) == Ok([info.address.value])
      && (info.family != FAMILY_LOCAL ==> validIp(info.family, info.address.value))
      && info.port == Some(tail[0] as int * 256 + tail[1])
  }

  lemma {:induction false} TailIff(tail: Bytes, info: Connection, validIp: (Byte, Bytes) -> bool)
    requires NulFree(info.hostname)
    ensures TailMatches(tail, info, validIp) <==> Sendable(Connect(info), validIp) && tail == ConnectTail(info)
  {
    if info.address.Some? && |tail| >= 3 {
      StringsRoundTrip(tail[2..], [info.address.value]);
      TailSplits(tail);
      if info.port.Some? && info.port.value < 0x1_0000 {
        PortIff(tail[0], tail[1], info.port.value);
      }
      assert AllNulFree([info.address.value]) <==> NulFree(info.address.value) by {
        assert [info.address.value][0] == info.address.value;
      }
    }
    if info.address.Some? {
      assert Join([info.address.value]) == Join([]) + Terminated(info.address.value);
    }
  }

  lemma {:induction false} OneOf(fields: seq<Bytes>)
    ensures |fields| == 1 ==> fields == [fields[0]]
    ensures |fields| == 2 ==> fields == [fields[0], fields[1]]
  {
  }

  /** The payload splits as this connection's. */
  predicate Splits(p: Bytes, info: Connection) {
    var end := |info.hostname|;
    Find(p, 0, NUL) == Some(end) && end + 1 < |p| && p[..end] == info.hostname && p[end + 1] == info.family
  }

  lemma {:induction false} ConnectRead(p: Bytes, info: Connection, validIp: (Byte, Bytes) -> bool)
    requires DecodeConnect(p, validIp) == Ok(Connect(info))
    ensures Splits(p, info) && TailMatches(p[|info.hostname| + 2..], info, validIp)
  {
    var tail := p[|info.hostname| + 2..];
    if |tail| >= 3 && Strings(tail[2..]).Ok? {
      OneOf(Strings(tail[2..]).value);
    }
  }

  lemma {:induction false} ConnectAccepted(p: Bytes, info: Connection, validIp: (Byte, Bytes) -> bool)
    requires Splits(p, info) && TailMatches(p[|info.hostname| + 2..], info, validIp)
    ensures DecodeConnect(p, validIp) == Ok(Connect(info))
  {
  }

  function ConnectPayload(info: Connection): Bytes
    requires info.port.Some? ==> info.port.value < 0x1_0000
  {
    Terminated(info.hostname) + [info.family] + ConnectTail(info)
  }

  lemma {:induction false} ConnectSound(p: Bytes, info: Connection, validIp: (Byte, Bytes) -> bool)
    requires DecodeConnect(p, validIp) == Ok(Connect(info))
    ensures Sendable(Connect(info), validIp) && p == ConnectPayload(info)
  {
    var end := |info.hostname|;
    ConnectRead(p, info, validIp);
    assert forall i :: 0 <= i < end ==> info.hostname[i] == p[i];
    TailIff(p[end + 2..], info, validIp);
    HostSplits(p, info.hostname, info.family, ConnectTail(info));
  }

  lemma {:induction false} ConnectComplete(info: Connection, validIp: (Byte, Bytes) -> bool)
    requires Sendable(Connect(info), validIp)
    ensures DecodeConnect(ConnectPayload(info), validIp) == Ok(Connect(info))
  {
    var p := ConnectPayload(info);
    HostSplits(p, info.hostname, info.family, ConnectTail(info));
    TailIff(ConnectTail(info), info, validIp);
    ConnectAccepted(p, info, validIp);
  }

  lemma {:induction false} ConnectIff(f: Frame, info: Connection, validIp: (Byte, Bytes) -> bool)
    requires f.command == CMD_CONNECT
    ensures Decode(f, validIp) == Ok(Connect(info)) <==> Sendable(Connect(info), validIp) && f == Sent(Connect(info))
  {
    if DecodeConnect(f.payload, validIp) == Ok(Connect(info)) {
      ConnectSound(f.payload, info, validIp);
    }
    if Sendable(Connect(info), validIp) {
      ConnectComplete(info, validIp);
    }
  }

  // ---- Every command ------------------------------------------------------

  lemma {:induction false} OneString(p: Bytes, s: Bytes)
    ensures Strings(p) == Ok([s]) <==> NulFree(s) && p == Join([s])
  {
    StringsRoundTrip(p, [s]);
    assert AllNulFree([s]) <==> NulFree(s) by {
      assert [s][0] == s;
    }
  }

  lemma {:induction false} TwoStrings(p: Bytes, a: Bytes, b: Bytes)
    ensures Strings(p) == Ok([a, b]) <==> NulFree(a) && NulFree(b) && p == Join([a, b])
  {
    StringsRoundTrip(p, [a, b]);
    assert AllNulFree([a, b]) <==> NulFree(a) && NulFree(b) by {
      assert [a, b][0] == a && [a, b][1] == b;
    }
  }

  lemma {:induction false} MacroSound(p: Bytes, stage: Byte, values: seq<(Bytes, Bytes)>, validIp: (Byte, Bytes) -> bool)
    requires DecodeMacro(p) == Ok(Macro(stage, values))
    ensures Sendable(Macro(stage, values), validIp) && p == [stage] + Join(Flatten(values))
  {
    var fields := Strings(p[1..]).value;
    PairsFlatten(fields, values);
    StringsRoundTrip(p[1..], Flatten(values));
    assert p == [p[0]] + p[1..];
  }

  lemma {:induction false} MacroComplete(stage: Byte, values: seq<(Bytes, Bytes)>, validIp: (Byte, Bytes) -> bool)
    requires Sendable(Macro(stage, values), validIp)
    ensures DecodeMacro([stage] + Join(Flatten(values))) == Ok(Macro(stage, values))
  {
    var p := [stage] + Join(Flatten(values));
    assert p[1..] == Join(Flatten(values));
    StringsRoundTrip(p[1..], Flatten(values));
    PairsFlatten(Flatten(values), values);
  }

  lemma {:induction false} MacroIff(f: Frame, stage: Byte, values: seq<(Bytes, Bytes)>, validIp: (Byte, Bytes) -> bool)
    requires f.command == CMD_MACRO
    ensures Decode(f, validIp) == Ok(Macro(stage, values)) <==>
            Sendable(Macro(stage, values), validIp) && f == Sent(Macro(stage, values))
  {
    if DecodeMacro(f.payload) == Ok(Macro(stage, values)) {
      MacroSound(f.payload, stage, values, validIp);
    }
    if Sendable(Macro(stage, values), validIp) {
      MacroComplete(stage, values, validIp);
    }
  }

  lemma {:induction false} TextIff(f: Frame, c: Command, validIp: (Byte, Bytes) -> bool)
    requires c.Helo? || c.Unknown? || c.Header? || c.Mail? || c.Recipient?
    requires f.command == Opcode(c)
    ensures Decode(f, validIp) == Ok(c) <==> Sendable(c, validIp) && f == Sent(c)
  {
    if Strings(f.payload).Ok? {
      OneOf(Strings(f.payload).value);
    }
    match c
    case Helo(name) => OneString(f.payload, name);
    case Unknown(text) => OneString(f.payload, text);
    case Mail(fields) => StringsRoundTrip(f.payload, fields);
    case Recipient(fields) => StringsRoundTrip(f.payload, fields);
    case Header(name, value) => TwoStrings(f.payload, name, value);
    case _ =>
  }

  /** Decoding inverts the MTA's encoding: a frame is read as `c` exactly when it is what an
      MTA sends for `c`. */
  lemma {:induction false} DecodeInvertsSent(f: Frame, c: Command, validIp: (Byte, Bytes) -> bool)
    ensures Decode(f, validIp) == Ok(c) <==> Sendable(c, validIp) && f == Sent(c)
  {
    if f.command == Opcode(c) {
      match c
      case Negotiate(o) => NegotiateIff(f, o, validIp);
      case Connect(info) => ConnectIff(f, info, validIp);
      case Macro(stage, values) => MacroIff(f, stage, values, validIp);
      case Helo(_) => TextIff(f, c, validIp);
      case Unknown(_) => TextIff(f, c, validIp);
      case Mail(_) => TextIff(f, c, validIp);
      case Recipient(_) => TextIff(f, c, validIp);
      case Header(_, _) => TextIff(f, c, validIp);
      case _ =>
    }
  }
}
