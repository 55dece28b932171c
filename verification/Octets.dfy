/** Byte strings, the error type shared by every component, and the few
    searches the codec and the header parser are built from. */
module Octets {

  type Byte = b: int | 0 <= b < 256
  type Bytes = seq<Byte>
  type U32 = n: int | 0 <= n < 0x1_0000_0000

  const NUL: Byte := 0
  const TAB: Byte := 9
  const LF: Byte := 10
  const CR: Byte := 13
  const SP: Byte := 32
  const COLON: Byte := 58
  const CRLF: Bytes := [13, 10]

  datatype Option<+T> = None | Some(value: T)

  /** Errors are told apart by their kind label (src/protocol.rs:139), not by their text. */
  datatype Error =
    | Io
    | Invalid
    | Limit
    | Protocol
    | NotNegotiated
    | Timeout
    | Upstream

  datatype Result<+T> = Ok(value: T) | Err(error: Error) {
    predicate IsFailure() {
      Err?
    }
    function PropagateFailure<U>(): Result<U>
      requires Err?
    {
      Err(error)
    }
    function Extract(): T
      requires Ok?
    {
      value
    }
  }

  /** Position of the first `b` at or after `from`. */
  function Find(s: Bytes, from: nat, b: Byte): (r: Option<nat>)
    requires from <= |s|
    ensures r.Some? ==> from <= r.value < |s| && s[r.value] == b
    ensures r.Some? ==> forall i :: from <= i < r.value ==> s[i] != b
    ensures r.None? ==> forall i :: from <= i < |s| ==> s[i] != b
    decreases |s| - from
  {
    if from == |s| then None
    else if s[from] == b then Some(from)
    else Find(s, from + 1, b)
  }

  /** The search result is pinned by any position that satisfies its contract. */
  lemma {:induction false} FindIs(s: Bytes, from: nat, b: Byte, at: nat)
    requires from <= at < |s| && s[at] == b
    requires forall i :: from <= i < at ==> s[i] != b
    ensures Find(s, from, b) == Some(at)
  {
  }

  predicate StartsWith(s: Bytes, b: Byte) {
    |s| > 0 && s[0] == b
  }

  /** True when the text begins with a line break, which suppresses the colon space. */
  predicate StartsWithBreak(s: Bytes) {
    StartsWith(s, CR) || StartsWith(s, LF)
  }

  function Lower(b: Byte): Byte {
    if 65 <= b <= 90 then b + 32 else b
  }

  /** ASCII case folding; two header names denote the same field when their folds agree. */
  function Fold(s: Bytes): (r: Bytes)
    ensures |r| == |s|
  {
    seq(|s|, i requires 0 <= i < |s| => Lower(s[i]))
  }

  predicate SameName(a: Bytes, b: Bytes) {
    Fold(a) == Fold(b)
  }

  /** The same letter, perhaps in the other case. */
  predicate SameLetter(a: int, b: int) {
    a == b || (65 <= a <= 90 && b == a + 32) || (65 <= b <= 90 && a == b + 32)
  }

  /** Names are the same when their bytes are, up to the case of ASCII letters. */
  lemma {:induction false} SameNameMeans(a: Bytes, b: Bytes)
    ensures SameName(a, b) <==> |a| == |b| && forall i :: 0 <= i < |a| ==> SameLetter(a[i], b[i])
  {
    if SameName(a, b) {
      assert |Fold(a)| == |Fold(b)|;
      forall i | 0 <= i < |a|
        ensures SameLetter(a[i], b[i])
      {
        assert Fold(a)[i] == Lower(a[i]) && Fold(b)[i] == Lower(b[i]);
      }
    }
    if |a| == |b| && (forall i :: 0 <= i < |a| ==> SameLetter(a[i], b[i])) {
      forall i | 0 <= i < |a|
        ensures Fold(a)[i] == Fold(b)[i]
      {
        assert SameLetter(a[i], b[i]);
      }
    }
  }

  /** Big-endian u32. */
  function ToBe(n: U32): (r: Bytes)
    ensures |r| == 4
  {
    var high := n / 256;
    var higher := high / 256;
    [higher / 256, higher % 256, high % 256, n % 256]
  }

  function FromBe(s: Bytes): (n: U32)
    requires |s| == 4
  {
    ((s[0] as int * 256 + s[1]) * 256 + s[2]) * 256 + s[3]
  }

  lemma {:induction false} BeRoundTrip(n: U32)
    ensures FromBe(ToBe(n)) == n
  {
  }

  lemma {:induction false} BeInjective(s: Bytes)
    requires |s| == 4
    ensures ToBe(FromBe(s)) == s
  {
    var n := FromBe(s);
    var high := (s[0] as int * 256 + s[1]) * 256 + s[2];
    var higher := s[0] as int * 256 + s[1];
    assert n / 256 == high && n % 256 == s[3];
    assert high / 256 == higher && high % 256 == s[2];
  }

  lemma {:induction false} Reassociate<T>(a: seq<T>, b: seq<T>, c: seq<T>)
    ensures a + (b + c) == a + b + c
  {
  }

  lemma {:induction false} SliceSnoc<T>(s: seq<T>, j: nat)
    requires j < |s|
    ensures s[..j + 1] == s[..j] + [s[j]]
  {
  }

  function Concat<T>(parts: seq<seq<T>>): seq<T> {
    if parts == [] then [] else Concat(parts[..|parts| - 1]) + parts[|parts| - 1]
  }

  lemma {:induction false} ConcatOne<T>(part: seq<T>)
    ensures Concat([part]) == part
  {
    assert [part][..0] == [];
  }

  lemma {:induction false} ConcatAppend<T>(a: seq<seq<T>>, b: seq<seq<T>>)
    ensures Concat(a + b) == Concat(a) + Concat(b)
  {
    if b == [] {
      assert a + b == a;
    } else {
      ConcatAppend(a, b[..|b| - 1]);
      assert (a + b)[..|a + b| - 1] == a + b[..|b| - 1];
    }
  }
}
