/** The envelope half of a compiled edit list: sender, deleted and added recipients
    (src/hooks.rs:833-868, 1045-1064). */
module EnvelopeEdits {
  import opened Octets
  import opened Modifications
  import opened Mta
  import opened Scripts

  /** A scanner-supplied address; `parameters` is the outcome of formatting its ESMTP parameters. */
  datatype Address = Address(address: Option<Bytes>, parameters: Result<Option<Bytes>>)

  const OPEN: Byte := 60   // '<'
  const CLOSE: Byte := 62  // '>'

  function Bracketed(a: Bytes): Bytes
    requires a != []
  {
    if a[0] == OPEN && a[|a| - 1] == CLOSE then a else [OPEN] + a + [CLOSE]
  }

  /** `Address::milter`: the null address is allowed for the sender only. */
  function Milter(a: Address, allowNull: bool): Result<(Bytes, Option<Bytes>)> {
    if a.address.Some? && a.address.value != [] then
      var p :- a.parameters;
      Ok((Bracketed(a.address.value), p))
    else if allowNull then
      var p :- a.parameters;
      Ok(([OPEN, CLOSE], p))
    else
      Err(Invalid)
  }

  /** An address is needed except for a sender, is put in angle brackets unless it has them, and
      keeps its parameters; the null sender is an empty pair of brackets. */
  lemma {:induction false} MilterMeans(a: Address, allowNull: bool)
    ensures var given := a.address.Some? && a.address.value != [];
            var r := Milter(a, allowNull);
            && (r.Ok? <==> a.parameters.Ok? && (given || allowNull))
            && (r.Ok? ==> r.value.1 == a.parameters.value)
            && (r.Ok? && !given ==> r.value.0 == [60, 62])
            && (r.Ok? && given && a.address.value[0] == 60 && a.address.value[|a.address.value| - 1] == 62 ==>
                  r.value.0 == a.address.value)
            && (r.Ok? && given && !(a.address.value[0] == 60 && a.address.value[|a.address.value| - 1] == 62) ==>
                  r.value.0 == [60] + a.address.value + [62])
  {
  }

  /** The address as the MTA will hold it. */
  function PartyOf(a: Address, allowNull: bool): Party {
    match Milter(a, allowNull)
    case Ok((address, p)) => Party(address, Optional(p))
    case Err(_) => Party([], [])
  }

  predicate AllConvert(live: seq<Address>) {
    forall k :: 0 <= k < |live| ==> Milter(live[k], false).Ok?
  }

  function DeleteScript(addresses: seq<Bytes>): seq<Modification> {
    seq(|addresses|, k requires 0 <= k < |addresses| => DeleteRecipient(addresses[k]))
  }

  function AddOf(a: Address): Modification
    requires Milter(a, false).Ok?
  {
    var (address, p) := Milter(a, false).value;
    AddRecipient(address, p)
  }

  function AddScript(live: seq<Address>): seq<Modification>
    requires AllConvert(live)
  {
    seq(|live|, k requires 0 <= k < |live| => AddOf(live[k]))
  }

  function FromScript(from: Option<Address>): seq<Modification>
    requires from.Some? ==> Milter(from.value, true).Ok?
  {
    if from.None? then []
    else
      var (address, p) := Milter(from.value, true).value;
      [ChangeFrom(address, p)]
  }

  function WithoutAll(parties: seq<Party>, addresses: seq<Bytes>): seq<Party> {
    if addresses == [] then parties
    else Without(WithoutAll(parties, addresses[..|addresses| - 1]), addresses[|addresses| - 1])
  }

  function PartiesOf(live: seq<Address>): seq<Party> {
    seq(|live|, k requires 0 <= k < |live| => PartyOf(live[k], false))
  }

  lemma {:induction false} DeletesRun(m: Message, addresses: seq<Bytes>, j: nat, leading: bool)
    requires j <= |addresses|
    ensures Run(m, DeleteScript(addresses)[..j], leading) ==
            Some(m.(recipients := WithoutAll(m.recipients, addresses[..j])))
    decreases j
  {
    if j > 0 {
      DeletesRun(m, addresses, j - 1, leading);
      SliceSnoc(DeleteScript(addresses), j - 1);
      RunSnoc(m, DeleteScript(addresses)[..j - 1], DeleteRecipient(addresses[j - 1]), leading);
      assert addresses[..j][..j - 1] == addresses[..j - 1];
    }
  }

  lemma {:induction false} AddsRun(m: Message, live: seq<Address>, j: nat, leading: bool)
    requires j <= |live| && AllConvert(live)
    ensures Run(m, AddScript(live)[..j], leading) == Some(m.(recipients := m.recipients + PartiesOf(live)[..j]))
    decreases j
  {
    if j == 0 {
      assert m.recipients + PartiesOf(live)[..0] == m.recipients;
    } else {
      AddsRun(m, live, j - 1, leading);
      SliceSnoc(AddScript(live), j - 1);
      RunSnoc(m, AddScript(live)[..j - 1], AddOf(live[j - 1]), leading);
      SliceSnoc(PartiesOf(live), j - 1);
      Reassociate(m.recipients, PartiesOf(live)[..j - 1], [PartyOf(live[j - 1], false)]);
    }
  }

  function EnvelopeScript(from: Option<Address>, addresses: seq<Bytes>, live: seq<Address>): seq<Modification>
    requires (from.Some? ==> Milter(from.value, true).Ok?) && AllConvert(live)
  {
    FromScript(from) + DeleteScript(addresses) + AddScript(live)
  }

  /** What the MTA's envelope becomes; headers and body are untouched. */
  function Readdressed(m: Message, from: Option<Address>, addresses: seq<Bytes>, live: seq<Address>): Message {
    m.(sender := if from.Some? then PartyOf(from.value, true) else m.sender,
       recipients := WithoutAll(m.recipients, addresses) + PartiesOf(live))
  }

  lemma {:induction false} FromRuns(m: Message, from: Option<Address>, leading: bool)
    requires from.Some? ==> Milter(from.value, true).Ok?
    ensures Run(m, FromScript(from), leading) ==
            Some(m.(sender := if from.Some? then PartyOf(from.value, true) else m.sender))
  {
    if from.Some? {
      RunSnoc(m, [], FromScript(from)[0], leading);
      assert FromScript(from) == [] + [FromScript(from)[0]];
    }
  }

  /** Compiler correctness, envelope half. */
  lemma {:induction false} EnvelopeRuns(
    m: Message, from: Option<Address>, addresses: seq<Bytes>, live: seq<Address>, leading: bool)
    requires (from.Some? ==> Milter(from.value, true).Ok?) && AllConvert(live)
    ensures Run(m, EnvelopeScript(from, addresses, live), leading) == Some(Readdressed(m, from, addresses, live))
  {
    FromRuns(m, from, leading);
    var m1 := Run(m, FromScript(from), leading).value;
    DeletesRun(m1, addresses, |addresses|, leading);
    assert DeleteScript(addresses)[..|addresses|] == DeleteScript(addresses);
    assert addresses[..|addresses|] == addresses;
    RunAppend(m, FromScript(from), DeleteScript(addresses), leading);
    var m2 := m1.(recipients := WithoutAll(m1.recipients, addresses));
    AddsRun(m2, live, |live|, leading);
    assert AddScript(live)[..|live|] == AddScript(live);
    assert PartiesOf(live)[..|live|] == PartiesOf(live);
    RunAppend(m, FromScript(from) + DeleteScript(addresses), AddScript(live), leading);
  }

  // ---- Deleting by address ------------------------------------------------

  /** `parties` less everyone whose address is in `named`. */
  function Unnamed(parties: seq<Party>, named: set<Bytes>): seq<Party> {
    if parties == [] then []
    else (if parties[0].address in named then [] else [parties[0]]) + Unnamed(parties[1..], named)
  }

  lemma {:induction false} UnnamedNobody(parties: seq<Party>)
    ensures Unnamed(parties, {}) == parties
  {
    if parties != [] {
      UnnamedNobody(parties[1..]);
    }
  }

  lemma {:induction false} WithoutUnnamed(parties: seq<Party>, named: set<Bytes>, address: Bytes)
    ensures Without(Unnamed(parties, named), address) == Unnamed(parties, named + {address})
  {
    if parties != [] {
      WithoutUnnamed(parties[1..], named, address);
      var rest := Unnamed(parties[1..], named);
      assert [] + rest == rest && ([parties[0]] + rest)[1..] == rest;
      assert [] + Unnamed(parties[1..], named + {address}) == Unnamed(parties[1..], named + {address});
    }
  }

  function Addresses(s: seq<Bytes>): set<Bytes> {
    set a | a in s
  }

  lemma {:induction false} WithoutAllIsUnnamed(parties: seq<Party>, addresses: seq<Bytes>)
    ensures WithoutAll(parties, addresses) == Unnamed(parties, Addresses(addresses))
  {
    if addresses == [] {
      UnnamedNobody(parties);
      assert Addresses(addresses) == {};
    } else {
      var front, last := addresses[..|addresses| - 1], addresses[|addresses| - 1];
      WithoutAllIsUnnamed(parties, front);
      WithoutUnnamed(parties, Addresses(front), last);
      assert addresses == front + [last];
      assert Addresses(addresses) == Addresses(front) + {last};
    }
  }

  /** Deletion by address keeps the undeleted positions exactly when no address is
      shared between a deleted and an undeleted recipient. */
  lemma {:induction false} UnnamedVersusKept(parties: seq<Party>, gone: set<nat>, named: set<Bytes>, k: nat)
    requires k <= |parties|
    requires forall i :: k <= i < |parties| && i in gone ==> parties[i].address in named
    ensures |Unnamed(parties[k..], named)| <= |KeptFrom(parties, gone, k)|
    ensures Unnamed(parties[k..], named) == KeptFrom(parties, gone, k) <==>
            forall i :: k <= i < |parties| && i !in gone ==> parties[i].address !in named
    ensures Unnamed(parties[k..], named) != KeptFrom(parties, gone, k) ==>
              |Unnamed(parties[k..], named)| < |KeptFrom(parties, gone, k)|
    decreases |parties| - k
  {
    if k < |parties| {
      UnnamedVersusKept(parties, gone, named, k + 1);
      assert parties[k..][1..] == parties[k + 1..];
      var left, right := Unnamed(parties[k + 1..], named), KeptFrom(parties, gone, k + 1);
      assert ([parties[k]] + left)[1..] == left && ([parties[k]] + right)[1..] == right;
      assert [] + left == left && [] + right == right;
      if k !in gone && parties[k].address in named {
        assert |left| < |[parties[k]] + right|;
      }
    }
  }
}
