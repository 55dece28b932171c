/** Recipients after structured edits. The MTA has no positions for recipients: deletes name
    addresses and additions go to the end, so the working list is met up to order. */
module RecipientLists {
  import opened Octets
  import opened Mta
  import opened Scripts
  import opened Slots
  import opened EnvelopeEdits
  import opened StructuredEdits

  lemma {:induction false} DropDead<T>(n: nat, slots: seq<Slot>, deletes: seq<nat>, added: seq<Option<T>>)
    requires Consistent(n, slots, deletes, added) && added != [] && added[|added| - 1].None?
    ensures Consistent(n, slots, deletes, added[..|added| - 1])
  {
    forall k | 0 <= k < |slots|
      ensures Refers(slots[k], n, added[..|added| - 1])
    {
      assert Refers(slots[k], n, added);
    }
  }

  lemma {:induction false} WorkingLess<T>(slots: seq<Slot>, originals: seq<T>, added: seq<Option<T>>, fewer: seq<Option<T>>)
    requires AllRefer(slots, |originals|, added) && AllRefer(slots, |originals|, fewer)
    requires |fewer| <= |added| && forall k :: 0 <= k < |fewer| && fewer[k].Some? ==> added[k] == fewer[k]
    ensures Working(slots, originals, added) == Working(slots, originals, fewer)
  {
    forall k | 0 <= k < |slots|
      ensures Resolve(slots[k], originals, added) == Resolve(slots[k], originals, fewer)
    {
      assert Refers(slots[k], |originals|, fewer);
    }
  }

  lemma {:induction false} RemovedMultiset<T>(list: seq<T>, at: nat)
    requires at < |list|
    ensures multiset(list) == multiset(RemoveAt(list, at)) + multiset{list[at]}
  {
    assert list == list[..at] + [list[at]] + list[at + 1..];
  }

  lemma {:induction false} OnlyOriginals<T>(slots: seq<Slot>, deletes: seq<nat>, originals: seq<T>, added: seq<Option<T>>)
    requires Consistent(|originals|, slots, deletes, added) && added == []
    ensures Working(slots, originals, added) == KeptFrom(originals, Elements(deletes), 0)
  {
    SurvivorsAreMarked(slots, deletes, originals, added);
    forall k | 0 <= k < |slots|
      ensures IsOriginal(slots)[k]
    {
      assert Refers(slots[k], |originals|, added);
    }
    MarkedAll(Working(slots, originals, added), IsOriginal(slots), 0);
  }

  ghost predicate Holds<T>(slots: seq<Slot>, deletes: seq<nat>, originals: seq<T>, added: seq<Option<T>>)
    requires AllRefer(slots, |originals|, added)
  {
    multiset(Working(slots, originals, added)) ==
    multiset(KeptFrom(originals, Elements(deletes), 0)) + multiset(LiveOf(added))
  }

  lemma {:induction false} HoldsDead<T>(slots: seq<Slot>, deletes: seq<nat>, originals: seq<T>, added: seq<Option<T>>)
    requires added != [] && added[|added| - 1].None?
    requires AllRefer(slots, |originals|, added) && AllRefer(slots, |originals|, added[..|added| - 1])
    requires Holds(slots, deletes, originals, added[..|added| - 1])
    ensures Holds(slots, deletes, originals, added)
  {
    WorkingLess(slots, originals, added, added[..|added| - 1]);
    assert LiveOf(added[..|added| - 1]) + [] == LiveOf(added[..|added| - 1]);
  }

  lemma {:induction false} LiveOfKilled<T>(added: seq<Option<T>>)
    requires added != [] && added[|added| - 1].Some?
    ensures LiveOf(added) == LiveOf(added[|added| - 1 := None]) + [added[|added| - 1].value]
  {
    var last := |added| - 1;
    assert added[last := None][..last] == added[..last];
    assert LiveOf(added[..last]) + [] == LiveOf(added[..last]);
  }

  lemma {:induction false} HoldsLive<T>(slots: seq<Slot>, deletes: seq<nat>, originals: seq<T>, added: seq<Option<T>>, p: nat)
    requires Consistent(|originals|, slots, deletes, added)
    requires added != [] && added[|added| - 1].Some? && p < |slots| && slots[p] == Added(|added| - 1)
    requires AllRefer(RemoveAt(slots, p), |originals|, added[|added| - 1 := None])
    requires Holds(RemoveAt(slots, p), deletes, originals, added[|added| - 1 := None])
    ensures Holds(slots, deletes, originals, added)
  {
    WorkingRemove(|originals|, slots, deletes, originals, added, p);
    RemovedMultiset(Working(slots, originals, added), p);
    LiveOfKilled(added);
  }

  /** The working list holds exactly the undeleted originals and the live additions. */
  lemma {:induction false} WorkingContents<T>(slots: seq<Slot>, deletes: seq<nat>, originals: seq<T>, added: seq<Option<T>>)
    requires Consistent(|originals|, slots, deletes, added)
    ensures Holds(slots, deletes, originals, added)
    decreases |added|, if added != [] && added[|added| - 1].Some? then 1 else 0
  {
    if added == [] {
      OnlyOriginals(slots, deletes, originals, added);
    } else if added[|added| - 1].None? {
      DropDead(|originals|, slots, deletes, added);
      WorkingContents(slots, deletes, originals, added[..|added| - 1]);
      HoldsDead(slots, deletes, originals, added);
    } else {
      var p := FindSlot(slots, Added(|added| - 1));
      ConsistentRemoveAdded(|originals|, slots, deletes, added, p);
      WorkingContents(RemoveAt(slots, p), deletes, originals, added[|added| - 1 := None]);
      HoldsLive(slots, deletes, originals, added, p);
    }
  }

  lemma {:induction false} LiveParties(added: seq<Option<Address>>)
    ensures LiveOf(Parties(added)) == PartiesOf(LiveOf(added))
  {
    if added != [] {
      var front := added[..|added| - 1];
      LiveParties(front);
      assert Parties(added)[..|added| - 1] == Parties(front);
    }
  }

  /** No undeleted original shares its address with a deleted one. */
  predicate Unshared(recipients: seq<Party>, deletes: seq<nat>, addresses: seq<Bytes>) {
    forall i :: 0 <= i < |recipients| && i !in Elements(deletes) ==> recipients[i].address !in Addresses(addresses)
  }

  /** After the script the MTA has exactly the recipients of the working list, in some order,
      if and only if no deleted address is also that of an undeleted original. */
  lemma {:induction false} RecipientsMet(o: Origin, deletes: seq<nat>, added: seq<Option<Address>>, slots: seq<Slot>)
    requires Consistent(|o.recipients|, slots, deletes, added)
    ensures var addresses := DeletedAddresses(o, deletes);
            multiset(WithoutAll(o.recipients, addresses) + PartiesOf(LiveOf(added))) == multiset(FinalRecipients(o, added, slots))
            <==> Unshared(o.recipients, deletes, addresses)
  {
    var addresses := DeletedAddresses(o, deletes);
    var gone, named := Elements(deletes), Addresses(addresses);
    ConsistentParties(|o.recipients|, slots, deletes, added);
    WorkingContents(slots, deletes, o.recipients, Parties(added));
    LiveParties(added);
    WithoutAllIsUnnamed(o.recipients, addresses);
    forall i | 0 <= i < |o.recipients| && i in gone
      ensures o.recipients[i].address in named
    {
      var k :| 0 <= k < |deletes| && deletes[k] == i;
      assert addresses[k] == o.recipients[i].address;
    }
    UnnamedVersusKept(o.recipients, gone, named, 0);
    assert o.recipients[0..] == o.recipients;
    SameSize(Unnamed(o.recipients, named), KeptFrom(o.recipients, gone, 0), PartiesOf(LiveOf(added)));
  }

  /** Two recipients with one address, the first deleted: the working list keeps the second,
      the MTA loses both. */
  lemma {:induction false} SharedAddressExample(o: Origin, who: Party)
    requires o.recipients == [who, who]
    ensures var slots, deletes, added: seq<Option<Address>> := [Original(1)], [0], [];
            && Consistent(2, slots, deletes, added)
            && FinalRecipients(o, added, slots) == [who]
            && WithoutAll(o.recipients, DeletedAddresses(o, deletes)) + PartiesOf(LiveOf(added)) == []
  {
    SecondLeft();
    var addresses := DeletedAddresses(o, [0]);
    assert addresses == [who.address];
    WithoutAllIsUnnamed(o.recipients, addresses);
    NobodyLeft(who, Addresses(addresses));
  }

  lemma {:induction false} SecondLeft()
    ensures Consistent<Address>(2, [Original(1)], [0], [])
  {
    ConsistentInitially<Address>(2);
    ConsistentRemoveOriginal<Address>(2, Untouched(2), [], [], 0);
    assert RemoveAt(Untouched(2), 0) == [Original(1)];
    assert [] + [0] == [0];
  }

  lemma {:induction false} NobodyLeft(who: Party, named: set<Bytes>)
    requires who.address in named
    ensures Unnamed([who, who], named) == []
  {
    assert [who, who][1..] == [who] && [who][1..] == [];
    assert Unnamed([who], named) == [];
  }

  lemma {:induction false} SameSize<T>(a: seq<T>, b: seq<T>, c: seq<T>)
    ensures multiset(a + c) == multiset(b) + multiset(c) ==> |a| == |b|
    ensures a == b ==> multiset(a + c) == multiset(b) + multiset(c)
  {
    if multiset(a + c) == multiset(b) + multiset(c) {
      assert |multiset(a + c)| == |a + c| && |multiset(b) + multiset(c)| == |b| + |c|;
    }
  }
}
