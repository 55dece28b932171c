/** The slot lists behind structured edits: which originals are left, in which
    order, and where each added entry stands (src/hooks.rs:878-996, 1068-1080). */
module Slots {
  import opened Octets
  import opened Mta
  import opened Scripts

  datatype Slot = Original(index: nat) | Added(index: nat)

  function Untouched(n: nat): seq<Slot> {
    seq(n, i requires 0 <= i < n => Original(i))
  }

  /** The original positions named by the list, in list order. */
  function Originals(slots: seq<Slot>): seq<nat> {
    if slots == [] then []
    else (if slots[0].Original? then [slots[0].index] else []) + Originals(slots[1..])
  }

  function Elements(s: seq<nat>): set<nat> {
    set i | i in s
  }

  /** A slot names something that exists. */
  predicate Refers<T>(s: Slot, n: nat, added: seq<Option<T>>) {
    match s
    case Original(i) => i < n
    case Added(a) => a < |added| && added[a].Some?
  }

  predicate AllRefer<T>(slots: seq<Slot>, n: nat, added: seq<Option<T>>) {
    forall k :: 0 <= k < |slots| ==> Refers(slots[k], n, added)
  }

  /** Surviving originals are exactly the undeleted ones in ascending order, and each
      added entry stands in exactly one slot while it is live and in none afterwards. */
  ghost predicate Consistent<T>(n: nat, slots: seq<Slot>, deletes: seq<nat>, added: seq<Option<T>>) {
    && AllRefer(slots, n, added)
    && (forall k :: 0 <= k < |deletes| ==> deletes[k] < n)
    && (forall j, k :: 0 <= j < k < |deletes| ==> deletes[j] != deletes[k])
    && Originals(slots) == Surviving(n, Elements(deletes), 0)
    && forall a: nat :: multiset(slots)[Added(a)] == if a < |added| && added[a].Some? then 1 else 0
  }

  /** What a slot stands for. */
  function Resolve<T>(s: Slot, originals: seq<T>, added: seq<Option<T>>): T
    requires Refers(s, |originals|, added)
  {
    match s
    case Original(i) => originals[i]
    case Added(a) => added[a].value
  }

  function Working<T>(slots: seq<Slot>, originals: seq<T>, added: seq<Option<T>>): seq<T>
    requires AllRefer(slots, |originals|, added)
  {
    seq(|slots|, k requires 0 <= k < |slots| => Resolve(slots[k], originals, added))
  }

  /** The added entries still live, in the order they were added. */
  function LiveOf<T>(added: seq<Option<T>>): seq<T> {
    if added == [] then []
    else
      var last := added[|added| - 1];
      LiveOf(added[..|added| - 1]) + if last.Some? then [last.value] else []
  }

  // ---- Initial list -------------------------------------------------------

  lemma {:induction false} OriginalsUntouched(n: nat, k: nat)
    requires k <= n
    ensures Originals(Untouched(n)[k..]) == Surviving(n, {}, k)
    decreases n - k
  {
    if k < n {
      OriginalsUntouched(n, k + 1);
      assert Untouched(n)[k..][1..] == Untouched(n)[k + 1..];
    }
  }

  lemma {:induction false} ConsistentInitially<T>(n: nat)
    ensures Consistent<T>(n, Untouched(n), [], [])
  {
    OriginalsUntouched(n, 0);
    assert Untouched(n)[0..] == Untouched(n);
    assert Elements([]) == {};
    forall a: nat
      ensures multiset(Untouched(n))[Added(a)] == 0
    {
      assert Added(a) !in Untouched(n);
    }
  }

  // ---- Insertion and removal ----------------------------------------------

  lemma {:induction false} OriginalsAppend(a: seq<Slot>, b: seq<Slot>)
    ensures Originals(a + b) == Originals(a) + Originals(b)
  {
    if a == [] {
      assert a + b == b;
    } else {
      OriginalsAppend(a[1..], b);
      assert (a + b)[1..] == a[1..] + b;
      Reassociate(if a[0].Original? then [a[0].index] else [], Originals(a[1..]), Originals(b));
    }
  }

  lemma {:induction false} OriginalsMiddle(a: seq<Slot>, s: Slot, b: seq<Slot>)
    ensures Originals(a + [s] + b) == Originals(a) + (if s.Original? then [s.index] else []) + Originals(b)
  {
    OriginalsAppend(a + [s], b);
    OriginalsAppend(a, [s]);
    assert Originals([s]) == if s.Original? then [s.index] else [];
  }

  lemma {:induction false} InsertRefers<T>(n: nat, slots: seq<Slot>, added: seq<Option<T>>, at: nat, item: T)
    requires AllRefer(slots, n, added) && at <= |slots|
    ensures AllRefer(InsertAt(slots, at, Added(|added|)), n, added + [Some(item)])
  {
  }

  lemma {:induction false} ConsistentInsert<T>(n: nat, slots: seq<Slot>, deletes: seq<nat>, added: seq<Option<T>>, at: nat, item: T)
    requires Consistent(n, slots, deletes, added) && at <= |slots|
    ensures Consistent(n, InsertAt(slots, at, Added(|added|)), deletes, added + [Some(item)])
  {
    var slot := Added(|added|);
    var longer := InsertAt(slots, at, slot);
    InsertRefers(n, slots, added, at, item);
    assert Originals(longer) == Originals(slots) by {
      OriginalsMiddle(slots[..at], slot, slots[at..]);
      OriginalsAppend(slots[..at], slots[at..]);
      assert slots == slots[..at] + slots[at..];
    }
    assert multiset(longer) == multiset(slots) + multiset{slot} by {
      assert slots == slots[..at] + slots[at..];
    }
  }

  lemma {:induction false} SlotsDiffer(slots: seq<Slot>, j: nat, k: nat)
    requires j < |slots| && k < |slots| && j != k && multiset(slots)[slots[k]] <= 1
    ensures slots[j] != slots[k]
  {
    var a, b := slots[..k], slots[k + 1..];
    assert slots == a + [slots[k]] + b;
    assert multiset(slots) == multiset(a) + multiset{slots[k]} + multiset(b);
    assert slots[j] == if j < k then a[j] else b[j - k - 1];
    assert slots[j] in multiset(a) + multiset(b);
  }

  lemma {:induction false} ConsistentRemoveOriginal<T>(n: nat, slots: seq<Slot>, deletes: seq<nat>, added: seq<Option<T>>, at: nat)
    requires Consistent(n, slots, deletes, added) && at < |slots| && slots[at].Original?
    ensures Consistent(n, RemoveAt(slots, at), deletes + [slots[at].index], added)
  {
    var a, b, i := slots[..at], slots[at + 1..], slots[at].index;
    assert slots == a + [slots[at]] + b;
    OriginalsMiddle(a, slots[at], b);
    OriginalsAppend(a, b);
    var gone := Elements(deletes);
    SurvivingRemove(n, gone, 0, Originals(a), i, Originals(b));
    assert Elements(deletes + [i]) == gone + {i};
    assert i !in gone by {
      assert Surviving(n, gone, 0)[|Originals(a)|] == i;
    }
    assert multiset(slots) == multiset(a) + multiset{slots[at]} + multiset(b);
  }

  lemma {:induction false} ConsistentRemoveAdded<T>(n: nat, slots: seq<Slot>, deletes: seq<nat>, added: seq<Option<T>>, at: nat)
    requires Consistent(n, slots, deletes, added) && at < |slots| && slots[at].Added?
    ensures Consistent(n, RemoveAt(slots, at), deletes, added[slots[at].index := None])
  {
    var slot, shorter := slots[at], RemoveAt(slots, at);
    var a, b := slots[..at], slots[at + 1..];
    assert slots == a + [slot] + b;
    assert Originals(shorter) == Originals(slots) by {
      OriginalsMiddle(a, slot, b);
      OriginalsAppend(a, b);
    }
    assert multiset(slots) == multiset(shorter) + multiset{slot};
    RemoveRefers(n, slots, added, at);
  }

  lemma {:induction false} RemoveRefers<T>(n: nat, slots: seq<Slot>, added: seq<Option<T>>, at: nat)
    requires AllRefer(slots, n, added) && at < |slots| && slots[at].Added?
    requires multiset(slots)[slots[at]] <= 1
    ensures AllRefer(RemoveAt(slots, at), n, added[slots[at].index := None])
  {
    var shorter := RemoveAt(slots, at);
    forall k | 0 <= k < |shorter|
      ensures Refers(shorter[k], n, added[slots[at].index := None])
    {
      var j := if k < at then k else k + 1;
      assert shorter[k] == slots[j];
      SlotsDiffer(slots, j, at);
    }
  }

  // ---- What the list denotes ----------------------------------------------

  lemma {:induction false} WorkingInsert<T>(slots: seq<Slot>, originals: seq<T>, added: seq<Option<T>>, at: nat, item: T)
    requires AllRefer(slots, |originals|, added) && at <= |slots|
    ensures AllRefer(InsertAt(slots, at, Added(|added|)), |originals|, added + [Some(item)])
    ensures Working(InsertAt(slots, at, Added(|added|)), originals, added + [Some(item)]) ==
            InsertAt(Working(slots, originals, added), at, item)
  {
  }

  lemma {:induction false} WorkingRemove<T>(n: nat, slots: seq<Slot>, deletes: seq<nat>, originals: seq<T>, added: seq<Option<T>>, at: nat)
    requires n == |originals| && Consistent(n, slots, deletes, added) && at < |slots|
    ensures var left := if slots[at].Added? then added[slots[at].index := None] else added;
            && AllRefer(RemoveAt(slots, at), n, left)
            && Working(RemoveAt(slots, at), originals, left) == RemoveAt(Working(slots, originals, added), at)
  {
    if slots[at].Added? {
      forall k | 0 <= k < |slots| && k != at
        ensures slots[k] != slots[at]
      {
        SlotsDiffer(slots, k, at);
      }
    }
  }

  function IsOriginal(slots: seq<Slot>): seq<bool> {
    seq(|slots|, k requires 0 <= k < |slots| => slots[k].Original?)
  }

  /** Without its added entries the working list is the surviving originals. */
  lemma {:induction false} MarkedWorking<T>(slots: seq<Slot>, originals: seq<T>, added: seq<Option<T>>, p: nat)
    requires AllRefer(slots, |originals|, added) && p <= |slots|
    ensures forall i :: 0 <= i < |Originals(slots[p..])| ==> Originals(slots[p..])[i] < |originals|
    ensures Marked(Working(slots, originals, added), IsOriginal(slots), p) == Pick(originals, Originals(slots[p..]))
    decreases |slots| - p
  {
    if p < |slots| {
      MarkedWorking(slots, originals, added, p + 1);
      assert slots[p..][1..] == slots[p + 1..];
      if slots[p].Original? {
        PickCons(originals, slots[p].index, Originals(slots[p + 1..]));
      }
    }
  }

  lemma {:induction false} SurvivorsAreMarked<T>(slots: seq<Slot>, deletes: seq<nat>, originals: seq<T>, added: seq<Option<T>>)
    requires Consistent(|originals|, slots, deletes, added)
    ensures Marked(Working(slots, originals, added), IsOriginal(slots), 0) == KeptFrom(originals, Elements(deletes), 0)
  {
    MarkedWorking(slots, originals, added, 0);
    assert slots[0..] == slots;
    PickSurviving(originals, Elements(deletes), 0);
  }

  // ---- Where entries come from --------------------------------------------

  /** An entry of a working list: an original position, or something added. */
  datatype Mark<T> = Kept(index: nat) | New(item: T)

  function MarkOf<T>(s: Slot, n: nat, added: seq<Option<T>>): Mark<T>
    requires Refers(s, n, added)
  {
    match s
    case Original(i) => Kept(i)
    case Added(a) => New(added[a].value)
  }

  function Marking<T>(slots: seq<Slot>, n: nat, added: seq<Option<T>>): seq<Mark<T>>
    requires AllRefer(slots, n, added)
  {
    seq(|slots|, k requires 0 <= k < |slots| => MarkOf(slots[k], n, added))
  }

  function Keeps<T>(n: nat): seq<Mark<T>> {
    seq(n, i requires 0 <= i < n => Kept(i))
  }

  lemma {:induction false} MarkingInitially<T>(n: nat)
    ensures AllRefer<T>(Untouched(n), n, [])
    ensures Marking<T>(Untouched(n), n, []) == Keeps<T>(n)
  {
  }

  lemma {:induction false} MarkingInsert<T>(slots: seq<Slot>, n: nat, added: seq<Option<T>>, at: nat, item: T)
    requires AllRefer(slots, n, added) && at <= |slots|
    ensures AllRefer(InsertAt(slots, at, Added(|added|)), n, added + [Some(item)])
    ensures Marking(InsertAt(slots, at, Added(|added|)), n, added + [Some(item)]) ==
            InsertAt(Marking(slots, n, added), at, New(item))
  {
  }

  lemma {:induction false} MarkingRemove<T>(n: nat, slots: seq<Slot>, deletes: seq<nat>, added: seq<Option<T>>, at: nat)
    requires Consistent(n, slots, deletes, added) && at < |slots|
    ensures var left := if slots[at].Added? then added[slots[at].index := None] else added;
            && AllRefer(RemoveAt(slots, at), n, left)
            && Marking(RemoveAt(slots, at), n, left) == RemoveAt(Marking(slots, n, added), at)
  {
    if slots[at].Added? {
      forall k | 0 <= k < |slots| && k != at
        ensures slots[k] != slots[at]
      {
        SlotsDiffer(slots, k, at);
      }
    }
  }

  lemma {:induction false} FindSlot(slots: seq<Slot>, slot: Slot) returns (p: nat)
    requires multiset(slots)[slot] >= 1
    ensures p < |slots| && slots[p] == slot
  {
    assert slot in multiset(slots);
    assert slot in slots;
    p :| p < |slots| && slots[p] == slot;
  }

  predicate AllOf<T(!new)>(items: seq<T>, p: T -> bool) {
    forall k :: 0 <= k < |items| ==> p(items[k])
  }

  predicate AllNew<T(!new)>(marks: seq<Mark<T>>, p: T -> bool) {
    forall k :: 0 <= k < |marks| && marks[k].New? ==> p(marks[k].item)
  }

  predicate AllPresent<T(!new)>(added: seq<Option<T>>, p: T -> bool) {
    forall a :: 0 <= a < |added| && added[a].Some? ==> p(added[a].value)
  }

  lemma {:induction false} LiveArePresent<T(!new)>(added: seq<Option<T>>, p: T -> bool)
    ensures AllOf(LiveOf(added), p) <==> AllPresent(added, p)
  {
    if added != [] {
      var front, last := added[..|added| - 1], added[|added| - 1];
      LiveArePresent(front, p);
      var live := LiveOf(front);
      assert added == front + [last];
      assert AllPresent(added, p) <==> AllPresent(front, p) && (last.Some? ==> p(last.value)) by {
        assert forall a :: 0 <= a < |front| ==> front[a] == added[a];
        assert added[|front|] == last;
      }
      assert last.Some? ==> LiveOf(added)[|live|] == last.value;
      assert forall k :: 0 <= k < |live| ==> LiveOf(added)[k] == live[k];
    }
  }

  /** The live additions are exactly the new entries of the working list. */
  lemma {:induction false} LiveAreNew<T(!new)>(n: nat, slots: seq<Slot>, deletes: seq<nat>, added: seq<Option<T>>, p: T -> bool)
    requires Consistent(n, slots, deletes, added)
    ensures AllOf(LiveOf(added), p) <==> AllNew(Marking(slots, n, added), p)
  {
    LiveArePresent(added, p);
    var marks := Marking(slots, n, added);
    if AllPresent(added, p) {
      forall k | 0 <= k < |marks| && marks[k].New?
        ensures p(marks[k].item)
      {
        assert Refers(slots[k], n, added);
      }
    }
    if AllNew(marks, p) {
      forall a: nat | a < |added| && added[a].Some?
        ensures p(added[a].value)
      {
        var k := FindSlot(slots, Added(a));
        assert marks[k] == New(added[a].value);
      }
    }
  }
}
