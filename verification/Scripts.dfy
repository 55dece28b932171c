/** Why an edit script keeps its addresses valid while the MTA applies it: changes
    run from the back, so occurrences of earlier fields never shift; inserts run from
    the front by final position, so everything before them is already in place. */
module Scripts {
  import opened Octets
  import opened Modifications
  import opened Mta

  // ---- Sublists -----------------------------------------------------------

  /** The entries of `list` from `k` on whose position is not in `gone`. */
  function KeptFrom<T>(list: seq<T>, gone: set<nat>, k: nat): seq<T>
    requires k <= |list|
    decreases |list| - k
  {
    if k == |list| then []
    else (if k in gone then [] else [list[k]]) + KeptFrom(list, gone, k + 1)
  }

  /** The positions themselves. */
  function Surviving(n: nat, gone: set<nat>, k: nat): (r: seq<nat>)
    requires k <= n
    ensures forall i :: 0 <= i < |r| ==> k <= r[i] < n && r[i] !in gone
    decreases n - k
  {
    if k == n then [] else (if k in gone then [] else [k]) + Surviving(n, gone, k + 1)
  }

  function Pick<T>(list: seq<T>, at: seq<nat>): seq<T>
    requires forall i :: 0 <= i < |at| ==> at[i] < |list|
  {
    seq(|at|, i requires 0 <= i < |at| => list[at[i]])
  }

  lemma {:induction false} PickSurviving<T>(list: seq<T>, gone: set<nat>, k: nat)
    requires k <= |list|
    ensures Pick(list, Surviving(|list|, gone, k)) == KeptFrom(list, gone, k)
    decreases |list| - k
  {
    if k < |list| {
      PickSurviving(list, gone, k + 1);
      if k !in gone {
        PickCons(list, k, Surviving(|list|, gone, k + 1));
      }
    }
  }

  lemma {:induction false} PickCons<T>(list: seq<T>, head: nat, at: seq<nat>)
    requires head < |list| && forall i :: 0 <= i < |at| ==> at[i] < |list|
    ensures Pick(list, [head] + at) == [list[head]] + Pick(list, at)
  {
  }

  lemma {:induction false} SurvivingIrrelevant(n: nat, gone: set<nat>, k: nat, i: nat)
    requires i < k <= n
    ensures Surviving(n, gone + {i}, k) == Surviving(n, gone, k)
    decreases n - k
  {
    if k < n {
      SurvivingIrrelevant(n, gone, k + 1, i);
    }
  }

  /** Deleting one survivor removes exactly its own entry. */
  lemma {:induction false} SurvivingRemove(n: nat, gone: set<nat>, k: nat, a: seq<nat>, i: nat, b: seq<nat>)
    requires k <= n && Surviving(n, gone, k) == a + [i] + b
    ensures Surviving(n, gone + {i}, k) == a + b
    decreases n - k
  {
    if k in gone {
      SurvivingRemove(n, gone, k + 1, a, i, b);
    } else if a == [] {
      FirstSurvivor(n, gone, k, [i] + b);
      assert [] + [i] + b == [i] + b && ([i] + b)[1..] == b && [] + b == b;
      SurvivingIrrelevant(n, gone, k + 1, i);
    } else {
      var rest := a[1..];
      FirstSurvivor(n, gone, k, a + [i] + b);
      assert (a + [i] + b)[1..] == rest + [i] + b;
      SurvivingRemove(n, gone, k + 1, rest, i, b);
      assert (rest + [i] + b)[|rest|] == i;
      assert a + b == [k] + (rest + b);
    }
  }

  lemma {:induction false} FirstSurvivor(n: nat, gone: set<nat>, k: nat, all: seq<nat>)
    requires k < n && k !in gone && Surviving(n, gone, k) == all
    ensures all != [] && all[0] == k && all[1..] == Surviving(n, gone, k + 1)
  {
  }

  lemma {:induction false} KeptLess<T>(list: seq<T>, few: set<nat>, many: set<nat>, k: nat)
    requires k <= |list| && few <= many
    ensures |KeptFrom(list, many, k)| <= |KeptFrom(list, few, k)|
    ensures (exists i :: k <= i < |list| && i in many && i !in few) ==>
            |KeptFrom(list, many, k)| < |KeptFrom(list, few, k)|
    decreases |list| - k
  {
    if k < |list| {
      KeptLess(list, few, many, k + 1);
    }
  }

  // ---- Changes by descending position -------------------------------------

  /** One change or delete of position `i`, on a list whose front up to and including
      `i` is still original: the occurrence number finds exactly that position. */
  lemma {:induction false} ChangeAt(msg: Message, fields: seq<Field>, i: nat, tail: seq<Field>, value: Bytes)
    requires i < |fields| && msg.headers == fields[..i + 1] + tail
    ensures Apply(msg, Change(Count(fields[..i], fields[i].name) + 1, Field(fields[i].name, value))) ==
            Some(msg.(headers := fields[..i] + (if value == [] then [] else [Field(fields[i].name, value)]) + tail))
  {
    PositionOf(msg.headers, i);
    assert msg.headers[..i] == fields[..i];
    assert msg.headers[i] == fields[i];
    assert RemoveAt(msg.headers, i) == fields[..i] + [] + tail;
    var f := Field(fields[i].name, value);
    assert msg.headers[i := f] == fields[..i] + [f] + tail;
  }

  /** Positions nobody touches stay in front of an edited tail. */
  lemma {:induction false} KeptGap<T>(list: seq<T>, current: seq<T>, gone: set<nat>, from: nat, to: nat)
    requires from <= to <= |list| == |current|
    requires forall i :: from <= i < to ==> i !in gone && current[i] == list[i]
    ensures KeptFrom(current, gone, from) == list[from..to] + KeptFrom(current, gone, to)
    decreases |list| - from
  {
    if from < to {
      KeptGap(list, current, gone, from + 1, to);
      Reassociate([list[from]], list[from + 1..to], KeptFrom(current, gone, to));
      assert list[from..to] == [list[from]] + list[from + 1..to];
    } else {
      assert list[from..to] == [];
    }
  }

  // ---- Inserts by final position ------------------------------------------

  /** The marked entries of `final` from position `p` on. */
  function Marked<T>(final: seq<T>, keep: seq<bool>, p: nat): seq<T>
    requires p <= |final| == |keep|
    decreases |final| - p
  {
    if p == |final| then []
    else (if keep[p] then [final[p]] else []) + Marked(final, keep, p + 1)
  }

  /** `m` puts `final[p]` at position `p`; at the very end an append does the same. */
  predicate Places(m: Modification, final: seq<Field>, p: nat, leading: bool)
    requires p < |final|
  {
    || EditOf(m, leading) == Insert(p, final[p])
    || (p == |final| - 1 && EditOf(m, leading) == Add(final[p]))
  }

  /** `mods` places, in ascending order, exactly the unmarked entries before position `p`. */
  predicate Inserting(mods: seq<Modification>, final: seq<Field>, keep: seq<bool>, p: nat, leading: bool)
    requires p <= |final| == |keep|
    decreases p
  {
    if p == 0 then mods == []
    else if keep[p - 1] then Inserting(mods, final, keep, p - 1, leading)
    else
      && mods != []
      && Places(mods[|mods| - 1], final, p - 1, leading)
      && Inserting(mods[..|mods| - 1], final, keep, p - 1, leading)
  }

  lemma {:induction false} InsertingSnoc(mods: seq<Modification>, m: Modification, final: seq<Field>, keep: seq<bool>, p: nat, leading: bool)
    requires p < |final| == |keep| && !keep[p]
    requires Inserting(mods, final, keep, p, leading) && Places(m, final, p, leading)
    ensures Inserting(mods + [m], final, keep, p + 1, leading)
  {
    assert (mods + [m])[..|mods|] == mods;
  }

  /** The list after the inserts for every position before `p`. */
  function Built<T>(final: seq<T>, keep: seq<bool>, p: nat): seq<T>
    requires p <= |final| == |keep|
  {
    final[..p] + Marked(final, keep, p)
  }

  lemma {:induction false} BuiltEnds<T>(final: seq<T>, keep: seq<bool>)
    requires |final| == |keep|
    ensures Built(final, keep, 0) == Marked(final, keep, 0)
    ensures Built(final, keep, |final|) == final
  {
  }

  lemma {:induction false} BuiltKeep<T>(final: seq<T>, keep: seq<bool>, p: nat)
    requires p < |final| == |keep| && keep[p]
    ensures Built(final, keep, p) == Built(final, keep, p + 1)
  {
    Reassociate(final[..p], [final[p]], Marked(final, keep, p + 1));
    assert final[..p + 1] == final[..p] + [final[p]];
  }

  lemma {:induction false} InsertBetween<T>(before: seq<T>, entry: T, after: seq<T>)
    ensures InsertAt(before + after, |before|, entry) == before + [entry] + after
  {
    assert (before + after)[..|before|] == before;
    assert (before + after)[|before|..] == after;
  }

  lemma {:induction false} BuiltInsert<T>(final: seq<T>, keep: seq<bool>, p: nat)
    requires p < |final| == |keep| && !keep[p]
    ensures p <= |Built(final, keep, p)| && InsertAt(Built(final, keep, p), p, final[p]) == Built(final, keep, p + 1)
  {
    var rest := Marked(final, keep, p + 1);
    InsertBetween(final[..p], final[p], rest);
    assert final[..p + 1] == final[..p] + [final[p]];
  }

  lemma {:induction false} BuiltAppend<T>(final: seq<T>, keep: seq<bool>, p: nat)
    requires p == |final| - 1 && |final| == |keep| && !keep[p]
    ensures Built(final, keep, p) + [final[p]] == Built(final, keep, p + 1)
  {
    assert Marked(final, keep, p) == [] && Marked(final, keep, p + 1) == [];
  }

  lemma {:induction false} BuiltPlace(msg: Message, m: Modification, final: seq<Field>, keep: seq<bool>, p: nat, leading: bool)
    requires p < |final| == |keep| && !keep[p] && Places(m, final, p, leading)
    requires msg.headers == Built(final, keep, p)
    ensures Apply(msg, EditOf(m, leading)) == Some(msg.(headers := Built(final, keep, p + 1)))
  {
    BuiltInsert(final, keep, p);
    if p == |final| - 1 {
      BuiltAppend(final, keep, p);
    }
  }

  predicate RunsTo(msg: Message, mods: seq<Modification>, headers: seq<Field>, leading: bool) {
    Run(msg, mods, leading) == Some(msg.(headers := headers))
  }

  lemma {:induction false} StartStep(msg: Message, final: seq<Field>, keep: seq<bool>, leading: bool)
    requires |final| == |keep| && msg.headers == Marked(final, keep, 0)
    ensures RunsTo(msg, [], Built(final, keep, 0), leading)
  {
    BuiltEnds(final, keep);
  }

  lemma {:induction false} KeepStep(msg: Message, mods: seq<Modification>, final: seq<Field>, keep: seq<bool>, p: nat, leading: bool)
    requires p < |final| == |keep| && keep[p] && RunsTo(msg, mods, Built(final, keep, p), leading)
    ensures RunsTo(msg, mods, Built(final, keep, p + 1), leading)
  {
    BuiltKeep(final, keep, p);
  }

  lemma {:induction false} PlaceStep(
    msg: Message, front: seq<Modification>, last: Modification, final: seq<Field>, keep: seq<bool>, p: nat, leading: bool)
    requires p < |final| == |keep| && !keep[p] && Places(last, final, p, leading)
    requires RunsTo(msg, front, Built(final, keep, p), leading)
    ensures RunsTo(msg, front + [last], Built(final, keep, p + 1), leading)
  {
    BuiltPlace(msg.(headers := Built(final, keep, p)), last, final, keep, p, leading);
    RunSnoc(msg, front, last, leading);
  }

  /** Starting from the marked entries alone, the inserts build the final list; every
      insert position is within the list at the moment it is used. */
  lemma {:induction false} InsertingRuns(
    msg: Message, mods: seq<Modification>, final: seq<Field>, keep: seq<bool>, p: nat, leading: bool)
    requires p <= |final| == |keep|
    requires msg.headers == Marked(final, keep, 0)
    requires Inserting(mods, final, keep, p, leading)
    ensures RunsTo(msg, mods, Built(final, keep, p), leading)
    decreases p
  {
    if p == 0 {
      StartStep(msg, final, keep, leading);
    } else if keep[p - 1] {
      InsertingRuns(msg, mods, final, keep, p - 1, leading);
      KeepStep(msg, mods, final, keep, p - 1, leading);
    } else {
      var front, last := mods[..|mods| - 1], mods[|mods| - 1];
      assert mods == front + [last];
      InsertingRuns(msg, front, final, keep, p - 1, leading);
      PlaceStep(msg, front, last, final, keep, p - 1, leading);
    }
  }

  lemma {:induction false} InsertingCount(
    mods: seq<Modification>, final: seq<Field>, keep: seq<bool>, p: nat, leading: bool)
    requires p <= |final| == |keep|
    requires Inserting(mods, final, keep, p, leading)
    ensures |mods| + |Marked(final, keep, 0)| == p + |Marked(final, keep, p)|
    decreases p
  {
    if p > 0 {
      InsertingCount(if keep[p - 1] then mods else mods[..|mods| - 1], final, keep, p - 1, leading);
    }
  }

  /** Inserts grow the list by one each, wherever they start from. */
  lemma {:induction false} InsertingGrows(
    msg: Message, mods: seq<Modification>, final: seq<Field>, keep: seq<bool>, p: nat, leading: bool)
    requires p <= |final| == |keep|
    requires Inserting(mods, final, keep, p, leading)
    ensures var r := Run(msg, mods, leading);
            r.Some? ==> |r.value.headers| == |msg.headers| + |mods|
    decreases p
  {
    if p > 0 {
      InsertingGrows(msg, if keep[p - 1] then mods else mods[..|mods| - 1], final, keep, p - 1, leading);
    }
  }

  // ---- Nothing removed, nothing inserted ----------------------------------

  lemma {:induction false} KeptAll<T>(list: seq<T>, gone: set<nat>, k: nat)
    requires k <= |list| && (forall i :: k <= i < |list| ==> i !in gone)
    ensures KeptFrom(list, gone, k) == list[k..]
    decreases |list| - k
  {
    if k < |list| {
      KeptAll(list, gone, k + 1);
      assert list[k..] == [list[k]] + list[k + 1..];
    }
  }

  lemma {:induction false} MarkedAll<T>(final: seq<T>, keep: seq<bool>, p: nat)
    requires p <= |final| == |keep| && (forall i :: p <= i < |keep| ==> keep[i])
    ensures Marked(final, keep, p) == final[p..]
    decreases |final| - p
  {
    if p < |final| {
      MarkedAll(final, keep, p + 1);
      assert final[p..] == [final[p]] + final[p + 1..];
    }
  }

  lemma {:induction false} NothingToInsert(
    mods: seq<Modification>, final: seq<Field>, keep: seq<bool>, p: nat, leading: bool)
    requires p <= |final| == |keep| && (forall k :: 0 <= k < p ==> keep[k])
    requires Inserting(mods, final, keep, p, leading)
    ensures mods == []
    decreases p
  {
    if p > 0 {
      NothingToInsert(mods, final, keep, p - 1, leading);
    }
  }
}
