/** Greedy retention: each replacement field keeps the first identical original field
    that lies behind the previously kept one (src/hooks.rs:1134-1171). */
module Matching {
  import opened Octets
  import opened Mta

  // ---- The linear scan that defines the match -----------------------------

  /** First position at or after `cursor` holding exactly this field. */
  function FirstAt(original: seq<Field>, key: Field, cursor: nat): (r: Option<nat>)
    ensures r.Some? ==> cursor <= r.value < |original| && original[r.value] == key
    ensures r.Some? ==> forall i :: cursor <= i < r.value ==> original[i] != key
    ensures r.None? ==> forall i :: cursor <= i < |original| ==> original[i] != key
    decreases |original| - cursor
  {
    if cursor >= |original| then None
    else if original[cursor] == key then Some(cursor)
    else FirstAt(original, key, cursor + 1)
  }

  /** Where the search for field `p` starts. */
  function Cursor(original: seq<Field>, looks: seq<Option<Field>>, p: nat): (r: nat)
    requires p <= |looks|
    ensures r <= |original|
  {
    if p == 0 then 0
    else
      var before := Cursor(original, looks, p - 1);
      var found := if looks[p - 1].Some? then FirstAt(original, looks[p - 1].value, before) else None;
      if found.Some? then found.value + 1 else before
  }

  function MatchAt(original: seq<Field>, looks: seq<Option<Field>>, p: nat): Option<nat>
    requires p < |looks|
  {
    if looks[p].Some? then FirstAt(original, looks[p].value, Cursor(original, looks, p)) else None
  }

  function Retained(original: seq<Field>, looks: seq<Option<Field>>, p: nat): set<nat>
    requires p <= |looks|
  {
    if p == 0 then {}
    else
      var m := MatchAt(original, looks, p - 1);
      Retained(original, looks, p - 1) + if m.Some? then {m.value} else {}
  }

  function Dropped(original: seq<Field>, looks: seq<Option<Field>>, p: nat): set<nat>
    requires p <= |looks|
  {
    set i: nat | i < |original| && i !in Retained(original, looks, p)
  }

  /** Kept positions stay below the cursor, so they strictly increase. */
  lemma {:induction false} RetainedBelow(original: seq<Field>, looks: seq<Option<Field>>, p: nat)
    requires p <= |looks|
    ensures forall i <- Retained(original, looks, p) :: i < Cursor(original, looks, p)
  {
    if p > 0 {
      RetainedBelow(original, looks, p - 1);
    }
  }

  /** The matches in order. */
  function Picks(original: seq<Field>, looks: seq<Option<Field>>): seq<Option<nat>> {
    seq(|looks|, p requires 0 <= p < |looks| => MatchAt(original, looks, p))
  }

  /** Some field before `p` was matched at or behind position `j`. */
  predicate Passed(picks: seq<Option<nat>>, p: nat, j: nat)
    requires p <= |picks|
  {
    exists q :: 0 <= q < p && picks[q].Some? && j <= picks[q].value
  }

  /** Field `p` is matched with the first identical original behind all earlier matches, and
      unmatched only if there is none. */
  predicate GreedyAt(original: seq<Field>, looks: seq<Option<Field>>, picks: seq<Option<nat>>, p: nat)
    requires p < |looks| == |picks|
  {
    match picks[p]
    case Some(i) =>
      && i < |original| && looks[p] == Some(original[i]) && !Passed(picks, p, i)
      && (forall j :: 0 <= j < i && looks[p] == Some(original[j]) ==> Passed(picks, p, j))
    case None => forall j :: 0 <= j < |original| && looks[p] == Some(original[j]) ==> Passed(picks, p, j)
  }

  predicate Greedy(original: seq<Field>, looks: seq<Option<Field>>, picks: seq<Option<nat>>) {
    |picks| == |looks| && forall p {:trigger GreedyAt(original, looks, picks, p)} :: 0 <= p < |looks| ==> GreedyAt(original, looks, picks, p)
  }

  /** The cursor is one past the last match. */
  lemma {:induction false} CursorPasses(original: seq<Field>, looks: seq<Option<Field>>, p: nat, j: nat)
    requires p <= |looks|
    ensures j < Cursor(original, looks, p) <==> Passed(Picks(original, looks), p, j)
  {
    if p > 0 {
      CursorPasses(original, looks, p - 1, j);
      var picks := Picks(original, looks);
      var last := MatchAt(original, looks, p - 1);
      assert picks[p - 1] == last;
      assert last.Some? ==> Cursor(original, looks, p - 1) <= last.value;
    }
  }

  lemma {:induction false} PicksGreedy(original: seq<Field>, looks: seq<Option<Field>>)
    ensures Greedy(original, looks, Picks(original, looks))
  {
    var picks := Picks(original, looks);
    forall p: nat | p < |looks|
      ensures GreedyAt(original, looks, picks, p)
    {
      var cursor := Cursor(original, looks, p);
      forall j: nat | j < |original|
        ensures j < cursor <==> Passed(picks, p, j)
      {
        CursorPasses(original, looks, p, j);
      }
      assert picks[p] == MatchAt(original, looks, p);
    }
  }

  lemma {:induction false} PassedSame(a: seq<Option<nat>>, b: seq<Option<nat>>, p: nat, j: nat)
    requires p <= |a| && p <= |b| && a[..p] == b[..p]
    ensures Passed(a, p, j) == Passed(b, p, j)
  {
    assert forall q :: 0 <= q < p ==> a[..p][q] == a[q] && b[..p][q] == b[q];
  }

  lemma {:induction false} GreedySame(
    original: seq<Field>, looks: seq<Option<Field>>, a: seq<Option<nat>>, b: seq<Option<nat>>, p: nat)
    requires Greedy(original, looks, a) && Greedy(original, looks, b) && p <= |looks|
    ensures a[..p] == b[..p]
  {
    if p > 0 {
      var last := p - 1;
      GreedySame(original, looks, a, b, last);
      assert GreedyAt(original, looks, a, last) && GreedyAt(original, looks, b, last);
      forall j: nat | j < |original|
        ensures Passed(a, last, j) == Passed(b, last, j)
      {
        PassedSame(a, b, last, j);
      }
      assert a[last] == b[last];
      assert a[..p] == a[..p - 1] + [a[p - 1]] && b[..p] == b[..p - 1] + [b[p - 1]];
    }
  }

  /** Greedy retention is exactly what the scan computes: there is one way to do it. */
  lemma {:induction false} GreedyIff(original: seq<Field>, looks: seq<Option<Field>>, picks: seq<Option<nat>>)
    ensures Greedy(original, looks, picks) <==> picks == Picks(original, looks)
  {
    PicksGreedy(original, looks);
    if Greedy(original, looks, picks) {
      var all := Picks(original, looks);
      GreedySame(original, looks, picks, all, |looks|);
      assert picks[..|looks|] == picks && all[..|looks|] == all;
    }
  }

  // ---- The index that speeds it up ----------------------------------------

  /** All positions below `n` holding this field, ascending. */
  function Positions(original: seq<Field>, key: Field, n: nat): seq<nat>
    requires n <= |original|
  {
    if n == 0 then []
    else Positions(original, key, n - 1) + if original[n - 1] == key then [n - 1] else []
  }

  lemma {:induction false} PositionsSound(original: seq<Field>, key: Field, n: nat, k: nat)
    requires n <= |original| && k < |Positions(original, key, n)|
    ensures Positions(original, key, n)[k] < n && original[Positions(original, key, n)[k]] == key
  {
    if k < |Positions(original, key, n - 1)| {
      PositionsSound(original, key, n - 1, k);
    }
  }

  lemma {:induction false} PositionsAscend(original: seq<Field>, key: Field, n: nat, j: nat, k: nat)
    requires n <= |original| && j < k < |Positions(original, key, n)|
    ensures Positions(original, key, n)[j] < Positions(original, key, n)[k]
  {
    var before := Positions(original, key, n - 1);
    if k < |before| {
      PositionsAscend(original, key, n - 1, j, k);
    } else {
      PositionsSound(original, key, n - 1, j);
    }
  }

  lemma {:induction false} PositionsComplete(original: seq<Field>, key: Field, n: nat, i: nat) returns (k: nat)
    requires i < n <= |original| && original[i] == key
    ensures k < |Positions(original, key, n)| && Positions(original, key, n)[k] == i
  {
    if i == n - 1 {
      k := |Positions(original, key, n - 1)|;
    } else {
      k := PositionsComplete(original, key, n - 1, i);
    }
  }

  /** How many leading entries lie before the cursor (the library's partition point). */
  function PartitionPoint(positions: seq<nat>, cursor: nat): (r: nat)
    ensures r <= |positions|
    ensures forall k :: 0 <= k < r ==> positions[k] < cursor
    ensures r < |positions| ==> positions[r] >= cursor
  {
    if positions == [] || positions[0] >= cursor then 0 else 1 + PartitionPoint(positions[1..], cursor)
  }

  /** Looking up the index gives exactly what the linear scan gives. */
  lemma {:induction false} IndexFindsFirst(original: seq<Field>, key: Field, cursor: nat)
    ensures var positions := Positions(original, key, |original|);
            var k := PartitionPoint(positions, cursor);
            FirstAt(original, key, cursor) == if k < |positions| then Some(positions[k]) else None
  {
    var positions := Positions(original, key, |original|);
    var k := PartitionPoint(positions, cursor);
    var first := FirstAt(original, key, cursor);
    if k < |positions| {
      PositionsSound(original, key, |original|, k);
    }
    if first.Some? {
      var j := PositionsComplete(original, key, |original|, first.value);
      if k < j {
        PositionsAscend(original, key, |original|, k, j);
      }
    }
  }

  type Index = map<Field, seq<nat>>

  /** The index lists, for every field seen so far, exactly its positions. */
  ghost predicate Indexes(candidates: Index, original: seq<Field>, n: nat) {
    n <= |original| && forall key: Field :: Candidates(candidates, key) == Positions(original, key, n)
  }

  function Candidates(candidates: Index, key: Field): seq<nat> {
    if key in candidates then candidates[key] else []
  }

  lemma {:induction false} IndexGrows(candidates: Index, original: seq<Field>, n: nat)
    requires n < |original| && Indexes(candidates, original, n)
    ensures Indexes(candidates[original[n] := Candidates(candidates, original[n]) + [n]], original, n + 1)
  {
    var more := candidates[original[n] := Candidates(candidates, original[n]) + [n]];
    forall key: Field
      ensures Candidates(more, key) == Positions(original, key, n + 1)
    {
      assert Candidates(candidates, key) == Positions(original, key, n);
      assert Positions(original, key, n) + [] == Positions(original, key, n);
    }
  }

  /** The occurrence numbers the deletes will use. */
  function Occurrence(original: seq<Field>, i: nat): nat
    requires i < |original|
  {
    Count(original[..i], original[i].name) + 1
  }

  ghost predicate Counts(counts: map<Bytes, nat>, original: seq<Field>, n: nat) {
    n <= |original| && forall name: Bytes ::
      Count(original[..n], name) == if Fold(name) in counts then counts[Fold(name)] else 0
  }

  lemma {:induction false} CountsGrow(counts: map<Bytes, nat>, original: seq<Field>, n: nat)
    requires n < |original| && Counts(counts, original, n)
    ensures Counts(counts[Fold(original[n].name) := Occurrence(original, n)], original, n + 1)
  {
    var more := counts[Fold(original[n].name) := Occurrence(original, n)];
    forall name: Bytes
      ensures Count(original[..n + 1], name) == if Fold(name) in more then more[Fold(name)] else 0
    {
      assert original[..n + 1][..n] == original[..n];
      var here := original[n].name;
      assert Count(original[..n], name) == if Fold(name) in counts then counts[Fold(name)] else 0;
      assert Count(original[..n], here) == if Fold(here) in counts then counts[Fold(here)] else 0;
    }
  }

  /** The indexing loop: positions per identical field, and running counts per name. */
  method BuildIndex(original: seq<Field>) returns (candidates: Index, occurrences: seq<U32>)
    requires |original| < 0x1_0000_0000
    ensures Indexes(candidates, original, |original|)
    ensures |occurrences| == |original|
    ensures forall i :: 0 <= i < |original| ==> occurrences[i] == Occurrence(original, i)
  {
    candidates, occurrences := map[], [];
    var counts: map<Bytes, nat> := map[];
    for i := 0 to |original|
      invariant Indexes(candidates, original, i)
      invariant Counts(counts, original, i)
      invariant |occurrences| == i
      invariant forall k :: 0 <= k < i ==> occurrences[k] == Occurrence(original, k)
    {
      var field := original[i];
      IndexGrows(candidates, original, i);
      candidates := candidates[field := Candidates(candidates, field) + [i]];
      var folded := Fold(field.name);
      var count := (if folded in counts then counts[folded] else 0) + 1;
      assert count == Occurrence(original, i);
      CountsGrow(counts, original, i);
      counts := counts[folded := count];
      occurrences := occurrences + [count];
    }
  }
}
