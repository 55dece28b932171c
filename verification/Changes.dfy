/** Header changes and deletes: sorted by descending original position, checked for
    conflicts, and addressed by per-name occurrence (src/hooks.rs:1000-1029). */
module Changes {
  import opened Octets
  import opened Modifications
  import opened Mta
  import opened Scripts

  /** An original position with its new value, or None to delete it. */
  datatype HeaderEdit = HeaderEdit(at: nat, value: Option<Bytes>)

  // ---- Stable descending sort ---------------------------------------------

  predicate Below(n: nat, s: seq<HeaderEdit>) {
    forall k :: 0 <= k < |s| ==> s[k].at < n
  }

  predicate Descending(s: seq<HeaderEdit>) {
    s == [] || (Below(s[0].at + 1, s[1..]) && Descending(s[1..]))
  }

  predicate Strict(s: seq<HeaderEdit>) {
    s == [] || (Below(s[0].at, s[1..]) && Strict(s[1..]))
  }

  predicate Fresh(at: nat, s: seq<HeaderEdit>) {
    forall k :: 0 <= k < |s| ==> s[k].at != at
  }

  /** No two edits name the same original header. */
  predicate Distinct(edits: seq<HeaderEdit>) {
    forall i, k :: 0 <= i < k < |edits| ==> edits[i].at != edits[k].at
  }

  function Place(x: HeaderEdit, s: seq<HeaderEdit>): (r: seq<HeaderEdit>)
    ensures multiset(r) == multiset(s) + multiset{x}
  {
    if s == [] || s[0].at <= x.at then [x] + s
    else
      assert s == [s[0]] + s[1..];
      [s[0]] + Place(x, s[1..])
  }

  function SortDescending(s: seq<HeaderEdit>): (r: seq<HeaderEdit>)
    ensures multiset(r) == multiset(s)
  {
    if s == [] then []
    else
      assert s == [s[0]] + s[1..];
      Place(s[0], SortDescending(s[1..]))
  }

  lemma {:induction false} PlaceBelow(n: nat, x: HeaderEdit, s: seq<HeaderEdit>)
    ensures Below(n, Place(x, s)) <==> x.at < n && Below(n, s)
  {
    BelowCons(n, x, s);
    if s != [] && s[0].at > x.at {
      PlaceBelow(n, x, s[1..]);
      BelowCons(n, s[0], Place(x, s[1..]));
      BelowCons(n, s[0], s[1..]);
      assert s == [s[0]] + s[1..];
    }
  }

  lemma {:induction false} BelowCons(n: nat, x: HeaderEdit, s: seq<HeaderEdit>)
    ensures Below(n, [x] + s) <==> x.at < n && Below(n, s)
  {
    var t := [x] + s;
    assert t[0] == x && t[1..] == s;
    assert forall k :: 0 <= k < |s| ==> t[k + 1] == s[k];
  }

  lemma {:induction false} PlaceSorts(x: HeaderEdit, s: seq<HeaderEdit>)
    requires Descending(s)
    ensures Descending(Place(x, s))
  {
    if s != [] && s[0].at > x.at {
      PlaceSorts(x, s[1..]);
      PlaceBelow(s[0].at + 1, x, s[1..]);
      assert Place(x, s)[1..] == Place(x, s[1..]);
    } else {
      assert Place(x, s)[1..] == s;
    }
  }

  lemma {:induction false} PlaceConflicts(x: HeaderEdit, s: seq<HeaderEdit>)
    requires Descending(s)
    ensures Strict(Place(x, s)) <==> Strict(s) && Fresh(x.at, s)
  {
    if s != [] && s[0].at > x.at {
      PlaceConflicts(x, s[1..]);
      PlaceBelow(s[0].at, x, s[1..]);
      assert Place(x, s)[1..] == Place(x, s[1..]);
      assert forall k :: 0 < k < |s| ==> s[k] == s[1..][k - 1];
    } else {
      assert Place(x, s)[1..] == s;
    }
  }

  lemma {:induction false} FreshPermutes(at: nat, a: seq<HeaderEdit>, b: seq<HeaderEdit>)
    requires multiset(a) == multiset(b) && Fresh(at, a)
    ensures Fresh(at, b)
  {
    forall k | 0 <= k < |b|
      ensures b[k].at != at
    {
      assert b[k] in multiset(a);
    }
  }

  lemma {:induction false} StrictIndexed(s: seq<HeaderEdit>, i: nat, j: nat)
    requires Strict(s) && i < j < |s|
    ensures s[i].at > s[j].at
  {
    if i == 0 {
      assert s[j] == s[1..][j - 1];
    } else {
      StrictIndexed(s[1..], i - 1, j - 1);
    }
  }

  lemma {:induction false} StrictIfDistinct(s: seq<HeaderEdit>)
    requires Descending(s)
    ensures Strict(s) <==> Distinct(s)
  {
    if Distinct(s) && s != [] {
      StrictIfDistinct(s[1..]);
      forall k | 0 <= k < |s[1..]|
        ensures s[1..][k].at < s[0].at
      {
        assert s[1..][k] == s[k + 1];
      }
    }
    if Strict(s) {
      forall i, k | 0 <= i < k < |s|
        ensures s[i].at != s[k].at
      {
        StrictIndexed(s, i, k);
      }
    }
  }

  lemma {:induction false} DistinctCons(x: HeaderEdit, s: seq<HeaderEdit>)
    ensures Distinct([x] + s) <==> Fresh(x.at, s) && Distinct(s)
  {
    var t := [x] + s;
    if Distinct(t) {
      forall i, k | 0 <= i < k < |s|
        ensures s[i].at != s[k].at
      {
        assert t[i + 1].at != t[k + 1].at;
      }
      forall k | 0 <= k < |s|
        ensures s[k].at != x.at
      {
        assert t[0].at != t[k + 1].at;
      }
    }
  }

  /** Sorting brings equal positions together: the sorted list is strict exactly
      when the unsorted one names every header at most once. */
  lemma {:induction false} SortConflicts(s: seq<HeaderEdit>)
    ensures Descending(SortDescending(s))
    ensures Strict(SortDescending(s)) <==> Distinct(s)
  {
    if s != [] {
      var rest := SortDescending(s[1..]);
      SortConflicts(s[1..]);
      PlaceSorts(s[0], rest);
      PlaceConflicts(s[0], rest);
      DistinctCons(s[0], s[1..]);
      assert s == [s[0]] + s[1..];
      if Fresh(s[0].at, rest) {
        FreshPermutes(s[0].at, rest, s[1..]);
      }
      if Fresh(s[0].at, s[1..]) {
        FreshPermutes(s[0].at, s[1..], rest);
      }
    }
  }

  // ---- Effect of the edits on the MTA's list ------------------------------

  /** What one edit asks for: a non-empty new value, or the field's absence. */
  predicate Effect(e: HeaderEdit, fields: seq<Field>, current: seq<Field>, gone: set<nat>, leading: bool) {
    && e.at < |fields| == |current|
    && (if e.value.Some? && e.value.value != [] then
          e.at !in gone && current[e.at] == Field(fields[e.at].name, OnWire(e.value.value, leading))
        else e.at in gone)
  }

  /** `current` without `gone` is what the edits together ask for. */
  ghost predicate Explains(edits: seq<HeaderEdit>, fields: seq<Field>, current: seq<Field>, gone: set<nat>, leading: bool) {
    && |fields| == |current|
    && (forall k :: 0 <= k < |edits| ==> Effect(edits[k], fields, current, gone, leading))
    && (forall t {:trigger Fresh(t, edits)} :: 0 <= t < |fields| && Fresh(t, edits) ==> t !in gone && current[t] == fields[t])
  }

  lemma {:induction false} ExplainsPermutes(
    a: seq<HeaderEdit>, b: seq<HeaderEdit>, fields: seq<Field>, current: seq<Field>, gone: set<nat>, leading: bool)
    requires multiset(a) == multiset(b) && Explains(a, fields, current, gone, leading)
    ensures Explains(b, fields, current, gone, leading)
  {
    forall k | 0 <= k < |b|
      ensures Effect(b[k], fields, current, gone, leading)
    {
      assert b[k] in multiset(a);
    }
    forall t | 0 <= t < |fields| && Fresh(t, b)
      ensures t !in gone && current[t] == fields[t]
    {
      FreshPermutes(t, b, a);
    }
  }

  /** The first position not yet reached after `j` edits in descending order. */
  function Frontier(edits: seq<HeaderEdit>, j: nat, n: nat): nat
    requires j <= |edits|
  {
    if j == 0 then n else edits[j - 1].at
  }

  /** The MTA's list once every edit at or behind the frontier is done. */
  function Progress(fields: seq<Field>, current: seq<Field>, gone: set<nat>, frontier: nat): seq<Field>
    requires frontier <= |fields| == |current|
  {
    fields[..frontier] + KeptFrom(current, gone, frontier)
  }

  function ChangeOf(e: HeaderEdit, fields: seq<Field>): Modification
    requires e.at < |fields| < 0x1_0000_0000
  {
    ChangeHeader(Count(fields[..e.at], fields[e.at].name) + 1, fields[e.at].name,
                 ValueOf(e))
  }

  lemma {:induction false} ProgressGap(
    edits: seq<HeaderEdit>, fields: seq<Field>, current: seq<Field>, gone: set<nat>, from: nat, to: nat, leading: bool)
    requires Explains(edits, fields, current, gone, leading) && from <= to <= |fields|
    requires forall t :: from <= t < to ==> Fresh(t, edits)
    ensures Progress(fields, current, gone, to) == fields[..from] + KeptFrom(current, gone, from)
  {
    forall t | from <= t < to
      ensures t !in gone && current[t] == fields[t]
    {
      assert Fresh(t, edits);
    }
    KeptGap(fields, current, gone, from, to);
    Reassociate(fields[..from], fields[from..to], KeptFrom(current, gone, to));
    assert fields[..to] == fields[..from] + fields[from..to];
  }

  lemma {:induction false} GapIsFresh(edits: seq<HeaderEdit>, j: nat, n: nat)
    requires Strict(edits) && j < |edits| && forall k :: 0 <= k < |edits| ==> edits[k].at < n
    ensures edits[j].at < Frontier(edits, j, n)
    ensures forall t :: edits[j].at < t < Frontier(edits, j, n) ==> Fresh(t, edits)
  {
    forall k | 0 <= k < |edits|
      ensures k < j ==> edits[k].at >= Frontier(edits, j, n)
      ensures k > j ==> edits[k].at < edits[j].at
    {
      if k < j - 1 {
        StrictIndexed(edits, k, j - 1);
      } else if k > j {
        StrictIndexed(edits, j, k);
      }
    }
    if j > 0 {
      StrictIndexed(edits, j - 1, j);
    }
  }

  function ValueOf(e: HeaderEdit): Bytes {
    if e.value.Some? then e.value.value else []
  }

  lemma {:induction false} ChangeHere(e: HeaderEdit, fields: seq<Field>, current: seq<Field>, gone: set<nat>, leading: bool)
    requires Effect(e, fields, current, gone, leading)
    ensures var value := OnWire(ValueOf(e), leading);
            fields[..e.at] + (if value == [] then [] else [Field(fields[e.at].name, value)])
              + KeptFrom(current, gone, e.at + 1) == Progress(fields, current, gone, e.at)
  {
    var here := if e.at in gone then [] else [current[e.at]];
    Reassociate(fields[..e.at], here, KeptFrom(current, gone, e.at + 1));
  }

  lemma {:induction false} FrontierGap(
    edits: seq<HeaderEdit>, j: nat, fields: seq<Field>, current: seq<Field>, gone: set<nat>, leading: bool)
    requires Strict(edits) && j < |edits| && Explains(edits, fields, current, gone, leading)
    requires Frontier(edits, j, |fields|) <= |fields|
    ensures Effect(edits[j], fields, current, gone, leading)
    ensures Progress(fields, current, gone, Frontier(edits, j, |fields|)) ==
            fields[..edits[j].at + 1] + KeptFrom(current, gone, edits[j].at + 1)
  {
    GapIsFresh(edits, j, |fields|);
    ProgressGap(edits, fields, current, gone, edits[j].at + 1, Frontier(edits, j, |fields|), leading);
  }

  /** One emitted change moves the frontier down to its own position. */
  lemma {:induction false} ChangeStep(
    msg: Message, e: HeaderEdit, fields: seq<Field>, current: seq<Field>, gone: set<nat>, leading: bool)
    requires Effect(e, fields, current, gone, leading) && |fields| < 0x1_0000_0000
    requires msg.headers == fields[..e.at + 1] + KeptFrom(current, gone, e.at + 1)
    ensures Apply(msg, EditOf(ChangeOf(e, fields), leading)) ==
            Some(msg.(headers := Progress(fields, current, gone, e.at)))
  {
    ChangeAt(msg, fields, e.at, KeptFrom(current, gone, e.at + 1), OnWire(ValueOf(e), leading));
    ChangeHere(e, fields, current, gone, leading);
  }

  function ChangeScript(edits: seq<HeaderEdit>, fields: seq<Field>): seq<Modification>
    requires |fields| < 0x1_0000_0000 && forall k :: 0 <= k < |edits| ==> edits[k].at < |fields|
  {
    seq(|edits|, k requires 0 <= k < |edits| => ChangeOf(edits[k], fields))
  }

  lemma {:induction false} EmitStep(
    msg: Message, edits: seq<HeaderEdit>, j: nat, fields: seq<Field>, current: seq<Field>, gone: set<nat>, leading: bool)
    requires Strict(edits) && j < |edits| && |fields| < 0x1_0000_0000
    requires forall k :: 0 <= k < |edits| ==> edits[k].at < |fields|
    requires Explains(edits, fields, current, gone, leading)
    requires Frontier(edits, j, |fields|) <= |fields|
    requires RunsTo(msg, ChangeScript(edits, fields)[..j],
                    Progress(fields, current, gone, Frontier(edits, j, |fields|)), leading)
    ensures RunsTo(msg, ChangeScript(edits, fields)[..j + 1], Progress(fields, current, gone, edits[j].at), leading)
  {
    FrontierGap(edits, j, fields, current, gone, leading);
    var before := msg.(headers := Progress(fields, current, gone, Frontier(edits, j, |fields|)));
    ChangeStep(before, edits[j], fields, current, gone, leading);
    SliceSnoc(ChangeScript(edits, fields), j);
    RunSnoc(msg, ChangeScript(edits, fields)[..j], ChangeOf(edits[j], fields), leading);
  }

  /** Run in descending order, the changes leave `current` minus `gone`. */
  lemma {:induction false} ChangesRun(
    msg: Message, edits: seq<HeaderEdit>, j: nat,
    fields: seq<Field>, current: seq<Field>, gone: set<nat>, leading: bool)
    requires Strict(edits) && j <= |edits| && |fields| < 0x1_0000_0000 && msg.headers == fields
    requires forall k :: 0 <= k < |edits| ==> edits[k].at < |fields|
    requires Explains(edits, fields, current, gone, leading)
    ensures Frontier(edits, j, |fields|) <= |fields|
    ensures RunsTo(msg, ChangeScript(edits, fields)[..j],
                   Progress(fields, current, gone, Frontier(edits, j, |fields|)), leading)
    decreases j
  {
    if j == 0 {
      assert fields[..|fields|] + [] == fields;
    } else {
      ChangesRun(msg, edits, j - 1, fields, current, gone, leading);
      EmitStep(msg, edits, j - 1, fields, current, gone, leading);
    }
  }

  lemma {:induction false} AllChangesRun(
    msg: Message, edits: seq<HeaderEdit>, fields: seq<Field>, current: seq<Field>, gone: set<nat>, leading: bool)
    requires Strict(edits) && |fields| < 0x1_0000_0000 && msg.headers == fields
    requires forall k :: 0 <= k < |edits| ==> edits[k].at < |fields|
    requires Explains(edits, fields, current, gone, leading)
    ensures RunsTo(msg, ChangeScript(edits, fields), KeptFrom(current, gone, 0), leading)
  {
    ChangesRun(msg, edits, |edits|, fields, current, gone, leading);
    LastProgress(edits, fields, current, gone, leading);
    assert ChangeScript(edits, fields)[..|edits|] == ChangeScript(edits, fields);
  }

  predicate AllText(edits: seq<HeaderEdit>, fields: seq<Field>, isText: Bytes -> bool) {
    forall k :: 0 <= k < |edits| ==> edits[k].at < |fields| && isText(fields[edits[k].at].name)
  }

  lemma {:induction false} TextPermutes(
    a: seq<HeaderEdit>, b: seq<HeaderEdit>, fields: seq<Field>, isText: Bytes -> bool)
    requires multiset(a) == multiset(b) && AllText(a, fields, isText)
    ensures AllText(b, fields, isText)
  {
    forall k | 0 <= k < |b|
      ensures b[k].at < |fields| && isText(fields[b[k].at].name)
    {
      assert b[k] in multiset(a);
    }
  }

  /** The emission loop for changes and deletes: it fails exactly when two operations
      name one header or an edited name is not text. */
  method EmitChanges(edits: seq<HeaderEdit>, fields: seq<Field>, isText: Bytes -> bool)
    returns (r: Result<seq<Modification>>)
    requires |fields| < 0x1_0000_0000
    requires forall k :: 0 <= k < |edits| ==> edits[k].at < |fields|
    ensures r.Ok? <==> Distinct(edits) && AllText(edits, fields, isText)
    ensures r.Ok? ==> r.value == ChangeScript(edits, fields)
  {
    var modifications: seq<Modification> := [];
    var seen: set<nat> := {};
    for j := 0 to |edits|
      invariant modifications == ChangeScript(edits, fields)[..j]
      invariant forall k :: 0 <= k < j ==> edits[k].at in seen && isText(fields[edits[k].at].name)
      invariant forall t <- seen :: exists k :: 0 <= k < j && edits[k].at == t
      invariant forall i, k :: 0 <= i < k < j ==> edits[i].at != edits[k].at
    {
      var e := edits[j];
      if e.at in seen {
        return Err(Invalid);
      }
      seen := seen + {e.at};
      if !isText(fields[e.at].name) {
        return Err(Invalid);
      }
      SliceSnoc(ChangeScript(edits, fields), j);
      modifications := modifications + [ChangeOf(e, fields)];
    }
    r := Ok(modifications);
  }

  lemma {:induction false} LastProgress(edits: seq<HeaderEdit>, fields: seq<Field>, current: seq<Field>, gone: set<nat>, leading: bool)
    requires Strict(edits) && Explains(edits, fields, current, gone, leading)
    ensures Frontier(edits, |edits|, |fields|) <= |fields|
    ensures Progress(fields, current, gone, Frontier(edits, |edits|, |fields|)) == KeptFrom(current, gone, 0)
  {
    var last := Frontier(edits, |edits|, |fields|);
    if edits != [] {
      assert Effect(edits[|edits| - 1], fields, current, gone, leading);
      forall k | 0 <= k < |edits| - 1
        ensures edits[k].at > last
      {
        StrictIndexed(edits, k, |edits| - 1);
      }
    }
    ProgressGap(edits, fields, current, gone, 0, last, leading);
    assert fields[..0] == [];
  }
}
