/** The registration shared by concurrent invocations, as interleaved steps of arbitrarily many
    tasks around one mutex (src/hooks.rs:173-206, 315-318, 369-383). A task may be cancelled
    anywhere, which releases the lock it holds. Scanner ids are distinct. */
module Registration {
  import opened Octets

  type Task = nat
  type Id = nat

  /** Where a task stands. A task that may still recover carries `recovered == false`. */
  datatype Phase =
    | Idle
    | Wanting(recovered: bool)
    | Registering(recovered: bool)
    | Using(id: Id, recovered: bool)
    | Rejected(id: Id)

  /** How a stored registration left the cell. */
  datatype Exit = Discarded(task: Task) | Expired | Taken

  /** `stored` and `left` are the history of the cell: what was put in, and how it left. */
  datatype Client = Client(
    cell: Option<Id>, holder: Option<Task>, phases: map<Task, Phase>,
    stored: seq<Id>, left: seq<(Id, Exit)>)
  {
    function Phase(t: Task): Phase {
      if t in phases then phases[t] else Idle
    }
  }

  const START := Client(None, None, map[], [], [])

  datatype Action =
    | Begin(task: Task)
    | Enter(task: Task, valid: bool)   // the lock is free: look at the cell
    | Succeed(task: Task, id: Id)      // the registration request was answered
    | Fail(task: Task)
    | Lose(task: Task)                 // 404 or 410 on the first try
    | Discard(task: Task)              // the lock is free: drop the failed registration
    | Finish(task: Task)
    | Cancel(task: Task)
    | Deregister(task: Task)           // the lock is free: take the registration

  function Move(s: Client, t: Task, p: Phase): Client {
    s.(phases := s.phases[t := p])
  }

  /** Empty the cell, remembering how. */
  function Vacate(s: Client, exit: Exit): Client {
    if s.cell.None? then s else s.(cell := None, left := s.left + [(s.cell.value, exit)])
  }

  predicate Enabled(s: Client, a: Action) {
    match a
    case Begin(t) => s.Phase(t).Idle?
    case Enter(t, _) => s.holder.None? && s.Phase(t).Wanting?
    case Succeed(t, id) => s.Phase(t).Registering? && forall k :: 0 <= k < |s.stored| ==> s.stored[k] != id
    case Fail(t) => s.Phase(t).Registering?
    case Lose(t) => s.Phase(t).Using? && !s.Phase(t).recovered
    case Discard(t) => s.holder.None? && s.Phase(t).Rejected?
    case Finish(t) => s.Phase(t).Using?
    case Cancel(t) => true
    case Deregister(t) => s.holder.None? && s.Phase(t).Idle?
  }

  function Next(s: Client, a: Action): Client
    requires Enabled(s, a)
  {
    match a
    case Begin(t) => Move(s, t, Wanting(false))
    case Enter(t, valid) =>
      if s.cell.Some? && valid then Move(s, t, Using(s.cell.value, s.Phase(t).recovered))
      else Move(s, t, Registering(s.Phase(t).recovered)).(holder := Some(t))
    case Succeed(t, id) =>
      var open := Vacate(s, Expired);
      Move(open, t, Using(id, s.Phase(t).recovered)).(cell := Some(id), holder := None, stored := open.stored + [id])
    case Fail(t) => Move(s, t, Idle).(holder := None)
    case Lose(t) => Move(s, t, Rejected(s.Phase(t).id))
    case Discard(t) =>
      Move(if s.cell == Some(s.Phase(t).id) then Vacate(s, Discarded(t)) else s, t, Wanting(true))
    case Finish(t) => Move(s, t, Idle)
    case Cancel(t) => Move(s, t, Idle).(holder := if s.holder == Some(t) then None else s.holder)
    case Deregister(t) => Vacate(s, Taken)
  }

  /** Run a schedule; None if a step is not possible where it stands. */
  function Run(s: Client, schedule: seq<Action>): Option<Client>
    decreases |schedule|
  {
    if schedule == [] then Some(s)
    else if Enabled(s, schedule[0]) then Run(Next(s, schedule[0]), schedule[1..])
    else None
  }

  // ---- Invariant ----------------------------------------------------------

  /** The request in flight belongs to the holder of the lock. */
  ghost predicate Exclusive(s: Client) {
    forall t: Task :: s.Phase(t).Registering? <==> s.holder == Some(t)
  }

  /** Ids are stored once; all but the present one left again, in the same order. */
  ghost predicate Ledger(s: Client) {
    && (forall i, k :: 0 <= i < k < |s.stored| ==> s.stored[i] != s.stored[k])
    && |s.stored| == |s.left| + (if s.cell.Some? then 1 else 0)
    && (forall k :: 0 <= k < |s.left| ==> s.left[k].0 == s.stored[k])
    && (s.cell.Some? ==> s.stored[|s.left|] == s.cell.value)
  }

  ghost predicate Known(s: Client, id: Id) {
    exists k :: 0 <= k < |s.stored| && s.stored[k] == id
  }

  /** Tasks only ever use registrations that were stored. */
  ghost predicate UsesStored(s: Client) {
    forall t: Task :: (s.Phase(t).Using? || s.Phase(t).Rejected?) ==> Known(s, s.Phase(t).id)
  }

  ghost predicate Inv(s: Client) {
    Exclusive(s) && Ledger(s) && UsesStored(s)
  }

  lemma {:induction false} VacateLedger(s: Client, exit: Exit)
    requires Ledger(s)
    ensures Ledger(Vacate(s, exit)) && Vacate(s, exit).cell == None && Vacate(s, exit).stored == s.stored
  {
  }

  lemma {:induction false} StoreLedger(s: Client, id: Id)
    requires Ledger(s) && s.cell.None? && forall k :: 0 <= k < |s.stored| ==> s.stored[k] != id
    ensures Ledger(s.(cell := Some(id), stored := s.stored + [id]))
  {
  }

  lemma {:induction false} NextLedger(s: Client, a: Action)
    requires Ledger(s) && Enabled(s, a)
    ensures Ledger(Next(s, a))
  {
    match a
    case Succeed(t, id) =>
      VacateLedger(s, Expired);
      StoreLedger(Vacate(s, Expired), id);
    case Discard(t) => VacateLedger(s, Discarded(t));
    case Deregister(t) => VacateLedger(s, Taken);
    case _ =>
  }

  lemma {:induction false} NextExclusive(s: Client, a: Action)
    requires Exclusive(s) && Enabled(s, a)
    ensures Exclusive(Next(s, a))
  {
  }

  lemma {:induction false} StoredGrows(s: Client, a: Action, id: Id)
    requires Enabled(s, a) && Known(s, id)
    ensures Known(Next(s, a), id)
  {
    var k :| 0 <= k < |s.stored| && s.stored[k] == id;
    assert Next(s, a).stored[k] == id;
  }

  lemma {:induction false} NextUsesStored(s: Client, a: Action)
    requires Inv(s) && Enabled(s, a)
    ensures UsesStored(Next(s, a))
  {
    var n := Next(s, a);
    forall t: Task | n.Phase(t).Using? || n.Phase(t).Rejected?
      ensures Known(n, n.Phase(t).id)
    {
      if a.Succeed? && t == a.task {
        assert n.stored[|s.stored|] == a.id;
      } else if a.Enter? && t == a.task {
        assert n.stored[|s.left|] == n.Phase(t).id;
      } else {
        assert (s.Phase(t).Using? || s.Phase(t).Rejected?) && n.Phase(t).id == s.Phase(t).id;
        StoredGrows(s, a, n.Phase(t).id);
      }
    }
  }

  lemma {:induction false} NextInv(s: Client, a: Action)
    requires Inv(s) && Enabled(s, a)
    ensures Inv(Next(s, a))
  {
    NextLedger(s, a);
    NextExclusive(s, a);
    NextUsesStored(s, a);
  }

  lemma {:induction false} RunInv(s: Client, schedule: seq<Action>)
    requires Inv(s) && Run(s, schedule).Some?
    ensures Inv(Run(s, schedule).value)
    decreases |schedule|
  {
    if schedule != [] {
      NextInv(s, schedule[0]);
      RunInv(Next(s, schedule[0]), schedule[1..]);
    }
  }

  // ---- Safety -------------------------------------------------------------

  /** Under every interleaving at most one registration request is in flight, no id is stored
      twice, and none leaves the cell twice: each is discarded, expired or taken for
      deregistration at most once. */
  lemma {:induction false} RegistrationSafe(schedule: seq<Action>, t: Task, u: Task)
    requires Run(START, schedule).Some?
    ensures var s := Run(START, schedule).value;
            && (s.Phase(t).Registering? && s.Phase(u).Registering? ==> t == u)
            && (forall i, k :: 0 <= i < k < |s.stored| ==> s.stored[i] != s.stored[k])
            && (forall i, k :: 0 <= i < k < |s.left| ==> s.left[i].0 != s.left[k].0)
  {
    RunInv(START, schedule);
    var s := Run(START, schedule).value;
    forall i, k | 0 <= i < k < |s.left|
      ensures s.left[i].0 != s.left[k].0
    {
      assert s.left[i].0 == s.stored[i] && s.left[k].0 == s.stored[k];
    }
  }

  // ---- A failure does not reach newer registrations -----------------------

  /** Neither expiry nor deregistration. */
  predicate Calm(a: Action) {
    match a
    case Enter(_, valid) => valid
    case Deregister(_) => false
    case _ => true
  }

  /** A possible, calm schedule in which registrations outside `failing` are never rejected;
      any number of those inside may be, in any order. */
  ghost predicate FailsOnly(s: Client, schedule: seq<Action>, failing: iset<Id>)
    decreases |schedule|
  {
    schedule == [] ||
    (Enabled(s, schedule[0]) && Calm(schedule[0])
     && (schedule[0].Lose? ==> s.Phase(schedule[0].task).id in failing)
     && FailsOnly(Next(s, schedule[0]), schedule[1..], failing))
  }

  predicate Differs(a: Id, b: Id) {
    a != b
  }

  ghost function AllBut(id: Id): iset<Id> {
    iset other: Id | Differs(other, id)
  }

  ghost predicate NoneRejected(s: Client, id: Id) {
    forall t: Task :: s.Phase(t).Rejected? ==> s.Phase(t).id != id
  }

  /** The cell holds `id`, nobody is about to drop it and no request is in flight. */
  ghost predicate Settled(s: Client, id: Id) {
    s.cell == Some(id) && NoneRejected(s, id) && s.holder.None?
  }

  lemma {:induction false} KeptStep(s: Client, a: Action, id: Id)
    requires Inv(s) && Enabled(s, a) && Calm(a) && Settled(s, id)
    requires a.Lose? ==> s.Phase(a.task).id != id
    ensures Settled(Next(s, a), id) && Next(s, a).stored == s.stored
  {
    assert !s.Phase(a.task).Registering?;
    forall t: Task | Next(s, a).Phase(t).Rejected?
      ensures Next(s, a).Phase(t).id != id
    {
      assert t != a.task ==> s.Phase(t).Rejected?;
    }
  }

  /** Failures on other ids, however many and in whatever order, never discard a registration:
      while it is valid itself, the cell keeps it and nobody registers again. */
  lemma {:induction false} NewerKept(s: Client, schedule: seq<Action>, id: Id)
    requires Inv(s) && Settled(s, id)
    requires FailsOnly(s, schedule, AllBut(id))
    ensures Run(s, schedule).Some?
    ensures Settled(Run(s, schedule).value, id) && Run(s, schedule).value.stored == s.stored
    decreases |schedule|
  {
    if schedule != [] {
      KeptStep(s, schedule[0], id);
      NextInv(s, schedule[0]);
      NewerKept(Next(s, schedule[0]), schedule[1..], id);
    }
  }

  /** The ids stored so far. */
  function Ids(stored: seq<Id>): iset<Id> {
    iset id | id in stored
  }

  lemma {:induction false} FailsOnlyWidens(s: Client, schedule: seq<Action>, few: iset<Id>, many: iset<Id>)
    requires FailsOnly(s, schedule, few) && few <= many
    ensures FailsOnly(s, schedule, many)
    decreases |schedule|
  {
    if schedule != [] {
      FailsOnlyWidens(Next(s, schedule[0]), schedule[1..], few, many);
    }
  }

  /** A request in flight finds the cell empty: nothing has expired. */
  predicate Unexpired(s: Client) {
    s.holder.Some? ==> s.cell.None?
  }

  lemma {:induction false} UnexpiredStep(s: Client, a: Action)
    requires Inv(s) && Unexpired(s) && Enabled(s, a) && Calm(a) && !a.Succeed?
    ensures Unexpired(Next(s, a)) && Next(s, a).stored == s.stored
  {
  }

  lemma {:induction false} ReplacedStep(s: Client, a: Action)
    requires Inv(s) && Enabled(s, a) && a.Succeed?
    ensures Settled(Next(s, a), a.id) && a.id !in Ids(s.stored) && Next(s, a).stored == s.stored + [a.id]
  {
    forall t: Task | Next(s, a).Phase(t).Rejected?
      ensures Next(s, a).Phase(t).id != a.id
    {
      assert s.Phase(t).Rejected?;
    }
  }

  /** Any number of failures on registrations known at the start, the current one and older
      ones mixed, in any interleaving with new invocations, failed requests and cancellations,
      lead to at most one new registration, which then stays. */
  lemma {:induction false} OneReplacement(s: Client, schedule: seq<Action>)
    requires Inv(s) && Unexpired(s) && FailsOnly(s, schedule, Ids(s.stored))
    ensures Run(s, schedule).Some?
    ensures var n := Run(s, schedule).value;
            n.stored == s.stored || (|n.stored| == |s.stored| + 1 && n.cell == Some(n.stored[|s.stored|]))
    decreases |schedule|
  {
    if schedule != [] {
      var a := schedule[0];
      var n := Next(s, a);
      NextInv(s, a);
      if a.Succeed? {
        ReplacedStep(s, a);
        FailsOnlyWidens(n, schedule[1..], Ids(s.stored), AllBut(a.id));
        NewerKept(n, schedule[1..], a.id);
      } else {
        UnexpiredStep(s, a);
        OneReplacement(n, schedule[1..]);
      }
    }
  }

  // ---- A registration that left does not come back ------------------------

  lemma {:induction false} StaysOut(s: Client, a: Action, id: Id)
    requires Inv(s) && Enabled(s, a) && Known(s, id) && s.cell != Some(id)
    ensures Next(s, a).cell != Some(id)
    ensures forall t: Task :: Next(s, a).Phase(t).Using? && Next(s, a).Phase(t).id == id ==> s.Phase(t) == Next(s, a).Phase(t)
  {
    var n := Next(s, a);
    forall t: Task | n.Phase(t).Using? && n.Phase(t).id == id
      ensures s.Phase(t) == n.Phase(t)
    {
      assert t != a.task ==> n.Phase(t) == s.Phase(t);
    }
  }

  lemma {:induction false} RunStaysOut(s: Client, schedule: seq<Action>, id: Id)
    requires Inv(s) && Known(s, id) && s.cell != Some(id) && Run(s, schedule).Some?
    ensures Run(s, schedule).value.cell != Some(id)
    ensures var n := Run(s, schedule).value;
            forall t: Task :: n.Phase(t).Using? && n.Phase(t).id == id ==> s.Phase(t) == n.Phase(t)
    decreases |schedule|
  {
    if schedule != [] {
      var n := Next(s, schedule[0]);
      StaysOut(s, schedule[0], id);
      NextInv(s, schedule[0]);
      StoredGrows(s, schedule[0], id);
      RunStaysOut(n, schedule[1..], id);
      var last := Run(s, schedule).value;
      forall t: Task | last.Phase(t).Using? && last.Phase(t).id == id
        ensures s.Phase(t) == last.Phase(t)
      {
        assert n.Phase(t) == last.Phase(t);
      }
    }
  }

  /** Once a task has dropped the registration it was refused with, it is out of the cell for
      good: this task never uses it again, nor does any other that was not using it already. */
  lemma {:induction false} DiscardIsFinal(s: Client, t: Task, schedule: seq<Action>)
    requires Inv(s) && Enabled(s, Discard(t)) && Run(Next(s, Discard(t)), schedule).Some?
    ensures var id := s.Phase(t).id;
            var n := Run(Next(s, Discard(t)), schedule).value;
            && n.cell != Some(id) && !(n.Phase(t).Using? && n.Phase(t).id == id)
            && forall u: Task :: n.Phase(u).Using? && n.Phase(u).id == id ==> s.Phase(u) == n.Phase(u)
  {
    var id, m := s.Phase(t).id, Next(s, Discard(t));
    NextInv(s, Discard(t));
    StoredGrows(s, Discard(t), id);
    RunStaysOut(m, schedule, id);
    var n := Run(m, schedule).value;
    forall u: Task | n.Phase(u).Using? && n.Phase(u).id == id
      ensures u != t && s.Phase(u) == n.Phase(u)
    {
      assert m.Phase(u) == n.Phase(u);
    }
  }

  /** Deregistration takes what is there, and a valid registration is handed out as it is. */
  lemma {:induction false} TakenAndShared(s: Client, t: Task)
    ensures Enabled(s, Deregister(t)) ==>
              Next(s, Deregister(t)).cell == None
    ensures Enabled(s, Deregister(t)) && s.cell.Some? ==>
              Next(s, Deregister(t)).left == s.left + [(s.cell.value, Taken)]
    ensures Enabled(s, Enter(t, true)) && s.cell.Some? ==>
              Next(s, Enter(t, true)).Phase(t) == Using(s.cell.value, s.Phase(t).recovered)
    ensures Enabled(s, Enter(t, false)) || (Enabled(s, Enter(t, true)) && s.cell.None?) ==>
              Next(s, Enter(t, false)).Phase(t).Registering?
  {
  }

  // ---- Nobody is stuck ----------------------------------------------------

  lemma {:induction false} RunCons(s: Client, a: Action, rest: seq<Action>)
    requires Enabled(s, a)
    ensures Run(s, [a] + rest) == Run(Next(s, a), rest)
  {
    assert ([a] + rest)[1..] == rest;
  }

  /** How far a task is from using a registration. */
  function Distance(s: Client, t: Task): nat {
    match s.Phase(t)
    case Idle => 0
    case Using(_, _) => 0
    case Registering(_) => 1
    case Wanting(_) => if s.holder.Some? then 3 else 2
    case Rejected(_) => if s.holder.Some? then 5 else 4
  }

  /** The next step towards it: the holder of the lock gives up first. */
  function Onward(s: Client, t: Task, unused: Id): Action {
    match s.Phase(t)
    case Registering(_) => Succeed(t, unused)
    case Wanting(_) => if s.holder.Some? then Fail(s.holder.value) else Enter(t, true)
    case Rejected(_) => if s.holder.Some? then Fail(s.holder.value) else Discard(t)
    case _ => Finish(t)
  }

  lemma {:induction false} OnwardStep(s: Client, t: Task, unused: Id)
    requires Inv(s) && !Known(s, unused) && !s.Phase(t).Idle? && !s.Phase(t).Using?
    ensures Enabled(s, Onward(s, t, unused))
    ensures var n := Next(s, Onward(s, t, unused));
            && Distance(n, t) < Distance(s, t) && !n.Phase(t).Idle?
            && (Onward(s, t, unused).Fail? ==> n.Phase(t) == s.Phase(t))
            && (!s.Phase(t).Rejected? ==> !n.Phase(t).Rejected? && n.Phase(t).recovered == s.Phase(t).recovered)
            && (!n.Phase(t).Using? ==> n.stored == s.stored)
  {
    if s.holder.Some? {
      assert s.Phase(s.holder.value).Registering?;
    }
  }

  /** In every reachable state a task that wants a registration can get one, and one that was
      refused gets another than the one it lost. */
  lemma {:induction false} CanFinish(s: Client, t: Task, unused: Id) returns (schedule: seq<Action>)
    requires Inv(s) && !Known(s, unused) && !s.Phase(t).Idle?
    ensures Run(s, schedule).Some? && Run(s, schedule).value.Phase(t).Using?
    ensures var end := Run(s, schedule).value.Phase(t);
            if s.Phase(t).Rejected? then end.recovered && end.id != s.Phase(t).id
            else end.recovered == s.Phase(t).recovered
    decreases Distance(s, t)
  {
    if s.Phase(t).Using? {
      schedule := [];
    } else {
      var a := Onward(s, t, unused);
      OnwardStep(s, t, unused);
      NextInv(s, a);
      var n := Next(s, a);
      if n.Phase(t).Using? {
        schedule := [a];
        RunCons(s, a, []);
      } else {
        var rest := CanFinish(n, t, unused);
        schedule := [a] + rest;
        RunCons(s, a, rest);
        if a.Discard? {
          DiscardIsFinal(s, t, rest);
        }
      }
    }
  }

  /** A whole recovery with nobody in between: the lost registration is replaced if it is still
      the stored one, and otherwise the stored one is used; there is no second recovery. */
  lemma {:induction false} RecoveryRuns(s: Client, t: Task, unused: Id)
    requires Inv(s) && !Known(s, unused) && s.holder.None? && s.cell.Some?
    requires s.Phase(t).Using? && !s.Phase(t).recovered
    ensures var id := s.Phase(t).id;
            s.cell.value == id ==>
              (var n := Run(s, [Lose(t), Discard(t), Enter(t, true), Succeed(t, unused)]);
               && n.Some? && n.value.cell == Some(unused) && n.value.Phase(t) == Using(unused, true)
               && n.value.stored == s.stored + [unused] && n.value.left == s.left + [(id, Discarded(t))]
               && !Enabled(n.value, Lose(t)))
    ensures s.cell.value != s.Phase(t).id ==>
              (var n := Run(s, [Lose(t), Discard(t), Enter(t, true)]);
               && n.Some? && n.value.cell == s.cell && n.value.Phase(t) == Using(s.cell.value, true)
               && n.value.stored == s.stored && n.value.left == s.left && !Enabled(n.value, Lose(t)))
  {
    var lost := Next(s, Lose(t));
    var dropped := Next(lost, Discard(t));
    var entered := Next(dropped, Enter(t, true));
    RunCons(s, Lose(t), [Discard(t), Enter(t, true)]);
    RunCons(lost, Discard(t), [Enter(t, true)]);
    RunCons(dropped, Enter(t, true), []);
    RunCons(s, Lose(t), [Discard(t), Enter(t, true), Succeed(t, unused)]);
    RunCons(lost, Discard(t), [Enter(t, true), Succeed(t, unused)]);
    RunCons(dropped, Enter(t, true), [Succeed(t, unused)]);
    if s.cell.value == s.Phase(t).id {
      RunCons(entered, Succeed(t, unused), []);
    }
  }

  // ---- Who discarded what -------------------------------------------------

  lemma {:induction false} RunSnoc(s: Client, schedule: seq<Action>, a: Action)
    ensures Run(s, schedule + [a]) ==
            match Run(s, schedule)
            case None => None
            case Some(n) => if Enabled(n, a) then Some(Next(n, a)) else None
    decreases |schedule|
  {
    if schedule == [] {
      assert (schedule + [a])[1..] == [];
    } else {
      assert (schedule + [a])[1..] == schedule[1..] + [a];
      if Enabled(s, schedule[0]) {
        RunSnoc(Next(s, schedule[0]), schedule[1..], a);
      }
    }
  }

  /** At step `j` task `t` was told that `id`, which it was using, is unknown to the scanner. */
  predicate LostAt(schedule: seq<Action>, j: nat, t: Task, id: Id) {
    && j < |schedule| && schedule[j] == Lose(t)
    && (match Run(START, schedule[..j])
        case None => false
        case Some(n) => n.Phase(t).Using? && n.Phase(t).id == id)
  }

  ghost predicate Lost(schedule: seq<Action>, t: Task, id: Id) {
    exists j: nat :: LostAt(schedule, j, t, id)
  }

  lemma {:induction false} LostStays(schedule: seq<Action>, a: Action, t: Task, id: Id)
    requires Lost(schedule, t, id)
    ensures Lost(schedule + [a], t, id)
  {
    var j: nat :| LostAt(schedule, j, t, id);
    assert (schedule + [a])[..j] == schedule[..j];
    assert LostAt(schedule + [a], j, t, id);
  }

  /** Every discarded registration, and every one about to be, was lost by the task at hand. */
  ghost predicate Blamed(schedule: seq<Action>, s: Client) {
    && (forall k :: 0 <= k < |s.left| && s.left[k].1.Discarded? ==> Lost(schedule, s.left[k].1.task, s.left[k].0))
    && (forall t: Task :: s.Phase(t).Rejected? ==> Lost(schedule, t, s.Phase(t).id))
  }

  lemma {:induction false} BlamedLeft(schedule: seq<Action>, s: Client, a: Action)
    requires Run(START, schedule) == Some(s) && Enabled(s, a) && Blamed(schedule, s)
    ensures forall k :: 0 <= k < |Next(s, a).left| && Next(s, a).left[k].1.Discarded? ==>
              Lost(schedule + [a], Next(s, a).left[k].1.task, Next(s, a).left[k].0)
  {
    var n := Next(s, a);
    forall k | 0 <= k < |n.left| && n.left[k].1.Discarded?
      ensures Lost(schedule + [a], n.left[k].1.task, n.left[k].0)
    {
      if k < |s.left| {
        assert n.left[k] == s.left[k];
      }
      LostStays(schedule, a, n.left[k].1.task, n.left[k].0);
    }
  }

  lemma {:induction false} BlamedRejected(schedule: seq<Action>, s: Client, a: Action, t: Task)
    requires Run(START, schedule) == Some(s) && Enabled(s, a) && Blamed(schedule, s)
    requires Next(s, a).Phase(t).Rejected?
    ensures Lost(schedule + [a], t, Next(s, a).Phase(t).id)
  {
    if a == Lose(t) {
      assert (schedule + [a])[..|schedule|] == schedule;
      assert LostAt(schedule + [a], |schedule|, t, Next(s, a).Phase(t).id);
    } else {
      assert s.Phase(t).Rejected?;
      LostStays(schedule, a, t, s.Phase(t).id);
    }
  }

  lemma {:induction false} RunBlames(schedule: seq<Action>)
    requires Run(START, schedule).Some?
    ensures Blamed(schedule, Run(START, schedule).value)
    decreases |schedule|
  {
    if schedule != [] {
      var front, a := schedule[..|schedule| - 1], schedule[|schedule| - 1];
      assert schedule == front + [a];
      RunSnoc(START, front, a);
      RunBlames(front);
      var s := Run(START, front).value;
      BlamedLeft(front, s, a);
      forall t: Task | Next(s, a).Phase(t).Rejected?
        ensures Lost(schedule, t, Next(s, a).Phase(t).id)
      {
        BlamedRejected(front, s, a, t);
      }
    }
  }

  /** Over every schedule, with expiry and deregistration: whoever discarded a registration had
      been told by the scanner that this very one is unknown while using it. */
  lemma {:induction false} DiscardsAreEarned(schedule: seq<Action>, k: nat) returns (j: nat)
    requires Run(START, schedule).Some?
    requires k < |Run(START, schedule).value.left| && Run(START, schedule).value.left[k].1.Discarded?
    ensures var (id, exit) := Run(START, schedule).value.left[k];
            LostAt(schedule, j, exit.task, id)
  {
    RunBlames(schedule);
    var (id, exit) := Run(START, schedule).value.left[k];
    j :| LostAt(schedule, j, exit.task, id);
  }
}
