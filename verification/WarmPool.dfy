/** The pool of warm child processes and its concurrent refill tasks (src/claude_sidecar.rs). */
module WarmPool {
  import opened Prelude

  const POOL_SIZE: nat := 2

  /** A child process; `id` tells children apart. */
  datatype Child = Child(id: nat, spawnedAt: nat)

  datatype State = State(idle: map<string, seq<Child>>, warming: map<string, nat>)

  function Idle(s: State, model: string): seq<Child>
  {
    if model in s.idle then s.idle[model] else []
  }

  function Warming(s: State, model: string): nat
  {
    if model in s.warming then s.warming[model] else 0
  }

  function Fresh(slot: seq<Child>, alive: Child -> bool): (r: seq<Child>)
    ensures |r| <= |slot| && forall c | c in r :: c in slot && alive(c)
  {
    if slot == [] then [] else (if alive(slot[0]) then [slot[0]] else []) + Fresh(slot[1..], alive)
  }

  function Deficit(idle: nat, warming: nat): nat
  {
    if idle + warming >= POOL_SIZE then 0 else POOL_SIZE - (idle + warming)
  }

  // ---- what each operation does

  function CheckedOut(s: State, model: string): State
  {
    var slot := Idle(s, model);
    s.(idle := s.idle[model := if slot == [] then [] else slot[..|slot| - 1]])
  }

  /** The youngest child, unless it is too old. */
  function Taken(s: State, model: string, alive: Child -> bool): Option<Child>
  {
    var slot := Idle(s, model);
    if slot != [] && alive(slot[|slot| - 1]) then Some(slot[|slot| - 1]) else None
  }

  function Reaped(s: State, alive: Child -> bool): State
  {
    s.(idle := map model | model in s.idle :: Fresh(s.idle[model], alive))
  }

  function Reservation(s: State, model: string): nat
  {
    Deficit(|Idle(s, model)|, Warming(s, model))
  }

  function Reserved(s: State, model: string): State
  {
    var n := Reservation(s, model);
    if n > 0 then s.(warming := s.warming[model := Warming(s, model) + n]) else s
  }

  function Released(s: State, model: string, reserved: nat): map<string, nat>
  {
    if model !in s.warming then s.warming
    else
      var left := if s.warming[model] >= reserved then s.warming[model] - reserved else 0;
      if left == 0 then s.warming - {model} else s.warming[model := left]
  }

  /** As many of the children as there is room for. */
  function Kept(slot: seq<Child>, children: seq<Child>): seq<Child>
  {
    var room := if |slot| >= POOL_SIZE then 0 else POOL_SIZE - |slot|;
    if |children| <= room then children else children[..room]
  }

  function Finished(s: State, model: string, reserved: nat, children: seq<Child>): State
  {
    var slot := Idle(s, model);
    State(s.idle[model := slot + Kept(slot, children)], Released(s, model, reserved))
  }

  /** Keeps the children that are young enough, in order. */
  method Retain(slot: seq<Child>, alive: Child -> bool) returns (kept: seq<Child>)
    ensures kept == Fresh(slot, alive)
  {
    hide Fresh;
    kept := [];
    assert slot[0..] == slot;
    for i := 0 to |slot|
      invariant kept + Fresh(slot[i..], alive) == Fresh(slot, alive)
    {
      FreshNext(slot, i, alive);
      if alive(slot[i]) {
        kept := kept + [slot[i]];
      }
    }
    FreshOfNone(alive);
    assert slot[|slot|..] == [];
  }

  lemma FreshOfNone(alive: Child -> bool)
    ensures Fresh([], alive) == []
  {
  }

  lemma FreshNext(slot: seq<Child>, i: nat, alive: Child -> bool)
    requires i < |slot|
    ensures Fresh(slot[i..], alive) == (if alive(slot[i]) then [slot[i]] else []) + Fresh(slot[i + 1..], alive)
  {
    assert slot[i..][0] == slot[i] && slot[i..][1..] == slot[i + 1..];
  }

  class Pool {
    var idle: map<string, seq<Child>>
    var warming: map<string, nat>

    ghost function Now(): State
      reads this
    {
      State(idle, warming)
    }

    constructor ()
      ensures Now() == State(map[], map[])
    {
      idle, warming := map[], map[];
    }

    method Checkout(model: string, alive: Child -> bool) returns (child: Option<Child>)
      modifies this
      ensures Now() == CheckedOut(old(Now()), model) && child == Taken(old(Now()), model, alive)
      ensures child.Some? ==> alive(child.value) && old(Idle(Now(), model)) == Idle(Now(), model) + [child.value]
    {
      var slot := if model in idle then idle[model] else [];
      child := None;
      if slot != [] {
        var youngest := slot[|slot| - 1];
        slot := slot[..|slot| - 1];
        if alive(youngest) {
          child := Some(youngest);
        }
      }
      idle := idle[model := slot];
    }

    method ReapStale(alive: Child -> bool)
      modifies this
      ensures Now() == Reaped(old(Now()), alive)
    {
      var left := idle.Keys;
      ghost var before := idle;
      while left != {}
        invariant idle.Keys == before.Keys && left <= before.Keys && warming == old(warming)
        invariant forall m | m in left :: idle[m] == before[m]
        invariant forall m | m in before && m !in left :: idle[m] == Fresh(before[m], alive)
      {
        var model :| model in left;
        var kept := Retain(idle[model], alive);
        idle := idle[model := kept];
        left := left - {model};
      }
    }

    method ReserveRefill(model: string) returns (deficit: nat)
      modifies this
      ensures Now() == Reserved(old(Now()), model) && deficit == Reservation(old(Now()), model)
    {
      var ready := if model in idle then |idle[model]| else 0;
      var coming := if model in warming then warming[model] else 0;
      deficit := Deficit(ready, coming);
      if deficit > 0 {
        warming := warming[model := coming + deficit];
      }
    }

    method FinishRefill(model: string, reserved: nat, children: seq<Child>)
      modifies this
      ensures Now() == Finished(old(Now()), model, reserved, children)
    {
      if model in warming {
        var left := if warming[model] >= reserved then warming[model] - reserved else 0;
        warming := if left == 0 then warming - {model} else warming[model := left];
      }
      var slot := if model in idle then idle[model] else [];
      ghost var before := slot;
      for i := 0 to |children|
        invariant slot == before + Kept(before, children[..i])
      {
        if |slot| < POOL_SIZE {
          slot := slot + [children[i]];
        }
      }
      assert children[..|children|] == children;
      idle := idle[model := slot];
    }
  }

  // ---- interleaved refill tasks

  /** A refill task between its reservation and its end. */
  datatype Task = Task(model: string, reserved: nat)

  datatype System = System(pool: State, tasks: seq<Task>)

  datatype Action =
    | Checkout(model: string, alive: Child -> bool)
    | Reap(alive: Child -> bool)
    | Reserve(model: string)
    | Finish(task: nat, children: seq<Child>)

  /** A task that reserves nothing ends at once; one that spawns stops at its reservation or at the first failure. */
  ghost predicate Next(s: System, a: Action, t: System)
  {
    match a
    case Checkout(model, _) => t == System(CheckedOut(s.pool, model), s.tasks)
    case Reap(alive) => t == System(Reaped(s.pool, alive), s.tasks)
    case Reserve(model) =>
      var n := Reservation(s.pool, model);
      t == System(Reserved(s.pool, model), if n == 0 then s.tasks else s.tasks + [Task(model, n)])
    case Finish(i, children) =>
      && i < |s.tasks| && |children| <= s.tasks[i].reserved
      && t == System(Finished(s.pool, s.tasks[i].model, s.tasks[i].reserved, children),
                     s.tasks[..i] + s.tasks[i + 1..])
  }

  function Outstanding(tasks: seq<Task>, model: string): nat
  {
    if tasks == [] then 0
    else (if tasks[0].model == model then tasks[0].reserved else 0) + Outstanding(tasks[1..], model)
  }

  /** The counter of a model is what its tasks have reserved, and no model ever has too many children. */
  ghost predicate Balanced(s: System, model: string)
  {
    && Warming(s.pool, model) == Outstanding(s.tasks, model)
    && |Idle(s.pool, model)| + Warming(s.pool, model) <= POOL_SIZE
  }

  lemma {:induction false} OutstandingConcat(a: seq<Task>, b: seq<Task>, model: string)
    ensures Outstanding(a + b, model) == Outstanding(a, model) + Outstanding(b, model)
  {
    if a == [] {
      assert a + b == b;
    } else {
      OutstandingConcat(a[1..], b, model);
      assert (a + b)[0] == a[0] && (a + b)[1..] == a[1..] + b;
    }
  }

  lemma OutstandingOne(t: Task, model: string)
    ensures Outstanding([t], model) == if t.model == model then t.reserved else 0
  {
    assert [t][1..] == [];
  }

  lemma OutstandingWithout(tasks: seq<Task>, i: nat, model: string)
    requires i < |tasks|
    ensures Outstanding(tasks, model) ==
      Outstanding(tasks[..i] + tasks[i + 1..], model) + if tasks[i].model == model then tasks[i].reserved else 0
  {
    hide Outstanding;
    OutstandingConcat(tasks[..i], tasks[i + 1..], model);
    OutstandingConcat(tasks[..i], [tasks[i]], model);
    OutstandingConcat(tasks[..i] + [tasks[i]], tasks[i + 1..], model);
    OutstandingOne(tasks[i], model);
    assert tasks == tasks[..i] + [tasks[i]] + tasks[i + 1..];
  }

  /** Every step keeps every model balanced. */
  lemma NextKeepsBalance(s: System, a: Action, t: System, model: string)
    requires Next(s, a, t) && forall m :: Balanced(s, m)
    ensures Balanced(t, model)
  {
    assert Balanced(s, model);
    match a {
      case Checkout(m, _) =>
      case Reap(alive) =>
      case Reserve(m) =>
        var n := Reservation(s.pool, m);
        OutstandingConcat(s.tasks, [Task(m, n)], model);
        OutstandingOne(Task(m, n), model);
      case Finish(i, children) =>
        OutstandingWithout(s.tasks, i, model);
    }
  }

  /** A finishing task stores every child it spawned. */
  lemma NoChildIsDiscarded(s: System, i: nat, children: seq<Child>, t: System)
    requires Next(s, Finish(i, children), t) && forall m :: Balanced(s, m)
    ensures Idle(t.pool, s.tasks[i].model) == Idle(s.pool, s.tasks[i].model) + children
  {
    assert Balanced(s, s.tasks[i].model);
    OutstandingWithout(s.tasks, i, s.tasks[i].model);
  }

  ghost predicate Execution(states: seq<System>, actions: seq<Action>)
  {
    && |states| == |actions| + 1 && states[0] == System(State(map[], map[]), [])
    && forall i | 0 <= i < |actions| :: Next(states[i], actions[i], states[i + 1])
  }

  /** Over every interleaving, from the empty pool. */
  lemma {:induction false} AlwaysBalanced(states: seq<System>, actions: seq<Action>, k: nat, model: string)
    requires Execution(states, actions) && k < |states|
    ensures Balanced(states[k], model)
    decreases k
  {
    if k > 0 {
      var before := states[k - 1];
      forall m ensures Balanced(before, m) { AlwaysBalanced(states, actions, k - 1, m); }
      NextKeepsBalance(before, actions[k - 1], states[k], model);
    }
  }

  /** Over every interleaving, what a refill task spawns is there for the next checkout. */
  lemma SpawnedChildrenAreKept(states: seq<System>, actions: seq<Action>, k: nat)
    requires Execution(states, actions) && k < |actions| && actions[k].Finish?
    ensures actions[k].task < |states[k].tasks|
    ensures var task := states[k].tasks[actions[k].task];
            Idle(states[k + 1].pool, task.model) == Idle(states[k].pool, task.model) + actions[k].children
  {
    var s := states[k];
    assert Next(s, actions[k], states[k + 1]);
    forall m ensures Balanced(s, m) { AlwaysBalanced(states, actions, k, m); }
    NoChildIsDiscarded(states[k], actions[k].task, actions[k].children, states[k + 1]);
  }

  /** When no task is under way, a new one brings the pool back to its size. */
  lemma RefillReachesTarget(s: System, model: string, children: seq<Child>, t: System, u: System)
    requires (forall m :: Balanced(s, m)) && s.tasks == []
    requires Next(s, Reserve(model), t) && |Idle(s.pool, model)| < POOL_SIZE
    requires |children| == Reservation(s.pool, model) && Next(t, Finish(0, children), u)
    ensures |Idle(u.pool, model)| == POOL_SIZE && u.tasks == [] && Warming(u.pool, model) == 0
  {
    assert Balanced(s, model);
    forall m ensures Balanced(t, m) { NextKeepsBalance(s, Reserve(model), t, m); }
    NoChildIsDiscarded(t, 0, children, u);
    NextKeepsBalance(t, Finish(0, children), u, model);
  }
}
