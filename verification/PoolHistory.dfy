/** Where every child of the warm pool ends up, over every interleaving of checkouts, reaping and refill tasks. */
module PoolHistory {
  import opened Prelude
  import opened WarmPool

  /** What can happen to a child: it is spawned for a model, handed out, or killed as too old. */
  datatype Event = Spawned | HandedOut | Retired

  /** The children too old to keep. */
  function Stale(slot: seq<Child>, alive: Child -> bool): multiset<Child>
  {
    if slot == [] then multiset{} else (if alive(slot[0]) then multiset{} else multiset{slot[0]}) + Stale(slot[1..], alive)
  }

  /** The children of a model to which an action does this. */
  function Children(e: Event, s: System, a: Action, model: string): multiset<Child>
  {
    match e
    case Spawned =>
      if a.Finish? && a.task < |s.tasks| && s.tasks[a.task].model == model then multiset(a.children) else multiset{}
    case HandedOut =>
      if a.Checkout? && a.model == model && Taken(s.pool, model, a.alive).Some?
      then multiset{Taken(s.pool, model, a.alive).value} else multiset{}
    case Retired =>
      var slot := Idle(s.pool, model);
      if a.Reap? then Stale(slot, a.alive)
      else if a.Checkout? && a.model == model && slot != [] && !a.alive(slot[|slot| - 1])
      then multiset{slot[|slot| - 1]} else multiset{}
  }

  ghost function Total(e: Event, states: seq<System>, actions: seq<Action>, k: nat, model: string): multiset<Child>
    requires k <= |actions| < |states|
  {
    if k == 0 then multiset{}
    else Total(e, states, actions, k - 1, model) + Children(e, states[k - 1], actions[k - 1], model)
  }

  lemma {:induction false} FreshAndStale(slot: seq<Child>, alive: Child -> bool)
    ensures multiset(Fresh(slot, alive)) + Stale(slot, alive) == multiset(slot)
  {
    if slot != [] {
      FreshAndStale(slot[1..], alive);
      assert slot == [slot[0]] + slot[1..];
      assert multiset(slot) == multiset{slot[0]} + multiset(slot[1..]);
      var head, rest := if alive(slot[0]) then [slot[0]] else [], Fresh(slot[1..], alive);
      assert multiset(head + rest) == multiset(head) + multiset(rest);
    }
  }

  lemma CheckoutConserves(s: System, a: Action, t: System, model: string)
    requires a.Checkout? && Next(s, a, t)
    ensures multiset(Idle(s.pool, model)) + Children(Spawned, s, a, model)
         == multiset(Idle(t.pool, model)) + Children(HandedOut, s, a, model) + Children(Retired, s, a, model)
  {
    var slot := Idle(s.pool, model);
    if slot != [] && a.model == model {
      var n := |slot| - 1;
      assert Idle(t.pool, model) == slot[..n];
      assert slot == slot[..n] + [slot[n]];
      assert multiset(slot) == multiset(slot[..n]) + multiset{slot[n]};
    }
  }

  lemma FinishConserves(s: System, a: Action, t: System, model: string)
    requires a.Finish? && Next(s, a, t) && forall m :: Balanced(s, m)
    ensures multiset(Idle(s.pool, model)) + Children(Spawned, s, a, model) == multiset(Idle(t.pool, model))
  {
    hide Balanced, Outstanding;
    NoChildIsDiscarded(s, a.task, a.children, t);
  }

  /** No step makes a child appear or disappear. */
  lemma StepConserves(s: System, a: Action, t: System, model: string)
    requires Next(s, a, t) && forall m :: Balanced(s, m)
    ensures multiset(Idle(s.pool, model)) + Children(Spawned, s, a, model)
         == multiset(Idle(t.pool, model)) + Children(HandedOut, s, a, model) + Children(Retired, s, a, model)
  {
    if a.Checkout? {
      hide *;
      CheckoutConserves(s, a, t, model);
    } else if a.Finish? {
      hide Balanced, Finished;
      FinishConserves(s, a, t, model);
    } else if a.Reap? {
      FreshAndStale(Idle(s.pool, model), a.alive);
    }
  }

  lemma TotalNext(e: Event, states: seq<System>, actions: seq<Action>, k: nat, model: string)
    requires k < |actions| < |states|
    ensures Total(e, states, actions, k + 1, model)
         == Total(e, states, actions, k, model) + Children(e, states[k], actions[k], model)
  {
    hide Children;
  }

  lemma Balance(spawned: multiset<Child>, idle: multiset<Child>, out: multiset<Child>, dead: multiset<Child>,
                spawned': multiset<Child>, idle': multiset<Child>, out': multiset<Child>, dead': multiset<Child>)
    requires spawned == idle + out + dead && idle + spawned' == idle' + out' + dead'
    ensures spawned + spawned' == idle' + (out + out') + (dead + dead')
  {
    forall c ensures (spawned + spawned')[c] == (idle' + (out + out') + (dead + dead'))[c] {
      assert spawned[c] == (idle + out + dead)[c] && (idle + spawned')[c] == (idle' + out' + dead')[c];
    }
  }

  /** Over every interleaving: what was spawned for a model is idle, was handed out, or was retired, each child once. */
  lemma {:induction false} EveryChildIsAccounted(states: seq<System>, actions: seq<Action>, k: nat, model: string)
    requires Execution(states, actions) && k <= |actions|
    ensures Total(Spawned, states, actions, k, model)
         == multiset(Idle(states[k].pool, model)) + Total(HandedOut, states, actions, k, model)
            + Total(Retired, states, actions, k, model)
    decreases k
  {
    if k > 0 {
      hide Children, Next, Balanced, Idle, Total;
      var s, a, t := states[k - 1], actions[k - 1], states[k];
      EveryChildIsAccounted(states, actions, k - 1, model);
      forall m ensures Balanced(s, m) { AlwaysBalanced(states, actions, k - 1, m); }
      StepConserves(s, a, t, model);
      forall e ensures Total(e, states, actions, k, model) == Total(e, states, actions, k - 1, model) + Children(e, s, a, model) {
        TotalNext(e, states, actions, k - 1, model);
      }
      Balance(Total(Spawned, states, actions, k - 1, model), multiset(Idle(s.pool, model)),
              Total(HandedOut, states, actions, k - 1, model), Total(Retired, states, actions, k - 1, model),
              Children(Spawned, s, a, model), multiset(Idle(t.pool, model)),
              Children(HandedOut, s, a, model), Children(Retired, s, a, model));
    } else {
      assert states[0].pool == State(map[], map[]);
    }
  }

  /** Processes are told apart: no refill task brings a child twice, nor one that another brings. */
  ghost predicate DistinctChildren(actions: seq<Action>)
  {
    && (forall i | 0 <= i < |actions| && actions[i].Finish? ::
          forall x, y | 0 <= x < y < |actions[i].children| :: actions[i].children[x] != actions[i].children[y])
    && forall i, j | 0 <= i < j < |actions| && actions[i].Finish? && actions[j].Finish? ::
         forall c | c in actions[i].children :: c !in actions[j].children
  }

  lemma {:induction false} OnceEach(s: seq<Child>, c: Child)
    requires forall i, j | 0 <= i < j < |s| :: s[i] != s[j]
    ensures multiset(s)[c] <= 1
  {
    if s != [] {
      assert s == [s[0]] + s[1..];
      OnceEach(s[1..], c);
      assert s[0] !in s[1..];
    }
  }

  /** Action `i` ends a refill task of the model with this child. */
  ghost predicate Brings(states: seq<System>, actions: seq<Action>, i: nat, model: string, c: Child)
    requires |actions| < |states|
  {
    && i < |actions| && actions[i].Finish? && c in actions[i].children
    && actions[i].task < |states[i].tasks| && states[i].tasks[actions[i].task].model == model
  }

  lemma BringsOnce(states: seq<System>, actions: seq<Action>, i: nat, model: string, c: Child)
    requires DistinctChildren(actions) && i < |actions| < |states|
    ensures var spawned := Children(Spawned, states[i], actions[i], model);
      spawned[c] <= 1 && (c in spawned <==> Brings(states, actions, i, model, c))
  {
    if actions[i].Finish? {
      OnceEach(actions[i].children, c);
      assert c in multiset(actions[i].children) <==> c in actions[i].children;
    }
  }

  lemma BroughtBefore(states: seq<System>, actions: seq<Action>, i: nat, model: string, j: nat, model': string, c: Child)
    requires DistinctChildren(actions) && |actions| < |states| && i != j
    requires Brings(states, actions, i, model, c)
    ensures !Brings(states, actions, j, model', c)
  {
  }

  /** A child spawned for a model was brought by one refill task of that model. */
  lemma {:induction false} SpawnedOnce(states: seq<System>, actions: seq<Action>, k: nat, model: string, c: Child)
    requires DistinctChildren(actions) && k <= |actions| < |states|
    ensures var total := Total(Spawned, states, actions, k, model);
      total[c] <= 1 && (c in total ==> exists i: nat :: i < k && Brings(states, actions, i, model, c))
    decreases k
  {
    hide Total, Children, Brings, DistinctChildren;
    if k > 0 {
      SpawnedOnce(states, actions, k - 1, model, c);
      TotalNext(Spawned, states, actions, k - 1, model);
      BringsOnce(states, actions, k - 1, model, c);
      if i: nat :| i < k - 1 && Brings(states, actions, i, model, c) {
        BroughtBefore(states, actions, i, model, k - 1, model, c);
      }
    } else {
      NothingYet(Spawned, states, actions, model);
    }
  }

  lemma NothingYet(e: Event, states: seq<System>, actions: seq<Action>, model: string)
    requires |actions| < |states|
    ensures Total(e, states, actions, 0, model) == multiset{}
  {
  }

  lemma {:induction false} TotalGrows(e: Event, states: seq<System>, actions: seq<Action>, i: nat, k: nat, model: string)
    requires i < k <= |actions| < |states|
    ensures Total(e, states, actions, i, model) + Children(e, states[i], actions[i], model)
         <= Total(e, states, actions, k, model)
    decreases k
  {
    hide Children, Total;
    TotalNext(e, states, actions, k - 1, model);
    if i < k - 1 { TotalGrows(e, states, actions, i, k - 1, model); }
  }

  lemma SameModel(states: seq<System>, actions: seq<Action>, i: nat, model: string, j: nat, model': string, c: Child)
    requires DistinctChildren(actions) && |actions| < |states|
    requires Brings(states, actions, i, model, c) && Brings(states, actions, j, model', c)
    ensures model == model'
  {
    if i != j { BroughtBefore(states, actions, i, model, j, model', c); }
  }

  /** The child that action `i` hands out. */
  ghost predicate Gives(states: seq<System>, actions: seq<Action>, i: nat, c: Child)
    requires i < |actions| < |states|
  {
    actions[i].Checkout? && Taken(states[i].pool, actions[i].model, actions[i].alive) == Some(c)
  }

  /** A child that was handed out is in no slot ever after, and is never handed out again. */
  lemma HandedOutOnce(states: seq<System>, actions: seq<Action>, i: nat, j: nat, c: Child, model: string)
    requires Execution(states, actions) && DistinctChildren(actions) && i < j <= |actions| && Gives(states, actions, i, c)
    ensures c !in Idle(states[j].pool, model)
    ensures j < |actions| ==> !Gives(states, actions, j, c)
  {
    hide Children, Total, Next, Brings, DistinctChildren, Idle, Gives;
    assert actions[i].Checkout? by { GivenChild(states, actions, i, c); }
    var m := actions[i].model;
    assert c in Children(HandedOut, states[i], actions[i], m) by { GivenChild(states, actions, i, c); }
    TotalGrows(HandedOut, states, actions, i, j, m);
    EveryChildIsAccounted(states, actions, j, m);
    SpawnedOnce(states, actions, j, m, c);
    forall other ensures c !in Idle(states[j].pool, other) {
      if other != m && c in Idle(states[j].pool, other) {
        EveryChildIsAccounted(states, actions, j, other);
        SpawnedOnce(states, actions, j, other, c);
        var x: nat :| x < j && Brings(states, actions, x, m, c);
        var y: nat :| y < j && Brings(states, actions, y, other, c);
        SameModel(states, actions, x, m, y, other, c);
      }
    }
    if j < |actions| && Gives(states, actions, j, c) {
      GivenChild(states, actions, j, c);
    }
  }

  /** A child is handed out young enough, and it is the last one of its slot, which keeps the others. */
  lemma GivenIsLast(states: seq<System>, actions: seq<Action>, i: nat, c: Child)
    requires Execution(states, actions) && i < |actions| && Gives(states, actions, i, c)
    ensures var m := actions[i].model;
      && actions[i].alive(c) && Idle(states[i].pool, m) == Idle(states[i + 1].pool, m) + [c]
      && forall other | other != m :: Idle(states[i + 1].pool, other) == Idle(states[i].pool, other)
  {
    assert Next(states[i], actions[i], states[i + 1]);
  }

  lemma GivenChild(states: seq<System>, actions: seq<Action>, i: nat, c: Child)
    requires i < |actions| < |states| && Gives(states, actions, i, c)
    ensures actions[i].Checkout? && c in Idle(states[i].pool, actions[i].model)
    ensures c in Children(HandedOut, states[i], actions[i], actions[i].model)
  {
  }

  // ---- whether a checkout gets the youngest

  /** No child of the slot was spawned later than the one a checkout takes. */
  ghost predicate YoungestLast(slot: seq<Child>)
  {
    forall i | 0 <= i < |slot| :: slot[i].spawnedAt <= slot[|slot| - 1].spawnedAt
  }

  ghost predicate BySpawning(slot: seq<Child>)
  {
    forall i, j | 0 <= i < j < |slot| :: slot[i].spawnedAt <= slot[j].spawnedAt
  }

  /** A refill task that ends brings its children in the order they were spawned, none before the last of the slot. */
  ghost predicate AppendsInOrder(s: System, a: Action)
  {
    a.Finish? && a.task < |s.tasks| && a.children != [] ==>
      && BySpawning(a.children)
      && var slot := Idle(s.pool, s.tasks[a.task].model);
         slot == [] || slot[|slot| - 1].spawnedAt <= a.children[0].spawnedAt
  }

  lemma {:induction false} FreshBySpawning(slot: seq<Child>, alive: Child -> bool)
    requires BySpawning(slot)
    ensures BySpawning(Fresh(slot, alive))
  {
    if slot != [] {
      FreshBySpawning(slot[1..], alive);
      var rest := Fresh(slot[1..], alive);
      forall i | 0 <= i < |rest| ensures slot[0].spawnedAt <= rest[i].spawnedAt {
        assert rest[i] in rest;
        var k: nat :| k < |slot[1..]| && slot[1..][k] == rest[i];
        assert slot[k + 1] == rest[i];
      }
    }
  }

  lemma AppendBySpawning(slot: seq<Child>, children: seq<Child>)
    requires BySpawning(slot)
    ensures BySpawning(slot + children) <==>
      children == [] || (BySpawning(children) && (slot == [] || slot[|slot| - 1].spawnedAt <= children[0].spawnedAt))
  {
    var all := slot + children;
    if children != [] && BySpawning(all) {
      forall i, j | 0 <= i < j < |children| ensures children[i].spawnedAt <= children[j].spawnedAt {
        assert all[|slot| + i] == children[i] && all[|slot| + j] == children[j];
      }
      if slot != [] { assert all[|slot| - 1] == slot[|slot| - 1] && all[|slot|] == children[0]; }
    }
  }

  lemma TwoBySpawning(slot: seq<Child>)
    requires |slot| <= POOL_SIZE
    ensures YoungestLast(slot) <==> BySpawning(slot)
  {
    if YoungestLast(slot) && |slot| == 2 { assert slot[0].spawnedAt <= slot[1].spawnedAt; }
  }

  lemma StepBySpawning(s: System, a: Action, t: System)
    requires Next(s, a, t) && (forall m :: Balanced(s, m)) && forall m :: BySpawning(Idle(s.pool, m))
    ensures (forall m :: BySpawning(Idle(t.pool, m))) <==> AppendsInOrder(s, a)
  {
    hide Balanced, BySpawning;
    if a.Finish? {
      var model := s.tasks[a.task].model;
      NoChildIsDiscarded(s, a.task, a.children, t);
      AppendBySpawning(Idle(s.pool, model), a.children);
      assert forall m | m != model :: Idle(t.pool, m) == Idle(s.pool, m);
    } else {
      forall m ensures BySpawning(Idle(t.pool, m)) {
        var slot := Idle(s.pool, m);
        assert BySpawning(slot);
        if a.Reap? {
          FreshBySpawning(slot, a.alive);
        } else if a.Checkout? && a.model == m && slot != [] {
          PrefixBySpawning(slot, |slot| - 1);
        }
        NoneBySpawning();
      }
    }
  }

  lemma PrefixBySpawning(slot: seq<Child>, n: nat)
    requires BySpawning(slot) && n <= |slot|
    ensures BySpawning(slot[..n])
  {
  }

  lemma NoneBySpawning()
    ensures BySpawning([])
  {
  }

  /** In every state up to `k`, a checkout for any model takes the child spawned last. */
  ghost predicate AlwaysYoungest(states: seq<System>, k: nat)
    requires k < |states|
  {
    forall j, m | 0 <= j <= k :: YoungestLast(Idle(states[j].pool, m))
  }

  /**
   * A checkout is meant to take the youngest child. It does, whenever and for whichever model it comes, exactly if the
   * refill tasks so far ended in the order in which they had spawned their children.
   */
  lemma {:induction false} YoungestIffInOrder(states: seq<System>, actions: seq<Action>, k: nat)
    requires Execution(states, actions) && k <= |actions|
    ensures AlwaysYoungest(states, k) <==> forall i | 0 <= i < k :: AppendsInOrder(states[i], actions[i])
    decreases k
  {
    hide BySpawning, YoungestLast, AppendsInOrder, Next;
    forall j, m | 0 <= j <= k ensures YoungestLast(Idle(states[j].pool, m)) <==> BySpawning(Idle(states[j].pool, m)) {
      AlwaysBalanced(states, actions, j, m);
      TwoBySpawning(Idle(states[j].pool, m));
    }
    if k == 0 {
      assert states[0].pool == State(map[], map[]);
      NoneBySpawning();
    } else {
      var s := states[k - 1];
      YoungestIffInOrder(states, actions, k - 1);
      if AlwaysYoungest(states, k - 1) {
        forall m ensures Balanced(s, m) && BySpawning(Idle(s.pool, m)) { AlwaysBalanced(states, actions, k - 1, m); }
        StepBySpawning(s, actions[k - 1], states[k]);
      } else {
        assert !AlwaysYoungest(states, k);
      }
    }
  }

  /** The step of a refill task of `model` that reserves `n`, of its end, and of a checkout, by what the pool holds. */
  lemma Reserves(s: System, model: string, n: nat) returns (t: System)
    requires Reservation(s.pool, model) == n > 0
    ensures Next(s, Reserve(model), t) && t.tasks == s.tasks + [Task(model, n)]
    ensures Idle(t.pool, model) == Idle(s.pool, model) && Warming(t.pool, model) == Warming(s.pool, model) + n
  {
    t := System(Reserved(s.pool, model), s.tasks + [Task(model, n)]);
  }

  lemma Ends(s: System, i: nat, children: seq<Child>) returns (t: System)
    requires i < |s.tasks| && |children| <= s.tasks[i].reserved
    requires |Idle(s.pool, s.tasks[i].model)| + |children| <= POOL_SIZE
    requires s.tasks[i].reserved <= Warming(s.pool, s.tasks[i].model)
    ensures Next(s, Finish(i, children), t) && t.tasks == s.tasks[..i] + s.tasks[i + 1..]
    ensures var model := s.tasks[i].model;
      && Idle(t.pool, model) == Idle(s.pool, model) + children
      && Warming(t.pool, model) == Warming(s.pool, model) - s.tasks[i].reserved
  {
    t := System(Finished(s.pool, s.tasks[i].model, s.tasks[i].reserved, children), s.tasks[..i] + s.tasks[i + 1..]);
  }

  lemma Takes(s: System, model: string, alive: Child -> bool) returns (t: System)
    requires Idle(s.pool, model) != []
    ensures Next(s, Checkout(model, alive), t) && t.tasks == s.tasks
    ensures Idle(t.pool, model) == Idle(s.pool, model)[..|Idle(s.pool, model)| - 1]
    ensures Warming(t.pool, model) == Warming(s.pool, model)
  {
    t := System(CheckedOut(s.pool, model), s.tasks);
  }

  /** Two tasks that overlap and end the other way round: the next checkout takes the older child. */
  lemma OlderChildIsTaken(model: string, alive: Child -> bool) returns (states: seq<System>, actions: seq<Action>)
    ensures Execution(states, actions) && DistinctChildren(actions)
    ensures Idle(states[|actions|].pool, model) == [Child(2, 2), Child(1, 1)]
    ensures !AlwaysYoungest(states, |actions|)
  {
    hide Next, Idle, Warming;
    var a, b, c := Child(1, 1), Child(2, 2), Child(3, 0);
    var s0 := System(State(map[], map[]), []);
    assert Idle(s0.pool, model) == [] && Warming(s0.pool, model) == 0 by { EmptyPool(model); }
    var s1 := Reserves(s0, model, 2);
    var s2 := Ends(s1, 0, [c]);
    var s3 := Reserves(s2, model, 1);
    var s4 := Takes(s3, model, alive);
    var s5 := Reserves(s4, model, 1);
    var s6 := Ends(s5, 1, [b]);
    var s7 := Ends(s6, 0, [a]);
    states := [s0, s1, s2, s3, s4, s5, s6, s7];
    actions := [Reserve(model), Finish(0, [c]), Reserve(model), Checkout(model, alive), Reserve(model),
                Finish(1, [b]), Finish(0, [a])];
    var slot := Idle(states[7].pool, model);
    assert slot == [b, a];
    assert slot[0].spawnedAt == 2 && slot[1].spawnedAt == 1 && !YoungestLast(slot);
  }

  lemma EmptyPool(model: string)
    ensures Idle(State(map[], map[]), model) == [] && Warming(State(map[], map[]), model) == 0
  {
  }
}
