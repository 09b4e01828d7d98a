/** Runs of the scheduler of `kernel/CommScheduler.cc` on several groups with their heaps:
    any critical sections of add, remove, acquire and release, one after the other, refine
    a table that only says which target is where and how often it is held.  That the
    sections of different threads do follow one another is proved in SchedLocks. */
module SchedRuns {
  import opened SchedHeap

  datatype Op =
    | AddTo(g: CommSchedGroup, t: CommSchedTarget)
    | RemoveFrom(g: CommSchedGroup, t: CommSchedTarget)
    | AcquireAt(t: CommSchedTarget)
    | ReleaseAt(t: CommSchedTarget)
    | AcquireFrom(g: CommSchedGroup)
    | SleepAt(t: CommSchedTarget)
    | WakeAt(t: CommSchedTarget)

  // ---------- The table ----------

  /** The sessions that callers hold, and of each target its group and who waits for it. */
  datatype Sched = Sched(
    held: multiset<CommSchedTarget>,
    home: map<CommSchedTarget, CommSchedGroup?>,
    waiting: map<CommSchedTarget, nat>)
  {
    ghost function Ratio(t: CommSchedTarget): Load { Load(held[t], t.maxLoad) }

    ghost predicate Full(t: CommSchedTarget) { held[t] >= t.maxLoad }

    /** A least loaded member of the group, with room. */
    ghost predicate Best(g: CommSchedGroup, t: CommSchedTarget)
    {
      && t in home && home[t] == g && !Full(t)
      && forall u <- home :: home[u] == g ==> AtMost(Ratio(t), Ratio(u))
    }
  }

  ghost function Moved(a: Sched, t: CommSchedTarget, to: CommSchedGroup?): Sched { a.(home := a.home[t := to]) }

  ghost function Given(a: Sched, t: CommSchedTarget): Sched { a.(held := a.held + multiset{t}) }

  ghost function Returned(a: Sched, t: CommSchedTarget): Sched { a.(held := a.held - multiset{t}) }

  ghost function Waited(a: Sched, t: CommSchedTarget, n: nat): Sched { a.(waiting := a.waiting[t := n]) }

  ghost predicate NextAcquire(g: CommSchedGroup, a: Sched, b: Sched)
  {
    if forall t <- a.home :: a.home[t] == g ==> a.Full(t) then b == a
    else exists t <- a.home :: a.Best(g, t) && b == Given(a, t)
  }

  /** What one critical section does.  A session is given back only if it is held, and only
      who waits wakes up. */
  ghost predicate Next(op: Op, a: Sched, b: Sched)
  {
    && (!op.AcquireFrom? ==> op.t in a.home && op.t in a.waiting)
    && match op
       case AddTo(g, t) => b == if a.home[t] == null && a.waiting[t] == 0 then Moved(a, t, g) else a
       case RemoveFrom(g, t) => b == if a.home[t] == g && a.waiting[t] == 0 then Moved(a, t, null) else a
       case AcquireAt(t) => b == if a.Full(t) then a else Given(a, t)
       case ReleaseAt(t) => b == if t in a.held then Returned(a, t) else a
       case AcquireFrom(g) => NextAcquire(g, a, b)
       case SleepAt(t) => b == Waited(a, t, a.waiting[t] + 1)
       case WakeAt(t) => b == if a.waiting[t] > 0 then Waited(a, t, a.waiting[t] - 1) else a
  }

  // ---------- The heaps ----------

  /** A target is in the group that it names and in no other. */
  ghost predicate AtHome(t: CommSchedTarget, groups: set<CommSchedGroup>)
    reads t`group, groups`tgHeap
  {
    && (t.group != null ==> t.group in groups)
    && forall g <- groups :: t in g.tgHeap <==> t.group == g
  }

  /** The load of a target is the number of sessions that callers hold. */
  ghost predicate Counted(t: CommSchedTarget, held: multiset<CommSchedTarget>)
    reads t`curLoad
  {
    t.curLoad == held[t] <= t.maxLoad && 0 < t.maxLoad
  }

  /** Every group is in order, indexed and has the right sums; no target is in two. */
  ghost predicate World(groups: set<CommSchedGroup>, targets: set<CommSchedTarget>,
                        held: multiset<CommSchedTarget>)
    reads groups, targets
  {
    && (forall g <- groups :: g.Members() <= targets && g.Valid())
    && (forall t <- targets :: AtHome(t, groups))
    && (forall t <- targets :: Counted(t, held))
  }

  /** Groups and waiters stay as they are, but perhaps at `t`. */
  twostate predicate SameElsewhere(t: CommSchedTarget?, targets: set<CommSchedTarget>)
    reads targets`group, targets`waitCnt
  {
    forall u <- targets :: u != t ==> u.group == old(u.group) && u.waitCnt == old(u.waitCnt)
  }

  method PerformAdd(g: CommSchedGroup, t: CommSchedTarget, ghost groups: set<CommSchedGroup>,
                    ghost targets: set<CommSchedTarget>, ghost held: multiset<CommSchedTarget>)
    requires World(groups, targets, held) && g in groups && t in targets
    modifies groups, targets
    ensures World(groups, targets, held) && SameElsewhere(t, targets) && t.waitCnt == old(t.waitCnt)
    ensures t.group == if old(g.Addable(t)) then g else old(t.group)
  {
    hide CommSchedGroup.Valid;
    assert AtHome(t, groups) && Counted(t, held);
    var ret := g.Add(t);
    assert forall u <- targets :: old(Counted(u, held)) && Counted(u, held);
    forall u | u in targets ensures AtHome(u, groups) {
      assert old(AtHome(u, groups));
      assert u in g.tgHeap <==> u in g.Members();
    }
    forall h | h in groups && h != g ensures h.Valid() && h.Members() <= targets {
      assert old(h.Valid());
    }
  }

  method PerformRemove(g: CommSchedGroup, t: CommSchedTarget, ghost groups: set<CommSchedGroup>,
                       ghost targets: set<CommSchedTarget>, ghost held: multiset<CommSchedTarget>)
    requires World(groups, targets, held) && g in groups && t in targets
    modifies groups, targets
    ensures World(groups, targets, held) && SameElsewhere(t, targets) && t.waitCnt == old(t.waitCnt)
    ensures t.group == if old(g.Removable(t)) then null else old(t.group)
  {
    hide CommSchedGroup.Valid;
    assert AtHome(t, groups);
    var ret := g.Remove(t);
    assert forall u <- targets :: old(Counted(u, held)) && Counted(u, held);
    forall u | u in targets ensures AtHome(u, groups) {
      assert old(AtHome(u, groups));
      assert u in g.tgHeap <==> u in g.Members();
    }
    forall h | h in groups && h != g ensures h.Valid() && h.Members() <= targets {
      assert old(h.Valid());
    }
  }

  /** A session on this target, exactly when it has room. */
  method PerformTargetAcquire(t: CommSchedTarget, ghost groups: set<CommSchedGroup>,
                              ghost targets: set<CommSchedTarget>, ghost held: multiset<CommSchedTarget>)
    returns (ok: bool, ghost held': multiset<CommSchedTarget>)
    requires World(groups, targets, held) && t in targets
    modifies groups, targets
    ensures World(groups, targets, held') && SameElsewhere(null, targets)
    ensures ok <==> held[t] < t.maxLoad
    ensures held' == if ok then held + multiset{t} else held
  {
    hide CommSchedGroup.Valid;
    assert AtHome(t, groups) && Counted(t, held);
    ok := t.Acquire();
    held' := if ok then held + multiset{t} else held;
    assert forall u <- targets :: old(Counted(u, held)) && Counted(u, held');
    forall u | u in targets ensures AtHome(u, groups) {
      assert old(AtHome(u, groups));
      assert t.group != null ==> (u in t.group.tgHeap <==> u in t.group.Members());
    }
    forall h | h in groups && h != t.group ensures h.Valid() && h.Members() <= targets {
      assert old(h.Valid());
    }
  }

  /** The caller gives back one of the sessions that are held. */
  method PerformRelease(t: CommSchedTarget, ghost groups: set<CommSchedGroup>,
                        ghost targets: set<CommSchedTarget>, ghost held: multiset<CommSchedTarget>)
    requires World(groups, targets, held) && t in targets && t in held
    modifies groups, targets
    ensures World(groups, targets, held - multiset{t}) && SameElsewhere(null, targets)
  {
    hide CommSchedGroup.Valid;
    assert AtHome(t, groups) && Counted(t, held);
    t.Release();
    assert forall u <- targets :: old(Counted(u, held)) && Counted(u, held - multiset{t});
    forall u | u in targets ensures AtHome(u, groups) {
      assert old(AtHome(u, groups));
      assert t.group != null ==> (u in t.group.tgHeap <==> u in t.group.Members());
    }
    forall h | h in groups && h != t.group ensures h.Valid() && h.Members() <= targets {
      assert old(h.Valid());
    }
  }

  /** A session on a least loaded member, or none exactly when all members are full. */
  method PerformAcquire(g: CommSchedGroup, ghost groups: set<CommSchedGroup>,
                        ghost targets: set<CommSchedTarget>, ghost held: multiset<CommSchedTarget>)
    returns (target: CommSchedTarget?, ghost held': multiset<CommSchedTarget>)
    requires World(groups, targets, held) && g in groups
    modifies groups, targets
    ensures World(groups, targets, held') && SameElsewhere(null, targets)
    ensures held' == if target == null then held else held + multiset{target}
    ensures target == null <==> forall t <- targets :: t.group == g ==> held[t] >= t.maxLoad
    ensures target != null ==> target in targets && target.group == g && held[target] < target.maxLoad
    ensures target != null ==> forall u <- targets :: u.group == g ==>
              AtMost(Load(held[target], target.maxLoad), Load(held[u], u.maxLoad))
  {
    hide CommSchedGroup.Valid;
    g.FullWhenAllAre();
    assert forall u <- targets :: AtHome(u, groups) && Counted(u, held);
    target := g.Acquire();
    held' := if target == null then held else held + multiset{target};
    assert forall u <- targets :: old(Counted(u, held)) && Counted(u, held');
    forall u | u in targets ensures AtHome(u, groups) {
      assert old(AtHome(u, groups));
      assert u in g.tgHeap <==> u in g.Members();
    }
    forall h | h in groups && h != g ensures h.Valid() && h.Members() <= targets {
      assert old(h.Valid());
    }
  }

  /** A thread begins or ends a wait in `CommSchedTarget::acquire`. */
  method PerformWait(t: CommSchedTarget, waiting: nat, ghost groups: set<CommSchedGroup>,
                     ghost targets: set<CommSchedTarget>, ghost held: multiset<CommSchedTarget>)
    requires World(groups, targets, held) && t in targets
    modifies groups, targets
    ensures World(groups, targets, held) && SameElsewhere(t, targets)
    ensures t.waitCnt == waiting && t.group == old(t.group)
  {
    hide CommSchedGroup.HeapOk, SumCur, SumMax;
    t.waitCnt := waiting;
    assert forall u <- targets :: old(Counted(u, held)) && Counted(u, held);
    assert forall u <- targets :: old(AtHome(u, groups)) && AtHome(u, groups);
    assert forall h <- groups :: old(h.Valid()) && h.Valid();
  }

  // ---------- Heaps and table ----------

  /** The table is right about group and waiters of every target. */
  ghost predicate Shows(a: Sched)
    reads a.home.Keys`group, a.home.Keys`waitCnt
  {
    a.home.Keys == a.waiting.Keys && forall t <- a.home :: t.group == a.home[t] && t.waitCnt == a.waiting[t]
  }

  ghost predicate Agree(groups: set<CommSchedGroup>, a: Sched)
    reads groups, a.home.Keys
  {
    World(groups, a.home.Keys, a.held) && Shows(a)
  }

  // ---------- Runs ----------

  /** The operation is on the given groups and targets. */
  predicate Within(op: Op, groups: set<CommSchedGroup>, targets: set<CommSchedTarget>)
  {
    && (op.AddTo? || op.RemoveFrom? || op.AcquireFrom? ==> op.g in groups)
    && (!op.AcquireFrom? ==> op.t in targets)
  }

  lemma IsHeld(t: CommSchedTarget, groups: set<CommSchedGroup>, targets: set<CommSchedTarget>,
               held: multiset<CommSchedTarget>)
    requires World(groups, targets, held) && t in targets
    ensures t.curLoad == held[t]
  {
    assert Counted(t, held);
  }

  /** A target joins or leaves a group. */
  method Change(op: Op, ghost groups: set<CommSchedGroup>, ghost a: Sched) returns (ghost b: Sched)
    requires Agree(groups, a) && Within(op, groups, a.home.Keys) && (op.AddTo? || op.RemoveFrom?)
    modifies groups, a.home.Keys
    ensures Agree(groups, b) && Next(op, a, b)
  {
    hide World, NextAcquire;
    var t := op.t;
    if op.AddTo? {
      PerformAdd(op.g, t, groups, a.home.Keys, a.held);
    } else {
      PerformRemove(op.g, t, groups, a.home.Keys, a.held);
    }
    b := Moved(a, t, t.group);
    assert b.home.Keys == a.home.Keys && (t.group == a.home[t] ==> b.home == a.home);
  }

  /** A session is taken or given back. */
  method Session(op: Op, ghost groups: set<CommSchedGroup>, ghost a: Sched) returns (ghost b: Sched)
    requires Agree(groups, a) && Within(op, groups, a.home.Keys)
    requires op.AcquireAt? || op.ReleaseAt? || op.AcquireFrom?
    modifies groups, a.home.Keys
    ensures Agree(groups, b) && Next(op, a, b)
  {
    hide World;
    ghost var held := a.held;
    match op {
      case AcquireAt(t) =>
        var ok;
        ok, held := PerformTargetAcquire(t, groups, a.home.Keys, held);
      case ReleaseAt(t) =>
        IsHeld(t, groups, a.home.Keys, held);
        if t.curLoad > 0 {
          PerformRelease(t, groups, a.home.Keys, held);
          held := held - multiset{t};
        }
      case AcquireFrom(g) =>
        var target;
        target, held := PerformAcquire(g, groups, a.home.Keys, held);
        assert target != null ==> a.Best(g, target);
    }
    b := a.(held := held);
  }

  /** A thread begins or ends a wait. */
  method Wait(op: Op, ghost groups: set<CommSchedGroup>, ghost a: Sched) returns (ghost b: Sched)
    requires Agree(groups, a) && Within(op, groups, a.home.Keys) && (op.SleepAt? || op.WakeAt?)
    modifies groups, a.home.Keys
    ensures Agree(groups, b) && Next(op, a, b)
  {
    hide World, NextAcquire;
    var t := op.t;
    var n := if op.SleepAt? then t.waitCnt + 1 else if t.waitCnt > 0 then t.waitCnt - 1 else 0;
    PerformWait(t, n, groups, a.home.Keys, a.held);
    b := Waited(a, t, n);
  }

  /** One critical section. */
  method Perform(op: Op, ghost groups: set<CommSchedGroup>, ghost a: Sched) returns (ghost b: Sched)
    requires Agree(groups, a) && Within(op, groups, a.home.Keys)
    modifies groups, a.home.Keys
    ensures Agree(groups, b) && Next(op, a, b)
  {
    hide *;
    if op.AddTo? || op.RemoveFrom? {
      b := Change(op, groups, a);
    } else if op.SleepAt? || op.WakeAt? {
      b := Wait(op, groups, a);
    } else {
      b := Session(op, groups, a);
    }
  }

  /** The tables before, between and after the operations. */
  ghost predicate IsTrace(ops: seq<Op>, trace: seq<Sched>)
  {
    |trace| == |ops| + 1 && forall i :: 0 <= i < |ops| ==> Next(ops[i], trace[i], trace[i + 1])
  }

  lemma TraceMore(ops: seq<Op>, trace: seq<Sched>, op: Op, b: Sched)
    requires IsTrace(ops, trace) && Next(op, trace[|ops|], b)
    ensures IsTrace(ops + [op], trace + [b])
  {
    hide Next;
  }

  lemma SameTargets(op: Op, a: Sched, b: Sched)
    requires Next(op, a, b)
    ensures b.home.Keys == a.home.Keys
  {
  }

  /** Any run is one of the table; and after it every heap is in order and indexed, its sums
      are right, and each load is the number of sessions held. */
  method PerformAll(ops: seq<Op>, ghost groups: set<CommSchedGroup>, ghost a: Sched) returns (ghost trace: seq<Sched>)
    requires Agree(groups, a) && forall op <- ops :: Within(op, groups, a.home.Keys)
    modifies groups, a.home.Keys
    ensures IsTrace(ops, trace) && trace[0] == a && Agree(groups, trace[|ops|])
  {
    hide Agree, Within, Next;
    trace := [a];
    for i := 0 to |ops|
      invariant IsTrace(ops[..i], trace) && trace[0] == a
      invariant Agree(groups, trace[i]) && trace[i].home.Keys == a.home.Keys
    {
      ghost var b := Perform(ops[i], groups, trace[i]);
      SameTargets(ops[i], trace[i], b);
      TraceMore(ops[..i], trace, ops[i], b);
      assert ops[..i] + [ops[i]] == ops[..i + 1];
      trace := trace + [b];
    }
    assert ops[..|ops|] == ops;
  }

  /** It begins with empty groups and new targets. */
  lemma BeginsInOrder(groups: set<CommSchedGroup>, targets: set<CommSchedTarget>)
    requires forall g <- groups :: g.tgHeap == [] && g.maxLoad == 0 && g.curLoad == 0
    requires forall t <- targets :: t.group == null && t.curLoad == 0 < t.maxLoad && t.waitCnt == 0
    ensures Agree(groups, Sched(multiset{}, map t | t in targets :: null, map t | t in targets :: 0))
  {
    forall g | g in groups ensures g.Valid() && g.Members() <= targets {
      assert g.Members() == {};
    }
  }
}
