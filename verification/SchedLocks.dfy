/** The locking protocol of `kernel/CommScheduler.cc` as a state machine: any number of
    threads acquire, release, add and remove, one atomic step at a time.

    A target's load is guarded by its own mutex while it is in no group, and by its
    group's mutex otherwise; `acquire` and `release` lock hand over hand. */
module SchedLocks {
  import opened Collections
  import SchedHeap

  datatype Mutex = OfTarget(t: nat) | OfGroup(g: nat)

  /** `held` counts the sessions that callers hold and are not giving back yet. */
  datatype Target = Target(max: nat, cur: nat, group: Option<nat>, waitCnt: nat, held: nat)

  datatype Group = Group(max: nat, cur: nat)

  datatype Op = Acquire | Release

  /** Where a thread is. */
  datatype Pc =
    | Idle
    // CommSchedTarget::acquire and release
    | LockTarget(t: nat, op: Op)
    | ReadGroup(t: nat, op: Op)
    | LockGroup(t: nat, g: nat, op: Op)
    | UnlockTarget(t: nat, g: nat, op: Op)
    | Inside(t: nat, m: Mutex, op: Op)
    | Asleep(t: nat, m: Mutex)
    | Leaving(m: Mutex)
    // CommSchedGroup::add and remove
    | ChangeStart(t: nat, g: nat, add: bool)
    | ChangeHalf(t: nat, g: nat, add: bool)
    | ChangeInside(t: nat, g: nat, add: bool)
    | ChangeDone(t: nat, g: nat)
    // CommSchedGroup::acquire
    | GroupStart(g: nat)
    | GroupInside(g: nat)
    | GroupAsleep(g: nat)

  datatype State = State(targets: seq<Target>, groups: seq<Group>, threads: seq<Pc>, owner: map<Mutex, nat>)

  // ---------- Sums ----------

  function Sum<T>(xs: seq<T>, f: T -> nat): nat
  {
    if xs == [] then 0 else Sum(xs[..|xs| - 1], f) + f(xs[|xs| - 1])
  }

  lemma {:induction false} SumUpdate<T>(xs: seq<T>, i: nat, x: T, f: T -> nat)
    requires i < |xs|
    ensures Sum(xs[i := x], f) + f(xs[i]) == Sum(xs, f) + f(x)
  {
    var n := |xs| - 1;
    if i == n {
      assert xs[i := x][..n] == xs[..n];
    } else {
      assert xs[i := x][..n] == xs[..n][i := x];
      SumUpdate(xs[..n], i, x, f);
    }
  }

  lemma {:induction false} SumZero<T>(xs: seq<T>, i: nat, f: T -> nat)
    requires i < |xs|
    ensures Sum(xs, f) >= f(xs[i])
  {
    if i < |xs| - 1 { SumZero(xs[..|xs| - 1], i, f); }
  }

  lemma {:induction false} SumAtMost<T>(xs: seq<T>, f: T -> nat, g: T -> nat)
    requires forall i :: 0 <= i < |xs| ==> f(xs[i]) <= g(xs[i])
    ensures Sum(xs, f) <= Sum(xs, g)
  {
    if xs != [] { SumAtMost(xs[..|xs| - 1], f, g); }
  }

  function SleepsOn(t: nat): Pc -> nat { (p: Pc) => if p.Asleep? && p.t == t then 1 else 0 }

  /** The thread has yet to give a session on `t` back. */
  predicate Returns(p: Pc, t: nat)
  {
    match p
    case LockTarget(u, op) => u == t && op.Release?
    case ReadGroup(u, op) => u == t && op.Release?
    case LockGroup(u, _, op) => u == t && op.Release?
    case UnlockTarget(u, _, op) => u == t && op.Release?
    case Inside(u, _, op) => u == t && op.Release?
    case _ => false
  }

  function Returning(t: nat): Pc -> nat { (p: Pc) => if Returns(p, t) then 1 else 0 }

  function CurIn(g: nat): Target -> nat { (t: Target) => if t.group == Some(g) then t.cur else 0 }

  function MaxIn(g: nat): Target -> nat { (t: Target) => if t.group == Some(g) then t.max else 0 }

  // ---------- Mutexes ----------

  /** The mutexes that a thread holds at each place. */
  function Holds(p: Pc): set<Mutex>
  {
    match p
    case ReadGroup(t, _) => {OfTarget(t)}
    case LockGroup(t, _, _) => {OfTarget(t)}
    case UnlockTarget(t, g, _) => {OfTarget(t), OfGroup(g)}
    case Inside(_, m, _) => {m}
    case Leaving(m) => {m}
    case ChangeHalf(t, _, _) => {OfTarget(t)}
    case ChangeInside(t, g, _) => {OfTarget(t), OfGroup(g)}
    case ChangeDone(t, g) => {OfTarget(t), OfGroup(g)}
    case GroupInside(g) => {OfGroup(g)}
    case _ => {}
  }

  /** The mutex that guards a target's loads and waiters. */
  function Guard(s: State, t: nat): Mutex
    requires t < |s.targets|
  {
    if s.targets[t].group == None then OfTarget(t) else OfGroup(s.targets[t].group.value)
  }

  // ---------- Steps ----------

  /** The choices that a step leaves open. */
  datatype Choice = Begin(pc: Pc) | Go | GiveUp | Pick(t: nat)

  function Put(s: State, i: nat, p: Pc): State
    requires i < |s.threads|
  {
    s.(threads := s.threads[i := p])
  }

  /** Lock `m` and go to `p`. */
  function Locked(s: State, i: nat, m: Mutex, p: Pc): Option<State>
    requires i < |s.threads|
  {
    if m in s.owner then None else Some(Put(s, i, p).(owner := s.owner[m := i]))
  }

  function Unlocked(s: State, i: nat, m: Mutex, p: Pc): State
    requires i < |s.threads|
  {
    Put(s, i, p).(owner := s.owner - {m})
  }

  /** No target moved to or from a group. */
  predicate SameGroups(s: State, s': State)
  {
    && |s'.targets| == |s.targets| && |s'.groups| == |s.groups|
    && forall t :: 0 <= t < |s.targets| ==> s'.targets[t].group == s.targets[t].group
  }

  /** `cur_load += d` on a target, and on its group if it is in one. */
  function Loaded(s: State, t: nat, d: int): (r: State)
    requires t < |s.targets| && s.targets[t].cur + d >= 0
    requires s.targets[t].group.Some? ==> s.targets[t].group.value < |s.groups|
    requires s.targets[t].group.Some? ==> s.groups[s.targets[t].group.value].cur + d >= 0
    ensures r.threads == s.threads && r.owner == s.owner && SameGroups(s, r)
  {
    var x := s.targets[t];
    var u := s.(targets := s.targets[t := x.(cur := x.cur + d)]);
    if x.group == None then u
    else u.(groups := u.groups[x.group.value := u.groups[x.group.value].(cur := u.groups[x.group.value].cur + d)])
  }

  /** The order of the heap. */
  predicate AtMost(a: Target, b: Target)
  {
    SchedHeap.AtMost(SchedHeap.Load(a.cur, a.max), SchedHeap.Load(b.cur, b.max))
  }

  /** `r` may be the root of the heap of `g`: a member with the least ratio. */
  ghost predicate IsRoot(s: State, g: nat, r: nat)
  {
    && r < |s.targets| && s.targets[r].group == Some(g)
    && forall t :: 0 <= t < |s.targets| && s.targets[t].group == Some(g) ==> AtMost(s.targets[r], s.targets[t])
  }

  /** What a caller may start: `Release` only with a session in hand. */
  predicate MayBegin(s: State, p: Pc)
  {
    match p
    case LockTarget(t, op) => t < |s.targets| && (op.Release? ==> s.targets[t].held > 0)
    case ChangeStart(t, g, _) => t < |s.targets| && g < |s.groups|
    case GroupStart(g) => g < |s.groups|
    case _ => false
  }

  function Begun(s: State, i: nat, p: Pc): State
    requires i < |s.threads| && MayBegin(s, p)
  {
    var u := Put(s, i, p);
    if p.LockTarget? && p.op.Release? then
      u.(targets := u.targets[p.t := u.targets[p.t].(held := u.targets[p.t].held - 1)])
    else u
  }

  /** Inside the critical section of `CommSchedTarget::acquire` or `release`. */
  ghost predicate InsideStep(s: State, i: nat, c: Choice, s': State)
    requires i < |s.threads| && s.threads[i].Inside?
  {
    var Inside(t, m, op) := s.threads[i];
    && t < |s.targets|
    && (s.targets[t].group.Some? ==> s.targets[t].group.value < |s.groups|)
    && var x := s.targets[t];
       if op.Release? then
         && x.cur >= 1 && (x.group.Some? ==> s.groups[x.group.value].cur >= 1)
         && s' == Put(Loaded(s, t, -1), i, Leaving(m))
       else if x.cur < x.max then
         s' == Put(Taken(s, t), i, Leaving(m))
       else if c == GiveUp then
         s' == Put(s, i, Leaving(m))
       else
         s' == Unlocked(s.(targets := s.targets[t := x.(waitCnt := x.waitCnt + 1)]), i, m, Asleep(t, m))
  }

  /** One more session on `t` for the caller. */
  function Taken(s: State, t: nat): (r: State)
    requires t < |s.targets| && (s.targets[t].group.Some? ==> s.targets[t].group.value < |s.groups|)
    ensures r.threads == s.threads && r.owner == s.owner && SameGroups(s, r)
  {
    var u := Loaded(s, t, 1);
    u.(targets := u.targets[t := u.targets[t].(held := u.targets[t].held + 1)])
  }

  /** The change that `add` or `remove` makes, if its test succeeds. */
  function Changed(s: State, t: nat, g: nat, add: bool): (r: State)
    requires t < |s.targets| && g < |s.groups|
    ensures r.threads == s.threads && r.owner == s.owner && |r.groups| == |s.groups| && |r.targets| == |s.targets|
  {
    var x, y := s.targets[t], s.groups[g];
    if add && x.group == None && x.waitCnt == 0 then
      s.(targets := s.targets[t := x.(group := Some(g))],
         groups := s.groups[g := Group(y.max + x.max, y.cur + x.cur)])
    else if !add && x.group == Some(g) && x.waitCnt == 0 && y.max >= x.max && y.cur >= x.cur then
      s.(targets := s.targets[t := x.(group := None)],
         groups := s.groups[g := Group(y.max - x.max, y.cur - x.cur)])
    else s
  }

  /** Thread `i` makes one step. */
  ghost predicate Step(s: State, i: nat, c: Choice, s': State)
  {
    && i < |s.threads|
    && match s.threads[i]
       case Idle => c.Begin? && MayBegin(s, c.pc) && s' == Begun(s, i, c.pc)
       case LockTarget(t, op) => Locked(s, i, OfTarget(t), ReadGroup(t, op)) == Some(s')
       case ReadGroup(t, op) =>
         && t < |s.targets|
         && s' == Put(s, i, if s.targets[t].group == None then Inside(t, OfTarget(t), op)
                            else LockGroup(t, s.targets[t].group.value, op))
       case LockGroup(t, g, op) => Locked(s, i, OfGroup(g), UnlockTarget(t, g, op)) == Some(s')
       case UnlockTarget(t, g, op) => s' == Unlocked(s, i, OfTarget(t), Inside(t, OfGroup(g), op))
       case Inside(_, _, _) => InsideStep(s, i, c, s')
       case Asleep(t, m) =>
         && t < |s.targets| && s.targets[t].waitCnt > 0
         && var x := s.targets[t];
            Locked(s.(targets := s.targets[t := x.(waitCnt := x.waitCnt - 1)]), i, m, Inside(t, m, Acquire)) == Some(s')
       case Leaving(m) => s' == Unlocked(s, i, m, Idle)
       case ChangeStart(t, g, add) => Locked(s, i, OfTarget(t), ChangeHalf(t, g, add)) == Some(s')
       case ChangeHalf(t, g, add) => Locked(s, i, OfGroup(g), ChangeInside(t, g, add)) == Some(s')
       case ChangeInside(t, g, add) =>
         t < |s.targets| && g < |s.groups| && s' == Put(Changed(s, t, g, add), i, ChangeDone(t, g))
       case ChangeDone(t, g) => s' == Unlocked(s, i, OfGroup(g), Leaving(OfTarget(t)))
       case GroupStart(g) => Locked(s, i, OfGroup(g), GroupInside(g)) == Some(s')
       case GroupInside(g) =>
         && g < |s.groups|
         && if s.groups[g].cur < s.groups[g].max then
              && c.Pick? && c.t < |s.targets| && s.targets[c.t].group == Some(g) && IsRoot(s, g, c.t)
              && s' == Put(Taken(s, c.t), i, Leaving(OfGroup(g)))
            else if c == GiveUp then s' == Put(s, i, Leaving(OfGroup(g)))
            else s' == Unlocked(s, i, OfGroup(g), GroupAsleep(g))
       case GroupAsleep(g) => Locked(s, i, OfGroup(g), GroupInside(g)) == Some(s')
  }

  // ---------- What every step keeps ----------

  /** Indices are in range, and each place knows what the mutexes it holds keep fixed. */
  ghost predicate ThreadOk(s: State, p: Pc)
  {
    match p
    case Idle => true
    case LockTarget(t, _) => t < |s.targets|
    case ReadGroup(t, _) => t < |s.targets|
    case LockGroup(t, g, _) => t < |s.targets| && s.targets[t].group == Some(g)
    case UnlockTarget(t, g, _) => t < |s.targets| && s.targets[t].group == Some(g)
    case Inside(t, m, _) => t < |s.targets| && m == Guard(s, t)
    case Asleep(t, m) => t < |s.targets| && m == Guard(s, t)
    case Leaving(m) => true
    case ChangeStart(t, g, _) => t < |s.targets| && g < |s.groups|
    case ChangeHalf(t, g, _) => t < |s.targets| && g < |s.groups|
    case ChangeInside(t, g, _) => t < |s.targets| && g < |s.groups|
    case ChangeDone(t, g) => t < |s.targets| && g < |s.groups|
    case GroupStart(g) => g < |s.groups|
    case GroupInside(g) => g < |s.groups|
    case GroupAsleep(g) => g < |s.groups|
  }

  /** Who holds which mutex is as the threads' places say. */
  ghost predicate OwnersOk(s: State)
  {
    && (forall m :: m in s.owner ==> s.owner[m] < |s.threads| && m in Holds(s.threads[s.owner[m]]))
    && (forall i, m :: 0 <= i < |s.threads| && m in Holds(s.threads[i]) ==> m in s.owner && s.owner[m] == i)
  }

  /** `wait_cnt` counts the sleepers; a load is within the capacity, and it is what
      callers hold or are giving back. */
  ghost predicate TargetOk(s: State, t: nat)
    requires t < |s.targets|
  {
    var x := s.targets[t];
    && x.max > 0 && x.cur <= x.max
    && x.waitCnt == Sum(s.threads, SleepsOn(t))
    && x.cur == x.held + Sum(s.threads, Returning(t))
    && (x.group.Some? ==> x.group.value < |s.groups|)
  }

  /** A group's loads are the sums over its members. */
  ghost predicate GroupOk(s: State, g: nat)
    requires g < |s.groups|
  {
    s.groups[g].max == Sum(s.targets, MaxIn(g)) && s.groups[g].cur == Sum(s.targets, CurIn(g))
  }

  ghost predicate Inv(s: State)
  {
    && (forall i :: 0 <= i < |s.threads| ==> ThreadOk(s, s.threads[i]))
    && OwnersOk(s)
    && (forall t :: 0 <= t < |s.targets| ==> TargetOk(s, t))
    && (forall g :: 0 <= g < |s.groups| ==> GroupOk(s, g))
  }

  lemma OwnersPut(s: State, i: nat, p: Pc, s': State)
    requires OwnersOk(s) && i < |s.threads| && Holds(p) == Holds(s.threads[i])
    requires s'.threads == s.threads[i := p] && s'.owner == s.owner
    ensures OwnersOk(s')
  {
    hide Holds;
    forall m | m in s'.owner ensures s'.owner[m] < |s'.threads| && m in Holds(s'.threads[s'.owner[m]]) {}
  }

  lemma OwnersLocked(s: State, i: nat, m: Mutex, p: Pc, s': State)
    requires OwnersOk(s) && i < |s.threads| && m !in s.owner && Holds(p) == Holds(s.threads[i]) + {m}
    requires s'.threads == s.threads[i := p] && s'.owner == s.owner[m := i]
    ensures OwnersOk(s')
  {
    hide Holds;
    forall n | n in s'.owner ensures s'.owner[n] < |s'.threads| && n in Holds(s'.threads[s'.owner[n]]) {}
  }

  lemma OwnersUnlocked(s: State, i: nat, m: Mutex, p: Pc, s': State)
    requires OwnersOk(s) && i < |s.threads| && m in Holds(s.threads[i]) && Holds(p) == Holds(s.threads[i]) - {m}
    requires s'.threads == s.threads[i := p] && s'.owner == s.owner - {m}
    ensures OwnersOk(s')
  {
    hide Holds;
    assert m in s.owner && s.owner[m] == i;
    forall n | n in s'.owner ensures s'.owner[n] < |s'.threads| && n in Holds(s'.threads[s'.owner[n]]) {}
  }

  /** Places in `acquire` and `release` of a target. */
  predicate AtTarget(p: Pc)
  {
    p.ReadGroup? || p.LockGroup? || p.UnlockTarget? || p.Inside? || p.Asleep?
  }

  predicate AtChange(p: Pc) { p.ChangeStart? || p.ChangeHalf? || p.ChangeInside? || p.ChangeDone? }

  lemma OwnersAtTarget(s: State, i: nat, c: Choice, s': State)
    requires OwnersOk(s) && Step(s, i, c, s') && AtTarget(s.threads[i])
    ensures OwnersOk(s')
  {
    hide OwnersOk, Guard;
    match s.threads[i] {
      case ReadGroup(t, op) => OwnersPut(s, i, s'.threads[i], s');
      case LockGroup(t, g, op) => OwnersLocked(s, i, OfGroup(g), UnlockTarget(t, g, op), s');
      case UnlockTarget(t, g, op) => OwnersUnlocked(s, i, OfTarget(t), Inside(t, OfGroup(g), op), s');
      case Inside(t, m, op) =>
        if s'.threads[i] == Leaving(m) { OwnersPut(s, i, Leaving(m), s'); }
        else { OwnersUnlocked(s, i, m, Asleep(t, m), s'); }
      case Asleep(t, m) => OwnersLocked(s, i, m, Inside(t, m, Acquire), s');
    }
  }

  lemma OwnersAtChange(s: State, i: nat, c: Choice, s': State)
    requires OwnersOk(s) && Step(s, i, c, s') && AtChange(s.threads[i])
    ensures OwnersOk(s')
  {
    hide OwnersOk;
    match s.threads[i] {
      case ChangeStart(t, g, add) => OwnersLocked(s, i, OfTarget(t), ChangeHalf(t, g, add), s');
      case ChangeHalf(t, g, add) => OwnersLocked(s, i, OfGroup(g), ChangeInside(t, g, add), s');
      case ChangeInside(t, g, add) => OwnersPut(s, i, ChangeDone(t, g), s');
      case ChangeDone(t, g) => OwnersUnlocked(s, i, OfGroup(g), Leaving(OfTarget(t)), s');
    }
  }

  lemma OwnersKept(s: State, i: nat, c: Choice, s': State)
    requires OwnersOk(s) && Step(s, i, c, s')
    ensures OwnersOk(s')
  {
    hide OwnersOk, IsRoot, InsideStep;
    if AtTarget(s.threads[i]) {
      OwnersAtTarget(s, i, c, s');
    } else if AtChange(s.threads[i]) {
      OwnersAtChange(s, i, c, s');
    } else {
      match s.threads[i] {
        case Idle => OwnersPut(s, i, c.pc, s');
        case LockTarget(t, op) => OwnersLocked(s, i, OfTarget(t), ReadGroup(t, op), s');
        case Leaving(m) => OwnersUnlocked(s, i, m, Idle, s');
        case GroupStart(g) => OwnersLocked(s, i, OfGroup(g), GroupInside(g), s');
        case GroupInside(g) =>
          if s'.threads[i] == GroupAsleep(g) { OwnersUnlocked(s, i, OfGroup(g), GroupAsleep(g), s'); }
          else { OwnersPut(s, i, Leaving(OfGroup(g)), s'); }
        case GroupAsleep(g) => OwnersLocked(s, i, OfGroup(g), GroupInside(g), s');
      }
    }
  }

  // ---------- A target's group is fixed while it is in use ----------

  lemma SameGroupsOk(s: State, s': State, p: Pc)
    requires SameGroups(s, s') && ThreadOk(s, p)
    ensures ThreadOk(s', p)
  {
  }

  lemma GroupsStay(s: State, i: nat, c: Choice, s': State)
    requires Step(s, i, c, s') && !s.threads[i].ChangeInside?
    ensures SameGroups(s, s') && s'.threads == s.threads[i := s'.threads[i]]
  {
    hide IsRoot, Holds, Taken, Loaded;
  }

  /** Places that rely on the group of `t`. */
  predicate Uses(p: Pc, t: nat)
  {
    (p.LockGroup? || p.UnlockTarget? || p.Inside? || p.Asleep?) && p.t == t
  }

  /** When `add` or `remove` changes the group of `t`, no other thread relies on it. */
  lemma ChangeIsAlone(s: State, i: nat, j: nat)
    requires Inv(s) && i < |s.threads| && j < |s.threads| && i != j
    requires s.threads[i].ChangeInside? && Changed(s, s.threads[i].t, s.threads[i].g, s.threads[i].add) != s
    ensures !Uses(s.threads[j], s.threads[i].t)
  {
    hide GroupOk, Sum;
    var ChangeInside(t, g, add) := s.threads[i];
    assert ThreadOk(s, s.threads[i]) && ThreadOk(s, s.threads[j]) && TargetOk(s, t);
    assert OfTarget(t) in Holds(s.threads[i]) && OfGroup(g) in Holds(s.threads[i]);
    assert s.targets[t].waitCnt == 0 && Guard(s, t) in Holds(s.threads[i]);
    var p := s.threads[j];
    SumZero(s.threads, j, SleepsOn(t));
    assert !(p.Asleep? && p.t == t);
    assert !(p.Inside? && p.t == t) by { NotShared(s, i, j, Guard(s, t)); }
    assert !(p.LockGroup? && p.t == t) && !(p.UnlockTarget? && p.t == t) by { NotShared(s, i, j, OfTarget(t)); }
  }

  lemma OwnerOf(s: State, i: nat, m: Mutex)
    requires OwnersOk(s) && i < |s.threads| && m in Holds(s.threads[i])
    ensures m in s.owner && s.owner[m] == i
  {
  }

  lemma NotShared(s: State, i: nat, j: nat, m: Mutex)
    requires OwnersOk(s) && i < |s.threads| && j < |s.threads| && i != j && m in Holds(s.threads[i])
    ensures m !in Holds(s.threads[j])
  {
    OwnerOf(s, i, m);
    if m in Holds(s.threads[j]) { OwnerOf(s, j, m); }
  }

  lemma ChangedGroups(s: State, t: nat, g: nat, add: bool, p: Pc)
    requires t < |s.targets| && g < |s.groups| && ThreadOk(s, p) && !Uses(p, t)
    ensures ThreadOk(Changed(s, t, g, add), p)
  {
  }

  lemma ThreadsKept(s: State, i: nat, c: Choice, s': State)
    requires Inv(s) && Step(s, i, c, s')
    ensures forall j :: 0 <= j < |s'.threads| ==> ThreadOk(s', s'.threads[j])
  {
    hide TargetOk, GroupOk, OwnersOk, IsRoot, Holds, Sum;
    forall j | 0 <= j < |s'.threads| ensures ThreadOk(s', s'.threads[j]) {
      assert ThreadOk(s, s.threads[j]);
      if s.threads[i].ChangeInside? {
        ChangeThreads(s, i, c, s', j);
      } else {
        GroupsStay(s, i, c, s');
        if j == i {
          StepsOn(s, i, c, s');
        } else {
          SameGroupsOk(s, s', s.threads[j]);
        }
      }
    }
  }

  lemma ChangeThreads(s: State, i: nat, c: Choice, s': State, j: nat)
    requires Inv(s) && Step(s, i, c, s') && s.threads[i].ChangeInside? && j < |s'.threads|
    ensures ThreadOk(s', s'.threads[j])
  {
    hide TargetOk, GroupOk, OwnersOk, Holds, Sum;
    var ChangeInside(t, g, add) := s.threads[i];
    assert ThreadOk(s, s.threads[i]) && ThreadOk(s, s.threads[j]);
    if j != i {
      if Changed(s, t, g, add) != s {
        ChangeIsAlone(s, i, j);
        ChangedGroups(s, t, g, add, s.threads[j]);
      }
    }
  }

  /** The moving thread's next place is right. */
  lemma StepsOn(s: State, i: nat, c: Choice, s': State)
    requires Step(s, i, c, s') && ThreadOk(s, s.threads[i]) && SameGroups(s, s') && !s.threads[i].ChangeInside?
    requires s.threads[i].ReadGroup? ==> TargetOk(s, s.threads[i].t)
    ensures ThreadOk(s', s'.threads[i])
  {
    hide IsRoot, Holds, Sum, Taken, Loaded;
    if s.threads[i].Inside? {
      InsideStepsOn(s, i, c, s');
    } else if AtTarget(s.threads[i]) {
      TargetStepsOn(s, i, c, s');
    } else {
      hide InsideStep, Guard, TargetOk;
    }
  }

  lemma InsideStepsOn(s: State, i: nat, c: Choice, s': State)
    requires i < |s.threads| && s.threads[i].Inside? && InsideStep(s, i, c, s') && ThreadOk(s, s.threads[i])
             && SameGroups(s, s')
    ensures ThreadOk(s', s'.threads[i])
  {
    hide Taken, Loaded;
  }

  lemma TargetStepsOn(s: State, i: nat, c: Choice, s': State)
    requires Step(s, i, c, s') && ThreadOk(s, s.threads[i]) && SameGroups(s, s')
    requires AtTarget(s.threads[i]) && !s.threads[i].Inside?
    ensures ThreadOk(s', s'.threads[i])
  {
    hide IsRoot, Holds, Taken, Loaded, InsideStep;
  }

  // ---------- Loads and waiters ----------

  /** A sum over the threads when one of them moves. */
  lemma ThreadSums(s: State, i: nat, p: Pc, t: nat)
    requires i < |s.threads|
    ensures Sum(s.threads[i := p], SleepsOn(t)) + SleepsOn(t)(s.threads[i]) ==
            Sum(s.threads, SleepsOn(t)) + SleepsOn(t)(p)
    ensures Sum(s.threads[i := p], Returning(t)) + Returning(t)(s.threads[i]) ==
            Sum(s.threads, Returning(t)) + Returning(t)(p)
    ensures Sum(s.threads, SleepsOn(t)) >= SleepsOn(t)(s.threads[i])
    ensures Sum(s.threads, Returning(t)) >= Returning(t)(s.threads[i])
  {
    SumUpdate(s.threads, i, p, SleepsOn(t));
    SumUpdate(s.threads, i, p, Returning(t));
    SumZero(s.threads, i, SleepsOn(t));
    SumZero(s.threads, i, Returning(t));
  }

  /** The counters of `t` in a state where thread `i` is at `p`. */
  lemma TargetMoves(s: State, i: nat, p: Pc, s': State, t: nat)
    requires t < |s.targets| == |s'.targets| && i < |s.threads| && TargetOk(s, t)
    requires s'.threads == s.threads[i := p] && |s'.groups| == |s.groups|
    requires var x, y, q := s.targets[t], s'.targets[t], s.threads[i];
             && y.max == x.max && y.cur <= y.max
             && y.waitCnt + SleepsOn(t)(q) == x.waitCnt + SleepsOn(t)(p)
             && y.cur + x.held + Returning(t)(q) == x.cur + y.held + Returning(t)(p)
             && (y.group.Some? ==> y.group.value < |s'.groups|)
    ensures TargetOk(s', t)
  {
    hide Sum;
    ThreadSums(s, i, p, t);
  }

  lemma TargetReleases(s: State, i: nat, s': State, t: nat)
    requires i < |s.threads| && s.threads[i].Inside? && s.threads[i].op.Release? && t < |s.targets| && TargetOk(s, t)
    requires InsideStep(s, i, Go, s')
    ensures |s'.targets| == |s.targets| && TargetOk(s', t)
  {
    hide Sum;
    TargetMoves(s, i, Leaving(s.threads[i].m), s', t);
  }

  lemma TargetAcquires(s: State, i: nat, c: Choice, s': State, t: nat)
    requires i < |s.threads| && s.threads[i].Inside? && s.threads[i].op.Acquire? && t < |s.targets| && TargetOk(s, t)
    requires s.threads[i].t < |s.targets| && s.targets[s.threads[i].t].cur < s.targets[s.threads[i].t].max
    requires InsideStep(s, i, c, s')
    ensures |s'.targets| == |s.targets| && TargetOk(s', t)
  {
    hide Sum;
    TargetMoves(s, i, Leaving(s.threads[i].m), s', t);
  }

  lemma TargetWaits(s: State, i: nat, c: Choice, s': State, t: nat)
    requires i < |s.threads| && s.threads[i].Inside? && s.threads[i].op.Acquire? && t < |s.targets| && TargetOk(s, t)
    requires s.threads[i].t < |s.targets| && s.targets[s.threads[i].t].cur >= s.targets[s.threads[i].t].max
    requires InsideStep(s, i, c, s')
    ensures |s'.targets| == |s.targets| && TargetOk(s', t)
  {
    hide Sum, Loaded, Taken;
    TargetMoves(s, i, s'.threads[i], s', t);
  }

  lemma TargetInside(s: State, i: nat, c: Choice, s': State, t: nat)
    requires i < |s.threads| && s.threads[i].Inside? && InsideStep(s, i, c, s') && t < |s.targets| && TargetOk(s, t)
    ensures |s'.targets| == |s.targets| && TargetOk(s', t)
  {
    hide TargetOk, Loaded, Taken;
    if s.threads[i].op.Release? {
      TargetReleases(s, i, s', t);
    } else if s.targets[s.threads[i].t].cur < s.targets[s.threads[i].t].max {
      TargetAcquires(s, i, c, s', t);
    } else {
      TargetWaits(s, i, c, s', t);
    }
  }

  lemma TargetChanged(s: State, i: nat, c: Choice, s': State, t: nat)
    requires Step(s, i, c, s') && s.threads[i].ChangeInside? && t < |s.targets| && TargetOk(s, t)
    ensures |s'.targets| == |s.targets| && TargetOk(s', t)
  {
    hide Sum, IsRoot;
    TargetMoves(s, i, s'.threads[i], s', t);
  }

  lemma TargetPicked(s: State, i: nat, c: Choice, s': State, t: nat)
    requires Step(s, i, c, s') && s.threads[i].GroupInside? && t < |s.targets| && TargetOk(s, t)
    requires c.Pick? && c.t < |s.targets| && s.targets[c.t].cur < s.targets[c.t].max
    ensures |s'.targets| == |s.targets| && TargetOk(s', t)
  {
    hide Sum, IsRoot;
    TargetMoves(s, i, s'.threads[i], s', t);
  }

  /** The thread moves, but no counter does. */
  lemma TargetQuiet(s: State, i: nat, p: Pc, s': State, t: nat)
    requires t < |s.targets| && i < |s.threads| && TargetOk(s, t)
    requires s'.threads == s.threads[i := p] && |s'.groups| == |s.groups| && s'.targets == s.targets
    requires SleepsOn(t)(p) == SleepsOn(t)(s.threads[i]) && Returning(t)(p) == Returning(t)(s.threads[i])
    ensures TargetOk(s', t)
  {
    hide SleepsOn, Returning;
    TargetMoves(s, i, p, s', t);
  }

  lemma TargetAtTarget(s: State, i: nat, c: Choice, s': State, t: nat)
    requires Step(s, i, c, s') && t < |s.targets| && TargetOk(s, t)
    requires AtTarget(s.threads[i]) && !s.threads[i].Inside?
    ensures |s'.targets| == |s.targets| && TargetOk(s', t)
  {
    hide Sum, IsRoot, InsideStep, TargetOk, Loaded, Taken;
    if s.threads[i].Asleep? {
      TargetWakes(s, i, c, s', t);
    } else {
      TargetQuiet(s, i, s'.threads[i], s', t);
    }
  }

  lemma TargetWakes(s: State, i: nat, c: Choice, s': State, t: nat)
    requires Step(s, i, c, s') && t < |s.targets| && TargetOk(s, t) && s.threads[i].Asleep?
    ensures |s'.targets| == |s.targets| && TargetOk(s', t)
  {
    hide Sum, IsRoot, InsideStep, Loaded, Taken;
    TargetMoves(s, i, s'.threads[i], s', t);
  }

  lemma TargetBegins(s: State, i: nat, c: Choice, s': State, t: nat)
    requires Step(s, i, c, s') && t < |s.targets| && TargetOk(s, t) && s.threads[i].Idle?
    ensures |s'.targets| == |s.targets| && TargetOk(s', t)
  {
    hide Sum, IsRoot, InsideStep, Loaded, Taken;
    TargetMoves(s, i, s'.threads[i], s', t);
  }

  lemma TargetElsewhere(s: State, i: nat, c: Choice, s': State, t: nat)
    requires Step(s, i, c, s') && t < |s.targets| && TargetOk(s, t)
    requires !AtTarget(s.threads[i]) && !s.threads[i].ChangeInside? && !s.threads[i].Idle?
    requires !(s.threads[i].GroupInside? && s'.targets != s.targets)
    ensures |s'.targets| == |s.targets| && TargetOk(s', t)
  {
    hide Sum, IsRoot, InsideStep, TargetOk, Loaded, Taken;
    TargetQuiet(s, i, s'.threads[i], s', t);
  }

  // ---------- Group loads ----------

  lemma MemberSums(ts: seq<Target>, t: nat, x: Target, g: nat)
    requires t < |ts|
    ensures Sum(ts[t := x], CurIn(g)) + CurIn(g)(ts[t]) == Sum(ts, CurIn(g)) + CurIn(g)(x)
    ensures Sum(ts[t := x], MaxIn(g)) + MaxIn(g)(ts[t]) == Sum(ts, MaxIn(g)) + MaxIn(g)(x)
    ensures Sum(ts, CurIn(g)) >= CurIn(g)(ts[t]) && Sum(ts, MaxIn(g)) >= MaxIn(g)(ts[t])
  {
    SumUpdate(ts, t, x, CurIn(g));
    SumUpdate(ts, t, x, MaxIn(g));
    SumZero(ts, t, CurIn(g));
    SumZero(ts, t, MaxIn(g));
  }

  /** Only `x` replaces target `t`, and only one group's loads follow. */
  lemma GroupMoves(s: State, t: nat, x: Target, s': State, g: nat)
    requires t < |s.targets| && g < |s.groups| == |s'.groups| && GroupOk(s, g)
    requires s'.targets == s.targets[t := x]
    requires s'.groups[g].cur + CurIn(g)(s.targets[t]) == s.groups[g].cur + CurIn(g)(x)
    requires s'.groups[g].max + MaxIn(g)(s.targets[t]) == s.groups[g].max + MaxIn(g)(x)
    ensures GroupOk(s', g)
  {
    hide Sum;
    MemberSums(s.targets, t, x, g);
  }

  lemma GroupLoaded(s: State, t: nat, d: int, g: nat)
    requires t < |s.targets| && s.targets[t].cur + d >= 0 && g < |s.groups| && GroupOk(s, g)
    requires s.targets[t].group.Some? ==> s.targets[t].group.value < |s.groups|
    requires s.targets[t].group.Some? ==> s.groups[s.targets[t].group.value].cur + d >= 0
    ensures GroupOk(Loaded(s, t, d), g)
  {
    hide Sum, GroupOk;
    GroupMoves(s, t, Loaded(s, t, d).targets[t], Loaded(s, t, d), g);
  }

  lemma GroupTaken(s: State, t: nat, g: nat)
    requires t < |s.targets| && (s.targets[t].group.Some? ==> s.targets[t].group.value < |s.groups|)
    requires g < |s.groups| && GroupOk(s, g)
    ensures GroupOk(Taken(s, t), g)
  {
    hide Sum, GroupOk, Loaded;
    GroupLoaded(s, t, 1, g);
    var u := Loaded(s, t, 1);
    GroupMoves(u, t, u.targets[t].(held := u.targets[t].held + 1), Taken(s, t), g);
  }

  lemma GroupChanged(s: State, t: nat, h: nat, add: bool, g: nat)
    requires t < |s.targets| && h < |s.groups| && g < |s.groups| && GroupOk(s, g)
    ensures GroupOk(Changed(s, t, h, add), g)
  {
    hide Sum, GroupOk;
    var u := Changed(s, t, h, add);
    if u != s { GroupMoves(s, t, u.targets[t], u, g); }
  }

  lemma GroupPut(s: State, s': State, g: nat)
    requires g < |s.groups| == |s'.groups| && GroupOk(s, g)
    requires s'.targets == s.targets && s'.groups == s.groups
    ensures GroupOk(s', g)
  {
  }

  lemma GroupKept(s: State, i: nat, c: Choice, s': State, g: nat)
    requires Step(s, i, c, s') && g < |s.groups| && GroupOk(s, g)
    requires forall t :: 0 <= t < |s.targets| ==> TargetOk(s, t)
    ensures |s'.groups| == |s.groups| && GroupOk(s', g)
  {
    hide Sum, GroupOk, IsRoot, TargetOk, Taken, Loaded, Changed, Holds;
    match s.threads[i] {
      case Inside(t, m, op) => GroupInsideKept(s, i, c, s', g);
      case ChangeInside(t, h, add) =>
        GroupChanged(s, t, h, add, g);
        GroupPut(Changed(s, t, h, add), s', g);
      case GroupInside(h) =>
        if s.groups[h].cur < s.groups[h].max {
          GroupTaken(s, c.t, g);
          GroupPut(Taken(s, c.t), s', g);
        } else {
          GroupPut(s, s', g);
        }
      case _ => GroupRest(s, i, c, s', g);
    }
  }

  lemma GroupInsideKept(s: State, i: nat, c: Choice, s': State, g: nat)
    requires i < |s.threads| && s.threads[i].Inside? && InsideStep(s, i, c, s') && g < |s.groups| && GroupOk(s, g)
    ensures |s'.groups| == |s.groups| && GroupOk(s', g)
  {
    hide Sum, GroupOk, Taken, Loaded;
    var t, op := s.threads[i].t, s.threads[i].op;
    if op.Release? {
      GroupLoaded(s, t, -1, g);
      GroupPut(Loaded(s, t, -1), s', g);
    } else if s.targets[t].cur < s.targets[t].max {
      GroupTaken(s, t, g);
      GroupPut(Taken(s, t), s', g);
    } else if c == GiveUp {
      GroupPut(s, s', g);
    } else {
      GroupMoves(s, t, s'.targets[t], s', g);
    }
  }

  lemma GroupRest(s: State, i: nat, c: Choice, s': State, g: nat)
    requires Step(s, i, c, s') && g < |s.groups| && GroupOk(s, g)
    requires !s.threads[i].Inside? && !s.threads[i].ChangeInside? && !s.threads[i].GroupInside?
    ensures |s'.groups| == |s.groups| && GroupOk(s', g)
  {
    hide Sum, GroupOk, IsRoot, InsideStep, Taken, Loaded, Changed, Holds;
    if s.threads[i].Asleep? {
      GroupMoves(s, s.threads[i].t, s'.targets[s.threads[i].t], s', g);
    } else if s.threads[i].Idle? && c.pc.LockTarget? {
      GroupMoves(s, c.pc.t, s'.targets[c.pc.t], s', g);
    } else {
      GroupPut(s, s', g);
    }
  }

  /** `add` and `remove` take effect exactly when the code's tests succeed. */
  lemma ChangeTakesEffect(s: State, t: nat, g: nat, add: bool)
    requires t < |s.targets| && g < |s.groups| && GroupOk(s, g)
    ensures var x := s.targets[t];
            Changed(s, t, g, add) != s <==> x.waitCnt == 0 && x.group == if add then None else Some(g)
  {
    hide Sum;
    SumZero(s.targets, t, CurIn(g));
    SumZero(s.targets, t, MaxIn(g));
    assert Changed(s, t, g, add) != s <== Changed(s, t, g, add).targets[t] != s.targets[t];
  }

  // ---------- The root of a group's heap ----------

  /** If even the least loaded member is full, all are. */
  lemma FullMembers(s: State, g: nat, r: nat)
    requires g < |s.groups| && IsRoot(s, g, r) && s.targets[r].cur >= s.targets[r].max > 0
    ensures Sum(s.targets, MaxIn(g)) <= Sum(s.targets, CurIn(g))
  {
    forall t | 0 <= t < |s.targets| ensures MaxIn(g)(s.targets[t]) <= CurIn(g)(s.targets[t]) {
      if s.targets[t].group == Some(g) {
        var a, b := s.targets[r], s.targets[t];
        assert AtMost(a, b);
        SchedHeap.FullAbove(SchedHeap.Load(a.cur, a.max), SchedHeap.Load(b.cur, b.max));
      }
    }
    SumAtMost(s.targets, MaxIn(g), CurIn(g));
  }

  /** A group with room has it at its root, so `acquire` on a group overloads no target. */
  lemma RootHasRoom(s: State, g: nat, r: nat)
    requires g < |s.groups| && IsRoot(s, g, r) && GroupOk(s, g) && TargetOk(s, r)
    requires s.groups[g].cur < s.groups[g].max
    ensures s.targets[r].cur < s.targets[r].max
  {
    hide Sum;
    if s.targets[r].cur >= s.targets[r].max { FullMembers(s, g, r); }
  }

  // ---------- Every step, every run ----------

  lemma TargetKept(s: State, i: nat, c: Choice, s': State, t: nat)
    requires Inv(s) && Step(s, i, c, s') && t < |s.targets|
    ensures |s'.targets| == |s.targets| && TargetOk(s', t)
  {
    hide GroupOk, OwnersOk, IsRoot, Holds, Sum, TargetOk, Taken, Loaded, Changed, InsideStep;
    assert TargetOk(s, t) && ThreadOk(s, s.threads[i]);
    if s.threads[i].Inside? {
      TargetInside(s, i, c, s', t);
    } else if AtTarget(s.threads[i]) {
      TargetAtTarget(s, i, c, s', t);
    } else if s.threads[i].Idle? {
      TargetBegins(s, i, c, s', t);
    } else if s.threads[i].ChangeInside? {
      TargetChanged(s, i, c, s', t);
    } else if s.threads[i].GroupInside? && s.groups[s.threads[i].g].cur < s.groups[s.threads[i].g].max {
      RootHasRoom(s, s.threads[i].g, c.t);
      TargetPicked(s, i, c, s', t);
    } else {
      TargetElsewhere(s, i, c, s', t);
    }
  }

  /** Mutexes, groups, waiters and loads stay consistent in every step. */
  lemma InvKept(s: State, i: nat, c: Choice, s': State)
    requires Inv(s) && Step(s, i, c, s')
    ensures Inv(s') && |s'.targets| == |s.targets| && |s'.groups| == |s.groups|
  {
    hide GroupOk, OwnersOk, TargetOk, ThreadOk, Step;
    OwnersKept(s, i, c, s');
    ThreadsKept(s, i, c, s');
    Sizes(s, i, c, s');
    forall t | 0 <= t < |s'.targets| ensures TargetOk(s', t) { TargetKept(s, i, c, s', t); }
    forall g | 0 <= g < |s'.groups| ensures GroupOk(s', g) { GroupKept(s, i, c, s', g); }
  }

  lemma Sizes(s: State, i: nat, c: Choice, s': State)
    requires Step(s, i, c, s')
    ensures |s'.targets| == |s.targets| && |s'.groups| == |s.groups|
  {
    hide IsRoot, Holds, Taken, Loaded, Changed;
    if !s.threads[i].ChangeInside? { GroupsStay(s, i, c, s'); }
  }

  /** Nothing has happened yet: targets are idle and in no group. */
  ghost predicate Initial(s: State)
  {
    && (forall i :: 0 <= i < |s.threads| ==> s.threads[i] == Idle)
    && (forall t :: 0 <= t < |s.targets| ==>
          s.targets[t].max > 0 && s.targets[t] == Target(s.targets[t].max, 0, None, 0, 0))
    && (forall g :: 0 <= g < |s.groups| ==> s.groups[g] == Group(0, 0))
    && s.owner == map[]
  }

  lemma {:induction false} SumNothing<T>(xs: seq<T>, f: T -> nat)
    requires forall i :: 0 <= i < |xs| ==> f(xs[i]) == 0
    ensures Sum(xs, f) == 0
  {
    if xs != [] { SumNothing(xs[..|xs| - 1], f); }
  }

  lemma InitialInv(s: State)
    requires Initial(s)
    ensures Inv(s)
  {
    forall t | 0 <= t < |s.targets| ensures TargetOk(s, t) {
      SumNothing(s.threads, SleepsOn(t));
      SumNothing(s.threads, Returning(t));
    }
    forall g | 0 <= g < |s.groups| ensures GroupOk(s, g) {
      SumNothing(s.targets, CurIn(g));
      SumNothing(s.targets, MaxIn(g));
    }
  }

  /** Any interleaving of any number of threads. */
  ghost predicate IsRun(run: seq<State>)
  {
    && run != [] && Initial(run[0])
    && forall k :: 0 < k < |run| ==> Steps(run[k - 1], run[k])
  }

  ghost predicate Steps(s: State, s': State) { exists i: nat, c :: Step(s, i, c, s') }

  lemma {:induction false} RunsAreSafe(run: seq<State>, k: nat)
    requires IsRun(run) && k < |run|
    ensures Inv(run[k])
  {
    hide Inv, Step, Initial;
    if k == 0 {
      InitialInv(run[0]);
    } else {
      RunsAreSafe(run, k - 1);
      assert Steps(run[k - 1], run[k]);
      var i: nat, c :| Step(run[k - 1], i, c, run[k]);
      InvKept(run[k - 1], i, c, run[k]);
    }
  }

  // ---------- What the protocol is for ----------

  /** While a thread sleeps in a target's `acquire`, no step changes that target's
      group, and the thread wakes up holding the mutex that guards the target. */
  lemma SleepersKeepTheGroup(s: State, i: nat, c: Choice, s': State, j: nat)
    requires Inv(s) && Step(s, i, c, s') && j < |s.threads| && s.threads[j].Asleep?
    ensures var Asleep(t, m) := s.threads[j];
            && t < |s.targets| == |s'.targets| && s'.targets[t].group == s.targets[t].group
            && (i == j ==> && s'.threads[j] == Inside(t, m, Acquire) && m == Guard(s', t)
                           && m in s'.owner && s'.owner[m] == j)
  {
    hide GroupOk, TargetOk, IsRoot, Holds, Sum, Taken, Loaded, InsideStep;
    InvKept(s, i, c, s');
    assert ThreadOk(s, s.threads[j]);
    if s.threads[i].ChangeInside? {
      ChangeIsAloneOrNothing(s, i, j);
    } else {
      GroupsStay(s, i, c, s');
    }
  }

  lemma ChangeIsAloneOrNothing(s: State, i: nat, j: nat)
    requires Inv(s) && i < |s.threads| && j < |s.threads| && i != j && s.threads[i].ChangeInside?
             && s.threads[j].Asleep?
    ensures var ChangeInside(t, g, add) := s.threads[i];
            t < |s.targets| && g < |s.groups| && (s.threads[j].t == t ==> Changed(s, t, g, add) == s)
  {
    hide GroupOk, TargetOk, OwnersOk, Holds, Sum;
    assert ThreadOk(s, s.threads[i]);
    var ChangeInside(t, g, add) := s.threads[i];
    if Changed(s, t, g, add) != s { ChangeIsAlone(s, i, j); }
  }

  predicate Owns(s: State, i: nat, m: Mutex) { m in s.owner && s.owner[m] == i }

  /** Where a thread looks at loads, it holds the mutex that guards them: at one target,
      at every member of a group, or at a target that is about to join or leave. */
  lemma AccessesAreGuarded(s: State, i: nat)
    requires Inv(s) && i < |s.threads|
    ensures s.threads[i].Inside? ==> s.threads[i].t < |s.targets| && Owns(s, i, Guard(s, s.threads[i].t))
    ensures s.threads[i].GroupInside? ==>
            && Owns(s, i, OfGroup(s.threads[i].g))
            && forall t :: 0 <= t < |s.targets| && s.targets[t].group == Some(s.threads[i].g) ==>
                 Owns(s, i, Guard(s, t))
    ensures s.threads[i].ChangeInside? ==>
            var ChangeInside(t, g, _) := s.threads[i];
            && t < |s.targets| && Owns(s, i, OfGroup(g))
            && (s.targets[t].group == None || s.targets[t].group == Some(g) ==> Owns(s, i, Guard(s, t)))
  {
    hide GroupOk, TargetOk;
    assert ThreadOk(s, s.threads[i]);
    forall m | m in Holds(s.threads[i]) ensures Owns(s, i, m) { OwnerOf(s, i, m); }
  }

  /** No load changes but by a thread that holds its guard. */
  lemma LoadsChangeUnderTheirGuard(s: State, i: nat, c: Choice, s': State, t: nat)
    requires Inv(s) && Step(s, i, c, s') && t < |s.targets| == |s'.targets|
    requires s'.targets[t].cur != s.targets[t].cur
    ensures Owns(s, i, Guard(s, t))
  {
    hide GroupOk, TargetOk, OwnersOk, ThreadOk, IsRoot, Holds;
    AccessesAreGuarded(s, i);
  }

  lemma GroupLoadsChangeUnderTheirMutex(s: State, i: nat, c: Choice, s': State, g: nat)
    requires Inv(s) && Step(s, i, c, s') && g < |s.groups| == |s'.groups|
    requires s'.groups[g] != s.groups[g]
    ensures Owns(s, i, OfGroup(g))
  {
    hide GroupOk, TargetOk, OwnersOk, ThreadOk, IsRoot, Holds;
    AccessesAreGuarded(s, i);
  }

  /** The target with one session more, for the caller. */
  function OneMore(x: Target): Target { x.(cur := x.cur + 1, held := x.held + 1) }

  /** A call on a target gives up only when that is full; otherwise its caller has one session
      more on it. */
  lemma AcquireEnds(s: State, i: nat, c: Choice, s': State)
    requires Inv(s) && Step(s, i, c, s') && s'.threads[i].Leaving?
    requires s.threads[i].Inside? && s.threads[i].op.Acquire?
    ensures var t := s.threads[i].t;
            && t < |s.targets|
            && s'.targets == if s.targets[t].cur < s.targets[t].max then s.targets[t := OneMore(s.targets[t])]
                             else s.targets
  {
    hide OwnersOk, Sum, TargetOk, GroupOk;
    assert ThreadOk(s, s.threads[i]);
  }

  predicate AllFull(ts: seq<Target>, g: nat)
  {
    forall t :: 0 <= t < |ts| && ts[t].group == Some(g) ==> ts[t].cur == ts[t].max
  }

  /** A call on a group gives up only when all its members are full; otherwise its caller has
      one session more on a least loaded one, which had room. */
  lemma GroupAcquireEnds(s: State, i: nat, c: Choice, s': State)
    requires Inv(s) && Step(s, i, c, s') && s'.threads[i].Leaving? && s.threads[i].GroupInside?
    ensures var g := s.threads[i].g;
            if AllFull(s.targets, g) then
              s'.targets == s.targets
            else
              && c.Pick? && c.t < |s.targets| && IsRoot(s, g, c.t) && s.targets[c.t].cur < s.targets[c.t].max
              && s'.targets == s.targets[c.t := OneMore(s.targets[c.t])]
  {
    hide OwnersOk, Sum, IsRoot;
    assert ThreadOk(s, s.threads[i]);
    var g := s.threads[i].g;
    assert GroupOk(s, g);
    forall t | 0 <= t < |s.targets| ensures s.targets[t].cur <= s.targets[t].max { assert TargetOk(s, t); }
    FullSum(s.targets, g);
    if s.groups[g].cur < s.groups[g].max {
      assert TargetOk(s, c.t);
      RootHasRoom(s, g, c.t);
    }
    hide TargetOk, GroupOk;
  }

  /** A group is full exactly when its members are. */
  lemma {:induction false} FullSum(ts: seq<Target>, g: nat)
    requires forall t :: 0 <= t < |ts| ==> ts[t].cur <= ts[t].max
    ensures Sum(ts, CurIn(g)) <= Sum(ts, MaxIn(g))
    ensures Sum(ts, CurIn(g)) == Sum(ts, MaxIn(g)) <==> AllFull(ts, g)
  {
    if ts != [] {
      var n := |ts| - 1;
      FullSum(ts[..n], g);
      assert forall t :: 0 <= t < n ==> ts[..n][t] == ts[t];
    }
  }

  // ---------- No deadlock ----------

  /** The mutex that a thread is blocked on, if another one holds it. */
  function Wants(p: Pc): Option<Mutex>
  {
    match p
    case LockTarget(t, _) => Some(OfTarget(t))
    case LockGroup(_, g, _) => Some(OfGroup(g))
    case ChangeStart(t, _, _) => Some(OfTarget(t))
    case ChangeHalf(_, g, _) => Some(OfGroup(g))
    case GroupStart(g) => Some(OfGroup(g))
    case _ => None
  }

  /** Whoever holds a group's mutex waits for none, and whoever holds a target's mutex
      waits at most for a group's: no cycle of waiting threads can form. */
  lemma NoCycle(s: State, i: nat, m: Mutex)
    requires Inv(s) && m in s.owner && i == s.owner[m]
    ensures i < |s.threads|
    ensures match m
            case OfGroup(_) => Wants(s.threads[i]) == None
            case OfTarget(_) => Wants(s.threads[i]).Some? ==> Wants(s.threads[i]).value.OfGroup?
  {
    hide GroupOk, TargetOk, ThreadOk;
    assert m in Holds(s.threads[i]) by { hide Holds; }
  }

  /** A group with capacity has a root. */
  lemma {:induction false} RootExists(s: State, g: nat, n: nat) returns (r: nat)
    requires n <= |s.targets| && (forall t :: 0 <= t < |s.targets| ==> s.targets[t].max > 0)
    requires exists t :: 0 <= t < n && s.targets[t].group == Some(g)
    ensures r < n && s.targets[r].group == Some(g)
    ensures forall t :: 0 <= t < n && s.targets[t].group == Some(g) ==> AtMost(s.targets[r], s.targets[t])
  {
    var l := n - 1;
    if exists t :: 0 <= t < l && s.targets[t].group == Some(g) {
      r := RootExists(s, g, l);
      if s.targets[l].group == Some(g) {
        if !AtMost(s.targets[r], s.targets[l]) {
          forall t | 0 <= t < n && s.targets[t].group == Some(g) ensures AtMost(s.targets[l], s.targets[t]) {
            Transitive(s.targets[l], s.targets[r], s.targets[t]);
          }
          r := l;
        }
      }
    } else {
      r := l;
    }
  }

  lemma Transitive(a: Target, b: Target, c: Target)
    requires a.max > 0 && b.max > 0 && c.max > 0
    ensures AtMost(a, a) && (AtMost(a, b) && AtMost(b, c) ==> AtMost(a, c))
    ensures !AtMost(b, a) ==> AtMost(a, b)
  {
    SchedHeap.CrossTransitive(a.cur, a.max, b.cur, b.max, c.cur, c.max);
  }

  lemma {:induction false} SomeMember(ts: seq<Target>, g: nat)
    requires Sum(ts, MaxIn(g)) > 0
    ensures exists t :: 0 <= t < |ts| && ts[t].group == Some(g)
  {
    var n := |ts| - 1;
    if ts[n].group != Some(g) {
      SomeMember(ts[..n], g);
      var t :| 0 <= t < n && ts[..n][t].group == Some(g);
      assert ts[t].group == Some(g);
    }
  }

  /** A thread that holds a mutex and waits for none can always go on: a release finds
      its session counted, and a group with room has a root to acquire. */
  lemma HoldersGoOn(s: State, i: nat) returns (c: Choice, s': State)
    requires Inv(s) && i < |s.threads| && Holds(s.threads[i]) != {} && Wants(s.threads[i]) == None
    ensures Step(s, i, c, s')
  {
    hide OwnersOk, Sum, TargetOk, GroupOk;
    assert ThreadOk(s, s.threads[i]);
    c := GiveUp;
    match s.threads[i] {
      case ReadGroup(t, op) =>
        s' := Put(s, i, if s.targets[t].group == None then Inside(t, OfTarget(t), op)
                        else LockGroup(t, s.targets[t].group.value, op));
      case UnlockTarget(t, g, op) => s' := Unlocked(s, i, OfTarget(t), Inside(t, OfGroup(g), op));
      case Inside(t, m, op) => s' := InsideGoesOn(s, i);
      case Leaving(m) => s' := Unlocked(s, i, m, Idle);
      case ChangeInside(t, g, add) => s' := Put(Changed(s, t, g, add), i, ChangeDone(t, g));
      case ChangeDone(t, g) => s' := Unlocked(s, i, OfGroup(g), Leaving(OfTarget(t)));
      case GroupInside(g) =>
        if s.groups[g].cur < s.groups[g].max {
          var r := GroupGoesOn(s, g);
          c := Pick(r);
          s' := Put(Taken(s, r), i, Leaving(OfGroup(g)));
        } else {
          s' := Put(s, i, Leaving(OfGroup(g)));
        }
    }
  }

  lemma InsideGoesOn(s: State, i: nat) returns (s': State)
    requires Inv(s) && i < |s.threads| && s.threads[i].Inside?
    ensures InsideStep(s, i, GiveUp, s')
  {
    hide OwnersOk, Sum;
    assert ThreadOk(s, s.threads[i]);
    var Inside(t, m, op) := s.threads[i];
    assert TargetOk(s, t);
    var x := s.targets[t];
    if op.Release? {
      SumZero(s.threads, i, Returning(t));
      if x.group.Some? {
        assert GroupOk(s, x.group.value);
        SumZero(s.targets, t, CurIn(x.group.value));
      }
      s' := Put(Loaded(s, t, -1), i, Leaving(m));
    } else if x.cur < x.max {
      s' := Put(Taken(s, t), i, Leaving(m));
    } else {
      s' := Put(s, i, Leaving(m));
    }
  }

  lemma GroupGoesOn(s: State, g: nat) returns (r: nat)
    requires Inv(s) && g < |s.groups| && s.groups[g].cur < s.groups[g].max
    ensures r < |s.targets| && s.targets[r].group == Some(g) && IsRoot(s, g, r)
  {
    hide OwnersOk, Sum, ThreadOk, AtMost;
    assert GroupOk(s, g);
    forall t | 0 <= t < |s.targets| ensures s.targets[t].max > 0 { assert TargetOk(s, t); }
    SomeMember(s.targets, g);
    r := RootExists(s, g, |s.targets|);
  }

  /** Who is blocked on a free mutex can lock it. */
  lemma LocksFree(s: State, i: nat) returns (s': State)
    requires i < |s.threads| && Wants(s.threads[i]).Some? && Wants(s.threads[i]).value !in s.owner
    ensures Step(s, i, Go, s')
  {
    match s.threads[i] {
      case LockTarget(t, op) => s' := Locked(s, i, OfTarget(t), ReadGroup(t, op)).value;
      case LockGroup(t, g, op) => s' := Locked(s, i, OfGroup(g), UnlockTarget(t, g, op)).value;
      case ChangeStart(t, g, add) => s' := Locked(s, i, OfTarget(t), ChangeHalf(t, g, add)).value;
      case ChangeHalf(t, g, add) => s' := Locked(s, i, OfGroup(g), ChangeInside(t, g, add)).value;
      case GroupStart(g) => s' := Locked(s, i, OfGroup(g), GroupInside(g)).value;
    }
  }

  /** Neither before its next call nor in `pthread_cond_wait`. */
  predicate Busy(p: Pc) { !p.Idle? && !p.Asleep? && !p.GroupAsleep? }

  lemma HoldsOrWants(p: Pc)
    requires Busy(p)
    ensures Holds(p) != {} || Wants(p).Some?
  {
    match p
    case ReadGroup(t, _) => assert OfTarget(t) in Holds(p);
    case UnlockTarget(t, _, _) => assert OfTarget(t) in Holds(p);
    case Inside(_, m, _) => assert m in Holds(p);
    case Leaving(m) => assert m in Holds(p);
    case ChangeInside(t, _, _) => assert OfTarget(t) in Holds(p);
    case ChangeDone(t, _) => assert OfTarget(t) in Holds(p);
    case GroupInside(g) => assert OfGroup(g) in Holds(p);
    case _ =>
  }

  /** While any thread is busy, some thread can make a step: it itself, or whoever holds the
      mutex that it wants, or whoever holds the mutex that this one wants in turn. */
  lemma {:induction false} SomeoneGoesOn(s: State, i: nat) returns (j: nat, c: Choice, s': State)
    requires Inv(s) && i < |s.threads| && Busy(s.threads[i])
    ensures Step(s, j, c, s')
    decreases if Holds(s.threads[i]) == {} then 2 else if Wants(s.threads[i]).Some? then 1 else 0
  {
    hide Inv, Step, Holds;
    HoldsOrWants(s.threads[i]);
    var w := Wants(s.threads[i]);
    if w == None {
      j := i;
      c, s' := HoldersGoOn(s, i);
    } else if w.value !in s.owner {
      j, c := i, Go;
      s' := LocksFree(s, i);
    } else {
      OwnerIsBusy(s, i);
      j, c, s' := SomeoneGoesOn(s, s.owner[w.value]);
    }
  }

  /** Whoever is waited for is busy, and nearer to the end of the chain. */
  lemma OwnerIsBusy(s: State, i: nat)
    requires Inv(s) && i < |s.threads| && Wants(s.threads[i]).Some? && Wants(s.threads[i]).value in s.owner
    ensures var k := s.owner[Wants(s.threads[i]).value];
            && k < |s.threads| && Busy(s.threads[k]) && Holds(s.threads[k]) != {}
            && (Holds(s.threads[i]) != {} ==> Wants(s.threads[k]) == None)
  {
    hide GroupOk, TargetOk, ThreadOk;
    var m := Wants(s.threads[i]).value;
    NoCycle(s, s.owner[m], m);
    assert m in Holds(s.threads[s.owner[m]]) by { hide Holds; }
  }
}
