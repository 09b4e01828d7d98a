/** `kernel/Executor.cc` on `kernel/thrdpool.c`: each queue keeps its sessions in a list
    and has one pool task for it while the list is not empty.  Any number of clients,
    workers and queues, one critical section (or call between two) at a time. */
module Executor {
  import opened Collections

  /** Where a thread is.  The first four are clients, the others workers of the pool. */
  datatype Pc<T> =
    | Idle
    // Executor::request
    | ReqStart(session: T, queue: nat)
    | ReqInside(session: T, queue: nat)
    | ReqSchedule(session: T, queue: nat)
    // __thrdpool_routine
    | Waiting
    | Exited
    // executor_thread_routine
    | RunStart(queue: nat)
    | RunInside(queue: nat)
    | RunSchedule(session: T, queue: nat)
    | Executing(session: T)

  /** `accepted` and `taken` record what was ever added to the list and taken from it. */
  datatype Queue<T> = Queue(list: seq<T>, owner: Option<nat>, accepted: seq<T>, taken: seq<T>)
  {
    function Added(x: T): Queue<T> { this.(list := list + [x], accepted := accepted + [x]) }

    function Taken(): Queue<T>
      requires list != []
    {
      this.(list := list[1..], taken := taken + [list[0]])
    }

    /** `list_del` of the entry that was just added */
    function Undone(): Queue<T>
      requires accepted != []
    {
      this.(list := [], accepted := accepted[..|accepted| - 1])
    }
  }

  /** How far `Executor::deinit` is.  `thrdpool_destroy` waits for the workers and then
      walks over the pending tasks, and for each `executor_cancel_tasks` walks over its
      queue.  Both loops fetch the next entry before they work on one: `more` and `inner`
      say whether the entry that was saved for the next turn is one, or the end. */
  datatype Phase<T> =
    | Open
    | Stopping
    | DrainPool(more: bool)
    | DrainList(queue: nat, more: bool, inner: bool)
    | Cancelling(session: T, queue: nat, more: bool, inner: bool)
    | Closed

  datatype State<T> = State(
    queues: seq<Queue<T>>,
    pool: seq<nat>,
    nthreads: nat,
    threads: seq<Pc<T>>,
    phase: Phase<T>,
    finished: multiset<T>,
    cancelled: multiset<T>)
  {
    function Move(i: nat, p: Pc<T>): State<T>
      requires i < |threads|
    {
      this.(threads := threads[i := p])
    }
  }

  /** What a client asks for, and whether `malloc` fails in `thrdpool_schedule`. */
  datatype Choice<T> = Request(session: T, queue: nat) | Go | NoMemory

  predicate OnQueue<T>(p: Pc<T>)
  {
    p.ReqStart? || p.ReqInside? || p.ReqSchedule? || p.RunStart? || p.RunInside? || p.RunSchedule?
  }

  /** What thread `i` does to its queue: the new queue, where the thread is then, and
      whether it has put a task for the queue into the pool; or it has to wait. */
  function Work<T>(q: Queue<T>, p: Pc<T>, i: nat, c: Choice<T>): Option<(Queue<T>, Pc<T>, bool)>
    requires OnQueue(p)
  {
    match p
    // Executor::request
    case ReqStart(x, k) => if q.owner == None then Some((q.(owner := Some(i)), ReqInside(x, k), false)) else None
    case ReqInside(x, k) =>
      if q.list == [] then Some((q.Added(x), ReqSchedule(x, k), false))
      else Some((q.Added(x).(owner := None), Idle, false))
    case ReqSchedule(x, k) =>
      if c != NoMemory then Some((q.(owner := None), Idle, true))
      else if q.accepted != [] then Some((q.Undone().(owner := None), Idle, false)) else None
    // executor_thread_routine
    case RunStart(k) => if q.owner == None then Some((q.(owner := Some(i)), RunInside(k), false)) else None
    case RunInside(k) =>
      if q.list == [] then None
      else if |q.list| > 1 then Some((q.Taken(), RunSchedule(q.list[0], k), false))
      else Some((q.Taken().(owner := None), Executing(q.list[0]), false))
    case RunSchedule(x, k) => Some((q.(owner := None), Executing(x), true))
  }

  predicate QueueStep<T(==)>(s: State<T>, i: nat, c: Choice<T>, s': State<T>)
    requires i < |s.threads|
  {
    var p := s.threads[i];
    && OnQueue(p) && p.queue < |s.queues|
    && var w := Work(s.queues[p.queue], p, i, c);
       && w.Some?
       && var (q, next, scheduled) := w.value;
          s' == s.Move(i, next).(queues := s.queues[p.queue := q],
                                 pool := if scheduled then s.pool + [p.queue] else s.pool)
  }

  /** A new request, the loop of `__thrdpool_routine`, and the two calls on a session.
      No thread may start a request once the workers are gone. */
  predicate OtherStep<T(==)>(s: State<T>, i: nat, c: Choice<T>, s': State<T>)
    requires i < |s.threads|
  {
    match s.threads[i]
    case Idle =>
      && c.Request? && c.queue < |s.queues| && (s.phase.Open? || s.phase.Stopping?)
      && s' == s.Move(i, ReqStart(c.session, c.queue))
    case Waiting =>
      if !s.phase.Open? then s.nthreads > 0 && s' == s.Move(i, Exited).(nthreads := s.nthreads - 1)
      else s.pool != [] && s' == s.Move(i, RunStart(s.pool[0])).(pool := s.pool[1..])
    case Executing(x) => s' == s.Move(i, Waiting).(finished := s.finished + multiset{x})
    case _ => false
  }

  predicate Gone<T>(p: Pc<T>) { p.Idle? || p.Exited? }

  /** `Executor::deinit`.  The caller's part is that no other thread makes a request once
      the workers are gone; the session that is being cancelled may make any number, from
      its `handle`.  (One that `thrdpool_schedule` refuses leaves everything as it was.) */
  ghost predicate DeinitStep<T>(s: State<T>, c: Choice<T>, s': State<T>)
  {
    match s.phase
    case Open => s' == s.(phase := Stopping)
    case Stopping =>
      && s.nthreads == 0 && s' == s.(phase := DrainPool(s.pool != []))
      && forall i :: 0 <= i < |s.threads| && !IsWorker(s.threads[i]) ==> Gone(s.threads[i])
    case DrainPool(more) =>
      if !more then s' == s.(phase := Closed)
      else
        && s.pool != [] && s.pool[0] < |s.queues|
        && s' == s.(phase := DrainList(s.pool[0], |s.pool| > 1, s.queues[s.pool[0]].list != []), pool := s.pool[1..])
    case DrainList(k, more, inner) =>
      if !inner then s' == s.(phase := DrainPool(more))
      else
        && k < |s.queues| && s.queues[k].list != []
        && s' == s.(queues := s.queues[k := s.queues[k].Taken()],
                    phase := Cancelling(s.queues[k].list[0], k, more, |s.queues[k].list| > 1))
    case Cancelling(x, k, more, inner) =>
      if c.Request? then
        && c.queue < |s.queues|
        && s' == s.(queues := s.queues[c.queue := s.queues[c.queue].Added(c.session)],
                    pool := if s.queues[c.queue].list == [] then s.pool + [c.queue] else s.pool)
      else
        c == Go && s' == s.(phase := DrainList(k, more, inner), cancelled := s.cancelled + multiset{x})
    case Closed => false
  }

  datatype Actor = Thread(i: nat) | Deinit

  ghost predicate Step<T>(s: State<T>, a: Actor, c: Choice<T>, s': State<T>)
  {
    match a
    case Thread(i) => i < |s.threads| && (QueueStep(s, i, c, s') || OtherStep(s, i, c, s'))
    case Deinit => DeinitStep(s, c, s')
  }

  // ---------- Counting over the threads ----------

  predicate IsWorker<T>(p: Pc<T>)
  {
    p.Waiting? || p.RunStart? || p.RunInside? || p.RunSchedule? || p.Executing?
  }

  /** The thread is about to schedule or to serve a pool task of queue `k`. */
  predicate HasToken<T>(p: Pc<T>, k: nat)
  {
    (p.ReqSchedule? || p.RunStart? || p.RunInside? || p.RunSchedule?) && p.queue == k
  }

  predicate Holds<T>(p: Pc<T>, k: nat)
  {
    (p.ReqInside? || p.ReqSchedule? || p.RunInside? || p.RunSchedule?) && p.queue == k
  }

  datatype Kind = Workers | Tokens(k: nat)

  function Weight<T>(p: Pc<T>, w: Kind): nat
  {
    match w
    case Workers => if IsWorker(p) then 1 else 0
    case Tokens(k) => if HasToken(p, k) then 1 else 0
  }

  function Total<T>(ps: seq<Pc<T>>, w: Kind): nat
  {
    if ps == [] then 0 else Weight(ps[0], w) + Total(ps[1..], w)
  }

  lemma {:induction false} TotalMoved<T>(ps: seq<Pc<T>>, i: nat, p: Pc<T>, w: Kind)
    requires i < |ps|
    ensures Total(ps[i := p], w) + Weight(ps[i], w) == Total(ps, w) + Weight(p, w)
  {
    if i > 0 {
      TotalMoved(ps[1..], i - 1, p, w);
      assert ps[i := p][1..] == ps[1..][i - 1 := p];
    } else {
      assert ps[i := p][1..] == ps[1..];
    }
  }

  lemma {:induction false} TotalZero<T>(ps: seq<Pc<T>>, w: Kind)
    ensures Total(ps, w) == 0 <==> forall i :: 0 <= i < |ps| ==> Weight(ps[i], w) == 0
  {
    if ps != [] {
      TotalZero(ps[1..], w);
      assert forall i :: 0 < i < |ps| ==> ps[i] == ps[1..][i - 1];
    }
  }

  /** The session that a worker has taken and not yet handled. */
  function Carried<T>(p: Pc<T>): seq<T>
  {
    if p.RunSchedule? || p.Executing? then [p.session] else []
  }

  ghost function Load<T>(p: Pc<T>): multiset<T> { multiset(Carried(p)) }

  ghost function Running<T>(ps: seq<Pc<T>>): multiset<T>
  {
    if ps == [] then multiset{} else Load(ps[0]) + Running(ps[1..])
  }

  lemma {:induction false} RunningMoved<T>(ps: seq<Pc<T>>, i: nat, p: Pc<T>)
    requires i < |ps|
    ensures Running(ps[i := p]) + Load(ps[i]) == Running(ps) + Load(p)
  {
    hide Load;
    if i > 0 {
      RunningMoved(ps[1..], i - 1, p);
      assert ps[i := p][1..] == ps[1..][i - 1 := p];
      AddFirst(Load(ps[0]), Running(ps[1..][i - 1 := p]), Load(ps[i]), Running(ps[1..]), Load(p));
    } else {
      assert ps[i := p][1..] == ps[1..];
    }
  }

  lemma AddFirst<T>(a: multiset<T>, r': multiset<T>, l: multiset<T>, r: multiset<T>, m: multiset<T>)
    requires r' + l == r + m
    ensures a + r' + l == a + r + m
  {
    forall x ensures (a + r' + l)[x] == (a + r + m)[x] {
      assert (r' + l)[x] == (r + m)[x];
    }
  }

  /** All sessions ever taken from a list, and all ever accepted. */
  ghost function AllTaken<T>(qs: seq<Queue<T>>): multiset<T>
  {
    if qs == [] then multiset{} else multiset(qs[0].taken) + AllTaken(qs[1..])
  }

  ghost function AllAccepted<T>(qs: seq<Queue<T>>): multiset<T>
  {
    if qs == [] then multiset{} else multiset(qs[0].accepted) + AllAccepted(qs[1..])
  }

  lemma {:induction false} TakenMoved<T>(qs: seq<Queue<T>>, k: nat, q: Queue<T>, more: seq<T>)
    requires k < |qs| && q.taken == qs[k].taken + more
    ensures AllTaken(qs[k := q]) == AllTaken(qs) + multiset(more)
  {
    if k > 0 {
      TakenMoved(qs[1..], k - 1, q, more);
      assert qs[k := q][1..] == qs[1..][k - 1 := q];
    } else {
      assert qs[k := q][1..] == qs[1..];
    }
  }

  lemma {:induction false} AllServed<T>(qs: seq<Queue<T>>)
    requires forall k :: 0 <= k < |qs| ==> qs[k].accepted == qs[k].taken
    ensures AllAccepted(qs) == AllTaken(qs)
  {
    if qs != [] {
      assert forall k :: 0 < k < |qs| ==> qs[k] == qs[1..][k - 1];
      AllServed(qs[1..]);
    }
  }

  // ---------- What every step keeps ----------

  /** The mutex of queue `k` names the thread that holds it. */
  ghost predicate OwnerOk<T>(s: State<T>, k: nat)
    requires k < |s.queues|
  {
    var o := s.queues[k].owner;
    o.Some? ==> o.value < |s.threads| && Holds(s.threads[o.value], k)
  }

  /** A thread that holds a mutex is named by it, and a request that found the list empty
      has it for itself until the task is scheduled. */
  ghost predicate HolderOk<T>(s: State<T>, i: nat, k: nat)
    requires i < |s.threads|
  {
    Holds(s.threads[i], k) ==> k < |s.queues| && s.queues[k].owner == Some(i) && AloneInList(s.threads[i], s.queues[k])
  }

  ghost predicate OwnersOk<T>(s: State<T>)
  {
    && (forall k: nat :: k < |s.queues| ==> OwnerOk(s, k))
    && (forall i: nat, k: nat :: i < |s.threads| ==> HolderOk(s, i, k))
  }

  ghost function TokenCount<T>(s: State<T>, k: nat): nat
  {
    multiset(s.pool)[k] + Total(s.threads, Tokens(k))
  }

  function Need<T>(q: Queue<T>): nat { if q.list != [] then 1 else 0 }

  /** The next entry that the inner loop saved is in the list of queue `k`. */
  predicate Saved<T>(p: Phase<T>, k: nat)
  {
    (p.DrainList? || p.Cancelling?) && p.queue == k && p.inner
  }

  /** A queue has one token when its list is not empty, and none otherwise; but while
      `deinit` is going to visit the rest of the list it needs none. */
  ghost predicate TokensOk<T>(s: State<T>)
  {
    && (forall k <- s.pool :: k < |s.queues|)
    && (forall k :: 0 <= k < |s.queues| ==>
          TokenCount(s, k) == if Saved(s.phase, k) then 0 else Need(s.queues[k]))
  }

  /** Each list holds, in order, what was accepted and not yet taken. */
  predicate FifoOk<T(==)>(q: Queue<T>) { q.accepted == q.taken + q.list }

  predicate AloneInList<T(==)>(p: Pc<T>, q: Queue<T>) { p.ReqSchedule? ==> q.list == [p.session] }

  ghost predicate ListsOk<T>(s: State<T>) { forall k :: 0 <= k < |s.queues| ==> FifoOk(s.queues[k]) }

  /** The session that is being cancelled. */
  ghost function InHand<T>(p: Phase<T>): multiset<T> { if p.Cancelling? then multiset{p.session} else multiset{} }

  /** What was taken is with a worker or with `deinit`, finished or cancelled. */
  ghost predicate HandledOk<T>(s: State<T>)
  {
    AllTaken(s.queues) == Running(s.threads) + s.finished + (s.cancelled + InHand(s.phase))
  }

  /** The workers are gone. */
  predicate Ended<T>(p: Phase<T>) { !p.Open? && !p.Stopping? }

  /** An entry that a loop of `deinit` saved is still the first of its list. */
  ghost predicate SavedOk<T>(s: State<T>)
  {
    match s.phase
    case DrainPool(more) => more ==> s.pool != []
    case DrainList(k, more, inner) => (more ==> s.pool != []) && k < |s.queues| && (inner ==> s.queues[k].list != [])
    case Cancelling(_, k, more, inner) =>
      (more ==> s.pool != []) && k < |s.queues| && (inner ==> s.queues[k].list != [])
    case _ => true
  }

  ghost predicate PhaseOk<T>(s: State<T>)
  {
    && s.nthreads == Total(s.threads, Workers)
    && (Ended(s.phase) ==> forall i :: 0 <= i < |s.threads| ==> Gone(s.threads[i]))
    && SavedOk(s)
  }

  ghost predicate Inv<T>(s: State<T>) { OwnersOk(s) && TokensOk(s) && ListsOk(s) && HandledOk(s) && PhaseOk(s) }

  /** The mutex in one piece of work. */
  lemma WorkOwner<T>(q: Queue<T>, p: Pc<T>, i: nat, c: Choice<T>)
    requires OnQueue(p) && Work(q, p, i, c).Some? && (Holds(p, p.queue) <==> q.owner == Some(i))
    ensures var (q', p', _) := Work(q, p, i, c).value;
            && (Holds(p, p.queue) || q.owner == None) && (OnQueue(p') ==> p'.queue == p.queue)
            && q'.owner == if Holds(p', p.queue) then Some(i) else None
  {
  }

  lemma AddedOrder<T>(q: Queue<T>, x: T)
    requires FifoOk(q)
    ensures FifoOk(q.Added(x)) && FifoOk(q.Added(x).(owner := None)) && q.Added(x).taken == q.taken + []
    ensures q.list == [] ==> q.Added(x).list == [x]
  {
  }

  lemma TakenOrder<T>(q: Queue<T>)
    requires FifoOk(q) && q.list != []
    ensures FifoOk(q.Taken()) && FifoOk(q.Taken().(owner := None))
  {
    assert q.taken + q.list == q.taken + [q.list[0]] + q.list[1..];
  }

  /** What one piece of work takes from the list. */
  function Popped<T>(q: Queue<T>, p: Pc<T>): seq<T>
  {
    if p.RunInside? && q.list != [] then [q.list[0]] else []
  }

  /** The order of the list in one piece of work. */
  lemma WorkOrder<T>(q: Queue<T>, p: Pc<T>, i: nat, c: Choice<T>)
    requires OnQueue(p) && Work(q, p, i, c).Some? && FifoOk(q) && AloneInList(p, q)
    ensures var (q', p', _) := Work(q, p, i, c).value;
            FifoOk(q') && AloneInList(p', q') && q'.taken == q.taken + Popped(q, p)
  {
    match p
    case ReqInside(x, _) => AddedOrder(q, x);
    case RunInside(_) => TakenOrder(q);
    case ReqSchedule(x, _) => assert (q.taken + [x])[..|q.taken|] == q.taken + [];
    case _ =>
  }

  lemma WorkLoad<T>(q: Queue<T>, p: Pc<T>, i: nat, c: Choice<T>)
    requires OnQueue(p) && Work(q, p, i, c).Some?
    ensures Load(Work(q, p, i, c).value.1) == Load(p) + multiset(Popped(q, p))
  {
    CarriedMore(q, p, i, c);
    hide Work, Carried, Popped, OnQueue;
  }

  lemma CarriedMore<T>(q: Queue<T>, p: Pc<T>, i: nat, c: Choice<T>)
    requires OnQueue(p) && Work(q, p, i, c).Some?
    ensures Carried(Work(q, p, i, c).value.1) == Carried(p) + Popped(q, p)
  {
    match p
    case RunSchedule(_, _) =>
    case _ =>
  }

  /** The token in one piece of work. */
  lemma WorkToken<T>(q: Queue<T>, p: Pc<T>, i: nat, c: Choice<T>)
    requires OnQueue(p) && Work(q, p, i, c).Some? && FifoOk(q) && AloneInList(p, q)
    ensures var (q', p', scheduled) := Work(q, p, i, c).value;
            && Weight(p', Tokens(p.queue)) + (if scheduled then 1 else 0) + Need(q)
               == Weight(p, Tokens(p.queue)) + Need(q')
            && (forall k: nat :: k != p.queue ==> Weight(p', Tokens(k)) == Weight(p, Tokens(k)) == 0)
            && Weight(p', Workers) == Weight(p, Workers)
  {
  }

  /** The same for a step of the whole. */
  lemma QueueStepIs<T>(s: State<T>, i: nat, c: Choice<T>, s': State<T>)
    returns (k: nat, q': Queue<T>, p': Pc<T>, more: seq<T>, scheduled: bool)
    requires i < |s.threads| && QueueStep(s, i, c, s') && OwnersOk(s) && ListsOk(s)
    ensures OnQueue(s.threads[i]) && k == s.threads[i].queue < |s.queues|
    ensures s' == s.(threads := s.threads[i := p'], queues := s.queues[k := q'],
                     pool := if scheduled then s.pool + [k] else s.pool)
    ensures (Holds(s.threads[i], k) || s.queues[k].owner == None) && (OnQueue(p') ==> p'.queue == k)
    ensures q'.owner == if Holds(p', k) then Some(i) else None
    ensures FifoOk(q') && AloneInList(p', q')
    ensures q'.taken == s.queues[k].taken + more && Load(p') == Load(s.threads[i]) + multiset(more)
    ensures Weight(p', Tokens(k)) + (if scheduled then 1 else 0) + Need(s.queues[k])
            == Weight(s.threads[i], Tokens(k)) + Need(q')
    ensures forall m: nat :: m != k ==> Weight(p', Tokens(m)) == Weight(s.threads[i], Tokens(m)) == 0
    ensures Weight(p', Workers) == Weight(s.threads[i], Workers)
  {
    var p := s.threads[i];
    k := p.queue;
    var q := s.queues[k];
    var w := Work(q, p, i, c).value;
    q', p', scheduled := w.0, w.1, w.2;
    AloneHere(s, i);
    WorkOwner(q, p, i, c);
    WorkToken(q, p, i, c);
    hide Work, FifoOk, AloneInList, Weight, Load;
    more := Popped(q, p);
    WorkOrder(q, p, i, c);
    WorkLoad(q, p, i, c);
  }

  lemma AloneHere<T>(s: State<T>, i: nat)
    requires OwnersOk(s) && ListsOk(s) && i < |s.threads| && OnQueue(s.threads[i]) && s.threads[i].queue < |s.queues|
    ensures FifoOk(s.queues[s.threads[i].queue]) && AloneInList(s.threads[i], s.queues[s.threads[i].queue])
    ensures Holds(s.threads[i], s.threads[i].queue) <==> s.queues[s.threads[i].queue].owner == Some(i)
  {
    var p := s.threads[i];
    assert HolderOk(s, i, p.queue) && OwnerOk(s, p.queue);
  }

  lemma OtherStepIs<T>(s: State<T>, i: nat, c: Choice<T>, s': State<T>)
    requires i < |s.threads| && OtherStep(s, i, c, s')
    ensures s.phase.Open? || s.phase.Stopping? || !Gone(s.threads[i])
    ensures s'.threads == s.threads[i := s'.threads[i]] && s'.queues == s.queues
    ensures s'.phase == s.phase && s'.cancelled == s.cancelled
    ensures forall k: nat :: !Holds(s.threads[i], k) && !Holds(s'.threads[i], k)
    ensures s'.nthreads + Weight(s.threads[i], Workers) == s.nthreads + Weight(s'.threads[i], Workers)
    ensures forall k <- s'.pool :: k in s.pool
  {
    assert s.pool != [] ==> s.pool == [s.pool[0]] + s.pool[1..];
  }

  lemma OtherLoad<T>(s: State<T>, i: nat, c: Choice<T>, s': State<T>)
    requires i < |s.threads| && OtherStep(s, i, c, s')
    ensures s'.finished + Load(s'.threads[i]) == s.finished + Load(s.threads[i])
  {
  }

  lemma OtherTokens<T>(s: State<T>, i: nat, c: Choice<T>, s': State<T>)
    requires i < |s.threads| && OtherStep(s, i, c, s')
    ensures (s'.pool == s.pool && forall k: nat :: Weight(s'.threads[i], Tokens(k)) == Weight(s.threads[i], Tokens(k)))
            || (&& s.pool != [] && s'.pool == s.pool[1..]
                && s.threads[i] == Waiting && s'.threads[i] == RunStart(s.pool[0]))
  {
  }

  lemma OwnersKept<T>(s: State<T>, i: nat, c: Choice<T>, s': State<T>)
    requires OwnersOk(s) && ListsOk(s) && Step(s, Thread(i), c, s')
    ensures OwnersOk(s') && ListsOk(s')
  {
    if QueueStep(s, i, c, s') {
      var k, q', p', _, _ := QueueStepIs(s, i, c, s');
      QueueOwnersKept(s, i, k, q', p', s');
      hide *;
    } else {
      OtherOwnersKept(s, i, c, s');
      hide *;
    }
  }

  lemma OtherOwnersKept<T>(s: State<T>, i: nat, c: Choice<T>, s': State<T>)
    requires OwnersOk(s) && ListsOk(s) && i < |s.threads| && OtherStep(s, i, c, s')
    ensures OwnersOk(s') && ListsOk(s')
  {
    OtherStepIs(s, i, c, s');
    hide OtherStep, Weight, Running, Holds, FifoOk, AloneInList;
    forall m: nat | m < |s'.queues| ensures OwnerOk(s', m) {
      assert OwnerOk(s, m);
    }
    forall j: nat, m: nat | j < |s'.threads| ensures HolderOk(s', j, m) {
      assert HolderOk(s, j, m);
    }
  }

  lemma QueueOwnersKept<T>(s: State<T>, i: nat, k: nat, q': Queue<T>, p': Pc<T>, s': State<T>)
    requires OwnersOk(s) && ListsOk(s) && i < |s.threads| && k < |s.queues|
    requires OnQueue(s.threads[i]) && k == s.threads[i].queue && (OnQueue(p') ==> p'.queue == k)
    requires s'.threads == s.threads[i := p'] && s'.queues == s.queues[k := q']
    requires Holds(s.threads[i], k) || s.queues[k].owner == None
    requires q'.owner == if Holds(p', k) then Some(i) else None
    requires FifoOk(q') && AloneInList(p', q')
    ensures OwnersOk(s') && ListsOk(s')
  {
    hide FifoOk, AloneInList;
    forall m: nat | m < |s'.queues| ensures OwnerOk(s', m) {
      assert OwnerOk(s, m);
    }
    forall j: nat, m: nat | j < |s'.threads| ensures HolderOk(s', j, m) {
      assert HolderOk(s, j, m) && HolderOk(s, i, m);
    }
  }

  lemma HandledKept<T>(s: State<T>, i: nat, c: Choice<T>, s': State<T>)
    requires OwnersOk(s) && ListsOk(s) && HandledOk(s) && Step(s, Thread(i), c, s')
    ensures HandledOk(s')
  {
    hide OwnersOk, ListsOk;
    if QueueStep(s, i, c, s') {
      hide QueueStep, OtherStep, Running, Load, AllTaken;
      var k, q', p', more, _ := QueueStepIs(s, i, c, s');
      RunningMoved(s.threads, i, p');
      TakenMoved(s.queues, k, q', more);
      Cancel(Running(s'.threads), Load(s.threads[i]), Running(s.threads), multiset(more));
    } else {
      hide OtherStep, Running, Load, AllTaken;
      OtherStepIs(s, i, c, s');
      OtherLoad(s, i, c, s');
      RunningMoved(s.threads, i, s'.threads[i]);
      HandOver(Running(s.threads), Load(s.threads[i]), s.finished,
               Running(s'.threads), Load(s'.threads[i]), s'.finished);
    }
  }

  lemma HandOver<T>(r: multiset<T>, l: multiset<T>, f: multiset<T>, r': multiset<T>, l': multiset<T>, f': multiset<T>)
    requires r' + l == r + l' && f' + l' == f + l
    ensures r' + f' == r + f
  {
    forall x ensures (r' + f')[x] == (r + f)[x] {
      assert (r' + l)[x] == (r + l')[x] && (f' + l')[x] == (f + l)[x];
    }
  }

  lemma Cancel<T>(a: multiset<T>, l: multiset<T>, b: multiset<T>, m: multiset<T>)
    requires a + l == b + (l + m)
    ensures a == b + m
  {
    forall x ensures a[x] == (b + m)[x] {
      assert (a + l)[x] == (b + (l + m))[x];
    }
  }

  lemma PoolTokens(pool: seq<nat>, x: nat, k: nat)
    ensures multiset(pool + [x])[k] == multiset(pool)[k] + if x == k then 1 else 0
    ensures pool != [] ==> multiset(pool[1..])[k] + (if pool[0] == k then 1 else 0) == multiset(pool)[k]
  {
    if pool != [] { assert pool == [pool[0]] + pool[1..]; }
  }

  lemma QueueCount<T>(s: State<T>, i: nat, c: Choice<T>, s': State<T>, k: nat)
    requires OwnersOk(s) && ListsOk(s) && i < |s.threads| && QueueStep(s, i, c, s') && k < |s.queues| == |s'.queues|
    ensures TokenCount(s', k) + Need(s.queues[k]) == TokenCount(s, k) + Need(s'.queues[k])
  {
    hide OwnersOk, ListsOk, Need, QueueStep, Weight, Total, Holds, Load, FifoOk, AloneInList;
    var m, q', p', _, scheduled := QueueStepIs(s, i, c, s');
    TotalMoved(s.threads, i, p', Tokens(k));
    PoolTokens(s.pool, m, k);
  }

  lemma OtherCount<T>(s: State<T>, i: nat, c: Choice<T>, s': State<T>, k: nat)
    requires i < |s.threads| && OtherStep(s, i, c, s') && k < |s.queues| == |s'.queues|
    ensures TokenCount(s', k) + Need(s.queues[k]) == TokenCount(s, k) + Need(s'.queues[k])
  {
    hide Need, OtherStep, Total, Holds, Load;
    OtherStepIs(s, i, c, s');
    OtherTokens(s, i, c, s');
    TotalMoved(s.threads, i, s'.threads[i], Tokens(k));
    PoolTokens(s.pool, 0, k);
  }

  lemma CountKept<T>(s: State<T>, i: nat, c: Choice<T>, s': State<T>, k: nat)
    requires OwnersOk(s) && ListsOk(s) && Step(s, Thread(i), c, s') && k < |s.queues| == |s'.queues|
    ensures TokenCount(s', k) + Need(s.queues[k]) == TokenCount(s, k) + Need(s'.queues[k])
  {
    hide OwnersOk, ListsOk, Need, TokenCount, QueueStep, OtherStep;
    if QueueStep(s, i, c, s') {
      QueueCount(s, i, c, s', k);
    } else {
      OtherCount(s, i, c, s', k);
    }
  }

  /** Where threads move, the workers are not all gone. */
  lemma MovesFacts<T>(s: State<T>, i: nat, c: Choice<T>, s': State<T>)
    requires OwnersOk(s) && ListsOk(s) && Step(s, Thread(i), c, s')
    ensures i < |s.threads| == |s'.threads| && |s'.queues| == |s.queues| && s'.phase == s.phase
    ensures s.phase.Open? || s.phase.Stopping? || !Gone(s.threads[i])
    ensures s'.threads == s.threads[i := s'.threads[i]]
    ensures s'.nthreads + Weight(s.threads[i], Workers) == s.nthreads + Weight(s'.threads[i], Workers)
    ensures forall k <- s'.pool :: k in s.pool || k < |s.queues|
  {
    hide OwnersOk, ListsOk, Total, Holds, Need, FifoOk, AloneInList, Load;
    if QueueStep(s, i, c, s') {
      var k, q', p', more, scheduled := QueueStepIs(s, i, c, s');
    } else {
      OtherStepIs(s, i, c, s');
    }
  }

  lemma TokensKept<T>(s: State<T>, i: nat, c: Choice<T>, s': State<T>)
    requires OwnersOk(s) && ListsOk(s) && TokensOk(s) && PhaseOk(s) && Step(s, Thread(i), c, s')
    ensures TokensOk(s')
  {
    hide TokenCount, Need, OwnersOk, ListsOk, Step, Total, Weight, Gone;
    MovesFacts(s, i, c, s');
    forall k: nat | k < |s.queues| ensures TokenCount(s', k) == Need(s'.queues[k]) {
      CountKept(s, i, c, s', k);
    }
  }

  lemma PhaseKept<T>(s: State<T>, i: nat, c: Choice<T>, s': State<T>)
    requires OwnersOk(s) && ListsOk(s) && PhaseOk(s) && Step(s, Thread(i), c, s')
    ensures PhaseOk(s')
  {
    hide OwnersOk, ListsOk, Step, Weight, Total, Gone;
    MovesFacts(s, i, c, s');
    TotalMoved(s.threads, i, s'.threads[i], Workers);
  }

  // ---------- deinit ----------

  /** Where only the queues' lists change, and all threads are gone. */
  lemma GoneOwners<T>(s: State<T>, s': State<T>)
    requires OwnersOk(s) && s'.threads == s.threads && |s'.queues| == |s.queues|
    requires forall k :: 0 <= k < |s.queues| ==> s'.queues[k].owner == s.queues[k].owner
    requires s'.queues == s.queues || forall i :: 0 <= i < |s.threads| ==> Gone(s.threads[i])
    ensures OwnersOk(s')
  {
    hide AloneInList;
    forall m: nat | m < |s'.queues| ensures OwnerOk(s', m) {
      assert OwnerOk(s, m);
    }
    forall j: nat, m: nat | j < |s'.threads| ensures HolderOk(s', j, m) {
      assert HolderOk(s, j, m);
    }
  }

  /** Only threads that are gone weigh nothing. */
  lemma AllGone<T>(s: State<T>)
    requires s.nthreads == Total(s.threads, Workers) == 0
    requires forall i :: 0 <= i < |s.threads| && !IsWorker(s.threads[i]) ==> Gone(s.threads[i])
    ensures forall i :: 0 <= i < |s.threads| ==> Gone(s.threads[i])
  {
    TotalZero(s.threads, Workers);
    forall i | 0 <= i < |s.threads| ensures Gone(s.threads[i]) {
      assert Weight(s.threads[i], Workers) == 0;
    }
  }

  /** `deinit` touches at most one queue. */
  lemma DeinitOwners<T>(s: State<T>, c: Choice<T>, s': State<T>)
    requires OwnersOk(s) && PhaseOk(s) && DeinitStep(s, c, s')
    ensures OwnersOk(s') && s'.threads == s.threads && s'.nthreads == s.nthreads && |s'.queues| == |s.queues|
  {
    hide OwnersOk, Total;
    GoneOwners(s, s');
  }

  lemma DeinitLists<T>(s: State<T>, c: Choice<T>, s': State<T>)
    requires ListsOk(s) && DeinitStep(s, c, s')
    ensures ListsOk(s')
  {
    if s.phase.DrainList? && s.phase.inner {
      TakenOrder(s.queues[s.phase.queue]);
    } else if s.phase.Cancelling? && c.Request? {
      AddedOrder(s.queues[c.queue], c.session);
    }
    hide FifoOk;
  }

  /** What `deinit` does to all that was taken, to what it has in hand and to what it has
      cancelled. */
  lemma DeinitTaken<T>(s: State<T>, c: Choice<T>, s': State<T>)
    requires DeinitStep(s, c, s')
    ensures s'.threads == s.threads && s'.finished == s.finished
    ensures if s.phase.DrainList? && s.phase.inner then
              && s'.phase.Cancelling? && s'.cancelled == s.cancelled
              && AllTaken(s'.queues) == AllTaken(s.queues) + multiset{s'.phase.session}
            else
              && AllTaken(s'.queues) == AllTaken(s.queues)
              && s'.cancelled + InHand(s'.phase) == s.cancelled + InHand(s.phase)
  {
    hide AllTaken;
    if s.phase.DrainList? && s.phase.inner {
      var k := s.phase.queue;
      TakenMoved(s.queues, k, s.queues[k].Taken(), [s.queues[k].list[0]]);
    } else if s.phase.Cancelling? && c.Request? {
      TakenMoved(s.queues, c.queue, s.queues[c.queue].Added(c.session), []);
    }
  }

  /** The session taken is in hand until it has been cancelled. */
  lemma DeinitHandled<T>(s: State<T>, c: Choice<T>, s': State<T>)
    requires HandledOk(s) && DeinitStep(s, c, s')
    ensures HandledOk(s')
  {
    hide DeinitStep, Running, AllTaken;
    DeinitTaken(s, c, s');
    InHandNow(Running(s.threads) + s.finished, s.cancelled, InHand(s'.phase));
  }

  lemma InHandNow<T>(a: multiset<T>, b: multiset<T>, x: multiset<T>)
    ensures a + (b + multiset{}) + x == a + (b + x)
  {
  }

  /** Taking the next task: its list is not empty, and all of it is going to be visited. */
  lemma TaskCount<T>(s: State<T>, c: Choice<T>, s': State<T>, k: nat)
    requires TokensOk(s) && DeinitStep(s, c, s') && s.phase.DrainPool? && s.phase.more && k < |s.queues|
    ensures TokenCount(s', k) == if Saved(s'.phase, k) then 0 else Need(s'.queues[k])
  {
    hide Total;
    PoolTokens(s.pool, 0, k);
    assert multiset(s.pool)[s.pool[0]] > 0;
  }

  /** A request from `handle` brings a token exactly when it finds the list empty. */
  lemma RequestCount<T>(s: State<T>, c: Choice<T>, s': State<T>, k: nat)
    requires TokensOk(s) && SavedOk(s) && DeinitStep(s, c, s') && s.phase.Cancelling? && c.Request? && k < |s.queues|
    ensures TokenCount(s', k) == if Saved(s'.phase, k) then 0 else Need(s'.queues[k])
  {
    hide Total;
    PoolTokens(s.pool, c.queue, k);
  }

  lemma DeinitCount<T>(s: State<T>, c: Choice<T>, s': State<T>, k: nat)
    requires TokensOk(s) && SavedOk(s) && DeinitStep(s, c, s') && k < |s.queues| == |s'.queues|
    ensures TokenCount(s', k) == if Saved(s'.phase, k) then 0 else Need(s'.queues[k])
  {
    if s.phase.DrainPool? && s.phase.more {
      TaskCount(s, c, s', k);
      hide *;
    } else if s.phase.Cancelling? && c.Request? {
      RequestCount(s, c, s', k);
      hide *;
    } else {
      hide Total;
      assert s'.pool == s.pool && s'.threads == s.threads;
      assert TokenCount(s', k) == TokenCount(s, k);
      hide TokenCount;
    }
  }

  lemma PoolKept<T>(s: State<T>, c: Choice<T>, s': State<T>)
    requires TokensOk(s) && DeinitStep(s, c, s') && |s'.queues| == |s.queues|
    ensures forall k <- s'.pool :: k < |s'.queues|
  {
    hide TokenCount;
    if s.pool != [] {
      assert forall k <- s.pool[1..] :: k in s.pool;
    }
  }

  lemma DeinitTokens<T>(s: State<T>, c: Choice<T>, s': State<T>)
    requires TokensOk(s) && PhaseOk(s) && DeinitStep(s, c, s') && |s'.queues| == |s.queues|
    ensures TokensOk(s')
  {
    PoolKept(s, c, s');
    hide DeinitStep, TokenCount, Total, SavedOk, Saved, Need, Gone;
    forall k: nat | k < |s.queues|
      ensures TokenCount(s', k) == if Saved(s'.phase, k) then 0 else Need(s'.queues[k])
    {
      DeinitCount(s, c, s', k);
    }
  }

  lemma DeinitPhase<T>(s: State<T>, c: Choice<T>, s': State<T>)
    requires PhaseOk(s) && DeinitStep(s, c, s')
    ensures PhaseOk(s')
  {
    if s.phase.Stopping? {
      AllGone(s);
    }
    hide Total, Gone;
  }

  lemma DeinitKept<T>(s: State<T>, c: Choice<T>, s': State<T>)
    requires Inv(s) && DeinitStep(s, c, s')
    ensures Inv(s')
  {
    hide DeinitStep, OwnersOk, ListsOk, TokensOk, HandledOk, PhaseOk;
    DeinitOwners(s, c, s');
    DeinitLists(s, c, s');
    DeinitHandled(s, c, s');
    DeinitTokens(s, c, s');
    DeinitPhase(s, c, s');
  }

  lemma InvKept<T>(s: State<T>, a: Actor, c: Choice<T>, s': State<T>)
    requires Inv(s) && Step(s, a, c, s')
    ensures Inv(s')
  {
    match a
    case Thread(i) =>
      hide Step, OwnersOk, ListsOk, TokensOk, HandledOk, PhaseOk;
      OwnersKept(s, i, c, s');
      HandledKept(s, i, c, s');
      TokensKept(s, i, c, s');
      PhaseKept(s, i, c, s');
    case Deinit =>
      DeinitKept(s, c, s');
      hide *;
  }

  /** Waiting sessions. */
  function Backlog<T>(qs: seq<Queue<T>>): nat { if qs == [] then 0 else |qs[0].list| + Backlog(qs[1..]) }

  lemma {:induction false} BacklogMoved<T>(qs: seq<Queue<T>>, k: nat, q: Queue<T>)
    requires k < |qs|
    ensures Backlog(qs[k := q]) + |qs[k].list| == Backlog(qs) + |q.list|
  {
    if k > 0 {
      BacklogMoved(qs[1..], k - 1, q);
      assert qs[k := q][1..] == qs[1..][k - 1 := q];
    } else {
      assert qs[k := q][1..] == qs[1..];
    }
  }

  /** What is left of a drain. */
  function Rest<T>(s: State<T>): nat
  {
    4 * |s.pool| + 3 * Backlog(s.queues) +
    match s.phase
    case DrainPool(_) => 1
    case DrainList(_, _, _) => 2
    case Cancelling(_, _, _, _) => 4
    case _ => 0
  }

  /** Once the workers are gone only `deinit` moves, and but for the requests of the
      sessions that it cancels every step of it is nearer to its end. */
  lemma DrainEnds<T>(s: State<T>, a: Actor, c: Choice<T>, s': State<T>)
    requires Inv(s) && Ended(s.phase) && Step(s, a, c, s')
    ensures a == Deinit && Ended(s'.phase) && !s.phase.Closed?
    ensures Rest(s') < Rest(s) || (s.phase.Cancelling? && c.Request?)
  {
    hide OwnersOk, TokensOk, ListsOk, HandledOk, Total, Gone;
    if a.Thread? {
      MovesFacts(s, a.i, c, s');
    } else if s.phase.DrainList? && s.phase.inner {
      BacklogMoved(s.queues, s.phase.queue, s.queues[s.phase.queue].Taken());
    }
  }

  /** It can always make such a step until it returns. */
  lemma DrainGoesOn<T>(s: State<T>)
    requires Inv(s) && Ended(s.phase) && !s.phase.Closed?
    ensures exists s' :: DeinitStep(s, Go, s')
  {
    hide OwnersOk, ListsOk, HandledOk, Total, TokenCount;
    assert s.pool != [] ==> s.pool[0] in s.pool;
    var s' := match s.phase
      case DrainPool(more) =>
        if !more then s.(phase := Closed)
        else s.(phase := DrainList(s.pool[0], |s.pool| > 1, s.queues[s.pool[0]].list != []), pool := s.pool[1..])
      case DrainList(k, more, inner) =>
        if !inner then s.(phase := DrainPool(more))
        else s.(queues := s.queues[k := s.queues[k].Taken()],
                phase := Cancelling(s.queues[k].list[0], k, more, |s.queues[k].list| > 1))
      case Cancelling(x, k, more, inner) =>
        s.(phase := DrainList(k, more, inner), cancelled := s.cancelled + multiset{x})
      case _ => s;
    assert DeinitStep(s, Go, s');
  }

  // ---------- Runs ----------

  ghost predicate Initial<T>(s: State<T>)
  {
    && s.pool == [] && s.phase.Open? && s.finished == s.cancelled == multiset{}
    && (forall k :: 0 <= k < |s.queues| ==> s.queues[k] == Queue([], None, [], []))
    && (forall i :: 0 <= i < |s.threads| ==> s.threads[i].Idle? || s.threads[i].Waiting?)
    && s.nthreads == Total(s.threads, Workers)
  }

  lemma {:induction false} NothingTaken<T>(qs: seq<Queue<T>>)
    requires forall k :: 0 <= k < |qs| ==> qs[k].taken == []
    ensures AllTaken(qs) == multiset{}
  {
    if qs != [] {
      assert forall k :: 0 < k < |qs| ==> qs[k] == qs[1..][k - 1];
      NothingTaken(qs[1..]);
    }
  }

  lemma {:induction false} NothingRunning<T>(ps: seq<Pc<T>>)
    requires forall i :: 0 <= i < |ps| ==> Load(ps[i]) == multiset{}
    ensures Running(ps) == multiset{}
  {
    if ps != [] {
      assert forall i :: 0 < i < |ps| ==> ps[i] == ps[1..][i - 1];
      NothingRunning(ps[1..]);
    }
  }

  lemma InitialTokens<T>(s: State<T>)
    requires Initial(s)
    ensures TokensOk(s) && OwnersOk(s) && ListsOk(s)
  {
    forall k: nat | k < |s.queues| ensures TokenCount(s, k) == 0 {
      TotalZero(s.threads, Tokens(k));
    }
  }

  lemma InitialInv<T>(s: State<T>)
    requires Initial(s)
    ensures Inv(s)
  {
    InitialTokens(s);
    InitialHandled(s);
    hide TokensOk, OwnersOk, ListsOk, HandledOk, Total;
  }

  lemma InitialHandled<T>(s: State<T>)
    requires Initial(s)
    ensures HandledOk(s)
  {
    hide AllTaken, Running, Total;
    NothingTaken(s.queues);
    NothingRunning(s.threads);
  }

  ghost predicate Steps<T(!new)>(s: State<T>, s': State<T>) { exists a, c :: Step(s, a, c, s') }

  ghost predicate IsRun<T(!new)>(run: seq<State<T>>)
  {
    run != [] && Initial(run[0]) && forall k :: 0 < k < |run| ==> Steps(run[k - 1], run[k])
  }

  lemma {:induction false} RunsKeepInv<T(!new)>(run: seq<State<T>>, k: nat)
    requires IsRun(run) && k < |run|
    ensures Inv(run[k])
  {
    hide Step, Initial, Inv;
    if k == 0 {
      InitialInv(run[0]);
    } else {
      RunsKeepInv(run, k - 1);
      assert Steps(run[k - 1], run[k]);
      var a, c :| Step(run[k - 1], a, c, run[k]);
      InvKept(run[k - 1], a, c, run[k]);
    }
  }

  /** In every interleaving the sessions of a queue are taken in the order in which they
      were accepted, and until the drain a queue has exactly one pool task, pending or with
      a thread that is about to serve it, while its list is not empty, and none while it
      is empty. */
  lemma SessionsAreTakenInOrder<T(!new)>(run: seq<State<T>>, n: nat, k: nat)
    requires IsRun(run) && n < |run| && k < |run[n].queues|
    ensures var q := run[n].queues[k];
            q.taken <= q.accepted && q.accepted[|q.taken|..] == q.list
    ensures !Ended(run[n].phase) ==> TokenCount(run[n], k) == if run[n].queues[k].list != [] then 1 else 0
  {
    RunsKeepInv(run, n);
    hide IsRun, OwnersOk, HandledOk;
    var q := run[n].queues[k];
    assert FifoOk(q);
  }

  /** A thread that serves a pool task finds a session in the list. */
  lemma ListNotEmpty<T>(s: State<T>, i: nat)
    requires Inv(s) && i < |s.threads| && s.threads[i].RunInside?
    ensures s.threads[i].queue < |s.queues| && s.queues[s.threads[i].queue].list != []
  {
    var k := s.threads[i].queue;
    assert HolderOk(s, i, k);
    hide OwnersOk, HandledOk, ListsOk;
    TotalZero(s.threads, Tokens(k));
    assert Weight(s.threads[i], Tokens(k)) == 1;
  }

  // ---------- After deinit ----------

  /** The outer loop has saved the end of the list of tasks: it makes no further turn. */
  predicate LastTurn<T>(p: Phase<T>)
  {
    p.Closed? || ((p.DrainPool? || p.DrainList? || p.Cancelling?) && !p.more)
  }

  /** During that turn, a session that is being cancelled makes a request that finds the
      list of its queue empty. */
  ghost predicate TooLate<T>(s: State<T>, s': State<T>)
  {
    && s.phase.Cancelling? && LastTurn(s.phase) && |s'.queues| == |s.queues|
    && exists k :: 0 <= k < |s.queues| && s.queues[k].list == [] && s'.queues[k].list != []
  }

  lemma LastTurnStays<T>(s: State<T>, a: Actor, c: Choice<T>, s': State<T>)
    requires Inv(s) && Step(s, a, c, s')
    ensures LastTurn(s.phase) ==> LastTurn(s'.phase)
    ensures TooLate(s, s') ==> LastTurn(s.phase) && s'.pool != []
    ensures LastTurn(s.phase) && !TooLate(s, s') ==> s'.pool == s.pool
    ensures !LastTurn(s.phase) && LastTurn(s'.phase) ==> s'.pool == []
  {
    hide OwnersOk, TokensOk, ListsOk, HandledOk, Total, Gone;
    match a
    case Thread(i) =>
      MovesFacts(s, i, c, s');
      hide Step;
    case Deinit =>
      if s.phase.Cancelling? && c.Request? && s.queues[c.queue].list == [] {
        assert s'.queues[c.queue].list != [];
      }
  }

  ghost predicate AnyTooLate<T>(run: seq<State<T>>, n: nat)
  {
    exists k :: 0 < k <= n && k < |run| && TooLate(run[k - 1], run[k])
  }

  /** A pool task is left behind exactly when such a request was made. */
  lemma {:induction false} LeftBehind<T(!new)>(run: seq<State<T>>, n: nat)
    requires IsRun(run) && n < |run|
    ensures if LastTurn(run[n].phase) then run[n].pool != [] <==> AnyTooLate(run, n) else !AnyTooLate(run, n)
  {
    hide Step, Inv, TooLate;
    if n > 0 {
      RunsKeepInv(run, n - 1);
      LeftBehind(run, n - 1);
      assert Steps(run[n - 1], run[n]);
      var a, c :| Step(run[n - 1], a, c, run[n]);
      LastTurnStays(run[n - 1], a, c, run[n]);
      hide IsRun, LastTurn;
      assert AnyTooLate(run, n) <==> AnyTooLate(run, n - 1) || TooLate(run[n - 1], run[n]);
    }
  }

  /** All sessions that are still in a list. */
  ghost function AllWaiting<T>(qs: seq<Queue<T>>): multiset<T>
  {
    if qs == [] then multiset{} else multiset(qs[0].list) + AllWaiting(qs[1..])
  }

  lemma {:induction false} AcceptedIs<T>(qs: seq<Queue<T>>)
    requires forall k :: 0 <= k < |qs| ==> FifoOk(qs[k])
    ensures AllAccepted(qs) == AllTaken(qs) + AllWaiting(qs)
  {
    if qs != [] {
      assert forall k :: 0 < k < |qs| ==> qs[k] == qs[1..][k - 1];
      AcceptedIs(qs[1..]);
    }
  }

  lemma {:induction false} NoneWaiting<T>(qs: seq<Queue<T>>)
    ensures AllWaiting(qs) == multiset{} <==> forall k :: 0 <= k < |qs| ==> qs[k].list == []
  {
    if qs != [] {
      NoneWaiting(qs[1..]);
      assert forall k :: 0 < k < |qs| ==> qs[k] == qs[1..][k - 1];
      if qs[0].list != [] {
        assert qs[0].list[0] in multiset(qs[0].list);
      }
    }
  }

  /** At the end a list is empty exactly when no pool task for it is left. */
  lemma ListsAtEnd<T>(s: State<T>)
    requires Inv(s) && s.phase.Closed?
    ensures s.pool == [] <==> forall k :: 0 <= k < |s.queues| ==> s.queues[k].list == []
  {
    hide OwnersOk, ListsOk, HandledOk;
    forall k: nat | k < |s.queues| ensures multiset(s.pool)[k] == Need(s.queues[k]) {
      forall i | 0 <= i < |s.threads| ensures Weight(s.threads[i], Tokens(k)) == 0 {
        assert Gone(s.threads[i]);
      }
      TotalZero(s.threads, Tokens(k));
    }
    if s.pool != [] {
      assert s.pool[0] in s.pool && multiset(s.pool)[s.pool[0]] > 0;
      assert s.queues[s.pool[0]].list != [];
    }
  }

  /** When `deinit` has returned, what was accepted has been finished or cancelled, once,
      or still waits in a list. */
  lemma NothingHandledTwice<T>(s: State<T>)
    requires Inv(s) && s.phase.Closed?
    ensures AllAccepted(s.queues) == s.finished + s.cancelled + AllWaiting(s.queues)
    ensures forall i :: 0 <= i < |s.threads| ==> Gone(s.threads[i])
  {
    hide OwnersOk, TokensOk, AllAccepted, AllTaken, AllWaiting, Total, Running, FifoOk;
    AcceptedIs(s.queues);
    NothingRunning(s.threads);
    hide Gone, Load;
    assert multiset{} + s.finished + (s.cancelled + multiset{}) == s.finished + s.cancelled;
  }

  /** So every session that was ever accepted has been handled exactly once, if and only if
      no cancelled session made a request that found its list empty while the last pending
      task was being cancelled. */
  lemma HandledExactlyOnce<T(!new)>(run: seq<State<T>>, n: nat)
    requires IsRun(run) && n < |run| && run[n].phase.Closed?
    ensures AllAccepted(run[n].queues) == run[n].finished + run[n].cancelled <==> !AnyTooLate(run, n)
    ensures !AnyTooLate(run, n) <==> forall k :: 0 <= k < |run[n].queues| ==> run[n].queues[k].list == []
  {
    RunsKeepInv(run, n);
    LeftBehind(run, n);
    ListsAtEnd(run[n]);
    NothingHandledTwice(run[n]);
    NoneWaiting(run[n].queues);
    hide IsRun, Inv, AnyTooLate, AllAccepted, AllWaiting;
    NothingAdded(run[n].finished + run[n].cancelled, AllWaiting(run[n].queues));
  }

  lemma NothingAdded<T>(a: multiset<T>, b: multiset<T>)
    ensures a + b == a <==> b == multiset{}
  {
    if b != multiset{} {
      var x :| x in b;
      assert (a + b)[x] > a[x];
    }
  }

  // ---------- A session that is lost ----------

  /** A pool with one worker, one client and one queue. */
  function Snap(queue: Queue<nat>, pool: seq<nat>, client: Pc<nat>, worker: Pc<nat>, phase: Phase<nat>,
                cancelled: multiset<nat>): State<nat>
  {
    State([queue], pool, if worker.Exited? then 0 else 1, [client, worker], phase, multiset{}, cancelled)
  }

  lemma Extended<T(!new)>(run: seq<State<T>>, a: Actor, c: Choice<T>, s': State<T>)
    requires IsRun(run) && Step(run[|run| - 1], a, c, s')
    ensures IsRun(run + [s'])
  {
    hide Step, Initial;
    var more := run + [s'];
    forall k | 0 < k < |more| ensures Steps(more[k - 1], more[k]) {
      if k < |run| {
        assert Steps(run[k - 1], run[k]);
      } else {
        assert more[k - 1] == run[|run| - 1] && more[k] == s';
        assert Step(more[k - 1], a, c, more[k]);
      }
    }
  }

  const NONE_TAKEN: Queue<nat> := Queue([1], None, [1], [])
  const ONE_TAKEN: Queue<nat> := Queue([], None, [1], [1])
  const TWO_LEFT: Queue<nat> := Queue([2], None, [1, 2], [1])

  const EMPTY: Queue<nat> := Queue([], None, [], [])

  lemma Begun()
    ensures IsRun([Snap(EMPTY, [], Idle, Waiting, Open, multiset{})])
  {
    var s := Snap(EMPTY, [], Idle, Waiting, Open, multiset{});
    assert s.threads[1..] == [Waiting] && Total(s.threads[1..], Workers) == 1;
    hide Step;
    assert Initial(s);
  }

  /** Session 1 is requested. */
  lemma Requested() returns (run: seq<State<nat>>)
    ensures IsRun(run) && run[|run| - 1] == Snap(NONE_TAKEN, [0], Idle, Waiting, Open, multiset{})
  {
    Begun();
    hide IsRun, Initial, Total;
    var q := EMPTY;
    var s0 := Snap(q, [], Idle, Waiting, Open, multiset{});
    var s1 := Snap(q, [], ReqStart(1, 0), Waiting, Open, multiset{});
    var s2 := Snap(q.(owner := Some(0)), [], ReqInside(1, 0), Waiting, Open, multiset{});
    var s3 := Snap(NONE_TAKEN.(owner := Some(0)), [], ReqSchedule(1, 0), Waiting, Open, multiset{});
    assert q.Added(1) == NONE_TAKEN;
    Extended([s0], Thread(0), Request(1, 0), s1);
    Extended([s0] + [s1], Thread(0), Go, s2);
    Extended([s0] + [s1] + [s2], Thread(0), Go, s3);
    run := [s0] + [s1] + [s2] + [s3];
    Extended(run, Thread(0), Go, Snap(NONE_TAKEN, [0], Idle, Waiting, Open, multiset{}));
    run := run + [Snap(NONE_TAKEN, [0], Idle, Waiting, Open, multiset{})];
  }

  /** `deinit` begins before a worker takes it, and session 1 is cancelled. */
  lemma CancelledFirst() returns (run: seq<State<nat>>)
    ensures IsRun(run)
    ensures run[|run| - 1] == Snap(ONE_TAKEN, [], Idle, Exited, Cancelling(1, 0, false, false), multiset{})
  {
    run := Requested();
    var s1 := Snap(NONE_TAKEN, [0], Idle, Waiting, Stopping, multiset{});
    var s2 := Snap(NONE_TAKEN, [0], Idle, Exited, Stopping, multiset{});
    var s3 := Snap(NONE_TAKEN, [0], Idle, Exited, DrainPool(true), multiset{});
    var s4 := Snap(NONE_TAKEN, [], Idle, Exited, DrainList(0, false, true), multiset{});
    var s5 := Snap(ONE_TAKEN, [], Idle, Exited, Cancelling(1, 0, false, false), multiset{});
    assert NONE_TAKEN.Taken() == ONE_TAKEN;
    hide IsRun;
    Extended(run, Deinit, Go, s1);
    Extended(run + [s1], Thread(1), Go, s2);
    Extended(run + [s1] + [s2], Deinit, Go, s3);
    Extended(run + [s1] + [s2] + [s3], Deinit, Go, s4);
    Extended(run + [s1] + [s2] + [s3] + [s4], Deinit, Go, s5);
    run := run + [s1] + [s2] + [s3] + [s4] + [s5];
  }

  /** Its `handle` requests session 2 on the same queue, as the next task of its series
      does: accepted, and never handled. */
  lemma LostSession() returns (run: seq<State<nat>>)
    ensures IsRun(run) && run[|run| - 1].phase.Closed?
    ensures run[|run| - 1].queues == [TWO_LEFT]
    ensures run[|run| - 1].finished == multiset{} && run[|run| - 1].cancelled == multiset{1}
  {
    run := CancelledFirst();
    var s1 := Snap(TWO_LEFT, [0], Idle, Exited, Cancelling(1, 0, false, false), multiset{});
    var s2 := Snap(TWO_LEFT, [0], Idle, Exited, DrainList(0, false, false), multiset{1});
    var s3 := Snap(TWO_LEFT, [0], Idle, Exited, DrainPool(false), multiset{1});
    var s4 := Snap(TWO_LEFT, [0], Idle, Exited, Closed, multiset{1});
    assert ONE_TAKEN.Added(2) == TWO_LEFT;
    hide IsRun;
    Extended(run, Deinit, Request(2, 0), s1);
    Extended(run + [s1], Deinit, Go, s2);
    Extended(run + [s1] + [s2], Deinit, Go, s3);
    Extended(run + [s1] + [s2] + [s3], Deinit, Go, s4);
    run := run + [s1] + [s2] + [s3] + [s4];
  }
}
