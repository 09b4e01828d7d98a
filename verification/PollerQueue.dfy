/** The result queue of `kernel/poller.c`: producers fill one list, consumers drain the
    other, and the two are swapped when the second is empty.  Any number of threads, one
    atomic step at a time; in every interleaving the queue is one FIFO. */
module PollerQueue {
  import opened Collections
  import opened CString

  /** Where a thread is.  `saved` is the local `get_list` of `__poller_queue_swap`. */
  datatype Pc<T> =
    | Idle
    // __poller_add_result
    | PutStart(item: T)
    | PutInside(item: T)
    // poller_queue_get
    | GetStart
    | GetInside
    | SwapStart(saved: bool)
    | SwapInside(saved: bool)
    | GetTake(cnt: nat)
    | GetDone(result: Option<T>)

  /** `getList` and `putList` choose one of the two lists.  `accepted` and `delivered`
      record what was ever put and got. */
  datatype Queue<T> = Queue(
    list1: seq<T>,
    list2: seq<T>,
    getList: bool,
    putList: bool,
    resCnt: nat,
    resMax: size_t,
    nonblock: bool,
    stopping: bool,
    accepted: seq<T>,
    delivered: seq<T>)
  {
    function At(which: bool): seq<T> { if which then list1 else list2 }

    function With(which: bool, l: seq<T>): Queue<T>
    {
      if which then this.(list1 := l) else this.(list2 := l)
    }

    /** `res_cnt > res_max - 1`, in `size_t`. */
    predicate Full() { resCnt > SizeT(resMax - 1) }

    /** `list_add_tail` and `res_cnt++` */
    function Added(x: T): Queue<T>
    {
      With(putList, At(putList) + [x]).(resCnt := resCnt + 1, accepted := accepted + [x])
    }

    /** `list_del` of the first entry */
    function Taken(): Queue<T>
      requires At(getList) != []
    {
      With(getList, At(getList)[1..]).(delivered := delivered + [At(getList)[0]])
    }
  }

  datatype State<T> = State(q: Queue<T>, getMutex: Option<nat>, putMutex: Option<nat>, threads: seq<Pc<T>>)

  function Put<T>(s: State<T>, i: nat, p: Pc<T>): State<T>
    requires i < |s.threads|
  {
    s.(threads := s.threads[i := p])
  }

  /** What a caller, or whoever stops the poller, may do on its own. */
  datatype Choice<T> = PutItem(item: T) | GetItem | SetNonblock | SetBlock | SetStopping | Go

  /** What a thread inside a critical section does to the queue, and where it goes. */
  function Work<T>(q: Queue<T>, p: Pc<T>): (Queue<T>, Pc<T>)
  {
    match p
    case PutInside(x) =>
      if q.Full() && !q.stopping then (q, PutStart(x)) else (q.Added(x), Idle)
    case GetInside =>
      if q.At(q.getList) != [] then (q.Taken(), GetDone(Some(q.At(q.getList)[0])))
      else (q.(getList := q.putList), SwapStart(q.getList))
    case SwapInside(saved) =>
      if q.resCnt == 0 && !q.nonblock then (q, SwapStart(saved))
      else (q.(putList := saved, resCnt := 0), GetTake(q.resCnt))
    case GetTake(cnt) =>
      if cnt > 0 && q.At(q.getList) != [] then (q.Taken(), GetDone(Some(q.At(q.getList)[0])))
      else (q, GetDone(None))
    case _ => (q, p)
  }

  /** Thread `i` makes one step. */
  predicate Step<T(==)>(s: State<T>, i: nat, c: Choice<T>, s': State<T>)
  {
    && i < |s.threads|
    && match s.threads[i]
       case Idle =>
         match c {
           case PutItem(x) => s' == Put(s, i, PutStart(x))
           case GetItem => s' == Put(s, i, GetStart)
           case SetNonblock => s' == s.(q := s.q.(nonblock := true))
           case SetBlock => s' == s.(q := s.q.(nonblock := false))
           case SetStopping => s' == s.(q := s.q.(stopping := true))
           case Go => false
         }
       case PutStart(x) => s.putMutex == None && s' == Put(s, i, PutInside(x)).(putMutex := Some(i))
       case GetStart => s.getMutex == None && s' == Put(s, i, GetInside).(getMutex := Some(i))
       case SwapStart(saved) => s.putMutex == None && s' == Put(s, i, SwapInside(saved)).(putMutex := Some(i))
       case GetDone(_) => s' == Put(s, i, Idle).(getMutex := None)
       case p =>
         var (q, next) := Work(s.q, p);
         s' == Put(s, i, next).(q := q, putMutex := if p.PutInside? || p.SwapInside? then None else s.putMutex)
  }

  // ---------- What every step keeps ----------

  predicate HoldsGet<T>(p: Pc<T>)
  {
    p.GetInside? || p.SwapStart? || p.SwapInside? || p.GetTake? || p.GetDone?
  }

  predicate HoldsPut<T>(p: Pc<T>) { p.PutInside? || p.SwapInside? }

  ghost predicate MutexesOk<T>(s: State<T>)
  {
    && (s.getMutex.Some? ==> s.getMutex.value < |s.threads| && HoldsGet(s.threads[s.getMutex.value]))
    && (s.putMutex.Some? ==> s.putMutex.value < |s.threads| && HoldsPut(s.threads[s.putMutex.value]))
    && (forall i :: 0 <= i < |s.threads| && HoldsGet(s.threads[i]) ==> s.getMutex == Some(i))
    && (forall i :: 0 <= i < |s.threads| && HoldsPut(s.threads[i]) ==> s.putMutex == Some(i))
  }

  /** Both pointers name the same list exactly while a consumer, at `p`, is swapping;
      then the other list is the one it saved, and it is empty. */
  predicate ListsOk<T(==)>(q: Queue<T>, p: Pc<T>)
  {
    match p
    case SwapStart(saved) => q.getList == q.putList != saved && q.At(saved) == []
    case SwapInside(saved) => q.getList == q.putList != saved && q.At(saved) == []
    case GetTake(cnt) => q.getList != q.putList && cnt == |q.At(q.getList)|
    case _ => q.getList != q.putList
  }

  /** The queue as its users see it: what is to be got first comes first. */
  function Pending<T>(q: Queue<T>): seq<T>
  {
    if q.getList == q.putList then q.At(q.putList) else q.At(q.getList) + q.At(q.putList)
  }

  /** Where the consumer is that holds `get_mutex`, if any. */
  function Consumer<T>(s: State<T>): Pc<T>
  {
    if s.getMutex.Some? && s.getMutex.value < |s.threads| then s.threads[s.getMutex.value] else Idle
  }

  predicate QueueOk<T(==)>(q: Queue<T>, p: Pc<T>)
  {
    && ListsOk(q, p)
    && q.resCnt == |q.At(q.putList)|
    && q.accepted == q.delivered + Pending(q)
    && (q.resMax > 0 ==> q.resCnt <= q.resMax || q.stopping)
  }

  ghost predicate Inv<T>(s: State<T>) { MutexesOk(s) && QueueOk(s.q, Consumer(s)) }

  ghost predicate Initial<T>(s: State<T>)
  {
    && s.q == Queue([], [], true, false, 0, s.q.resMax, false, false, [], [])
    && s.getMutex == None && s.putMutex == None
    && forall i :: 0 <= i < |s.threads| ==> s.threads[i] == Idle
  }

  /** What a step does to the mutexes. */
  lemma StepMutexes<T>(s: State<T>, i: nat, c: Choice<T>, s': State<T>)
    requires Step(s, i, c, s')
    ensures i < |s.threads| == |s'.threads| && s'.threads == s.threads[i := s'.threads[i]]
    ensures var (p, p') := (s.threads[i], s'.threads[i]);
            && (HoldsGet(p') == HoldsGet(p) ==> s'.getMutex == s.getMutex)
            && (HoldsGet(p') && !HoldsGet(p) ==> s.getMutex == None && s'.getMutex == Some(i))
            && (!HoldsGet(p') && HoldsGet(p) ==> s'.getMutex == None)
            && (HoldsPut(p') == HoldsPut(p) ==> s'.putMutex == s.putMutex)
            && (HoldsPut(p') && !HoldsPut(p) ==> s.putMutex == None && s'.putMutex == Some(i))
            && (!HoldsPut(p') && HoldsPut(p) ==> s'.putMutex == None)
  {
  }

  lemma MutexesKept<T>(s: State<T>, i: nat, c: Choice<T>, s': State<T>)
    requires MutexesOk(s) && Step(s, i, c, s')
    ensures MutexesOk(s')
  {
    StepMutexes(s, i, c, s');
    hide Step, HoldsGet, HoldsPut;
  }

  lemma Snoc<T>(d: seq<T>, a: seq<T>, b: seq<T>, x: T)
    ensures d + (a + b) + [x] == d + (a + (b + [x])) && d + b + [x] == d + (b + [x])
  {
  }

  lemma Uncons<T>(d: seq<T>, l: seq<T>, b: seq<T>)
    requires l != []
    ensures d + (l + b) == d + [l[0]] + (l[1..] + b)
    ensures (l + b)[0] == l[0] && (l + b)[1..] == l[1..] + b
  {
  }

  /** A producer adds behind everything pending, also while the lists are being swapped. */
  lemma AddedLast<T>(q: Queue<T>, p: Pc<T>, x: T)
    requires QueueOk(q, p) && (q.Full() ==> q.stopping)
    ensures QueueOk(q.Added(x), p) && Pending(q.Added(x)) == Pending(q) + [x]
  {
    Snoc(q.delivered, q.At(q.getList), q.At(q.putList), x);
    if q.resMax > 0 && !q.Full() { BelowMax(q); }
  }

  lemma BelowMax<T>(q: Queue<T>)
    requires !q.Full() && q.resMax > 0
    ensures q.resCnt < q.resMax
  {
    assert SizeT(q.resMax - 1) == q.resMax - 1;
  }

  /** A consumer takes what has been pending longest. */
  lemma TakenFirst<T>(q: Queue<T>)
    requires q.getList != q.putList && q.At(q.getList) != [] && q.accepted == q.delivered + Pending(q)
    ensures Pending(q) != [] && Pending(q.Taken()) == Pending(q)[1..]
    ensures q.Taken().delivered == q.delivered + [Pending(q)[0]]
    ensures q.accepted == q.Taken().delivered + Pending(q.Taken())
  {
    var t := q.Taken();
    assert t.At(t.getList) == q.At(q.getList)[1..] && t.At(t.putList) == q.At(q.putList);
    Uncons(q.delivered, q.At(q.getList), q.At(q.putList));
  }

  /** The holder of `get_mutex` takes from its list, or begins to swap when it is empty. */
  lemma GetWorks<T>(q: Queue<T>, p: Pc<T>)
    requires QueueOk(q, p) && p.GetInside?
    ensures QueueOk(Work(q, p).0, Work(q, p).1)
  {
    if q.At(q.getList) != [] {
      TakenFirst(q);
      hide Pending;
    } else {
      assert q.At(q.getList) + q.At(q.putList) == q.At(q.putList);
    }
  }

  /** It waits, or the lists change places. */
  lemma SwapWorks<T>(q: Queue<T>, p: Pc<T>)
    requires QueueOk(q, p) && p.SwapInside?
    ensures QueueOk(Work(q, p).0, Work(q, p).1)
  {
    var r := Work(q, p).0;
    assert r.putList != r.getList ==> Pending(r) == q.At(q.putList) + [];
  }

  /** It takes from the list that it has got, if there is anything in it. */
  lemma TakeWorks<T>(q: Queue<T>, p: Pc<T>)
    requires QueueOk(q, p) && p.GetTake?
    ensures QueueOk(Work(q, p).0, Work(q, p).1)
  {
    if q.At(q.getList) != [] { TakenFirst(q); }
  }

  lemma SameConsumer<T>(s: State<T>, i: nat, c: Choice<T>, s': State<T>)
    requires MutexesOk(s) && Step(s, i, c, s')
    ensures !HoldsGet(s.threads[i]) && !HoldsGet(s'.threads[i]) ==> Consumer(s') == Consumer(s)
    ensures HoldsGet(s.threads[i]) ==> Consumer(s) == s.threads[i]
    ensures HoldsGet(s'.threads[i]) ==> Consumer(s') == s'.threads[i]
    ensures !HoldsGet(s'.threads[i]) && HoldsGet(s.threads[i]) ==> Consumer(s') == Idle
    ensures HoldsGet(s'.threads[i]) && !HoldsGet(s.threads[i]) ==> Consumer(s) == Idle
  {
    StepMutexes(s, i, c, s');
    hide Step;
  }

  /** Mutexes, pointers and counter stay consistent, and nothing is lost, duplicated or
      reordered: what was accepted is what was delivered and then what is pending. */
  lemma InvKept<T>(s: State<T>, i: nat, c: Choice<T>, s': State<T>)
    requires Inv(s) && Step(s, i, c, s')
    ensures Inv(s')
  {
    hide MutexesOk, Consumer;
    MutexesKept(s, i, c, s');
    SameConsumer(s, i, c, s');
    var p := s.threads[i];
    if p.PutInside? {
      if !s.q.Full() || s.q.stopping { AddedLast(s.q, Consumer(s), p.item); }
    } else if p.GetInside? {
      GetWorks(s.q, p);
    } else if p.SwapInside? {
      SwapWorks(s.q, p);
    } else if p.GetTake? {
      TakeWorks(s.q, p);
    }
  }

  lemma InitialInv<T>(s: State<T>)
    requires Initial(s)
    ensures Inv(s)
  {
  }

  ghost predicate Steps<T(!new)>(s: State<T>, s': State<T>) { exists i: nat, c :: Step(s, i, c, s') }

  ghost predicate IsRun<T(!new)>(run: seq<State<T>>)
  {
    run != [] && Initial(run[0]) && forall k :: 0 < k < |run| ==> Steps(run[k - 1], run[k])
  }

  /** In every interleaving the consumers receive, in order, a prefix of what the
      producers put; the rest is pending; and the counter keeps to its limit. */
  lemma {:induction false} RunsAreFifo<T(!new)>(run: seq<State<T>>, k: nat)
    requires IsRun(run) && k < |run|
    ensures Inv(run[k])
    ensures run[k].q.delivered <= run[k].q.accepted
    ensures run[k].q.accepted[|run[k].q.delivered|..] == Pending(run[k].q)
    ensures run[k].q.resMax > 0 && !run[k].q.stopping ==> run[k].q.resCnt <= run[k].q.resMax
  {
    hide Step, Initial;
    if k == 0 {
      InitialInv(run[0]);
    } else {
      RunsAreFifo(run, k - 1);
      assert Steps(run[k - 1], run[k]);
      var i: nat, c :| Step(run[k - 1], i, c, run[k]);
      InvKept(run[k - 1], i, c, run[k]);
    }
  }

  /** What a call returns: the next accepted item; or nothing, and then only because the
      queue was empty and set to non-blocking when the lists were swapped. */
  lemma CallsReturnInOrder<T>(s: State<T>, i: nat, c: Choice<T>, s': State<T>)
    requires Inv(s) && Step(s, i, c, s')
    ensures s'.threads[i].GetDone? && s'.threads[i].result.Some? ==>
            |s.q.delivered| < |s.q.accepted| && s'.threads[i].result.value == s.q.accepted[|s.q.delivered|]
    ensures s'.threads[i] == GetTake(0) ==> s.q.nonblock && Pending(s.q) == []
    ensures s.threads[i] == GetTake(0) <==> s'.threads[i] == GetDone(None)
  {
    hide MutexesOk, Consumer;
    SameConsumer(s, i, c, s');
    if s.threads[i].GetInside? || s.threads[i].GetTake? {
      if s.q.At(s.q.getList) != [] { TakenFirst(s.q); }
    }
  }

  /** A put is let in exactly when the queue has room or the poller is stopping; otherwise the
      producer waits, and the queue stays as it is.  A limit of 0 is none. */
  lemma PutsWithRoom<T>(s: State<T>, i: nat, c: Choice<T>, s': State<T>)
    requires Inv(s) && Step(s, i, c, s') && s.threads[i].PutInside? && |s.q.At(s.q.putList)| < TWO_64
    ensures var x, room := s.threads[i].item, s.q.resMax == 0 || |s.q.At(s.q.putList)| < s.q.resMax;
            if room || s.q.stopping then
              s'.threads[i] == Idle && s'.q.accepted == s.q.accepted + [x] && Pending(s'.q) == Pending(s.q) + [x]
            else
              s'.threads[i] == PutStart(x) && s'.q == s.q
  {
    hide MutexesOk;
    if s.q.resMax > 0 { assert SizeT(s.q.resMax - 1) == s.q.resMax - 1; }
    if !s.q.Full() || s.q.stopping { AddedLast(s.q, Consumer(s), s.threads[i].item); }
  }

  /** Producers and consumers never work on the same list: when a consumer takes from
      its list, the other pointer names the other list. */
  lemma ListsAreApart<T>(s: State<T>, i: nat)
    requires Inv(s) && i < |s.threads| && (s.threads[i].GetInside? || s.threads[i].GetTake?)
    ensures s.q.getList != s.q.putList
  {
  }
}
