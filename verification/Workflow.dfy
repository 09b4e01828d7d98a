/** The tasks of a series in `factory/Workflow.cc`: a ring buffer that doubles when it is
    full, and behind it the optional last task. */
module Workflow {

  // ---------- The ring ----------

  /** What a ring holds from `front` up to, not including, `back`, around its end. */
  ghost function Ring<T>(a: seq<T>, front: nat, back: nat): seq<T>
    requires front < |a| && back < |a|
  {
    if front <= back then a[front..back] else a[front..] + a[..back]
  }

  /** All of a ring, from `front` on. */
  ghost function FullRing<T>(a: seq<T>, front: nat): seq<T>
    requires front <= |a|
  {
    a[front..] + a[..front]
  }

  lemma FullAt<T>(a: seq<T>, front: nat, i: nat)
    requires front <= |a| && i < |a|
    ensures |FullRing(a, front)| == |a|
    ensures FullRing(a, front)[i] == a[if i < |a| - front then front + i else i - (|a| - front)]
  {
  }

  function Next(i: nat, size: nat): nat { if i + 1 == size then 0 else i + 1 }

  function Prev(i: nat, size: nat): nat
    requires size > 0
  {
    if i == 0 then size - 1 else i - 1
  }

  /** Storing at `back`; when that fills the ring, all of it is in use. */
  lemma StoreBack<T>(a: seq<T>, front: nat, back: nat, x: T)
    requires front < |a| && back < |a|
    ensures var b, next := a[back := x], Next(back, |a|);
            if front == next then FullRing(b, front) == Ring(a, front, back) + [x]
            else Ring(b, front, next) == Ring(a, front, back) + [x]
  {
    var b := a[back := x];
    if back + 1 == |a| {
      assert b[front..] == a[front..back] + [x] && b[..0] == [];
    } else if front <= back {
      assert b[front..back + 1] == a[front..back] + [x];
    } else {
      assert b[front..] == a[front..] && b[..back + 1] == a[..back] + [x];
      assert a[front..] + (a[..back] + [x]) == a[front..] + a[..back] + [x];
    }
  }

  lemma StoreFront<T>(a: seq<T>, front: nat, back: nat, x: T)
    requires front < |a| && back < |a|
    ensures var prev := Prev(front, |a|);
            var b := a[prev := x];
            if prev == back then FullRing(b, prev) == [x] + Ring(a, front, back)
            else Ring(b, prev, back) == [x] + Ring(a, front, back)
  {
    var prev := Prev(front, |a|);
    var b := a[prev := x];
    if front == 0 {
      assert b[prev..] == [x] && b[..back] == a[..back] == a[0..back];
    } else if front <= back {
      assert b[prev..back] == [x] + a[front..back];
    } else {
      assert b[prev..] == [x] + a[front..] && b[..back] == a[..back];
      assert [x] + a[front..] + a[..back] == [x] + (a[front..] + a[..back]);
    }
  }

  lemma TakeFront<T>(a: seq<T>, front: nat, back: nat)
    requires front < |a| && back < |a| && front != back
    ensures Ring(a, front, back) == [a[front]] + Ring(a, Next(front, |a|), back)
  {
    if front < back {
      assert a[front..back] == [a[front]] + a[front + 1..back];
    } else if front + 1 == |a| {
      assert a[front..] == [a[front]];
      assert a[0..back] == a[..back];
    } else {
      assert a[front..] == [a[front]] + a[front + 1..];
      assert [a[front]] + a[front + 1..] + a[..back] == [a[front]] + (a[front + 1..] + a[..back]);
    }
  }

  lemma RingFromZero<T>(a: seq<T>, n: nat)
    requires n < |a|
    ensures Ring(a, 0, n) == a[..n]
  {
  }

  /** The first entry of a ring, and what is pending without it. */
  lemma TakePending<T>(a: seq<T>, front: nat, back: nat, l: seq<T>)
    requires front < |a| && back < |a| && front != back
    ensures var was, now := Ring(a, front, back), Ring(a, Next(front, |a|), back);
            && was + l != [] && (was + l)[0] == a[front] && (was + l)[1..] == now + l
            && a[front] in was && forall y <- now :: y in was
  {
    TakeFront(a, front, back);
    hide Ring;
    var now := Ring(a, Next(front, |a|), back);
    assert [a[front]] + now + l == [a[front]] + (now + l);
  }

  lemma RingStart<T>(a: seq<T>, front: nat)
    requires front < |a|
    ensures Ring(a, front, front) == []
  {
  }

  // ---------- The series ----------

  class SubTask {
    var pointer: SeriesWork?

    constructor ()
      ensures pointer == null
    {
      pointer := null;
    }
  }

  class SeriesWork {
    var first: SubTask
    var last: SubTask?
    var queue: array<SubTask?>
    var queueSize: nat
    var front: int
    var back: int
    var inParallel: bool
    var canceled: bool
    var callback: bool

    /** The tasks that were deleted, how often the callback has run, and whether the
        series itself is still there. */
    ghost var deleted: seq<SubTask?>
    ghost var calls: nat
    ghost var alive: bool

    ghost predicate Valid()
      reads this`alive, this`queue, this`queueSize, this`front, this`back, queue
    {
      && alive && queue.Length == queueSize >= 4 && 0 <= front < queueSize && 0 <= back < queueSize
      && null !in Ring(queue[..], front, back)
    }

    /** The deque. */
    ghost function Contents(): seq<SubTask?>
      reads this`alive, this`queue, this`queueSize, this`front, this`back, queue
      requires Valid()
    {
      Ring(queue[..], front, back)
    }

    /** The tasks in the order in which `pop` gives them. */
    ghost function Pending(): seq<SubTask?>
      reads this`alive, this`queue, this`queueSize, this`front, this`back, this`last, queue
      requires Valid()
    {
      Contents() + if last != null then [last] else []
    }

    constructor (task: SubTask, cb: bool)
      modifies task`pointer
      ensures Valid() && Pending() == [] && first == task && task.pointer == this && callback == cb
      ensures !inParallel && !canceled && deleted == [] && calls == 0 && fresh(queue)
    {
      first, last := task, null;
      queue := new SubTask?[4](i => null);
      queueSize, front, back := 4, 0, 0;
      inParallel, canceled, callback := false, false, cb;
      deleted, calls, alive := [], 0, true;
      new;
      task.pointer := this;
    }

    /** A full ring moves to the beginning of an array of twice the size. */
    method ExpandQueue()
      requires alive && queue.Length == queueSize >= 4 && 0 <= front == back < queueSize
      requires null !in FullRing(queue[..], front)
      modifies this`queue, this`queueSize, this`front, this`back
      ensures Valid() && Contents() == FullRing(old(queue[..]), old(front)) && fresh(queue)
    {
      hide FullRing, Ring;
      var size := 2 * queueSize;
      var bigger := new SubTask?[size](k => null);
      var i, j := 0, front;
      ghost var full := FullRing(queue[..], front);
      FullAt(queue[..], front, 0);
      while true
        invariant 0 <= i < queueSize && 0 <= j < queueSize && j == (if i < queueSize - front then front + i
                  else i - (queueSize - front))
        invariant bigger[..i] == full[..i] && |full| == queueSize
        decreases queueSize - i
        modifies bigger
      {
        FullAt(queue[..], front, i);
        bigger[i] := queue[j];
        assert bigger[..i + 1] == full[..i + 1];
        i, j := i + 1, j + 1;
        if j == queueSize {
          j := 0;
        }
        if j == back {
          break;
        }
      }
      assert bigger[..i] == full;
      RingFromZero(bigger[..], i);
      queue, queueSize, front, back := bigger, size, 0, i;
    }

    method PushFront(task: SubTask)
      requires Valid()
      modifies this`queue, this`queueSize, this`front, this`back, queue, task`pointer
      ensures Valid() && Contents() == [task] + old(Contents()) && task.pointer == this
      ensures queue == old(queue) || fresh(queue)
    {
      StoreFront(queue[..], front, back, task);
      ghost var was := queue[..];
      front := front - 1;
      if front == -1 {
        front := queueSize - 1;
      }
      task.pointer := this;
      queue[front] := task;
      assert queue[..] == was[front := task];
      if front == back {
        ExpandQueue();
      }
    }

    method PushBack(task: SubTask)
      requires Valid()
      modifies this`queue, this`queueSize, this`back, this`front, queue, task`pointer
      ensures Valid() && Contents() == old(Contents()) + [task] && task.pointer == this
      ensures queue == old(queue) || fresh(queue)
    {
      StoreBack(queue[..], front, back, task);
      ghost var was := queue[..];
      task.pointer := this;
      queue[back] := task;
      assert queue[..] == was[back := task];
      back := back + 1;
      if back == queueSize {
        back := 0;
      }
      if front == back {
        ExpandQueue();
      }
    }

    method SetLastTask(task: SubTask)
      requires Valid()
      modifies this`last, task`pointer
      ensures Valid() && Contents() == old(Contents()) && task.pointer == this
      ensures Pending() == Contents() + [task]
    {
      task.pointer := this;
      last := task;
    }

    method Cancel()
      modifies this`canceled
      ensures canceled
    {
      canceled := true;
    }

    /** The front of a ring that is not empty. */
    method TakeFromRing() returns (task: SubTask?)
      requires Valid() && front != back
      modifies this`front
      ensures Valid() && old(Pending()) != [] && task != null
      ensures task == old(Pending())[0] && Pending() == old(Pending())[1..]
    {
      hide Ring;
      TakePending(queue[..], front, back, if last != null then [last] else []);
      task := queue[front];
      front := front + 1;
      if front == queueSize {
        front := 0;
      }
      assert front == Next(old(front), queueSize);
    }

    /** The part of `pop_task` under the mutex. */
    method TakeTask() returns (task: SubTask?)
      requires Valid()
      modifies this`front, this`last
      ensures Valid()
      ensures if old(Pending()) == [] then task == null && Pending() == []
              else task != null && task == old(Pending())[0] && Pending() == old(Pending())[1..]
    {
      RingStart(queue[..], front);
      hide Ring;
      if front != back {
        task := TakeFromRing();
      } else {
        task := last;
        last := null;
      }
    }

    /** The next task; without one the series ends: its callback runs, and it goes unless a
        parallel work owns it. */
    method PopTask() returns (task: SubTask?)
      requires Valid()
      modifies this`front, this`last, this`calls, this`alive
      ensures old(Pending()) != [] ==> Valid() && task == old(Pending())[0] && Pending() == old(Pending())[1..]
      ensures old(Pending()) != [] ==> calls == old(calls)
      ensures task == null <==> old(Pending()) == []
      ensures task == null ==> calls == old(calls) + (if callback then 1 else 0) && alive == inParallel
      ensures task == null && alive ==> Valid() && Pending() == []
    {
      hide Ring;
      task := TakeTask();
      if task == null {
        if callback {
          calls := calls + 1;
        }
        alive := inParallel;
      }
    }

    /** Once canceled, a pop deletes everything that is left and ends the series. */
    method Pop() returns (task: SubTask?)
      requires Valid()
      modifies this`front, this`last, this`calls, this`alive, this`deleted
      ensures old(Pending()) != [] && !canceled ==>
                && Valid() && task == old(Pending())[0] && Pending() == old(Pending())[1..]
                && calls == old(calls) && deleted == old(deleted)
      ensures old(Pending()) == [] || canceled ==>
                && task == null && calls == old(calls) + (if callback then 1 else 0) && alive == inParallel
                && deleted == old(deleted) + old(Pending()) && (alive ==> Valid() && Pending() == [])
    {
      hide Valid, Contents, Pending, Ring;
      var was := this.canceled;
      task := PopTask();
      if !was {
        return;
      }
      ghost var rest := old(Pending());
      while task != null
        invariant task != null ==> Valid() && rest == [task] + Pending() && calls == old(calls)
        invariant task == null ==>
                  && rest == [] && calls == old(calls) + (if callback then 1 else 0) && alive == inParallel
        invariant task == null && alive ==> Valid() && Pending() == []
        invariant deleted + rest == old(deleted) + old(Pending())
        decreases |rest|
      {
        deleted := deleted + [task];
        Shift(deleted, rest, old(deleted) + old(Pending()));
        rest := rest[1..];
        task := PopTask();
      }
      return null;
    }

    /** `dismiss_recursive`: the first task and all others go, without the callback. */
    method DismissRecursive()
      requires Valid()
      modifies this`front, this`last, this`calls, this`alive, this`deleted, this`inParallel, this`callback
      ensures !alive && calls == old(calls) && deleted == old(deleted) + [first] + old(Pending())
    {
      hide Valid, Contents, Pending, Ring;
      var task: SubTask? := first;
      inParallel := false;
      callback := false;
      ghost var rest := [task] + Pending();
      ghost var all := deleted + rest;
      assert all == old(deleted) + [first] + old(Pending());
      while task != null
        invariant task != null ==> Valid() && rest == [task] + Pending()
        invariant calls == old(calls) && !inParallel && !callback && (task == null ==> rest == [] && !alive)
        invariant deleted + rest == all
        decreases |rest|
      {
        deleted := deleted + [task];
        Shift(deleted, rest, all);
        rest := rest[1..];
        task := PopTask();
      }
    }
  }

  lemma Shift<T>(done: seq<T>, rest: seq<T>, all: seq<T>)
    requires rest != [] && done != [] && done[|done| - 1] == rest[0] && done[..|done| - 1] + rest == all
    ensures done + rest[1..] == all
  {
  }
}
