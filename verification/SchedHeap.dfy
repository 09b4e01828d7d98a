/** The indexed heap of `kernel/CommScheduler.cc`: targets ordered by load over
    capacity, compared by cross multiplication, each knowing its place in the heap. */
module SchedHeap {

  // ---------- The order ----------

  datatype Load = Load(cur: nat, max: nat)

  /** `target_cmp(a, b) < 0` */
  predicate Less(a: Load, b: Load) { a.cur * b.max < b.cur * a.max }

  predicate AtMost(a: Load, b: Load) { !Less(b, a) }

  /** `Less` compares the ratios of load to capacity, though it does not divide. */
  lemma LessIsOfRatios(a: Load, b: Load)
    requires a.max > 0 && b.max > 0
    ensures Less(a, b) <==> a.cur as real / a.max as real < b.cur as real / b.max as real
    ensures AtMost(a, b) <==> a.cur as real / a.max as real <= b.cur as real / b.max as real
  {
    RatioIs(a.cur, a.max);
    RatioIs(b.cur, b.max);
    var x, y := a.cur as real / a.max as real, b.cur as real / b.max as real;
    var p, q := a.max as real, b.max as real;
    assert (a.cur * b.max) as real == x * p * q && (b.cur * a.max) as real == y * q * p;
    RealScale(x, y, p * q);
  }

  lemma RatioIs(n: nat, m: nat)
    requires m > 0
    ensures n as real / m as real * m as real == n as real
  {
  }

  lemma RealScale(x: real, y: real, r: real)
    requires r > 0.0
    ensures x < y <==> x * r < y * r
  {
  }

  lemma AtMostIsOrder(a: Load, b: Load, c: Load)
    requires a.max > 0 && b.max > 0 && c.max > 0
    ensures AtMost(a, b) || AtMost(b, a)
    ensures AtMost(a, b) && AtMost(b, c) ==> AtMost(a, c)
    ensures Less(a, b) && AtMost(b, c) ==> Less(a, c)
    ensures AtMost(a, b) && Less(b, c) ==> Less(a, c)
  {
    CrossTransitive(a.cur, a.max, b.cur, b.max, c.cur, c.max);
  }

  lemma CrossTransitive(x: nat, p: nat, y: nat, q: nat, z: nat, r: nat)
    requires p > 0 && q > 0 && r > 0
    ensures x * q <= y * p && y * r <= z * q ==> x * r <= z * p
    ensures x * q < y * p && y * r <= z * q ==> x * r < z * p
    ensures x * q <= y * p && y * r < z * q ==> x * r < z * p
  {
    if x * q <= y * p && y * r <= z * q {
      CrossProducts(x, p, y, q, z, r);
      Cancel(x * r, z * p, q);
      if x * q < y * p { Scale(x * q, y * p, r); }
      if y * r < z * q { Scale(y * r, z * q, p); }
    }
  }

  /** Both comparisons, brought to the product of all three capacities. */
  lemma CrossProducts(x: nat, p: nat, y: nat, q: nat, z: nat, r: nat)
    ensures x * q * r == x * r * q && y * p * r == y * r * p && z * q * p == z * p * q
    ensures x * q <= y * p ==> x * q * r <= y * p * r
    ensures y * r <= z * q ==> y * r * p <= z * q * p
  {
    Commute(x, q, r);
    Commute(y, p, r);
    Commute(z, q, p);
    if x * q <= y * p { ScaleLe(x * q, y * p, r); }
    if y * r <= z * q { ScaleLe(y * r, z * q, p); }
  }

  lemma Commute(a: nat, b: nat, c: nat)
    ensures a * b * c == a * c * b
  {
  }

  lemma ScaleLe(a: int, b: int, q: nat)
    requires a <= b
    ensures a * q <= b * q
  {
  }

  /** A common factor may be left out. */
  lemma Cancel(a: int, b: int, q: nat)
    requires q > 0
    ensures a * q <= b * q ==> a <= b
    ensures a * q < b * q ==> a < b
  {
    if b < a { Scale(b, a, q); }
  }

  lemma {:induction false} Scale(a: int, b: int, q: nat)
    requires q > 0 && a < b
    ensures a * q < b * q
  {
    if q > 1 {
      Scale(a, b, q - 1);
      assert a * q == a * (q - 1) + a && b * q == b * (q - 1) + b;
    }
  }

  // ---------- Heap order on the loads ----------

  function Up(i: nat): nat
    requires i > 0
  {
    (i - 1) / 2
  }

  predicate Sound(h: seq<Load>)
  {
    forall i :: 0 <= i < |h| ==> h[i].max > 0
  }

  /** Place `i` is at least as loaded as its parent. */
  predicate InOrder(h: seq<Load>, i: int)
    requires 0 < i < |h|
  {
    AtMost(h[Up(i)], h[i])
  }

  predicate Ordered(h: seq<Load>)
  {
    forall i :: 0 < i < |h| ==> InOrder(h, i)
  }

  /** Everything is in order but place `k`; its parent would fit above its children. */
  ghost predicate Around(h: seq<Load>, k: int)
  {
    && 0 <= k < |h|
    && (forall i :: 0 < i < |h| && i != k && Up(i) != k ==> InOrder(h, i))
    && (k > 0 ==> forall c :: 0 < c < |h| && Up(c) == k ==> AtMost(h[Up(k)], h[c]))
  }

  predicate FitsAbove(h: seq<Load>, k: int)
    requires 0 <= k < |h|
  {
    k > 0 ==> InOrder(h, k)
  }

  ghost predicate FitsBelow(h: seq<Load>, k: int)
    requires 0 <= k < |h|
  {
    forall c :: 0 < c < |h| && Up(c) == k ==> InOrder(h, c)
  }

  function Swapped<T>(h: seq<T>, k: int, l: int): seq<T>
    requires 0 <= k < |h| && 0 <= l < |h|
  {
    h[k := h[l]][l := h[k]]
  }

  lemma SwappedSame<T>(h: seq<T>, k: int, l: int)
    requires 0 <= k < |h| && 0 <= l < |h|
    ensures forall t :: t in Swapped(h, k, l) <==> t in h
  {
    var g := Swapped(h, k, l);
    forall t | t in h ensures t in g {
      var i :| 0 <= i < |h| && h[i] == t;
      assert g[if i == k then l else if i == l then k else i] == t;
    }
  }

  lemma MoveUp(h: seq<Load>, k: int)
    requires Sound(h) && Around(h, k) && k > 0 && Less(h[k], h[Up(k)])
    ensures var g := Swapped(h, k, Up(k));
            Sound(g) && Around(g, Up(k)) && FitsBelow(g, Up(k))
  {
    var p, g := Up(k), Swapped(h, k, Up(k));
    forall i | 0 < i < |g| && i != p && Up(i) != p
      ensures InOrder(g, i)
    {
      if Up(i) != k { assert InOrder(h, i); }
    }
    forall c | 0 < c < |g| && Up(c) == p
      ensures InOrder(g, c) && (p > 0 ==> AtMost(g[Up(p)], g[c]))
    {
      if c != k {
        assert InOrder(h, c);
        AtMostIsOrder(h[k], h[p], h[c]);
      }
      if p > 0 {
        assert InOrder(h, p);
        AtMostIsOrder(h[Up(p)], h[p], h[c]);
      }
    }
  }

  /** `c` is the least loaded child of `k`, and less loaded than what is at `k`. */
  ghost predicate SmallestChild(h: seq<Load>, k: int, c: int)
  {
    && 0 <= k < |h| && 0 < c < |h| && Up(c) == k && Less(h[c], h[k])
    && forall d :: 0 < d < |h| && Up(d) == k ==> AtMost(h[c], h[d])
  }

  lemma MoveDown(h: seq<Load>, k: int, c: int)
    requires Sound(h) && Around(h, k) && FitsAbove(h, k) && SmallestChild(h, k, c)
    ensures var g := Swapped(h, k, c);
            Sound(g) && Around(g, c) && FitsAbove(g, c)
  {
    var g := Swapped(h, k, c);
    AtMostIsOrder(h[c], h[k], h[c]);
    forall i | 0 < i < |g| && i != c && Up(i) != c
      ensures InOrder(g, i)
    {
      if i != k && Up(i) != k { assert InOrder(h, i); }
    }
    forall d | 0 < d < |g| && Up(d) == c
      ensures AtMost(g[Up(c)], g[d])
    {
      assert InOrder(h, d);
    }
  }

  lemma AroundIsOrdered(h: seq<Load>, k: int)
    requires Around(h, k) && FitsAbove(h, k) && FitsBelow(h, k)
    ensures Ordered(h)
  {
  }

  /** Which child to move up, or `k` if nothing has to move. */
  function Pick(h: seq<Load>, k: nat): nat
    requires 2 * k + 2 < |h|
  {
    var i := 2 * k + 1;
    if Less(h[i], h[k]) then (if Less(h[i + 1], h[i]) then i + 1 else i)
    else (if Less(h[i + 1], h[k]) then i + 1 else k)
  }

  lemma PickIsRight(h: seq<Load>, k: nat)
    requires Sound(h) && 2 * k + 2 < |h|
    ensures if Pick(h, k) == k then FitsBelow(h, k) else SmallestChild(h, k, Pick(h, k))
  {
    var i := 2 * k + 1;
    AtMostIsOrder(h[i], h[i + 1], h[k]);
    AtMostIsOrder(h[i], h[k], h[i + 1]);
    AtMostIsOrder(h[i + 1], h[i], h[k]);
    AtMostIsOrder(h[k], h[i], h[i + 1]);
    assert forall d :: 0 < d < |h| && Up(d) == k ==> d == i || d == i + 1;
  }

  // ---------- One load changes ----------

  lemma MoreLoaded(a: Load, b: Load)
    requires AtMost(a, b)
    ensures AtMost(a, b.(cur := b.cur + 1))
    ensures a.cur > 0 ==> AtMost(a.(cur := a.cur - 1), b)
  {
    assert (b.cur + 1) * a.max == b.cur * a.max + a.max;
    assert a.cur > 0 ==> (a.cur - 1) * b.max == a.cur * b.max - b.max;
  }

  /** A target took one more: it may only be too loaded for its place now. */
  lemma Raised(ls: seq<Load>, k: nat)
    requires k < |ls| && Sound(ls) && Ordered(ls)
    ensures var g := ls[k := ls[k].(cur := ls[k].cur + 1)];
            Sound(g) && Around(g, k) && FitsAbove(g, k)
  {
    var g := ls[k := ls[k].(cur := ls[k].cur + 1)];
    forall i | 0 < i < |g| && i != k && Up(i) != k ensures InOrder(g, i) {
      assert InOrder(ls, i);
    }
    if k > 0 {
      assert InOrder(ls, k);
      MoreLoaded(ls[Up(k)], ls[k]);
      GrandchildFits(ls, g, k);
    }
  }

  lemma GrandchildFits(ls: seq<Load>, g: seq<Load>, k: nat)
    requires 0 < k < |ls| == |g| && Sound(ls) && Ordered(ls) && g == ls[k := g[k]]
    ensures forall c :: 0 < c < |g| && Up(c) == k ==> AtMost(g[Up(k)], g[c])
  {
    forall c | 0 < c < |g| && Up(c) == k ensures AtMost(g[Up(k)], g[c]) {
      assert InOrder(ls, c) && InOrder(ls, k);
      AtMostIsOrder(ls[Up(k)], ls[k], ls[c]);
    }
  }

  /** A target gave one back: it may only be too light for its place now. */
  lemma Lowered(ls: seq<Load>, k: nat)
    requires k < |ls| && Sound(ls) && Ordered(ls) && ls[k].cur > 0
    ensures var g := ls[k := ls[k].(cur := ls[k].cur - 1)];
            Sound(g) && Around(g, k) && FitsBelow(g, k)
  {
    var g := ls[k := ls[k].(cur := ls[k].cur - 1)];
    forall i | 0 < i < |g| && i != k && Up(i) != k ensures InOrder(g, i) {
      assert InOrder(ls, i);
    }
    if k > 0 { GrandchildFits(ls, g, k); }
    forall c | 0 < c < |g| && Up(c) == k ensures InOrder(g, c) {
      assert InOrder(ls, c);
      MoreLoaded(ls[k], ls[c]);
    }
  }

  /** The root is no more loaded than any other. */
  lemma {:induction false} RootIsLeast(ls: seq<Load>, i: nat)
    requires i < |ls| && Sound(ls) && Ordered(ls)
    ensures AtMost(ls[0], ls[i])
    decreases i
  {
    if i > 0 {
      RootIsLeast(ls, Up(i));
      assert InOrder(ls, i);
      AtMostIsOrder(ls[0], ls[Up(i)], ls[i]);
    }
  }

  /** If even the least loaded is full, all are. */
  lemma FullAbove(a: Load, b: Load)
    requires a.max > 0 && AtMost(a, b) && a.cur >= a.max
    ensures b.cur >= b.max
  {
    assert b.max * a.max <= a.cur * b.max <= b.cur * a.max;
    if b.cur < b.max { Scale(b.cur, b.max, a.max); }
  }

  // ---------- Targets and their heap ----------

  class CommSchedTarget {
    const maxLoad: nat
    var curLoad: nat
    var index: int
    var group: CommSchedGroup?
    var waitCnt: nat

    /** `init` refuses `max_connections == 0`. */
    constructor (maxConnections: nat)
      requires maxConnections > 0
      ensures maxLoad == maxConnections && curLoad == 0 && group == null && waitCnt == 0
    {
      maxLoad, curLoad, index, group, waitCnt := maxConnections, 0, 0, null, 0;
    }

    function Ratio(): Load
      reads this`curLoad
    {
      Load(curLoad, maxLoad)
    }

    /** What the group of a target sees of it. */
    ghost predicate Placed()
      reads this, group, if group == null then {} else group.Members()
    {
      maxLoad > 0 && curLoad <= maxLoad && (group != null ==> group.Valid() && this in group.tgHeap)
    }

    /** `CommSchedTarget::acquire`, once it no longer waits. */
    method Acquire() returns (ok: bool)
      requires Placed()
      modifies this`curLoad, if group == null then {} else {group}
      modifies (if group == null then {} else group.Members())`index
      ensures Placed() && group == old(group) && (ok <==> old(curLoad < maxLoad))
      ensures curLoad == old(curLoad) + if ok then 1 else 0
      ensures group != null ==> group.curLoad == old(group.curLoad) + if ok then 1 else 0
      ensures group != null ==> group.Members() == old(group.Members())
    {
      ok := curLoad < maxLoad;
      if ok {
        if group != null {
          group.Take(this);
        } else {
          curLoad := curLoad + 1;
        }
      }
    }

    /** `CommSchedTarget::release`; the caller holds a session on this target. */
    method Release()
      requires Placed() && curLoad > 0
      modifies this`curLoad, if group == null then {} else {group}
      modifies (if group == null then {} else group.Members())`index
      ensures Placed() && group == old(group) && curLoad + 1 == old(curLoad)
      ensures group != null ==> group.curLoad + 1 == old(group.curLoad)
      ensures group != null ==> group.Members() == old(group.Members())
    {
      if group != null {
        group.GiveBack(this);
      } else {
        curLoad := curLoad - 1;
      }
    }
  }

  /** The targets of `h` have the loads `ls`. */
  ghost predicate Loaded(h: seq<CommSchedTarget>, ls: seq<Load>)
    reads (set t | t in h)`curLoad
  {
    |h| == |ls| && forall i :: 0 <= i < |h| ==> h[i].Ratio() == ls[i]
  }

  ghost function Ratios(h: seq<CommSchedTarget>): (ls: seq<Load>)
    reads (set t | t in h)`curLoad
    ensures Loaded(h, ls)
  {
    if h == [] then [] else Ratios(h[..|h| - 1]) + [h[|h| - 1].Ratio()]
  }

  /** `tg_heap[t->index] == t` for every place but `k`; the target at `k` is no other. */
  ghost predicate IndexedBut(h: seq<CommSchedTarget>, k: int)
    reads (set t | t in h)`index
  {
    && (forall i :: 0 <= i < |h| && i != k ==> h[i].index == i)
    && (0 <= k < |h| ==> forall i :: 0 <= i < |h| && i != k ==> h[i] != h[k])
  }

  /** While `target` is on its way, it stands in `h` at place `at`, and `heap` has a
      stale entry there. */
  ghost predicate Sifting(heap: seq<CommSchedTarget>, h: seq<CommSchedTarget>, ls: seq<Load>, at: int,
          target: CommSchedTarget)
    reads (set t | t in h)`index, (set t | t in h)`curLoad
  {
    && 0 <= at < |h| == |heap| && h[at] == target && heap[at := target] == h
    && IndexedBut(h, at) && Loaded(h, ls)
  }

  class CommSchedGroup {
    var tgHeap: seq<CommSchedTarget>
    var maxLoad: nat
    var curLoad: nat
    var waitCnt: nat

    constructor ()
      ensures tgHeap == [] && maxLoad == 0 && curLoad == 0 && waitCnt == 0
    {
      tgHeap, maxLoad, curLoad, waitCnt := [], 0, 0, 0;
    }

    /** Move the entry at `from` to the free place `at`. */
    method Shift(at: nat, from: nat, moved: CommSchedTarget, ghost h: seq<CommSchedTarget>, ghost ls: seq<Load>,
            ghost target: CommSchedTarget)
      requires Sifting(tgHeap, h, ls, at, target) && from < |tgHeap| && from != at && moved == tgHeap[from]
      modifies this`tgHeap, moved`index
      ensures Sifting(tgHeap, Swapped(h, at, from), Swapped(ls, at, from), from, target)
      ensures forall t :: t in Swapped(h, at, from) <==> t in h
    {
      assert moved == h[from];
      SwappedSame(h, at, from);
      tgHeap := tgHeap[at := moved];
      moved.index := at;
    }

    /** Put the target into the free place. */
    method Settle(at: nat, target: CommSchedTarget, ghost h: seq<CommSchedTarget>, ghost ls: seq<Load>)
      requires Sifting(tgHeap, h, ls, at, target)
      modifies this`tgHeap, target`index
      ensures tgHeap == h && IndexedBut(h, -1) && Loaded(h, ls)
    {
      tgHeap := tgHeap[at := target];
      target.index := at;
    }

    /** Sift the target at `index` up.  If only its parent was in the way, the whole heap
        is in order afterwards. */
    method HeapAdjust(index: nat, ghost ls0: seq<Load>) returns (ghost ls: seq<Load>)
      requires index < |tgHeap| && IndexedBut(tgHeap, index)
      requires Loaded(tgHeap, ls0) && Sound(ls0) && Around(ls0, index)
      modifies this`tgHeap, (set t | t in tgHeap)`index
      ensures |tgHeap| == old(|tgHeap|) && (forall t :: t in tgHeap <==> t in old(tgHeap))
      ensures IndexedBut(tgHeap, -1) && Loaded(tgHeap, ls) && Sound(ls)
      ensures var at := old(tgHeap)[index].index;
              0 <= at < |tgHeap| && tgHeap[at] == old(tgHeap)[index] && Around(ls, at) && FitsAbove(ls, at)
      ensures FitsBelow(ls0, index) ==> Ordered(ls)
    {
      hide Less, InOrder, Around, FitsBelow;
      var target := tgHeap[index];
      var at := index;
      ghost var h := tgHeap;
      ls := ls0;
      while at > 0
        invariant Sifting(tgHeap, h, ls, at, target)
        invariant |h| == old(|tgHeap|) && forall t :: t in h <==> t in old(tgHeap)
        invariant Sound(ls) && Around(ls, at)
        invariant FitsBelow(ls0, index) || at != index ==> FitsBelow(ls, at)
      {
        var parent := tgHeap[Up(at)];
        if Less(target.Ratio(), parent.Ratio()) {
          MoveUp(ls, at);
          Shift(at, Up(at), parent, h, ls, target);
          h, ls := Swapped(h, at, Up(at)), Swapped(ls, at, Up(at));
          at := Up(at);
        } else {
          AtParent(ls, at);
          break;
        }
      }
      Settle(at, target, h, ls);
      if FitsBelow(ls, at) { AroundIsOrdered(ls, at); }
    }

    /** Sift the target at `top` down. */
    method Heapify(top: nat, ghost ls0: seq<Load>) returns (ghost ls: seq<Load>)
      requires top < |tgHeap| && IndexedBut(tgHeap, top)
      requires Loaded(tgHeap, ls0) && Sound(ls0) && Around(ls0, top) && FitsAbove(ls0, top)
      modifies this`tgHeap, (set t | t in tgHeap)`index
      ensures |tgHeap| == old(|tgHeap|) && (forall t :: t in tgHeap <==> t in old(tgHeap))
      ensures IndexedBut(tgHeap, -1) && Loaded(tgHeap, ls) && Sound(ls) && Ordered(ls)
    {
      hide Less, InOrder, Around, FitsBelow, FitsAbove;
      var target := tgHeap[top];
      var last := |tgHeap| - 1;
      var at := top;
      ghost var h := tgHeap;
      ls := ls0;
      while 2 * at + 1 < last
        invariant Sifting(tgHeap, h, ls, at, target)
        invariant |h| == old(|tgHeap|) && forall t :: t in h <==> t in old(tgHeap)
        invariant Sound(ls) && Around(ls, at) && FitsAbove(ls, at)
        decreases |tgHeap| - at
      {
        PickIsRight(ls, at);
        var c := PickChild(target, at, h, ls);
        if c == at {
          Settle(at, target, h, ls);
          AroundIsOrdered(ls, at);
          return;
        }
        MoveDown(ls, at, c);
        Shift(at, c, tgHeap[c], h, ls, target);
        h, ls := Swapped(h, at, c), Swapped(ls, at, c);
        at := c;
      }
      ls := LastTurn(target, at, h, ls);
    }

    /** The end of the loop: at most one child is left to compare with. */
    method LastTurn(target: CommSchedTarget, top: nat, ghost h: seq<CommSchedTarget>, ghost ls0: seq<Load>)
      returns (ghost ls: seq<Load>)
      requires Sifting(tgHeap, h, ls0, top, target) && 2 * top + 1 >= |tgHeap| - 1
      requires Sound(ls0) && Around(ls0, top) && FitsAbove(ls0, top)
      modifies this`tgHeap, (set t | t in h)`index
      ensures |tgHeap| == |h| && (forall t :: t in tgHeap <==> t in h)
      ensures IndexedBut(tgHeap, -1) && Loaded(tgHeap, ls) && Sound(ls) && Ordered(ls)
    {
      hide Less, InOrder, Around, FitsBelow, FitsAbove;
      var i := 2 * top + 1;
      ls := ls0;
      if i == |tgHeap| - 1 {
        LastChild(ls, top);
        var child := tgHeap[i];
        assert child == h[i];
        if Less(child.Ratio(), target.Ratio()) {
          MoveDown(ls, top, i);
          Shift(top, i, child, h, ls, target);
          ls := Swapped(ls, top, i);
          NoChild(ls, i);
          Settle(i, target, Swapped(h, top, i), ls);
          AroundIsOrdered(ls, i);
          return;
        }
      } else {
        NoChild(ls, top);
      }
      Settle(top, target, h, ls);
      AroundIsOrdered(ls, top);
    }

    /** The comparisons of one turn: the child to move up, or `at` to stay. */
    method PickChild(target: CommSchedTarget, at: nat, ghost h: seq<CommSchedTarget>,
            ghost ls: seq<Load>) returns (c: nat)
      requires Sifting(tgHeap, h, ls, at, target) && 2 * at + 2 < |tgHeap|
      ensures c == Pick(ls, at) && c < |tgHeap|
    {
      hide Less;
      var i := 2 * at + 1;
      assert tgHeap[i] == h[i] && tgHeap[i + 1] == h[i + 1];
      if Less(tgHeap[i].Ratio(), target.Ratio()) {
        c := if Less(tgHeap[i + 1].Ratio(), tgHeap[i].Ratio()) then i + 1 else i;
      } else {
        c := if Less(tgHeap[i + 1].Ratio(), target.Ratio()) then i + 1 else at;
      }
    }

    ghost function Members(): set<CommSchedTarget>
      reads this`tgHeap
    {
      set t | t in tgHeap
    }

    /** The heap is in order, each target knows its place, and no target is overloaded. */
    ghost predicate HeapOk()
      reads this`tgHeap, (set t | t in tgHeap)`index, (set t | t in tgHeap)`curLoad
    {
      && IndexedBut(tgHeap, -1) && Ordered(Ratios(tgHeap))
      && forall t :: t in tgHeap ==> t.maxLoad > 0 && t.curLoad <= t.maxLoad
    }

    /** And the group's loads are the sums over its members. */
    ghost predicate Valid()
      reads this, Members()
    {
      && HeapOk()
      && (forall t :: t in tgHeap ==> t.group == this)
      && maxLoad == SumMax(Members()) && curLoad == SumCur(Members())
    }

    /** `heapify` after a member got more loaded. */
    method SettleDown(at: nat, ghost ls: seq<Load>)
      requires at < |tgHeap| && IndexedBut(tgHeap, at)
      requires Loaded(tgHeap, ls) && Sound(ls) && Around(ls, at) && FitsAbove(ls, at)
      requires forall t :: t in Members() ==> t.maxLoad > 0 && t.curLoad <= t.maxLoad
      modifies this`tgHeap, Members()`index
      ensures HeapOk() && Members() == old(Members())
    {
      hide Around, FitsAbove, Ordered;
      ghost var us := Heapify(at, ls);
      LoadedIs(tgHeap, us);
      assert Members() == old(Members());
      assert forall t :: t in tgHeap ==> t in Members();
    }

    /** `heap_adjust` after a member got less loaded. */
    method SettleUp(at: nat, ghost ls: seq<Load>)
      requires at < |tgHeap| && IndexedBut(tgHeap, at)
      requires Loaded(tgHeap, ls) && Sound(ls) && Around(ls, at) && FitsBelow(ls, at)
      requires forall t :: t in Members() ==> t.maxLoad > 0 && t.curLoad <= t.maxLoad
      modifies this`tgHeap, Members()`index
      ensures HeapOk() && Members() == old(Members())
    {
      hide Around, FitsBelow, FitsAbove, Ordered;
      ghost var us := HeapAdjust(at, ls);
      LoadedIs(tgHeap, us);
      assert Members() == old(Members());
      assert forall t :: t in tgHeap ==> t in Members();
    }

    method HeapInsert(target: CommSchedTarget)
      requires HeapOk() && target !in tgHeap && target.maxLoad > 0 && target.curLoad <= target.maxLoad
      modifies this`tgHeap, (Members() + {target})`index
      ensures HeapOk() && Members() == old(Members()) + {target}
    {
      hide Around, FitsBelow, FitsAbove, Ordered;
      ghost var ls := Ratios(tgHeap);
      tgHeap := tgHeap + [target];
      target.index := |tgHeap| - 1;
      ghost var us := ls + [target.Ratio()];
      assert us[..|us| - 1] == ls;
      LoadedMore(old(tgHeap), ls, target);
      Appended(us);
      assert Members() == old(Members()) + {target};
      SettleUp(|tgHeap| - 1, us);
    }

    /** Up, then down: afterwards the target at `index` is in its place. */
    method Refit(index: nat, ghost us: seq<Load>)
      requires index < |tgHeap| && IndexedBut(tgHeap, index) && tgHeap[index].index == index
      requires Loaded(tgHeap, us) && Sound(us) && Around(us, index)
      modifies this`tgHeap, Members()`index
      ensures IndexedBut(tgHeap, -1) && Ordered(Ratios(tgHeap))
      ensures Members() == old(Members())
    {
      hide Around, FitsBelow, FitsAbove, Ordered;
      var target := tgHeap[index];
      ghost var vs := HeapAdjust(index, us);
      vs := Heapify(target.index, vs);
      LoadedIs(tgHeap, vs);
    }

    /** The last entry moves to the free place. */
    method FillPlace(index: nat) returns (ghost us: seq<Load>)
      requires HeapOk() && index < |tgHeap| - 1
      modifies this`tgHeap, Members()`index
      ensures |tgHeap| == old(|tgHeap|) - 1 && Members() == old(Members()) - {old(tgHeap[index])}
      ensures IndexedBut(tgHeap, index) && tgHeap[index].index == index
      ensures Loaded(tgHeap, us) && Sound(us) && Around(us, index)
    {
      hide Around, Ordered, Sound, Ratios;
      ghost var ls, h := Ratios(tgHeap), tgHeap;
      WithoutMember(h, index);
      LoadedReplaced(h, ls, index);
      Replaced(ls, index);
      hide Loaded;
      var size := |tgHeap| - 1;
      var target := tgHeap[size];
      tgHeap := tgHeap[..size][index := target];
      target.index := index;
      us := ls[..size][index := ls[size]];
    }

    /** The last entry goes. */
    method CutLast()
      requires HeapOk() && tgHeap != []
      modifies this`tgHeap
      ensures HeapOk() && Members() == old(Members()) - {old(tgHeap[|tgHeap| - 1])}
    {
      hide Around, Ordered, Ratios;
      WithoutMember(tgHeap, |tgHeap| - 1);
      ghost var ls := Ratios(tgHeap);
      Shortened(ls);
      tgHeap := tgHeap[..|tgHeap| - 1];
      LoadedIs(tgHeap, ls[..|tgHeap|]);
    }

    method HeapRemove(index: nat)
      requires HeapOk() && index < |tgHeap|
      modifies this`tgHeap, Members()`index
      ensures HeapOk() && Members() == old(Members()) - {old(tgHeap[index])}
    {
      hide Around, Ordered, Ratios, Loaded, Sound, IndexedBut;
      if index != |tgHeap| - 1 {
        ghost var us := FillPlace(index);
        Refit(index, us);
        assert forall t :: t in tgHeap ==> t in Members();
      } else {
        CutLast();
      }
    }

    /** The counters of a member and of the group change together. */
    method Count(target: CommSchedTarget, one: int, ghost ls: seq<Load>) returns (ghost us: seq<Load>)
      requires target in tgHeap && (one == 1 || (one == -1 && target.curLoad > 0))
      requires curLoad == SumCur(Members())
      requires 0 <= target.index < |tgHeap| && tgHeap[target.index] == target && IndexedBut(tgHeap, target.index)
      requires Loaded(tgHeap, ls)
      modifies this`curLoad, target`curLoad
      ensures curLoad == SumCur(Members()) == old(curLoad) + one && target.curLoad == old(target.curLoad) + one
      ensures us == ls[target.index := Load(target.curLoad, target.maxLoad)] && Loaded(tgHeap, us)
    {
      hide SumCur, SumMax;
      SumTakes(Members(), target);
      target.curLoad := target.curLoad + one;
      SumTakes(Members(), target);
      curLoad := curLoad + one;
      us := ls[target.index := Load(target.curLoad, target.maxLoad)];
    }

    /** One more session on a member, and its new place in the heap. */
    method Take(target: CommSchedTarget)
      requires Valid() && target in tgHeap && target.curLoad < target.maxLoad
      modifies this`tgHeap, this`curLoad, target`curLoad, Members()`index
      ensures Valid() && Members() == old(Members()) && target in Members()
      ensures curLoad == old(curLoad) + 1 && target.curLoad == old(target.curLoad) + 1
    {
      hide Around, FitsAbove, Ordered, SumCur, SumMax, Loaded, IndexedBut, Sound;
      ghost var ls := Ratios(tgHeap);
      MemberPlace(target);
      Raised(ls, target.index);
      ls := Count(target, 1, ls);
      SettleDown(target.index, ls);
      assert forall t :: t in tgHeap ==> t in Members();
    }

    /** One session less. */
    method GiveBack(target: CommSchedTarget)
      requires Valid() && target in tgHeap && target.curLoad > 0
      modifies this`tgHeap, this`curLoad, target`curLoad, Members()`index
      ensures Valid() && Members() == old(Members()) && target in Members()
      ensures curLoad + 1 == old(curLoad) && target.curLoad + 1 == old(target.curLoad)
    {
      hide Around, FitsBelow, FitsAbove, Ordered, SumCur, SumMax, Loaded, IndexedBut, Sound;
      ghost var ls := Ratios(tgHeap);
      MemberPlace(target);
      Lowered(ls, target.index);
      ls := Count(target, -1, ls);
      SettleUp(target.index, ls);
      assert forall t :: t in tgHeap ==> t in Members();
    }

    lemma MemberPlace(target: CommSchedTarget)
      requires HeapOk() && target in tgHeap
      ensures 0 <= target.index < |tgHeap| && tgHeap[target.index] == target
      ensures Sound(Ratios(tgHeap)) && Loaded(tgHeap, Ratios(tgHeap)) && Ordered(Ratios(tgHeap))
      ensures IndexedBut(tgHeap, target.index)
      ensures Ratios(tgHeap)[target.index] == target.Ratio()
    {
      var i :| 0 <= i < |tgHeap| && tgHeap[i] == target;
      forall i | 0 <= i < |tgHeap| ensures Ratios(tgHeap)[i].max > 0 {
        assert tgHeap[i] in tgHeap;
      }
    }

    /** The root of the heap has the least load ratio; if the group as a whole has room,
        the root has. */
    lemma RootIsBest()
      requires Valid() && tgHeap != []
      ensures forall t :: t in tgHeap ==> AtMost(tgHeap[0].Ratio(), t.Ratio())
      ensures curLoad < maxLoad ==> tgHeap[0].curLoad < tgHeap[0].maxLoad
    {
      var root, ls := tgHeap[0], Ratios(tgHeap);
      MemberPlace(root);
      forall t | t in tgHeap ensures AtMost(root.Ratio(), t.Ratio()) {
        MemberPlace(t);
        RootIsLeast(ls, t.index);
      }
      if root.curLoad >= root.maxLoad {
        forall t | t in tgHeap ensures t.curLoad >= t.maxLoad {
          FullAbove(root.Ratio(), t.Ratio());
        }
        FullSums(Members());
      }
    }

    /** The group is full exactly when every member is. */
    lemma FullWhenAllAre()
      requires Valid()
      ensures curLoad >= maxLoad <==> forall t <- Members() :: t.curLoad == t.maxLoad
    {
      SumsBounded(Members());
      if forall t <- Members() :: t.curLoad == t.maxLoad { FullSums(Members()); }
    }

    /** `CommSchedGroup::acquire`, once it no longer waits. */
    method Acquire() returns (target: CommSchedTarget?)
      requires Valid()
      modifies this`tgHeap, this`curLoad, Members()`curLoad, Members()`index
      ensures Valid() && Members() == old(Members()) && maxLoad == old(maxLoad)
      ensures target == null <==> old(curLoad >= maxLoad)
      ensures target == null ==> curLoad == old(curLoad) && forall t :: t in Members() ==> t.curLoad == old(t.curLoad)
      ensures target != null ==>
              && target in Members() && curLoad == old(curLoad) + 1
              && target.curLoad == old(target.curLoad) + 1 <= target.maxLoad
              && (forall t :: t in Members() && t != target ==> t.curLoad == old(t.curLoad))
              && (forall t :: t in old(tgHeap) ==> old(AtMost(target.Ratio(), t.Ratio())))
    {
      target := null;
      if curLoad < maxLoad {
        NonEmpty();
        RootIsBest();
        target := tgHeap[0];
        Take(target);
      }
    }

    lemma NonEmpty()
      requires Valid() && maxLoad > 0
      ensures tgHeap != []
    {
      assert tgHeap == [] ==> Members() == {};
    }

    /** In no group, and nobody waits for it. */
    predicate Addable(target: CommSchedTarget)
      reads target`group, target`waitCnt
    {
      target.group == null && target.waitCnt == 0
    }

    predicate Removable(target: CommSchedTarget)
      reads target`group, target`waitCnt
    {
      target.group == this && target.waitCnt == 0
    }

    /** `add`: 0, or -1 with the target in a group or waited for; then nothing at all is
        written. */
    method Add(target: CommSchedTarget) returns (ret: int)
      requires Valid() && target.maxLoad > 0 && target.curLoad <= target.maxLoad
      requires target in tgHeap <==> target.group == this
      modifies (if Addable(target) then {this} else {})`tgHeap
      modifies (if Addable(target) then {this} else {})`maxLoad, (if Addable(target) then {this} else {})`curLoad
      modifies (if Addable(target) then Members() + {target} else {})`index
      modifies (if Addable(target) then {target} else {})`group
      ensures Valid()
      ensures ret == if old(Addable(target)) then 0 else -1
      ensures ret == 0 ==> Members() == old(Members()) + {target} && target.group == this
    {
      ret := -1;
      if target.group == null && target.waitCnt == 0 {
        AddTarget(target);
        ret := 0;
      }
    }

    method AddTarget(target: CommSchedTarget)
      requires Valid() && target.maxLoad > 0 && target.curLoad <= target.maxLoad && target.group == null
      requires target !in tgHeap
      modifies this`tgHeap, this`maxLoad, this`curLoad, (Members() + {target})`index, target`group
      ensures Valid() && Members() == old(Members()) + {target} && target.group == this
    {
      hide SumCur, SumMax, Ordered, IndexedBut, Ratios;
      ghost var others := Members();
      HeapInsert(target);
      assert Members() - {target} == others;
      assert forall t :: t in tgHeap ==> t in Members();
      Join(target);
    }

    /** The loads of a new member are added to those of the group. */
    method Join(target: CommSchedTarget)
      requires HeapOk() && target in tgHeap
      requires forall t :: t in tgHeap && t != target ==> t.group == this
      requires maxLoad == SumMax(Members() - {target}) && curLoad == SumCur(Members() - {target})
      modifies this`maxLoad, this`curLoad, target`group
      ensures Valid() && target.group == this
    {
      hide SumCur, SumMax, HeapOk;
      assert target in Members();
      target.group := this;
      maxLoad := maxLoad + target.maxLoad;
      curLoad := curLoad + target.curLoad;
      SumTakes(Members(), target);
    }

    /** `remove`: 0, or -1 with the target not in this group or waited for; then nothing at
        all is written. */
    method Remove(target: CommSchedTarget) returns (ret: int)
      requires Valid() && (target in tgHeap <==> target.group == this)
      modifies (if Removable(target) then {this} else {})`tgHeap
      modifies (if Removable(target) then {this} else {})`maxLoad, (if Removable(target) then {this} else {})`curLoad
      modifies (if Removable(target) then Members() else {})`index
      modifies (if Removable(target) then {target} else {})`group
      ensures Valid()
      ensures ret == if old(Removable(target)) then 0 else -1
      ensures ret == 0 ==> Members() == old(Members()) - {target} && target.group == null
    {
      ret := -1;
      if target.group == this && target.waitCnt == 0 {
        RemoveTarget(target);
        ret := 0;
      }
    }

    method RemoveTarget(target: CommSchedTarget)
      requires Valid() && target in tgHeap
      modifies this`tgHeap, this`maxLoad, this`curLoad, Members()`index, target`group
      ensures Valid() && Members() == old(Members()) - {target} && target.group == null
    {
      hide SumCur, SumMax, Ordered, IndexedBut, Ratios;
      MemberPlace(target);
      SumTakes(Members(), target);
      ghost var others := Members() - {target};
      HeapRemove(target.index);
      assert forall t :: t in tgHeap ==> t in others;
      Part(target);
    }

    /** The loads of a target that has left are taken off those of the group. */
    method Part(target: CommSchedTarget)
      requires HeapOk() && target !in tgHeap && forall t :: t in tgHeap ==> t.group == this
      requires maxLoad == target.maxLoad + SumMax(Members()) && curLoad == target.curLoad + SumCur(Members())
      modifies this`maxLoad, this`curLoad, target`group
      ensures Valid() && target.group == null
    {
      hide SumCur, SumMax, HeapOk;
      maxLoad := maxLoad - target.maxLoad;
      curLoad := curLoad - target.curLoad;
      target.group := null;
    }
  }

  lemma {:induction false} FullSums(s: set<CommSchedTarget>)
    requires forall t :: t in s ==> t.curLoad >= t.maxLoad
    ensures SumCur(s) >= SumMax(s)
    decreases s
  {
    if s != {} {
      var t :| t in s;
      SumTakes(s, t);
      FullSums(s - {t});
    }
  }

  lemma {:induction false} SumsBounded(s: set<CommSchedTarget>)
    requires forall t :: t in s ==> t.curLoad <= t.maxLoad
    ensures SumCur(s) <= SumMax(s)
    ensures SumCur(s) == SumMax(s) ==> forall t :: t in s ==> t.curLoad == t.maxLoad
    decreases s
  {
    if s != {} {
      var t :| t in s;
      SumTakes(s, t);
      SumsBounded(s - {t});
    }
  }

  lemma Shortened(ls: seq<Load>)
    requires ls != [] && Ordered(ls)
    ensures Ordered(ls[..|ls| - 1])
  {
    var us := ls[..|ls| - 1];
    forall i | 0 < i < |us| ensures InOrder(us, i) { assert InOrder(ls, i); }
  }

  lemma LoadedMore(h: seq<CommSchedTarget>, ls: seq<Load>, t: CommSchedTarget)
    requires Loaded(h, ls) && t.maxLoad > 0 && forall u :: u in h ==> u.maxLoad > 0
    ensures Loaded(h + [t], ls + [t.Ratio()]) && Sound(ls + [t.Ratio()])
  {
    forall i | 0 <= i <= |h| ensures (ls + [t.Ratio()])[i].max > 0 {
      if i < |h| { assert h[i] in h; }
    }
  }

  lemma LoadedReplaced(h: seq<CommSchedTarget>, ls: seq<Load>, k: nat)
    requires Loaded(h, ls) && k < |h| - 1
    ensures Loaded(h[..|h| - 1][k := h[|h| - 1]], ls[..|h| - 1][k := ls[|h| - 1]])
    ensures (forall u :: u in h ==> u.maxLoad > 0) ==> Sound(ls)
  {
    if forall u :: u in h ==> u.maxLoad > 0 {
      forall i | 0 <= i < |ls| ensures ls[i].max > 0 { assert h[i] in h; }
    }
  }

  /** Removing entry `k` by putting the last entry there, or by cutting it off. */
  lemma WithoutMember(h: seq<CommSchedTarget>, k: nat)
    requires k < |h| && IndexedBut(h, -1)
    ensures var g := if k == |h| - 1 then h[..|h| - 1] else h[..|h| - 1][k := h[|h| - 1]];
            (set t | t in g) == (set t | t in h) - {h[k]}
  {
    var n := |h| - 1;
    var g := if k == n then h[..n] else h[..n][k := h[n]];
    forall t | t in h && t != h[k] ensures t in g {
      var i :| 0 <= i < |h| && h[i] == t;
      assert g[if i == n then k else i] == t;
    }
    forall t | t in g ensures t in h && t != h[k] {
      var i :| 0 <= i < |g| && g[i] == t;
      assert t == h[if i == k then n else i];
    }
  }

  lemma LoadedIs(h: seq<CommSchedTarget>, ls: seq<Load>)
    requires Loaded(h, ls)
    ensures Ratios(h) == ls
  {
  }

  /** A new last entry can only be too light. */
  lemma Appended(ls: seq<Load>)
    requires ls != [] && Ordered(ls[..|ls| - 1])
    ensures Around(ls, |ls| - 1) && FitsBelow(ls, |ls| - 1)
  {
    forall i | 0 < i < |ls| - 1 ensures InOrder(ls, i) {
      assert InOrder(ls[..|ls| - 1], i);
    }
  }

  /** The last entry replaces entry `k`. */
  lemma Replaced(ls: seq<Load>, k: nat)
    requires k < |ls| - 1 && Sound(ls) && Ordered(ls)
    ensures var g := ls[..|ls| - 1][k := ls[|ls| - 1]];
            Sound(g) && Around(g, k)
  {
    var g := ls[..|ls| - 1][k := ls[|ls| - 1]];
    forall i | 0 < i < |g| && i != k && Up(i) != k ensures InOrder(g, i) {
      assert InOrder(ls, i);
    }
    if k > 0 {
      forall c | 0 < c < |g| && Up(c) == k ensures AtMost(g[Up(k)], g[c]) {
        assert InOrder(ls, c) && InOrder(ls, k);
        AtMostIsOrder(ls[Up(k)], ls[k], ls[c]);
      }
    }
  }

  // ---------- Sums over the members ----------

  ghost function SumCur(s: set<CommSchedTarget>): nat
    reads s`curLoad
  {
    if s == {} then 0 else var t :| t in s; t.curLoad + SumCur(s - {t})
  }

  ghost function SumMax(s: set<CommSchedTarget>): nat
  {
    if s == {} then 0 else var t :| t in s; t.maxLoad + SumMax(s - {t})
  }

  lemma {:induction false} SumTakes(s: set<CommSchedTarget>, t: CommSchedTarget)
    requires t in s
    ensures SumCur(s) == t.curLoad + SumCur(s - {t})
    ensures SumMax(s) == t.maxLoad + SumMax(s - {t})
    decreases s
  {
    var u :| u in s && SumCur(s) == u.curLoad + SumCur(s - {u});
    if u != t {
      SumTakes(s - {u}, t);
      SumTakes(s - {t}, u);
      assert s - {u} - {t} == s - {t} - {u};
    }
    var v :| v in s && SumMax(s) == v.maxLoad + SumMax(s - {v});
    if v != t {
      SumTakes(s - {v}, t);
      SumTakes(s - {t}, v);
      assert s - {v} - {t} == s - {t} - {v};
    }
  }

  /** The only child is the smallest one, if it is less loaded. */
  lemma LastChild(ls: seq<Load>, k: int)
    requires 0 <= k && 2 * k + 2 == |ls|
    ensures if Less(ls[2 * k + 1], ls[k]) then SmallestChild(ls, k, 2 * k + 1) else FitsBelow(ls, k)
  {
  }

  lemma NoChild(ls: seq<Load>, k: int)
    requires 0 <= k < |ls| <= 2 * k + 1
    ensures FitsBelow(ls, k)
  {
  }

  lemma AtParent(ls: seq<Load>, k: int)
    requires 0 < k < |ls| && !Less(ls[k], ls[Up(k)])
    ensures FitsAbove(ls, k)
  {
  }
}
