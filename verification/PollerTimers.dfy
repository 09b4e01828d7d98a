/** The deadlines of `kernel/poller.c`: a sorted list for nodes that come last, a
    red-black tree for the others, and one timer for the earliest of all. */
module PollerTimers {
  import opened Collections
  import opened RbTree
  import opened RbHeap

  // ---------- Time ----------

  const NANOS := 1_000_000_000

  datatype Time = Time(sec: int, nsec: int)

  function Nanos(t: Time): int { t.sec * NANOS + t.nsec }

  predicate Normal(t: Time) { 0 <= t.nsec < NANOS }

  /** `__timeout_cmp` */
  function Cmp(a: Time, b: Time): int
  {
    if a.sec - b.sec == 0 then a.nsec - b.nsec else a.sec - b.sec
  }

  lemma CmpIsByNanos(a: Time, b: Time)
    requires Normal(a) && Normal(b)
    ensures Cmp(a, b) < 0 <==> Nanos(a) < Nanos(b)
    ensures Cmp(a, b) == 0 <==> a == b
  {
  }

  /** `__poller_node_set_timeout`: `now` plus some milliseconds. */
  function Deadline(now: Time, millis: nat): (t: Time)
    requires Normal(now)
    ensures Normal(t) && Nanos(t) == Nanos(now) + millis * 1_000_000
  {
    var sec, nsec := now.sec + millis / 1000, now.nsec + millis % 1000 * 1_000_000;
    if nsec >= NANOS then Time(sec + 1, nsec - NANOS) else Time(sec, nsec)
  }

  /** The same for a `timespec`, in `poller_add_timer`, which takes any value. */
  function Plus(now: Time, value: Time): (t: Time)
    ensures Nanos(t) == Nanos(now) + Nanos(value)
    ensures Normal(now) && Normal(value) ==> Normal(t)
  {
    var sec, nsec := now.sec + value.sec, now.nsec + value.nsec;
    if nsec >= NANOS then Time(sec + 1, nsec - NANOS) else Time(sec, nsec)
  }

  // ---------- Nodes ----------

  /** The other fields of a `struct __poller_node`; the node itself is the address that
      its list and tree links share. */
  datatype NodeData = NodeData(fd: int, timeout: Time, inRbtree: bool)

  type Table = map<RbNode, NodeData>

  ghost predicate Sorted(s: seq<RbNode>, d: Table)
  {
    && (forall i :: 0 <= i < |s| ==> s[i] in d)
    && forall i, j :: 0 <= i < j < |s| ==> Cmp(d[s[j]].timeout, d[s[i]].timeout) >= 0
  }

  lemma {:induction false} TreeElems(t: Tree<RbNode>)
    requires Distinct(t)
    ensures Elems(Inorder(t)) == Nodes(t) && NoDup(Inorder(t))
  {
    if t.Node? {
      TreeElems(t.left);
      TreeElems(t.right);
      var l, r := Inorder(t.left), Inorder(t.right);
      assert forall n :: n in Inorder(t) <==> n in l || n == t.val || n in r;
      forall i | 0 <= i < |l| ensures l[i] in Nodes(t.left) { assert l[i] in Elems(l); }
      forall i | 0 <= i < |r| ensures r[i] in Nodes(t.right) { assert r[i] in Elems(r); }
      forall i, j | 0 <= i < j < |Inorder(t)| ensures Inorder(t)[i] != Inorder(t)[j] {
        Nth(l, t.val, r, i);
        Nth(l, t.val, r, j);
      }
    }
  }

  lemma Nth<T>(l: seq<T>, v: T, r: seq<T>, i: nat)
    requires i < |l| + 1 + |r|
    ensures (l + [v] + r)[i] == if i < |l| then l[i] else if i == |l| then v else r[i - |l| - 1]
  {
  }

  /** Insertion behind everything that is not later. */
  lemma SortedInsert(b: seq<RbNode>, a: seq<RbNode>, n: RbNode, d: Table)
    requires Sorted(b + a, d) && n in d
    requires forall x :: x in b ==> x in d && Cmp(d[n].timeout, d[x].timeout) >= 0
    requires forall x :: x in a ==> x in d && Cmp(d[n].timeout, d[x].timeout) < 0
    ensures Sorted(b + [n] + a, d)
  {
    var s := b + a;
    forall i, j | 0 <= i < j < |s| + 1
      ensures var u := b + [n] + a; u[i] in d && u[j] in d && Cmp(d[u[j]].timeout, d[u[i]].timeout) >= 0
    {
      Nth(b, n, a, i);
      Nth(b, n, a, j);
      var k, l := if i < |b| then i else i - 1, if j < |b| then j else j - 1;
      if i != |b| && j != |b| { assert s[k] == (b + [n] + a)[i] && s[l] == (b + [n] + a)[j]; }
    }
    forall i | 0 <= i < |s| + 1 ensures (b + [n] + a)[i] in d {
      Nth(b, n, a, i);
      if i < |b| { assert b[i] in b; }
      if i > |b| { assert a[i - |b| - 1] in a; }
    }
  }

  /** Nothing else changes when only fields of other nodes change. */
  lemma SortedFrame(s: seq<RbNode>, d: Table, e: Table)
    requires Sorted(s, d) && forall n :: n in s ==> n in e && e[n].timeout == d[n].timeout
    ensures Sorted(s, e)
  {
    forall i | 0 <= i < |s| ensures s[i] in e && e[s[i]].timeout == d[s[i]].timeout { assert s[i] in s; }
  }

  lemma SortedPart(s: seq<RbNode>, k: nat, l: nat, d: Table)
    requires k <= l <= |s| && Sorted(s, d)
    ensures Sorted(s[..k] + s[l..], d) && Sorted(s[k..l], d)
  {
    var u := s[..k] + s[l..];
    forall i | 0 <= i < |u| ensures u[i] == s[if i < k then i else i + l - k] {}
  }

  function First(s: seq<RbNode>): RbNode? { if s == [] then null else s[0] }

  class Poller {
    const timeoTree: RbRoot
    const maxOpenFiles: nat
    var treeFirst: RbNode?
    var timeoList: seq<RbNode>
    var noTimeoList: seq<RbNode>
    var data: Table
    var nodes: map<int, RbNode>
    var timerfd: Option<Time>
    ghost var tree: Tree<RbNode>

    constructor (files: nat)
      ensures Valid() && data == map[] && nodes == map[] && timerfd == None && Agenda() == map[]
      ensures fresh(timeoTree) && tree == Leaf && maxOpenFiles == files
    {
      timeoTree := new RbRoot();
      maxOpenFiles := files;
      treeFirst, timeoList, noTimeoList, data, nodes, timerfd, tree := null, [], [], map[], map[], None, Leaf;
    }

    /** The list and the tree together: each live node is in exactly one structure, and
        `in_rbtree` says whether that is the tree. */
    ghost predicate Linked()
      reads this`tree, this`treeFirst, this`data, this`timeoList, this`noTimeoList, timeoTree, Nodes(tree)
    {
      TreeOk() && Sorted(timeoList, data) && Apart(timeoList, noTimeoList, Nodes(tree), data)
    }

    /** What the two structures stand for: one set of deadlines. */
    ghost function Agenda(): map<RbNode, Time>
      reads this`tree, this`data, this`timeoList
    {
      Deadlines(Elems(timeoList) + Nodes(tree), data)
    }

    ghost predicate Valid()
      reads this, timeoTree, Nodes(tree)
    {
      Linked() && Indexed(nodes, data) && Armed(timerfd, Agenda())
    }

    /** `timeo_tree` is a red-black tree in the order of the deadlines, and `tree_first`
        is its first node. */
    ghost predicate TreeOk()
      reads this`tree, this`treeFirst, this`data, timeoTree, Nodes(tree)
    {
      && IsTree(tree, timeoTree) && RbTree.Valid(tree)
      && Sorted(Inorder(tree), data) && treeFirst == First(Inorder(tree))
    }

    /** Where a node with this deadline goes: behind all that are not later. */
    method FindPlace(node: RbNode) returns (parent: RbNode?, link: Link, first: bool, ghost z: Path<RbNode>)
      requires TreeOk() && node in data
      ensures At(z, Leaf, null, timeoTree) && Plug(z, Leaf) == tree && parent == PathTop(z)
      ensures PathNodes(z) == Nodes(tree)
      ensures link == LinkOf(z) && Splits(z, data[node].timeout, data) && (first <==> Before(z) == [])
      ensures first <==> Earlier(data[node].timeout, Deadlines(Nodes(tree), data))
      ensures treeFirst != null ==> treeFirst in Nodes(tree)
    {
      hide RedBlack, Sorted, Earlier, Deadlines, Elems;
      var p := timeoTree.node;
      parent, link, first, z := null, RootLink, true, Top;
      ghost var t := tree;
      while p != null
        invariant At(z, t, p, timeoTree) && Plug(z, t) == tree && parent == PathTop(z)
        invariant Nodes(t) + PathNodes(z) == Nodes(tree)
        invariant link == LinkOf(z) && Splits(z, data[node].timeout, data) && (first <==> Before(z) == [])
        decreases t
      {
        parent := p;
        NodeOrNull(t, p, PathTop(z));
        FocusLeft(z, t, p, timeoTree);
        FocusRight(z, t, p, timeoTree);
        Descends(z, t, data[node].timeout, data);
        if Cmp(data[node].timeout, data[p].timeout) < 0 {
          z, t := LeftOf(z, t.color, t.val, t.right), t.left;
          p, link := p.left, LeftLink;
        } else {
          z, t := RightOf(z, t.color, t.val, t.left), t.right;
          p, link, first := p.right, RightLink, false;
        }
      }
      NodeOrNull(t, p, PathTop(z));
      InorderPlug(z, Leaf);
      TreeElems(tree);
      FirstIfEarliest(Before(z), After(z), Nodes(tree), data[node].timeout, data);
    }

    /** `__poller_tree_insert` */
    method TreeInsert(node: RbNode)
      requires TreeOk() && node in data && node !in Nodes(tree)
      modifies this`tree, this`treeFirst, this`data, timeoTree, node, Nodes(tree)
      ensures TreeOk() && Nodes(tree) == old(Nodes(tree)) + {node}
      ensures data == old(data)[node := old(data)[node].(inRbtree := true)]
      ensures treeFirst == node <==> Earlier(old(data)[node].timeout, Deadlines(old(Nodes(tree)), old(data)))
    {
      hide RedBlack, Sorted, PathValid, InsertFix, Earlier, Deadlines, Inorder;
      var parent, link, first;
      ghost var z;
      parent, link, first, z := FindPlace(node);
      if first {
        treeFirst := node;
      }
      data := data[node := data[node].(inRbtree := true)];
      InorderPlug(z, Leaf);
      InsertedOrder(z, node, old(data), data);
      tree := LinkAndColor(node, parent, link, timeoTree, z);
      FirstInserted(Before(z), After(z), node, old(treeFirst));
    }

    /** `tree_first` moves on when its node is about to leave. */
    method SkipFirst(node: RbNode, ghost z: Path<RbNode>, ghost t: Tree<RbNode>)
      requires Visits(z, t, node, timeoTree, tree) && treeFirst == First(Inorder(tree))
      requires node == First(Inorder(tree)) <==> Position(z, t) == 0
      modifies this`treeFirst
      ensures treeFirst == if Position(z, t) > 0 then First(Inorder(tree))
                           else if |Inorder(tree)| == 1 then null else Inorder(tree)[1]
    {
      hide Visits, Position, Inorder, First;
      if node == treeFirst {
        var next, nz, nt := RbNext(node, timeoTree, tree, z, t);
        treeFirst := next;
      }
    }

    /** Take a node out of the tree. */
    method Detach(node: RbNode)
      requires TreeOk() && node in Nodes(tree)
      modifies this`tree, this`treeFirst, timeoTree, Nodes(tree)
      ensures TreeOk() && Nodes(tree) == old(Nodes(tree)) - {node}
    {
      hide Sorted, Erase, RedBlack, RbTree.Valid, Inorder, Plug, First, PathValid, Position;
      Unfocused(tree, timeoTree);
      ghost var z, t := Locate(Top, tree, timeoTree.node, timeoTree, node);
      RemovedOrder(tree, z, t, data);
      NodesAllocated(t);
      PathNodesAllocated(z);
      SkipFirst(node, z, t);
      RbErase(node, timeoTree, z, t);
      tree := Erase(z, t);
    }

    /** `__poller_tree_erase` */
    method TreeErase(node: RbNode)
      requires TreeOk() && node in data && node in Nodes(tree)
      modifies this`tree, this`treeFirst, this`data, timeoTree, Nodes(tree)
      ensures TreeOk() && Nodes(tree) == old(Nodes(tree)) - {node}
      ensures data == old(data)[node := old(data)[node].(inRbtree := false)]
    {
      Detach(node);
      SortedFrame(Inorder(tree), data, data[node := data[node].(inRbtree := false)]);
      data := data[node := data[node].(inRbtree := false)];
    }

    ghost predicate AgendaHas(node: RbNode)
      requires node in data
      reads this`tree, this`data, this`timeoList
    {
      node in Agenda() && Agenda()[node] == data[node].timeout
    }

    lemma AgendaEntry(node: RbNode)
      requires node in data && AgendaHas(node)
      ensures node in Agenda() && Agenda()[node] == data[node].timeout
    {
    }

    lemma ListMembers()
      requires Linked()
      ensures timeoList != [] ==> timeoList[0] in data && timeoList[|timeoList| - 1] in data
      ensures timeoList != [] ==> !data[timeoList[0]].inRbtree && AgendaHas(timeoList[0])
      ensures treeFirst != null ==> treeFirst in data && data[treeFirst].inRbtree && AgendaHas(treeFirst)
    {
      SplitOrder(timeoList, noTimeoList, tree, data, timeoTree);
      OrderElems(tree, timeoTree);
      if timeoList != [] {
        assert timeoList[0] in Elems(timeoList);
      }
    }

    /** The list takes a node that is not before its last one. */
    method AddLast(node: RbNode, fields: NodeData)
      requires Linked() && node !in data && !fields.inRbtree
      requires timeoList != [] ==> timeoList[|timeoList| - 1] in data
      requires timeoList == [] || Cmp(fields.timeout, data[timeoList[|timeoList| - 1]].timeout) >= 0
      modifies this`data, this`timeoList
      ensures Linked() && data == old(data)[node := fields] && timeoList == old(timeoList) + [node]
      ensures Agenda() == old(Agenda())[node := fields.timeout]
      ensures treeFirst != null ==> treeFirst in data && treeFirst != node
      ensures Earlier(fields.timeout, old(Agenda())) <==>
              old(timeoList) == [] && (treeFirst == null || Cmp(fields.timeout, data[treeFirst].timeout) < 0)
    {
      hide RbTree.Valid, Sorted, Apart, Deadlines, Earlier, Elems, IsTree;
      ghost var order := Inorder(tree);
      SplitOrder(timeoList, noTimeoList, tree, data, timeoTree);
      SortedFrame(order, data, data[node := fields]);
      ListKeeps(timeoList, noTimeoList, Nodes(tree), data, node, fields);
      ListRule(timeoList, order, Nodes(tree), data, fields.timeout);
      data := data[node := fields];
      timeoList := timeoList + [node];
    }

    /** The tree takes any other node. */
    method AddToTree(node: RbNode, fields: NodeData)
      requires Linked() && node !in data && timeoList != []
      modifies this`data, this`tree, this`treeFirst, timeoTree, node, Nodes(tree)
      ensures Linked() && data == old(data)[node := fields.(inRbtree := true)]
      ensures Agenda() == old(Agenda())[node := fields.timeout]
      ensures timeoList[0] in data && timeoList[0] != node
      ensures Earlier(fields.timeout, old(Agenda())) <==>
              treeFirst == node && Cmp(fields.timeout, data[timeoList[0]].timeout) < 0
    {
      hide RbTree.Valid, Sorted, Apart, Deadlines, Earlier, Elems, IsTree, First;
      ghost var order, before, d := Inorder(tree), Nodes(tree), data;
      SplitOrder(timeoList, noTimeoList, tree, data, timeoTree);
      SortedFrame(order, d, d[node := fields]);
      TreeKeeps(timeoList, noTimeoList, before, d, node, fields);
      TreeRule(timeoList, before, d, fields.timeout);
      SameDeadlines(before, d, node, fields);
      data := data[node := fields];
      TreeInsert(node);
      assert data == d[node := fields.(inRbtree := true)];
    }

    /** The two places of a node with a deadline, and how to see there whether it is now the
        earliest. */
    method Place(node: RbNode, fields: NodeData)
      requires Linked() && node !in data && !fields.inRbtree
      modifies this`data, this`timeoList, this`tree, this`treeFirst, timeoTree, node, Nodes(tree)
      ensures Linked() && node in data && data == old(data)[node := fields.(inRbtree := data[node].inRbtree)]
      ensures Agenda() == old(Agenda())[node := fields.timeout]
      ensures timeoList != [] && timeoList[0] in data && (treeFirst != null ==> treeFirst in data)
      ensures Earlier(fields.timeout, old(Agenda())) <==>
              if node == timeoList[0] then treeFirst == null || Cmp(fields.timeout, data[treeFirst].timeout) < 0
              else node == treeFirst && Cmp(fields.timeout, data[timeoList[0]].timeout) < 0
    {
      ListMembers();
      hide Linked, Agenda, Earlier;
      if timeoList == [] || Cmp(fields.timeout, data[timeoList[|timeoList| - 1]].timeout) >= 0 {
        AddLast(node, fields);
      } else {
        AddToTree(node, fields);
        ListMembers();
      }
    }

    /** `__poller_insert_node` */
    method InsertNode(node: RbNode, fields: NodeData)
      requires Linked() && Armed(timerfd, Agenda()) && node !in data
      requires !fields.inRbtree && fields.timeout != ZERO
      modifies this`data, this`timeoList, this`tree, this`treeFirst, this`timerfd, timeoTree, node, Nodes(tree)
      ensures Linked() && Armed(timerfd, Agenda())
      ensures node in data && data == old(data)[node := fields.(inRbtree := data[node].inRbtree)]
      ensures Agenda() == old(Agenda())[node := fields.timeout]
      ensures timerfd == if Earlier(fields.timeout, old(Agenda())) then Some(fields.timeout) else old(timerfd)
    {
      hide Linked, Agenda, Earlier, Armed;
      ArmedInsert(timerfd, Agenda(), node, fields.timeout);
      Place(node, fields);
      var end: RbNode?;
      if node == timeoList[0] {
        end := treeFirst;
      } else if node == treeFirst {
        end := timeoList[0];
      } else {
        return;
      }
      if end == null || Cmp(fields.timeout, data[end].timeout) < 0 {
        NodesAllocated(tree);
        timerfd := SetTimerfd(fields.timeout);
      }
    }

    /** `list_del` */
    method ListDel(node: RbNode)
      requires Linked() && node in data && !data[node].inRbtree
      modifies this`data, this`timeoList, this`noTimeoList
      ensures Linked() && data == old(data) - {node} && Agenda() == old(Agenda()) - {node}
    {
      hide RbTree.Valid, Sorted, Deadlines, IsTree, First, Elems, NoDup;
      OrderElems(tree, timeoTree);
      OneList(timeoList, noTimeoList, Nodes(tree), data, node);
      SortedFrame(Inorder(tree), data, data - {node});
      if node in timeoList {
        var k :| 0 <= k < |timeoList| && timeoList[k] == node;
        LeftList(timeoList, noTimeoList, Nodes(tree), data, k);
        timeoList := timeoList[..k] + timeoList[k + 1..];
      } else {
        var k :| 0 <= k < |noTimeoList| && noTimeoList[k] == node;
        LeftOthers(timeoList, noTimeoList, Nodes(tree), data, k);
        noTimeoList := noTimeoList[..k] + noTimeoList[k + 1..];
      }
      data := data - {node};
    }

    method TreeDel(node: RbNode)
      requires Linked() && node in data && data[node].inRbtree
      modifies this`data, this`tree, this`treeFirst, timeoTree, Nodes(tree)
      ensures Linked() && data == old(data) - {node} && Agenda() == old(Agenda()) - {node}
      ensures Nodes(tree) == old(Nodes(tree)) - {node}
    {
      hide RbTree.Valid, Sorted, Deadlines, First, Elems, NoDup, IsTree, Inorder;
      LeftTree(timeoList, noTimeoList, Nodes(tree), data, node);
      TreeErase(node);
      OrderElems(tree, timeoTree);
      SortedFrame(Inorder(tree), data, data - {node});
      assert data - {node} == old(data) - {node};
      NodesAllocated(tree);
      data := data - {node};
    }

    /** Out of the structure that `in_rbtree` names. */
    method Unlink(node: RbNode) returns (fields: NodeData)
      requires Linked() && node in data
      modifies this`data, this`timeoList, this`noTimeoList, this`tree, this`treeFirst, timeoTree, Nodes(tree)
      ensures Nodes(tree) <= old(Nodes(tree)) && (old(data)[node].inRbtree ==> timeoList == old(timeoList))
      ensures Linked() && data == old(data) - {node} && Agenda() == old(Agenda()) - {node}
      ensures fields == old(data)[node].(inRbtree := false)
    {
      hide Linked, Agenda;
      fields := data[node].(inRbtree := false);
      if data[node].inRbtree {
        TreeDel(node);
      } else {
        ListDel(node);
      }
    }

    /** `__poller_set_timer` */
    method SetTimer()
      requires Valid()
      modifies this`timerfd
      ensures Valid() && Exact(timerfd, Agenda())
    {
      EarliestOfBoth();
      NodesAllocated(tree);
      hide Linked, Agenda, Exact;
      var node: RbNode? := null;
      if timeoList != [] {
        node := timeoList[0];
      }
      if treeFirst != null {
        if node == null || Cmp(data[treeFirst].timeout, data[node].timeout) < 0 {
          node := treeFirst;
        }
      }
      timerfd := SetTimerfd(if node != null then data[node].timeout else ZERO);
    }

    /** The earliest deadline is the earlier of the two first ones. */
    lemma EarliestOfBoth()
      requires Valid()
      ensures timeoList != [] ==> timeoList[0] in data
      ensures treeFirst != null ==> treeFirst in data
      ensures var l, t := First(timeoList), treeFirst;
              var n := if t != null && (l == null || Cmp(data[t].timeout, data[l].timeout) < 0) then t else l;
              Exact(SetTimerfd(if n != null then data[n].timeout else ZERO), Agenda())
    {
      ListMembers();
      TreeElems(tree);
      ExactRule(timeoList, Inorder(tree), Nodes(tree), data, timerfd);
    }

    /** `nodes[fd] = NULL` for a node that is about to leave. */
    method Forget(node: RbNode)
      requires Linked() && Indexed(nodes, data) && node in data
      modifies this`nodes
      ensures Linked() && Indexed(nodes, data - {node})
      ensures nodes == if data[node].fd >= 0 then old(nodes) - {data[node].fd} else old(nodes)
    {
      NodesAllocated(tree);
      if data[node].fd >= 0 {
        nodes := nodes - {data[node].fd};
      }
    }

    /** A node leaves the poller. */
    method Drop(node: RbNode)
      requires Linked() && Indexed(nodes, data) && node in data
      modifies this`data, this`timeoList, this`noTimeoList, this`tree, this`treeFirst, this`nodes, timeoTree,
               Nodes(tree)
      ensures Linked() && Indexed(nodes, data)
      ensures data == old(data) - {node} && Agenda() == old(Agenda()) - {node}
      ensures nodes == if old(data)[node].fd >= 0 then old(nodes) - {old(data)[node].fd} else old(nodes)
      ensures Nodes(tree) <= old(Nodes(tree)) && (old(data)[node].inRbtree ==> timeoList == old(timeoList))
    {
      hide Linked, Agenda, Indexed;
      Forget(node);
      var fields := Unlink(node);
    }

    /** When both first nodes are not before `now`, no node is. */
    lemma NothingLeft(now: Time)
      requires Linked()
      requires timeoList != [] ==> timeoList[0] in data && Cmp(data[timeoList[0]].timeout, now) >= 0
      requires treeFirst != null ==> treeFirst in data && Cmp(data[treeFirst].timeout, now) >= 0
      ensures forall n <- Agenda() :: Cmp(Agenda()[n], now) >= 0
    {
      TreeElems(tree);
      NoneBefore(timeoList, Inorder(tree), Nodes(tree), data, now);
    }

    /** One node expires. */
    method Expire(node: RbNode, now: Time, sofar: seq<RbNode>, ghost agenda: map<RbNode, Time>, ghost d: Table)
      returns (expired: seq<RbNode>)
      requires Linked() && Indexed(nodes, data) && Expiring(agenda, d, Agenda(), data, sofar, now)
      requires node in data && AgendaHas(node) && Cmp(data[node].timeout, now) < 0
      modifies this`data, this`timeoList, this`noTimeoList, this`tree, this`treeFirst, this`nodes, timeoTree,
               Nodes(tree)
      ensures Linked() && Indexed(nodes, data) && Expiring(agenda, d, Agenda(), data, expired, now)
      ensures Nodes(tree) <= old(Nodes(tree)) && (old(data)[node].inRbtree ==> timeoList == old(timeoList))
      ensures data == old(data) - {node} && |data.Keys| < |old(data).Keys|
    {
      AgendaEntry(node);
      hide Linked, Agenda, Indexed, Expiring, AgendaHas;
      Expired(agenda, d, Agenda(), data, sofar, now, node);
      Drop(node);
      expired := sofar + [node];
    }

    /** What is before `now` leaves the list, whose first entry is its earliest. */
    method ExpireList(now: Time, ghost agenda: map<RbNode, Time>, ghost d: Table) returns (expired: seq<RbNode>)
      requires Linked() && Indexed(nodes, data) && agenda == Agenda() && d == data
      modifies this`data, this`timeoList, this`noTimeoList, this`tree, this`treeFirst, this`nodes, timeoTree,
               Nodes(tree)
      ensures Linked() && Indexed(nodes, data) && Nodes(tree) <= old(Nodes(tree))
      ensures Expiring(agenda, d, Agenda(), data, expired, now)
      ensures timeoList != [] ==> timeoList[0] in data && Cmp(data[timeoList[0]].timeout, now) >= 0
    {
      hide Linked, Agenda, Cmp, Indexed, Expiring, AgendaHas, Nodes;
      NoneExpired(agenda, d, now);
      expired := [];
      while timeoList != []
        invariant Linked() && Indexed(nodes, data) && Nodes(tree) <= old(Nodes(tree))
        invariant Expiring(agenda, d, Agenda(), data, expired, now)
        decreases |data.Keys|
      {
        var node := timeoList[0];
        ListMembers();
        if Cmp(data[node].timeout, now) >= 0 {
          break;
        }
        expired := Expire(node, now, expired, agenda, d);
      }
    }

    /** The same for the tree. */
    method ExpireTree(now: Time, first: seq<RbNode>, ghost agenda: map<RbNode, Time>, ghost d: Table)
      returns (expired: seq<RbNode>)
      requires Linked() && Indexed(nodes, data) && Expiring(agenda, d, Agenda(), data, first, now)
      requires timeoList != [] ==> timeoList[0] in data && Cmp(data[timeoList[0]].timeout, now) >= 0
      modifies this`data, this`timeoList, this`noTimeoList, this`tree, this`treeFirst, this`nodes, timeoTree,
               Nodes(tree)
      ensures Linked() && Indexed(nodes, data) && Expiring(agenda, d, Agenda(), data, expired, now)
      ensures timeoList != [] ==> timeoList[0] in data && Cmp(data[timeoList[0]].timeout, now) >= 0
      ensures treeFirst != null ==> treeFirst in data && Cmp(data[treeFirst].timeout, now) >= 0
    {
      hide Linked, Agenda, Cmp, Indexed, Expiring, AgendaHas, Nodes;
      expired := first;
      while treeFirst != null
        invariant Linked() && Indexed(nodes, data) && Nodes(tree) <= old(Nodes(tree))
        invariant Expiring(agenda, d, Agenda(), data, expired, now)
        invariant timeoList != [] ==> timeoList[0] in data && Cmp(data[timeoList[0]].timeout, now) >= 0
        decreases |data.Keys|
      {
        var node := treeFirst;
        ListMembers();
        if Cmp(data[node].timeout, now) >= 0 {
          break;
        }
        expired := Expire(node, now, expired, agenda, d);
        ListMembers();
      }
    }

    /** `__poller_handle_timeout`: exactly the nodes before `now` leave. */
    method HandleTimeout(now: Time) returns (expired: seq<RbNode>)
      requires Valid()
      modifies this`data, this`timeoList, this`noTimeoList, this`tree, this`treeFirst, this`nodes, timeoTree,
               Nodes(tree)
      ensures Valid()
      ensures NoDup(expired) && Elems(expired) == set n <- old(Agenda()) | Cmp(old(Agenda())[n], now) < 0
      ensures data == old(data) - Elems(expired) && Agenda() == old(Agenda()) - Elems(expired)
    {
      hide Linked, Agenda, Cmp, Indexed, Expiring, Elems, NoDup, Armed;
      expired := ExpireList(now, old(Agenda()), old(data));
      expired := ExpireTree(now, expired, old(Agenda()), old(data));
      NothingLeft(now);
      AllExpired(old(Agenda()), old(data), Agenda(), data, expired, now, timerfd);
    }

    /** A node without a deadline. */
    method AddUntimed(node: RbNode, fields: NodeData)
      requires Linked() && node !in data && !fields.inRbtree
      modifies this`data, this`noTimeoList
      ensures Linked() && data == old(data)[node := fields] && Agenda() == old(Agenda())
    {
      hide RbTree.Valid, Sorted, Apart, Deadlines, Elems, IsTree, First;
      SplitOrder(timeoList, noTimeoList, tree, data, timeoTree);
      SortedFrame(Inorder(tree), data, data[node := fields]);
      UntimedKeeps(timeoList, noTimeoList, Nodes(tree), data, node, fields);
      data := data[node := fields];
      noTimeoList := noTimeoList + [node];
    }

    /** Into a structure, with the deadline when there is one. */
    method Enroll(node: RbNode, fd: int, deadline: Option<Time>)
      requires Linked() && Armed(timerfd, Agenda()) && node !in data && deadline != Some(ZERO)
      modifies this`data, this`timeoList, this`noTimeoList, this`tree, this`treeFirst, this`timerfd, timeoTree,
               node, Nodes(tree)
      ensures Linked() && Armed(timerfd, Agenda())
      ensures node in data && data == old(data)[node := data[node]] && data[node].fd == fd
      ensures Agenda() == Scheduled(old(Agenda()), node, deadline)
      ensures timerfd == Rearmed(old(timerfd), old(Agenda()), deadline)
    {
      hide Linked, Agenda, Armed, Earlier;
      match deadline
      case Some(t) => InsertNode(node, NodeData(fd, t, false));
      case None => AddUntimed(node, NodeData(fd, ZERO, false));
    }

    /** Only known nodes have a deadline. */
    lemma NotTimed(node: RbNode)
      requires Linked()
      ensures node in Agenda() ==> node in data
    {
    }

    /** `poller_add`; `polled` says whether epoll took the descriptor. */
    method Add(node: RbNode, fd: int, timeout: int, now: Time, polled: bool) returns (status: Status)
      requires Valid() && node !in data && Running(now)
      modifies this`data, this`timeoList, this`noTimeoList, this`tree, this`treeFirst, this`nodes, this`timerfd,
               timeoTree, node, Nodes(tree)
      ensures Valid()
      ensures status == if fd < 0 then BadFd else if fd >= maxOpenFiles then TooMany
                        else if fd in old(nodes) then Exists else if !polled then Refused else Done
      ensures status != Done ==>
                && data == old(data) && nodes == old(nodes) && Agenda() == old(Agenda()) && timerfd == old(timerfd)
      ensures status == Done ==>
                && nodes == old(nodes)[fd := node] && node in data && data == old(data)[node := data[node]]
                && Timed(old(Agenda()), Agenda(), node, timeout, now)
                && timerfd == Rearmed(old(timerfd), old(Agenda()), Due(now, timeout))
    {
      hide Linked, Agenda, Indexed, Armed, Earlier, Timed, Scheduled, Rearmed;
      if fd < 0 || fd >= maxOpenFiles {
        return if fd < 0 then BadFd else TooMany;
      }
      if fd in nodes {
        return Exists;
      }
      if !polled {
        return Refused;
      }
      ghost var d := data;
      NotTimed(node);
      TimedIs(Agenda(), node, timeout, now);
      Enroll(node, fd, Due(now, timeout));
      IndexAdd(nodes, d, node, data[node]);
      NodesAllocated(tree);
      nodes := nodes[fd := node];
      return Done;
    }

    /** `poller_del` */
    method Del(fd: int) returns (status: Status)
      requires Valid()
      modifies this`data, this`timeoList, this`noTimeoList, this`tree, this`treeFirst, this`nodes, timeoTree,
               Nodes(tree)
      ensures Valid()
      ensures status == if fd < 0 then BadFd else if fd >= maxOpenFiles then TooMany
                        else if fd !in old(nodes) then Missing else Done
      ensures status != Done ==> data == old(data) && nodes == old(nodes) && Agenda() == old(Agenda())
      ensures status == Done ==>
                && nodes == old(nodes) - {fd} && data == old(data) - {old(nodes)[fd]}
                && Agenda() == old(Agenda()) - {old(nodes)[fd]}
    {
      hide Linked, Agenda, Armed;
      if fd < 0 || fd >= maxOpenFiles {
        return if fd < 0 then BadFd else TooMany;
      }
      if fd !in nodes {
        return Missing;
      }
      var node := nodes[fd];
      ArmedPart(timerfd, Agenda(), node);
      Drop(node);
      return Done;
    }

    /** `poller_mod`: another node takes over the descriptor. */
    method Mod(node: RbNode, fd: int, timeout: int, now: Time) returns (status: Status)
      requires Valid() && node !in data && Running(now)
      modifies this`data, this`timeoList, this`noTimeoList, this`tree, this`treeFirst, this`nodes, this`timerfd,
               timeoTree, node, Nodes(tree)
      ensures Valid()
      ensures status == if fd < 0 then BadFd else if fd >= maxOpenFiles then TooMany
                        else if fd !in old(nodes) then Missing else Done
      ensures status != Done ==>
                && data == old(data) && nodes == old(nodes) && Agenda() == old(Agenda()) && timerfd == old(timerfd)
      ensures status == Done ==>
                var rest := old(Agenda()) - {old(nodes)[fd]};
                && nodes == old(nodes)[fd := node]
                && node in data && data == (old(data) - {old(nodes)[fd]})[node := data[node]]
                && Timed(rest, Agenda(), node, timeout, now)
                && timerfd == Rearmed(old(timerfd), rest, Due(now, timeout))
    {
      hide Linked, Agenda, Armed, Earlier, Timed, Scheduled, Rearmed;
      if fd < 0 || fd >= maxOpenFiles {
        return if fd < 0 then BadFd else TooMany;
      }
      if fd !in nodes {
        return Missing;
      }
      var was := nodes[fd];
      ArmedPart(timerfd, Agenda(), was);
      NotTimed(node);
      TimedIs(Agenda() - {was}, node, timeout, now);
      Replace(was, node, fd, Due(now, timeout));
      IndexMove(nodes, old(data), was, node, data[node]);
      NodesAllocated(tree);
      nodes := nodes[fd := node];
      return Done;
    }

    /** One node leaves and one comes. */
    method Replace(was: RbNode, node: RbNode, fd: int, deadline: Option<Time>)
      requires Linked() && was in data && Armed(timerfd, Agenda() - {was}) && deadline != Some(ZERO)
      requires node in data ==> node == was
      modifies this`data, this`timeoList, this`noTimeoList, this`tree, this`treeFirst, this`timerfd, timeoTree,
               node, Nodes(tree)
      ensures Linked() && Armed(timerfd, Agenda())
      ensures node in data && data == (old(data) - {was})[node := data[node]] && data[node].fd == fd
      ensures Agenda() == Scheduled(old(Agenda()) - {was}, node, deadline)
      ensures timerfd == Rearmed(old(timerfd), old(Agenda()) - {was}, deadline)
    {
      hide Linked, Agenda, Armed, Scheduled, Rearmed;
      var fields := Unlink(was);
      Enroll(node, fd, deadline);
    }

    /** `poller_set_timeout`: the same node gets another deadline, or none. */
    method SetTimeout(fd: int, timeout: int, now: Time) returns (status: Status)
      requires Valid() && Running(now)
      modifies this`data, this`timeoList, this`noTimeoList, this`tree, this`treeFirst, this`timerfd, timeoTree,
               data.Keys, Nodes(tree)
      ensures Valid()
      ensures status == if fd < 0 then BadFd else if fd >= maxOpenFiles then TooMany
                        else if fd !in old(nodes) then Missing else Done
      ensures status != Done ==> data == old(data) && Agenda() == old(Agenda()) && timerfd == old(timerfd)
      ensures status == Done ==>
                var node := nodes[fd];
                var rest := old(Agenda()) - {node};
                && node in data && data == old(data)[node := data[node]]
                && Timed(rest, Agenda(), node, timeout, now)
                && timerfd == Rearmed(old(timerfd), rest, Due(now, timeout))
    {
      hide Linked, Agenda, Armed, Earlier, Timed, Scheduled, Rearmed;
      if fd < 0 || fd >= maxOpenFiles {
        return if fd < 0 then BadFd else TooMany;
      }
      if fd !in nodes {
        return Missing;
      }
      var node := nodes[fd];
      ArmedPart(timerfd, Agenda(), node);
      TimedIs(Agenda() - {node}, node, timeout, now);
      Replace(node, node, fd, Due(now, timeout));
      IndexKeeps(nodes, old(data), node, data[node]);
      return Done;
    }

    /** `poller_add_timer` */
    method AddTimer(node: RbNode, value: Time, now: Time)
      requires Valid() && node !in data && Plus(now, value) != ZERO
      modifies this`data, this`timeoList, this`noTimeoList, this`tree, this`treeFirst, this`timerfd, timeoTree,
               node, Nodes(tree)
      ensures Valid() && nodes == old(nodes) && node in data && data == old(data)[node := data[node]]
      ensures Agenda() == Scheduled(old(Agenda()), node, Some(Plus(now, value)))
      ensures timerfd == Rearmed(old(timerfd), old(Agenda()), Some(Plus(now, value)))
    {
      hide Linked, Agenda, Armed, Earlier;
      Enroll(node, -1, Some(Plus(now, value)));
      IndexTimer(nodes, old(data), node, data[node]);
    }
  }

  datatype Status = Done | BadFd | TooMany | Exists | Missing | Refused

  /** A reading of the monotonic clock of a system that is up. */
  ghost predicate Running(now: Time) { Normal(now) && Nanos(now) > 0 }

  /** A negative timeout means none. */
  function Due(now: Time, timeout: int): (deadline: Option<Time>)
    requires Normal(now)
    ensures timeout < 0 <==> deadline == None
    ensures deadline.Some? ==>
              Normal(deadline.value) && Nanos(deadline.value) == Nanos(now) + timeout * 1_000_000
    ensures Running(now) ==> deadline != Some(ZERO)
  {
    if timeout >= 0 then Some(Deadline(now, timeout)) else None
  }

  /** The agenda has the node with a deadline so many milliseconds after now, or does not have
      it at all when the timeout is negative; the others stay. */
  ghost predicate Timed(was: map<RbNode, Time>, agenda: map<RbNode, Time>, node: RbNode, timeout: int, now: Time)
  {
    && agenda - {node} == was - {node}
    && (node in agenda <==> timeout >= 0)
    && (timeout >= 0 ==> Normal(agenda[node]) && Nanos(agenda[node]) == Nanos(now) + timeout * 1_000_000)
  }

  lemma TimedIs(was: map<RbNode, Time>, node: RbNode, timeout: int, now: Time)
    requires Normal(now) && node !in was
    ensures Timed(was, Scheduled(was, node, Due(now, timeout)), node, timeout, now)
  {
    assert was - {node} == was;
    if timeout >= 0 {
      var agenda := Scheduled(was, node, Due(now, timeout));
      assert agenda - {node} == was;
    }
  }

  ghost function Scheduled(agenda: map<RbNode, Time>, node: RbNode, deadline: Option<Time>): map<RbNode, Time>
  {
    if deadline.Some? then agenda[node := deadline.value] else agenda
  }

  /** The timer is set exactly when the new deadline is before all others. */
  ghost function Rearmed(timer: Option<Time>, agenda: map<RbNode, Time>, deadline: Option<Time>): Option<Time>
  {
    if deadline.Some? && Earlier(deadline.value, agenda) then deadline else timer
  }

  lemma UntimedKeeps(list: seq<RbNode>, others: seq<RbNode>, tree: set<RbNode>, d: Table, node: RbNode,
          fields: NodeData)
    requires Sorted(list, d) && Apart(list, others, tree, d) && node !in d && !fields.inRbtree
    ensures var e := d[node := fields];
            && Sorted(list, e) && Apart(list, others + [node], tree, e)
            && Deadlines(Elems(list) + tree, e) == Deadlines(Elems(list) + tree, d)
  {
    var e := d[node := fields];
    assert Elems(others + [node]) == Elems(others) + {node};
    forall i | 0 <= i < |list| ensures list[i] in d && list[i] != node { assert list[i] in Elems(list); }
    forall i | 0 <= i < |others| ensures others[i] in d && others[i] != node { assert others[i] in Elems(others); }
    assert node !in tree && node !in Elems(list);
    SortedFrame(list, d, e);
  }

  lemma ArmedPart(timer: Option<Time>, agenda: map<RbNode, Time>, node: RbNode)
    requires Armed(timer, agenda)
    ensures Armed(timer, agenda - {node})
  {
  }

  lemma IndexAdd(nodes: map<int, RbNode>, d: Table, node: RbNode, fields: NodeData)
    requires Indexed(nodes, d) && node !in d && fields.fd >= 0 && fields.fd !in nodes
    ensures Indexed(nodes[fields.fd := node], d[node := fields])
  {
  }

  lemma IndexMove(nodes: map<int, RbNode>, d: Table, was: RbNode, node: RbNode, fields: NodeData)
    requires Indexed(nodes, d) && node !in d && fields.fd in nodes && nodes[fields.fd] == was
    ensures Indexed(nodes[fields.fd := node], (d - {was})[node := fields])
  {
  }

  lemma IndexKeeps(nodes: map<int, RbNode>, d: Table, node: RbNode, fields: NodeData)
    requires Indexed(nodes, d) && fields.fd in nodes && nodes[fields.fd] == node
    ensures Indexed(nodes, (d - {node})[node := fields])
    ensures (d - {node})[node := fields] == d[node := fields]
  {
  }

  lemma IndexTimer(nodes: map<int, RbNode>, d: Table, node: RbNode, fields: NodeData)
    requires Indexed(nodes, d) && node !in d && fields.fd < 0
    ensures Indexed(nodes, d[node := fields])
  {
  }

  /** The timer stands for the earliest deadline, or is off when there is none. */
  ghost predicate Exact(timer: Option<Time>, agenda: map<RbNode, Time>)
  {
    Armed(timer, agenda) && if timer.None? then agenda == map[] else timer.value in agenda.Values
  }

  /** Part of the way through an expiry. */
  ghost predicate Expiring(agenda0: map<RbNode, Time>, d0: Table, agenda: map<RbNode, Time>, d: Table,
                           expired: seq<RbNode>, now: Time)
  {
    && NoDup(expired) && (forall n <- expired :: n in agenda0 && Cmp(agenda0[n], now) < 0)
    && agenda == agenda0 - Elems(expired) && d == d0 - Elems(expired)
  }

  lemma NoneExpired(agenda: map<RbNode, Time>, d: Table, now: Time)
    ensures Expiring(agenda, d, agenda, d, [], now)
  {
    assert agenda - Elems([]) == agenda && d - Elems([]) == d;
  }

  lemma Expired(agenda0: map<RbNode, Time>, d0: Table, agenda: map<RbNode, Time>, d: Table,
                expired: seq<RbNode>, now: Time, node: RbNode)
    requires Expiring(agenda0, d0, agenda, d, expired, now)
    requires node in agenda && Cmp(agenda[node], now) < 0 && node in d
    ensures Expiring(agenda0, d0, agenda - {node}, d - {node}, expired + [node], now)
    ensures |(d - {node}).Keys| < |d.Keys|
  {
    assert Elems(expired + [node]) == Elems(expired) + {node};
    assert node !in Elems(expired);
    assert (d - {node}).Keys == d.Keys - {node};
  }

  lemma AllExpired(agenda0: map<RbNode, Time>, d0: Table, agenda: map<RbNode, Time>, d: Table,
                   expired: seq<RbNode>, now: Time, timer: Option<Time>)
    requires Expiring(agenda0, d0, agenda, d, expired, now) && Armed(timer, agenda0)
    requires forall n <- agenda :: Cmp(agenda[n], now) >= 0
    ensures Elems(expired) == set n <- agenda0 | Cmp(agenda0[n], now) < 0
    ensures NoDup(expired) && Armed(timer, agenda) && d == d0 - Elems(expired) && agenda == agenda0 - Elems(expired)
  {
    forall n | n in agenda0 && Cmp(agenda0[n], now) < 0 ensures n in Elems(expired) {
      assert n !in agenda;
    }
  }

  lemma NoneBefore(list: seq<RbNode>, order: seq<RbNode>, tree: set<RbNode>, d: Table, now: Time)
    requires Sorted(list, d) && Sorted(order, d) && Elems(order) == tree
    requires list != [] ==> Cmp(d[list[0]].timeout, now) >= 0
    requires order != [] ==> Cmp(d[order[0]].timeout, now) >= 0
    ensures var agenda := Deadlines(Elems(list) + tree, d); forall n <- agenda :: Cmp(agenda[n], now) >= 0
  {
    var agenda := Deadlines(Elems(list) + tree, d);
    forall n | n in agenda ensures Cmp(agenda[n], now) >= 0 {
      assert n in list || n in order;
    }
  }

  lemma ExactRule(list: seq<RbNode>, order: seq<RbNode>, tree: set<RbNode>, d: Table, timer: Option<Time>)
    requires Sorted(list, d) && Sorted(order, d) && Elems(order) == tree
    requires Armed(timer, Deadlines(Elems(list) + tree, d))
    ensures var l, t := First(list), First(order);
            var n := if t != null && (l == null || Cmp(d[t].timeout, d[l].timeout) < 0) then t else l;
            Exact(SetTimerfd(if n != null then d[n].timeout else ZERO), Deadlines(Elems(list) + tree, d))
  {
    var agenda := Deadlines(Elems(list) + tree, d);
    var l, t := First(list), First(order);
    var n := if t != null && (l == null || Cmp(d[t].timeout, d[l].timeout) < 0) then t else l;
    if n != null {
      assert n in Elems(list) || n in Elems(order);
      assert n in agenda && agenda[n] in agenda.Values;
      forall x | x in agenda ensures Cmp(d[n].timeout, agenda[x]) <= 0 {
        assert x in list || x in order;
      }
    } else {
      assert list == [] && order == [];
    }
  }

  lemma Cut(s: seq<RbNode>, k: nat)
    requires k < |s| && NoDup(s)
    ensures Elems(s[..k] + s[k + 1..]) == Elems(s) - {s[k]} && NoDup(s[..k] + s[k + 1..])
  {
    var u := s[..k] + s[k + 1..];
    forall n | n in Elems(s) - {s[k]} ensures n in u {
      var i :| 0 <= i < |s| && s[i] == n;
      assert u[if i < k then i else i - 1] == n;
    }
    forall i | 0 <= i < |u| ensures u[i] == s[if i < k then i else i + 1] {}
  }

  lemma OneList(list: seq<RbNode>, others: seq<RbNode>, tree: set<RbNode>, d: Table, node: RbNode)
    requires Apart(list, others, tree, d) && node in d && !d[node].inRbtree
    ensures (node in list || node in others) && node !in tree && tree <= d.Keys
  {
    assert node in Elems(list) || node in Elems(others);
  }

  lemma LeftList(list: seq<RbNode>, others: seq<RbNode>, tree: set<RbNode>, d: Table, k: nat)
    requires Sorted(list, d) && Apart(list, others, tree, d) && k < |list|
    ensures var e, rest := d - {list[k]}, list[..k] + list[k + 1..];
            && Sorted(rest, e) && Apart(rest, others, tree, e) && list[k] !in tree
            && Deadlines(Elems(rest) + tree, e) == Deadlines(Elems(list) + tree, d) - {list[k]}
  {
    var e, rest := d - {list[k]}, list[..k] + list[k + 1..];
    Cut(list, k);
    SortedPart(list, k, k + 1, d);
    assert list[k] in Elems(list);
    forall n | n in rest ensures n in e { assert n in Elems(rest); }
    SortedFrame(rest, d, e);
  }

  lemma LeftOthers(list: seq<RbNode>, others: seq<RbNode>, tree: set<RbNode>, d: Table, k: nat)
    requires Sorted(list, d) && Apart(list, others, tree, d) && k < |others|
    ensures var e, rest := d - {others[k]}, others[..k] + others[k + 1..];
            && Sorted(list, e) && Apart(list, rest, tree, e) && others[k] !in tree
            && Deadlines(Elems(list) + tree, e) == Deadlines(Elems(list) + tree, d) - {others[k]}
  {
    var e := d - {others[k]};
    Cut(others, k);
    assert others[k] in Elems(others);
    forall n | n in list ensures n in e { assert n in Elems(list); }
    SortedFrame(list, d, e);
  }

  lemma LeftTree(list: seq<RbNode>, others: seq<RbNode>, tree: set<RbNode>, d: Table, node: RbNode)
    requires Sorted(list, d) && Apart(list, others, tree, d) && node in d && d[node].inRbtree
    ensures var e := d - {node};
            && Sorted(list, e) && Apart(list, others, tree - {node}, e) && node in tree
            && Deadlines(Elems(list) + (tree - {node}), e) == Deadlines(Elems(list) + tree, d) - {node}
  {
    var e := d - {node};
    forall n | n in list ensures n in e { assert n in Elems(list); }
    SortedFrame(list, d, e);
  }

  lemma SplitOrder(list: seq<RbNode>, others: seq<RbNode>, t: Tree<RbNode>, d: Table, root: RbRoot)
    requires Apart(list, others, Nodes(t), d) && IsTree(t, root)
    ensures forall n :: n in list ==> n in d
    ensures forall n :: n in Inorder(t) ==> n in d && n !in list
    ensures Nodes(t) <= d.Keys && Elems(Inorder(t)) == Nodes(t)
    ensures First(Inorder(t)) != null ==> First(Inorder(t)) in d && First(Inorder(t)) !in list
  {
    TreeElems(t);
    forall n | n in list ensures n in d { assert n in Elems(list); }
    forall n | n in Inorder(t) ensures n in d && n !in list {
      assert n in Elems(Inorder(t));
      assert n in list ==> n in Elems(list);
    }
  }

  lemma OrderElems(t: Tree<RbNode>, root: RbRoot)
    requires IsTree(t, root)
    ensures forall n :: n in Inorder(t) ==> n in Nodes(t)
  {
    TreeElems(t);
    forall n | n in Inorder(t) ensures n in Nodes(t) { assert n in Elems(Inorder(t)); }
  }

  lemma SameDeadlines(tree: set<RbNode>, d: Table, node: RbNode, fields: NodeData)
    requires node !in d && tree <= d.Keys
    ensures Deadlines(tree, d[node := fields]) == Deadlines(tree, d)
  {
  }

  lemma ListKeeps(list: seq<RbNode>, others: seq<RbNode>, tree: set<RbNode>, d: Table, node: RbNode, fields: NodeData)
    requires Sorted(list, d) && Apart(list, others, tree, d) && node !in d && !fields.inRbtree
    requires list == [] || Cmp(fields.timeout, d[list[|list| - 1]].timeout) >= 0
    ensures var e := d[node := fields];
            && Sorted(list + [node], e) && Apart(list + [node], others, tree, e)
            && Deadlines(Elems(list + [node]) + tree, e) == Deadlines(Elems(list) + tree, d)[node := fields.timeout]
  {
    var e := d[node := fields];
    assert Elems(list + [node]) == Elems(list) + {node};
    forall i | 0 <= i < |list| ensures list[i] in d && list[i] != node { assert list[i] in Elems(list); }
    assert node !in tree && node !in Elems(others);
  }

  lemma TreeKeeps(list: seq<RbNode>, others: seq<RbNode>, tree: set<RbNode>, d: Table, node: RbNode, fields: NodeData)
    requires Sorted(list, d) && Apart(list, others, tree, d) && node !in d
    ensures var e := d[node := fields.(inRbtree := true)];
            && Sorted(list, e) && Apart(list, others, tree + {node}, e)
            && Deadlines(Elems(list) + (tree + {node}), e) == Deadlines(Elems(list) + tree, d)[node := fields.timeout]
  {
    var e := d[node := fields.(inRbtree := true)];
    forall i | 0 <= i < |list| ensures list[i] in d && list[i] != node { assert list[i] in Elems(list); }
    assert node !in tree && node !in Elems(others);
    SortedFrame(list, d, e);
  }

  /** A node behind the list is the earliest only when the list was empty and it is before
      the first of the tree. */
  lemma ListRule(list: seq<RbNode>, order: seq<RbNode>, tree: set<RbNode>, d: Table, t: Time)
    requires Sorted(list, d) && Sorted(order, d) && Elems(order) == tree
    requires list == [] || Cmp(t, d[list[|list| - 1]].timeout) >= 0
    ensures Earlier(t, Deadlines(Elems(list) + tree, d)) <==>
            list == [] && (First(order) == null || Cmp(t, d[First(order)].timeout) < 0)
  {
    var agenda := Deadlines(Elems(list) + tree, d);
    if list != [] {
      var last := list[|list| - 1];
      assert last in Elems(list) && last in agenda;
    } else if order != [] {
      assert order[0] in Elems(order) && order[0] in agenda;
      forall n | n in agenda ensures Cmp(agenda[n], d[order[0]].timeout) >= 0 {
        assert n in order;
      }
    }
  }

  /** A node in the tree is the earliest when it is before the rest of the tree and before
      the head of the list. */
  lemma TreeRule(list: seq<RbNode>, tree: set<RbNode>, d: Table, t: Time)
    requires Sorted(list, d) && list != []
    ensures Earlier(t, Deadlines(Elems(list) + tree, d)) <==>
            Earlier(t, Deadlines(tree, d)) && Cmp(t, d[list[0]].timeout) < 0
  {
    var agenda := Deadlines(Elems(list) + tree, d);
    assert list[0] in Elems(list) && list[0] in agenda;
    assert forall n <- Deadlines(tree, d) :: n in agenda;
    forall n | n in Elems(list) ensures n in d && Cmp(d[n].timeout, d[list[0]].timeout) >= 0 {}
    if Earlier(t, Deadlines(tree, d)) && Cmp(t, d[list[0]].timeout) < 0 {
      forall n | n in agenda ensures Cmp(t, agenda[n]) < 0 {
        assert n in Elems(list) || n in Deadlines(tree, d);
      }
    }
  }

  /** Setting the timer for an earlier deadline, and only then, keeps it early enough. */
  lemma ArmedInsert(timer: Option<Time>, agenda: map<RbNode, Time>, node: RbNode, t: Time)
    requires Armed(timer, agenda) && t != ZERO
    ensures Armed(if Earlier(t, agenda) then Some(t) else timer, agenda[node := t])
  {
  }

  const ZERO := Time(0, 0)

  /** Setting the timer to zero disarms it. */
  function SetTimerfd(t: Time): Option<Time> { if t == ZERO then None else Some(t) }

  ghost predicate Apart(list: seq<RbNode>, others: seq<RbNode>, tree: set<RbNode>, d: Table)
  {
    && NoDup(list) && NoDup(others)
    && Elems(list) !! Elems(others) !! tree && d.Keys == Elems(list) + Elems(others) + tree
    && forall n <- d :: d[n].inRbtree <==> n in tree
  }

  ghost function Deadlines(pending: set<RbNode>, d: Table): map<RbNode, Time>
  {
    map n | n in pending && n in d :: d[n].timeout
  }

  /** `nodes[fd]` finds exactly the live nodes that have a descriptor. */
  ghost predicate Indexed(nodes: map<int, RbNode>, d: Table)
  {
    && (forall fd <- nodes :: fd >= 0 && nodes[fd] in d && d[nodes[fd]].fd == fd)
    && forall n <- d :: d[n].fd >= 0 ==> d[n].fd in nodes && nodes[d[n].fd] == n
  }

  ghost predicate Earlier(t: Time, agenda: map<RbNode, Time>)
  {
    forall n <- agenda :: Cmp(t, agenda[n]) < 0
  }

  /** The timer is never later than a pending deadline. */
  ghost predicate Armed(timer: Option<Time>, agenda: map<RbNode, Time>)
  {
    forall n <- agenda :: agenda[n] != ZERO && timer.Some? && Cmp(timer.value, agenda[n]) <= 0
  }

  /** Nothing is before the hole exactly when all of the tree is later. */
  lemma FirstIfEarliest(b: seq<RbNode>, a: seq<RbNode>, tree: set<RbNode>, key: Time, d: Table)
    requires Elems(b + [] + a) == tree
    requires forall x :: x in b ==> x in d && Cmp(key, d[x].timeout) >= 0
    requires forall x :: x in a ==> x in d && Cmp(key, d[x].timeout) < 0
    ensures tree <= d.Keys && (b == [] <==> Earlier(key, Deadlines(tree, d)))
    ensures First(b + [] + a) != null ==> First(b + [] + a) in tree
  {
    assert b + [] + a == b + a;
    forall x | x in tree ensures x in b || x in a {
      assert x in Elems(b + a);
    }
    if b != [] {
      var x := b[0];
      assert x in b && (b + a)[0] == x && x in Elems(b + a) && x in Deadlines(tree, d);
    } else if a != [] {
      assert (b + a)[0] in Elems(b + a);
    }
  }

  lemma Unfocused(t: Tree<RbNode>, root: RbRoot)
    requires IsTree(t, root)
    ensures Plug(Top, t) == t && PathNodes(Top) == {} && At(Top, t, root.node, root) && Distinct(t)
  {
  }

  /** The place of a node in the tree. */
  lemma {:induction false} Locate(z0: Path<RbNode>, t0: Tree<RbNode>, p: RbNode?, root: RbRoot, node: RbNode)
    returns (z: Path<RbNode>, t: Tree<RbNode>)
    requires At(z0, t0, p, root) && node in Nodes(t0)
    ensures At(z, t, node, root) && t.Node? && Plug(z, t) == Plug(z0, t0)
    ensures Nodes(t) + PathNodes(z) == Nodes(t0) + PathNodes(z0)
    decreases t0
  {
    NodeOrNull(t0, p, PathTop(z0));
    FocusLeft(z0, t0, p, root);
    FocusRight(z0, t0, p, root);
    if node == t0.val {
      z, t := z0, t0;
    } else if node in Nodes(t0.left) {
      z, t := Locate(LeftOf(z0, t0.color, t0.val, t0.right), t0.left, p.left, root, node);
    } else {
      z, t := Locate(RightOf(z0, t0.color, t0.val, t0.left), t0.right, p.right, root, node);
    }
  }

  /** A sorted order without its entry at `k`, and what comes first then. */
  lemma WithoutEntry(s: seq<RbNode>, k: nat, d: Table)
    requires k < |s| && Sorted(s, d) && NoDup(s)
    ensures Sorted(s[..k] + s[k + 1..], d)
    ensures First(s[..k] + s[k + 1..]) == if k > 0 then First(s) else if |s| == 1 then null else s[1]
    ensures s[k] == First(s) <==> k == 0
  {
    SortedPart(s, k, k + 1, d);
  }

  /** Erasing cuts the order at the node's position. */
  lemma ErasedCut<V>(z: Path<V>, t: Tree<V>)
    requires t.Node? && RbTree.Valid(Plug(z, t))
    ensures Inorder(Erase(z, t)) == (Before(z) + Inorder(t.left)) + (Inorder(t.right) + After(z))
  {
    hide Erase, RbTree.Valid, Plug, Before, After, Inorder;
    EraseCorrect(z, t);
    assert Before(z) + Inorder(t.left) + Inorder(t.right) + After(z) ==
           (Before(z) + Inorder(t.left)) + (Inorder(t.right) + After(z));
  }

  lemma RemovedOrder(whole: Tree<RbNode>, z: Path<RbNode>, t: Tree<RbNode>, d: Table)
    requires t.Node? && Plug(z, t) == whole && RbTree.Valid(whole) && Sorted(Inorder(whole), d) && Distinct(whole)
    ensures var k, order := Position(z, t), Inorder(whole);
            && k < |order| && order[k] == t.val && (t.val == First(order) <==> k == 0)
            && Sorted(Inorder(Erase(z, t)), d)
            && First(Inorder(Erase(z, t))) == if k > 0 then First(order) else if |order| == 1 then null else order[1]
  {
    hide Sorted, Erase, RbTree.Valid, Plug, NoDup, First, Inorder, Before, After, Nodes, Distinct, Elems;
    PositionIs(z, t);
    ErasedCut(z, t);
    TreeElems(whole);
    WithoutEntry(Inorder(whole), Position(z, t), d);
  }

  /** The two calls that put a node into the tree. */
  method LinkAndColor(node: RbNode, parent: RbNode?, link: Link, root: RbRoot, ghost z: Path<RbNode>)
    returns (ghost t: Tree<RbNode>)
    requires At(z, Leaf, null, root) && RbTree.Valid(Plug(z, Leaf)) && node !in PathNodes(z)
    requires parent == PathTop(z) && link == LinkOf(z)
    modifies root, node, PathNodes(z)
    ensures IsTree(t, root) && RbTree.Valid(t)
    ensures Inorder(t) == Before(z) + [node] + After(z)
    ensures Nodes(t) == PathNodes(z) + {node}
  {
    hide PathValid, InsertFix;
    ValidPlug(z, Leaf);
    ghost var leaf := Node(Red, Leaf, node, Leaf);
    RbLinkNode(node, parent, link, root, z);
    RbInsertColor(node, root, z, leaf);
    t := InsertFix(z, leaf);
  }

  lemma FirstInserted(b: seq<RbNode>, a: seq<RbNode>, n: RbNode, first: RbNode?)
    requires first == First(b + Inorder<RbNode>(Leaf) + a)
    ensures First(b + [n] + a) == if b == [] then n else first
  {
  }

  function LinkOf(z: Path<RbNode>): Link
  {
    if z.Top? then RootLink else if z.LeftOf? then LeftLink else RightLink
  }

  /** Before the hole nothing is later than `t`, behind it everything is. */
  ghost predicate Splits(z: Path<RbNode>, t: Time, d: Table)
  {
    && (forall x :: x in Before(z) ==> x in d && Cmp(t, d[x].timeout) >= 0)
    && (forall x :: x in After(z) ==> x in d && Cmp(t, d[x].timeout) < 0)
  }

  /** What stands before place `k` is no later, what stands behind it no earlier. */
  lemma SortedAround(order: seq<RbNode>, k: nat, d: Table)
    requires k < |order| && Sorted(order, d)
    ensures order[k] in d
    ensures forall x :: x in order[..k] ==> x in d && Cmp(d[order[k]].timeout, d[x].timeout) >= 0
    ensures forall x :: x in order[k + 1..] ==> x in d && Cmp(d[x].timeout, d[order[k]].timeout) >= 0
  {
    forall x | x in order[..k] ensures x in d && Cmp(d[order[k]].timeout, d[x].timeout) >= 0 {
      var i :| 0 <= i < k && order[i] == x;
    }
    forall x | x in order[k + 1..] ensures x in d && Cmp(d[x].timeout, d[order[k]].timeout) >= 0 {
      var i :| 0 <= i < |order[k + 1..]| && order[k + 1..][i] == x;
      assert order[k + 1 + i] == x;
    }
  }

  /** One turn of the search. */
  lemma Descends(z: Path<RbNode>, t: Tree<RbNode>, key: Time, d: Table)
    requires t.Node? && Sorted(Inorder(Plug(z, t)), d) && Splits(z, key, d)
    ensures t.val in d
    ensures if Cmp(key, d[t.val].timeout) < 0 then Splits(LeftOf(z, t.color, t.val, t.right), key, d)
            else Splits(RightOf(z, t.color, t.val, t.left), key, d)
  {
    hide Sorted, Inorder, Plug, Position;
    PositionIs(z, t);
    SortedAround(Inorder(Plug(z, t)), Position(z, t), d);
    if Cmp(key, d[t.val].timeout) < 0 {
      assert After(LeftOf(z, t.color, t.val, t.right)) == [t.val] + Inorder(t.right) + After(z);
    } else {
      assert Before(RightOf(z, t.color, t.val, t.left)) == Before(z) + Inorder(t.left) + [t.val];
    }
  }

  /** The new node's order. */
  lemma InsertedOrder(z: Path<RbNode>, n: RbNode, d: Table, e: Table)
    requires n in d && Sorted(Before(z) + Inorder<RbNode>(Leaf) + After(z), d) && Splits(z, d[n].timeout, d)
    requires e == d[n := d[n].(inRbtree := true)]
    ensures Sorted(Before(z) + [n] + After(z), e)
  {
    assert Before(z) + [] + After(z) == Before(z) + After(z);
    SortedInsert(Before(z), After(z), n, d);
    SortedFrame(Before(z) + [n] + After(z), d, e);
  }
}
