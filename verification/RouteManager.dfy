/** The circuit breaker of a router with several addresses, in `manager/RouteManager.cc`:
    a target that fails leaves the group and comes back after a while. */
module RouteManager {
  import opened SchedHeap

  const MTTR_SECOND := 30

  datatype BreakerNode = BreakerNode(target: CommSchedTarget, timeout: int)

  ghost function Targets(list: seq<BreakerNode>): set<CommSchedTarget> { set n | n in list :: n.target }

  /** The nodes whose time has not come. */
  function Later(list: seq<BreakerNode>, now: int): seq<BreakerNode>
  {
    if list == [] then []
    else if now >= list[0].timeout then Later(list[1..], now)
    else [list[0]] + Later(list[1..], now)
  }

  ghost function Due(list: seq<BreakerNode>, now: int): set<CommSchedTarget>
  {
    set n | n in list && now >= n.timeout :: n.target
  }

  /** One node of the list is looked at. */
  lemma DueNext(list: seq<BreakerNode>, k: nat, now: int)
    requires k < |list|
    ensures Later(list[k..], now) == if now >= list[k].timeout then Later(list[k + 1..], now)
                                     else [list[k]] + Later(list[k + 1..], now)
    ensures list[..k + 1] == list[..k] + [list[k]]
    ensures Due(list[..k + 1], now) == if now >= list[k].timeout then Due(list[..k], now) + {list[k].target}
            else Due(list[..k], now)
  {
    assert list[k..][1..] == list[k + 1..];
  }

  /** What leaves the list comes due, and what comes due leaves it. */
  lemma {:induction false} LaterIs(list: seq<BreakerNode>, now: int)
    ensures forall n :: n in Later(list, now) <==> n in list && now < n.timeout
    ensures |Later(list, now)| <= |list|
  {
    if list != [] {
      assert list == [list[0]] + list[1..];
      LaterIs(list[1..], now);
    }
  }

  ghost predicate Counted(members: set<CommSchedTarget>, all: set<CommSchedTarget>, list: seq<BreakerNode>,
                          nleft: int, nbreak: int)
  {
    nleft == |members| >= 1 && nbreak == |list| && Targets(list) <= all && all - members <= Targets(list)
  }

  /** What happens to a router that has its targets. */
  datatype Event =
    | Fails(target: CommSchedTarget, now: int)
    | Answers(target: CommSchedTarget)
    | Check(now: int)
    | Opens
    | Closes(target: CommSchedTarget)

  predicate Within(e: Event, targets: seq<CommSchedTarget>)
  {
    e.Fails? || e.Answers? || e.Closes? ==> e.target in targets
  }

  class Router {
    const group: CommSchedGroup
    var targets: seq<CommSchedTarget>
    var breakerList: seq<BreakerNode>
    var nleft: int
    var nbreak: int

    constructor ()
      ensures fresh(group) && Empty() && targets == [] && breakerList == []
    {
      group := new CommSchedGroup();
      targets, breakerList, nleft, nbreak := [], [], 0, 0;
    }

    /** Nothing has been added yet. */
    ghost predicate Empty()
      reads this, group, group.Members()
    {
      group.Valid() && group.Members() == {} && nleft == 0 && nbreak == 0 && breakerList == []
    }

    /** What the router has of a target: nobody waits for it, since sessions go through
        the group, and the group is the only one that may have it. */
    ghost predicate Placed(t: CommSchedTarget)
      reads t, group`tgHeap
    {
      && t.maxLoad > 0 && t.curLoad <= t.maxLoad && t.waitCnt == 0
      && (t.group == null || t.group == group) && (t.group == group <==> t in group.Members())
    }

    ghost function All(): set<CommSchedTarget>
      reads this`targets
    {
      set t | t in targets
    }

    ghost predicate InPlace()
      reads this`targets, group, All(), group.Members()
    {
      group.Valid() && group.Members() <= All() && (forall t <- targets :: Placed(t))
    }

    /** `nleft` counts the group, which is never empty; `nbreak` counts the list; and every
        target that is out of the group has a node that will bring it back. */
    ghost predicate Valid()
      reads this, group, All(), group.Members()
    {
      InPlace() && Counted(group.Members(), All(), breakerList, nleft, nbreak)
    }

    /** `add` succeeds for the targets that are out of the group. */
    method Bring(target: CommSchedTarget) returns (ret: int)
      requires InPlace() && target in targets
      modifies group, All()`index, target`group
      ensures InPlace() && group.Members() == old(group.Members()) + {target}
      ensures ret == 0 <==> target !in old(group.Members())
    {
      hide CommSchedGroup.Valid;
      assert Placed(target);
      ret := group.Add(target);
    }

    /** `remove` succeeds for the targets of the group. */
    method Expel(target: CommSchedTarget) returns (ret: int)
      requires InPlace() && target in targets
      modifies group, All()`index, target`group
      ensures InPlace() && group.Members() == old(group.Members()) - {target}
      ensures ret == 0 <==> target in old(group.Members())
    {
      hide CommSchedGroup.Valid;
      assert Placed(target);
      ret := group.Remove(target);
    }

    /** `Router::notify_unavailable` */
    method NotifyUnavailable(target: CommSchedTarget, now: int)
      requires Valid() && target in targets
      modifies this`breakerList, this`nbreak, this`nleft, group, All()`index, target`group
      ensures Valid()
      ensures var out := |targets| > 1 && old(nleft) > 1 && target in old(group.Members());
              && group.Members() == (if out then old(group.Members()) - {target} else old(group.Members()))
              && breakerList == if out then old(breakerList) + [BreakerNode(target, now + MTTR_SECOND)]
                                else old(breakerList)
    {
      hide InPlace;
      if |targets| <= 1 || nleft <= 1 {
        return;
      }
      var ret := Expel(target);
      if ret != 0 {
        return;
      }
      MoreNodes(breakerList, BreakerNode(target, now + MTTR_SECOND));
      breakerList := breakerList + [BreakerNode(target, now + MTTR_SECOND)];
      nbreak := nbreak + 1;
      nleft := nleft - 1;
    }

    /** `Router::notify_available`; the node stays in the list. */
    method NotifyAvailable(target: CommSchedTarget)
      requires Valid() && target in targets
      modifies this`nleft, group, All()`index, target`group
      ensures Valid()
      ensures group.Members() == if |targets| > 1 && nbreak > 0 then old(group.Members()) + {target}
              else old(group.Members())
    {
      hide InPlace;
      if |targets| <= 1 || nbreak == 0 {
        return;
      }
      var ret := Bring(target);
      if ret == 0 {
        nleft := nleft + 1;
      }
    }

    /** One node of the list, `list[k]` when the check began. */
    method CheckNode(i: nat, now: int, ghost list: seq<BreakerNode>, ghost k: nat) returns (next: nat)
      requires InPlace() && i < |breakerList| == nbreak && k < |list| && breakerList[i..] == list[k..]
      requires nleft == |group.Members()| && Targets(list) <= All()
      modifies this`breakerList, this`nbreak, this`nleft, group, All()`index, All()`group
      ensures InPlace() && next <= |breakerList| == nbreak && breakerList[next..] == list[k + 1..]
      ensures nleft == |group.Members()|
      ensures breakerList[..next] + Later(list[k + 1..], now) == old(breakerList)[..i] + Later(list[k..], now)
      ensures group.Members() == old(group.Members()) + if now >= list[k].timeout then {list[k].target} else {}
    {
      hide InPlace, Due, Later;
      DueNext(list, k, now);
      Unlinked(breakerList, i, list, k);
      Kept(breakerList, i, list, k, Later(list[k + 1..], now));
      TargetOf(list, k, All());
      var node := breakerList[i];
      next := i + 1;
      if now >= node.timeout {
        var ret := Bring(node.target);
        if ret == 0 {
          nleft := nleft + 1;
        }
        breakerList := breakerList[..i] + breakerList[i + 1..];
        nbreak := nbreak - 1;
        next := i;
      }
    }

    /** Part of the way through a check, which began with `list` and `members`. */
    ghost predicate Checking(list: seq<BreakerNode>, members: set<CommSchedTarget>, i: nat, k: nat, now: int)
      reads this, group, All(), group.Members()
    {
      && InPlace() && i <= |breakerList| == nbreak && k <= |list| && breakerList[i..] == list[k..]
      && breakerList[..i] + Later(list[k..], now) == Later(list, now)
      && group.Members() == members + Due(list[..k], now) && nleft == |group.Members()| && Targets(list) <= All()
    }

    method CheckNext(i: nat, now: int, ghost list: seq<BreakerNode>,
                     ghost members: set<CommSchedTarget>, ghost k: nat)
      returns (next: nat)
      requires Checking(list, members, i, k, now) && i < |breakerList|
      modifies this`breakerList, this`nbreak, this`nleft, group, All()`index, All()`group
      ensures k < |list| && Checking(list, members, next, k + 1, now)
    {
      assert |breakerList[i..]| == |list[k..]|;
      hide InPlace, Due, Later, Targets;
      DueNext(list, k, now);
      next := CheckNode(i, now, list, k);
    }

    lemma CheckEnds(list: seq<BreakerNode>, members: set<CommSchedTarget>, i: nat, k: nat, now: int)
      requires Checking(list, members, i, k, now) && i >= |breakerList|
      requires |members| >= 1 && All() - members <= Targets(list)
      ensures Valid() && breakerList == Later(list, now) && group.Members() == members + Due(list, now)
    {
      hide InPlace, Due, Later, Targets;
      ListEnds(list, now);
      Checked(members, All(), list, now);
      assert breakerList[i..] == [] && k == |list|;
      assert breakerList[..i] == breakerList && list[..k] == list;
      assert breakerList + [] == breakerList && Later(list[k..], now) == [];
      assert breakerList == Later(list, now);
      AtLeastOne(members, group.Members());
      assert Counted(group.Members(), All(), breakerList, nleft, nbreak);
    }

    /** `Router::check_breaker`: what is due leaves the list and is back in the group. */
    method CheckBreaker(now: int)
      requires Valid()
      modifies this`breakerList, this`nbreak, this`nleft, group, All()`index, All()`group
      ensures Valid()
      ensures |targets| > 1 ==> breakerList == Later(old(breakerList), now)
      ensures |targets| > 1 ==> group.Members() == old(group.Members()) + Due(old(breakerList), now)
    {
      hide InPlace, Due, Later, Targets;
      ghost var list, members := breakerList, group.Members();
      ListEnds(list, now);
      if |targets| <= 1 || nbreak == 0 {
        return;
      }
      assert Checking(list, members, 0, 0, now);
      hide Checking;
      var i: nat := 0;
      ghost var k: nat := 0;
      while i < |breakerList|
        invariant k <= |list| && Checking(list, members, i, k, now)
        decreases |list| - k
      {
        i := CheckNext(i, now, list, members, k);
        k := k + 1;
      }
      CheckEnds(list, members, i, k, now);
    }

    /** A session through the group: on a least loaded target of it. */
    method Open() returns (target: CommSchedTarget?)
      requires Valid()
      modifies group`tgHeap, group`curLoad, All()`curLoad, All()`index
      ensures Valid() && group.Members() == old(group.Members())
      ensures target == null <==> old(group.curLoad >= group.maxLoad)
      ensures target != null ==>
                && target in group.Members() && target.curLoad == old(target.curLoad) + 1
                && forall t <- old(group.tgHeap) :: old(AtMost(target.Ratio(), t.Ratio()))
      ensures forall t <- targets :: t != target ==> t.curLoad == old(t.curLoad)
    {
      hide CommSchedGroup.Valid;
      assert forall t <- targets :: old(Placed(t));
      target := group.Acquire();
      assert forall t <- targets :: t in group.tgHeap <==> t in group.Members();
    }

    /** A session is given back, also when its target has left the group meanwhile. */
    method Close(target: CommSchedTarget)
      requires Valid() && target in targets && target.curLoad > 0
      modifies group, target`curLoad, All()`index
      ensures Valid() && group.Members() == old(group.Members())
      ensures target.curLoad + 1 == old(target.curLoad)
    {
      hide CommSchedGroup.Valid;
      assert forall t <- targets :: old(Placed(t));
      target.Release();
      assert forall t <- targets :: t in group.tgHeap <==> t in group.Members();
    }

    /** One event; only a session that there is can be given back. */
    method Happen(e: Event)
      requires Valid() && Within(e, targets)
      modifies this`breakerList, this`nbreak, this`nleft, group, All()
      ensures Valid()
    {
      hide Valid;
      match e
      case Fails(target, now) => NotifyUnavailable(target, now);
      case Answers(target) => NotifyAvailable(target);
      case Check(now) => CheckBreaker(now);
      case Opens =>
        var target := Open();
      case Closes(target) =>
        if target.curLoad > 0 {
          Close(target);
        }
    }

    /** Whatever happens in whatever order: the group is never empty, the counters are right,
        and whoever is out of the group has a node that will bring it back. */
    method HappenAll(events: seq<Event>)
      requires Valid() && forall e <- events :: Within(e, targets)
      modifies this`breakerList, this`nbreak, this`nleft, group, All()
      ensures Valid()
    {
      hide Valid, Within;
      for i := 0 to |events|
        invariant Valid()
      {
        Happen(events[i]);
      }
    }

    /** One more target for the group. */
    method Admit(target: CommSchedTarget)
      requires InPlace() && group.Members() == All() && target !in All() && nleft == |group.Members()|
      requires target.group == null && target.maxLoad > 0 && target.curLoad == 0 && target.waitCnt == 0
      modifies this`targets, this`nleft, group, (All() + {target})`index, target`group
      ensures InPlace() && group.Members() == All() == old(All()) + {target}
      ensures targets == old(targets) + [target] && nleft == old(nleft) + 1 == |group.Members()|
    {
      hide CommSchedGroup.Valid;
      var ret := group.Add(target);
      if ret >= 0 {
        targets := targets + [target];
        nleft := nleft + 1;
      }
    }

    /** The group is emptied again. */
    method RemoveAll()
      requires InPlace() && group.Members() == All()
      modifies group, All()`index, All()`group
      ensures group.Valid() && group.Members() == {}
    {
      hide CommSchedGroup.Valid;
      ghost var all := All();
      var i := 0;
      while i < |targets|
        invariant i <= |targets| && InPlace() && group.Members() == all - (set t | t in targets[..i])
      {
        assert targets[..i + 1] == targets[..i] + [targets[i]];
        var ret := Expel(targets[i]);
        i := i + 1;
      }
      assert targets[..i] == targets;
    }

    /** So many targets have been made, and all are in the group. */
    ghost predicate Adding(n: nat)
      reads this, group, All(), group.Members()
    {
      && InPlace() && group.Members() == All() && |targets| == n && nleft == n == |group.Members()|
      && nbreak == 0 && breakerList == []
    }

    lemma AddingStarts()
      requires Empty() && targets == []
      ensures Adding(0) && All() == {}
    {
    }

    method AddNext(maxConnections: nat, ghost n: nat) returns (target: CommSchedTarget)
      requires Adding(n) && maxConnections > 0
      modifies this`targets, this`nleft, group, All()`index
      ensures Adding(n + 1) && fresh(target) && All() == old(All()) + {target}
    {
      hide InPlace;
      target := new CommSchedTarget(maxConnections);
      Admit(target);
    }

    /** `Router::add_group_targets`: either every address gets a target in the group, or
        `create_target` failed for one, and the group is empty again. */
    method AddGroupTargets(creates: seq<bool>, maxConnections: nat) returns (ret: int)
      requires Empty() && targets == [] && creates != [] && maxConnections > 0
      modifies this`targets, this`nleft, group
      ensures ret == if false in creates then -1 else 0
      ensures ret == 0 ==> Valid() && |targets| == |creates| == nleft && group.Members() == All() && fresh(All())
      ensures ret == -1 ==> group.Valid() && group.Members() == {}
    {
      hide *;
      AddingStarts();
      ret := 0;
      var i: nat := 0;
      ghost var made: set<CommSchedTarget> := {};
      while i < |creates|
        invariant i <= |creates| && (forall k :: 0 <= k < i ==> creates[k]) && Adding(i)
        invariant All() == made && fresh(made)
      {
        if !creates[i] {
          GiveUp(i);
          return -1;
        }
        var target := AddNext(maxConnections, i);
        made := made + {target};
        i := i + 1;
      }
      AllAdded(i);
    }

    method GiveUp(ghost n: nat)
      requires Adding(n)
      modifies group, All()`index, All()`group
      ensures group.Valid() && group.Members() == {}
    {
      RemoveAll();
    }

    lemma AllAdded(n: nat)
      requires Adding(n) && n > 0
      ensures Valid() && |targets| == n == nleft && group.Members() == All()
    {
    }
  }

  lemma AtLeastOne<T>(s: set<T>, u: set<T>)
    requires |s| >= 1 && s <= u
    ensures |u| >= 1
  {
    assert u == s + (u - s);
  }

  lemma MoreNodes(list: seq<BreakerNode>, n: BreakerNode)
    ensures Targets(list + [n]) == Targets(list) + {n.target}
  {
  }

  lemma ListEnds(list: seq<BreakerNode>, now: int)
    ensures Due(list[..0], now) == {} && list[0..] == list
    ensures list == [] ==> Later(list, now) == [] && Due(list, now) == {}
    ensures Later(list[|list|..], now) == []
  {
  }

  lemma TargetOf(list: seq<BreakerNode>, k: nat, all: set<CommSchedTarget>)
    requires k < |list| && Targets(list) <= all
    ensures list[k].target in all
  {
  }

  lemma Unlinked<T>(s: seq<T>, i: nat, list: seq<T>, k: nat)
    requires i < |s| && k < |list| && s[i..] == list[k..]
    ensures var u := s[..i] + s[i + 1..]; u[..i] == s[..i] && u[i..] == list[k + 1..] && |u| == |s| - 1
  {
    assert s[i + 1..] == s[i..][1..] && list[k + 1..] == list[k..][1..];
  }

  lemma Kept<T>(s: seq<T>, i: nat, list: seq<T>, k: nat, rest: seq<T>)
    requires i < |s| && k < |list| && s[i..] == list[k..]
    ensures s[i] == list[k] && s[..i + 1] + rest == s[..i] + ([list[k]] + rest) && s[i + 1..] == list[k + 1..]
  {
    assert s[i] == s[i..][0];
    assert s[i + 1..] == s[i..][1..] && list[k + 1..] == list[k..][1..];
  }

  lemma {:induction false} NoneLater(list: seq<BreakerNode>, now: int)
    requires forall n <- list :: n.timeout <= now
    ensures Later(list, now) == []
  {
    if list != [] {
      assert list[0] in list;
      NoneLater(list[1..], now);
    }
  }

  /** What is still out of the group after a check still has its node. */
  lemma Checked(members: set<CommSchedTarget>, all: set<CommSchedTarget>, list: seq<BreakerNode>, now: int)
    requires Targets(list) <= all && all - members <= Targets(list)
    ensures Targets(Later(list, now)) <= all
    ensures all - (members + Due(list, now)) <= Targets(Later(list, now))
  {
    LaterIs(list, now);
    forall t | t in Targets(Later(list, now)) ensures t in all {
      var n :| n in Later(list, now) && n.target == t;
      assert n in list && n.target in Targets(list);
    }
    forall t | t in all - (members + Due(list, now)) ensures t in Targets(Later(list, now)) {
      assert t in Targets(list);
      var n :| n in list && n.target == t;
      assert now < n.timeout;
      assert n in Later(list, now);
    }
  }

  /** Once every timeout has passed a check restores the full group. */
  lemma FullGroupReturns(members: set<CommSchedTarget>, all: set<CommSchedTarget>, list: seq<BreakerNode>,
                         nleft: int, nbreak: int, now: int)
    requires Counted(members, all, list, nleft, nbreak) && members <= all
    requires forall n <- list :: n.timeout <= now
    ensures Later(list, now) == [] && members + Due(list, now) == all
  {
    NoneLater(list, now);
    forall t | t in Targets(list) ensures t in Due(list, now) {
      var n :| n in list && n.target == t;
      assert now >= n.timeout;
    }
    forall t | t in Due(list, now) ensures t in Targets(list) {
      var n :| n in list && n.target == t;
    }
    assert Due(list, now) == Targets(list);
    assert members + Targets(list) == all;
  }
}
