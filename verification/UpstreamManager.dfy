/** The circuit breaker of an upstream group in `manager/UpstreamManager.cc`.  Every method
    is one critical section of the group's mutex, so that any order of calls is any
    interleaving; the pointer to the group, which the callers of `notify_available` and
    `notify_unavailable` read before they lock, is a parameter. */
module UpstreamManager {
  import opened Collections

  const MTTR_SECOND := 30

  // ---------- The counts ----------

  /** What a group knows of a server: its failures, its limit, whether it is still attached
      to the group, and whether it is linked into the breaker list. */
  datatype Info = Info(fails: nat, max: nat, attached: bool, listed: bool)
  {
    predicate Alive() { attached && fails < max }

    /** An attached server is on the list exactly when it has failed too often. */
    predicate Fits() { max >= 1 && (attached ==> (listed <==> fails >= max)) }
  }

  ghost function Living<U>(t: map<U, Info>): set<U> { set u | u in t && t[u].Alive() }

  /** The list has exactly the listed servers. */
  ghost predicate Linked<U>(t: map<U, Info>, list: seq<U>)
  {
    && NoDup(list) && (forall u <- list :: u in t && t[u].listed) && forall u <- t :: t[u].listed ==> u in list
  }

  /** `nalive` counts the attached servers that have not failed too often. */
  ghost predicate BreakerOk<U>(t: map<U, Info>, list: seq<U>, nalive: int)
  {
    Linked(t, list) && (forall u <- t :: t[u].Fits()) && nalive == |Living(t)|
  }

  function One(b: bool): int { if b then 1 else 0 }

  lemma LivingMoved<U>(t: map<U, Info>, u: U, n: Info)
    ensures |Living(t[u := n])| == |Living(t)| - One(u in t && t[u].Alive()) + One(n.Alive())
  {
    var rest := Living(t) - {u};
    OneMore(rest, Living(t), u);
    assert forall v :: v in Living(t[u := n]) && v != u <==> v in rest;
    OneMore(rest, Living(t[u := n]), u);
  }

  lemma OneMore<U>(rest: set<U>, s: set<U>, u: U)
    requires u !in rest && forall v :: v in s && v != u <==> v in rest
    ensures |s| == |rest| + One(u in s)
  {
    if u in s {
      assert s == rest + {u};
    } else {
      assert s == rest;
    }
  }

  /** The server joins the list. */
  lemma Listed<U>(t: map<U, Info>, list: seq<U>, nalive: int, u: U, n: Info)
    requires BreakerOk(t, list, nalive) && u in t && !t[u].listed && n.listed && n.Fits()
    ensures BreakerOk(t[u := n], list + [u], nalive - One(t[u].Alive()) + One(n.Alive()))
  {
    LivingMoved(t, u, n);
    hide Living;
  }

  /** The server leaves the list. */
  lemma Unlisted<U>(t: map<U, Info>, list: seq<U>, nalive: int, u: U, n: Info)
    requires BreakerOk(t, list, nalive) && u in t && t[u].listed && !n.listed && n.Fits()
    ensures u in list && |Without(list, u)| == |list| - 1
    ensures BreakerOk(t[u := n], Without(list, u), nalive - One(t[u].Alive()) + One(n.Alive()))
  {
    LivingMoved(t, u, n);
    WithoutIs(list, u);
    hide Living, Without;
  }

  /** The list stays. */
  lemma Stays<U>(t: map<U, Info>, list: seq<U>, nalive: int, u: U, n: Info)
    requires BreakerOk(t, list, nalive) && n.Fits() && (if u in t then t[u].listed == n.listed else !n.listed)
    ensures BreakerOk(t[u := n], list, nalive - One(u in t && t[u].Alive()) + One(n.Alive()))
  {
    LivingMoved(t, u, n);
    hide Living;
  }

  // ---------- Servers and groups ----------

  class UpstreamAddress {
    const maxFails: nat
    const isMaster: bool
    var failCount: nat
    var group: UpstreamGroup?
    var listed: bool
    var brokenTimeout: int

    /** A `max_fails` of 0 is made 1. */
    constructor (max: nat, master: bool)
      ensures maxFails == (if max == 0 then 1 else max) && isMaster == master
      ensures failCount == 0 && group == null && !listed
    {
      maxFails, isMaster := if max == 0 then 1 else max, master;
      failCount, group, listed, brokenTimeout := 0, null, false, 0;
    }
  }

  /** The vectors hold the attached servers, each once. */
  ghost predicate Held(masters: seq<UpstreamAddress>, slaves: seq<UpstreamAddress>, t: map<UpstreamAddress, Info>)
  {
    && NoDup(masters) && NoDup(slaves)
    && (forall u <- masters :: u in t && t[u].attached && u.isMaster)
    && (forall u <- slaves :: u in t && t[u].attached && !u.isMaster)
    && (forall u <- t :: t[u].attached ==> u in if u.isMaster then masters else slaves)
  }

  class UpstreamGroup {
    var masters: seq<UpstreamAddress>
    var slaves: seq<UpstreamAddress>
    var breakerList: seq<UpstreamAddress>
    var nbreak: int
    var nalive: int

    /** The servers that were ever added to the group. */
    ghost var servers: set<UpstreamAddress>

    /** How often `notify_available` has taken a server off the list: `nbreak` misses it. */
    ghost var leaked: nat

    ghost function InfoOf(u: UpstreamAddress): Info
      reads u
    {
      Info(u.failCount, u.maxFails, u.group == this, u.listed)
    }

    ghost function Table(): map<UpstreamAddress, Info>
      reads this`servers, servers
    {
      map u | u in servers :: InfoOf(u)
    }

    /** All but `nbreak`. */
    ghost predicate LinksOk()
      reads this`servers, this`masters, this`slaves, this`breakerList, this`nalive, servers
    {
      && BreakerOk(Table(), breakerList, nalive) && Held(masters, slaves, Table())
      && forall u <- servers :: u.group == this || u.group == null
    }

    ghost predicate Valid()
      reads this, servers
    {
      LinksOk() && nbreak == |breakerList| + leaked
    }

    constructor ()
      ensures Valid() && servers == {} && breakerList == [] && leaked == 0
    {
      masters, slaves, breakerList, nbreak, nalive, servers, leaked := [], [], [], 0, 0, {}, 0;
      new;
      assert Table() == map[];
      assert Living<UpstreamAddress>(map[]) == {};
    }

    /** `Upstream::add`, for a new server of this group */
    method Add(ua: UpstreamAddress)
      requires Valid() && ua !in servers && ua.group == null && ua.failCount == 0 && !ua.listed && ua.maxFails >= 1
      modifies this`servers, this`masters, this`slaves, this`nalive, ua`group
      ensures Valid() && servers == old(servers) + {ua}
      ensures Table() == old(Table())[ua := Info(0, ua.maxFails, true, false)]
    {
      hide BreakerOk, Held;
      ghost var t := Table();
      Stays(t, breakerList, nalive, ua, Info(0, ua.maxFails, true, false));
      Joins(masters, slaves, t, ua);
      nalive := nalive + 1;
      ua.group := this;
      if ua.isMaster {
        masters := masters + [ua];
      } else {
        slaves := slaves + [ua];
      }
      servers := servers + {ua};
      assert Table() == t[ua := Info(0, ua.maxFails, true, false)];
    }

    /** The body of the loop of `Upstream::del`: a server that is on the list stays there. */
    method Detach(ua: UpstreamAddress)
      requires Valid() && ua in servers && ua.group == this
      modifies this`masters, this`slaves, this`nalive, ua`group
      ensures Valid()
      ensures Table() == old(Table())[ua := Info(ua.failCount, ua.maxFails, false, ua.listed)]
    {
      hide BreakerOk, Held, Without;
      ghost var t := Table();
      Fits(t, breakerList, nalive, ua);
      Stays(t, breakerList, nalive, ua, Info(ua.failCount, ua.maxFails, false, ua.listed));
      Leaves(masters, slaves, t, ua, ua.listed);
      ua.group := null;
      if ua.failCount < ua.maxFails {
        nalive := nalive - 1;
      }
      if ua.isMaster {
        masters := Without(masters, ua);
      } else {
        slaves := Without(slaves, ua);
      }
      assert Table() == t[ua := Info(ua.failCount, ua.maxFails, false, ua.listed)];
    }

    /** The server is the last of the list and comes back after a while. */
    ghost predicate Appended(list: seq<UpstreamAddress>, ua: UpstreamAddress, now: int)
      reads this`breakerList, ua`brokenTimeout
    {
      breakerList == list + [ua] && ua.brokenTimeout == now + MTTR_SECOND
    }

    /** Onto the list, with one server less alive. */
    method Break(ua: UpstreamAddress, fails: nat, now: int)
      requires Valid() && ua in servers && ua.group == this && !ua.listed && fails >= ua.maxFails
      modifies this`breakerList, this`nbreak, this`nalive, ua`failCount, ua`listed, ua`brokenTimeout
      ensures Valid() && Appended(old(breakerList), ua, now) && nbreak == old(nbreak) + 1
      ensures Table() == old(Table())[ua := Info(fails, ua.maxFails, true, true)]
    {
      hide BreakerOk, Held;
      ghost var t := Table();
      Fits(t, breakerList, nalive, ua);
      Listed(t, breakerList, nalive, ua, Info(fails, ua.maxFails, true, true));
      SameHeld(masters, slaves, t, ua, Info(fails, ua.maxFails, true, true));
      ua.failCount := fails;
      ua.brokenTimeout := now + MTTR_SECOND;
      breakerList := breakerList + [ua];
      ua.listed := true;
      nbreak := nbreak + 1;
      nalive := nalive - 1;
      assert Table() == t[ua := Info(fails, ua.maxFails, true, true)];
    }

    /** Another failure count, and nothing else. */
    method SetFails(ua: UpstreamAddress, fails: nat)
      requires Valid() && ua in servers
      requires ua.group == this ==> (ua.listed <==> fails >= ua.maxFails)
      modifies ua`failCount
      ensures Valid() && Table() == old(Table())[ua := Info(fails, ua.maxFails, ua.group == this, ua.listed)]
    {
      hide BreakerOk, Held;
      ghost var t, n := Table(), Info(fails, ua.maxFails, ua.group == this, ua.listed);
      Fits(t, breakerList, nalive, ua);
      Stays(t, breakerList, nalive, ua, n);
      SameHeld(masters, slaves, t, ua, n);
      ua.failCount := fails;
      assert Table() == t[ua := n];
    }

    /** `Upstream::notify_unavailable`; `seen` is whether the caller found `ua->group` set,
        before it locked. */
    method NotifyUnavailable(ua: UpstreamAddress, seen: bool, now: int)
      requires Valid() && ua in servers && (!seen ==> ua.group == null)
      modifies this`breakerList, this`nbreak, this`nalive, ua`failCount, ua`listed, ua`brokenTimeout
      ensures Valid()
      ensures var fails := old(ua.failCount) + 1;
              var listed := old(ua.listed) || (ua.group == this && fails == ua.maxFails);
              Table() == old(Table())[ua := Info(fails, ua.maxFails, ua.group == this, listed)]
      ensures if ua.listed && !old(ua.listed) then Appended(old(breakerList), ua, now)
              else breakerList == old(breakerList)
      ensures nbreak == old(nbreak) + One(ua.listed && !old(ua.listed))
    {
      FitsHere(ua);
      hide Valid;
      if seen && ua.failCount + 1 == ua.maxFails && ua.group == this && !ua.listed {
        Break(ua, ua.failCount + 1, now);
      } else {
        SetFails(ua, ua.failCount + 1);
      }
    }

    /** `Upstream::notify_available`, which unlinks without `nbreak--` */
    method NotifyAvailable(ua: UpstreamAddress, seen: bool)
      requires Valid() && ua in servers && (!seen ==> ua.group == null)
      modifies this`breakerList, this`nalive, this`leaked, ua`failCount, ua`listed
      ensures Valid()
      ensures Table() == old(Table())[ua := Info(0, ua.maxFails, ua.group == this, old(ua.listed) && !seen)]
      ensures breakerList == if old(ua.listed) && seen then Without(old(breakerList), ua) else old(breakerList)
      ensures leaked == old(leaked) + One(old(ua.listed) && seen)
    {
      FitsHere(ua);
      hide *;
      if seen && ua.listed {
        Unlink(ua);
      } else {
        SetFails(ua, 0);
      }
    }

    /** Off the list, unnoticed by `nbreak`. */
    method Unlink(ua: UpstreamAddress)
      requires Valid() && ua in servers && ua.listed
      modifies this`breakerList, this`nalive, this`leaked, ua`failCount, ua`listed
      ensures Valid() && breakerList == Without(old(breakerList), ua) && leaked == old(leaked) + 1
      ensures Table() == old(Table())[ua := Info(0, ua.maxFails, ua.group == this, false)]
    {
      FitsHere(ua);
      hide LinksOk, Without, Table;
      Heal(ua, 0);
      Leak();
    }

    ghost method Leak()
      requires LinksOk() && nbreak == |breakerList| + leaked + 1
      modifies this`leaked
      ensures Valid() && Table() == old(Table()) && leaked == old(leaked) + 1
    {
      leaked := leaked + 1;
    }

    /** Off the list, and alive again if still attached. */
    method Heal(ua: UpstreamAddress, fails: nat)
      requires LinksOk() && ua in servers && ua.listed && (ua.group == this ==> fails < ua.maxFails)
      modifies this`breakerList, this`nalive, ua`failCount, ua`listed
      ensures LinksOk() && breakerList == Without(old(breakerList), ua) && |breakerList| == |old(breakerList)| - 1
      ensures Table() == old(Table())[ua := Info(fails, ua.maxFails, ua.group == this, false)]
    {
      hide BreakerOk, Held;
      ghost var t, n := Table(), Info(fails, ua.maxFails, ua.group == this, false);
      Fits(t, breakerList, nalive, ua);
      Unlisted(t, breakerList, nalive, ua, n);
      SameHeld(masters, slaves, t, ua, n);
      if ua.group == this && ua.failCount >= ua.maxFails {
        nalive := nalive + 1;
      }
      breakerList := Without(breakerList, ua);
      ua.listed := false;
      ua.failCount := fails;
      assert Table() == t[ua := n];
    }

    /** The body of the loop of `Upstream::disable_server` */
    method Disable(ua: UpstreamAddress, seen: bool, now: int)
      requires Valid() && ua in servers && (!seen ==> ua.group == null)
      modifies this`breakerList, this`nbreak, this`nalive, ua`failCount, ua`listed, ua`brokenTimeout
      ensures Valid()
      ensures Table() == old(Table())[ua := Info(ua.maxFails, ua.maxFails, ua.group == this,
                                                 old(ua.listed) || ua.group == this)]
      ensures if ua.listed && !old(ua.listed) then Appended(old(breakerList), ua, now)
              else breakerList == old(breakerList)
      ensures nbreak == old(nbreak) + One(ua.listed && !old(ua.listed))
    {
      FitsHere(ua);
      hide Valid;
      if seen && ua.group == this && !ua.listed {
        Break(ua, ua.maxFails, now);
      } else {
        SetFails(ua, ua.maxFails);
      }
    }

    lemma FitsHere(ua: UpstreamAddress)
      requires Valid() && ua in servers
      ensures ua.maxFails >= 1 && (ua.group == this ==> (ua.listed <==> ua.failCount >= ua.maxFails))
      ensures ua.listed <==> ua in breakerList
      ensures ua.group == this || ua.group == null
      ensures ua in Table() && Table()[ua] == InfoOf(ua)
    {
      Fits(Table(), breakerList, nalive, ua);
      assert Table()[ua] == InfoOf(ua);
    }

    /** The servers of a list whose time has not come. */
    static ghost function Later(list: seq<UpstreamAddress>, now: int): seq<UpstreamAddress>
      reads (set u | u in list)`brokenTimeout
    {
      if list == [] then []
      else if now >= list[0].brokenTimeout then Later(list[1..], now)
      else [list[0]] + Later(list[1..], now)
    }

    static lemma {:induction false} LaterIs(list: seq<UpstreamAddress>, now: int)
      ensures forall u :: u in Later(list, now) <==> u in list && now < u.brokenTimeout
    {
      if list != [] {
        assert list == [list[0]] + list[1..];
        LaterIs(list[1..], now);
      }
    }

    /** One server of the list whose time has come. */
    method CheckServer(ua: UpstreamAddress)
      requires Valid() && ua in servers && ua.listed
      modifies this`breakerList, this`nbreak, this`nalive, ua`failCount, ua`listed
      ensures Valid() && breakerList == Without(old(breakerList), ua)
      ensures Table() == old(Table())[ua := Healed(old(Table())[ua])]
    {
      FitsHere(ua);
      hide LinksOk, Without, Table;
      ghost var t := Table();
      if ua.failCount >= ua.maxFails {
        Heal(ua, ua.maxFails - 1);
      } else {
        Heal(ua, ua.failCount);
      }
      assert Table() == t[ua := Healed(t[ua])];
      FewerBreaks();
    }

    method FewerBreaks()
      requires LinksOk() && nbreak - 1 == |breakerList| + leaked
      modifies this`nbreak
      ensures Valid() && Table() == old(Table())
    {
      nbreak := nbreak - 1;
    }

    /** The node at `i`, `list[k]` when the check began. */
    method CheckNode(i: nat, now: int, ghost list: seq<UpstreamAddress>, ghost k: nat) returns (next: nat)
      requires Valid() && i < |breakerList| && k < |list| && breakerList[i..] == list[k..]
      modifies this`breakerList, this`nbreak, this`nalive, servers`failCount, servers`listed
      ensures Valid() && next <= |breakerList| && breakerList[next..] == list[k + 1..]
      ensures breakerList[..next] + Later(list[k + 1..], now) == old(breakerList)[..i] + Later(list[k..], now)
      ensures var t := old(Table());
              Table() == if list[k] in t && now >= list[k].brokenTimeout then t[list[k] := Healed(t[list[k]])] else t
    {
      LaterNext(list, k, now);
      OnList(i);
      Linking(i, list, k, Later(list[k + 1..], now));
      hide Valid, Later, Without;
      var ua := breakerList[i];
      if now >= ua.brokenTimeout {
        CheckServer(ua);
        next := i;
      } else {
        next := i + 1;
      }
    }

    lemma OnList(i: nat)
      requires Valid() && i < |breakerList|
      ensures breakerList[i] in servers && breakerList[i].listed && breakerList[i] in Table()
    {
      assert breakerList[i] in breakerList;
      Fits(Table(), breakerList, nalive, breakerList[i]);
    }

    lemma Linking(i: nat, list: seq<UpstreamAddress>, k: nat, rest: seq<UpstreamAddress>)
      requires Valid() && i < |breakerList| && k < |list| && breakerList[i..] == list[k..]
      ensures breakerList[i] == list[k]
      ensures var u := Without(breakerList, list[k]);
              |u| == |breakerList| - 1 && i <= |u| && u[..i] == breakerList[..i] && u[i..] == list[k + 1..]
      ensures breakerList[..i + 1] + rest == breakerList[..i] + ([list[k]] + rest)
              && breakerList[i + 1..] == list[k + 1..]
    {
      assert breakerList[i] == breakerList[i..][0];
      assert breakerList[i + 1..] == breakerList[i..][1..] && list[k + 1..] == list[k..][1..];
      WithoutAt(breakerList, i);
    }

    /** Part of the way through a check: `list` and `t` are what it began with. */
    ghost predicate Checking(list: seq<UpstreamAddress>, t: map<UpstreamAddress, Info>, i: nat, k: nat, now: int)
      reads this, servers, (set u | u in list)`brokenTimeout
    {
      && Valid() && i <= |breakerList| && k <= |list| && breakerList[i..] == list[k..]
      && breakerList[..i] + Later(list[k..], now) == Later(list, now)
      && Table() == Checked(t, list[..k], now) && NoDup(list) && forall u <- list :: u in t
    }

    method CheckNext(i: nat, now: int, ghost list: seq<UpstreamAddress>, ghost t: map<UpstreamAddress, Info>,
            ghost k: nat)
      returns (next: nat)
      requires Checking(list, t, i, k, now) && i < |breakerList|
      modifies this`breakerList, this`nbreak, this`nalive, servers`failCount, servers`listed
      ensures k < |list| && Checking(list, t, next, k + 1, now)
    {
      assert k < |list| by {
        assert |breakerList[i..]| == |list[k..]|;
      }
      hide Valid, Later, Checked, Table, NoDup;
      CheckedNext(t, list, k, now);
      next := CheckNode(i, now, list, k);
    }

    /** `Upstream::check_one_breaker`: what is due leaves the list, and an attached server
        among it is alive again, one failure short of its limit. */
    method CheckOneBreaker(now: int)
      requires Valid()
      modifies this`breakerList, this`nbreak, this`nalive, servers`failCount, servers`listed
      ensures Valid() && breakerList == Later(old(breakerList), now)
      ensures Table() == Checked(old(Table()), old(breakerList), now)
      ensures old(nbreak) - nbreak == |old(breakerList)| - |breakerList|
      ensures forall u <- breakerList :: u in old(breakerList) && now < u.brokenTimeout
      ensures forall u <- old(breakerList) :: now < u.brokenTimeout ==> u in breakerList
      ensures forall u <- old(breakerList) :: now >= u.brokenTimeout ==>
                !u.listed && u.failCount == if old(u.failCount) >= u.maxFails then u.maxFails - 1 else old(u.failCount)
      ensures forall u <- servers :: u !in old(breakerList) || now < u.brokenTimeout ==>
                u.listed == old(u.listed) && u.failCount == old(u.failCount)
    {
      ghost var list, t := breakerList, Table();
      CheckStarts(t, list, now);
      AllListed();
      LaterIs(list, now);
      if nbreak == 0 {
        return;
      }
      CheckAll(now, list, t);
      forall u | u in servers
        ensures u.failCount == Checked(t, list, now)[u].fails && u.listed == Checked(t, list, now)[u].listed
        ensures t[u] == old(InfoOf(u))
      {
        assert Table()[u] == InfoOf(u);
      }
    }

    /** The loop. */
    method CheckAll(now: int, ghost list: seq<UpstreamAddress>, ghost t: map<UpstreamAddress, Info>)
      requires Valid() && list == breakerList && t == Table()
      modifies this`breakerList, this`nbreak, this`nalive, servers`failCount, servers`listed
      ensures Valid() && breakerList == Later(list, now) && Table() == Checked(t, list, now)
    {
      CheckStarts(t, list, now);
      AllListed();
      assert Checking(list, t, 0, 0, now);
      hide Checking;
      var i: nat := 0;
      ghost var k: nat := 0;
      while i < |breakerList|
        invariant k <= |list| && Checking(list, t, i, k, now)
        decreases |list| - k
      {
        i := CheckNext(i, now, list, t, k);
        k := k + 1;
      }
      CheckEnds(list, t, i, k, now);
    }

    /** A server that broke and whose time has come breaks again at its next failure. */
    method BreakAgain(ua: UpstreamAddress, checked: int, failed: int)
      requires Valid() && ua in servers && ua.group == this && ua.listed && checked >= ua.brokenTimeout
      modifies this`breakerList, this`nbreak, this`nalive, servers`failCount, servers`listed, ua`brokenTimeout
      ensures Valid() && ua in breakerList && ua.failCount == ua.maxFails && ua.brokenTimeout == failed + MTTR_SECOND
    {
      FitsHere(ua);
      hide Valid, Checked, Table, Later;
      CheckOneBreaker(checked);
      FitsHere(ua);
      NotifyUnavailable(ua, true, failed);
      FitsHere(ua);
    }

    lemma CheckEnds(list: seq<UpstreamAddress>, t: map<UpstreamAddress, Info>, i: nat, k: nat, now: int)
      requires Checking(list, t, i, k, now) && i >= |breakerList|
      ensures Valid() && breakerList == Later(list, now) && Table() == Checked(t, list, now)
    {
      CheckStarts(t, list, now);
      assert breakerList[i..] == [] && k == |list|;
      assert breakerList[..i] == breakerList && list[..k] == list;
    }

    /** The first server of a vector that is alive. */
    method FirstAlive(servers: seq<UpstreamAddress>) returns (r: UpstreamAddress?)
      ensures r == null ==> forall u <- servers :: u.failCount >= u.maxFails
      ensures r != null ==> r in servers && r.failCount < r.maxFails
    {
      for i := 0 to |servers|
        invariant forall k :: 0 <= k < i ==> servers[k].failCount >= servers[k].maxFails
      {
        if servers[i].failCount < servers[i].maxFails {
          return servers[i];
        }
      }
      return null;
    }

    method PickMaster(shuffled: seq<UpstreamAddress>) returns (r: UpstreamAddress?)
      requires Valid() && multiset(shuffled) == multiset(masters)
      modifies this`masters
      ensures Valid()
      ensures r == null <==> forall u <- Living(Table()) :: !u.isMaster
      ensures r != null ==> r in Living(Table()) && r.isMaster
    {
      Shuffled(masters, shuffled);
      hide BreakerOk, NoDup, Living;
      masters := shuffled;
      LivingAreHeld();
      r := FirstAlive(masters);
    }

    method PickSlave(shuffled: seq<UpstreamAddress>) returns (r: UpstreamAddress?)
      requires Valid() && multiset(shuffled) == multiset(slaves)
      modifies this`slaves
      ensures Valid()
      ensures r == null <==> forall u <- Living(Table()) :: u.isMaster
      ensures r != null ==> r in Living(Table()) && !r.isMaster
    {
      Shuffled(slaves, shuffled);
      hide BreakerOk, NoDup, Living;
      slaves := shuffled;
      LivingAreHeld();
      r := FirstAlive(slaves);
    }

    /** `UpstreamGroup::get_one`, with the orders that the two calls of `shuffle` make: it
        gives a server exactly when one is alive, and a master when one of them is. */
    method GetOne(shuffledMasters: seq<UpstreamAddress>,
            shuffledSlaves: seq<UpstreamAddress>) returns (r: UpstreamAddress?)
      requires Valid() && multiset(shuffledMasters) == multiset(masters) && multiset(shuffledSlaves) == multiset(slaves)
      modifies this`masters, this`slaves
      ensures Valid()
      ensures r == null <==> Living(Table()) == {}
      ensures r != null ==> r in Living(Table()) && (r.isMaster || forall u <- Living(Table()) :: !u.isMaster)
    {
      NoneLiving();
      hide Valid, Living, Table;
      if nalive == 0 {
        return null;
      }
      r := PickMaster(shuffledMasters);
      if r == null {
        r := PickSlave(shuffledSlaves);
      }
    }

    /** `UpstreamGroup::get_one_slave` */
    method GetOneSlave(shuffledSlaves: seq<UpstreamAddress>) returns (r: UpstreamAddress?)
      requires Valid() && multiset(shuffledSlaves) == multiset(slaves)
      modifies this`slaves
      ensures Valid()
      ensures r == null <==> forall u <- Living(Table()) :: u.isMaster
      ensures r != null ==> r in Living(Table()) && !r.isMaster
    {
      NoneLiving();
      hide Valid, Living, Table;
      if nalive == 0 {
        return null;
      }
      r := PickSlave(shuffledSlaves);
    }

    /** `nbreak` is the length of the list if and only if `notify_available` never took a
        server off it; it is never less. */
    lemma ExactBreaks()
      requires Valid()
      ensures nbreak == |breakerList| <==> leaked == 0
      ensures nbreak >= |breakerList|
    {
    }

    lemma NoneLiving()
      requires Valid()
      ensures nalive == 0 <==> Living(Table()) == {}
    {
    }

    /** The living servers are those of the vectors that have not failed too often. */
    lemma LivingAreHeld()
      requires Held(masters, slaves, Table())
      ensures forall u <- Living(Table()) :: u.failCount < u.maxFails && u in if u.isMaster then masters else slaves
      ensures forall u <- masters :: u.isMaster && (u.failCount < u.maxFails ==> u in Living(Table()))
      ensures forall u <- slaves :: !u.isMaster && (u.failCount < u.maxFails ==> u in Living(Table()))
    {
    }

    lemma AllListed()
      requires Valid()
      ensures NoDup(breakerList) && (forall u <- breakerList :: u in Table()) && (nbreak == 0 ==> breakerList == [])
    {
    }
  }

  lemma {:induction false} Counts<T>(s: seq<T>)
    ensures NoDup(s) <==> forall x <- s :: multiset(s)[x] == 1
  {
    if s != [] {
      Counts(s[1..]);
      assert s == [s[0]] + s[1..];
      if NoDup(s) {
        assert s[0] !in s[1..];
        assert NoDup(s[1..]);
      }
      if forall x <- s :: multiset(s)[x] == 1 {
        assert multiset(s)[s[0]] == 1 + multiset(s[1..])[s[0]];
        forall x | x in s[1..] ensures multiset(s[1..])[x] == 1 {
          assert x in s && multiset(s)[x] == (if x == s[0] then 1 else 0) + multiset(s[1..])[x];
        }
      }
    }
  }

  /** Another order of the same vector. */
  lemma Shuffled<T>(s: seq<T>, u: seq<T>)
    requires multiset(u) == multiset(s) && NoDup(s)
    ensures NoDup(u) && forall x :: x in u <==> x in s
  {
    Counts(s);
    Counts(u);
    forall x ensures x in u <==> x in s {
      assert x in u <==> x in multiset(u);
      assert x in s <==> x in multiset(s);
    }
  }

  /** Once every time has come a check empties the list and revives every attached server. */
  lemma AllRevived(t: map<UpstreamAddress, Info>, list: seq<UpstreamAddress>, nalive: int, now: int)
    requires BreakerOk(t, list, nalive) && forall u <- list :: u.brokenTimeout <= now
    ensures UpstreamGroup.Later(list, now) == []
    ensures forall u <- Checked(t, list, now) :: Checked(t, list, now)[u].attached ==> Checked(t, list, now)[u].Alive()
  {
    NoneLater(list, now);
  }

  lemma {:induction false} NoneLater(list: seq<UpstreamAddress>, now: int)
    requires forall u <- list :: u.brokenTimeout <= now
    ensures UpstreamGroup.Later(list, now) == []
  {
    if list != [] {
      assert list[0] in list;
      NoneLater(list[1..], now);
    }
  }

  lemma CheckStarts(t: map<UpstreamAddress, Info>, list: seq<UpstreamAddress>, now: int)
    ensures Checked(t, list[..0], now) == t && list[0..] == list
    ensures list == [] ==> UpstreamGroup.Later(list, now) == [] && Checked(t, list, now) == t
    ensures UpstreamGroup.Later(list[|list|..], now) == []
  {
  }

  lemma LaterNext(list: seq<UpstreamAddress>, k: nat, now: int)
    requires k < |list|
    ensures UpstreamGroup.Later(list[k..], now) ==
            if now >= list[k].brokenTimeout then UpstreamGroup.Later(list[k + 1..], now)
            else [list[k]] + UpstreamGroup.Later(list[k + 1..], now)
  {
    assert list[k..][1..] == list[k + 1..];
  }

  lemma CheckedNext(t: map<UpstreamAddress, Info>, list: seq<UpstreamAddress>, k: nat, now: int)
    requires k < |list| && NoDup(list) && forall u <- list :: u in t
    ensures var u, part := list[k], Checked(t, list[..k], now);
            && u in part && part[u] == t[u]
            && Checked(t, list[..k + 1], now) == if now >= u.brokenTimeout then part[u := Healed(part[u])] else part
  {
    assert list[..k + 1] == list[..k] + [list[k]];
    assert list[k] in list;
  }

  function Healed(i: Info): Info
  {
    i.(fails := if i.fails >= i.max && i.max > 0 then i.max - 1 else i.fails, listed := false)
  }

  /** The servers of a list that are due are healed. */
  ghost function Checked(t: map<UpstreamAddress, Info>, list: seq<UpstreamAddress>,
          now: int): map<UpstreamAddress, Info>
    reads (set u | u in list)`brokenTimeout
  {
    map u | u in t :: if u in list && now >= u.brokenTimeout then Healed(t[u]) else t[u]
  }

  lemma Fits<U>(t: map<U, Info>, list: seq<U>, nalive: int, u: U)
    requires BreakerOk(t, list, nalive) && u in t
    ensures t[u].Fits() && (t[u].listed <==> u in list)
  {
  }

  lemma Joins(masters: seq<UpstreamAddress>, slaves: seq<UpstreamAddress>, t: map<UpstreamAddress, Info>,
          u: UpstreamAddress)
    requires Held(masters, slaves, t) && u !in t
    ensures Held(if u.isMaster then masters + [u] else masters, if u.isMaster then slaves else slaves + [u],
                 t[u := Info(0, u.maxFails, true, false)])
  {
  }

  lemma Leaves(masters: seq<UpstreamAddress>, slaves: seq<UpstreamAddress>, t: map<UpstreamAddress, Info>,
          u: UpstreamAddress, listed: bool)
    requires Held(masters, slaves, t) && u in t && t[u].attached
    ensures Held(if u.isMaster then Without(masters, u) else masters, if u.isMaster then slaves else Without(slaves, u),
                 t[u := Info(t[u].fails, t[u].max, false, listed)])
  {
    WithoutIs(masters, u);
    WithoutIs(slaves, u);
    hide Without;
  }

  lemma SameHeld(masters: seq<UpstreamAddress>, slaves: seq<UpstreamAddress>, t: map<UpstreamAddress, Info>,
          u: UpstreamAddress, n: Info)
    requires Held(masters, slaves, t) && u in t && t[u].attached == n.attached
    ensures Held(masters, slaves, t[u := n])
  {
  }

  /** A server fails once, which is its limit, and answers again: `nbreak` stays 1 although
      the list is empty. */
  method BreakAndRecover() returns (group: UpstreamGroup)
    ensures fresh(group) && group.Valid()
    ensures group.breakerList == [] && group.nbreak == 1 && group.leaked == 1
  {
    group := new UpstreamGroup();
    var server := new UpstreamAddress(1, true);
    group.Add(server);
    group.NotifyUnavailable(server, true, 0);
    group.NotifyAvailable(server, true);
  }
}
