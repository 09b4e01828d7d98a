/** The cache of `util/LRUCache.h`: entries are counted by reference, and those that only
    the cache refers to wait in a list of their own, the one released longest ago first.
    The asserts of the original are asserts here. */
module LruCache {
  import opened Collections

  // ---------- The counts ----------

  /** The counter and the flag of one handle. */
  datatype Entry = Entry(refs: int, inCache: bool)
  {
    predicate InUse() { inCache && refs > 1 }

    predicate NotUse() { inCache && refs == 1 }
  }

  /** The lists split the cached handles by whether somebody holds them. */
  ghost predicate ListsOk<H>(inUse: seq<H>, notUse: seq<H>, t: map<H, Entry>)
  {
    && NoDup(inUse) && NoDup(notUse)
    && (forall h <- inUse :: h in t && t[h].InUse())
    && (forall h <- notUse :: h in t && t[h].NotUse())
    && (forall h <- t :: (t[h].InUse() ==> h in inUse) && (t[h].NotUse() ==> h in notUse))
  }

  /** `ref` is the number of handles that callers hold, and one more for the cache; `extra`
      is about to be given up. */
  ghost predicate CountsOk<H>(t: map<H, Entry>, held: multiset<H>, extra: multiset<H>)
  {
    && (forall h <- held :: h in t)
    && forall h <- t :: t[h].refs > 0 && t[h].refs == held[h] + extra[h] + if t[h].inCache then 1 else 0
  }

  lemma ToInUse<H>(inUse: seq<H>, notUse: seq<H>, t: map<H, Entry>, e: H, n: Entry)
    requires ListsOk(inUse, notUse, t) && e in t && t[e].NotUse() && n.InUse()
    ensures ListsOk(inUse + [e], Without(notUse, e), t[e := n])
  {
    assert e !in inUse;
    WithoutIs(notUse, e);
    forall h | h in Without(notUse, e) ensures h in t && h != e && t[h].NotUse() {}
    forall h | h in t && h != e && t[h].NotUse() ensures h in Without(notUse, e) { assert h in notUse; }
  }

  lemma ToNotUse<H>(inUse: seq<H>, notUse: seq<H>, t: map<H, Entry>, e: H, n: Entry)
    requires ListsOk(inUse, notUse, t) && e in t && t[e].InUse() && n.NotUse()
    ensures ListsOk(Without(inUse, e), notUse + [e], t[e := n])
  {
    assert e !in notUse;
    WithoutIs(inUse, e);
    forall h | h in Without(inUse, e) ensures h in t && h != e && t[h].InUse() {}
    forall h | h in t && h != e && t[h].InUse() ensures h in Without(inUse, e) { assert h in inUse; }
  }

  lemma Stay<H>(inUse: seq<H>, notUse: seq<H>, t: map<H, Entry>, e: H, n: Entry)
    requires ListsOk(inUse, notUse, t) && (e in t ==> t[e].InUse() == n.InUse() && t[e].NotUse() == n.NotUse())
    requires e !in t ==> !n.inCache
    ensures ListsOk(inUse, notUse, t[e := n])
  {
  }

  lemma OutOfLists<H>(inUse: seq<H>, notUse: seq<H>, t: map<H, Entry>, e: H, n: Entry)
    requires ListsOk(inUse, notUse, t) && e in t && !n.inCache
    ensures ListsOk(Without(inUse, e), Without(notUse, e), t[e := n])
  {
    WithoutIs(inUse, e);
    WithoutIs(notUse, e);
    forall h | h in Without(inUse, e) ensures h in t && h != e && t[h].InUse() {}
    forall h | h in Without(notUse, e) ensures h in t && h != e && t[h].NotUse() {}
    forall h | h in t && h != e && t[h].InUse() ensures h in Without(inUse, e) { assert h in inUse; }
    forall h | h in t && h != e && t[h].NotUse() ensures h in Without(notUse, e) { assert h in notUse; }
  }

  lemma Gone<H>(inUse: seq<H>, notUse: seq<H>, t: map<H, Entry>, e: H)
    requires ListsOk(inUse, notUse, t) && e in t && !t[e].inCache
    ensures ListsOk(inUse, notUse, t - {e})
  {
  }

  lemma Newcomer<H>(inUse: seq<H>, notUse: seq<H>, t: map<H, Entry>, e: H)
    requires ListsOk(inUse, notUse, t) && e in t && !t[e].inCache
    ensures ListsOk(inUse + [e], notUse, t[e := Entry(2, true)])
  {
  }

  class LRUHandle<K(==), V> {
    const key: K
    const value: V
    var refs: int
    var inCache: bool

    constructor (k: K, v: V)
      ensures key == k && value == v && refs == 0 && !inCache
    {
      key, value, refs, inCache := k, v, 0, false;
    }
  }

  ghost function Cached<H>(t: map<H, Entry>): set<H> { set h | h in t && t[h].inCache }

  /** The map finds exactly the handles that are in the cache. */
  ghost predicate MapOk<K, V>(m: map<K, LRUHandle<K, V>>, cached: set<LRUHandle<K, V>>, size: int)
  {
    && (forall k <- m :: m[k] in cached && m[k].key == k)
    && (forall h <- cached :: h.key in m && m[h.key] == h)
    && size == |m|
  }

  ghost function Values<K, V>(m: map<K, LRUHandle<K, V>>): map<K, V> { map k | k in m :: m[k].value }

  lemma ValuesWithout<K, V>(m: map<K, LRUHandle<K, V>>, key: K)
    ensures Values(m - {key}) == Values(m) - {key}
    ensures key !in m ==> m - {key} == m
  {
  }

  /** No handle is freed twice, or while it is in use. */
  ghost predicate FreedOk<H>(freed: seq<H>, t: map<H, Entry>)
  {
    NoDup(freed) && forall h <- freed :: h !in t
  }

  /** What the deleter has been given once the key is out of the map: also its handle, if
      nobody holds that one. */
  ghost function FreedBy<K, H>(freed: seq<H>, held: multiset<H>, m: map<K, H>, key: K): seq<H>
  {
    if key in m && held[m[key]] == 0 then freed + [m[key]] else freed
  }

  class LRUCache<K(==), V> {
    var maxSize: nat
    var size: int
    var notUse: seq<LRUHandle<K, V>>
    var inUse: seq<LRUHandle<K, V>>
    var cacheMap: map<K, LRUHandle<K, V>>

    /** The handles that exist, those that callers hold, as often as they hold them, and
        those whose values the deleter was given. */
    ghost var live: set<LRUHandle<K, V>>
    ghost var held: multiset<LRUHandle<K, V>>
    ghost var freed: seq<LRUHandle<K, V>>
    ghost var created: set<LRUHandle<K, V>>

    ghost function Table(): map<LRUHandle<K, V>, Entry>
      reads this`live, live
    {
      map h | h in live :: Entry(h.refs, h.inCache)
    }

    ghost predicate Valid()
      reads this, live
    {
      && ListsOk(inUse, notUse, Table()) && CountsOk(Table(), held, multiset{}) && FreedOk(freed, Table())
      && MapOk(cacheMap, Cached(Table()), size) && created == live + Elems(freed)
    }

    /** What the cache holds, for its users. */
    ghost function View(): map<K, V>
      reads this`cacheMap
    {
      Values(cacheMap)
    }

    constructor ()
      ensures Valid() && View() == map[] && live == {} && freed == [] && held == multiset{} && maxSize == 0
    {
      maxSize, size, notUse, inUse, cacheMap := 0, 0, [], [], map[];
      live, held, freed, created := {}, multiset{}, [], {};
      new;
      hide ListsOk, CountsOk, FreedOk, MapOk, Cached;
      assert Table() == map[];
      EmptyOk<K, V>();
    }

    method SetMaxSize(max: nat)
      requires Valid()
      modifies this`maxSize
      ensures Valid() && maxSize == max
    {
      hide ListsOk, CountsOk, FreedOk, MapOk, Cached, Elems;
      maxSize := max;
    }

    /** `ref` */
    method Ref(e: LRUHandle<K, V>)
      requires ListsOk(inUse, notUse, Table()) && e in live && e.refs > 0
      modifies this`inUse, this`notUse, e`refs
      ensures Table() == old(Table())[e := Entry(old(e.refs) + 1, e.inCache)]
      ensures ListsOk(inUse, notUse, Table())
      ensures if e.inCache && old(e.refs) == 1 then inUse == old(inUse) + [e] && notUse == Without(old(notUse), e)
              else inUse == old(inUse) && notUse == old(notUse)
    {
      hide ListsOk, Without;
      ghost var t := Table();
      ghost var n := Entry(e.refs + 1, e.inCache);
      if e.inCache && e.refs == 1 {
        ToInUse(inUse, notUse, t, e, n);
        notUse := Without(notUse, e);
        inUse := inUse + [e];
      } else {
        Stay(inUse, notUse, t, e, n);
      }
      e.refs := e.refs + 1;
      assert Table() == t[e := n];
    }

    /** `unref` */
    method Unref(e: LRUHandle<K, V>)
      requires ListsOk(inUse, notUse, Table()) && CountsOk(Table(), held, multiset{e}) && FreedOk(freed, Table())
               && e in live
      modifies this`inUse, this`notUse, this`live, this`freed, e`refs
      ensures ListsOk(inUse, notUse, Table()) && CountsOk(Table(), held, multiset{}) && FreedOk(freed, Table())
      ensures if old(held[e] == 0 && !e.inCache) then live == old(live) - {e} && freed == old(freed) + [e]
              else live == old(live) && freed == old(freed)
      ensures Table() == if old(held[e] == 0 && !e.inCache) then old(Table()) - {e}
                         else old(Table())[e := Entry(old(e.refs) - 1, e.inCache)]
      ensures if e.inCache && old(e.refs) == 2 then inUse == Without(old(inUse), e) && notUse == old(notUse) + [e]
              else inUse == old(inUse) && notUse == old(notUse)
    {
      hide ListsOk, Without, CountsOk, FreedOk;
      ghost var t := Table();
      CountOf(t, held, multiset{e}, e);
      ghost var n := Entry(e.refs - 1, e.inCache);
      assert e.refs > 0;
      e.refs := e.refs - 1;
      assert Table() == t[e := n];
      if e.refs == 0 {
        assert !e.inCache;
        Gone(inUse, notUse, t, e);
        Freed(t, held, freed, e);
        freed := freed + [e];
        live := live - {e};
        assert Table() == t - {e};
      } else {
        Dropped(t, held, freed, e);
        if e.inCache && e.refs == 1 {
          ToNotUse(inUse, notUse, t, e, n);
          inUse := Without(inUse, e);
          notUse := notUse + [e];
        } else {
          Stay(inUse, notUse, t, e, n);
        }
      }
    }

    /** `erase_node` */
    method EraseNode(e: LRUHandle<K, V>)
      requires ListsOk(inUse, notUse, Table()) && CountsOk(Table(), held, multiset{}) && FreedOk(freed, Table())
      requires e in live && e.inCache
      modifies this`inUse, this`notUse, this`live, this`freed, this`size, e
      ensures ListsOk(inUse, notUse, Table()) && CountsOk(Table(), held, multiset{}) && FreedOk(freed, Table())
      ensures Table() == if old(held[e]) == 0 then old(Table()) - {e}
                         else old(Table())[e := Entry(old(held[e]), false)]
      ensures size == old(size) - 1
      ensures if old(held[e]) == 0 then live == old(live) - {e} && freed == old(freed) + [e]
              else live == old(live) && freed == old(freed)
      ensures inUse == Without(old(inUse), e) && notUse == Without(old(notUse), e)
    {
      hide ListsOk, Without, CountsOk, FreedOk;
      assert e.inCache;
      ghost var t := Table();
      CountOf(t, held, multiset{}, e);
      Uncached(t, held, freed, e);
      OutOfLists(inUse, notUse, t, e, Entry(e.refs, false));
      inUse, notUse := Without(inUse, e), Without(notUse, e);
      e.inCache := false;
      size := size - 1;
      assert Table() == t[e := Entry(e.refs, false)];
      Unref(e);
    }

    lemma ViewAt(key: K)
      ensures key in View() <==> key in cacheMap
      ensures key in View() ==> View()[key] == cacheMap[key].value
    {
    }

    /** `get` */
    method Get(key: K) returns (e: LRUHandle?<K, V>)
      requires Valid()
      modifies this`inUse, this`notUse, this`held, live`refs
      ensures Valid() && live == old(live) && freed == old(freed) && cacheMap == old(cacheMap)
      ensures e == null <==> key !in View()
      ensures e == null ==> held == old(held)
      ensures e != null ==> held == old(held) + multiset{e} && e.key == key && e.value == View()[key]
      ensures notUse == if key in cacheMap && old(held)[cacheMap[key]] == 0 then Without(old(notUse), cacheMap[key])
                        else old(notUse)
    {
      ViewAt(key);
      hide ListsOk, CountsOk, FreedOk, MapOk, Cached, Elems, Values, Without;
      e := null;
      if key in cacheMap {
        var h: LRUHandle<K, V> := cacheMap[key];
        MapFinds(cacheMap, Table(), size, key);
        CountOf(Table(), held, multiset{}, h);
        Taken(Table(), held, freed, h);
        SameCached(Table(), h, Entry(h.refs + 1, h.inCache));
        Ref(h);
        held := held + multiset{h};
        e := h;
      }
    }

    /** `release`, of a handle that the caller got from `Get` or `Put` and still has */
    method Release(handle: LRUHandle?<K, V>)
      requires Valid() && (handle != null ==> handle in held)
      modifies this`inUse, this`notUse, this`held, this`live, this`freed, live`refs
      ensures Valid() && cacheMap == old(cacheMap) && live <= old(live)
      ensures handle == null ==> held == old(held) && freed == old(freed)
      ensures handle != null ==> held == old(held) - multiset{handle}
      ensures notUse == if handle != null && handle.inCache && held[handle] == 0 then old(notUse) + [handle]
              else old(notUse)
      ensures handle != null ==> freed == if held[handle] == 0 && !handle.inCache then old(freed) + [handle]
              else old(freed)
    {
      hide ListsOk, CountsOk, FreedOk, MapOk, Cached, Elems, Without, Values;
      if handle != null {
        var h: LRUHandle<K, V> := handle;
        Returned(Table(), held, h);
        SameCached(Table(), h, Entry(h.refs - 1, h.inCache));
        GoneUncached(Table(), h);
        FreedMore(live, freed, h);
        held := held - multiset{h};
        Unref(h);
      }
    }

    /** `del` */
    method Del(key: K)
      requires Valid()
      modifies this`inUse, this`notUse, this`live, this`freed, this`size, this`cacheMap, live
      ensures Valid() && held == old(held) && View() == old(View()) - {key} && live <= old(live)
      ensures freed == FreedBy(old(freed), held, old(cacheMap), key)
    {
      ValuesWithout(cacheMap, key);
      hide ListsOk, CountsOk, FreedOk, MapOk, Cached, Elems, Values, Without;
      if key in cacheMap {
        var node := cacheMap[key];
        MapRemove(cacheMap, Table(), size, key, held[node]);
        FreedMore(live, freed, node);
        cacheMap := cacheMap - {key};
        EraseNode(node);
      }
    }

    /** The entry that was released longest ago goes. */
    method Evict()
      requires Valid() && notUse != []
      modifies this`inUse, this`notUse, this`live, this`freed, this`size, this`cacheMap, live
      ensures Valid() && notUse == old(notUse)[1..] && size == old(size) - 1 && live <= old(live)
      ensures cacheMap == old(cacheMap) - {old(notUse)[0].key} && freed == old(freed) + [old(notUse)[0]]
    {
      hide ListsOk, CountsOk, FreedOk, MapOk, Cached, Elems, Without;
      FirstUnused(inUse, notUse, Table(), held);
      var e := notUse[0];
      assert e.refs == 1;
      MapHas(cacheMap, Table(), size, e);
      MapRemove(cacheMap, Table(), size, e.key, held[e]);
      FreedMore(live, freed, e);
      cacheMap := cacheMap - {e.key};
      EraseNode(e);
    }

    /** `prune`: exactly the entries that nobody holds go. */
    method Prune()
      requires Valid()
      modifies this`inUse, this`notUse, this`live, this`freed, this`size, this`cacheMap, live
      ensures Valid() && notUse == [] && freed == old(freed) + old(notUse) && live <= old(live)
      ensures cacheMap == old(cacheMap) - Keys(old(notUse))
    {
      ghost var n := 0;
      hide Valid;
      while notUse != []
        invariant Valid() && live <= old(live) && n <= |old(notUse)| && notUse == old(notUse)[n..]
        invariant freed == old(freed) + old(notUse)[..n] && cacheMap == old(cacheMap) - Keys(old(notUse)[..n])
        decreases |notUse|
      {
        KeysNext(old(notUse), n);
        Evict();
        n := n + 1;
      }
      assert old(notUse)[..n] == old(notUse);
    }

    /** The counter, the flag and the list of a handle that enters the cache. */
    method Enter(e: LRUHandle<K, V>)
      requires ListsOk(inUse, notUse, Table()) && CountsOk(Table(), held, multiset{}) && FreedOk(freed, Table())
      requires e in live && e.refs == 1 && !e.inCache
      modifies this`inUse, this`size, e
      ensures ListsOk(inUse, notUse, Table()) && CountsOk(Table(), held, multiset{}) && FreedOk(freed, Table())
      ensures Table() == old(Table())[e := Entry(2, true)] && size == old(size) + 1 && e.inCache
    {
      hide ListsOk, CountsOk, FreedOk;
      ghost var t := Table();
      Newcomer(inUse, notUse, t, e);
      CachedNow(t, held, freed, e);
      size := size + 1;
      e.inCache := true;
      e.refs := e.refs + 1;
      inUse := inUse + [e];
      assert Table() == t[e := Entry(2, true)];
    }

    /** The part of `put` that takes a new handle, which its caller will hold, into the
        cache; an entry with the same key makes room for it. */
    method Store(e: LRUHandle<K, V>)
      requires Valid() && e in live && e.refs == 1 && !e.inCache
      modifies this`inUse, this`notUse, this`live, this`freed, this`size, this`cacheMap, live
      ensures Valid() && cacheMap == old(cacheMap)[e.key := e] && live <= old(live)
      ensures size == if e.key in old(cacheMap) then old(size) else old(size) + 1
      ensures freed == FreedBy(old(freed), held, old(cacheMap), e.key)
    {
      hide ListsOk, CountsOk, FreedOk, MapOk, Cached, Elems, Without;
      ghost var t := Table();
      Enter(e);
      if e.key in cacheMap {
        Supersede(e, t);
      } else {
        MapAdd(cacheMap, t, size, e);
        cacheMap := cacheMap[e.key := e];
      }
    }

    /** The entry that had the key leaves. */
    method Supersede(e: LRUHandle<K, V>, ghost t: map<LRUHandle<K, V>, Entry>)
      requires ListsOk(inUse, notUse, Table()) && CountsOk(Table(), held, multiset{}) && FreedOk(freed, Table())
      requires MapOk(cacheMap, Cached(t), size - 1) && e in t && !t[e].inCache && Table() == t[e := Entry(2, true)]
      requires e.key in cacheMap && created == live + Elems(freed)
      modifies this`inUse, this`notUse, this`live, this`freed, this`size, this`cacheMap, live
      ensures Valid() && cacheMap == old(cacheMap)[e.key := e] && live <= old(live)
      ensures size == old(size) - 1 && freed == FreedBy(old(freed), held, old(cacheMap), e.key)
    {
      hide ListsOk, CountsOk, FreedOk, MapOk, Cached, Elems, Without;
      var was := cacheMap[e.key];
      MapReplace(cacheMap, t, size, e, held[was]);
      FreedMore(live, freed, was);
      TableHas(was);
      EraseNode(was);
      cacheMap := cacheMap[e.key := e];
    }

    lemma TableHas(h: LRUHandle<K, V>)
      ensures h in Table() ==> h in live && Table()[h].inCache == h.inCache
    {
    }

    /** The handle that `put` returns, before it is in the cache. */
    method Create(key: K, value: V) returns (e: LRUHandle<K, V>)
      requires Valid()
      modifies this`held, this`live, this`created
      ensures Valid() && fresh(e) && e.key == key && e.value == value && e.refs == 1 && !e.inCache
      ensures held == old(held) + multiset{e} && live == old(live) + {e} && created == old(created) + {e}
    {
      hide ListsOk, CountsOk, FreedOk, MapOk, Cached;
      e := new LRUHandle(key, value);
      e.refs := 1;
      assert e !in live;
      Born(Table(), held, freed, e);
      Stay(inUse, notUse, Table(), e, Entry(1, false));
      ghost var t := Table();
      held, live, created := held + multiset{e}, live + {e}, created + {e};
      assert Table() == t[e := Entry(1, false)];
    }

    /** `put`: with room, or without a limit, the cache now has the value under the key;
        without room it does not take it, and gives up what nobody holds while it is over
        its limit. */
    method Put(key: K, value: V) returns (e: LRUHandle<K, V>)
      requires Valid()
      modifies this`inUse, this`notUse, this`held, this`live, this`freed, this`created, this`size, this`cacheMap, live
      ensures Valid() && fresh(e) && e.key == key && e.value == value && held == old(held) + multiset{e}
      ensures live <= old(live) + {e} && created == old(created) + {e}
      ensures key in cacheMap && cacheMap[key] == e <==> maxSize == 0 || old(size) < maxSize
      ensures maxSize == 0 || old(size) < maxSize ==>
                && cacheMap == old(cacheMap)[key := e] && View() == old(View())[key := value]
                && freed == FreedBy(old(freed), old(held), old(cacheMap), key)
      ensures !(maxSize == 0 || old(size) < maxSize) ==>
                var n := Evicted(old(size), maxSize, |old(notUse)|);
                && cacheMap == old(cacheMap) - Keys(old(notUse)[..n])
                && freed == old(freed) + old(notUse)[..n] && notUse == old(notUse)[n..]
                && size == old(size) - n && (notUse == [] || size <= maxSize) && (n > 0 ==> size >= maxSize)
    {
      hide Valid, Keys, Without;
      CachedAreLive();
      NoKeys(notUse);
      ghost var m := cacheMap;
      e := Create(key, value);
      if maxSize == 0 || size < maxSize {
        Store(e);
      }
      if maxSize > 0 {
        EvictOver();
      }
      assert cacheMap == m[key := e] ==> View() == old(View())[key := value];
    }

    lemma CachedAreLive()
      requires Valid()
      ensures forall k <- cacheMap :: cacheMap[k] in live
    {
    }

    /** The loop of `put` over what nobody holds. */
    method EvictOver()
      requires Valid()
      modifies this`inUse, this`notUse, this`live, this`freed, this`size, this`cacheMap, live
      ensures Valid() && live <= old(live)
      ensures var n := Evicted(old(size), maxSize, |old(notUse)|);
              && cacheMap == old(cacheMap) - Keys(old(notUse)[..n]) && size == old(size) - n
              && freed == old(freed) + old(notUse)[..n] && notUse == old(notUse)[n..]
    {
      hide Valid, Keys, Without;
      ghost var n: nat := 0;
      NoKeys(notUse);
      ghost var unused, m, f := notUse, cacheMap, freed;
      while size > maxSize && notUse != []
        invariant Valid() && live <= old(live) && n <= |unused| && notUse == unused[n..]
        invariant freed == f + unused[..n] && cacheMap == m - Keys(unused[..n])
        invariant size == old(size) - n && (n > 0 ==> size >= maxSize)
        decreases |notUse|
      {
        KeysNext(unused, n);
        Evict();
        n := n + 1;
      }
    }

    /** The destructor, once every handle has been released: whatever was ever created has
        been freed exactly once. */
    method Destroy()
      requires Valid() && held == multiset{}
      modifies this`inUse, this`notUse, this`live, this`freed, live
      ensures live == {} && NoDup(freed) && Elems(freed) == created
    {
      NobodyHolds(inUse, notUse, Table());
      assert inUse == [];
      hide ListsOk, CountsOk, FreedOk, Elems, Without;
      while notUse != []
        invariant ListsOk(inUse, notUse, Table()) && CountsOk(Table(), held, multiset{}) && FreedOk(freed, Table())
        invariant inUse == [] && live <= old(live) && created == live + Elems(freed) && held == multiset{}
        decreases |notUse|
      {
        var e := notUse[0];
        FirstUnused(inUse, notUse, Table(), held);
        assert e.inCache;
        assert e.refs == 1;
        FinalRelease(e);
      }
      NobodyHolds(inUse, notUse, Table());
      AllFreed(freed, Table());
      assert Table().Keys == live;
    }

    /** One turn of the destructor's loop; `notUse` is what the loop has not yet visited. */
    method FinalRelease(e: LRUHandle<K, V>)
      requires ListsOk(inUse, notUse, Table()) && CountsOk(Table(), held, multiset{}) && FreedOk(freed, Table())
      requires notUse != [] && e == notUse[0] && inUse == [] && created == live + Elems(freed)
      modifies this`inUse, this`notUse, this`live, this`freed, live
      ensures ListsOk(inUse, notUse, Table()) && CountsOk(Table(), held, multiset{}) && FreedOk(freed, Table())
      ensures notUse == old(notUse)[1..] && inUse == [] && live == old(live) - {e} && created == live + Elems(freed)
    {
      hide ListsOk, CountsOk, FreedOk, Elems, Without;
      ghost var t := Table();
      FirstUnused(inUse, notUse, t, held);
      Uncached(t, held, freed, e);
      OutOfLists(inUse, notUse, t, e, Entry(1, false));
      FreedMore(live, freed, e);
      notUse := notUse[1..];
      e.inCache := false;
      assert Table() == t[e := Entry(1, false)];
      Unref(e);
    }
  }

  lemma NoKeys<K, V>(s: seq<LRUHandle<K, V>>)
    ensures Keys(s[..0]) == {}
  {
  }

  lemma Head<T>(s: seq<T>)
    ensures s == [] || s[0] in s
  {
  }

  lemma NobodyHolds<H>(inUse: seq<H>, notUse: seq<H>, t: map<H, Entry>)
    requires ListsOk(inUse, notUse, t) && CountsOk(t, multiset{}, multiset{})
    ensures inUse == [] && forall h <- t :: h in notUse
  {
    Head(inUse);
  }

  lemma AllFreed<H>(freed: seq<H>, t: map<H, Entry>)
    requires FreedOk(freed, t)
    ensures NoDup(freed) && {} + Elems(freed) == Elems(freed)
  {
  }

  /** How many of `unused` entries go when the cache is over its limit. */
  function Evicted(size: int, max: nat, unused: nat): (n: nat)
    ensures n <= unused
  {
    if size <= max then 0 else if size - max < unused then size - max else unused
  }

  lemma Born<H>(t: map<H, Entry>, held: multiset<H>, freed: seq<H>, e: H)
    requires CountsOk(t, held, multiset{}) && FreedOk(freed, t) && e !in t && e !in freed
    ensures var u := t[e := Entry(1, false)];
            CountsOk(u, held + multiset{e}, multiset{}) && FreedOk(freed, u) && Cached(u) == Cached(t)
  {
  }

  lemma CachedNow<H>(t: map<H, Entry>, held: multiset<H>, freed: seq<H>, e: H)
    requires CountsOk(t, held, multiset{}) && FreedOk(freed, t) && e in t && t[e] == Entry(1, false)
    ensures var u := t[e := Entry(2, true)];
            CountsOk(u, held, multiset{}) && FreedOk(freed, u)
  {
  }

  lemma MapAdd<K, V>(m: map<K, LRUHandle<K, V>>, t: map<LRUHandle<K, V>, Entry>, size: int, e: LRUHandle<K, V>)
    requires MapOk(m, Cached(t), size - 1) && e.key !in m
    ensures MapOk(m[e.key := e], Cached(t[e := Entry(2, true)]), size)
  {
    CachedMore(t, e);
    hide Cached;
    assert m[e.key := e].Keys == m.Keys + {e.key};
  }

  lemma CachedMore<H>(t: map<H, Entry>, e: H)
    ensures Cached(t[e := Entry(2, true)]) == Cached(t) + {e}
  {
  }

  lemma MapReplace<K, V>(m: map<K, LRUHandle<K, V>>, t: map<LRUHandle<K, V>, Entry>, size: int,
                         e: LRUHandle<K, V>, n: nat)
    requires MapOk(m, Cached(t), size - 1) && e.key in m && e in t && !t[e].inCache
    ensures var was, u := m[e.key], t[e := Entry(2, true)];
            && was in u && was != e && u[was].inCache
            && MapOk(m[e.key := e], Cached(u - {was}), size - 1)
            && MapOk(m[e.key := e], Cached(u[was := Entry(n, false)]), size - 1)
  {
    var was, u := m[e.key], t[e := Entry(2, true)];
    assert was in Cached(t);
    assert Cached(u - {was}) == Cached(t) - {was} + {e} == Cached(u[was := Entry(n, false)]);
    assert m[e.key := e].Keys == m.Keys;
  }

  ghost function Keys<K, V>(s: seq<LRUHandle<K, V>>): set<K> { set h | h in s :: h.key }

  lemma KeysNext<K, V>(s: seq<LRUHandle<K, V>>, n: nat)
    requires n < |s|
    ensures s[..n + 1] == s[..n] + [s[n]] && Keys(s[..n + 1]) == Keys(s[..n]) + {s[n].key}
  {
    assert forall h :: h in s[..n + 1] <==> h in s[..n] || h == s[n];
  }

  /** The head of the second list is in the cache, and nobody holds it. */
  lemma FirstUnused<H>(inUse: seq<H>, notUse: seq<H>, t: map<H, Entry>, held: multiset<H>)
    requires ListsOk(inUse, notUse, t) && CountsOk(t, held, multiset{}) && notUse != []
    ensures notUse[0] in t && t[notUse[0]] == Entry(1, true) && held[notUse[0]] == 0
    ensures Without(notUse, notUse[0]) == notUse[1..] && Without(inUse, notUse[0]) == inUse
  {
    assert notUse[0] in notUse && notUse[0] !in inUse;
    WithoutIs(inUse, notUse[0]);
  }

  lemma Taken<H>(t: map<H, Entry>, held: multiset<H>, freed: seq<H>, e: H)
    requires CountsOk(t, held, multiset{}) && FreedOk(freed, t) && e in t
    ensures var u := t[e := Entry(t[e].refs + 1, t[e].inCache)];
            CountsOk(u, held + multiset{e}, multiset{}) && FreedOk(freed, u)
  {
  }

  lemma Returned<H>(t: map<H, Entry>, held: multiset<H>, e: H)
    requires CountsOk(t, held, multiset{}) && e in held
    ensures e in t && CountsOk(t, held - multiset{e}, multiset{e})
  {
  }

  lemma SameCached<H>(t: map<H, Entry>, e: H, n: Entry)
    requires e in t && n.inCache == t[e].inCache
    ensures Cached(t[e := n]) == Cached(t)
  {
  }

  lemma GoneUncached<H>(t: map<H, Entry>, e: H)
    ensures e in t && !t[e].inCache ==> Cached(t - {e}) == Cached(t)
  {
  }

  lemma FreedMore<H>(live: set<H>, freed: seq<H>, e: H)
    requires e in live
    ensures live - {e} + Elems(freed + [e]) == live + Elems(freed)
  {
  }

  lemma MapFinds<K, V>(m: map<K, LRUHandle<K, V>>, t: map<LRUHandle<K, V>, Entry>, size: int, key: K)
    requires MapOk(m, Cached(t), size) && key in m
    ensures m[key] in t && t[m[key]].inCache && m[key].key == key
  {
  }

  lemma MapHas<K, V>(m: map<K, LRUHandle<K, V>>, t: map<LRUHandle<K, V>, Entry>, size: int, e: LRUHandle<K, V>)
    requires MapOk(m, Cached(t), size) && e in t && t[e].inCache
    ensures e.key in m && m[e.key] == e
  {
  }

  lemma MapRemove<K, V>(m: map<K, LRUHandle<K, V>>, t: map<LRUHandle<K, V>, Entry>, size: int, key: K, n: nat)
    requires MapOk(m, Cached(t), size) && key in m
    ensures m[key] in t && t[m[key]].inCache
    ensures MapOk(m - {key}, Cached(t - {m[key]}), size - 1)
    ensures MapOk(m - {key}, Cached(t[m[key] := Entry(n, false)]), size - 1)
  {
    assert Cached(t - {m[key]}) == Cached(t) - {m[key]} == Cached(t[m[key] := Entry(n, false)]);
    assert (m - {key}).Keys == m.Keys - {key};
  }

  lemma EmptyOk<K, V>()
    ensures var t: map<LRUHandle<K, V>, Entry> := map[];
            && ListsOk([], [], t) && CountsOk(t, multiset{}, multiset{}) && FreedOk([], t)
            && MapOk<K, V>(map[], Cached(t), 0)
  {
  }

  lemma CountOf<H>(t: map<H, Entry>, held: multiset<H>, extra: multiset<H>, e: H)
    requires CountsOk(t, held, extra) && e in t
    ensures t[e].refs > 0 && t[e].refs == held[e] + extra[e] + if t[e].inCache then 1 else 0
  {
  }

  lemma Freed<H>(t: map<H, Entry>, held: multiset<H>, freed: seq<H>, e: H)
    requires CountsOk(t, held, multiset{e}) && FreedOk(freed, t) && e in t && t[e].refs == 1
    ensures CountsOk(t - {e}, held, multiset{}) && FreedOk(freed + [e], t - {e})
  {
  }

  lemma Dropped<H>(t: map<H, Entry>, held: multiset<H>, freed: seq<H>, e: H)
    requires CountsOk(t, held, multiset{e}) && FreedOk(freed, t) && e in t && t[e].refs > 1
    ensures var u := t[e := Entry(t[e].refs - 1, t[e].inCache)];
            CountsOk(u, held, multiset{}) && FreedOk(freed, u)
  {
  }

  lemma Uncached<H>(t: map<H, Entry>, held: multiset<H>, freed: seq<H>, e: H)
    requires CountsOk(t, held, multiset{}) && FreedOk(freed, t) && e in t && t[e].inCache
    ensures var u := t[e := Entry(t[e].refs, false)];
            CountsOk(u, held, multiset{e}) && FreedOk(freed, u)
  {
  }

  // ---------- A value that is declined ----------

  /** As many entries as the map has. */
  lemma SizeOf<K, V>(cache: LRUCache<K, V>)
    requires cache.Valid()
    ensures cache.size == |cache.cacheMap|
  {
  }

  /** While a cache is not over its limit, nothing is given up. */
  lemma NoneGo<K, V>(size: int, max: nat, unused: seq<LRUHandle<K, V>>)
    requires size <= max
    ensures Evicted(size, max, |unused|) == 0 && Keys(unused[..0]) == {}
  {
  }

  /** A cache for one entry has it, and somebody holds it. */
  method PutOnce() returns (cache: LRUCache<int, int>, first: LRUHandle<int, int>)
    ensures fresh(cache) && fresh(cache.live) && cache.Valid() && cache.maxSize == cache.size == 1
    ensures first.value == 10 && cache.cacheMap == map[1 := first]
  {
    hide *;
    cache := new LRUCache();
    cache.SetMaxSize(1);
    Nothing(cache);
    first := cache.Put(1, 10);
    SizeOf(cache);
  }

  lemma Nothing<K, V>(cache: LRUCache<K, V>)
    requires cache.Valid() && cache.View() == map[]
    ensures cache.cacheMap == map[] && cache.size == 0
  {
    if k :| k in cache.cacheMap { cache.ViewAt(k); }
  }

  /** The second value for its key is declined, and `get` would still return the first. */
  method PutTwice() returns (cache: LRUCache<int, int>, first: LRUHandle<int, int>, second: LRUHandle<int, int>)
    ensures fresh(cache) && cache.Valid() && cache.maxSize == 1
    ensures first.value == 10 && second.key == 1 && second.value == 20 && second in cache.held
    ensures cache.cacheMap == map[1 := first] && cache.View() == map[1 := 10]
  {
    cache, first := PutOnce();
    hide *;
    NoneGo(cache.size, cache.maxSize, cache.notUse);
    second := cache.Put(1, 20);
    assert cache.cacheMap == map[1 := first] - {};
    ViewOf(cache, 1, first);
  }

  lemma ViewOf<K, V>(cache: LRUCache<K, V>, key: K, e: LRUHandle<K, V>)
    requires cache.cacheMap == map[key := e]
    ensures cache.View() == map[key := e.value]
  {
  }
}
