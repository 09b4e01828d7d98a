/** Optional values, lists without duplicates, and parts of sequences. */
module Collections {
  datatype Option<+T> = None | Some(value: T)

  ghost function Elems<T>(s: seq<T>): set<T> { set x | x in s }

  ghost predicate NoDup<T>(s: seq<T>) { forall i, j :: 0 <= i < j < |s| ==> s[i] != s[j] }

  /** Without the first entry that is `x`, if any. */
  function Without<T(==)>(s: seq<T>, x: T): seq<T>
  {
    if s == [] then [] else if s[0] == x then s[1..] else [s[0]] + Without(s[1..], x)
  }

  lemma {:induction false} WithoutIs<T>(s: seq<T>, x: T)
    requires NoDup(s)
    ensures NoDup(Without(s, x))
    ensures forall y <- Without(s, x) :: y in s && y != x
    ensures forall y <- s :: y != x ==> y in Without(s, x)
    ensures x !in s ==> Without(s, x) == s
    ensures |Without(s, x)| == if x in s then |s| - 1 else |s|
  {
    if s != [] {
      assert s == [s[0]] + s[1..];
      WithoutIs(s[1..], x);
      if s[0] == x {
        assert x !in s[1..];
      } else {
        var t := Without(s[1..], x);
        assert s[0] !in t;
        assert forall i :: 0 < i < |t| + 1 ==> ([s[0]] + t)[i] == t[i - 1];
      }
    }
  }

  lemma {:induction false} WithoutAt<T>(s: seq<T>, i: nat)
    requires NoDup(s) && i < |s|
    ensures Without(s, s[i]) == s[..i] + s[i + 1..]
  {
    if i > 0 {
      assert s[0] != s[i];
      WithoutAt(s[1..], i - 1);
      assert s[1..][i - 1] == s[i];
      assert s[..i] == [s[0]] + s[1..][..i - 1];
    }
  }

  /** What follows `a` in the sequence. */
  lemma Behind<T>(buf: seq<T>, at: nat, a: seq<T>, more: seq<T>)
    requires at <= |buf| && buf[at..] == a + more
    ensures at + |a| <= |buf| && buf[at + |a|..] == more
  {
    assert buf[at..][|a|..] == buf[at + |a|..];
  }

  lemma Shift<T>(a: seq<T>, b: seq<T>, c: seq<T>)
    ensures a + b + c == a + (b + c)
  {
  }
}
