/** Sorting by pairs of integers, compared one after the other. */
module Sorting {

  type Key = (int, int)

  predicate Below(x: Key, y: Key) {
    x.0 < y.0 || (x.0 == y.0 && x.1 < y.1)
  }

  ghost predicate InOrder<T>(s: seq<T>, key: T -> Key) {
    forall i, j | 0 <= i < j < |s| :: !Below(key(s[j]), key(s[i]))
  }

  ghost predicate DistinctKeys<T>(s: seq<T>, key: T -> Key) {
    forall i, j | 0 <= i < j < |s| :: key(s[i]) != key(s[j])
  }

  function Insert<T(==)>(x: T, s: seq<T>, key: T -> Key): (r: seq<T>)
    ensures multiset(r) == multiset(s) + multiset{x}
    ensures InOrder(s, key) ==> InOrder(r, key)
  {
    if s == [] || !Below(key(s[0]), key(x)) then
      [x] + s
    else
      assert s == [s[0]] + s[1..];
      var t := Insert(x, s[1..], key);
      InsertInOrder(x, s, t, key);
      [s[0]] + t
  }

  lemma InsertInOrder<T>(x: T, s: seq<T>, t: seq<T>, key: T -> Key)
    requires s != [] && Below(key(s[0]), key(x)) && multiset(t) == multiset(s[1..]) + multiset{x}
    requires InOrder(s[1..], key) ==> InOrder(t, key)
    ensures InOrder(s, key) ==> InOrder([s[0]] + t, key)
  {
    if InOrder(s, key) {
      forall j | 0 <= j < |t| ensures !Below(key(t[j]), key(s[0])) {
        assert t[j] in multiset(t);
        if t[j] != x {
          assert t[j] in s[1..];
          var i :| 0 <= i < |s[1..]| && s[1..][i] == t[j];
          assert s[i + 1] == t[j];
        }
      }
    }
  }

  function Sort<T(==)>(s: seq<T>, key: T -> Key): (r: seq<T>)
    ensures multiset(r) == multiset(s)
    ensures InOrder(r, key)
  {
    if s == [] then []
    else
      assert s == [s[0]] + s[1..];
      Insert(s[0], Sort(s[1..], key), key)
  }

  /** Only one order is possible when the keys are distinct. */
  lemma {:induction false} OneOrder<T>(s: seq<T>, t: seq<T>, key: T -> Key)
    requires multiset(s) == multiset(t) && InOrder(s, key) && InOrder(t, key) && DistinctKeys(s, key)
    ensures s == t
  {
    assert |s| == |multiset(s)| == |multiset(t)| == |t|;
    if s != [] {
      SameFirst(s, t, key);
      SameRest(s, t);
      OneOrder(s[1..], t[1..], key);
      assert s == [s[0]] + s[1..] && t == [t[0]] + t[1..];
    }
  }

  lemma SameFirst<T>(s: seq<T>, t: seq<T>, key: T -> Key)
    requires multiset(s) == multiset(t) && InOrder(s, key) && InOrder(t, key) && DistinctKeys(s, key)
    requires |s| == |t| > 0
    ensures s[0] == t[0]
  {
    assert s[0] in multiset(t) && t[0] in multiset(s);
    var i :| 0 <= i < |t| && t[i] == s[0];
    var j :| 0 <= j < |s| && s[j] == t[0];
    assert i > 0 ==> !Below(key(t[i]), key(t[0]));
    assert j > 0 ==> !Below(key(s[j]), key(s[0])) && key(s[0]) != key(s[j]);
  }

  lemma SameRest<T>(s: seq<T>, t: seq<T>)
    requires multiset(s) == multiset(t) && |s| == |t| > 0 && s[0] == t[0]
    ensures multiset(s[1..]) == multiset(t[1..])
  {
    assert s == [s[0]] + s[1..] && t == [t[0]] + t[1..];
    assert multiset(s[1..]) == multiset(s) - multiset{s[0]};
    assert multiset(t[1..]) == multiset(t) - multiset{t[0]};
  }

  /** Sorted sequences with distinct keys ascend strictly. */
  lemma Ascends<T>(s: seq<T>, r: seq<T>, key: T -> Key)
    requires multiset(r) == multiset(s) && InOrder(r, key) && DistinctKeys(s, key)
    ensures forall i, j | 0 <= i < j < |r| :: Below(key(r[i]), key(r[j]))
    ensures DistinctKeys(r, key)
  {
    KeysStay(s, r, key);
  }

  lemma {:induction false} KeysStay<T>(s: seq<T>, r: seq<T>, key: T -> Key)
    requires multiset(r) == multiset(s) && DistinctKeys(s, key)
    ensures DistinctKeys(r, key)
  {
    forall i, j | 0 <= i < j < |r| ensures key(r[i]) != key(r[j]) {
      assert r[i] in multiset(r) && r[j] in multiset(r);
      assert r[i] in s && r[j] in s;
      if r[i] == r[j] {
        Twice(r, i, j);
        Once(s, r[i], key);
      }
    }
  }

  lemma Twice<T>(r: seq<T>, i: nat, j: nat)
    requires i < j < |r| && r[i] == r[j]
    ensures multiset(r)[r[i]] >= 2
  {
    assert r == r[..j] + r[j..];
    assert r[i] in r[..j] && r[i] in r[j..];
    assert r[..j][i] == r[i] && r[j..][0] == r[j];
  }

  lemma {:induction false} Once<T>(s: seq<T>, x: T, key: T -> Key)
    requires DistinctKeys(s, key)
    ensures multiset(s)[x] <= 1
  {
    if s != [] {
      Once(s[1..], x, key);
      assert s == [s[0]] + s[1..];
      forall i | 0 <= i < |s[1..]| ensures s[1..][i] != s[0] {
        assert key(s[0]) != key(s[i + 1]);
      }
      assert s[0] == x ==> x !in s[1..];
    }
  }
}
