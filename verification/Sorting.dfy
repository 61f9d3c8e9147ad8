/** Stable sorting by an integer key, and what singles it out. */
module Sorting {

  type Key<!T> = T -> int

  function InsertBy<T>(key: Key<T>, x: T, s: seq<T>): seq<T> {
    if s == [] || key(x) <= key(s[0]) then [x] + s else [s[0]] + InsertBy(key, x, s[1..])
  }

  function SortBy<T>(key: Key<T>, s: seq<T>): seq<T> {
    if s == [] then [] else InsertBy(key, s[0], SortBy(key, s[1..]))
  }

  predicate SortedBy<T>(key: Key<T>, s: seq<T>) {
    forall i, j :: 0 <= i < j < |s| ==> key(s[i]) <= key(s[j])
  }

  predicate StrictlySortedBy<T>(key: Key<T>, s: seq<T>) {
    forall i, j :: 0 <= i < j < |s| ==> key(s[i]) < key(s[j])
  }

  /** The elements with key k, in order. */
  function WithKey<T>(key: Key<T>, k: int, s: seq<T>): seq<T> {
    if s == [] then [] else (if key(s[0]) == k then [s[0]] else []) + WithKey(key, k, s[1..])
  }

  lemma {:induction false} InsertByHas<T>(key: Key<T>, x: T, s: seq<T>, y: T)
    ensures y in InsertBy(key, x, s) <==> y == x || y in s
  {
    if s == [] || key(x) <= key(s[0]) {
    } else {
      InsertByHas(key, x, s[1..], y);
    }
  }

  lemma {:induction false} SortByHas<T>(key: Key<T>, s: seq<T>, y: T)
    ensures y in SortBy(key, s) <==> y in s
  {
    if s == [] {
    } else {
      SortByHas(key, s[1..], y);
      InsertByHas(key, s[0], SortBy(key, s[1..]), y);
    }
  }

  lemma {:induction false} SortByKeepsLength<T>(key: Key<T>, s: seq<T>)
    ensures |SortBy(key, s)| == |s|
  {
    if s == [] {
    } else {
      SortByKeepsLength(key, s[1..]);
      InsertByGrows(key, s[0], SortBy(key, s[1..]));
    }
  }

  lemma {:induction false} InsertByGrows<T>(key: Key<T>, x: T, s: seq<T>)
    ensures |InsertBy(key, x, s)| == |s| + 1
  {
    if s == [] {
    } else {
      InsertByGrows(key, x, s[1..]);
    }
  }

  lemma {:induction false} InsertBySorts<T>(key: Key<T>, x: T, s: seq<T>)
    requires SortedBy(key, s)
    ensures SortedBy(key, InsertBy(key, x, s))
  {
    if s == [] || key(x) <= key(s[0]) {
    } else {
      var rest := InsertBy(key, x, s[1..]);
      InsertBySorts(key, x, s[1..]);
      forall j | 0 <= j < |rest| ensures key(s[0]) <= key(rest[j]) {
        InsertByHas(key, x, s[1..], rest[j]);
      }
    }
  }

  lemma {:induction false} InsertByIsStable<T>(key: Key<T>, x: T, s: seq<T>, k: int)
    ensures WithKey(key, k, InsertBy(key, x, s)) == WithKey(key, k, [x] + s)
  {
    assert ([x] + s)[1..] == s;
    if s == [] || key(x) <= key(s[0]) {
    } else {
      InsertByIsStable(key, x, s[1..], k);
      assert ([x] + s[1..])[1..] == s[1..];
    }
  }

  /** Sorting orders the keys, loses and adds nothing, and keeps equal keys in input order. */
  lemma {:induction false} SortByIsStableSort<T>(key: Key<T>, s: seq<T>)
    ensures SortedBy(key, SortBy(key, s))
    ensures forall k :: WithKey(key, k, SortBy(key, s)) == WithKey(key, k, s)
  {
    if s == [] {
    } else {
      SortByIsStableSort(key, s[1..]);
      InsertBySorts(key, s[0], SortBy(key, s[1..]));
      forall k ensures WithKey(key, k, SortBy(key, s)) == WithKey(key, k, s) {
        InsertByIsStable(key, s[0], SortBy(key, s[1..]), k);
        assert ([s[0]] + SortBy(key, s[1..]))[1..] == SortBy(key, s[1..]);
      }
    }
  }

  predicate DistinctKeys<T>(key: Key<T>, s: seq<T>) {
    forall i, j :: 0 <= i < j < |s| ==> key(s[i]) != key(s[j])
  }

  /** With distinct keys the order is strict. */
  lemma {:induction false} SortByIsStrict<T>(key: Key<T>, s: seq<T>)
    requires DistinctKeys(key, s)
    ensures StrictlySortedBy(key, SortBy(key, s))
  {
    if s == [] {
    } else {
      var rest := SortBy(key, s[1..]);
      SortByIsStrict(key, s[1..]);
      forall j | 0 <= j < |rest| ensures key(rest[j]) != key(s[0]) {
        SortByHas(key, s[1..], rest[j]);
      }
      InsertByIsStrict(key, s[0], rest);
    }
  }

  lemma {:induction false} InsertByIsStrict<T>(key: Key<T>, x: T, s: seq<T>)
    requires StrictlySortedBy(key, s) && forall j :: 0 <= j < |s| ==> key(s[j]) != key(x)
    ensures StrictlySortedBy(key, InsertBy(key, x, s))
  {
    if s == [] || key(x) <= key(s[0]) {
    } else {
      var rest := InsertBy(key, x, s[1..]);
      InsertByIsStrict(key, x, s[1..]);
      forall j | 0 <= j < |rest| ensures key(s[0]) < key(rest[j]) {
        InsertByHas(key, x, s[1..], rest[j]);
      }
    }
  }

  lemma {:induction false} SortedStays<T>(key: Key<T>, s: seq<T>)
    requires SortedBy(key, s)
    ensures SortBy(key, s) == s
  {
    if s == [] {
    } else {
      SortedStays(key, s[1..]);
      assert s == [s[0]] + s[1..];
    }
  }

  /** Strictly sorted lists with the same elements are the same list. */
  lemma {:induction false} StrictlySortedIsUnique<T>(key: Key<T>, a: seq<T>, b: seq<T>)
    requires StrictlySortedBy(key, a) && StrictlySortedBy(key, b)
    requires forall x :: x in a <==> x in b
    ensures a == b
  {
    if a != [] {
      assert a[0] in b;
    }
    if b != [] {
      assert b[0] in a;
      var i :| 0 <= i < |b| && b[i] == a[0];
      var j :| 0 <= j < |a| && a[j] == b[0];
      assert i == 0 && j == 0;
      forall x ensures x in a[1..] <==> x in b[1..] {
        assert x in a[1..] <==> x in a && x != a[0];
        assert x in b[1..] <==> x in b && x != b[0];
      }
      StrictlySortedIsUnique(key, a[1..], b[1..]);
    }
  }

  // ---------------------------------------------------------------------------
  // Removing repeats
  // ---------------------------------------------------------------------------

  /** Keep the first of each run of equal keys. */
  function DedupBy<T>(key: Key<T>, s: seq<T>): seq<T>
    decreases |s|
  {
    if |s| <= 1 then s
    else if key(s[0]) == key(s[1]) then DedupBy(key, [s[0]] + s[2..])
    else [s[0]] + DedupBy(key, s[1..])
  }

  function FirstOf<T>(s: seq<T>): seq<T> {
    if s == [] then [] else [s[0]]
  }

  lemma {:induction false} NoneWithKey<T>(key: Key<T>, k: int, s: seq<T>)
    requires forall x :: x in s ==> key(x) != k
    ensures WithKey(key, k, s) == []
  {
    if s == [] {
    } else {
      NoneWithKey(key, k, s[1..]);
    }
  }

  /** For every key exactly its first holder is kept. */
  lemma {:induction false} DedupKeepsFirst<T>(key: Key<T>, s: seq<T>, k: int)
    requires SortedBy(key, s)
    ensures WithKey(key, k, DedupBy(key, s)) == FirstOf(WithKey(key, k, s))
    decreases |s|
  {
    if |s| <= 1 {
    } else {
      if key(s[0]) == key(s[1]) {
        var t := [s[0]] + s[2..];
        assert t[1..] == s[2..] && s[1..][1..] == s[2..];
        DedupKeepsFirst(key, t, k);
      } else {
        var rest := DedupBy(key, s[1..]);
        DedupKeepsFirst(key, s[1..], k);
        assert ([s[0]] + rest)[1..] == rest;
        if k == key(s[0]) {
          NoneWithKey(key, k, s[1..]);
        }
      }
    }
  }

  lemma {:induction false} DedupIsStrict<T>(key: Key<T>, s: seq<T>)
    requires SortedBy(key, s)
    ensures StrictlySortedBy(key, DedupBy(key, s))
    ensures forall x :: x in DedupBy(key, s) ==> x in s
    decreases |s|
  {
    if |s| <= 1 {
    } else {
      if key(s[0]) == key(s[1]) {
        var t := [s[0]] + s[2..];
        DedupIsStrict(key, t);
        assert forall x :: x in t ==> x in s;
      } else {
        var rest := DedupBy(key, s[1..]);
        DedupIsStrict(key, s[1..]);
        forall j | 0 <= j < |rest| ensures key(s[0]) < key(rest[j]) {
          assert rest[j] in s[1..];
        }
      }
    }
  }

  // ---------------------------------------------------------------------------
  // Listing a set in order
  // ---------------------------------------------------------------------------

  lemma SomeMember<T>(s: set<T>) returns (y: T)
    requires s != {}
    ensures y in s
  {
    y :| y in s;
  }

  lemma {:induction false} LeastExists(s: set<int>)
    requires s != {}
    ensures exists m :: m in s && forall x :: x in s ==> m <= x
  {
    var y := SomeMember(s);
    var rest := s - {y};
    if rest != {} {
      LeastExists(rest);
      var m :| m in rest && forall x :: x in rest ==> m <= x;
      var least := if y < m then y else m;
      forall x | x in s ensures least <= x {
        assert x == y || x in rest;
      }
      assert least in s;
    } else {
      forall x | x in s ensures y <= x {
        assert x == y || x in rest;
      }
    }
  }

  ghost function Least(s: set<int>): (m: int)
    requires s != {}
    ensures m in s && forall x :: x in s ==> m <= x
  {
    LeastExists(s);
    var m :| m in s && forall x :: x in s ==> m <= x;
    m
  }

  ghost function InOrder(s: set<int>): (r: seq<int>)
    ensures forall x :: x in r <==> x in s
    ensures forall i, j :: 0 <= i < j < |r| ==> r[i] < r[j]
  {
    if s == {} then [] else [Least(s)] + InOrder(s - {Least(s)})
  }

  lemma HeadIsLeast(a: seq<int>, s: set<int>)
    requires a != [] && forall i, j :: 0 <= i < j < |a| ==> a[i] < a[j]
    requires forall x :: x in a <==> x in s
    ensures s != {} && Least(s) == a[0]
  {
    var first := a[0];
    assert first in a;
    assert first in s;
    var least := Least(s);
    assert least in a;
    var i :| 0 <= i < |a| && a[i] == least;
    assert least <= first;
  }

  lemma InOrderStep(s: set<int>)
    requires s != {}
    ensures InOrder(s) == [Least(s)] + InOrder(s - {Least(s)})
  {
  }

  lemma InTail(a: seq<int>, x: int)
    requires a != [] && forall i, j :: 0 <= i < j < |a| ==> a[i] < a[j]
    ensures x in a[1..] <==> x in a && x != a[0]
  {
    if x in a && x != a[0] {
      var i :| 0 <= i < |a| && a[i] == x;
      assert a[1..][i - 1] == x;
    }
  }

  /** A strictly increasing list is the ordered listing of its elements. */
  lemma {:induction false} InOrderIsUnique(a: seq<int>, s: set<int>)
    requires forall i, j :: 0 <= i < j < |a| ==> a[i] < a[j]
    requires forall x :: x in a <==> x in s
    ensures a == InOrder(s)
  {
    if a == [] {
      if s != {} {
        var y := SomeMember(s);
        assert false;
      }
    } else {
      HeadIsLeast(a, s);
      forall x ensures x in a[1..] <==> x in s - {a[0]} {
        InTail(a, x);
      }
      InOrderIsUnique(a[1..], s - {a[0]});
      InOrderStep(s);
      assert a == [a[0]] + a[1..];
    }
  }
}
