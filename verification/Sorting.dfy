/**
 Stable sorting by a pair of numbers compared lexicographically, as the standard
 library's `sort_by` and `sort_unstable` order the lists of this program, and the
 two facts that make a sorted list a canonical form: sorting permutes, and lists
 with the same elements and pairwise distinct keys sort to the same list.
 */
module Sorting {

  datatype Key = Key(major: nat, minor: nat) {
    predicate AtMost(other: Key) {
      major < other.major || (major == other.major && minor <= other.minor)
    }
  }

  predicate Sorted<T(!new)>(key: T -> Key, xs: seq<T>) {
    forall i, j :: 0 <= i < j < |xs| ==> key(xs[i]).AtMost(key(xs[j]))
  }

  ghost predicate DistinctKeys<T(!new)>(key: T -> Key, xs: seq<T>) {
    forall i, j :: 0 <= i < j < |xs| ==> key(xs[i]) != key(xs[j])
  }

  /** Puts `x` after every element whose key is at most its own, which keeps the sort stable. */
  function Insert<T>(key: T -> Key, x: T, xs: seq<T>): seq<T> {
    if xs == [] || key(xs[|xs| - 1]).AtMost(key(x)) then xs + [x]
    else Insert(key, x, xs[..|xs| - 1]) + [xs[|xs| - 1]]
  }

  function SortBy<T>(key: T -> Key, xs: seq<T>): seq<T> {
    if xs == [] then [] else Insert(key, xs[|xs| - 1], SortBy(key, xs[..|xs| - 1]))
  }

  lemma {:induction false} InsertPermutes<T>(key: T -> Key, x: T, xs: seq<T>)
    ensures multiset(Insert(key, x, xs)) == multiset(xs) + multiset{x}
  {
    if xs == [] || key(xs[|xs| - 1]).AtMost(key(x)) {
    } else {
      assert xs == xs[..|xs| - 1] + [xs[|xs| - 1]];
      InsertPermutes(key, x, xs[..|xs| - 1]);
    }
  }

  /** Sorting only permutes. */
  lemma {:induction false} SortPermutes<T>(key: T -> Key, xs: seq<T>)
    ensures multiset(SortBy(key, xs)) == multiset(xs)
    ensures |SortBy(key, xs)| == |xs|
  {
    if xs != [] {
      assert xs == xs[..|xs| - 1] + [xs[|xs| - 1]];
      SortPermutes(key, xs[..|xs| - 1]);
      InsertPermutes(key, xs[|xs| - 1], SortBy(key, xs[..|xs| - 1]));
    }
    assert |multiset(SortBy(key, xs))| == |SortBy(key, xs)| && |multiset(xs)| == |xs|;
  }

  lemma InMultiset<T>(xs: seq<T>, ys: seq<T>, x: T)
    requires multiset(xs) == multiset(ys)
    ensures x in xs <==> x in ys
  {
    assert x in xs <==> x in multiset(xs);
    assert x in ys <==> x in multiset(ys);
  }

  lemma {:induction false} InsertSorts<T(!new)>(key: T -> Key, x: T, xs: seq<T>)
    requires Sorted(key, xs)
    ensures Sorted(key, Insert(key, x, xs))
  {
    if xs == [] || key(xs[|xs| - 1]).AtMost(key(x)) {
    } else {
      var init, last := xs[..|xs| - 1], xs[|xs| - 1];
      InsertSorts(key, x, init);
      InsertPermutes(key, x, init);
      var r := Insert(key, x, init);
      forall i | 0 <= i < |r| ensures key(r[i]).AtMost(key(last)) {
        assert r[i] in multiset(r);
        assert r[i] in multiset(init) + multiset{x};
      }
    }
  }

  lemma {:induction false} SortSorts<T(!new)>(key: T -> Key, xs: seq<T>)
    ensures Sorted(key, SortBy(key, xs))
  {
    if xs != [] {
      SortSorts(key, xs[..|xs| - 1]);
      InsertSorts(key, xs[|xs| - 1], SortBy(key, xs[..|xs| - 1]));
    }
  }

  lemma {:induction false} SortedIsFixed<T(!new)>(key: T -> Key, xs: seq<T>)
    requires Sorted(key, xs)
    ensures SortBy(key, xs) == xs
  {
    if xs != [] {
      var init, last := xs[..|xs| - 1], xs[|xs| - 1];
      assert xs == init + [last];
      SortedIsFixed(key, init);
      assert init != [] ==> init[|init| - 1] == xs[|xs| - 2];
      assert Insert(key, last, init) == init + [last];
    }
  }

  /** A list of distinct keys holds an element once, so sharing a key means being equal. */
  lemma DistinctKeysIdentify<T(!new)>(key: T -> Key, xs: seq<T>, a: T, b: T)
    requires DistinctKeys(key, xs) && a in xs && b in xs && key(a) == key(b)
    ensures a == b
  {
    var i :| 0 <= i < |xs| && xs[i] == a;
    var j :| 0 <= j < |xs| && xs[j] == b;
    assert i == j;
  }

  /** Reordering keeps keys distinct. */
  lemma {:induction false} DistinctKeysPermute<T(!new)>(key: T -> Key, xs: seq<T>, ys: seq<T>)
    requires multiset(xs) == multiset(ys) && DistinctKeys(key, xs)
    ensures DistinctKeys(key, ys)
  {
    forall i, j | 0 <= i < j < |ys| ensures key(ys[i]) != key(ys[j]) {
      if key(ys[i]) == key(ys[j]) {
        InMultiset(xs, ys, ys[i]);
        InMultiset(xs, ys, ys[j]);
        DistinctKeysIdentify(key, xs, ys[i], ys[j]);
        TwiceInMultiset(ys, i, j);
        OnceInMultiset(key, xs, ys[i]);
      }
    }
  }

  lemma TwiceInMultiset<T>(ys: seq<T>, i: nat, j: nat)
    requires i < j < |ys| && ys[i] == ys[j]
    ensures multiset(ys)[ys[i]] >= 2
  {
    assert ys == ys[..j] + [ys[j]] + ys[j + 1..];
    assert ys[..j][i] == ys[i];
    assert ys[i] in multiset(ys[..j]);
  }

  lemma {:induction false} OnceInMultiset<T(!new)>(key: T -> Key, xs: seq<T>, x: T)
    requires DistinctKeys(key, xs)
    ensures multiset(xs)[x] <= 1
  {
    if xs != [] {
      var init, last := xs[..|xs| - 1], xs[|xs| - 1];
      assert xs == init + [last];
      OnceInMultiset(key, init, x);
      assert forall i :: 0 <= i < |init| ==> key(xs[i]) != key(xs[|xs| - 1]);
      assert x in multiset(init) <==> x in init;
    }
  }

  /** Two sorted lists of the same elements with distinct keys are equal. */
  lemma {:induction false} SortedUnique<T(!new)>(key: T -> Key, xs: seq<T>, ys: seq<T>)
    requires multiset(xs) == multiset(ys)
    requires Sorted(key, xs) && Sorted(key, ys) && DistinctKeys(key, xs)
    ensures xs == ys
  {
    if xs == [] {
      assert |multiset(ys)| == 0;
    } else {
      assert |multiset(xs)| == |xs| && |multiset(ys)| == |ys|;
      SameLast(key, xs, ys);
      DropLast(xs);
      DropLast(ys);
      SortedUnique(key, xs[..|xs| - 1], ys[..|ys| - 1]);
    }
  }

  lemma DropLast<T>(xs: seq<T>)
    requires xs != []
    ensures xs == xs[..|xs| - 1] + [xs[|xs| - 1]]
    ensures multiset(xs[..|xs| - 1]) == multiset(xs) - multiset{xs[|xs| - 1]}
  {
    assert xs == xs[..|xs| - 1] + [xs[|xs| - 1]];
  }

  lemma SameLast<T(!new)>(key: T -> Key, xs: seq<T>, ys: seq<T>)
    requires multiset(xs) == multiset(ys) && xs != [] && ys != []
    requires Sorted(key, xs) && Sorted(key, ys) && DistinctKeys(key, xs)
    ensures xs[|xs| - 1] == ys[|ys| - 1]
  {
    var x, y := xs[|xs| - 1], ys[|ys| - 1];
    InMultiset(xs, ys, x);
    InMultiset(xs, ys, y);
    var i :| 0 <= i < |ys| && ys[i] == x;
    var j :| 0 <= j < |xs| && xs[j] == y;
    assert key(x).AtMost(key(y)) && key(y).AtMost(key(x));
    DistinctKeysIdentify(key, xs, x, y);
  }

  /** Lists with the same elements and pairwise distinct keys have one sorted form. */
  lemma SortIgnoresOrder<T(!new)>(key: T -> Key, xs: seq<T>, ys: seq<T>)
    requires multiset(xs) == multiset(ys) && DistinctKeys(key, xs)
    ensures SortBy(key, xs) == SortBy(key, ys)
  {
    SortSorts(key, xs);
    SortSorts(key, ys);
    SortPermutes(key, xs);
    SortPermutes(key, ys);
    DistinctKeysPermute(key, xs, SortBy(key, xs));
    SortedUnique(key, SortBy(key, xs), SortBy(key, ys));
  }

  /** Where an element goes depends on its key only. */
  lemma {:induction false} InsertPosition<T(!new)>(key: T -> Key, x: T, xs: seq<T>) returns (k: nat)
    ensures k <= |xs|
    ensures forall y: T :: key(y) == key(x) ==> Insert(key, y, xs) == xs[..k] + [y] + xs[k..]
  {
    if xs == [] || key(xs[|xs| - 1]).AtMost(key(x)) {
      k := |xs|;
    } else {
      var init := xs[..|xs| - 1];
      k := InsertPosition(key, x, init);
      forall y: T | key(y) == key(x) ensures Insert(key, y, xs) == xs[..k] + [y] + xs[k..] {
        assert Insert(key, y, xs) == Insert(key, y, init) + [xs[|xs| - 1]];
        assert init[..k] == xs[..k] && init[k..] + [xs[|xs| - 1]] == xs[k..];
      }
    }
  }
}
