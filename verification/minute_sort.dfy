/** `notes.sort((a, b) => a.minute - b.minute)`.  Since ECMAScript 2019
    `Array.prototype.sort` is stable; it is modelled as insertion sort, and
    `StableSortIsUnique` shows that every stable sort by the same key returns the
    same sequence, so the choice of algorithm does not matter. */
module MinuteSort {
  import Seqs

  predicate SortedBy<T>(key: T -> int, s: seq<T>) {
    forall i, j :: 0 <= i < j < |s| ==> key(s[i]) <= key(s[j])
  }

  /** The elements of `s` whose key is `k`, in their order in `s`. */
  function WithKey<T(!new)>(key: T -> int, s: seq<T>, k: int): seq<T> {
    Seqs.Filter((x: T) => key(x) == k, s)
  }

  /** Inserts `x` after every element whose key is not above its own. */
  function Insert<T(!new)>(key: T -> int, s: seq<T>, x: T): (r: seq<T>)
    requires SortedBy(key, s)
    ensures SortedBy(key, r)
    ensures multiset(r) == multiset(s) + multiset{x}
    ensures |r| == |s| + 1
    decreases |s|
  {
    if s == [] || key(s[|s| - 1]) <= key(x) then s + [x]
    else
      var init, y := s[..|s| - 1], s[|s| - 1];
      var rest := Insert(key, init, x);
      InsertBelow(key, init, x, rest, y);
      assert s == init + [y];
      rest + [y]
  }

  lemma InsertBelow<T>(key: T -> int, init: seq<T>, x: T, rest: seq<T>, y: T)
    requires SortedBy(key, init + [y]) && SortedBy(key, rest)
    requires multiset(rest) == multiset(init) + multiset{x}
    requires key(x) < key(y)
    ensures SortedBy(key, rest + [y])
  {
    var r := rest + [y];
    forall i, j | 0 <= i < j < |r| ensures key(r[i]) <= key(r[j]) {
      if j == |rest| {
        assert r[i] in multiset(rest);
        assert r[j] == y == (init + [y])[|init|];
        if r[i] != x {
          assert r[i] in multiset(init);
          var k :| 0 <= k < |init| && init[k] == r[i];
          assert (init + [y])[k] == r[i];
        }
      } else {
        assert r[i] == rest[i] && r[j] == rest[j];
      }
    }
  }

  /** Sorts by ascending key; equal keys keep their relative order. */
  function SortBy<T(!new)>(key: T -> int, s: seq<T>): (r: seq<T>)
    ensures SortedBy(key, r)
    ensures multiset(r) == multiset(s)
    ensures |r| == |s|
    decreases |s|
  {
    if s == [] then []
    else
      assert s == s[..|s| - 1] + [s[|s| - 1]];
      Insert(key, SortBy(key, s[..|s| - 1]), s[|s| - 1])
  }

  lemma {:induction false} InsertIsStable<T(!new)>(key: T -> int, s: seq<T>, x: T, k: int)
    requires SortedBy(key, s)
    ensures WithKey(key, Insert(key, s, x), k) == WithKey(key, s, k) + WithKey(key, [x], k)
    decreases |s|
  {
    var p := (z: T) => key(z) == k;
    if s == [] || key(s[|s| - 1]) <= key(x) {
      Seqs.FilterAppend(p, s, [x]);
    } else {
      var init, y := s[..|s| - 1], s[|s| - 1];
      InsertIsStable(key, init, x, k);
      Seqs.FilterAppend(p, Insert(key, init, x), [y]);
      Seqs.FilterAppend(p, init, [y]);
      assert s == init + [y];
    }
  }

  /** Stability: for every minute value, the notes with that minute come out in
      the order they went in. */
  lemma {:induction false} SortIsStable<T(!new)>(key: T -> int, s: seq<T>, k: int)
    ensures WithKey(key, SortBy(key, s), k) == WithKey(key, s, k)
    decreases |s|
  {
    if s != [] {
      var init, y := s[..|s| - 1], s[|s| - 1];
      SortIsStable(key, init, k);
      InsertIsStable(key, SortBy(key, init), y, k);
      Seqs.FilterAppend((z: T) => key(z) == k, init, [y]);
      assert s == init + [y];
    }
  }

  lemma WithKeyLast<T(!new)>(key: T -> int, s: seq<T>, k: int)
    requires s != []
    ensures WithKey(key, s, k)
         == WithKey(key, s[..|s| - 1], k) + (if key(s[|s| - 1]) == k then [s[|s| - 1]] else [])
  {
    Seqs.FilterAppend((z: T) => key(z) == k, s[..|s| - 1], [s[|s| - 1]]);
    assert s == s[..|s| - 1] + [s[|s| - 1]];
  }

  lemma WithKeyMembers<T(!new)>(key: T -> int, s: seq<T>, k: int)
    ensures forall x :: x in WithKey(key, s, k) <==> x in s && key(x) == k
  {
    Seqs.FilterMultiset((z: T) => key(z) == k, s);
  }

  /** The last elements of two key-sorted sequences with the same per-key contents
      have the same key: it is the largest key present in either. */
  lemma LastKeysAgree<T(!new)>(key: T -> int, a: seq<T>, b: seq<T>)
    requires a != [] && b != []
    requires SortedBy(key, a) && SortedBy(key, b)
    requires forall k :: WithKey(key, a, k) == WithKey(key, b, k)
    ensures key(a[|a| - 1]) == key(b[|b| - 1])
  {
    var la, lb := a[|a| - 1], b[|b| - 1];
    WithKeyMembers(key, a, key(la));
    WithKeyMembers(key, b, key(la));
    WithKeyMembers(key, a, key(lb));
    WithKeyMembers(key, b, key(lb));
    assert la in WithKey(key, b, key(la));
    assert key(la) <= key(lb) by {
      var i :| 0 <= i < |b| && b[i] == la;
    }
    assert lb in WithKey(key, a, key(lb));
    assert key(lb) <= key(la) by {
      var i :| 0 <= i < |a| && a[i] == lb;
    }
  }

  /** Dropping the last elements, once they are known to be equal, keeps the
      per-key contents equal. */
  lemma DropLastKeepsWithKey<T(!new)>(key: T -> int, a: seq<T>, b: seq<T>, k: int)
    requires a != [] && b != [] && a[|a| - 1] == b[|b| - 1]
    requires WithKey(key, a, k) == WithKey(key, b, k)
    ensures WithKey(key, a[..|a| - 1], k) == WithKey(key, b[..|b| - 1], k)
  {
    WithKeyLast(key, a, k);
    WithKeyLast(key, b, k);
    var wa, wb := WithKey(key, a[..|a| - 1], k), WithKey(key, b[..|b| - 1], k);
    if key(a[|a| - 1]) == k {
      assert wa == (wa + [a[|a| - 1]])[..|wa|];
      assert wb == (wb + [b[|b| - 1]])[..|wb|];
    } else {
      assert wa + [] == wa && wb + [] == wb;
    }
  }

  /** Two sequences sorted by key with the same elements per key, in the same order
      per key, are equal: a stable sort has exactly one possible result. */
  lemma {:induction false} StableSortIsUnique<T(!new)>(key: T -> int, a: seq<T>, b: seq<T>)
    requires SortedBy(key, a) && SortedBy(key, b)
    requires forall k :: WithKey(key, a, k) == WithKey(key, b, k)
    ensures a == b
    decreases |a|
  {
    if a == [] || b == [] {
      if a != [] {
        WithKeyMembers(key, a, key(a[0]));
      } else if b != [] {
        WithKeyMembers(key, b, key(b[0]));
      }
    } else {
      LastKeysAgree(key, a, b);
      var la, lb := a[|a| - 1], b[|b| - 1];
      var m := key(la);
      WithKeyLast(key, a, m);
      WithKeyLast(key, b, m);
      assert la == lb by {
        assert WithKey(key, a, m)[|WithKey(key, a, m)| - 1] == la;
        assert WithKey(key, b, m)[|WithKey(key, b, m)| - 1] == lb;
      }
      var a', b' := a[..|a| - 1], b[..|b| - 1];
      forall k ensures WithKey(key, a', k) == WithKey(key, b', k) {
        DropLastKeepsWithKey(key, a, b, k);
      }
      assert SortedBy(key, a') && SortedBy(key, b');
      StableSortIsUnique(key, a', b');
      assert a == a' + [la];
      assert b == b' + [lb];
    }
  }

  /** Any sequence that is sorted by key and keeps the per-key order of `s` is the
      result of `SortBy`. */
  lemma AnyStableSortAgrees<T(!new)>(key: T -> int, s: seq<T>, r: seq<T>)
    requires SortedBy(key, r)
    requires forall k :: WithKey(key, r, k) == WithKey(key, s, k)
    ensures r == SortBy(key, s)
  {
    forall k ensures WithKey(key, r, k) == WithKey(key, SortBy(key, s), k) {
      SortIsStable(key, s, k);
    }
    StableSortIsUnique(key, r, SortBy(key, s));
  }
}
