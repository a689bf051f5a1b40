/** Sequence helpers shared by the store, the queries and the report engine:
    `Array.prototype.filter`, `Array.prototype.findIndex` and flattening. */
module Seqs {
  import opened Wrappers

  /** `s.filter(p)`: the elements satisfying `p`, in order. */
  function Filter<T(!new)>(p: T -> bool, s: seq<T>): (r: seq<T>)
    ensures |r| <= |s|
    ensures forall k :: 0 <= k < |r| ==> p(r[k])
  {
    if s == [] then [] else (if p(s[0]) then [s[0]] else []) + Filter(p, s[1..])
  }

  /** The filter keeps exactly the elements satisfying `p`, with their multiplicities. */
  lemma {:induction false} FilterMultiset<T(!new)>(p: T -> bool, s: seq<T>)
    ensures forall x :: x in Filter(p, s) <==> x in s && p(x)
    ensures forall x :: multiset(Filter(p, s))[x] == if p(x) then multiset(s)[x] else 0
    decreases |s|
  {
    if s != [] {
      FilterMultiset(p, s[1..]);
      assert s == [s[0]] + s[1..];
    }
  }

  lemma {:induction false} FilterAppend<T(!new)>(p: T -> bool, a: seq<T>, b: seq<T>)
    ensures Filter(p, a + b) == Filter(p, a) + Filter(p, b)
    decreases |a|
  {
    if a == [] {
      assert a + b == b;
    } else {
      assert (a + b)[1..] == a[1..] + b;
      FilterAppend(p, a[1..], b);
    }
  }

  /** `r` is obtained from `s` by deleting elements, the rest keeping their order. */
  predicate IsSubsequence<T(==)>(r: seq<T>, s: seq<T>)
    decreases |s|
  {
    if r == [] then true
    else if s == [] then false
    else (r[0] == s[0] && IsSubsequence(r[1..], s[1..])) || IsSubsequence(r, s[1..])
  }

  lemma {:induction false} FilterIsSubsequence<T(!new)>(p: T -> bool, s: seq<T>)
    ensures IsSubsequence(Filter(p, s), s)
    decreases |s|
  {
    if s != [] {
      FilterIsSubsequence(p, s[1..]);
      var r := Filter(p, s);
      if p(s[0]) {
        assert r[0] == s[0] && r[1..] == Filter(p, s[1..]);
      } else {
        assert r == Filter(p, s[1..]);
      }
    }
  }

  /** A filter that rejects nothing gives back its input. */
  lemma {:induction false} FilterKeepsAll<T(!new)>(p: T -> bool, s: seq<T>)
    requires forall x :: x in s ==> p(x)
    ensures Filter(p, s) == s
    decreases |s|
  {
    if s != [] {
      FilterKeepsAll(p, s[1..]);
    }
  }

  /** Filters with predicates that agree on the elements of `s` give the same result. */
  lemma {:induction false} FilterCongruent<T(!new)>(p: T -> bool, q: T -> bool, s: seq<T>)
    requires forall x :: x in s ==> p(x) == q(x)
    ensures Filter(p, s) == Filter(q, s)
    decreases |s|
  {
    if s != [] {
      FilterCongruent(p, q, s[1..]);
    }
  }

  /** `s.findIndex(p)`, with `None` for -1. */
  function FindIndex<T>(p: T -> bool, s: seq<T>): (r: Option<nat>)
    ensures r.Some? ==> r.value < |s| && p(s[r.value])
    ensures r.Some? ==> forall j :: 0 <= j < r.value ==> !p(s[j])
    ensures r.None? <==> forall x :: x in s ==> !p(x)
  {
    if s == [] then None
    else if p(s[0]) then Some(0)
    else match FindIndex(p, s[1..])
      case None => None
      case Some(i) => Some(i + 1)
  }


  /** No two elements of `s` share a key. */
  ghost predicate DistinctBy<T>(key: T -> int, s: seq<T>) {
    forall i, j :: 0 <= i < j < |s| ==> key(s[i]) != key(s[j])
  }

  lemma {:induction false} SubsequenceMembers<T>(r: seq<T>, s: seq<T>)
    requires IsSubsequence(r, s)
    ensures forall x :: x in r ==> x in s
    decreases |s|
  {
    if r != [] {
      if r[0] == s[0] && IsSubsequence(r[1..], s[1..]) {
        SubsequenceMembers(r[1..], s[1..]);
        assert r == [r[0]] + r[1..];
      } else {
        SubsequenceMembers(r, s[1..]);
      }
    }
  }

  /** Deleting elements cannot make two keys collide. */
  lemma {:induction false} SubsequenceDistinctBy<T>(key: T -> int, r: seq<T>, s: seq<T>)
    requires IsSubsequence(r, s) && DistinctBy(key, s)
    ensures DistinctBy(key, r)
    decreases |s|
  {
    if r != [] {
      assert DistinctBy(key, s[1..]) by {
        forall i, j | 0 <= i < j < |s| - 1 ensures key(s[1..][i]) != key(s[1..][j]) {
          assert s[1..][i] == s[i + 1] && s[1..][j] == s[j + 1];
        }
      }
      if r[0] == s[0] && IsSubsequence(r[1..], s[1..]) {
        SubsequenceDistinctBy(key, r[1..], s[1..]);
        SubsequenceMembers(r[1..], s[1..]);
        forall i, j | 0 <= i < j < |r| ensures key(r[i]) != key(r[j]) {
          if i == 0 {
            assert r[j] == r[1..][j - 1];
            assert r[j] in r[1..];
            assert r[j] in s[1..];
            var k :| 0 <= k < |s| - 1 && s[1..][k] == r[j];
            assert s[k + 1] == r[j];
          } else {
            assert r[i] == r[1..][i - 1] && r[j] == r[1..][j - 1];
          }
        }
      } else {
        SubsequenceDistinctBy(key, r, s[1..]);
      }
    }
  }

  lemma DistinctByAppend<T>(key: T -> int, s: seq<T>, y: T)
    requires DistinctBy(key, s)
    requires forall x :: x in s ==> key(x) != key(y)
    ensures DistinctBy(key, s + [y])
  {
    var r := s + [y];
    forall i, j | 0 <= i < j < |r| ensures key(r[i]) != key(r[j]) {
      if j == |s| {
        assert r[i] in s;
      } else {
        assert r[i] == s[i] && r[j] == s[j];
      }
    }
  }

  /** Regrouping a concatenation, stated once so that callers need not rely on
      sequence extensionality. */
  lemma AppendAssoc<T>(a: seq<T>, b: seq<T>, c: seq<T>)
    ensures (a + b) + c == a + (b + c)
  {
  }

  /** Moving the head of `s` onto the end of `a` leaves the concatenation unchanged. */
  lemma AppendHead<T>(a: seq<T>, s: seq<T>)
    requires s != []
    ensures (a + [s[0]]) + s[1..] == a + s
  {
    assert [s[0]] + s[1..] == s;
  }
}
