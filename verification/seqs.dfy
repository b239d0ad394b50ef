/** Sequence operations the modelled code takes from its standard library:
    `filter`, `first(where:)` / `firstIndex(of:)`, and an ascending sort by an
    integer key (`sorted(by:)`; Swift does not promise a stable sort, and the
    contracts here do not rely on one). */
module Seqs {
  import opened Wrappers

  /** `a` is `b` with some elements left out, the rest in the same order. */
  predicate Subseq<T(==)>(a: seq<T>, b: seq<T>)
    decreases |b|
  {
    |a| == 0 || (|b| > 0 && if a[0] == b[0] then Subseq(a[1..], b[1..]) else Subseq(a, b[1..]))
  }

  lemma {:induction false} SubseqRefl<T>(a: seq<T>)
    ensures Subseq(a, a)
    decreases |a|
  {
    if |a| > 0 {
      SubseqRefl(a[1..]);
    }
  }

  /** Dropping elements twice is dropping elements once. */
  lemma {:induction false} SubseqTrans<T>(a: seq<T>, b: seq<T>, c: seq<T>)
    requires Subseq(a, b) && Subseq(b, c)
    ensures Subseq(a, c)
    decreases |c|
  {
    if |a| > 0 {
      if a[0] == b[0] {
        if b[0] == c[0] {
          SubseqTrans(a[1..], b[1..], c[1..]);
        } else {
          SubseqTrans(a, b, c[1..]);
        }
      } else {
        if b[0] == c[0] {
          SubseqTrans(a, b[1..], c[1..]);
        } else {
          SubseqTrans(a, b, c[1..]);
          SubseqWeaken(a, c);
        }
      }
    }
  }

  /** A subsequence of the tail is a subsequence of the whole. */
  lemma {:induction false} SubseqWeaken<T>(a: seq<T>, c: seq<T>)
    requires |c| > 0 && Subseq(a, c[1..])
    ensures Subseq(a, c)
    decreases |c|, 0
  {
    if |a| > 0 && a[0] == c[0] {
      SubseqTail(a, c[1..]);
    }
  }

  /** Leaving out the first element keeps a subsequence. */
  lemma {:induction false} SubseqTail<T>(a: seq<T>, c: seq<T>)
    requires |a| > 0 && Subseq(a, c)
    ensures Subseq(a[1..], c)
    decreases |c|, 1
  {
    if a[0] == c[0] {
      SubseqWeaken(a[1..], c);
    } else {
      SubseqTail(a, c[1..]);
      SubseqWeaken(a[1..], c);
    }
  }

  /** What is left of a sequence without repeats has none. */
  lemma {:induction false} SubseqDistinct<T>(a: seq<T>, b: seq<T>)
    requires Subseq(a, b) && Distinct(b)
    ensures Distinct(a)
    decreases |b|
  {
    if |a| > 0 {
      assert Distinct(b[1..]) by {
        forall i, j | 0 <= i < j < |b[1..]| ensures b[1..][i] != b[1..][j] {
          assert b[1..][i] == b[i + 1] && b[1..][j] == b[j + 1];
        }
      }
      if a[0] == b[0] {
        SubseqDistinct(a[1..], b[1..]);
        SubseqIn(a[1..], b[1..]);
        assert b[0] !in b[1..] by {
          forall j | 0 <= j < |b[1..]| ensures b[1..][j] != b[0] {
            assert b[1..][j] == b[j + 1];
          }
        }
        forall i, j | 0 <= i < j < |a| ensures a[i] != a[j] {
          assert a[j] == a[1..][j - 1];
          if i > 0 {
            assert a[i] == a[1..][i - 1];
          }
        }
      } else {
        SubseqDistinct(a, b[1..]);
      }
    }
  }

  /** What is left of a sequence was in it. */
  lemma {:induction false} SubseqIn<T>(a: seq<T>, b: seq<T>)
    requires Subseq(a, b)
    ensures forall x :: x in a ==> x in b
    decreases |b|
  {
    if |a| > 0 {
      if a[0] == b[0] {
        SubseqIn(a[1..], b[1..]);
        assert a == [a[0]] + a[1..];
      } else {
        SubseqIn(a, b[1..]);
      }
    }
  }

  /** Concatenation regroups freely. */
  lemma ConcatAssoc<T>(a: seq<T>, b: seq<T>, c: seq<T>)
    ensures a + (b + c) == (a + b) + c
  {
  }

  /** Keeps the elements satisfying `p`, in their original order, each as
      often as it occurs. */
  function Filter<T(==)>(s: seq<T>, p: T -> bool): (r: seq<T>)
    ensures |r| <= |s|
    ensures forall i :: 0 <= i < |r| ==> p(r[i]) && r[i] in s
    ensures forall i :: 0 <= i < |s| && p(s[i]) ==> s[i] in r
    ensures forall x {:trigger multiset(r)[x]} :: x in s ==> multiset(r)[x] == if p(x) then multiset(s)[x] else 0
    decreases |s|
  {
    if |s| == 0 then []
    else
      var rest := Filter(s[1..], p);
      assert forall i :: 1 <= i < |s| ==> s[i] == s[1..][i - 1];
      assert s == [s[0]] + s[1..];
      if p(s[0]) then [s[0]] + rest else rest
  }

  /** Filtering one element keeps it exactly when it satisfies `p`. */
  lemma FilterOne<T>(x: T, p: T -> bool)
    ensures Filter([x], p) == if p(x) then [x] else []
  {
    assert [x][1..] == [];
  }

  /** Filtering only drops elements: the order and the counts of what is
      kept are those of the input. */
  lemma {:induction false} FilterSubseq<T>(s: seq<T>, p: T -> bool)
    ensures Subseq(Filter(s, p), s)
    ensures multiset(Filter(s, p)) <= multiset(s)
    ensures forall x :: x in s && p(x) ==> multiset(Filter(s, p))[x] == multiset(s)[x]
    decreases |s|
  {
    if |s| > 0 {
      FilterSubseq(s[1..], p);
      assert s == [s[0]] + s[1..];
      var rest := Filter(s[1..], p);
      if p(s[0]) {
        assert ([s[0]] + rest)[1..] == rest;
      } else if |rest| > 0 {
        assert Subseq(rest, s[1..]);
      }
    }
  }

  /** Filtering with a predicate every element meets keeps the sequence whole. */
  lemma {:induction false} FilterAll<T>(s: seq<T>, p: T -> bool)
    requires forall i :: 0 <= i < |s| ==> p(s[i])
    ensures Filter(s, p) == s
    decreases |s|
  {
    if |s| > 0 {
      FilterAll(s[1..], p);
    }
  }

  /** Filtering with a predicate nothing satisfies leaves nothing. */
  lemma {:induction false} FilterNone<T>(s: seq<T>, p: T -> bool)
    requires forall i :: 0 <= i < |s| ==> !p(s[i])
    ensures Filter(s, p) == []
    decreases |s|
  {
    if |s| > 0 {
      FilterNone(s[1..], p);
    }
  }

  /** Filtering distributes over concatenation. */
  lemma {:induction false} FilterConcat<T>(a: seq<T>, b: seq<T>, p: T -> bool)
    ensures Filter(a + b, p) == Filter(a, p) + Filter(b, p)
    decreases |a|
  {
    if |a| > 0 {
      assert (a + b)[1..] == a[1..] + b;
      FilterConcat(a[1..], b, p);
    } else {
      assert a + b == b;
    }
  }

  /** Index of the first element satisfying `p` (`firstIndex(where:)`). */
  function FindIndex<T>(s: seq<T>, p: T -> bool): (r: Option<nat>)
    ensures r.Some? ==> r.value < |s| && p(s[r.value]) && forall j :: 0 <= j < r.value ==> !p(s[j])
    ensures r.None? ==> forall j :: 0 <= j < |s| ==> !p(s[j])
    decreases |s|
  {
    if |s| == 0 then None
    else if p(s[0]) then Some(0)
    else match FindIndex(s[1..], p)
      case Some(i) => Some(i + 1)
      case None => None
  }

  /** The first element satisfying `p` (`first(where:)`). */
  function First<T>(s: seq<T>, p: T -> bool): (r: Option<T>)
    ensures r.Some? <==> exists i :: 0 <= i < |s| && p(s[i])
    ensures r.Some? ==> p(r.value)
    ensures r.Some? ==> exists i :: 0 <= i < |s| && s[i] == r.value && (forall j :: 0 <= j < i ==> !p(s[j]))
  {
    match FindIndex(s, p)
    case Some(i) => Some(s[i])
    case None => None
  }

  predicate SortedBy<T>(s: seq<T>, key: T -> int) {
    forall i, j :: 0 <= i < j < |s| ==> key(s[i]) <= key(s[j])
  }

  /** A sorted sequence stays sorted under a head whose key is not larger
      than the first key. */
  lemma SortedCons<T>(h: T, t: seq<T>, key: T -> int)
    requires SortedBy(t, key) && (|t| > 0 ==> key(h) <= key(t[0]))
    ensures SortedBy([h] + t, key)
  {
    var r := [h] + t;
    forall i, j | 0 <= i < j < |r| ensures key(r[i]) <= key(r[j]) {
      if i > 0 {
        assert r[i] == t[i - 1] && r[j] == t[j - 1];
      } else {
        assert r[j] == t[j - 1];
      }
    }
  }

  /** Inserts `x` before the first element whose key is not smaller. */
  function InsertBy<T(==)>(x: T, s: seq<T>, key: T -> int): (r: seq<T>)
    requires SortedBy(s, key)
    ensures SortedBy(r, key)
    ensures multiset(r) == multiset(s) + multiset{x}
    ensures |r| == |s| + 1
    ensures r[0] == x || (|s| > 0 && r[0] == s[0])
    decreases |s|
  {
    if |s| == 0 then [x]
    else if key(x) <= key(s[0]) then
      SortedCons(x, s, key);
      [x] + s
    else
      var rest := InsertBy(x, s[1..], key);
      assert s == [s[0]] + s[1..];
      assert key(s[0]) <= key(rest[0]);
      SortedCons(s[0], rest, key);
      [s[0]] + rest
  }

  /** Stable insertion sort, ascending by `key`: a permutation of `s` in
      which keys never decrease. */
  function SortBy<T(==)>(s: seq<T>, key: T -> int): (r: seq<T>)
    ensures SortedBy(r, key)
    ensures multiset(r) == multiset(s)
    ensures |r| == |s|
    decreases |s|
  {
    if |s| == 0 then []
    else
      assert s == [s[0]] + s[1..];
      InsertBy(s[0], SortBy(s[1..], key), key)
  }

  /** No value occurs twice. */
  predicate Distinct<T(==)>(s: seq<T>) {
    forall i, j :: 0 <= i < j < |s| ==> s[i] != s[j]
  }

  /** Distinctness depends only on the multiset of elements, so it survives sorting. */
  lemma {:induction false} DistinctIffSingletons<T>(s: seq<T>)
    ensures Distinct(s) <==> forall x :: multiset(s)[x] <= 1
    decreases |s|
  {
    if |s| > 0 {
      var t := s[1..];
      assert s == [s[0]] + t;
      DistinctIffSingletons(t);
      if Distinct(s) {
        assert Distinct(t) by {
          forall i, j | 0 <= i < j < |t| ensures t[i] != t[j] {
            assert t[i] == s[i + 1] && t[j] == s[j + 1];
          }
        }
        assert s[0] !in t by {
          forall j | 0 <= j < |t| ensures t[j] != s[0] {
            assert t[j] == s[j + 1];
          }
        }
      }
      if forall x :: multiset(s)[x] <= 1 {
        assert forall x :: multiset(t)[x] <= multiset(s)[x];
        assert multiset(t)[s[0]] == 0;
        forall i, j | 0 <= i < j < |s| ensures s[i] != s[j] {
          if i == 0 {
            assert s[j] == t[j - 1];
            assert s[j] in t;
          } else {
            assert s[i] == t[i - 1] && s[j] == t[j - 1];
          }
        }
      }
    }
  }

  /** A finite set of integers has a least element. */
  lemma {:induction false} SetHasMin(s: set<int>)
    requires s != {}
    ensures exists m :: m in s && forall x :: x in s ==> m <= x
    decreases |s|
  {
    if forall y :: y !in s {
      assert false;
    }
    var x :| x in s;
    var rest := s - {x};
    if rest == {} {
      assert s == {x};
    } else {
      SetHasMin(rest);
      var m :| m in rest && forall y :: y in rest ==> m <= y;
      var least := if x < m then x else m;
      forall y | y in s ensures least <= y {
        if y != x {
          assert y in rest;
        }
      }
      assert least in s;
    }
  }

  /** The least element of a non-empty set. */
  function MinOf(s: set<int>): (m: int)
    requires s != {}
    ensures m in s && forall x :: x in s ==> m <= x
  {
    SetHasMin(s);
    var m :| m in s && forall x :: x in s ==> m <= x;
    m
  }

  /** The elements of a set in ascending order (`sorted()` on a `Set<Int>`). */
  function SortedSet(s: set<int>): seq<int>
    decreases |s|
  {
    if s == {} then [] else [MinOf(s)] + SortedSet(s - {MinOf(s)})
  }

  /** The sorted view holds each element of the set once, ascending. */
  lemma {:induction false} SortedSetSpec(s: set<int>)
    ensures |SortedSet(s)| == |s|
    ensures forall x :: x in s <==> x in SortedSet(s)
    ensures forall i, j :: 0 <= i < j < |SortedSet(s)| ==> SortedSet(s)[i] < SortedSet(s)[j]
    decreases |s|
  {
    if s != {} {
      var m := MinOf(s);
      var rest := SortedSet(s - {m});
      SortedSetSpec(s - {m});
      var r := SortedSet(s);
      assert r == [m] + rest;
      assert forall i :: 0 <= i < |rest| ==> m < rest[i] by {
        forall i | 0 <= i < |rest| ensures m < rest[i] {
          assert rest[i] in s - {m};
        }
      }
      forall x ensures x in s <==> x in r {
        if x in r && x != m {
          assert x in rest;
        }
      }
      forall i, j | 0 <= i < j < |r| ensures r[i] < r[j] {
        assert r[j] == rest[j - 1];
        if i > 0 {
          assert r[i] == rest[i - 1];
        }
      }
    }
  }
}
