/** `RecentHymnsManager`: the most-recently-used list of hymn numbers, newest
    first, at most `maxRecentHymns` long and saved under "recentHymns". */
module Recents {
  import opened Wrappers
  import opened Seqs
  import opened Defaults

  const RecentHymnsKey: string := "recentHymns"

  /** The manager's list, its size limit (a user setting, 10 by default) and
      the defaults it saves to. */
  datatype Manager = Manager(recent: seq<int>, maxRecent: int, store: Store)

  /** `prefix(k)`: the first `k` elements, or all of them. */
  function Prefix(s: seq<int>, k: nat): (r: seq<int>)
    ensures |r| == if k < |s| then k else |s|
    ensures forall i :: 0 <= i < |r| ==> r[i] == s[i]
  {
    if k < |s| then s[..k] else s
  }

  /** `loadRecentHymns`: the saved list cut to the limit; without a saved
      list the current one stays. `prefix` traps on a negative limit. */
  function LoadRecent(m: Manager): (r: Manager)
    requires m.maxRecent >= 0
    ensures r.store == m.store && r.maxRecent == m.maxRecent
    ensures IntArrayAt(m.store, RecentHymnsKey).None? ==> r.recent == m.recent
    ensures IntArrayAt(m.store, RecentHymnsKey).Some? ==>
              |r.recent| <= m.maxRecent && r.recent == Prefix(IntArrayAt(m.store, RecentHymnsKey).value, m.maxRecent)
  {
    match IntArrayAt(m.store, RecentHymnsKey)
    case Some(saved) => m.(recent := Prefix(saved, m.maxRecent))
    case None => m
  }

  predicate IsNot(n: int, x: int) {
    x != n
  }

  /** The list `addRecentHymn` computes: every earlier `n` removed, `n` put
      first, and the result cut to the limit. Entry `i` of the old list, when
      it is not `n`, moves to position 1 + (the number of entries before it
      that are not `n`), and survives when that position is within the limit. */
  function AddTo(recent: seq<int>, n: int, max: nat): (r: seq<int>)
    ensures |r| <= max
    ensures |r| == if max <= 1 + |recent| - multiset(recent)[n] then max else 1 + |recent| - multiset(recent)[n]
    ensures max >= 1 ==> |r| >= 1 && r[0] == n
    ensures max >= 1 ==> multiset(r)[n] == 1
    ensures |r| > 0 ==> Subseq(r[1..], recent) && n !in r[1..]
    ensures forall i :: 0 <= i < |recent| && recent[i] != n && 1 + i - multiset(recent[..i])[n] < max ==>
              0 < 1 + i - multiset(recent[..i])[n] < |r| && r[1 + i - multiset(recent[..i])[n]] == recent[i]
  {
    MovedFirst(recent, n, max);
    Prefix([n] + Filter(recent, x => IsNot(n, x)), max)
  }

  lemma MovedFirst(recent: seq<int>, n: int, max: nat)
    ensures var r := Prefix([n] + Filter(recent, x => IsNot(n, x)), max);
            |r| > 0 ==> Subseq(r[1..], recent) && n !in r[1..] && multiset(r)[n] == 1
    ensures var r := Prefix([n] + Filter(recent, x => IsNot(n, x)), max);
            |r| == if max <= 1 + |recent| - multiset(recent)[n] then max else 1 + |recent| - multiset(recent)[n]
    ensures var r := Prefix([n] + Filter(recent, x => IsNot(n, x)), max);
            forall i :: 0 <= i < |recent| && recent[i] != n && 1 + i - multiset(recent[..i])[n] < max ==>
              0 < 1 + i - multiset(recent[..i])[n] < |r| && r[1 + i - multiset(recent[..i])[n]] == recent[i]
  {
    MovedFirstOrder(recent, n, max);
    OthersCount(recent, n);
    MovedFirstPlaces(recent, n, max);
  }

  /** The moved list is `n` followed by a subsequence of the old list
      without `n`. */
  lemma MovedFirstOrder(recent: seq<int>, n: int, max: nat)
    ensures var r := Prefix([n] + Filter(recent, x => IsNot(n, x)), max);
            |r| > 0 ==> Subseq(r[1..], recent) && n !in r[1..] && multiset(r)[n] == 1
  {
    FilterSubseq(recent, x => IsNot(n, x));
    MovedInFront(recent, Filter(recent, x => IsNot(n, x)), n, max);
  }

  /** Putting `n` in front of a subsequence without it and cutting to the
      limit keeps `n` once, in front of a subsequence. */
  lemma MovedInFront(recent: seq<int>, others: seq<int>, n: int, max: nat)
    requires Subseq(others, recent) && n !in others
    ensures var r := Prefix([n] + others, max);
            |r| > 0 ==> Subseq(r[1..], recent) && n !in r[1..] && multiset(r)[n] == 1
  {
    var r := Prefix([n] + others, max);
    if |r| > 0 {
      PrefixSubseq(others, max - 1);
      assert r[1..] == Prefix(others, max - 1);
      SubseqTrans(r[1..], others, recent);
      NotInPrefix(others, n, max - 1);
      assert r == [n] + r[1..];
      assert multiset(r) == multiset([n]) + multiset(r[1..]);
    }
  }

  /** A number the old list no longer holds is not in any prefix of it. */
  lemma NotInPrefix(others: seq<int>, n: int, k: nat)
    requires n !in others
    ensures n !in Prefix(others, k) && multiset(Prefix(others, k))[n] == 0
  {
  }

  /** Each old entry other than `n` lands one past the count of such
      entries before it, when that is within the limit. */
  lemma MovedFirstPlaces(recent: seq<int>, n: int, max: nat)
    ensures var r := Prefix([n] + Filter(recent, x => IsNot(n, x)), max);
            forall i :: 0 <= i < |recent| && recent[i] != n && 1 + i - multiset(recent[..i])[n] < max ==>
              0 < 1 + i - multiset(recent[..i])[n] < |r| && r[1 + i - multiset(recent[..i])[n]] == recent[i]
  {
    var r := Prefix([n] + Filter(recent, x => IsNot(n, x)), max);
    forall i | 0 <= i < |recent| && recent[i] != n && 1 + i - multiset(recent[..i])[n] < max
      ensures 0 < 1 + i - multiset(recent[..i])[n] < |r| && r[1 + i - multiset(recent[..i])[n]] == recent[i]
    {
      OthersAt(recent, n, i);
      OthersCount(recent[..i], n);
    }
  }

  /** The entries of `s` that are not `n` are all but the copies of `n`. */
  lemma {:induction false} OthersCount(s: seq<int>, n: int)
    ensures |Filter(s, x => IsNot(n, x))| == |s| - multiset(s)[n]
    decreases |s|
  {
    if |s| > 0 {
      OthersCount(s[1..], n);
      assert s == [s[0]] + s[1..];
    }
  }

  /** An entry that is not `n` comes right after the entries before it that
      are not `n`. */
  lemma OthersAt(recent: seq<int>, n: int, i: nat)
    requires i < |recent| && recent[i] != n
    ensures |Filter(recent[..i], x => IsNot(n, x))| < |Filter(recent, x => IsNot(n, x))|
    ensures Filter(recent, x => IsNot(n, x))[|Filter(recent[..i], x => IsNot(n, x))|] == recent[i]
  {
    assert recent == recent[..i] + recent[i..];
    FilterConcat(recent[..i], recent[i..], x => IsNot(n, x));
    assert recent[i..] == [recent[i]] + recent[i + 1..];
    FilterConcat([recent[i]], recent[i + 1..], x => IsNot(n, x));
    FilterOne(recent[i], x => IsNot(n, x));
  }

  lemma {:induction false} PrefixSubseq(s: seq<int>, k: nat)
    ensures Subseq(Prefix(s, k), s)
    decreases |s|
  {
    if k < |s| && k > 0 {
      PrefixSubseq(s[1..], k - 1);
      assert s[..k][1..] == s[1..][..k - 1];
    } else if k >= |s| {
      SubseqRefl(s);
    }
  }

  /** `addRecentHymn`: the new list, saved. `prefix` traps on a negative limit. */
  function AddRecent(m: Manager, n: int): (r: Manager)
    requires m.maxRecent >= 0
    ensures r.recent == AddTo(m.recent, n, m.maxRecent) && r.maxRecent == m.maxRecent
    ensures IntArrayAt(r.store, RecentHymnsKey) == Some(r.recent)
    ensures SameElsewhere(m.store, r.store, RecentHymnsKey)
  {
    var recent := AddTo(m.recent, n, m.maxRecent);
    Manager(recent, m.maxRecent, m.store[RecentHymnsKey := IntArray(recent)])
  }

  /** `clearRecentHymns`: the list is emptied and the empty list saved. */
  function ClearRecent(m: Manager): (r: Manager)
    ensures r.recent == [] && IntArrayAt(r.store, RecentHymnsKey) == Some([])
    ensures SameElsewhere(m.store, r.store, RecentHymnsKey)
  {
    Manager([], m.maxRecent, m.store[RecentHymnsKey := IntArray([])])
  }

  /** A list with no repeats keeps none after an addition. */
  lemma AddKeepsDistinct(recent: seq<int>, n: int, max: nat)
    requires Distinct(recent)
    ensures Distinct(AddTo(recent, n, max))
  {
    var r := AddTo(recent, n, max);
    if |r| > 0 {
      SubseqDistinct(r[1..], recent);
      forall i, j | 0 <= i < j < |r| ensures r[i] != r[j] {
        assert r[j] == r[1..][j - 1];
        if i > 0 {
          assert r[i] == r[1..][i - 1];
        }
      }
    }
  }

  /** Adding the number already at the head of a list that is within the
      limit and holds it once changes nothing. */
  lemma AddHeadUnchanged(recent: seq<int>, max: nat)
    requires 0 < |recent| <= max
    requires recent[0] !in recent[1..]
    ensures AddTo(recent, recent[0], max) == recent
  {
    var n := recent[0];
    assert recent == [n] + recent[1..];
    FilterConcat([n], recent[1..], x => IsNot(n, x));
    FilterAll(recent[1..], x => IsNot(n, x));
    assert Filter([n], x => IsNot(n, x)) == [] by {
      assert [n][1..] == [];
    }
  }

  /** What `addRecentHymn` saves is what the next load reads back. */
  lemma AddThenLoad(m: Manager, n: int)
    requires m.maxRecent >= 0
    ensures LoadRecent(AddRecent(m, n)) == AddRecent(m, n)
  {
  }
}
