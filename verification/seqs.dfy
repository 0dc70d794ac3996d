/** Sequence operations that stand for the LINQ operators the controllers use
    (Where, Distinct, Except, FirstOrDefault), each in its order-preserving form. */
module Seqs {

  /** A nullable value (`T?` in the source). */
  datatype Option<+T> = None | Some(value: T) {
    /** `x ?? d` */
    function GetOr(default: T): T {
      match this
      case Some(v) => v
      case None => default
    }
  }

  /** No element occurs twice. */
  predicate NoDups<T(==)>(s: seq<T>) {
    forall i, j :: 0 <= i < j < |s| ==> s[i] != s[j]
  }

  lemma {:induction false} NoDupsCons<T>(x: T, s: seq<T>)
    requires x !in s && NoDups(s)
    ensures NoDups([x] + s)
  {
    var r := [x] + s;
    forall i, j | 0 <= i < j < |r| ensures r[i] != r[j] {
      if i == 0 {
        assert r[j] == s[j - 1];
      } else {
        assert r[i] == s[i - 1] && r[j] == s[j - 1];
      }
    }
  }

  lemma {:induction false} NoDupsSnoc<T>(s: seq<T>, x: T)
    requires x !in s && NoDups(s)
    ensures NoDups(s + [x])
  {
    var r := s + [x];
    forall i, j | 0 <= i < j < |r| ensures r[i] != r[j] {
      assert r[i] == s[i];
      if j < |s| { assert r[j] == s[j]; }
    }
  }

  /** Dropping the head keeps a sequence free of duplicates, and the head does not recur. */
  lemma NoDupsTail<T>(s: seq<T>)
    requires |s| > 0 && NoDups(s)
    ensures NoDups(s[1..]) && s[0] !in s[1..]
  {
    forall i, j | 0 <= i < j < |s[1..]| ensures s[1..][i] != s[1..][j] {
      assert s[1..][i] == s[i + 1] && s[1..][j] == s[j + 1];
    }
    forall k | 0 <= k < |s[1..]| ensures s[1..][k] != s[0] {
      assert s[1..][k] == s[k + 1];
    }
  }

  /** In a sequence without duplicates every element is counted once. */
  lemma {:induction false} NoDupsCounts<T>(s: seq<T>)
    requires NoDups(s)
    ensures forall x :: multiset(s)[x] <= 1
  {
    if |s| > 0 {
      assert s == [s[0]] + s[1..];
      NoDupsTail(s);
      NoDupsCounts(s[1..]);
      assert multiset(s) == multiset{s[0]} + multiset(s[1..]);
    }
  }

  /** A permutation of a sequence without duplicates has none either. */
  lemma NoDupsPermutation<T>(s: seq<T>, r: seq<T>)
    requires NoDups(s) && multiset(r) == multiset(s)
    ensures NoDups(r)
  {
    NoDupsCounts(s);
    forall i, j | 0 <= i < j < |r| ensures r[i] != r[j] {
      assert r == r[..j] + [r[j]] + r[j + 1..];
      assert r[i] in r[..j];
      assert multiset(r[..j])[r[i]] >= 1;
      assert multiset(r)[r[j]] == multiset(r[..j])[r[j]] + 1 + multiset(r[j + 1..])[r[j]];
    }
  }

  /** `Where(p)`: the elements of `s` that satisfy `p`, in their original order. */
  function Filter<T(==,!new)>(s: seq<T>, p: T -> bool): (r: seq<T>)
    ensures |r| <= |s|
    ensures forall x :: x in r <==> x in s && p(x)
    ensures NoDups(s) ==> NoDups(r)
  {
    if |s| == 0 then []
    else
      var rest := Filter(s[1..], p);
      assert forall x :: x in s <==> x == s[0] || x in s[1..];
      if p(s[0]) then
        if NoDups(s) then
          NoDupsTail(s);
          NoDupsCons(s[0], rest);
          [s[0]] + rest
        else
          [s[0]] + rest
      else
        if NoDups(s) then
          NoDupsTail(s);
          rest
        else
          rest
  }

  /** Filtering keeps the relative order: two positions of the result come
      from two positions of `s` in the same order. */
  lemma {:induction false} FilterKeepsOrder<T(!new)>(s: seq<T>, p: T -> bool, i: nat, j: nat)
    requires i < j < |Filter(s, p)|
    ensures exists a, b :: 0 <= a < b < |s| && s[a] == Filter(s, p)[i] && s[b] == Filter(s, p)[j]
    decreases |s|
  {
    var r := Filter(s, p);
    var tail := s[1..];
    var rest := Filter(tail, p);
    assert forall k :: 0 <= k < |tail| ==> s[k + 1] == tail[k];
    if p(s[0]) {
      assert r == [s[0]] + rest;
      assert r[j] == rest[j - 1];
      if i == 0 {
        assert rest[j - 1] in tail;
        var b :| 0 <= b < |tail| && tail[b] == rest[j - 1];
        assert s[0] == r[i] && s[b + 1] == r[j];
      } else {
        assert r[i] == rest[i - 1];
        FilterKeepsOrder(tail, p, i - 1, j - 1);
        var a, b :| 0 <= a < b < |tail| && tail[a] == rest[i - 1] && tail[b] == rest[j - 1];
        assert s[a + 1] == r[i] && s[b + 1] == r[j];
      }
    } else {
      assert r == rest;
      FilterKeepsOrder(tail, p, i, j);
      var a, b :| 0 <= a < b < |tail| && tail[a] == rest[i] && tail[b] == rest[j];
      assert s[a + 1] == r[i] && s[b + 1] == r[j];
    }
  }

  /** Filtering keeps each accepted element as often as it occurs, and drops
      every other one. */
  lemma {:induction false} FilterCounts<T(!new)>(s: seq<T>, p: T -> bool)
    ensures forall x :: multiset(Filter(s, p))[x] == if p(x) then multiset(s)[x] else 0
  {
    if |s| > 0 {
      FilterCounts(s[1..], p);
      assert s == [s[0]] + s[1..];
      assert multiset(s) == multiset([s[0]]) + multiset(s[1..]);
      if p(s[0]) {
        assert Filter(s, p) == [s[0]] + Filter(s[1..], p);
        assert multiset(Filter(s, p)) == multiset([s[0]]) + multiset(Filter(s[1..], p));
      } else {
        assert Filter(s, p) == Filter(s[1..], p);
      }
    }
  }

  /** Filtering with a predicate that every element satisfies changes nothing. */
  lemma {:induction false} FilterKeepsAll<T(!new)>(s: seq<T>, p: T -> bool)
    requires forall x :: x in s ==> p(x)
    ensures Filter(s, p) == s
  {
    if |s| > 0 {
      assert forall x :: x in s[1..] ==> x in s;
      FilterKeepsAll(s[1..], p);
      assert p(s[0]);
      assert s == [s[0]] + s[1..];
    }
  }

  /** `Distinct()`: the first occurrence of every element, in order. */
  function Distinct<T(==,!new)>(s: seq<T>): (r: seq<T>)
    ensures |r| <= |s|
    ensures forall x :: x in r <==> x in s
    ensures NoDups(r)
  {
    if |s| == 0 then []
    else
      var init := s[..|s| - 1];
      var last := s[|s| - 1];
      assert s == init + [last];
      var prefix := Distinct(init);
      if last in prefix then prefix
      else
        NoDupsSnoc(prefix, last);
        prefix + [last]
  }

  /** `first.Except(second)`: the distinct elements of `first` that are not in `second`. */
  function Except<T(==,!new)>(first: seq<T>, second: set<T>): (r: seq<T>)
    ensures forall x :: x in r <==> x in first && x !in second
    ensures NoDups(r)
  {
    Filter(Distinct(first), x => x !in second)
  }

  /** `FirstOrDefault(p)` as an index: the first position whose element satisfies `p`. */
  function FindIndex<T>(s: seq<T>, p: T -> bool): (r: Option<nat>)
    ensures r.Some? ==> r.value < |s| && p(s[r.value])
    ensures r.Some? ==> forall j :: 0 <= j < r.value ==> !p(s[j])
    ensures r.None? ==> forall j :: 0 <= j < |s| ==> !p(s[j])
  {
    FindFrom(s, p, 0)
  }

  function FindFrom<T>(s: seq<T>, p: T -> bool, i: nat): (r: Option<nat>)
    requires i <= |s|
    requires forall j :: 0 <= j < i ==> !p(s[j])
    ensures r.Some? ==> i <= r.value < |s| && p(s[r.value])
    ensures r.Some? ==> forall j :: 0 <= j < r.value ==> !p(s[j])
    ensures r.None? ==> forall j :: 0 <= j < |s| ==> !p(s[j])
    decreases |s| - i
  {
    if i == |s| then None
    else if p(s[i]) then Some(i)
    else FindFrom(s, p, i + 1)
  }

  /** `List.Remove` of the element at position `k`: every other element stays,
      in order, and in a sequence without duplicates the removed one is gone. */
  function RemoveAt<T>(s: seq<T>, k: nat): (r: seq<T>)
    requires k < |s|
    ensures |r| == |s| - 1
    ensures forall i :: 0 <= i < k ==> r[i] == s[i]
    ensures forall i :: k <= i < |r| ==> r[i] == s[i + 1]
    ensures NoDups(s) ==> s[k] !in r
  {
    var r := s[..k] + s[k + 1..];
    r
  }

  /** Removal keeps exactly the elements other than the removed one (given no duplicates). */
  lemma RemoveAtMembers<T>(s: seq<T>, k: nat)
    requires k < |s| && NoDups(s)
    ensures forall x :: x in RemoveAt(s, k) <==> x in s && x != s[k]
  {
    var r := RemoveAt(s, k);
    forall x ensures x in r <==> x in s && x != s[k] {
      if x in r {
        var i :| 0 <= i < |r| && r[i] == x;
        if i >= k {
          assert s[i + 1] == x;
        }
      }
      if x in s && x != s[k] {
        var i :| 0 <= i < |s| && s[i] == x;
        if i < k {
          assert r[i] == x;
        } else {
          assert r[i - 1] == x;
        }
      }
    }
  }

  /** Slicing a suffix is slicing the sequence further along. */
  lemma SliceOfSlice<T>(s: seq<T>, i: nat, n: nat)
    requires i + n <= |s|
    ensures s[i..][..n] == s[i..i + n] && s[i..][n..] == s[i + n..]
  {
  }

  /** A sequence is a prefix of itself followed by anything. */
  lemma PrefixOfAppended<T>(a: seq<T>, b: seq<T>)
    ensures a <= a + b
  {
    assert (a + b)[..|a|] == a;
  }

  /** A non-empty sequence holds its first element. */
  lemma HeadIsMember<T>(s: seq<T>)
    requires |s| > 0
    ensures s[0] in s
  {
  }

  /** A sequence without members is empty. */
  lemma EmptyIfNoMembers<T>(s: seq<T>)
    requires forall x :: x !in s
    ensures s == []
  {
    if |s| > 0 {
      HeadIsMember(s);
      assert false;
    }
  }
}
