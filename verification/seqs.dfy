/** Generic sequence operations that spell out the table primitives the pipeline
    relies on: element-wise mapping, first-occurrence lookup by a key,
    first-occurrence de-duplication, filtering by a key, and the size
    bookkeeping of a group-by. */
module Seqs {
  import opened Wrappers

  /** No element occurs twice. */
  predicate Distinct<T(==)>(s: seq<T>) {
    forall i, j :: 0 <= i < j < |s| ==> s[i] != s[j]
  }

  lemma DistinctCons<T>(x: T, s: seq<T>)
    requires Distinct(s) && x !in s
    ensures Distinct([x] + s)
  {
    forall i, j | 0 <= i < j < |[x] + s|
      ensures ([x] + s)[i] != ([x] + s)[j]
    {
      if i == 0 {
        assert ([x] + s)[j] == s[j - 1];
      }
    }
  }

  lemma DistinctTail<T>(s: seq<T>)
    requires Distinct(s) && s != []
    ensures Distinct(s[1..]) && s[0] !in s[1..]
  {
    forall i, j | 0 <= i < j < |s[1..]|
      ensures s[1..][i] != s[1..][j]
    {
      assert s[1..][i] == s[i + 1] && s[1..][j] == s[j + 1];
    }
  }

  lemma HeadIsElement<T>(s: seq<T>)
    requires s != []
    ensures s[0] in s
  {
  }

  /** `f` applied to every element, in order. */
  function Map<T, U>(s: seq<T>, f: T -> U): (r: seq<U>)
    ensures |r| == |s|
    ensures forall i :: 0 <= i < |s| ==> r[i] == f(s[i])
  {
    seq(|s|, i requires 0 <= i < |s| => f(s[i]))
  }

  lemma MapAppend<T, U>(a: seq<T>, b: seq<T>, f: T -> U)
    ensures Map(a + b, f) == Map(a, f) + Map(b, f)
  {
  }

  /** The first element of `s` whose key is `k`, if any. */
  function First<T, K(==)>(s: seq<T>, key: T -> K, k: K): Option<T>
  {
    if s == [] then None
    else if key(s[0]) == k then Some(s[0])
    else First(s[1..], key, k)
  }

  /** First, stated by positions: it finds something exactly when some element
      has key `k`, and what it finds sits at an index before which no element
      has key `k`. */
  lemma {:induction false} FirstSpec<T, K>(s: seq<T>, key: T -> K, k: K)
    ensures First(s, key, k).None? <==> k !in Map(s, key)
    ensures First(s, key, k).Some? ==>
      exists i :: 0 <= i < |s| && s[i] == First(s, key, k).value && key(s[i]) == k &&
        forall j :: 0 <= j < i ==> key(s[j]) != k
  {
    if s != [] {
      FirstSpec(s[1..], key, k);
      assert Map(s, key) == [key(s[0])] + Map(s[1..], key);
      if key(s[0]) != k && First(s, key, k).Some? {
        var i :| 0 <= i < |s[1..]| && s[1..][i] == First(s, key, k).value && key(s[1..][i]) == k &&
          forall j :: 0 <= j < i ==> key(s[1..][j]) != k;
        assert s[i + 1] == First(s, key, k).value;
        forall j | 0 <= j < i + 1
          ensures key(s[j]) != k
        {
          if j > 0 {
            assert s[j] == s[1..][j - 1];
          }
        }
      }
    }
  }

  /** First finds the element at `i` when no earlier element has its key. */
  lemma {:induction false} FirstAt<T, K>(s: seq<T>, key: T -> K, i: nat)
    requires i < |s|
    requires forall j :: 0 <= j < i ==> key(s[j]) != key(s[i])
    ensures First(s, key, key(s[i])) == Some(s[i])
  {
    if i > 0 {
      FirstAt(s[1..], key, i - 1);
    }
  }

  /** In a concatenation the first part is searched first. */
  lemma {:induction false} FirstAppend<T, K>(a: seq<T>, b: seq<T>, key: T -> K, k: K)
    ensures First(a + b, key, k) == if First(a, key, k).Some? then First(a, key, k) else First(b, key, k)
  {
    if a == [] {
      assert a + b == b;
    } else {
      assert (a + b)[0] == a[0] && (a + b)[1..] == a[1..] + b;
      FirstAppend(a[1..], b, key, k);
    }
  }

  /** Keeps, for every key not in `seen`, the first element with that key, and
      drops every other element: what `drop_duplicates` does on a key column
      when `seen` is empty. */
  function DedupFrom<T, K(==,!new)>(s: seq<T>, key: T -> K, seen: set<K>): (r: seq<T>)
    ensures forall k :: First(r, key, k) == if k in seen then None else First(s, key, k)
    ensures Distinct(Map(r, key))
    ensures forall x :: x in r ==> x in s
    decreases |s|
  {
    if s == [] then []
    else if key(s[0]) in seen then DedupFrom(s[1..], key, seen)
    else
      var rest := DedupFrom(s[1..], key, seen + {key(s[0])});
      FirstSpec(rest, key, key(s[0]));
      DistinctCons(key(s[0]), Map(rest, key));
      assert Map([s[0]] + rest, key) == [key(s[0])] + Map(rest, key);
      [s[0]] + rest
  }

  /** The distinct elements of `s`, in order of first appearance (pandas
      `unique()`), skipping those in `seen`. */
  function UniqueFrom<T(==,!new)>(s: seq<T>, seen: set<T>): (r: seq<T>)
    ensures Distinct(r)
    ensures forall x :: x in r <==> x in s && x !in seen
    decreases |s|
  {
    if s == [] then []
    else if s[0] in seen then UniqueFrom(s[1..], seen)
    else
      var rest := UniqueFrom(s[1..], seen + {s[0]});
      DistinctCons(s[0], rest);
      [s[0]] + rest
  }

  function Unique<T(==,!new)>(s: seq<T>): (r: seq<T>)
    ensures Distinct(r)
    ensures forall x :: x in r <==> x in s
  {
    UniqueFrom(s, {})
  }

  /** The elements of `s` whose key is `k`, in order: the members of one group. */
  function Where<T(!new), K(==)>(s: seq<T>, key: T -> K, k: K): (r: seq<T>)
    ensures |r| <= |s|
    ensures forall i :: 0 <= i < |r| ==> key(r[i]) == k
    ensures forall x :: x in r <==> x in s && key(x) == k
    ensures r != [] <==> k in Map(s, key)
    ensures r != [] ==> First(s, key, k) == Some(r[0])
  {
    if s == [] then []
    else
      assert Map(s, key) == [key(s[0])] + Map(s[1..], key);
      if key(s[0]) == k then [s[0]] + Where(s[1..], key, k)
      else Where(s[1..], key, k)
  }

  /** One step of Where: the head is kept exactly when its key is `k`. */
  lemma WhereCons<T(!new), K>(s: seq<T>, key: T -> K, k: K)
    requires s != []
    ensures Where(s, key, k) == (if key(s[0]) == k then [s[0]] else []) + Where(s[1..], key, k)
  {
  }

  /** A group has as many members as its key has occurrences. */
  lemma {:induction false} WhereCount<T(!new), K>(s: seq<T>, key: T -> K, k: K)
    ensures |Where(s, key, k)| == Occurrences(Map(s, key), k)
  {
    if s != [] {
      var m := Map(s, key);
      assert m[0] == key(s[0]) && m[1..] == Map(s[1..], key);
      WhereCons(s, key, k);
      WhereCount(s[1..], key, k);
    }
  }

  /** A group keeps every row with key `k` as often as the input has it, and
      nothing else. */
  lemma {:induction false} WhereMultiset<T(!new), K>(s: seq<T>, key: T -> K, k: K)
    ensures forall x :: multiset(Where(s, key, k))[x] == if key(x) == k then multiset(s)[x] else 0
  {
    if s != [] {
      WhereCons(s, key, k);
      WhereMultiset(s[1..], key, k);
      FilterMultisetStep(s, Where(s, key, k), Where(s[1..], key, k), key, k);
    }
  }

  /** The multiset step of a filter: keeping or dropping the head adds its count or not. */
  lemma FilterMultisetStep<T, K>(s: seq<T>, w: seq<T>, w1: seq<T>, key: T -> K, k: K)
    requires s != []
    requires w == (if key(s[0]) == k then [s[0]] else []) + w1
    requires forall x :: multiset(w1)[x] == if key(x) == k then multiset(s[1..])[x] else 0
    ensures forall x :: multiset(w)[x] == if key(x) == k then multiset(s)[x] else 0
  {
    assert multiset(s) == multiset{s[0]} + multiset(s[1..]) by {
      assert s == [s[0]] + s[1..];
    }
  }

  /** Regrouping a concatenation: from `w == h + (x + y)` and `wa == h + x`. */
  lemma ConcatShift<T>(w: seq<T>, wa: seq<T>, h: seq<T>, rest: seq<T>, x: seq<T>, y: seq<T>)
    requires w == h + rest && rest == x + y && wa == h + x
    ensures w == wa + y
  {
  }

  /** Filtering a concatenation filters each part and keeps them in order; with
      WhereCons this fixes the order of a group's members. */
  lemma {:induction false} WhereAppend<T(!new), K>(a: seq<T>, b: seq<T>, key: T -> K, k: K)
    ensures Where(a + b, key, k) == Where(a, key, k) + Where(b, key, k)
  {
    if a == [] {
      assert a + b == b;
    } else {
      var ab := a + b;
      assert ab[0] == a[0] && ab[1..] == a[1..] + b;
      WhereCons(ab, key, k);
      WhereCons(a, key, k);
      WhereAppend(a[1..], b, key, k);
      var h := if key(a[0]) == k then [a[0]] else [];
      ConcatShift(Where(ab, key, k), Where(a, key, k), h,
                  Where(a[1..] + b, key, k), Where(a[1..], key, k), Where(b, key, k));
    }
  }

  /** Under distinct keys a group has at most one member: the element First finds. */
  lemma {:induction false} WhereOfDistinctKeys<T(!new), K>(s: seq<T>, key: T -> K, k: K)
    requires Distinct(Map(s, key))
    ensures Where(s, key, k) == if First(s, key, k).Some? then [First(s, key, k).value] else []
  {
    if s != [] {
      assert Map(s, key) == [key(s[0])] + Map(s[1..], key);
      DistinctTail(Map(s, key));
      if key(s[0]) != k {
        WhereOfDistinctKeys(s[1..], key, k);
      }
    }
  }

  /** Filtering a sequence that is duplicate-free under `f` leaves it
      duplicate-free under `f`. */
  lemma {:induction false} WhereKeepsDistinct<T(!new), K, U>(s: seq<T>, key: T -> K, k: K, f: T -> U)
    requires Distinct(Map(s, f))
    ensures Distinct(Map(Where(s, key, k), f))
  {
    if s != [] {
      assert Map(s, f) == [f(s[0])] + Map(s[1..], f);
      DistinctTail(Map(s, f));
      WhereKeepsDistinct(s[1..], key, k, f);
      var w := Where(s[1..], key, k);
      if key(s[0]) == k {
        DistinctCons(f(s[0]), Map(w, f));
        assert Map([s[0]] + w, f) == [f(s[0])] + Map(w, f);
      }
    }
  }

  /** A duplicate-free sequence has as many distinct elements as positions. */
  lemma {:induction false} DistinctCardinality<T>(s: seq<T>)
    requires Distinct(s)
    ensures |set x | x in s| == |s|
  {
    if s != [] {
      DistinctTail(s);
      DistinctCardinality(s[1..]);
      assert (set x | x in s) == (set x | x in s[1..]) + {s[0]};
    }
  }

  lemma SameElementsSameSet<T>(a: seq<T>, b: seq<T>)
    requires forall x :: x in a <==> x in b
    ensures (set x | x in a) == (set x | x in b)
  {
  }

  /** A duplicate-free sequence whose elements are exactly `x` is `[x]`. */
  lemma OnlyElement<T>(s: seq<T>, x: T)
    requires Distinct(s)
    requires forall y :: y in s <==> y == x
    ensures s == [x]
  {
    assert (set y | y in s) == {x};
    DistinctCardinality(s);
    assert s[0] in s;
  }

  /** Duplicate-freedom is a property of the multiset of elements. */
  lemma {:induction false} DistinctMultiset<T>(s: seq<T>)
    ensures Distinct(s) <==> forall x :: multiset(s)[x] <= 1
  {
    if s != [] {
      DistinctMultiset(s[1..]);
      assert s == [s[0]] + s[1..];
      assert multiset(s) == multiset{s[0]} + multiset(s[1..]);
      if Distinct(s) {
        DistinctTail(s);
      } else if forall x :: multiset(s)[x] <= 1 {
        assert forall x :: multiset(s[1..])[x] <= multiset(s)[x];
        assert multiset(s[1..])[s[0]] == 0;
        DistinctCons(s[0], s[1..]);
      }
    }
  }

  /** An element of a rearrangement sits somewhere in the original. */
  lemma PermutationMember<T>(s: seq<T>, r: seq<T>, x: T)
    requires multiset(r) == multiset(s)
    requires x in r
    ensures exists i :: 0 <= i < |s| && s[i] == x
  {
    assert x in multiset(r);
    assert x in s;
  }

  /** A rearrangement keeps the keys duplicate-free and keeps the same keys. */
  lemma PermutationKeys<T, K>(s: seq<T>, r: seq<T>, key: T -> K)
    requires multiset(r) == multiset(s)
    requires Distinct(Map(s, key))
    ensures Distinct(Map(r, key))
    ensures forall k :: k in Map(r, key) <==> k in Map(s, key)
  {
    assert Distinct(s) by {
      forall i, j | 0 <= i < j < |s|
        ensures s[i] != s[j]
      {
        assert Map(s, key)[i] != Map(s, key)[j];
      }
    }
    DistinctMultiset(s);
    DistinctMultiset(r);
    forall i, j | 0 <= i < j < |r|
      ensures Map(r, key)[i] != Map(r, key)[j]
    {
      assert r[i] in multiset(s) && r[j] in multiset(s);
      var p :| 0 <= p < |s| && s[p] == r[i];
      var q :| 0 <= q < |s| && s[q] == r[j];
      assert p != q;
      assert Map(s, key)[p] != Map(s, key)[q];
    }
    forall k
      ensures k in Map(r, key) <==> k in Map(s, key)
    {
      if k in Map(r, key) {
        var i :| 0 <= i < |r| && Map(r, key)[i] == k;
        assert r[i] in multiset(s);
        var p :| 0 <= p < |s| && s[p] == r[i];
        assert Map(s, key)[p] == k;
      }
      if k in Map(s, key) {
        var p :| 0 <= p < |s| && Map(s, key)[p] == k;
        assert s[p] in multiset(r);
        var i :| 0 <= i < |r| && r[i] == s[p];
        assert Map(r, key)[i] == k;
      }
    }
  }

  /** How many times `k` occurs in `s`. */
  function Occurrences<K(==)>(s: seq<K>, k: K): nat
  {
    if s == [] then 0 else (if s[0] == k then 1 else 0) + Occurrences(s[1..], k)
  }

  lemma {:induction false} DistinctOccurrences<K>(s: seq<K>, k: K)
    requires Distinct(s)
    ensures Occurrences(s, k) == if k in s then 1 else 0
  {
    if s != [] {
      DistinctTail(s);
      DistinctOccurrences(s[1..], k);
    }
  }

  /** The total size of the groups named by `groups`. */
  function GroupSizes<T(!new), K(==)>(s: seq<T>, key: T -> K, groups: seq<K>): nat
  {
    if groups == [] then 0 else |Where(s, key, groups[0])| + GroupSizes(s, key, groups[1..])
  }

  lemma {:induction false} GroupSizesCons<T(!new), K>(x: T, s: seq<T>, key: T -> K, groups: seq<K>)
    ensures GroupSizes([x] + s, key, groups) == Occurrences(groups, key(x)) + GroupSizes(s, key, groups)
  {
    assert ([x] + s)[0] == x && ([x] + s)[1..] == s;
    if groups != [] {
      GroupSizesCons(x, s, key, groups[1..]);
    }
  }

  lemma {:induction false} GroupSizesEmpty<T(!new), K>(key: T -> K, groups: seq<K>)
    ensures GroupSizes([], key, groups) == 0
  {
    if groups != [] {
      GroupSizesEmpty(key, groups[1..]);
    }
  }

  /** Grouping partitions: when the group keys are distinct and cover every
      element's key, the groups together hold every element exactly once. */
  lemma {:induction false} GroupSizesPartition<T(!new), K>(s: seq<T>, key: T -> K, groups: seq<K>)
    requires Distinct(groups)
    requires forall i :: 0 <= i < |s| ==> key(s[i]) in groups
    ensures GroupSizes(s, key, groups) == |s|
  {
    if s == [] {
      GroupSizesEmpty(key, groups);
    } else {
      assert s == [s[0]] + s[1..];
      GroupSizesCons(s[0], s[1..], key, groups);
      DistinctOccurrences(groups, key(s[0]));
      GroupSizesPartition(s[1..], key, groups);
    }
  }
}
