/** The LINQ operators the notebooks use, as functions over finite
    sequences, evaluated eagerly. Each carries the meaning that the
    Enumerable documentation gives it. */
module Linq {
  import opened Wrappers

  /** Where: the elements that satisfy `p`, in their original order. */
  function Where<T>(s: seq<T>, p: T -> bool): (r: seq<T>)
    ensures |r| <= |s|
    ensures forall i :: 0 <= i < |r| ==> p(r[i])
  {
    if s == [] then [] else (if p(s[0]) then [s[0]] else []) + Where(s[1..], p)
  }

  /** Where keeps exactly the satisfying occurrences: every count of an
      element that satisfies `p` is kept, every other count is dropped. */
  lemma {:induction false} WhereCounts<T>(s: seq<T>, p: T -> bool, x: T)
    ensures multiset(Where(s, p))[x] == if p(x) then multiset(s)[x] else 0
  {
    if s != [] {
      WhereCounts(s[1..], p, x);
      assert s == [s[0]] + s[1..];
    }
  }

  /** Membership in a Where is membership plus the predicate. */
  lemma WhereMember<T>(s: seq<T>, p: T -> bool, x: T)
    ensures x in Where(s, p) <==> x in s && p(x)
  {
    WhereCounts(s, p, x);
    assert x in Where(s, p) <==> multiset(Where(s, p))[x] > 0;
    assert x in s <==> multiset(s)[x] > 0;
  }

  /** Where distributes over concatenation, so it keeps relative order. */
  lemma {:induction false} WhereAppend<T>(a: seq<T>, b: seq<T>, p: T -> bool)
    ensures Where(a + b, p) == Where(a, p) + Where(b, p)
  {
    if a == [] {
      assert a + b == b;
    } else {
      assert (a + b)[0] == a[0] && (a + b)[1..] == a[1..] + b;
      WhereAppend(a[1..], b, p);
    }
  }

  /** Select: `f` applied to every element, position by position. */
  function Select<T, U>(s: seq<T>, f: T -> U): (r: seq<U>)
    ensures |r| == |s|
    ensures forall i :: 0 <= i < |s| ==> r[i] == f(s[i])
  {
    if s == [] then [] else [f(s[0])] + Select(s[1..], f)
  }

  /** A value is among the projections of the filtered elements exactly
      when some element satisfying the filter projects to it. */
  lemma SelectWhereMember<T, U>(s: seq<T>, p: T -> bool, f: T -> U, u: U)
    ensures u in Select(Where(s, p), f) <==> exists i :: 0 <= i < |s| && p(s[i]) && f(s[i]) == u
  {
    var w := Where(s, p);
    var us := Select(w, f);
    if u in us {
      var k :| 0 <= k < |us| && us[k] == u;
      WhereMember(s, p, w[k]);
      var i :| 0 <= i < |s| && s[i] == w[k];
      assert p(s[i]) && f(s[i]) == u;
    }
    if exists i :: 0 <= i < |s| && p(s[i]) && f(s[i]) == u {
      var i :| 0 <= i < |s| && p(s[i]) && f(s[i]) == u;
      var x := s[i];
      WhereMember(s, p, x);
      var k :| 0 <= k < |w| && w[k] == x;
      assert us[k] == f(x);
    }
  }

  /** SelectMany: the concatenation of the sub-sequences, in order. */
  function SelectMany<T, U>(s: seq<T>, f: T -> seq<U>): seq<U>
  {
    if s == [] then [] else f(s[0]) + SelectMany(s[1..], f)
  }

  /** An element of the flattening comes from some element's sub-sequence,
      and every sub-sequence's elements are in it. */
  lemma {:induction false} SelectManyMember<T, U>(s: seq<T>, f: T -> seq<U>, u: U)
    ensures u in SelectMany(s, f) <==> exists i :: 0 <= i < |s| && u in f(s[i])
  {
    if s != [] {
      SelectManyMember(s[1..], f, u);
      if u in SelectMany(s, f) && u !in f(s[0]) {
        var i :| 0 <= i < |s[1..]| && u in f(s[1..][i]);
        assert u in f(s[i + 1]);
      }
      if exists i :: 0 <= i < |s| && u in f(s[i]) {
        var i :| 0 <= i < |s| && u in f(s[i]);
        if i > 0 {
          assert u in f(s[1..][i - 1]);
        }
      }
    }
  }

  predicate NoDuplicates<T(==)>(s: seq<T>) {
    forall i, j :: 0 <= i < j < |s| ==> s[i] != s[j]
  }

  /** Distinct: the first occurrence of every element, in order. */
  function Distinct<T(==)>(s: seq<T>): (r: seq<T>)
    ensures NoDuplicates(r)
    ensures forall i :: 0 <= i < |r| ==> r[i] in s
    ensures forall i :: 0 <= i < |s| ==> s[i] in r
    ensures |r| <= |s|
  {
    if s == [] then []
    else
      var init := s[..|s| - 1];
      var d := Distinct(init);
      var x := s[|s| - 1];
      assert forall i :: 0 <= i < |s| - 1 ==> s[i] == init[i];
      if x in d then d else d + [x]
  }

  /** A duplicate-free sequence holding only `x`, and holding it, is [x]. */
  lemma NoDuplicatesSingleton<T>(r: seq<T>, x: T)
    requires NoDuplicates(r) && x in r
    requires forall k :: 0 <= k < |r| ==> r[k] == x
    ensures r == [x]
  {
    FirstTwoDiffer(r);
    assert |r| == 1;
  }

  lemma FirstTwoDiffer<T>(r: seq<T>)
    requires NoDuplicates(r)
    ensures |r| < 2 || r[0] != r[1]
  {
  }

  /** Distinct was already duplicate-free: a duplicate-free input passes through. */
  lemma {:induction false} DistinctOfDistinct<T>(s: seq<T>)
    requires NoDuplicates(s)
    ensures Distinct(s) == s
  {
    if s != [] {
      var init := s[..|s| - 1];
      assert NoDuplicates(init);
      DistinctOfDistinct(init);
      assert s[|s| - 1] !in init;
      assert s == init + [s[|s| - 1]];
    }
  }

  /** Keys non-decreasing along the sequence. */
  predicate SortedBy<T>(s: seq<T>, key: T -> int) {
    forall i, j :: 0 <= i < j < |s| ==> key(s[i]) <= key(s[j])
  }

  /** Inserts `x` into a sorted sequence after every element whose key is
      not greater than its own. */
  function InsertBy<T>(x: T, sorted: seq<T>, key: T -> int): (r: seq<T>)
    requires SortedBy(sorted, key)
    ensures SortedBy(r, key)
    ensures multiset(r) == multiset(sorted) + multiset{x}
    ensures |r| == |sorted| + 1
  {
    if sorted == [] then [x]
    else if key(x) < key(sorted[0]) then [x] + sorted
    else
      var rest := InsertBy(x, sorted[1..], key);
      var src := sorted[1..] + [x];
      assert multiset(src) == multiset(sorted[1..]) + multiset{x};
      TailAboveHead(sorted, x, key);
      LowerBoundByMultiset(key(sorted[0]), src, rest, key);
      ConsSorted(sorted[0], rest, key);
      assert sorted == [sorted[0]] + sorted[1..];
      [sorted[0]] + rest
  }

  lemma TailAboveHead<T>(sorted: seq<T>, x: T, key: T -> int)
    requires SortedBy(sorted, key) && sorted != [] && key(sorted[0]) <= key(x)
    ensures forall k :: 0 <= k < |sorted| ==> key(sorted[0]) <= key((sorted[1..] + [x])[k])
  {
    forall k | 0 <= k < |sorted|
      ensures key(sorted[0]) <= key((sorted[1..] + [x])[k])
    {
      if k < |sorted| - 1 {
        assert (sorted[1..] + [x])[k] == sorted[k + 1];
      }
    }
  }

  lemma LowerBoundByMultiset<T>(b: int, src: seq<T>, rest: seq<T>, key: T -> int)
    requires forall k :: 0 <= k < |src| ==> b <= key(src[k])
    requires multiset(rest) == multiset(src)
    ensures forall k :: 0 <= k < |rest| ==> b <= key(rest[k])
  {
    forall k | 0 <= k < |rest|
      ensures b <= key(rest[k])
    {
      assert rest[k] in multiset(src);
      var m :| 0 <= m < |src| && src[m] == rest[k];
    }
  }

  lemma ConsSorted<T>(h: T, rest: seq<T>, key: T -> int)
    requires SortedBy(rest, key)
    requires forall k :: 0 <= k < |rest| ==> key(h) <= key(rest[k])
    ensures SortedBy([h] + rest, key)
  {
    var r := [h] + rest;
    forall i, j | 0 <= i < j < |r|
      ensures key(r[i]) <= key(r[j])
    {
      assert r[j] == rest[j - 1];
      if i > 0 {
        assert r[i] == rest[i - 1];
      }
    }
  }

  /** OrderBy: a stable ascending sort by `key`. */
  function OrderBy<T>(s: seq<T>, key: T -> int): (r: seq<T>)
    ensures SortedBy(r, key)
    ensures multiset(r) == multiset(s)
    ensures |r| == |s|
  {
    if s == [] then []
    else
      assert s == s[..|s| - 1] + [s[|s| - 1]];
      InsertBy(s[|s| - 1], OrderBy(s[..|s| - 1], key), key)
  }

  /** Keys non-increasing along the sequence. */
  predicate SortedByDescending<T>(s: seq<T>, key: T -> int) {
    forall i, j :: 0 <= i < j < |s| ==> key(s[i]) >= key(s[j])
  }

  /** OrderByDescending: a stable sort by `key`, largest first; a stable
      ascending sort on the negated key orders equal keys the same way. */
  function OrderByDescending<T>(s: seq<T>, key: T -> int): (r: seq<T>)
    ensures SortedByDescending(r, key)
    ensures multiset(r) == multiset(s)
    ensures |r| == |s|
  {
    var r := OrderBy(s, x => -key(x));
    assert forall i, j :: 0 <= i < j < |r| ==> -key(r[i]) <= -key(r[j]);
    r
  }

  predicate Ascending(s: seq<int>) {
    forall i, j :: 0 <= i < j < |s| ==> s[i] <= s[j]
  }

  lemma AscendingHeadMin(a: seq<int>, x: int)
    requires Ascending(a) && x in a
    ensures a[0] <= x
  {
  }

  lemma AscendingTail(a: seq<int>)
    requires Ascending(a) && a != []
    ensures Ascending(a[1..])
  {
  }

  lemma TailsAgree(a: seq<int>, b: seq<int>)
    requires a != [] && b != [] && a[0] == b[0] && multiset(a) == multiset(b)
    ensures multiset(a[1..]) == multiset(b[1..])
  {
    assert a == [a[0]] + a[1..] && b == [b[0]] + b[1..];
    assert multiset(a) == multiset{a[0]} + multiset(a[1..]);
    assert multiset(b) == multiset{b[0]} + multiset(b[1..]);
    forall x ensures multiset(a[1..])[x] == multiset(b[1..])[x] {
      assert multiset(a)[x] == multiset{a[0]}[x] + multiset(a[1..])[x];
      assert multiset(b)[x] == multiset{b[0]}[x] + multiset(b[1..])[x];
    }
  }

  /** Two ascending integer sequences with the same elements are equal: the
      sorted arrangement is determined by the multiset alone. */
  lemma {:induction false} AscendingUnique(a: seq<int>, b: seq<int>)
    requires Ascending(a) && Ascending(b)
    requires multiset(a) == multiset(b)
    ensures a == b
    decreases |a|
  {
    if a == [] {
      assert |multiset(b)| == 0;
    } else {
      assert |b| == |a| by {
        assert |multiset(a)| == |a| && |multiset(b)| == |b|;
      }
      assert a[0] in multiset(b) && b[0] in multiset(a);
      AscendingHeadMin(b, a[0]);
      AscendingHeadMin(a, b[0]);
      AscendingTail(a);
      AscendingTail(b);
      TailsAgree(a, b);
      AscendingUnique(a[1..], b[1..]);
      assert a == [a[0]] + a[1..] && b == [b[0]] + b[1..];
    }
  }

  /** The position of the first element that satisfies `p`. */
  function FirstIndex<T>(s: seq<T>, p: T -> bool): (r: Option<nat>)
    ensures r.None? <==> forall i :: 0 <= i < |s| ==> !p(s[i])
    ensures r.Some? ==> r.value < |s| && p(s[r.value]) && forall j :: 0 <= j < r.value ==> !p(s[j])
  {
    if s == [] then None
    else if p(s[0]) then Some(0)
    else
      assert forall i :: 1 <= i < |s| ==> s[i] == s[1..][i - 1];
      match FirstIndex(s[1..], p)
      case None => None
      case Some(k) => Some(k + 1)
  }

  /** FirstOrDefault: the first element that satisfies `p`, None when none does. */
  function FirstOrDefault<T>(s: seq<T>, p: T -> bool): (r: Option<T>)
    ensures r.None? <==> forall i :: 0 <= i < |s| ==> !p(s[i])
    ensures r.Some? ==> exists i :: (0 <= i < |s| && s[i] == r.value && p(s[i]) &&
                                     forall j :: 0 <= j < i ==> !p(s[j]))
  {
    match FirstIndex(s, p)
    case None => None
    case Some(i) => Some(s[i])
  }

  /** Any: some element satisfies `p`. */
  function Any<T>(s: seq<T>, p: T -> bool): (b: bool)
    ensures b <==> exists i :: 0 <= i < |s| && p(s[i])
  {
    if s == [] then false
    else
      assert forall i :: 1 <= i < |s| ==> s[i] == s[1..][i - 1];
      p(s[0]) || Any(s[1..], p)
  }

  /** All: every element satisfies `p` (so All of an empty sequence holds). */
  function All<T>(s: seq<T>, p: T -> bool): (b: bool)
    ensures b <==> forall i :: 0 <= i < |s| ==> p(s[i])
  {
    if s == [] then true
    else
      assert forall i :: 1 <= i < |s| ==> s[i] == s[1..][i - 1];
      p(s[0]) && All(s[1..], p)
  }

  /** All is the negation of Any of the negated predicate. */
  lemma AllIsNotAnyNot<T>(s: seq<T>, p: T -> bool)
    ensures All(s, p) == !Any(s, x => !p(x))
  {
  }

  /** Except: the distinct elements of `a` that are not in `b`, in `a`'s order. */
  function Except<T(==)>(a: seq<T>, b: seq<T>): (r: seq<T>)
    ensures NoDuplicates(r)
    ensures forall i :: 0 <= i < |r| ==> r[i] in a && r[i] !in b
    ensures forall i :: 0 <= i < |a| && a[i] !in b ==> a[i] in r
  {
    var kept := Where(a, x => x !in b);
    var r := Distinct(kept);
    assert forall i :: 0 <= i < |r| ==> r[i] in a && r[i] !in b by {
      forall i | 0 <= i < |r| ensures r[i] in a && r[i] !in b {
        WhereMember(a, x => x !in b, r[i]);
      }
    }
    assert forall i :: 0 <= i < |a| && a[i] !in b ==> a[i] in r by {
      forall i | 0 <= i < |a| && a[i] !in b ensures a[i] in r {
        WhereMember(a, x => x !in b, a[i]);
        var k :| 0 <= k < |kept| && kept[k] == a[i];
      }
    }
    r
  }

  /** Join: for every outer element in order, `result` of it with each
      inner element of equal key, in inner order. */
  function Join<A, B, K(==), R>(outer: seq<A>, inner: seq<B>, outerKey: A -> K, innerKey: B -> K,
                                 result: (A, B) -> R): seq<R>
  {
    if outer == [] then []
    else
      var o := outer[0];
      Select(Where(inner, KeyMatches(outerKey, innerKey, o)), PairWith(result, o))
        + Join(outer[1..], inner, outerKey, innerKey, result)
  }

  /** The inner elements whose key equals the outer element's. */
  function KeyMatches<A, B, K(==)>(outerKey: A -> K, innerKey: B -> K, o: A): B -> bool {
    i => innerKey(i) == outerKey(o)
  }

  /** The result selector with its outer element fixed. */
  function PairWith<A, B, R>(result: (A, B) -> R, o: A): B -> R {
    i => result(o, i)
  }

  /** Joining a concatenation of outer sequences concatenates the joins:
      results come outer element by outer element, in outer order. */
  lemma {:induction false} JoinAppend<A, B, K, R>(a: seq<A>, b: seq<A>, inner: seq<B>, outerKey: A -> K,
                                                      innerKey: B -> K, result: (A, B) -> R)
    ensures Join(a + b, inner, outerKey, innerKey, result) ==
      Join(a, inner, outerKey, innerKey, result) + Join(b, inner, outerKey, innerKey, result)
  {
    if a == [] {
      assert a + b == b;
    } else {
      assert (a + b)[0] == a[0] && (a + b)[1..] == a[1..] + b;
      JoinAppend(a[1..], b, inner, outerKey, innerKey, result);
    }
  }

  /** The filter keeps exactly one element when exactly one satisfies it. */
  lemma {:induction false} WhereOnly<T>(s: seq<T>, p: T -> bool, j: nat)
    requires j < |s| && p(s[j])
    requires forall k :: 0 <= k < |s| && k != j ==> !p(s[k])
    ensures Where(s, p) == [s[j]]
  {
    if j == 0 {
      WhereNone(s[1..], p);
    } else {
      WhereOnly(s[1..], p, j - 1);
    }
  }

  /** The filter keeps nothing when no element satisfies it. */
  lemma {:induction false} WhereNone<T>(s: seq<T>, p: T -> bool)
    requires forall k :: 0 <= k < |s| ==> !p(s[k])
    ensures Where(s, p) == []
  {
    if s != [] {
      WhereNone(s[1..], p);
    }
  }

  /** An outer element matching exactly one inner element contributes
      exactly one result, ahead of the rest of the join. */
  lemma JoinOneMatch<A, B, K, R>(outer: seq<A>, inner: seq<B>, outerKey: A -> K, innerKey: B -> K,
                                 result: (A, B) -> R, j: nat)
    requires outer != [] && j < |inner| && innerKey(inner[j]) == outerKey(outer[0])
    requires forall k :: 0 <= k < |inner| && k != j ==> innerKey(inner[k]) != outerKey(outer[0])
    ensures Join(outer, inner, outerKey, innerKey, result) ==
      [result(outer[0], inner[j])] + Join(outer[1..], inner, outerKey, innerKey, result)
  {
    WhereOnly(inner, KeyMatches(outerKey, innerKey, outer[0]), j);
  }

  /** `z` is `result` of some outer and inner element whose keys agree. */
  ghost predicate JoinedFrom<A, B, K, R>(outer: seq<A>, inner: seq<B>, outerKey: A -> K, innerKey: B -> K,
                                         result: (A, B) -> R, z: R)
  {
    exists i, j :: (0 <= i < |outer| && 0 <= j < |inner| && outerKey(outer[i]) == innerKey(inner[j]) &&
                    z == result(outer[i], inner[j]))
  }

  /** A result of the join comes from a matching pair, and every matching
      pair contributes: unmatched elements of either side are dropped. */
  lemma {:induction false} JoinMember<A, B, K, R>(outer: seq<A>, inner: seq<B>, outerKey: A -> K,
                                                      innerKey: B -> K, result: (A, B) -> R, z: R)
    ensures z in Join(outer, inner, outerKey, innerKey, result) <==>
      JoinedFrom(outer, inner, outerKey, innerKey, result, z)
  {
    if outer != [] {
      var o := outer[0];
      var matched := Where(inner, KeyMatches(outerKey, innerKey, o));
      var head := Select(matched, PairWith(result, o));
      var tail := Join(outer[1..], inner, outerKey, innerKey, result);
      JoinMember(outer[1..], inner, outerKey, innerKey, result, z);
      assert Join(outer, inner, outerKey, innerKey, result) == head + tail;
      if z in head {
        var k :| 0 <= k < |head| && head[k] == z;
        WhereMember(inner, KeyMatches(outerKey, innerKey, o), matched[k]);
        var j :| 0 <= j < |inner| && inner[j] == matched[k];
        assert outerKey(outer[0]) == innerKey(inner[j]) && z == result(outer[0], inner[j]);
      } else if z in tail {
        var i, j :| 0 <= i < |outer[1..]| && 0 <= j < |inner| && outerKey(outer[1..][i]) == innerKey(inner[j]) &&
          z == result(outer[1..][i], inner[j]);
        assert outer[1..][i] == outer[i + 1];
      }
      if JoinedFrom(outer, inner, outerKey, innerKey, result, z) {
        var i, j :| 0 <= i < |outer| && 0 <= j < |inner| && outerKey(outer[i]) == innerKey(inner[j]) &&
          z == result(outer[i], inner[j]);
        if i == 0 {
          WhereMember(inner, KeyMatches(outerKey, innerKey, o), inner[j]);
          var k :| 0 <= k < |matched| && matched[k] == inner[j];
          assert head[k] == z;
        } else {
          assert outer[i] == outer[1..][i - 1];
          assert JoinedFrom(outer[1..], inner, outerKey, innerKey, result, z);
        }
      }
    }
  }

  /** GroupBy: one group per distinct key, in order of first appearance;
      each group holds that key's elements in their original order. No
      two groups share a key, no group is empty, and every element is in
      the group of its key and in no other. */
  function GroupBy<T, K(==)>(s: seq<T>, key: T -> K): (groups: seq<(K, seq<T>)>)
    ensures |groups| == |GroupKeys(s, key)|
    ensures forall g :: 0 <= g < |groups| ==> groups[g] == (GroupKeys(s, key)[g], GroupOf(s, key, GroupKeys(s, key)[g]))
    ensures GroupsWellFormed(s, key, groups)
  {
    GroupPairsWellFormed(s, key);
    Select(GroupKeys(s, key), GroupPair(s, key))
  }

  /** No two groups share a key, no group is empty, a group holds only
      elements of `s` with its key, and every element with a group's key is
      in that group. */
  ghost predicate GroupsWellFormed<T, K>(s: seq<T>, key: T -> K, groups: seq<(K, seq<T>)>) {
    && (forall g, h :: 0 <= g < h < |groups| ==> groups[g].0 != groups[h].0)
    && (forall g :: 0 <= g < |groups| ==> groups[g].1 != [])
    && (forall g, j :: 0 <= g < |groups| && 0 <= j < |groups[g].1| ==>
          groups[g].1[j] in s && key(groups[g].1[j]) == groups[g].0)
    && (forall g, i :: 0 <= g < |groups| && 0 <= i < |s| && key(s[i]) == groups[g].0 ==> s[i] in groups[g].1)
    && (forall i :: 0 <= i < |s| ==> exists g :: 0 <= g < |groups| && groups[g].0 == key(s[i]))
  }

  function GroupPair<T, K(==)>(s: seq<T>, key: T -> K): K -> (K, seq<T>) {
    k => (k, GroupOf(s, key, k))
  }

  lemma GroupPairsWellFormed<T, K>(s: seq<T>, key: T -> K)
    ensures GroupsWellFormed(s, key, Select(GroupKeys(s, key), GroupPair(s, key)))
  {
    var groups := Select(GroupKeys(s, key), GroupPair(s, key));
    GroupPairsNonEmpty(s, key, groups);
    GroupPairsHoldTheirKey(s, key, groups);
    GroupPairsCoverAll(s, key, groups);
  }

  lemma GroupPairsNonEmpty<T, K>(s: seq<T>, key: T -> K, groups: seq<(K, seq<T>)>)
    requires groups == Select(GroupKeys(s, key), GroupPair(s, key))
    ensures forall g :: 0 <= g < |groups| ==> groups[g].1 != []
  {
    var keys := GroupKeys(s, key);
    forall g | 0 <= g < |groups| ensures groups[g].1 != [] {
      var k := keys[g];
      assert groups[g].1 == GroupOf(s, key, k);
      assert k in Select(s, key);
      var i :| 0 <= i < |s| && Select(s, key)[i] == k;
      GroupMember(s, key, k, s[i]);
    }
  }

  lemma GroupPairsHoldTheirKey<T, K>(s: seq<T>, key: T -> K, groups: seq<(K, seq<T>)>)
    requires groups == Select(GroupKeys(s, key), GroupPair(s, key))
    ensures forall g, j :: 0 <= g < |groups| && 0 <= j < |groups[g].1| ==>
      groups[g].1[j] in s && key(groups[g].1[j]) == groups[g].0
    ensures forall g, i :: 0 <= g < |groups| && 0 <= i < |s| && key(s[i]) == groups[g].0 ==> s[i] in groups[g].1
  {
    var keys := GroupKeys(s, key);
    forall g, j | 0 <= g < |groups| && 0 <= j < |groups[g].1|
      ensures groups[g].1[j] in s && key(groups[g].1[j]) == groups[g].0
    {
      assert groups[g] == (keys[g], GroupOf(s, key, keys[g]));
      GroupOfMember(s, key, keys[g], groups[g].1[j]);
    }
    forall g, i | 0 <= g < |groups| && 0 <= i < |s| && key(s[i]) == groups[g].0
      ensures s[i] in groups[g].1
    {
      assert groups[g] == (keys[g], GroupOf(s, key, keys[g]));
      GroupMember(s, key, keys[g], s[i]);
    }
  }

  lemma GroupPairsCoverAll<T, K>(s: seq<T>, key: T -> K, groups: seq<(K, seq<T>)>)
    requires groups == Select(GroupKeys(s, key), GroupPair(s, key))
    ensures forall i :: 0 <= i < |s| ==> exists g :: 0 <= g < |groups| && groups[g].0 == key(s[i])
  {
    var keys := GroupKeys(s, key);
    forall i | 0 <= i < |s| ensures exists g :: 0 <= g < |groups| && groups[g].0 == key(s[i]) {
      assert Select(s, key)[i] == key(s[i]);
      var g :| 0 <= g < |keys| && keys[g] == key(s[i]);
      assert groups[g].0 == key(s[i]);
    }
  }

  lemma GroupOfMember<T, K>(s: seq<T>, key: T -> K, k: K, x: T)
    ensures x in GroupOf(s, key, k) <==> x in s && key(x) == k
  {
    WhereMember(s, y => key(y) == k, x);
  }

  /** The group keys: every element's key once, in order of first appearance. */
  function GroupKeys<T, K(==)>(s: seq<T>, key: T -> K): seq<K> {
    Distinct(Select(s, key))
  }

  /** The elements with key `k`, in their original order. */
  function GroupOf<T, K(==)>(s: seq<T>, key: T -> K, k: K): seq<T> {
    Where(s, x => key(x) == k)
  }

  /** An element of the source is in a group exactly when its key is the group's. */
  lemma GroupMember<T, K>(s: seq<T>, key: T -> K, k: K, x: T)
    requires x in s
    ensures x in GroupOf(s, key, k) <==> key(x) == k
  {
    WhereMember(s, x => key(x) == k, x);
  }

  /** Every group has at least one element. */
  lemma GroupNonEmpty<T, K>(s: seq<T>, key: T -> K, g: nat)
    requires g < |GroupBy(s, key)|
    ensures GroupBy(s, key)[g].1 != []
  {
    var k := GroupKeys(s, key)[g];
    assert k in Select(s, key);
    var i :| 0 <= i < |s| && Select(s, key)[i] == k;
    GroupMember(s, key, k, s[i]);
  }

  /** Each element's key is the key of some group. */
  lemma ElementHasGroup<T, K>(s: seq<T>, key: T -> K, i: nat)
    requires i < |s|
    ensures key(s[i]) in GroupKeys(s, key)
  {
    assert Select(s, key)[i] == key(s[i]);
  }

  /** The group with an element's key is the only group holding that element. */
  lemma OnlyOneGroup<T, K>(s: seq<T>, key: T -> K, i: nat, g: nat)
    requires i < |s| && g < |GroupBy(s, key)| && GroupBy(s, key)[g].0 == key(s[i])
    ensures forall h :: 0 <= h < |GroupBy(s, key)| ==> (s[i] in GroupBy(s, key)[h].1 <==> h == g)
  {
    var keys := GroupKeys(s, key);
    forall h | 0 <= h < |keys| ensures s[i] in GroupBy(s, key)[h].1 <==> h == g {
      GroupMember(s, key, keys[h], s[i]);
    }
  }
}
