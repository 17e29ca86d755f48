/** The array operations of JavaScript that the application uses on lists of
    records and strings: `filter`, deduplication through `new Set(...)`, and
    the stable `sort` (ECMAScript has required Array.prototype.sort to be
    stable since the 2019 edition). */
module Seqs {

  // ---------------------------------------------------------------------
  // filter

  /** `xs.filter(p)`. */
  function Filter<T>(xs: seq<T>, p: T -> bool): (r: seq<T>)
    ensures |r| <= |xs|
    ensures forall i :: 0 <= i < |r| ==> r[i] in xs && p(r[i])
    ensures forall i :: 0 <= i < |xs| && p(xs[i]) ==> xs[i] in r
    decreases |xs|
  {
    if xs == [] then [] else (if p(xs[0]) then [xs[0]] else []) + Filter(xs[1..], p)
  }

  /** a is obtained from b by deleting elements, keeping the order of the rest. */
  predicate IsSubsequence<T(==)>(a: seq<T>, b: seq<T>)
    decreases |b|
  {
    if a == [] then true
    else if b == [] then false
    else (a[0] == b[0] && IsSubsequence(a[1..], b[1..])) || IsSubsequence(a, b[1..])
  }

  /** filter keeps the order of what it keeps. */
  lemma {:induction false} FilterIsSubsequence<T>(xs: seq<T>, p: T -> bool)
    ensures IsSubsequence(Filter(xs, p), xs)
    decreases |xs|
  {
    if xs != [] {
      FilterIsSubsequence(xs[1..], p);
      var rest := Filter(xs[1..], p);
      if p(xs[0]) {
        assert Filter(xs, p) == [xs[0]] + rest;
        assert ([xs[0]] + rest)[1..] == rest;
      } else {
        assert Filter(xs, p) == rest;
      }
    }
  }

  /** When every element passes, filter returns its input unchanged. */
  lemma {:induction false} FilterAll<T>(xs: seq<T>, p: T -> bool)
    requires forall i :: 0 <= i < |xs| ==> p(xs[i])
    ensures Filter(xs, p) == xs
    decreases |xs|
  {
    if xs != [] {
      FilterAll(xs[1..], p);
      assert [xs[0]] + xs[1..] == xs;
    }
  }

  /** Filtering twice with the same predicate is filtering once. */
  lemma FilterIdempotent<T>(xs: seq<T>, p: T -> bool)
    ensures Filter(Filter(xs, p), p) == Filter(xs, p)
  {
    var r := Filter(xs, p);
    assert forall i :: 0 <= i < |r| ==> r[i] in r;
    FilterAll(r, p);
  }

  /** The first element of a filter is the first element that passes. */
  lemma {:induction false} FilterFirst<T>(xs: seq<T>, p: T -> bool, j: nat)
    requires j < |xs| && p(xs[j])
    requires forall i :: 0 <= i < j ==> !p(xs[i])
    ensures |Filter(xs, p)| > 0 && Filter(xs, p)[0] == xs[j]
    decreases j
  {
    if j > 0 {
      FilterFirst(xs[1..], p, j - 1);
    }
  }

  // ---------------------------------------------------------------------
  // Deduplication in first-seen order

  predicate NoDup<T(==)>(xs: seq<T>) {
    forall i, j :: 0 <= i < j < |xs| ==> xs[i] != xs[j]
  }

  /** `Array.from(new Set(xs))`: each value once, at the place it was first seen. */
  function Dedup<T(==)>(xs: seq<T>): (r: seq<T>)
    ensures NoDup(r)
    ensures forall i :: 0 <= i < |r| ==> r[i] in xs
    ensures forall i :: 0 <= i < |xs| ==> xs[i] in r
    ensures |r| <= |xs|
    decreases |xs|
  {
    if xs == [] then []
    else
      var d := Dedup(xs[..|xs| - 1]);
      if xs[|xs| - 1] in d then d else d + [xs[|xs| - 1]]
  }

  /** The index of the first occurrence of x. */
  function IndexOf<T(==)>(xs: seq<T>, x: T): (i: nat)
    requires x in xs
    ensures i < |xs| && xs[i] == x && x !in xs[..i]
    decreases |xs|
  {
    if xs[0] == x then 0
    else
      var k := IndexOf(xs[1..], x);
      assert xs[..k + 1] == [xs[0]] + xs[1..][..k];
      k + 1
  }

  lemma IndexOfUnique<T>(xs: seq<T>, x: T, i: nat)
    requires i < |xs| && xs[i] == x && x !in xs[..i]
    ensures IndexOf(xs, x) == i
  {
  }

  /** In a prefix that already holds x, x is first found where it is found in
      the whole sequence. */
  lemma IndexOfPrefix<T>(xs: seq<T>, k: nat, x: T)
    requires k <= |xs| && x in xs[..k]
    ensures IndexOf(xs, x) == IndexOf(xs[..k], x)
  {
    var b := IndexOf(xs[..k], x);
    assert xs[..k][..b] == xs[..b];
    IndexOfUnique(xs, x, b);
  }

  /** Dedup lists values in the order of their first occurrences. */
  lemma {:induction false} DedupFirstSeenOrder<T>(xs: seq<T>)
    ensures forall i, j :: 0 <= i < j < |Dedup(xs)| ==> IndexOf(xs, Dedup(xs)[i]) < IndexOf(xs, Dedup(xs)[j])
    decreases |xs|
  {
    if xs != [] {
      var n := |xs|;
      var pre := xs[..n - 1];
      DedupFirstSeenOrder(pre);
      var d := Dedup(pre);
      var r := Dedup(xs);
      assert xs[..n - 1] == pre;
      forall i, j | 0 <= i < j < |r| ensures IndexOf(xs, r[i]) < IndexOf(xs, r[j]) {
        assert r[i] == d[i];
        IndexOfPrefix(xs, n - 1, d[i]);
        if j < |d| {
          assert r[j] == d[j];
          IndexOfPrefix(xs, n - 1, d[j]);
        } else {
          assert r[j] == xs[n - 1] && r[j] !in pre;
          IndexOfUnique(xs, r[j], n - 1);
        }
      }
    }
  }

  /** Dedup keeps the order of what it keeps. */
  lemma {:induction false} DedupIsSubsequence<T>(xs: seq<T>)
    ensures IsSubsequence(Dedup(xs), xs)
    decreases |xs|
  {
    if xs != [] {
      var n := |xs|;
      DedupIsSubsequence(xs[..n - 1]);
      var d := Dedup(xs[..n - 1]);
      if xs[n - 1] in d {
        assert xs[..n - 1] + [xs[n - 1]] == xs;
        SubsequenceSnoc(d, xs[..n - 1], xs[n - 1]);
      } else {
        SubsequenceBothSnoc(d, xs[..n - 1], xs[n - 1]);
        assert xs[..n - 1] + [xs[n - 1]] == xs;
      }
    }
  }

  lemma {:induction false} SubsequenceSnoc<T>(a: seq<T>, b: seq<T>, x: T)
    requires IsSubsequence(a, b)
    ensures IsSubsequence(a, b + [x])
    decreases |b|
  {
    if a != [] && b != [] {
      assert (b + [x])[0] == b[0] && (b + [x])[1..] == b[1..] + [x];
      if a[0] == b[0] && IsSubsequence(a[1..], b[1..]) {
        SubsequenceSnoc(a[1..], b[1..], x);
      } else {
        SubsequenceSnoc(a, b[1..], x);
      }
    }
  }

  lemma {:induction false} SubsequenceBothSnoc<T>(a: seq<T>, b: seq<T>, x: T)
    requires IsSubsequence(a, b)
    ensures IsSubsequence(a + [x], b + [x])
    decreases |b|
  {
    if a == [] {
      if b == [] {
        assert ([x] + [])[1..] == [];
      } else {
        assert (b + [x])[1..] == b[1..] + [x];
        SubsequenceBothSnoc(a, b[1..], x);
        assert [] + [x] == [x];
      }
    } else {
      assert (b + [x])[0] == b[0] && (b + [x])[1..] == b[1..] + [x];
      assert (a + [x])[0] == a[0] && (a + [x])[1..] == a[1..] + [x];
      if a[0] == b[0] && IsSubsequence(a[1..], b[1..]) {
        SubsequenceBothSnoc(a[1..], b[1..], x);
      } else {
        SubsequenceBothSnoc(a, b[1..], x);
      }
    }
  }

  lemma {:induction false} NoDupCountsAtMostOne<T>(xs: seq<T>, x: T)
    requires NoDup(xs)
    ensures multiset(xs)[x] <= 1
    decreases |xs|
  {
    if xs != [] {
      var t := xs[1..];
      assert xs == [xs[0]] + t;
      assert NoDup(t) by {
        forall i, j | 0 <= i < j < |t| ensures t[i] != t[j] {
          assert t[i] == xs[i + 1] && t[j] == xs[j + 1];
        }
      }
      NoDupCountsAtMostOne(t, x);
      if x == xs[0] {
        assert x !in t by {
          forall k | 0 <= k < |t| ensures t[k] != x {
            assert t[k] == xs[k + 1];
          }
        }
      }
    }
  }

  lemma RepeatCountsTwice<T>(xs: seq<T>, i: nat, j: nat)
    requires i < j < |xs| && xs[i] == xs[j]
    ensures multiset(xs)[xs[i]] >= 2
  {
    var x := xs[i];
    assert xs == xs[..j] + xs[j..];
    assert x in xs[..j] && x in xs[j..];
    assert multiset(xs) == multiset(xs[..j]) + multiset(xs[j..]);
  }

  /** Reordering a sequence without duplicates creates none. */
  lemma PermutationKeepsNoDup<T>(a: seq<T>, b: seq<T>)
    requires multiset(a) == multiset(b) && NoDup(a)
    ensures NoDup(b)
  {
    forall i, j | 0 <= i < j < |b| ensures b[i] != b[j] {
      if b[i] == b[j] {
        RepeatCountsTwice(b, i, j);
        NoDupCountsAtMostOne(a, b[i]);
        assert false;
      }
    }
  }

  // ---------------------------------------------------------------------
  // Stable sort by a descending integer key: `xs.sort((a, b) => key(b) - key(a))`

  predicate SortedDesc<T>(xs: seq<T>, key: T -> int) {
    forall i, j :: 0 <= i < j < |xs| ==> key(xs[i]) >= key(xs[j])
  }

  /** The predicate "has key k", used to state stability. */
  function KeyIs<T>(key: T -> int, k: int): T -> bool {
    x => key(x) == k
  }

  /** Insert x in front of the first element whose key is not larger. */
  function Insert<T>(x: T, ys: seq<T>, key: T -> int): (r: seq<T>)
    requires SortedDesc(ys, key)
    ensures |r| == |ys| + 1
    ensures r[0] == x || (ys != [] && r[0] == ys[0])
    ensures SortedDesc(r, key)
    ensures multiset(r) == multiset(ys) + multiset{x}
    decreases |ys|
  {
    if ys == [] || key(x) >= key(ys[0]) then
      SortedCons(x, ys, key);
      [x] + ys
    else
      SortedTail(ys, key);
      var rest := Insert(x, ys[1..], key);
      InsertBehind(x, ys, rest, key);
      [ys[0]] + rest
  }

  /** The recursive case of Insert: the head of ys stays in front of the
      insertion into the tail. */
  lemma InsertBehind<T>(x: T, ys: seq<T>, rest: seq<T>, key: T -> int)
    requires ys != [] && key(x) < key(ys[0]) && SortedDesc(ys, key)
    requires |rest| == |ys| && SortedDesc(rest, key)
    requires rest[0] == x || (ys[1..] != [] && rest[0] == ys[1..][0])
    requires multiset(rest) == multiset(ys[1..]) + multiset{x}
    ensures |[ys[0]] + rest| == |ys| + 1
    ensures SortedDesc([ys[0]] + rest, key)
    ensures multiset([ys[0]] + rest) == multiset(ys) + multiset{x}
  {
    assert key(ys[0]) >= key(rest[0]) by {
      if rest[0] != x {
        assert rest[0] == ys[1];
      }
    }
    SortedCons(ys[0], rest, key);
    assert multiset([ys[0]] + rest) == multiset(ys) + multiset{x} by {
      assert ys == [ys[0]] + ys[1..];
    }
  }

  /** A sorted list stays sorted with an element in front that is not
      smaller than its head. */
  lemma SortedCons<T>(y: T, rest: seq<T>, key: T -> int)
    requires SortedDesc(rest, key)
    requires rest == [] || key(y) >= key(rest[0])
    ensures SortedDesc([y] + rest, key)
  {
    var r := [y] + rest;
    forall i, j | 0 <= i < j < |r| ensures key(r[i]) >= key(r[j]) {
      assert r[j] == rest[j - 1];
      if i > 0 {
        assert r[i] == rest[i - 1];
      } else if j > 1 {
        assert key(rest[0]) >= key(rest[j - 1]);
      }
    }
  }

  /** The sorted list: keys non-increasing, same elements. */
  function SortByKeyDesc<T>(xs: seq<T>, key: T -> int): (r: seq<T>)
    ensures |r| == |xs|
    ensures SortedDesc(r, key)
    ensures multiset(r) == multiset(xs)
    decreases |xs|
  {
    if xs == [] then []
    else
      assert xs == [xs[0]] + xs[1..];
      Insert(xs[0], SortByKeyDesc(xs[1..], key), key)
  }

  lemma {:induction false} InsertStable<T>(x: T, ys: seq<T>, key: T -> int, k: int)
    requires SortedDesc(ys, key)
    ensures Filter(Insert(x, ys, key), KeyIs(key, k)) == (if key(x) == k then [x] else []) + Filter(ys, KeyIs(key, k))
    decreases |ys|
  {
    if ys == [] || key(x) >= key(ys[0]) {
      FilterCons(x, ys, KeyIs(key, k));
    } else {
      SortedTail(ys, key);
      InsertStable(x, ys[1..], key, k);
      InsertBehindStable(x, ys, Insert(x, ys[1..], key), key, k);
    }
  }

  /** The inductive step of InsertStable when x goes behind the head y of ys:
      the filter of y + rest, where rest holds x and the tail of ys. */
  lemma InsertBehindStable<T>(x: T, ys: seq<T>, rest: seq<T>, key: T -> int, k: int)
    requires ys != [] && key(x) < key(ys[0])
    requires Filter(rest, KeyIs(key, k)) == (if key(x) == k then [x] else []) + Filter(ys[1..], KeyIs(key, k))
    ensures Filter([ys[0]] + rest, KeyIs(key, k)) == (if key(x) == k then [x] else []) + Filter(ys, KeyIs(key, k))
  {
    var p := KeyIs(key, k);
    var head: seq<T> := if p(ys[0]) then [ys[0]] else [];
    var mid: seq<T> := if key(x) == k then [x] else [];
    FilterCons(ys[0], rest, p);
    FilterHead(ys, p);
    assert head == [] || mid == [];
    SwapFront(head, mid, Filter(ys[1..], p));
  }

  lemma SwapFront<T>(a: seq<T>, b: seq<T>, t: seq<T>)
    requires a == [] || b == []
    ensures a + (b + t) == b + (a + t)
  {
    if a == [] {
      assert a + (b + t) == b + t;
    } else {
      assert b + (a + t) == a + t;
    }
  }

  /** Sorting what Dedup keeps only ever lists elements of the original. */
  lemma SortDedupMember<T>(xs: seq<T>, key: T -> int, x: T)
    requires x in SortByKeyDesc(Dedup(xs), key)
    ensures x in xs
  {
    var d := Dedup(xs);
    var r := SortByKeyDesc(d, key);
    assert x in multiset(r);
    assert x in multiset(d);
    var k :| 0 <= k < |d| && d[k] == x;
  }

  lemma FilterMember<T>(xs: seq<T>, p: T -> bool, x: T)
    requires x in Filter(xs, p)
    ensures x in xs && p(x)
  {
    var r := Filter(xs, p);
    var i :| 0 <= i < |r| && r[i] == x;
  }

  lemma FilterHead<T>(xs: seq<T>, p: T -> bool)
    requires xs != []
    ensures Filter(xs, p) == (if p(xs[0]) then [xs[0]] else []) + Filter(xs[1..], p)
  {
  }

  lemma FilterCons<T>(x: T, xs: seq<T>, p: T -> bool)
    ensures Filter([x] + xs, p) == (if p(x) then [x] else []) + Filter(xs, p)
  {
    assert ([x] + xs)[1..] == xs;
  }

  lemma SortedTail<T>(xs: seq<T>, key: T -> int)
    requires xs != [] && SortedDesc(xs, key)
    ensures SortedDesc(xs[1..], key)
  {
    var t := xs[1..];
    forall i, j | 0 <= i < j < |t| ensures key(t[i]) >= key(t[j]) {
      assert t[i] == xs[i + 1] && t[j] == xs[j + 1];
    }
  }

  /** Stability: for every key, the elements with that key keep their order. */
  lemma {:induction false} SortStable<T>(xs: seq<T>, key: T -> int, k: int)
    ensures Filter(SortByKeyDesc(xs, key), KeyIs(key, k)) == Filter(xs, KeyIs(key, k))
    decreases |xs|
  {
    if xs != [] {
      SortStable(xs[1..], key, k);
      InsertStable(xs[0], SortByKeyDesc(xs[1..], key), key, k);
    }
  }

  /** The first index holding the largest key: an independent argmax. */
  function FirstMaxIndex<T>(xs: seq<T>, key: T -> int): (i: nat)
    requires |xs| > 0
    ensures i < |xs|
    ensures forall j :: 0 <= j < |xs| ==> key(xs[j]) <= key(xs[i])
    ensures forall j :: 0 <= j < i ==> key(xs[j]) < key(xs[i])
    decreases |xs|
  {
    if |xs| == 1 then 0
    else
      var k := FirstMaxIndex(xs[1..], key);
      if key(xs[0]) >= key(xs[1..][k]) then 0 else k + 1
  }

  /** After the stable descending sort, the head is the first element of
      the input that has the largest key. */
  lemma SortHeadIsFirstMax<T>(xs: seq<T>, key: T -> int)
    requires |xs| > 0
    ensures SortByKeyDesc(xs, key)[0] == xs[FirstMaxIndex(xs, key)]
  {
    var r := SortByKeyDesc(xs, key);
    var m := FirstMaxIndex(xs, key);
    var p := KeyIs(key, key(xs[m]));
    SortHeadKey(xs, key);
    SortStable(xs, key, key(xs[m]));
    FilterFirst(r, p, 0);
    FilterFirst(xs, p, m);
  }

  /** The head of the sorted sequence carries the largest key. */
  lemma SortHeadKey<T>(xs: seq<T>, key: T -> int)
    requires |xs| > 0
    ensures key(SortByKeyDesc(xs, key)[0]) == key(xs[FirstMaxIndex(xs, key)])
  {
    var r := SortByKeyDesc(xs, key);
    var m := FirstMaxIndex(xs, key);
    assert r[0] in multiset(xs);
    var j :| 0 <= j < |xs| && xs[j] == r[0];
    assert xs[m] in multiset(r);
    var i :| 0 <= i < |r| && r[i] == xs[m];
  }

  // ---------------------------------------------------------------------
  // map with a guard, and keys that identify records

  /** `xs.map(x => p(x) ? f(x) : x)`: the record-update idiom of the store. */
  function MapWhere<T>(xs: seq<T>, p: T -> bool, f: T -> T): (r: seq<T>)
    ensures |r| == |xs|
  {
    seq(|xs|, i requires 0 <= i < |xs| => if p(xs[i]) then f(xs[i]) else xs[i])
  }

  /** No two elements share a key. */
  predicate UniqueBy<T, K(==)>(xs: seq<T>, key: T -> K) {
    forall i, j :: 0 <= i < j < |xs| ==> key(xs[i]) != key(xs[j])
  }

  /** Unique keys survive a filter. */
  lemma {:induction false} FilterUniqueBy<T, K>(xs: seq<T>, p: T -> bool, key: T -> K)
    requires UniqueBy(xs, key)
    ensures UniqueBy(Filter(xs, p), key)
    decreases |xs|
  {
    if xs != [] {
      var t := xs[1..];
      assert UniqueBy(t, key) by {
        forall i, j | 0 <= i < j < |t| ensures key(t[i]) != key(t[j]) {
          assert t[i] == xs[i + 1] && t[j] == xs[j + 1];
        }
      }
      FilterUniqueBy(t, p, key);
      var rest := Filter(t, p);
      if p(xs[0]) {
        forall k | 0 <= k < |rest| ensures key(rest[k]) != key(xs[0]) {
          var m :| 0 <= m < |t| && t[m] == rest[k];
          assert t[m] == xs[m + 1];
        }
        assert Filter(xs, p) == [xs[0]] + rest;
      } else {
        assert Filter(xs, p) == rest;
      }
    }
  }

  /** Appending an element whose key is new keeps keys unique. */
  lemma UniqueBySnoc<T, K>(xs: seq<T>, x: T, key: T -> K)
    requires UniqueBy(xs, key)
    requires forall i :: 0 <= i < |xs| ==> key(xs[i]) != key(x)
    ensures UniqueBy(xs + [x], key)
  {
    var r := xs + [x];
    forall i, j | 0 <= i < j < |r| ensures key(r[i]) != key(r[j]) {
      assert r[i] == xs[i];
      if j < |xs| {
        assert r[j] == xs[j];
      }
    }
  }

  /** Prepending an element whose key is new keeps keys unique. */
  lemma UniqueByCons<T, K>(x: T, xs: seq<T>, key: T -> K)
    requires UniqueBy(xs, key)
    requires forall i :: 0 <= i < |xs| ==> key(xs[i]) != key(x)
    ensures UniqueBy([x] + xs, key)
  {
    var r := [x] + xs;
    forall i, j | 0 <= i < j < |r| ensures key(r[i]) != key(r[j]) {
      assert r[j] == xs[j - 1];
      if i > 0 {
        assert r[i] == xs[i - 1];
      }
    }
  }

  /** A guarded update that never changes a key keeps the keys as they were. */
  lemma MapWhereKeepsKeys<T, K>(xs: seq<T>, p: T -> bool, f: T -> T, key: T -> K)
    requires forall i :: 0 <= i < |xs| && p(xs[i]) ==> key(f(xs[i])) == key(xs[i])
    ensures forall i :: 0 <= i < |xs| ==> key(MapWhere(xs, p, f)[i]) == key(xs[i])
    ensures UniqueBy(xs, key) ==> UniqueBy(MapWhere(xs, p, f), key)
  {
  }

  /** Every pair of elements, taken in order, is related by ok. */
  predicate Pairwise<T>(xs: seq<T>, ok: (T, T) -> bool) {
    forall i, j :: 0 <= i < j < |xs| ==> ok(xs[i], xs[j])
  }

  /** A property of every ordered pair survives a filter. */
  lemma {:induction false} FilterPairwise<T>(xs: seq<T>, p: T -> bool, ok: (T, T) -> bool)
    requires Pairwise(xs, ok)
    ensures Pairwise(Filter(xs, p), ok)
    decreases |xs|
  {
    if xs != [] {
      var t := xs[1..];
      PairwiseTail(xs, ok);
      FilterPairwise(t, p, ok);
      var rest := Filter(t, p);
      if p(xs[0]) {
        HeadRelatesToFiltered(xs, p, ok);
        PairwiseCons(xs[0], rest, ok);
        assert Filter(xs, p) == [xs[0]] + rest;
      } else {
        assert Filter(xs, p) == rest;
      }
    }
  }

  lemma PairwiseTail<T>(xs: seq<T>, ok: (T, T) -> bool)
    requires xs != [] && Pairwise(xs, ok)
    ensures Pairwise(xs[1..], ok)
  {
    var t := xs[1..];
    forall i, j | 0 <= i < j < |t| ensures ok(t[i], t[j]) {
      assert t[i] == xs[i + 1] && t[j] == xs[j + 1];
    }
  }

  lemma HeadRelatesToFiltered<T>(xs: seq<T>, p: T -> bool, ok: (T, T) -> bool)
    requires xs != [] && Pairwise(xs, ok)
    ensures forall k :: 0 <= k < |Filter(xs[1..], p)| ==> ok(xs[0], Filter(xs[1..], p)[k])
  {
    var t := xs[1..];
    var rest := Filter(t, p);
    forall k | 0 <= k < |rest| ensures ok(xs[0], rest[k]) {
      var m :| 0 <= m < |t| && t[m] == rest[k];
      assert t[m] == xs[m + 1];
    }
  }

  lemma PairwiseCons<T>(x: T, rest: seq<T>, ok: (T, T) -> bool)
    requires Pairwise(rest, ok)
    requires forall k :: 0 <= k < |rest| ==> ok(x, rest[k])
    ensures Pairwise([x] + rest, ok)
  {
    var r := [x] + rest;
    forall i, j | 0 <= i < j < |r| ensures ok(r[i], r[j]) {
      assert r[j] == rest[j - 1];
      if i > 0 {
        assert r[i] == rest[i - 1];
      }
    }
  }
}
