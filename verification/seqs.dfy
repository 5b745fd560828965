/** Generic facts about sequences used by the collection model: element-wise
    maps, duplicate-freedom, removal by key, first-occurrence deduplication
    and the "seen before" filter that finds repeated entries. */
module Seqs {
  import opened Wrappers

  /** Apply `f` to every element, keeping the order. */
  function Map<T, U>(xs: seq<T>, f: T -> U): (r: seq<U>)
    ensures |r| == |xs|
    ensures forall i | 0 <= i < |xs| :: r[i] == f(xs[i])
  {
    seq(|xs|, i requires 0 <= i < |xs| => f(xs[i]))
  }

  lemma MapAppend<T, U>(a: seq<T>, b: seq<T>, f: T -> U)
    ensures Map(a + b, f) == Map(a, f) + Map(b, f)
  {
    assert forall i | 0 <= i < |a + b| :: Map(a + b, f)[i] == (Map(a, f) + Map(b, f))[i];
  }

  lemma MapMultisetAppend<T, U>(a: seq<T>, y: T, f: T -> U)
    ensures multiset(Map(a + [y], f)) == multiset(Map(a, f)) + multiset{f(y)}
  {
    MapAppend(a, [y], f);
    assert Map([y], f) == [f(y)];
  }

  /** No value occurs twice. */
  predicate NoDuplicates<T(==)>(xs: seq<T>) {
    forall i, j | 0 <= i < j < |xs| :: xs[i] != xs[j]
  }

  /** Every value of the multiset occurs at most once. */
  ghost predicate AtMostOnce<T>(m: multiset<T>) {
    forall x | x in m :: m[x] <= 1
  }

  lemma NoDuplicatesCons<T>(a: T, t: seq<T>)
    ensures NoDuplicates([a] + t) <==> a !in t && NoDuplicates(t)
  {
    var xs := [a] + t;
    if a !in t && NoDuplicates(t) {
      forall i, j | 0 <= i < j < |xs| ensures xs[i] != xs[j] {
        if i == 0 {
          assert xs[j] == t[j - 1];
        } else {
          assert xs[i] == t[i - 1] && xs[j] == t[j - 1];
        }
      }
    }
    if NoDuplicates(xs) {
      forall k | 0 <= k < |t| ensures t[k] != a {
        assert xs[0] != xs[k + 1];
      }
      forall i, j | 0 <= i < j < |t| ensures t[i] != t[j] {
        assert t[i] == xs[i + 1] && t[j] == xs[j + 1];
      }
    }
  }

  /** Duplicate-freedom is the same as every multiplicity being at most one. */
  lemma {:induction false} NoDuplicatesIffAtMostOnce<T>(xs: seq<T>)
    ensures NoDuplicates(xs) <==> AtMostOnce(multiset(xs))
  {
    if |xs| == 0 {
    } else {
      var a, t := xs[0], xs[1..];
      assert xs == [a] + t;
      NoDuplicatesCons(a, t);
      NoDuplicatesIffAtMostOnce(t);
      assert multiset(xs) == multiset{a} + multiset(t);
      if AtMostOnce(multiset(xs)) {
        assert multiset(xs)[a] <= 1;
        assert a !in t;
        forall x | x in multiset(t) ensures multiset(t)[x] <= 1 {
          assert multiset(xs)[x] <= 1;
        }
      }
    }
  }

  /** A sub-multiset of a duplicate-free sequence is duplicate-free. */
  lemma NoDuplicatesSubMultiset<T>(xs: seq<T>, ys: seq<T>)
    requires NoDuplicates(xs)
    requires multiset(ys) <= multiset(xs)
    ensures NoDuplicates(ys)
  {
    NoDuplicatesIffAtMostOnce(xs);
    NoDuplicatesIffAtMostOnce(ys);
    forall x | x in multiset(ys) ensures multiset(ys)[x] <= 1 {
      assert multiset(xs)[x] <= 1;
    }
  }

  /** Appending values that were absent and are distinct among themselves
      keeps a sequence duplicate-free; stated on multisets so that it
      applies to any rearrangement. */
  lemma NoDuplicatesAddFresh<T>(xs: seq<T>, ys: seq<T>, zs: seq<T>)
    requires NoDuplicates(xs) && NoDuplicates(ys)
    requires forall y | y in ys :: y !in xs
    requires multiset(zs) == multiset(xs) + multiset(ys)
    ensures NoDuplicates(zs)
  {
    NoDuplicatesIffAtMostOnce(xs);
    NoDuplicatesIffAtMostOnce(ys);
    NoDuplicatesIffAtMostOnce(zs);
    forall x | x in multiset(zs) ensures multiset(zs)[x] <= 1 {
      assert multiset(xs)[x] <= 1 && multiset(ys)[x] <= 1;
      if x in ys {
        assert x !in xs;
      }
    }
  }

  /** The keys of a collection of documents are pairwise distinct. */
  predicate KeysUnique<T, K(==)>(xs: seq<T>, key: T -> K) {
    NoDuplicates(Map(xs, key))
  }

  /** Every element whose key is not in `ks`, in the original order: a batch
      of deletes by document id. */
  function Without<T, K(==)>(xs: seq<T>, key: T -> K, ks: set<K>): (r: seq<T>)
    ensures |r| <= |xs|
    decreases |xs|
  {
    if |xs| == 0 then []
    else if key(xs[0]) in ks then Without(xs[1..], key, ks)
    else [xs[0]] + Without(xs[1..], key, ks)
  }

  /** Exactly the elements whose key is not selected survive. */
  lemma {:induction false} WithoutMembers<T, K>(xs: seq<T>, key: T -> K, ks: set<K>)
    ensures forall y | y in Without(xs, key, ks) :: y in xs && key(y) !in ks
    ensures forall x | x in xs && key(x) !in ks :: x in Without(xs, key, ks)
    decreases |xs|
  {
    if |xs| > 0 {
      WithoutMembers(xs[1..], key, ks);
      assert xs == [xs[0]] + xs[1..];
    }
  }

  /** Nothing is removed when no key is selected. */
  lemma {:induction false} WithoutNothing<T, K>(xs: seq<T>, key: T -> K, ks: set<K>)
    requires forall x | x in xs :: key(x) !in ks
    ensures Without(xs, key, ks) == xs
    decreases |xs|
  {
    if |xs| > 0 {
      WithoutNothing(xs[1..], key, ks);
    }
  }

  /** Removing keys keeps a sub-multiset of any projection. */
  lemma {:induction false} WithoutSubMultiset<T, K, U>(xs: seq<T>, key: T -> K, ks: set<K>, f: T -> U)
    ensures multiset(Map(Without(xs, key, ks), f)) <= multiset(Map(xs, f))
    decreases |xs|
  {
    if |xs| > 0 {
      WithoutSubMultiset(xs[1..], key, ks, f);
      assert xs == [xs[0]] + xs[1..];
      MapAppend([xs[0]], xs[1..], f);
      if key(xs[0]) !in ks {
        MapAppend([xs[0]], Without(xs[1..], key, ks), f);
      }
    }
  }

  /** In a key-unique sequence no other element shares the key at `k`. */
  lemma OtherKeysDiffer<T, K>(xs: seq<T>, key: T -> K, k: nat)
    requires k < |xs|
    requires KeysUnique(xs, key)
    ensures forall i | 0 <= i < |xs| && i != k :: key(xs[i]) != key(xs[k])
  {
    var m := Map(xs, key);
    forall i | 0 <= i < |xs| && i != k ensures key(xs[i]) != key(xs[k]) {
      assert m[i] == key(xs[i]) && m[k] == key(xs[k]);
    }
  }

  /** Deleting a key held by the element at `k` alone cuts out exactly that
      element. */
  lemma {:induction false} WithoutOnlyKey<T, K>(xs: seq<T>, key: T -> K, k: nat)
    requires k < |xs|
    requires forall i | 0 <= i < |xs| && i != k :: key(xs[i]) != key(xs[k])
    ensures Without(xs, key, {key(xs[k])}) == xs[..k] + xs[k + 1..]
    decreases |xs|
  {
    var ks := {key(xs[k])};
    var t := xs[1..];
    if k == 0 {
      forall y | y in t ensures key(y) !in ks {
        var i :| 0 <= i < |t| && t[i] == y;
        assert xs[i + 1] == y;
      }
      WithoutNothing(t, key, ks);
    } else {
      assert t[k - 1] == xs[k];
      assert key(xs[0]) !in ks;
      forall i | 0 <= i < |t| && i != k - 1 ensures key(t[i]) != key(t[k - 1]) {
        assert t[i] == xs[i + 1];
      }
      WithoutOnlyKey(t, key, k - 1);
      assert Without(xs, key, ks) == [xs[0]] + (t[..k - 1] + t[k..]);
      assert xs[..k] == [xs[0]] + t[..k - 1];
      assert xs[k + 1..] == t[k..];
    }
  }



  /** Deleting one element's key from a key-unique sequence cuts out exactly
      that element. */
  lemma WithoutUniqueKey<T, K>(xs: seq<T>, key: T -> K, k: nat)
    requires k < |xs|
    requires KeysUnique(xs, key)
    ensures Without(xs, key, {key(xs[k])}) == xs[..k] + xs[k + 1..]
  {
    OtherKeysDiffer(xs, key, k);
    WithoutOnlyKey(xs, key, k);
  }


  /** Cutting one element out of a sequence removes its image from the
      multiset of images. */
  lemma MapSplice<T, U>(xs: seq<T>, k: nat, f: T -> U)
    requires k < |xs|
    ensures multiset(Map(xs[..k] + xs[k + 1..], f)) + multiset{f(xs[k])} == multiset(Map(xs, f))
  {
    var a, x, b := xs[..k], xs[k], xs[k + 1..];
    assert xs == a + [x] + b;
    MapAppend(a, b, f);
    MapAppend(a + [x], b, f);
    MapMultisetAppend(a, x, f);
  }

  /** Deleting one element's key from a key-unique sequence removes exactly
      that element. */
  lemma WithoutOne<T, K, U>(xs: seq<T>, key: T -> K, k: nat, f: T -> U)
    requires k < |xs|
    requires KeysUnique(xs, key)
    ensures multiset(Map(Without(xs, key, {key(xs[k])}), f)) + multiset{f(xs[k])} == multiset(Map(xs, f))
  {
    WithoutUniqueKey(xs, key, k);
    MapSplice(xs, k, f);
  }







  /** Appending an element with a new key keeps keys unique. */
  lemma AppendFreshKey<T, K>(xs: seq<T>, y: T, key: T -> K)
    requires KeysUnique(xs, key)
    requires key(y) !in Map(xs, key)
    ensures KeysUnique(xs + [y], key)
  {
    MapMultisetAppend(xs, y, key);
    NoDuplicatesAddFresh(Map(xs, key), [key(y)], Map(xs + [y], key));
  }

  /** Removing keys keeps keys unique. */
  lemma WithoutKeysUnique<T, K>(xs: seq<T>, key: T -> K, ks: set<K>)
    requires KeysUnique(xs, key)
    ensures KeysUnique(Without(xs, key, ks), key)
  {
    WithoutSubMultiset(xs, key, ks, key);
    NoDuplicatesSubMultiset(Map(xs, key), Map(Without(xs, key, ks), key));
  }

  /** Index of the first occurrence of `x`. */
  function FirstIndex<T(==)>(xs: seq<T>, x: T): (i: nat)
    requires x in xs
    ensures i < |xs| && xs[i] == x
    ensures forall j | 0 <= j < i :: xs[j] != x
  {
    if xs[0] == x then 0 else 1 + FirstIndex(xs[1..], x)
  }

  lemma FirstIndexPrefix<T>(xs: seq<T>, y: T, x: T)
    requires x in xs
    ensures FirstIndex(xs + [y], x) == FirstIndex(xs, x)
  {
    var i := FirstIndex(xs, x);
    var j := FirstIndex(xs + [y], x);
    assert (xs + [y])[i] == x;
  }

  /** Distinct values in order of first occurrence (`[...new Set(xs)]`). */
  function Dedupe<T(==)>(xs: seq<T>): (r: seq<T>)
    ensures NoDuplicates(r)
    ensures forall x | x in r :: x in xs
    ensures forall x | x in xs :: x in r
    ensures forall i, j | 0 <= i < j < |r| :: FirstIndex(xs, r[i]) < FirstIndex(xs, r[j])
    decreases |xs|
  {
    if |xs| == 0 then []
    else
      var init, last := xs[..|xs| - 1], xs[|xs| - 1];
      assert xs == init + [last];
      var p := Dedupe(init);
      FirstIndexesPrefix(init, last);
      if last in p then p
      else
        DedupeStep(init, last, p);
        p + [last]
  }

  /** Appending never moves the first occurrence of an earlier element. */
  lemma FirstIndexesPrefix<T>(init: seq<T>, last: T)
    ensures forall x | x in init :: FirstIndex(init + [last], x) == FirstIndex(init, x)
  {
    forall x | x in init ensures FirstIndex(init + [last], x) == FirstIndex(init, x) {
      FirstIndexPrefix(init, last, x);
    }
  }

  /** The step of `Dedupe` for an element not met before. */
  lemma DedupeStep<T>(init: seq<T>, last: T, p: seq<T>)
    requires last !in init
    requires NoDuplicates(p)
    requires forall x | x in p :: x in init
    requires forall i, j | 0 <= i < j < |p| :: FirstIndex(init, p[i]) < FirstIndex(init, p[j])
    ensures var xs := init + [last];
            var r := p + [last];
            && NoDuplicates(r)
            && (forall i, j | 0 <= i < j < |r| :: FirstIndex(xs, r[i]) < FirstIndex(xs, r[j]))
  {
    var xs := init + [last];
    var r := p + [last];
    FirstIndexesPrefix(init, last);
    assert NoDuplicates(r) by {
      forall i, j | 0 <= i < j < |r| ensures r[i] != r[j] {
        if j == |p| { assert r[i] == p[i]; }
      }
    }
    assert FirstIndex(xs, last) == |init| by {
      assert xs[|init|] == last;
    }
    forall i, j | 0 <= i < j < |r| ensures FirstIndex(xs, r[i]) < FirstIndex(xs, r[j]) {
      assert r[i] == p[i] && r[i] in init;
      if j < |p| {
        assert r[j] == p[j] && r[j] in init;
      }
    }
  }

  /** The entries equal to some earlier entry, in input order: the
      `xs.filter((x, i) => xs.indexOf(x) !== i)` idiom. */
  function SeenBefore<T(==)>(xs: seq<T>): (r: seq<T>)
    decreases |xs|
  {
    if |xs| == 0 then []
    else
      var init, last := xs[..|xs| - 1], xs[|xs| - 1];
      SeenBefore(init) + (if last in init then [last] else [])
  }

  /** An entry is "seen before" somewhere exactly when it occurs at least twice. */
  lemma {:induction false} SeenBeforeIffRepeated<T>(xs: seq<T>, x: T)
    ensures x in SeenBefore(xs) <==> multiset(xs)[x] >= 2
    decreases |xs|
  {
    if |xs| > 0 {
      var init, last := xs[..|xs| - 1], xs[|xs| - 1];
      assert xs == init + [last];
      SeenBeforeIffRepeated(init, x);
      assert multiset(xs) == multiset(init) + multiset{last};
      assert last in init <==> multiset(init)[last] >= 1;
    }
  }

  /** Position of the first element with key `k` (`findIndex`/`find`). */
  function FindIndex<T, K(==)>(xs: seq<T>, key: T -> K, k: K): (r: Option<nat>)
    ensures r.Some? ==> r.value < |xs| && key(xs[r.value]) == k
    ensures r.Some? ==> forall j | 0 <= j < r.value :: key(xs[j]) != k
    ensures r.None? <==> forall i | 0 <= i < |xs| :: key(xs[i]) != k
    decreases |xs|
  {
    if |xs| == 0 then None
    else if key(xs[0]) == k then Some(0)
    else
      var r := FindIndex(xs[1..], key, k);
      assert forall i | 1 <= i < |xs| :: xs[i] == xs[1..][i - 1];
      if r.None? then None else Some(r.value + 1)
  }

  /** `i` is the first position whose key is `k` (`find`). */
  predicate FirstWith<T, K(==)>(xs: seq<T>, key: T -> K, k: K, i: int) {
    && 0 <= i < |xs| && key(xs[i]) == k
    && forall j | 0 <= j < i :: key(xs[j]) != k
  }

  /** `FindIndex` returns the first position with the key, and no other. */
  lemma FindIndexFirst<T, K>(xs: seq<T>, key: T -> K, k: K)
    ensures forall i | FirstWith(xs, key, k, i) :: FindIndex(xs, key, k) == Some(i)
  {
    var r := FindIndex(xs, key, k);
    forall i | FirstWith(xs, key, k, i) ensures r == Some(i) {
      assert r.Some?;
    }
  }

  /** With unique keys, the element found is the only one with that key. */
  lemma FindIndexUnique<T, K>(xs: seq<T>, key: T -> K, i: nat)
    requires KeysUnique(xs, key)
    requires i < |xs|
    ensures FindIndex(xs, key, key(xs[i])) == Some(i)
  {
    var r := FindIndex(xs, key, key(xs[i]));
    assert Map(xs, key)[i] == key(xs[i]);
  }

  /** The elements satisfying `p`, in order (`filter`). */
  function Filter<T>(xs: seq<T>, p: T -> bool): (r: seq<T>)
    ensures |r| <= |xs|
    ensures forall y | y in r :: y in xs && p(y)
    ensures forall x | x in xs && p(x) :: x in r
    decreases |xs|
  {
    if |xs| == 0 then []
    else if p(xs[0]) then [xs[0]] + Filter(xs[1..], p)
    else Filter(xs[1..], p)
  }

  /** The keys of the selected elements are exactly the keys of the
      elements satisfying `p`. */
  lemma FilterKeys<T, K>(xs: seq<T>, p: T -> bool, key: T -> K)
    ensures forall i | 0 <= i < |xs| && p(xs[i]) :: key(xs[i]) in Map(Filter(xs, p), key)
    ensures forall k | k in Map(Filter(xs, p), key) :: exists i | 0 <= i < |xs| :: key(xs[i]) == k && p(xs[i])
  {
    var due := Filter(xs, p);
    var ks := Map(due, key);
    forall i | 0 <= i < |xs| && p(xs[i]) ensures key(xs[i]) in ks {
      assert xs[i] in xs;
      var j :| 0 <= j < |due| && due[j] == xs[i];
      assert ks[j] == key(xs[i]);
    }
    forall k | k in ks ensures exists i | 0 <= i < |xs| :: key(xs[i]) == k && p(xs[i]) {
      var j :| 0 <= j < |ks| && ks[j] == k;
      assert due[j] in due;
      var i :| 0 <= i < |xs| && xs[i] == due[j];
    }
  }

  /** `u` lists elements of `xs` in the order they first occur there. */
  predicate InFirstOrder<T(==)>(xs: seq<T>, u: seq<T>) {
    && (forall x | x in u :: x in xs)
    && forall i, j | 0 <= i < j < |u| :: FirstIndex(xs, u[i]) < FirstIndex(xs, u[j])
  }

  /** A filter keeps the elements in the order they first occur in `xs`. */
  lemma {:induction false} FilterKeepsFirstOrder<T>(xs: seq<T>, u: seq<T>, p: T -> bool)
    requires InFirstOrder(xs, u)
    ensures InFirstOrder(xs, Filter(u, p))
    decreases |u|
  {
    if |u| > 0 {
      FirstOrderTail(xs, u);
      FilterKeepsFirstOrder(xs, u[1..], p);
      if p(u[0]) {
        assert Filter(u, p) == [u[0]] + Filter(u[1..], p);
        ConsFirstOrder(xs, u, Filter(u[1..], p));
      }
    }
  }

  lemma FirstOrderTail<T>(xs: seq<T>, u: seq<T>)
    requires |u| > 0
    requires InFirstOrder(xs, u)
    ensures InFirstOrder(xs, u[1..])
  {
    var tail := u[1..];
    forall i, j | 0 <= i < j < |tail| ensures FirstIndex(xs, tail[i]) < FirstIndex(xs, tail[j]) {
      assert tail[i] == u[i + 1] && tail[j] == u[j + 1];
    }
  }

  /** Putting the head of `u` before elements drawn from its tail keeps the
      order. */
  lemma ConsFirstOrder<T>(xs: seq<T>, u: seq<T>, rest: seq<T>)
    requires |u| > 0
    requires InFirstOrder(xs, u)
    requires InFirstOrder(xs, rest)
    requires forall y | y in rest :: y in u[1..]
    ensures InFirstOrder(xs, [u[0]] + rest)
  {
    var r := [u[0]] + rest;
    forall i, j | 0 <= i < j < |r| ensures FirstIndex(xs, r[i]) < FirstIndex(xs, r[j]) {
      if i == 0 {
        assert r[j] == rest[j - 1];
        assert r[j] in u[1..];
        var k :| 0 <= k < |u[1..]| && u[1..][k] == r[j];
        assert u[k + 1] == r[j];
      } else {
        assert r[i] == rest[i - 1] && r[j] == rest[j - 1];
      }
    }
  }

  /** A filter keeps a sub-multiset of any projection. */
  lemma {:induction false} FilterSubMultiset<T, U>(xs: seq<T>, p: T -> bool, f: T -> U)
    ensures multiset(Map(Filter(xs, p), f)) <= multiset(Map(xs, f))
    decreases |xs|
  {
    if |xs| > 0 {
      FilterSubMultiset(xs[1..], p, f);
      assert xs == [xs[0]] + xs[1..];
      MapAppend([xs[0]], xs[1..], f);
      if p(xs[0]) {
        MapAppend([xs[0]], Filter(xs[1..], p), f);
      }
    }
  }

  /** Filtering by a predicate and by its negation splits the sequence. */
  lemma {:induction false} FilterPartition<T>(xs: seq<T>, p: T -> bool, q: T -> bool)
    requires forall i | 0 <= i < |xs| :: q(xs[i]) == !p(xs[i])
    ensures |Filter(xs, p)| + |Filter(xs, q)| == |xs|
    decreases |xs|
  {
    if |xs| > 0 {
      assert forall i | 0 <= i < |xs[1..]| :: xs[1..][i] == xs[i + 1];
      FilterPartition(xs[1..], p, q);
    }
  }

  /** The set of keys of a collection. */
  function KeySet<T, K>(xs: seq<T>, key: T -> K): (r: set<K>)
    ensures forall i | 0 <= i < |xs| :: key(xs[i]) in r
    ensures forall k | k in r :: exists i | 0 <= i < |xs| :: key(xs[i]) == k
  {
    set i | 0 <= i < |xs| :: key(xs[i])
  }

  /** Two key sets that agree on every key present delete the same elements. */
  lemma {:induction false} WithoutAgree<T, K>(xs: seq<T>, key: T -> K, a: set<K>, b: set<K>)
    requires forall i | 0 <= i < |xs| :: key(xs[i]) in a <==> key(xs[i]) in b
    ensures Without(xs, key, a) == Without(xs, key, b)
    decreases |xs|
  {
    if |xs| > 0 {
      assert forall i | 0 <= i < |xs[1..]| :: xs[1..][i] == xs[i + 1];
      WithoutAgree(xs[1..], key, a, b);
    }
  }

  /** Deleting the keys of the elements a filter selects, when the filter
      selects by key, deletes by that key set. */
  lemma WithoutSelected<T, K>(xs: seq<T>, key: T -> K, p: T -> bool, ks: set<K>)
    requires forall i | 0 <= i < |xs| :: p(xs[i]) <==> key(xs[i]) in ks
    ensures Without(xs, key, KeySet(Filter(xs, p), key)) == Without(xs, key, ks)
  {
    var sel := Filter(xs, p);
    forall i | 0 <= i < |xs| ensures key(xs[i]) in KeySet(sel, key) <==> key(xs[i]) in ks {
      if key(xs[i]) in ks {
        assert xs[i] in xs;
        var j :| 0 <= j < |sel| && sel[j] == xs[i];
      }
      if key(xs[i]) in KeySet(sel, key) {
        var j :| 0 <= j < |sel| && key(sel[j]) == key(xs[i]);
        assert sel[j] in sel;
        var k :| 0 <= k < |xs| && xs[k] == sel[j];
      }
    }
    WithoutAgree(xs, key, KeySet(sel, key), ks);
  }

  /** Two deletes in a row are one delete of both key sets. */
  lemma {:induction false} WithoutWithout<T, K>(xs: seq<T>, key: T -> K, a: set<K>, b: set<K>)
    ensures Without(Without(xs, key, a), key, b) == Without(xs, key, a + b)
    decreases |xs|
  {
    if |xs| > 0 {
      WithoutWithout(xs[1..], key, a, b);
    }
  }

  /** The tail of a key-unique sequence is key-unique and avoids the head's key. */
  lemma KeysUniqueTail<T, K>(xs: seq<T>, key: T -> K)
    requires |xs| > 0
    requires KeysUnique(xs, key)
    ensures KeysUnique(xs[1..], key)
    ensures forall j | 1 <= j < |xs| :: key(xs[j]) != key(xs[0])
  {
    var m, t := Map(xs, key), Map(xs[1..], key);
    assert forall i | 0 <= i < |t| :: t[i] == m[i + 1];
    forall j | 1 <= j < |xs| ensures key(xs[j]) != key(xs[0]) {
      assert m[0] != m[j];
    }
  }

  /** Deleting by key from an extended sequence. */
  lemma {:induction false} WithoutAppend<T, K>(xs: seq<T>, y: T, key: T -> K, ks: set<K>)
    ensures Without(xs + [y], key, ks) == Without(xs, key, ks) + (if key(y) in ks then [] else [y])
    decreases |xs|
  {
    if |xs| > 0 {
      assert (xs + [y])[1..] == xs[1..] + [y];
      WithoutAppend(xs[1..], y, key, ks);
    }
  }

  lemma KeySetCons<T, K>(xs: seq<T>, key: T -> K)
    requires |xs| > 0
    ensures KeySet(xs, key) == {key(xs[0])} + KeySet(xs[1..], key)
  {
    var t := xs[1..];
    forall k | k in KeySet(t, key) ensures k in KeySet(xs, key) {
      var i :| 0 <= i < |t| && key(t[i]) == k;
      assert t[i] == xs[i + 1];
    }
    forall k | k in KeySet(xs, key) ensures k in {key(xs[0])} + KeySet(t, key) {
      var i :| 0 <= i < |xs| && key(xs[i]) == k;
      if i > 0 {
        assert xs[i] == t[i - 1];
      }
    }
  }

  /** A filter that exactly one element passes yields that element. */
  lemma {:induction false} FilterSingle<T>(xs: seq<T>, p: T -> bool, k: nat)
    requires k < |xs| && p(xs[k])
    requires forall i | 0 <= i < |xs| && i != k :: !p(xs[i])
    ensures Filter(xs, p) == [xs[k]]
    decreases |xs|
  {
    var t := xs[1..];
    assert forall i | 0 <= i < |t| :: t[i] == xs[i + 1];
    if k == 0 {
      assert forall x | x in t :: !p(x);
      assert Filter(t, p) == [] by {
        FilterNone(t, p);
      }
    } else {
      FilterSingle(t, p, k - 1);
    }
  }

  lemma {:induction false} FilterNone<T>(xs: seq<T>, p: T -> bool)
    requires forall x | x in xs :: !p(x)
    ensures Filter(xs, p) == []
    decreases |xs|
  {
    if |xs| > 0 {
      assert xs[0] in xs;
      FilterNone(xs[1..], p);
    }
  }

  lemma {:induction false} FilterSame<T>(xs: seq<T>, p: T -> bool)
    requires forall x | x in xs :: p(x)
    ensures Filter(xs, p) == xs
    decreases |xs|
  {
    if |xs| > 0 {
      assert xs[0] in xs;
      assert forall x | x in xs[1..] :: x in xs;
      FilterSame(xs[1..], p);
    }
  }

  /** Position of the last element with key `k`: what a `new Map(...)`
      built from the sequence keeps for a repeated key. */
  function LastIndex<T, K(==)>(xs: seq<T>, key: T -> K, k: K): (r: Option<nat>)
    ensures r.Some? ==> r.value < |xs| && key(xs[r.value]) == k
    ensures r.Some? ==> forall j | r.value < j < |xs| :: key(xs[j]) != k
    ensures r.None? <==> forall i | 0 <= i < |xs| :: key(xs[i]) != k
    decreases |xs|
  {
    if |xs| == 0 then None
    else if key(xs[|xs| - 1]) == k then Some(|xs| - 1)
    else LastIndex(xs[..|xs| - 1], key, k)
  }

  lemma LastIndexUnique<T, K>(xs: seq<T>, key: T -> K, i: nat)
    requires KeysUnique(xs, key)
    requires i < |xs|
    ensures LastIndex(xs, key, key(xs[i])) == Some(i)
  {
    var r := LastIndex(xs, key, key(xs[i]));
    assert Map(xs, key)[i] == key(xs[i]);
  }

  /** Filtering a duplicate-free sequence leaves it duplicate-free. */
  lemma {:induction false} FilterNoDuplicates<T>(xs: seq<T>, p: T -> bool)
    requires NoDuplicates(xs)
    ensures NoDuplicates(Filter(xs, p))
    decreases |xs|
  {
    if |xs| > 0 {
      assert xs == [xs[0]] + xs[1..];
      NoDuplicatesCons(xs[0], xs[1..]);
      FilterNoDuplicates(xs[1..], p);
      if p(xs[0]) {
        NoDuplicatesCons(xs[0], Filter(xs[1..], p));
      }
    }
  }

  /** Three filters that every element passes exactly one of split the
      sequence. */
  lemma {:induction false} FilterPartition3<T>(xs: seq<T>, p: T -> bool, q: T -> bool, u: T -> bool)
    requires forall i | 0 <= i < |xs| :: (p(xs[i]) || q(xs[i]) || u(xs[i]))
    requires forall i | 0 <= i < |xs| :: !(p(xs[i]) && q(xs[i])) && !(p(xs[i]) && u(xs[i])) && !(q(xs[i]) && u(xs[i]))
    ensures |Filter(xs, p)| + |Filter(xs, q)| + |Filter(xs, u)| == |xs|
    decreases |xs|
  {
    if |xs| > 0 {
      assert forall i | 0 <= i < |xs[1..]| :: xs[1..][i] == xs[i + 1];
      FilterPartition3(xs[1..], p, q, u);
    }
  }
}
