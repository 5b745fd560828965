/** Screening a list, one item at a time, in order: each item is checked
    against the keys of the items kept so far, and is either kept (its key
    joining the known set) or dropped with a reason.  This is the shape of
    the row loop of a bulk import, stated once for any check. */
module Screen {
  /** What checking one item gives. */
  datatype Verdict<D, X> = Keep(data: D) | Drop(reason: X)

  /** The kept values and the dropped items, each in input order. */
  datatype Split<D, F> = Split(kept: seq<D>, dropped: seq<F>)

  /** The keys of the kept values. */
  function Keys<D(==), K>(xs: seq<D>, key: D -> K): (r: set<K>)
    ensures forall d | d in xs :: key(d) in r
    ensures forall k | k in r :: exists d | d in xs :: key(d) == k
  {
    set d | d in xs :: key(d)
  }

  lemma KeysAppend<D, K>(xs: seq<D>, ys: seq<D>, key: D -> K)
    ensures Keys(xs + ys, key) == Keys(xs, key) + Keys(ys, key)
  {
    forall k | k in Keys(xs + ys, key) ensures k in Keys(xs, key) + Keys(ys, key) {
      var d :| d in xs + ys && key(d) == k;
    }
  }

  lemma KeysCons<D, K>(seen: set<K>, d: D, xs: seq<D>, key: D -> K)
    ensures seen + {key(d)} + Keys(xs, key) == seen + Keys([d] + xs, key)
  {
    KeysAppend([d], xs, key);
    assert Keys([d], key) == {key(d)};
  }

  /** The loop, head first, threading the known set. */
  function Run<R, D, X, F, K>(rows: seq<R>, seen: set<K>, check: (R, set<K>) -> Verdict<D, X>,
                              key: D -> K, fail: (R, X) -> F): Split<D, F>
    decreases |rows|
  {
    if |rows| == 0 then Split([], [])
    else
      match check(rows[0], seen)
      case Keep(d) =>
        var tail := Run(rows[1..], seen + {key(d)}, check, key, fail);
        Split([d] + tail.kept, tail.dropped)
      case Drop(x) =>
        var tail := Run(rows[1..], seen, check, key, fail);
        Split(tail.kept, [fail(rows[0], x)] + tail.dropped)
  }

  /** Running over `a` and then over `b`, the known set grown by what `a`
      kept. */
  function RunThen<R, D(==), X, F, K>(a: seq<R>, b: seq<R>, seen: set<K>, check: (R, set<K>) -> Verdict<D, X>,
                                      key: D -> K, fail: (R, X) -> F): Split<D, F> {
    var ra := Run(a, seen, check, key, fail);
    var rb := Run(b, seen + Keys(ra.kept, key), check, key, fail);
    Split(ra.kept + rb.kept, ra.dropped + rb.dropped)
  }

  /** Running over `a + b` is running over `a` and then over `b`. */
  lemma {:induction false} RunAppend<R, D, X, F, K>(a: seq<R>, b: seq<R>, seen: set<K>,
                                                        check: (R, set<K>) -> Verdict<D, X>, key: D -> K, fail: (R, X) -> F)
    ensures Run(a + b, seen, check, key, fail) == RunThen(a, b, seen, check, key, fail)
    decreases |a|
  {
    if |a| == 0 {
      assert a + b == b;
      assert seen + Keys([], key) == seen;
    } else {
      var v := check(a[0], seen);
      if v.Keep? {
        RunAppend(a[1..], b, seen + {key(v.data)}, check, key, fail);
        AppendKept(a, b, seen, check, key, fail);
      } else {
        RunAppend(a[1..], b, seen, check, key, fail);
        AppendDropped(a, b, seen, check, key, fail);
      }
    }
  }

  lemma AppendKept<R, D, X, F, K>(a: seq<R>, b: seq<R>, seen: set<K>,
                                      check: (R, set<K>) -> Verdict<D, X>, key: D -> K, fail: (R, X) -> F)
    requires |a| > 0 && check(a[0], seen).Keep?
    requires var seen1 := seen + {key(check(a[0], seen).data)};
      Run(a[1..] + b, seen1, check, key, fail) == RunThen(a[1..], b, seen1, check, key, fail)
    ensures Run(a + b, seen, check, key, fail) == RunThen(a, b, seen, check, key, fail)
  {
    var ab := a + b;
    assert ab[0] == a[0];
    assert ab[1..] == a[1..] + b;
    var d := check(a[0], seen).data;
    var seen1 := seen + {key(d)};
    var tail := Run(a[1..], seen1, check, key, fail);
    var rb := Run(b, seen1 + Keys(tail.kept, key), check, key, fail);
    KeysCons(seen, d, tail.kept, key);
    assert [d] + (tail.kept + rb.kept) == ([d] + tail.kept) + rb.kept;
  }

  lemma AppendDropped<R, D, X, F, K>(a: seq<R>, b: seq<R>, seen: set<K>,
                                         check: (R, set<K>) -> Verdict<D, X>, key: D -> K, fail: (R, X) -> F)
    requires |a| > 0 && check(a[0], seen).Drop?
    requires Run(a[1..] + b, seen, check, key, fail) == RunThen(a[1..], b, seen, check, key, fail)
    ensures Run(a + b, seen, check, key, fail) == RunThen(a, b, seen, check, key, fail)
  {
    var ab := a + b;
    assert ab[0] == a[0];
    assert ab[1..] == a[1..] + b;
    var f := fail(a[0], check(a[0], seen).reason);
    var tail := Run(a[1..], seen, check, key, fail);
    var rb := Run(b, seen + Keys(tail.kept, key), check, key, fail);
    assert [f] + (tail.dropped + rb.dropped) == ([f] + tail.dropped) + rb.dropped;
  }

  /** The keys known when item `i` is checked. */
  function Known<R, D(==), X, F, K>(rows: seq<R>, seen: set<K>, check: (R, set<K>) -> Verdict<D, X>,
                                    key: D -> K, fail: (R, X) -> F, i: nat): set<K>
    requires i <= |rows|
  {
    seen + Keys(Run(rows[..i], seen, check, key, fail).kept, key)
  }

  /** Item by item: item `i` adds its verdict, taken against the keys known
      at that point, to the end of the kept or the dropped list. */
  lemma RunRow<R, D, X, F, K>(rows: seq<R>, seen: set<K>, check: (R, set<K>) -> Verdict<D, X>,
                                  key: D -> K, fail: (R, X) -> F, i: nat)
    requires i < |rows|
    ensures var before := Run(rows[..i], seen, check, key, fail);
      var after := Run(rows[..i + 1], seen, check, key, fail);
      var v := check(rows[i], Known(rows, seen, check, key, fail, i));
      && after.kept == before.kept + (if v.Keep? then [v.data] else [])
      && after.dropped == before.dropped + (if v.Keep? then [] else [fail(rows[i], v.reason)])
  {
    assert rows[..i + 1] == rows[..i] + [rows[i]];
    RunAppend(rows[..i], [rows[i]], seen, check, key, fail);
    var known := Known(rows, seen, check, key, fail, i);
    RunOne(rows[i], known, check, key, fail);
  }

  lemma RunOne<R, D, X, F, K>(row: R, seen: set<K>, check: (R, set<K>) -> Verdict<D, X>, key: D -> K, fail: (R, X) -> F)
    ensures var v := check(row, seen);
      Run([row], seen, check, key, fail) == if v.Keep? then Split([v.data], []) else Split([], [fail(row, v.reason)])
  {
    assert [row][1..] == [];
  }

  /** Each step keeps what was known and, when it keeps its item, adds that
      item's key. */
  lemma KnownGrows<R, D, X, F, K>(rows: seq<R>, seen: set<K>, check: (R, set<K>) -> Verdict<D, X>,
                                      key: D -> K, fail: (R, X) -> F, i: nat)
    requires i < |rows|
    ensures var v := check(rows[i], Known(rows, seen, check, key, fail, i));
      && Known(rows, seen, check, key, fail, i) <= Known(rows, seen, check, key, fail, i + 1)
      && (v.Keep? ==> key(v.data) in Known(rows, seen, check, key, fail, i + 1))
  {
    RunRow(rows, seen, check, key, fail, i);
    var before := Run(rows[..i], seen, check, key, fail).kept;
    var v := check(rows[i], Known(rows, seen, check, key, fail, i));
    KeysAppend(before, if v.Keep? then [v.data] else [], key);
  }

  /** The key of an item kept at position `j` is known at every later
      position. */
  lemma {:induction false} KeptStaysKnown<R, D, X, F, K>(rows: seq<R>, seen: set<K>, check: (R, set<K>) -> Verdict<D, X>,
                                                              key: D -> K, fail: (R, X) -> F, j: nat, i: nat)
    requires j < i <= |rows|
    requires check(rows[j], Known(rows, seen, check, key, fail, j)).Keep?
    ensures key(check(rows[j], Known(rows, seen, check, key, fail, j)).data) in Known(rows, seen, check, key, fail, i)
    decreases i
  {
    KnownGrows(rows, seen, check, key, fail, i - 1);
    if j < i - 1 {
      KeptStaysKnown(rows, seen, check, key, fail, j, i - 1);
    }
  }
}
