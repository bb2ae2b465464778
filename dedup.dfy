/** The "skip it if its id is blank or already seen, otherwise remember the id and
    keep it" walk that every collection loop of the crawler performs
    (osm_one_location.py `parse_elements`, places_one_location.py `parse_results`,
    the legacy scraper's `parse_results` and the location builder's de-dup), stated
    once over any item type `T` and key type `K`. */
module Dedup {

  /** A Python `set` of ids that a caller creates and a callee grows in place. */
  class IdSet {
    var ids: set<string>

    constructor ()
      ensures ids == {}
    {
      ids := {};
    }
  }

  /** The walk itself: `xs` in order; an item is kept when its key is admissible and
      not yet in the running seen set, which then gains the key. Returns the kept
      items and the final seen set. */
  function Scan<T, K>(xs: seq<T>, key: T -> K, admit: K -> bool, seen: set<K>): (r: (seq<T>, set<K>))
    ensures seen <= r.1
    ensures forall i :: 0 <= i < |r.0| ==> admit(key(r.0[i])) && key(r.0[i]) in r.1 - seen
    ensures forall i, j :: 0 <= i < j < |r.0| ==> key(r.0[i]) != key(r.0[j])
    decreases |xs|
  {
    if xs == [] then ([], seen)
    else
      var prev := Scan(xs[..|xs| - 1], key, admit, seen);
      var x := xs[|xs| - 1];
      if admit(key(x)) && key(x) !in prev.1 then (prev.0 + [x], prev.1 + {key(x)}) else prev
  }

  /** One more item extends the walk by that item's step. */
  lemma ScanStep<T, K>(xs: seq<T>, i: nat, key: T -> K, admit: K -> bool, seen: set<K>)
    requires i < |xs|
    ensures var prev := Scan(xs[..i], key, admit, seen);
            var k := key(xs[i]);
            Scan(xs[..i + 1], key, admit, seen)
              == if admit(k) && k !in prev.1 then (prev.0 + [xs[i]], prev.1 + {k}) else prev
  {
    assert xs[..i + 1][..i] == xs[..i];
  }

  /** The admissible keys occurring in `xs`. */
  ghost function AdmittedKeys<T, K>(xs: seq<T>, key: T -> K, admit: K -> bool): set<K> {
    set i | 0 <= i < |xs| && admit(key(xs[i])) :: key(xs[i])
  }

  /** Reference definition of what the walk keeps: the item at position `j` is the
      first occurrence of an admissible key that was not seen before the walk. */
  ghost predicate FirstNewAt<T, K>(xs: seq<T>, key: T -> K, admit: K -> bool, seen: set<K>, j: int)
    requires 0 <= j < |xs|
  {
    && admit(key(xs[j]))
    && key(xs[j]) !in seen
    && forall i :: 0 <= i < j ==> key(xs[i]) != key(xs[j])
  }

  /** The items of `xs` at the positions where `FirstNewAt` holds, in input order. */
  ghost function FirstNew<T, K>(xs: seq<T>, key: T -> K, admit: K -> bool, seen: set<K>): seq<T>
    decreases |xs|
  {
    if xs == [] then []
    else
      FirstNew(xs[..|xs| - 1], key, admit, seen)
      + (if FirstNewAt(xs, key, admit, seen, |xs| - 1) then [xs[|xs| - 1]] else [])
  }

  lemma AdmittedKeysSnoc<T, K>(xs: seq<T>, key: T -> K, admit: K -> bool)
    requires xs != []
    ensures var k := key(xs[|xs| - 1]);
            AdmittedKeys(xs, key, admit) == AdmittedKeys(xs[..|xs| - 1], key, admit) + (if admit(k) then {k} else {})
  {
    var n := |xs|;
    var p := xs[..n - 1];
    var k := key(xs[n - 1]);
    forall y | y in AdmittedKeys(xs, key, admit)
      ensures y in AdmittedKeys(p, key, admit) + (if admit(k) then {k} else {})
    {
      var i :| 0 <= i < n && admit(key(xs[i])) && key(xs[i]) == y;
      if i < n - 1 {
        assert p[i] == xs[i];
      }
    }
    forall y | y in AdmittedKeys(p, key, admit)
      ensures y in AdmittedKeys(xs, key, admit)
    {
      var i :| 0 <= i < n - 1 && admit(key(p[i])) && key(p[i]) == y;
      assert xs[i] == p[i];
    }
  }

  /** After the walk, the seen set is the old one plus every admissible key of `xs`. */
  lemma {:induction false} ScanSeen<T, K>(xs: seq<T>, key: T -> K, admit: K -> bool, seen: set<K>)
    ensures Scan(xs, key, admit, seen).1 == seen + AdmittedKeys(xs, key, admit)
    decreases |xs|
  {
    if xs != [] {
      ScanSeen(xs[..|xs| - 1], key, admit, seen);
      AdmittedKeysSnoc(xs, key, admit);
    }
  }

  /** The walk keeps exactly the first occurrences of new admissible keys, in input
      order. */
  lemma {:induction false} ScanIsFirstNew<T, K>(xs: seq<T>, key: T -> K, admit: K -> bool, seen: set<K>)
    ensures Scan(xs, key, admit, seen).0 == FirstNew(xs, key, admit, seen)
    decreases |xs|
  {
    if xs != [] {
      var n := |xs|;
      var p := xs[..n - 1];
      ScanIsFirstNew(p, key, admit, seen);
      ScanSeen(p, key, admit, seen);
      var k := key(xs[n - 1]);
      if admit(k) {
        if k in AdmittedKeys(p, key, admit) {
          var i :| 0 <= i < n - 1 && admit(key(p[i])) && key(p[i]) == k;
          assert key(xs[i]) == k;
          assert !FirstNewAt(xs, key, admit, seen, n - 1);
        } else {
          forall i | 0 <= i < n - 1
            ensures key(xs[i]) != k
          {
            assert xs[i] == p[i];
          }
        }
      }
    }
  }

  /** Walking `xs + ys` is walking `xs`, then walking `ys` with the set that the first
      walk left behind: how one shared seen set threads through successive calls. */
  lemma {:induction false} ScanAppend<T, K>(xs: seq<T>, ys: seq<T>, key: T -> K, admit: K -> bool, seen: set<K>)
    ensures var first := Scan(xs, key, admit, seen);
            var second := Scan(ys, key, admit, first.1);
            Scan(xs + ys, key, admit, seen) == (first.0 + second.0, second.1)
    decreases |ys|
  {
    if ys == [] {
      assert xs + ys == xs;
      var first := Scan(xs, key, admit, seen);
      assert first.0 + [] == first.0;
    } else {
      var m := |ys|;
      var zs := xs + ys;
      assert zs[..|zs| - 1] == xs + ys[..m - 1];
      assert zs[|zs| - 1] == ys[m - 1];
      ScanAppend(xs, ys[..m - 1], key, admit, seen);
      var first := Scan(xs, key, admit, seen);
      var secondPrev := Scan(ys[..m - 1], key, admit, first.1);
      assert Scan(xs + ys[..m - 1], key, admit, seen) == (first.0 + secondPrev.0, secondPrev.1);
      var y := ys[m - 1];
      if admit(key(y)) && key(y) !in secondPrev.1 {
        assert (first.0 + secondPrev.0) + [y] == first.0 + (secondPrev.0 + [y]);
      }
    }
  }

  /** An item is kept by the walk over `xs + ys` only if its key is not kept by the
      walk over `xs` alone: the ids kept from the second part are new to the first. */
  lemma ScanAppendFresh<T, K>(xs: seq<T>, ys: seq<T>, key: T -> K, admit: K -> bool, seen: set<K>)
    ensures var first := Scan(xs, key, admit, seen);
            forall y :: y in Scan(ys, key, admit, first.1).0 ==> key(y) !in AdmittedKeys(xs, key, admit)
  {
    ScanSeen(xs, key, admit, seen);
  }

  /** Every kept item is the first occurrence, in `xs`, of a new admissible key: the
      walk never keeps a later duplicate in place of the earlier one. */
  lemma {:induction false} ScanKeepsFirstOccurrences<T, K>(xs: seq<T>, key: T -> K, admit: K -> bool, seen: set<K>)
    ensures var r := Scan(xs, key, admit, seen).0;
            forall i :: 0 <= i < |r| ==>
              exists j :: 0 <= j < |xs| && xs[j] == r[i] && FirstNewAt(xs, key, admit, seen, j)
    decreases |xs|
  {
    if xs != [] {
      var n := |xs|;
      var p := xs[..n - 1];
      ScanKeepsFirstOccurrences(p, key, admit, seen);
      ScanSeen(p, key, admit, seen);
      var prev := Scan(p, key, admit, seen);
      var r := Scan(xs, key, admit, seen).0;
      var x := xs[n - 1];
      var isNew := admit(key(x)) && key(x) !in prev.1;
      assert r == if isNew then prev.0 + [x] else prev.0;
      forall i | 0 <= i < |r|
        ensures exists j :: 0 <= j < |xs| && xs[j] == r[i] && FirstNewAt(xs, key, admit, seen, j)
      {
        if i < |prev.0| {
          var j :| 0 <= j < |p| && p[j] == prev.0[i] && FirstNewAt(p, key, admit, seen, j);
          FirstNewAtExtends(xs, key, admit, seen, j);
          assert xs[j] == r[i];
        } else {
          FirstNewAtLast(xs, key, admit, seen);
          assert xs[n - 1] == r[i];
        }
      }
    }
  }

  /** A first occurrence in a prefix stays one in the whole sequence. */
  lemma FirstNewAtExtends<T, K>(xs: seq<T>, key: T -> K, admit: K -> bool, seen: set<K>, j: nat)
    requires xs != [] && j < |xs| - 1 && FirstNewAt(xs[..|xs| - 1], key, admit, seen, j)
    ensures FirstNewAt(xs, key, admit, seen, j)
  {
    var p := xs[..|xs| - 1];
    forall m | 0 <= m < j ensures key(xs[m]) != key(xs[j]) {
      assert xs[m] == p[m];
    }
    assert xs[j] == p[j];
  }

  /** The last item is a first occurrence when the walk over the rest has not seen
      its admissible key. */
  lemma FirstNewAtLast<T, K>(xs: seq<T>, key: T -> K, admit: K -> bool, seen: set<K>)
    requires xs != []
    requires var x := xs[|xs| - 1];
             admit(key(x)) && key(x) !in Scan(xs[..|xs| - 1], key, admit, seen).1
    ensures FirstNewAt(xs, key, admit, seen, |xs| - 1)
  {
    var n := |xs|;
    var p := xs[..n - 1];
    var x := xs[n - 1];
    ScanSeen(p, key, admit, seen);
    forall m | 0 <= m < n - 1 ensures key(xs[m]) != key(x) {
      assert xs[m] == p[m];
      if admit(key(p[m])) {
        assert key(p[m]) in AdmittedKeys(p, key, admit);
      }
    }
  }

  /** The keys of the kept items are exactly the keys the walk added to the set. */
  lemma {:induction false} ScanKeptKeys<T, K>(xs: seq<T>, key: T -> K, admit: K -> bool, seen: set<K>)
    ensures var r := Scan(xs, key, admit, seen);
            (set i | 0 <= i < |r.0| :: key(r.0[i])) == r.1 - seen
    decreases |xs|
  {
    if xs != [] {
      var p := xs[..|xs| - 1];
      ScanKeptKeys(p, key, admit, seen);
      var prev := Scan(p, key, admit, seen);
      var r := Scan(xs, key, admit, seen);
      var x := xs[|xs| - 1];
      if admit(key(x)) && key(x) !in prev.1 {
        var n := |prev.0|;
        assert (set i | 0 <= i < |r.0| :: key(r.0[i])) == (set i | 0 <= i < n :: key(prev.0[i])) + {key(x)} by {
          forall i | 0 <= i < n ensures r.0[i] == prev.0[i] { }
          assert r.0[n] == x;
        }
      }
    }
  }

  /** The items of `f(x)` for every `x` of `xs`, in order: the stream a nested
      "for each x, for each result of x" loop walks. */
  function FlatMap<T, U>(xs: seq<T>, f: T -> seq<U>): seq<U>
    decreases |xs|
  {
    if xs == [] then [] else FlatMap(xs[..|xs| - 1], f) + f(xs[|xs| - 1])
  }

  /** Walking one more item appends its results. */
  lemma FlatMapStep<T, U>(xs: seq<T>, i: nat, f: T -> seq<U>)
    requires i < |xs|
    ensures FlatMap(xs[..i + 1], f) == FlatMap(xs[..i], f) + f(xs[i])
  {
    assert xs[..i + 1][..i] == xs[..i];
  }

  lemma {:induction false} FlatMapAtMostOne<T, U>(xs: seq<T>, f: T -> seq<U>)
    requires forall x :: |f(x)| <= 1
    ensures |FlatMap(xs, f)| <= |xs|
    decreases |xs|
  {
    if xs != [] {
      FlatMapAtMostOne(xs[..|xs| - 1], f);
    }
  }

  /** What an item yields appears in the whole result. */
  lemma {:induction false} FlatMapContains<T, U>(xs: seq<T>, f: T -> seq<U>, i: nat, u: U)
    requires i < |xs| && u in f(xs[i])
    ensures u in FlatMap(xs, f)
    decreases |xs|
  {
    if i < |xs| - 1 {
      assert xs[..|xs| - 1][i] == xs[i];
      FlatMapContains(xs[..|xs| - 1], f, i, u);
    }
  }

  lemma {:induction false} FlatMapAppend<T, U>(xs: seq<T>, ys: seq<T>, f: T -> seq<U>)
    ensures FlatMap(xs + ys, f) == FlatMap(xs, f) + FlatMap(ys, f)
    decreases |ys|
  {
    if ys == [] {
      assert xs + ys == xs;
      assert FlatMap(xs, f) + [] == FlatMap(xs, f);
    } else {
      var n := |ys|;
      var zs := xs + ys;
      assert zs[..|zs| - 1] == xs + ys[..n - 1];
      assert zs[|zs| - 1] == ys[n - 1];
      FlatMapAppend(xs, ys[..n - 1], f);
      var a, b := FlatMap(xs, f), FlatMap(ys[..n - 1], f);
      assert (a + b) + f(ys[n - 1]) == a + (b + f(ys[n - 1]));
    }
  }

  /** An item that contributes nothing can be dropped without changing the stream. */
  lemma FlatMapSkipEmpty<T, U>(xs: seq<T>, f: T -> seq<U>, k: nat)
    requires k < |xs| && f(xs[k]) == []
    ensures FlatMap(xs, f) == FlatMap(xs[..k] + xs[k + 1..], f)
  {
    assert xs == xs[..k] + [xs[k]] + xs[k + 1..];
    FlatMapAppend(xs[..k] + [xs[k]], xs[k + 1..], f);
    FlatMapAppend(xs[..k], [xs[k]], f);
    FlatMapAppend(xs[..k], xs[k + 1..], f);
    assert [xs[k]][..0] == [];
    assert FlatMap([xs[k]], f) == [];
    assert FlatMap(xs[..k], f) + [] == FlatMap(xs[..k], f);
  }
}
