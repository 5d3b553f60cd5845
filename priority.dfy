/**
 * The order both interceptor chains keep their sorted sets in (`SortByPriority` in Ranger.cs and,
 * identically, in EndRanger.cs): ascending priority, ties broken by ascending registration id.
 * Insertion into a sorted set follows `SortedSet.Add`, which ignores an element that compares equal
 * to one already present.
 */
module Priority {
  import opened Basics

  /** `SortByPriority.Compare` on the (priority, id) pairs of two records. */
  function Compare(p1: real, id1: int, p2: real, id2: int): (c: int)
    ensures c == 0 <==> p1 == p2 && id1 == id2
    ensures c < 0 <==> p1 < p2 || (p1 == p2 && id1 < id2)
    ensures c > 0 <==> p1 > p2 || (p1 == p2 && id1 > id2)
    ensures c in {-1, 0, 1}
  {
    if p1 > p2 then 1
    else if p1 < p2 then -1
    else if id1 > id2 then 1
    else if id1 < id2 then -1
    else 0
  }

  /** Swapping the arguments flips the sign. */
  lemma CompareAntisymmetric(p1: real, id1: int, p2: real, id2: int)
    ensures Compare(p1, id1, p2, id2) == -Compare(p2, id2, p1, id1)
  {
  }

  /** Strictly-before is transitive. */
  lemma CompareTransitive(p1: real, id1: int, p2: real, id2: int, p3: real, id3: int)
    requires Compare(p1, id1, p2, id2) < 0 && Compare(p2, id2, p3, id3) < 0
    ensures Compare(p1, id1, p3, id3) < 0
  {
  }

  /** Strictly ascending by (priority, id): the invariant of a `SortedSet` built with `SortByPriority`. */
  ghost predicate Sorted<T>(xs: seq<T>, prio: T -> real, id: T -> int)
  {
    forall i, j :: 0 <= i < j < |xs| ==> Compare(prio(xs[i]), id(xs[i]), prio(xs[j]), id(xs[j])) < 0
  }

  /** `SortedSet.Add`: insert before the first greater element; an element comparing equal is kept instead. */
  function Insert<T>(xs: seq<T>, x: T, prio: T -> real, id: T -> int): (r: seq<T>)
    ensures |xs| <= |r| <= |xs| + 1
    ensures |r| == |xs| + 1 ==> x in r
  {
    if xs == [] then [x]
    else
      var c := Compare(prio(x), id(x), prio(xs[0]), id(xs[0]));
      if c < 0 then [x] + xs
      else if c == 0 then xs
      else [xs[0]] + Insert(xs[1..], x, prio, id)
  }

  /** Inserting into a sorted set keeps it sorted. */
  lemma {:induction false} InsertKeepsSorted<T>(xs: seq<T>, x: T, prio: T -> real, id: T -> int)
    requires Sorted(xs, prio, id)
    ensures Sorted(Insert(xs, x, prio, id), prio, id)
  {
    if xs != [] {
      var h := xs[0];
      var c := Compare(prio(x), id(x), prio(h), id(h));
      if c > 0 {
        var rest := xs[1..];
        InsertKeepsSorted(rest, x, prio, id);
        var ins := Insert(rest, x, prio, id);
        InsertElements(rest, x, prio, id);
        forall k | 0 <= k < |ins|
          ensures Compare(prio(h), id(h), prio(ins[k]), id(ins[k])) < 0
        {
          assert ins[k] in multiset(ins);
          if ins[k] != x {
            assert ins[k] in multiset(rest);
            var m :| 0 <= m < |rest| && rest[m] == ins[k];
            assert xs[m + 1] == ins[k];
          }
        }
        ConsSorted(h, ins, prio, id);
      } else if c < 0 {
        forall k | 0 <= k < |xs| ensures Compare(prio(x), id(x), prio(xs[k]), id(xs[k])) < 0 {
          if k > 0 {
            CompareTransitive(prio(x), id(x), prio(h), id(h), prio(xs[k]), id(xs[k]));
          }
        }
        ConsSorted(x, xs, prio, id);
      }
    }
  }

  /** Inserting an element that compares equal to none already present adds exactly that element. */
  lemma {:induction false} InsertAddsOne<T>(xs: seq<T>, x: T, prio: T -> real, id: T -> int)
    requires forall i :: 0 <= i < |xs| ==> Compare(prio(x), id(x), prio(xs[i]), id(xs[i])) != 0
    ensures multiset(Insert(xs, x, prio, id)) == multiset(xs) + multiset{x}
  {
    if xs != [] {
      assert xs == [xs[0]] + xs[1..];
      InsertAddsOne(xs[1..], x, prio, id);
    }
  }

  lemma ConsSorted<T>(h: T, ys: seq<T>, prio: T -> real, id: T -> int)
    requires Sorted(ys, prio, id)
    requires forall k :: 0 <= k < |ys| ==> Compare(prio(h), id(h), prio(ys[k]), id(ys[k])) < 0
    ensures Sorted([h] + ys, prio, id)
  {
    var zs := [h] + ys;
    forall i, j | 0 <= i < j < |zs|
      ensures Compare(prio(zs[i]), id(zs[i]), prio(zs[j]), id(zs[j])) < 0
    {
      assert zs[j] == ys[j - 1];
      if i > 0 {
        assert zs[i] == ys[i - 1];
      }
    }
  }

  /** The insertion holds the old elements and possibly the new one, nothing else. */
  lemma {:induction false} InsertElements<T>(xs: seq<T>, x: T, prio: T -> real, id: T -> int)
    ensures multiset(Insert(xs, x, prio, id)) <= multiset(xs) + multiset{x}
  {
    if xs != [] {
      assert xs == [xs[0]] + xs[1..];
      InsertElements(xs[1..], x, prio, id);
    }
  }

  /** A filtered walk over a sorted set visits its elements in ascending order. */
  lemma {:induction false} FilterSorted<T>(xs: seq<T>, p: T -> bool, prio: T -> real, id: T -> int)
    requires Sorted(xs, prio, id)
    ensures Sorted(Filter(xs, p), prio, id)
  {
    if xs != [] {
      var n := |xs| - 1;
      var front, last := xs[..n], xs[n];
      assert Sorted(front, prio, id) by {
        forall i, j | 0 <= i < j < |front| ensures Compare(prio(front[i]), id(front[i]), prio(front[j]), id(front[j])) < 0 {
          assert front[i] == xs[i] && front[j] == xs[j];
        }
      }
      FilterSorted(front, p, prio, id);
      var f := Filter(front, p);
      if p(last) {
        assert Filter(xs, p) == f + [last];
        FilterMembers(front, p);
        forall k | 0 <= k < |f| ensures Compare(prio(f[k]), id(f[k]), prio(last), id(last)) < 0 {
          assert f[k] in front;
          var m :| 0 <= m < |front| && front[m] == f[k];
          assert xs[m] == f[k];
        }
        SnocSorted(f, last, prio, id);
      } else {
        assert Filter(xs, p) == f;
      }
    }
  }

  lemma SnocSorted<T>(ys: seq<T>, x: T, prio: T -> real, id: T -> int)
    requires Sorted(ys, prio, id)
    requires forall k :: 0 <= k < |ys| ==> Compare(prio(ys[k]), id(ys[k]), prio(x), id(x)) < 0
    ensures Sorted(ys + [x], prio, id)
  {
    var zs := ys + [x];
    forall i, j | 0 <= i < j < |zs|
      ensures Compare(prio(zs[i]), id(zs[i]), prio(zs[j]), id(zs[j])) < 0
    {
      assert zs[i] == ys[i];
    }
  }

  /** Inserting before every element puts the new element first. */
  lemma InsertFirst<T>(xs: seq<T>, x: T, prio: T -> real, id: T -> int)
    requires forall k :: 0 <= k < |xs| ==> Compare(prio(x), id(x), prio(xs[k]), id(xs[k])) < 0
    ensures Insert(xs, x, prio, id) == [x] + xs
  {
  }

  /**
   * Filtering commutes with insertion into a sorted set: a filtered view of the set is the set
   * of the filtered elements, with the new element where it belongs when the filter keeps it.
   */
  lemma {:induction false} InsertFilter<T>(xs: seq<T>, x: T, p: T -> bool, prio: T -> real, id: T -> int)
    requires Sorted(xs, prio, id)
    requires forall k :: 0 <= k < |xs| ==> Compare(prio(x), id(x), prio(xs[k]), id(xs[k])) != 0
    ensures Filter(Insert(xs, x, prio, id), p) == if p(x) then Insert(Filter(xs, p), x, prio, id) else Filter(xs, p)
  {
    if xs == [] {
      assert Insert(xs, x, prio, id) == [x];
      assert [x][..0] == [];
    } else if Compare(prio(x), id(x), prio(xs[0]), id(xs[0])) < 0 {
      InsertFilterBefore(xs, x, p, prio, id);
    } else {
      var rest := xs[1..];
      assert Sorted(rest, prio, id) by {
        forall i, j | 0 <= i < j < |rest|
          ensures Compare(prio(rest[i]), id(rest[i]), prio(rest[j]), id(rest[j])) < 0
        {
          assert rest[i] == xs[i + 1] && rest[j] == xs[j + 1];
        }
      }
      forall k | 0 <= k < |rest| ensures Compare(prio(x), id(x), prio(rest[k]), id(rest[k])) != 0 {
        assert rest[k] == xs[k + 1];
      }
      InsertFilter(rest, x, p, prio, id);
      InsertFilterAfter(xs, x, p, prio, id);
    }
  }

  lemma InsertFilterBefore<T>(xs: seq<T>, x: T, p: T -> bool, prio: T -> real, id: T -> int)
    requires Sorted(xs, prio, id) && xs != []
    requires Compare(prio(x), id(x), prio(xs[0]), id(xs[0])) < 0
    ensures Filter(Insert(xs, x, prio, id), p) == if p(x) then Insert(Filter(xs, p), x, prio, id) else Filter(xs, p)
  {
    var h := xs[0];
    assert Insert(xs, x, prio, id) == [x] + xs;
    FilterConcat([x], xs, p);
    assert [x][..0] == [];
    if p(x) {
      var f := Filter(xs, p);
      FilterMembers(xs, p);
      forall k | 0 <= k < |f| ensures Compare(prio(x), id(x), prio(f[k]), id(f[k])) < 0 {
        var m :| 0 <= m < |xs| && xs[m] == f[k];
        if m > 0 {
          CompareTransitive(prio(x), id(x), prio(h), id(h), prio(xs[m]), id(xs[m]));
        }
      }
      InsertFirst(f, x, prio, id);
    }
  }

  lemma InsertFilterAfter<T>(xs: seq<T>, x: T, p: T -> bool, prio: T -> real, id: T -> int)
    requires xs != [] && Compare(prio(x), id(x), prio(xs[0]), id(xs[0])) > 0
    requires var rest := xs[1..];
      Filter(Insert(rest, x, prio, id), p) == if p(x) then Insert(Filter(rest, p), x, prio, id) else Filter(rest, p)
    ensures Filter(Insert(xs, x, prio, id), p) == if p(x) then Insert(Filter(xs, p), x, prio, id) else Filter(xs, p)
  {
    var h, rest := xs[0], xs[1..];
    assert xs == [h] + rest;
    var ins := Insert(rest, x, prio, id);
    var fr, fi := Filter(rest, p), Filter(ins, p);
    assert Insert(xs, x, prio, id) == [h] + ins;
    FilterCons(h, rest, p);
    FilterCons(h, ins, p);
    var fx := Filter(xs, p);
    var fxi := Filter(Insert(xs, x, prio, id), p);
    if p(h) {
      assert fx == [h] + fr && fxi == [h] + fi;
      if p(x) {
        assert fi == Insert(fr, x, prio, id);
        assert ([h] + fr)[0] == h && ([h] + fr)[1..] == fr;
        assert Insert([h] + fr, x, prio, id) == [h] + Insert(fr, x, prio, id);
        assert fxi == Insert(fx, x, prio, id);
      } else {
        assert fxi == fx;
      }
    } else {
      assert fx == fr && fxi == fi;
    }
  }

  lemma FilterCons<T>(h: T, ys: seq<T>, p: T -> bool)
    ensures Filter([h] + ys, p) == (if p(h) then [h] else []) + Filter(ys, p)
  {
    assert Filter([h], p) == if p(h) then [h] else [] by {
      assert [h][..0] == [];
    }
    FilterConcat([h], ys, p);
  }

  /** In a strictly sorted set no two positions compare equal, so no element occurs twice. */
  lemma SortedNeverTie<T>(xs: seq<T>, prio: T -> real, id: T -> int)
    requires Sorted(xs, prio, id)
    ensures forall i, j :: 0 <= i < |xs| && 0 <= j < |xs| && i != j ==> Compare(prio(xs[i]), id(xs[i]), prio(xs[j]), id(xs[j])) != 0
    ensures Distinct(xs)
  {
    forall i, j | 0 <= i < |xs| && 0 <= j < |xs| && i != j
      ensures Compare(prio(xs[i]), id(xs[i]), prio(xs[j]), id(xs[j])) != 0
    {
      if j < i {
        CompareAntisymmetric(prio(xs[j]), id(xs[j]), prio(xs[i]), id(xs[i]));
      }
    }
  }

  /** Inserting an element whose id exceeds every id present adds it, and the ids stay at most its id. */
  lemma InsertFresh<T>(xs: seq<T>, x: T, prio: T -> real, id: T -> int)
    requires forall i :: 0 <= i < |xs| ==> id(xs[i]) < id(x)
    ensures multiset(Insert(xs, x, prio, id)) == multiset(xs) + multiset{x}
    ensures forall i :: 0 <= i < |Insert(xs, x, prio, id)| ==> id(Insert(xs, x, prio, id)[i]) <= id(x)
  {
    InsertAddsOne(xs, x, prio, id);
    var ys := Insert(xs, x, prio, id);
    forall i | 0 <= i < |ys| ensures id(ys[i]) <= id(x) {
      assert ys[i] in multiset(ys);
      if ys[i] != x {
        assert ys[i] in multiset(xs);
        var m :| 0 <= m < |xs| && xs[m] == ys[i];
      }
    }
  }
}
