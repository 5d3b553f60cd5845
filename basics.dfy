/** Small value types and sequence helpers shared by the other modules. */
module Basics {

  datatype Option<+T> = None | Some(value: T)

  datatype Result<+T, +E> = Ok(value: T) | Err(error: E)

  function Max(a: real, b: real): real
  {
    if a < b then b else a
  }

  lemma ConcatAssoc<T>(a: seq<T>, b: seq<T>, c: seq<T>)
    ensures (a + b) + c == a + (b + c)
  {
  }

  /** No element occurs twice. */
  ghost predicate Distinct<T>(xs: seq<T>)
  {
    forall i, j :: 0 <= i < j < |xs| ==> xs[i] != xs[j]
  }

  /** The elements of `xs` that satisfy `p`, in their order in `xs` (a C# `foreach` with a filtering `if`). */
  function Filter<T>(xs: seq<T>, p: T -> bool): (r: seq<T>)
    ensures |r| <= |xs|
  {
    if xs == [] then []
    else Filter(xs[..|xs| - 1], p) + (if p(xs[|xs| - 1]) then [xs[|xs| - 1]] else [])
  }

  /** The filter keeps exactly the elements that satisfy `p`. */
  lemma {:induction false} FilterMembers<T>(xs: seq<T>, p: T -> bool)
    ensures forall i :: 0 <= i < |Filter(xs, p)| ==> Filter(xs, p)[i] in xs && p(Filter(xs, p)[i])
    ensures forall i :: 0 <= i < |xs| && p(xs[i]) ==> xs[i] in Filter(xs, p)
  {
    if xs != [] {
      var n := |xs| - 1;
      FilterMembers(xs[..n], p);
      assert forall i :: 0 <= i < n ==> xs[..n][i] == xs[i];
    }
  }

  /** One more element at the end is kept or dropped on its own. */
  lemma FilterSnoc<T>(xs: seq<T>, x: T, p: T -> bool)
    ensures Filter(xs + [x], p) == Filter(xs, p) + (if p(x) then [x] else [])
  {
    assert (xs + [x])[..|xs|] == xs;
  }

  /** Filtering distributes over concatenation: the filter keeps the order of its input. */
  lemma {:induction false} FilterConcat<T>(xs: seq<T>, ys: seq<T>, p: T -> bool)
    ensures Filter(xs + ys, p) == Filter(xs, p) + Filter(ys, p)
  {
    if ys == [] {
      assert xs + ys == xs;
    } else {
      var n := |ys| - 1;
      assert (xs + ys)[..|xs + ys| - 1] == xs + ys[..n];
      assert (xs + ys)[|xs + ys| - 1] == ys[n];
      FilterConcat(xs, ys[..n], p);
    }
  }

  /** Filtering a sequence without duplicates gives a sequence without duplicates. */
  lemma {:induction false} FilterDistinct<T>(xs: seq<T>, p: T -> bool)
    requires Distinct(xs)
    ensures Distinct(Filter(xs, p))
  {
    if xs != [] {
      var n := |xs| - 1;
      FilterDistinct(xs[..n], p);
      FilterMembers(xs[..n], p);
      assert xs[n] !in xs[..n];
    }
  }

  /** Removes the first occurrence of `x` (C#'s `List.Remove`); no change when `x` is absent. */
  function RemoveFirst<T(==)>(xs: seq<T>, x: T): (r: seq<T>)
    ensures x !in xs ==> r == xs
    ensures x in xs ==> |r| == |xs| - 1
  {
    if xs == [] then []
    else if xs[0] == x then xs[1..]
    else [xs[0]] + RemoveFirst(xs[1..], x)
  }

  /** Exactly one copy of `x` goes, when there is one. */
  lemma {:induction false} RemoveFirstMultiset<T>(xs: seq<T>, x: T)
    ensures multiset(RemoveFirst(xs, x)) == multiset(xs) - multiset{x}
  {
    if xs != [] {
      assert xs == [xs[0]] + xs[1..];
      if xs[0] != x {
        RemoveFirstMultiset(xs[1..], x);
      }
    }
  }

  /** The head of a sequence without duplicates does not occur in its tail, which has none either. */
  lemma DistinctTail<T>(xs: seq<T>)
    requires Distinct(xs) && xs != []
    ensures xs[0] !in xs[1..] && Distinct(xs[1..])
  {
    forall i | 0 <= i < |xs| - 1 ensures xs[1..][i] == xs[i + 1] && xs[1..][i] != xs[0] {
    }
  }

  /** In a sequence without duplicates, removing the first occurrence removes every occurrence. */
  lemma {:induction false} RemoveFirstIsFilter<T>(xs: seq<T>, x: T)
    requires Distinct(xs)
    ensures RemoveFirst(xs, x) == Filter(xs, y => y != x)
  {
    var p := y => y != x;
    if xs != [] {
      var h, t := xs[0], xs[1..];
      assert xs == [h] + t;
      FilterConcat([h], t, p);
      assert Filter([h], p) == (if h != x then [h] else []) by {
        assert [h][..0] == [];
      }
      DistinctTail(xs);
      if h == x {
        forall i | 0 <= i < |t| ensures p(t[i]) {
          assert t[i] in t;
        }
        FilterAll(t, p);
      } else {
        RemoveFirstIsFilter(t, x);
        assert RemoveFirst(xs, x) == [h] + RemoveFirst(t, x);
      }
    }
  }

  /** A filter that keeps everything is the identity. */
  lemma {:induction false} FilterAll<T>(xs: seq<T>, p: T -> bool)
    requires forall i :: 0 <= i < |xs| ==> p(xs[i])
    ensures Filter(xs, p) == xs
  {
    if xs != [] {
      FilterAll(xs[..|xs| - 1], p);
    }
  }

  /** In a sequence without duplicates, `RemoveFirst` keeps every other element and leaves no copy of `x`. */
  lemma {:induction false} RemoveFirstDistinct<T>(xs: seq<T>, x: T)
    requires Distinct(xs)
    ensures Distinct(RemoveFirst(xs, x))
    ensures forall i :: 0 <= i < |RemoveFirst(xs, x)| ==> RemoveFirst(xs, x)[i] in xs && RemoveFirst(xs, x)[i] != x
    ensures forall i :: 0 <= i < |xs| && xs[i] != x ==> xs[i] in RemoveFirst(xs, x)
  {
    RemoveFirstIsFilter(xs, x);
    FilterDistinct(xs, y => y != x);
    FilterMembers(xs, y => y != x);
  }

  /** The elements of `xs` not in `gone`, in order. */
  function Without<T(==)>(xs: seq<T>, gone: seq<T>): seq<T>
  {
    if xs == [] then [] else (if xs[0] in gone then [] else [xs[0]]) + Without(xs[1..], gone)
  }

  /** `Without` keeps only elements of `xs` that are not in `gone`. */
  lemma {:induction false} WithoutMembers<T>(xs: seq<T>, gone: seq<T>)
    ensures forall j :: 0 <= j < |Without(xs, gone)| ==> Without(xs, gone)[j] in xs && Without(xs, gone)[j] !in gone
  {
    if xs != [] {
      var h, t := xs[0], xs[1..];
      assert xs == [h] + t;
      WithoutMembers(t, gone);
      var w := Without(t, gone);
      var r := Without(xs, gone);
      assert r == (if h in gone then [] else [h]) + w;
      forall j | 0 <= j < |r| ensures r[j] in xs && r[j] !in gone {
        var d := if h in gone then 0 else 1;
        if j >= d {
          assert r[j] == w[j - d];
          assert w[j - d] in t;
        }
      }
    }
  }

  /** Excluding an element that does not occur changes nothing. */
  lemma {:induction false} WithoutAbsent<T>(xs: seq<T>, gone: seq<T>, x: T)
    requires x !in xs
    ensures Without(xs, gone + [x]) == Without(xs, gone)
  {
    if xs != [] {
      WithoutAbsent(xs[1..], gone, x);
    }
  }

  /** Excluding nothing keeps everything. */
  lemma {:induction false} WithoutNone<T>(xs: seq<T>)
    ensures Without(xs, []) == xs
  {
    if xs != [] {
      WithoutNone(xs[1..]);
    }
  }

  /** In a sequence without duplicates, `RemoveFirst` of one more element is excluding one more element. */
  lemma {:induction false} WithoutOneMore<T>(xs: seq<T>, gone: seq<T>, x: T)
    requires Distinct(xs)
    ensures Without(xs, gone + [x]) == RemoveFirst(Without(xs, gone), x)
  {
    if xs != [] {
      var h, rest := xs[0], xs[1..];
      assert Distinct(rest);
      if h == x {
        assert x !in rest by {
          assert forall j :: 0 <= j < |rest| ==> rest[j] == xs[j + 1];
        }
        WithoutHead(h, rest, gone);
      } else {
        WithoutOneMore(rest, gone, x);
        WithoutStep(xs, gone, x);
        if h !in gone {
          RemoveFirstPast(h, Without(rest, gone), x);
        }
      }
    }
  }

  lemma WithoutStep<T>(xs: seq<T>, gone: seq<T>, x: T)
    requires xs != [] && xs[0] != x
    ensures xs[0] in gone ==> Without(xs, gone) == Without(xs[1..], gone) && Without(xs, gone + [x]) == Without(xs[1..], gone + [x])
    ensures xs[0] !in gone ==> Without(xs, gone) == [xs[0]] + Without(xs[1..], gone) && Without(xs, gone + [x]) == [xs[0]] + Without(xs[1..], gone + [x])
  {
  }

  lemma RemoveFirstPast<T>(h: T, w: seq<T>, x: T)
    requires h != x
    ensures RemoveFirst([h] + w, x) == [h] + RemoveFirst(w, x)
  {
    assert ([h] + w)[0] == h && ([h] + w)[1..] == w;
  }

  lemma WithoutHead<T>(x: T, rest: seq<T>, gone: seq<T>)
    requires x !in rest
    ensures Without([x] + rest, gone + [x]) == RemoveFirst(Without([x] + rest, gone), x)
  {
    assert ([x] + rest)[1..] == rest;
    WithoutAbsent(rest, gone, x);
    WithoutMembers(rest, gone);
  }

  /** A filter that keeps nothing gives the empty sequence. */
  lemma {:induction false} FilterNone<T>(xs: seq<T>, p: T -> bool)
    requires forall i :: 0 <= i < |xs| ==> !p(xs[i])
    ensures Filter(xs, p) == []
  {
    if xs != [] {
      FilterNone(xs[..|xs| - 1], p);
    }
  }

  /** `Filter` is empty exactly when no element passes. */
  lemma {:induction false} FilterEmpty<T>(xs: seq<T>, p: T -> bool)
    ensures Filter(xs, p) != [] <==> exists k :: 0 <= k < |xs| && p(xs[k])
  {
    if xs != [] {
      var n := |xs| - 1;
      var init := xs[..n];
      FilterEmpty(init, p);
      assert Filter(xs, p) == Filter(init, p) + (if p(xs[n]) then [xs[n]] else []);
      if p(xs[n]) {
        assert Filter(xs, p) != [] && 0 <= n < |xs| && p(xs[n]);
      } else if exists k :: 0 <= k < n && p(init[k]) {
        var k :| 0 <= k < n && p(init[k]);
        assert xs[k] == init[k];
      } else {
        assert Filter(xs, p) == [];
        forall k | 0 <= k < |xs| ensures !p(xs[k]) {
          if k < n {
            assert xs[k] == init[k];
          }
        }
      }
    }
  }

  /** Appending an absent element and removing its first occurrence gives the sequence back. */
  lemma {:induction false} RemoveFirstAppended<T>(xs: seq<T>, x: T)
    requires x !in xs
    ensures RemoveFirst(xs + [x], x) == xs
  {
    if xs != [] {
      assert (xs + [x])[1..] == xs[1..] + [x];
      RemoveFirstAppended(xs[1..], x);
    }
  }
}
