/**
 * `Extensions.EnumeratorOfSum<T>`: a lazy merge of several sorted sets. Each enumeration of the
 * object (one `GetEnumerator`, whose body has a single `yield return`) yields at most one element:
 * the smallest current head, the earliest enumerator winning ties. The fields `start` and
 * `currentValueEnumerator` survive between enumerations, so the next enumeration advances the
 * enumerator chosen last and continues the merge.
 *
 * The sets are snapshots: a set is the sequence of its elements in the set's order. An enumerator over
 * set k is its position in that sequence: -1 before its first MoveNext, |set| once exhausted.
 */
module Merge {
  import opened Basics

  /** An `IComparer<T>.Compare`: the comparison's sign, or None where the comparer throws. */
  type Comparer<!T> = (T, T) -> Option<int>

  /**
   * `Comparer<T>.Default` for a type that implements no IComparable (as Ranger): the same object
   * compares 0, two different objects make it throw ArgumentException.
   */
  function DefaultComparer<T(==)>(): Comparer<T>
  {
    (a: T, b: T) => if a == b then Some(0) else None
  }

  /** `a` is not after `b`. */
  predicate Le<T>(cmp: Comparer<T>, a: T, b: T)
  {
    match cmp(a, b)
    case Some(c) => c <= 0
    case None => false
  }

  function Sign(c: int): int
  {
    if c < 0 then -1 else if c > 0 then 1 else 0
  }

  /** On the values in `e`, `cmp` never throws, is antisymmetric in sign and its `<=` is transitive. */
  ghost predicate TotalPreorderOn<T>(cmp: Comparer<T>, e: multiset<T>)
  {
    && (forall a, b :: a in e && b in e ==> cmp(a, b).Some?)
    && (forall a, b :: a in e && b in e ==> Sign(cmp(a, b).value) == -Sign(cmp(b, a).value))
    && (forall a, b, c :: a in e && b in e && c in e ==> LeChain(cmp, a, b, c))
  }

  /**
   * Transitivity of `Le` through `b`. Kept as a predicate of its own so that a proof asks for it by
   * name on the three values it needs.
   */
  predicate LeChain<T>(cmp: Comparer<T>, a: T, b: T, c: T)
  {
    Le(cmp, a, b) && Le(cmp, b, c) ==> Le(cmp, a, c)
  }

  /** A set's snapshot in the set's own order. */
  ghost predicate SortedBy<T>(cmp: Comparer<T>, xs: seq<T>)
  {
    forall i, j :: 0 <= i <= j < |xs| ==> Le(cmp, xs[i], xs[j])
  }

  /** Every value in any of the sets, with multiplicity (a set joined twice counts twice). */
  ghost function Union<T>(sets: seq<seq<T>>): multiset<T>
  {
    UnionFrom(sets, 0)
  }

  ghost function UnionFrom<T>(sets: seq<seq<T>>, k: nat): multiset<T>
    decreases |sets| - k
  {
    if k >= |sets| then multiset{} else multiset(sets[k]) + UnionFrom(sets, k + 1)
  }

  /** What one enumeration of the merge does. */
  datatype Outcome<T> =
    | Yielded(value: T)   // `yield return`
    | Exhausted           // `yield break`
    | NullEnumerator      // MoveNext on a null currentValueEnumerator throws NullReferenceException
    | NotComparable       // the comparer threw

  /**
   * The fields of an EnumeratorOfSum: `sets`; one position per enumerator created by the last
   * `Reset` (`pos`, enumerator k runs over set k); `currentIterators` as the list of their indices
   * (`live`); `start`; and the index of `currentValueEnumerator` (None while it is null).
   */
  datatype MergeState<T> = MergeState(sets: seq<seq<T>>, pos: seq<int>, live: seq<nat>, start: bool, current: Option<nat>)

  ghost predicate Valid<T>(s: MergeState<T>)
  {
    && |s.sets| >= 1
    && |s.pos| <= |s.sets|
    && (forall k :: 0 <= k < |s.pos| ==> -1 <= s.pos[k] <= |s.sets[k]|)
    && (forall j :: 0 <= j < |s.live| ==> s.live[j] < |s.pos|)
    && Distinct(s.live)
    && (s.current.Some? ==> s.current.value < |s.pos|)
    && (!s.start ==> HeadsValid(s))
    && (!s.start && s.live != [] ==> s.current.Some? && s.current.value in s.live)
    && (!s.start && s.current.Some? && s.current.value !in s.live ==>
          s.pos[s.current.value] == |s.sets[s.current.value]|)
  }

  /** Enumerator k exists and stands on an element of its set. */
  ghost predicate OnHead<T>(sets: seq<seq<T>>, pos: seq<int>, k: nat)
  {
    k < |pos| <= |sets| && 0 <= pos[k] < |sets[k]|
  }

  /** Every live enumerator stands on an element. */
  ghost predicate HeadsValid<T>(s: MergeState<T>)
  {
    && |s.pos| <= |s.sets|
    && forall j :: 0 <= j < |s.live| ==> OnHead(s.sets, s.pos, s.live[j])
  }

  /** `Current` of enumerator k. */
  function Head<T>(s: MergeState<T>, k: nat): T
    requires OnHead(s.sets, s.pos, k)
  {
    s.sets[k][s.pos[k]]
  }

  function Range(n: nat): (r: seq<nat>)
    ensures |r| == n && forall i :: 0 <= i < n ==> r[i] == i
  {
    seq(n, i => i)
  }

  /** The indices from `k` on of the non-empty sets, in order. */
  function NonEmptyFrom<T>(sets: seq<seq<T>>, k: nat): seq<nat>
    decreases |sets| - k
  {
    if k >= |sets| then [] else (if sets[k] != [] then [k] else []) + NonEmptyFrom(sets, k + 1)
  }

  /** `NonEmptyFrom` lists, in ascending order, exactly the non-empty sets from `k` on. */
  lemma NonEmptyFromSpec<T>(sets: seq<seq<T>>, k: nat)
    ensures var r := NonEmptyFrom(sets, k);
      && (forall j :: 0 <= j < |r| ==> k <= r[j] < |sets| && sets[r[j]] != [])
      && (forall i :: k <= i < |sets| && sets[i] != [] ==> i in r)
      && (forall i, j :: 0 <= i < j < |r| ==> r[i] < r[j])
  {
    NonEmptyFromSound(sets, k);
    NonEmptyFromComplete(sets, k);
    NonEmptyFromAscending(sets, k);
  }

  lemma {:induction false} NonEmptyFromSound<T>(sets: seq<seq<T>>, k: nat)
    ensures forall j :: 0 <= j < |NonEmptyFrom(sets, k)| ==>
      k <= NonEmptyFrom(sets, k)[j] < |sets| && sets[NonEmptyFrom(sets, k)[j]] != []
    decreases |sets| - k
  {
    if k < |sets| {
      NonEmptyFromSound(sets, k + 1);
    }
  }

  lemma {:induction false} NonEmptyFromComplete<T>(sets: seq<seq<T>>, k: nat)
    ensures forall i :: k <= i < |sets| && sets[i] != [] ==> i in NonEmptyFrom(sets, k)
    decreases |sets| - k
  {
    if k < |sets| {
      NonEmptyFromComplete(sets, k + 1);
    }
  }

  lemma {:induction false} NonEmptyFromAscending<T>(sets: seq<seq<T>>, k: nat)
    ensures forall i, j :: 0 <= i < j < |NonEmptyFrom(sets, k)| ==> NonEmptyFrom(sets, k)[i] < NonEmptyFrom(sets, k)[j]
    decreases |sets| - k
  {
    if k < |sets| {
      NonEmptyFromSound(sets, k + 1);
      NonEmptyFromAscending(sets, k + 1);
    }
  }

  /** The indices of the non-empty sets, in order: the enumerators that survive their first MoveNext. */
  function NonEmpty<T>(sets: seq<seq<T>>): (r: seq<nat>)
    ensures forall j :: 0 <= j < |r| ==> r[j] < |sets| && sets[r[j]] != []
  {
    NonEmptyFromSpec(sets, 0);
    NonEmptyFrom(sets, 0)
  }

  /** The state `Reset` leaves: a fresh enumerator per set, all live, `start` set. */
  function ResetState<T>(s: MergeState<T>): MergeState<T>
  {
    s.(pos := seq(|s.sets|, _ => -1), live := Range(|s.sets|), start := true)
  }

  /** The state after the first pass: every enumerator on its first element, the exhausted ones dropped. */
  function Started<T>(s: MergeState<T>): MergeState<T>
  {
    MergeState(s.sets, seq(|s.sets|, _ => 0), NonEmpty(s.sets), false, s.current)
  }

  /** MoveNext on enumerator k: one step forward, none past the end. */
  function Advance<T>(sets: seq<seq<T>>, pos: seq<int>, k: nat): seq<int>
    requires k < |pos| <= |sets|
  {
    pos[k := if pos[k] < |sets[k]| then pos[k] + 1 else pos[k]]
  }

  /** The state after MoveNext on currentValueEnumerator, which is dropped from the live list once exhausted. */
  function Advanced<T>(s: MergeState<T>): (t: MergeState<T>)
    requires Valid(s) && !s.start && s.current.Some?
    ensures HeadsValid(t)
  {
    var c := s.current.value;
    var pos := Advance(s.sets, s.pos, c);
    if pos[c] < |s.sets[c]| then s.(pos := pos)
    else RemoveFirstDistinct(s.live, c); s.(pos := pos, live := RemoveFirst(s.live, c))
  }

  /**
   * One enumeration. With `start` set: Reset, MoveNext on every enumerator, drop the exhausted
   * ones, clear `start`. Otherwise: MoveNext on currentValueEnumerator only (a null one throws).
   * Then pick the smallest head.
   */
  function Step<T>(cmp: Comparer<T>, s: MergeState<T>): (r: (MergeState<T>, Outcome<T>))
    requires Valid(s)
    ensures r.0.sets == s.sets
    ensures r.1.NullEnumerator? <==> !s.start && s.current.None?
  {
    if s.start then Choose(cmp, Started(s))
    else if s.current.None? then (s, NullEnumerator)
    else Choose(cmp, Advanced(s))
  }

  /** `yield break` when no enumerator is live; otherwise scan the heads from the first one. */
  function Choose<T>(cmp: Comparer<T>, s: MergeState<T>): (r: (MergeState<T>, Outcome<T>))
    requires HeadsValid(s)
    ensures r.0.sets == s.sets && r.0.pos == s.pos && r.0.live == s.live && r.0.start == s.start
    ensures r.1.Exhausted? <==> s.live == []
    ensures !r.1.NullEnumerator?
  {
    if s.live == [] then (s, Exhausted)
    else Scan(cmp, s.(current := Some(s.live[0])), 0)
  }

  /** The scan over the live enumerators from position `k`: one strictly smaller head replaces the chosen one. */
  function Scan<T>(cmp: Comparer<T>, s: MergeState<T>, k: nat): (r: (MergeState<T>, Outcome<T>))
    requires HeadsValid(s) && k <= |s.live|
    requires s.current.Some? && s.current.value in s.live
    ensures r.0.sets == s.sets && r.0.pos == s.pos && r.0.live == s.live && r.0.start == s.start
    ensures r.1.Yielded? || r.1.NotComparable?
    decreases |s.live| - k
  {
    if k == |s.live| then (s, Yielded(Head(s, s.current.value)))
    else
      match cmp(Head(s, s.live[k]), Head(s, s.current.value))
      case None => (s, NotComparable)
      case Some(c) => Scan(cmp, if c < 0 then s.(current := Some(s.live[k])) else s, k + 1)
  }

  class MergeEnumerator<T> {
    /** `sets[0].Comparer`: the comparer of the set the enumerator was created with. */
    const cmp: Comparer<T>
    var sets: seq<seq<T>>
    var pos: seq<int>
    var live: seq<nat>
    var start: bool
    var current: Option<nat>

    function State(): MergeState<T>
      reads this
    {
      MergeState(sets, pos, live, start, current)
    }

    /** `new EnumeratorOfSum<T>(set)`. */
    constructor (elems: seq<T>, cmp: Comparer<T>)
      ensures State() == MergeState([elems], [], [], true, None) && this.cmp == cmp
      ensures Valid(State())
    {
      this.cmp := cmp;
      sets := [elems];
      pos, live := [], [];
      start, current := true, None;
    }

    /** `AddSet`, which both `Join` overloads use. */
    method AddSet(elems: seq<T>)
      requires Valid(State())
      modifies this
      ensures State() == old(State()).(sets := old(sets) + [elems])
      ensures Valid(State())
    {
      sets := sets + [elems];
    }

    /** `Reset`: a fresh enumerator per set, all live, `start` set. */
    method Reset()
      requires Valid(State())
      modifies this
      ensures State() == ResetState(old(State()))
      ensures Valid(State())
    {
      pos, live := [], [];
      var k := 0;
      while k < |sets|
        invariant 0 <= k <= |sets|
        invariant pos == seq(k, _ => -1) && live == Range(k)
        invariant sets == old(sets) && current == old(current)
        invariant k > 0 ==> start
        invariant k == 0 ==> start == old(start)
      {
        pos, live := pos + [-1], live + [k];
        start := true;
        k := k + 1;
      }
    }

    /** One enumeration of the object: the body of `GetEnumerator` up to its `yield`. */
    method Next() returns (r: Outcome<T>)
      requires Valid(State())
      modifies this
      ensures (State(), r) == Step(cmp, old(State()))
    {
      if start {
        Reset();
        FirstMoves();
      } else {
        if current.None? {
          return NullEnumerator;
        }
        MoveCurrent();
      }
      r := ChooseHead();
    }

    /** The `start` branch after `Reset`: MoveNext on every enumerator, then drop the exhausted ones. */
    method FirstMoves()
      requires Valid(State()) && State() == ResetState(State())
      modifies this
      ensures State() == Started(old(State()))
    {
      var n := |sets|;
      var toRemove := MoveAll();
      RangeDistinct(n);
      DropAll(toRemove);
      WithoutEmpties(sets, toRemove, 0);
      assert Range(n)[0..] == Range(n);
    }

    /** The first loop of the `start` branch: MoveNext on every enumerator, collecting the exhausted ones; `start` is cleared. */
    method MoveAll() returns (toRemove: seq<nat>)
      requires Valid(State()) && State() == ResetState(State())
      modifies this
      ensures sets == old(sets) && live == old(live) && current == old(current) && !start
      ensures pos == seq(|sets|, _ => 0)
      ensures forall x :: 0 <= x < |sets| ==> (x in toRemove <==> sets[x] == [])
    {
      var n := |sets|;
      toRemove := [];
      var k := 0;
      while k < |live|
        invariant 0 <= k <= n && live == Range(n) && |pos| == n && sets == old(sets)
        invariant forall x :: 0 <= x < n ==> pos[x] == if x < k then 0 else -1
        invariant forall x :: 0 <= x < n ==> (x in toRemove <==> x < k && sets[x] == [])
        invariant start == (k == 0) && current == old(current)
      {
        var i := live[k];
        pos := Advance(sets, pos, i);
        if !(pos[i] < |sets[i]|) {
          toRemove := toRemove + [i];
        }
        start := false;
        k := k + 1;
      }
    }

    /** The second loop of the `start` branch: each exhausted enumerator leaves the live list. */
    method DropAll(toRemove: seq<nat>)
      requires Distinct(live)
      modifies this
      ensures State() == old(State()).(live := Without(old(live), toRemove))
    {
      ghost var all := live;
      WithoutNone(all);
      assert toRemove[..0] == [];
      var k := 0;
      while k < |toRemove|
        invariant 0 <= k <= |toRemove|
        invariant sets == old(sets) && pos == old(pos) && start == old(start) && current == old(current)
        invariant live == Without(all, toRemove[..k])
      {
        ghost var done := toRemove[..k];
        WithoutOneMore(all, done, toRemove[k]);
        live := RemoveFirst(live, toRemove[k]);
        k := k + 1;
        assert toRemove[..k] == done + [toRemove[k - 1]];
      }
      assert toRemove[..k] == toRemove;
    }

    /** The other branch: MoveNext on currentValueEnumerator, removed from the live list once exhausted. */
    method MoveCurrent()
      requires Valid(State()) && !start && current.Some?
      modifies this
      ensures State() == Advanced(old(State()))
    {
      var c := current.value;
      pos := Advance(sets, pos, c);
      if !(pos[c] < |sets[c]|) {
        live := RemoveFirst(live, c);
      }
    }

    /** `yield break`, or the scan for the smallest head and `yield return` of it. */
    method ChooseHead() returns (r: Outcome<T>)
      requires HeadsValid(State())
      modifies this
      ensures (State(), r) == Choose(cmp, old(State()))
    {
      if |live| == 0 {
        return Exhausted;
      }
      ghost var u := State();
      var best := live[0];
      var k := 0;
      while k < |live|
        invariant State() == u
        invariant 0 <= k <= |live| && best in live
        invariant Scan(cmp, u.(current := Some(best)), k) == Scan(cmp, u.(current := Some(live[0])), 0)
      {
        var i := live[k];
        var c := cmp(sets[i][pos[i]], sets[best][pos[best]]);
        if c.None? {
          current := Some(best);
          return NotComparable;
        }
        ScanOnce(cmp, u, best, k);
        if c.value < 0 {
          best := i;
        }
        k := k + 1;
      }
      current := Some(best);
      r := Yielded(sets[best][pos[best]]);
    }
  }

  lemma RangeDistinct(n: nat)
    ensures Distinct(Range(n))
  {
  }

  /** Excluding exactly the empty sets' indices keeps the non-empty ones. */
  lemma {:induction false} WithoutEmpties<T>(sets: seq<seq<T>>, gone: seq<nat>, k: nat)
    requires k <= |sets|
    requires forall i :: k <= i < |sets| ==> (i in gone <==> sets[i] == [])
    ensures Without(Range(|sets|)[k..], gone) == NonEmptyFrom(sets, k)
    decreases |sets| - k
  {
    if k < |sets| {
      var xs := Range(|sets|)[k..];
      assert xs[0] == k && xs[1..] == Range(|sets|)[k + 1..];
      WithoutEmpties(sets, gone, k + 1);
    }
  }

  // ---------------------------------------------------------------------------------------------
  // What the merge promises across successive enumerations.

  /** The scan leaves everything but `current` alone and picks a live enumerator. */
  lemma {:induction false} ScanPicksLive<T>(cmp: Comparer<T>, s: MergeState<T>, k: nat)
    requires HeadsValid(s) && k <= |s.live|
    requires s.current.Some? && s.current.value in s.live
    ensures var (t, o) := Scan(cmp, s, k);
      && t == s.(current := t.current) && t.current.Some? && t.current.value in s.live
      && (o.Yielded? || o.NotComparable?)
      && (o.Yielded? ==> o.value == Head(t, t.current.value))
    decreases |s.live| - k
  {
    if k < |s.live| {
      var h := cmp(Head(s, s.live[k]), Head(s, s.current.value));
      if h.Some? {
        ScanPicksLive(cmp, if h.value < 0 then s.(current := Some(s.live[k])) else s, k + 1);
      }
    }
  }

  /** The choice leaves everything but `current` alone; it yields nothing only when no enumerator is live. */
  lemma ChoosePicksLive<T>(cmp: Comparer<T>, u: MergeState<T>)
    requires HeadsValid(u)
    ensures var (t, o) := Choose(cmp, u);
      && t == u.(current := t.current)
      && (o.Exhausted? <==> u.live == [])
      && !o.NullEnumerator?
      && (!o.Exhausted? ==> t.current.Some? && t.current.value in u.live)
      && (o.Exhausted? ==> t == u)
      && (o.Yielded? ==> o.value == Head(t, t.current.value))
  {
    if u.live != [] {
      ScanPicksLive(cmp, u.(current := Some(u.live[0])), 0);
    }
  }

  /** `NonEmpty` lists each non-empty set's index once. */
  lemma NonEmptyDistinct<T>(sets: seq<seq<T>>)
    ensures Distinct(NonEmpty(sets))
  {
    NonEmptyFromSpec(sets, 0);
  }

  /** Every enumeration leaves a well-formed state over the same sets, with `start` cleared. */
  lemma StepValid<T>(cmp: Comparer<T>, s: MergeState<T>)
    requires Valid(s)
    ensures var t := Step(cmp, s).0; Valid(t) && t.sets == s.sets && !t.start
  {
    if s.start {
      StartedValid(cmp, s);
    } else if s.current.Some? {
      AdvancedValid(cmp, s);
    }
  }

  lemma StartedValid<T>(cmp: Comparer<T>, s: MergeState<T>)
    requires Valid(s) && s.start
    ensures var t := Choose(cmp, Started(s)).0; Valid(t) && t.sets == s.sets && !t.start
  {
    NonEmptyDistinct(s.sets);
    ChoosePicksLive(cmp, Started(s));
    if NonEmpty(s.sets) == [] && s.current.Some? {
      NonEmptyFromSpec(s.sets, 0);
      assert s.sets[s.current.value] == [];
    }
  }

  lemma AdvancedValid<T>(cmp: Comparer<T>, s: MergeState<T>)
    requires Valid(s) && !s.start && s.current.Some?
    ensures var t := Choose(cmp, Advanced(s)).0; Valid(t) && t.sets == s.sets && !t.start
  {
    var c := s.current.value;
    if Advance(s.sets, s.pos, c)[c] == |s.sets[c]| {
      RemoveFirstDistinct(s.live, c);
    }
    ChoosePicksLive(cmp, Advanced(s));
  }

  /** What enumerator j has left to yield: its head on, or past its head when it yielded last. */
  ghost function Remaining<T>(s: MergeState<T>, j: nat): seq<T>
    requires OnHead(s.sets, s.pos, j)
  {
    s.sets[j][s.pos[j] + (if s.current == Some(j) then 1 else 0)..]
  }

  /** What the enumerators `ids` have left to yield. */
  ghost function Rest<T>(s: MergeState<T>, ids: seq<nat>): multiset<T>
    requires forall j :: 0 <= j < |ids| ==> OnHead(s.sets, s.pos, ids[j])
  {
    if ids == [] then multiset{} else multiset(Remaining(s, ids[0])) + Rest(s, ids[1..])
  }

  /** The elements the merge has still to yield: all of them before the first enumeration. */
  ghost function Pending<T>(s: MergeState<T>): multiset<T>
    requires Valid(s)
  {
    if s.start then Union(s.sets) else Rest(s, s.live)
  }

  lemma {:induction false} RestCongruent<T>(s: MergeState<T>, v: MergeState<T>, ids: seq<nat>)
    requires forall j :: 0 <= j < |ids| ==> OnHead(s.sets, s.pos, ids[j]) && OnHead(v.sets, v.pos, ids[j])
    requires forall j :: 0 <= j < |ids| ==> Remaining(s, ids[j]) == Remaining(v, ids[j])
    ensures Rest(s, ids) == Rest(v, ids)
  {
    if ids != [] {
      RestCongruent(s, v, ids[1..]);
    }
  }

  /** Marking enumerator w as the one just yielded takes its head out of what is left. */
  lemma {:induction false} RestSkip<T>(s: MergeState<T>, ids: seq<nat>, w: nat)
    requires forall j :: 0 <= j < |ids| ==> OnHead(s.sets, s.pos, ids[j])
    requires Distinct(ids) && w in ids
    ensures OnHead(s.sets, s.pos, w)
    ensures Rest(s.(current := None), ids) == Rest(s.(current := Some(w)), ids) + multiset{Head(s, w)}
  {
    if ids[0] == w {
      RestSkipHere(s, ids, w);
    } else {
      RestSkip(s, ids[1..], w);
      RestSkipLater(s, ids, w);
    }
  }

  /** `RestSkip` when the skipped enumerator is the first one listed. */
  lemma RestSkipHere<T>(s: MergeState<T>, ids: seq<nat>, w: nat)
    requires forall j :: 0 <= j < |ids| ==> OnHead(s.sets, s.pos, ids[j])
    requires Distinct(ids) && ids != [] && ids[0] == w
    ensures OnHead(s.sets, s.pos, w)
    ensures Rest(s.(current := None), ids) == Rest(s.(current := Some(w)), ids) + multiset{Head(s, w)}
  {
    var a, b := s.(current := None), s.(current := Some(w));
    var t := ids[1..];
    DistinctTail(ids);
    RestOthers(s, t, w);
    RemainingSkip(s, w);
    MultisetShift(multiset(Remaining(a, w)), multiset(Remaining(b, w)), Rest(a, t), Head(s, w));
  }

  /** Enumerators other than `w` have the same left to yield whether or not `w` is the current one. */
  lemma RestOthers<T>(s: MergeState<T>, ids: seq<nat>, w: nat)
    requires forall j :: 0 <= j < |ids| ==> OnHead(s.sets, s.pos, ids[j])
    requires w !in ids
    ensures Rest(s.(current := None), ids) == Rest(s.(current := Some(w)), ids)
  {
    var a, b := s.(current := None), s.(current := Some(w));
    forall j | 0 <= j < |ids| ensures Remaining(a, ids[j]) == Remaining(b, ids[j]) {
      assert ids[j] != w;
    }
    RestCongruent(a, b, ids);
  }

  /** Once `w` has yielded its head, it has that head fewer left to yield. */
  lemma RemainingSkip<T>(s: MergeState<T>, w: nat)
    requires OnHead(s.sets, s.pos, w)
    ensures multiset(Remaining(s.(current := None), w)) == multiset(Remaining(s.(current := Some(w)), w)) + multiset{Head(s, w)}
  {
    var tail := s.sets[w][s.pos[w]..];
    assert tail == [Head(s, w)] + tail[1..];
    assert Remaining(s.(current := None), w) == tail && Remaining(s.(current := Some(w)), w) == tail[1..];
  }

  /** `RestSkip` one step on: an enumerator before the skipped one contributes the same to both sides. */
  lemma RestSkipLater<T>(s: MergeState<T>, ids: seq<nat>, w: nat)
    requires forall j :: 0 <= j < |ids| ==> OnHead(s.sets, s.pos, ids[j])
    requires ids != [] && ids[0] != w && OnHead(s.sets, s.pos, w)
    requires Rest(s.(current := None), ids[1..]) == Rest(s.(current := Some(w)), ids[1..]) + multiset{Head(s, w)}
    ensures Rest(s.(current := None), ids) == Rest(s.(current := Some(w)), ids) + multiset{Head(s, w)}
  {
    var a, b := s.(current := None), s.(current := Some(w));
    assert Remaining(a, ids[0]) == Remaining(b, ids[0]);
    MultisetShift(Rest(a, ids[1..]), Rest(b, ids[1..]), multiset(Remaining(a, ids[0])), Head(s, w));
  }

  lemma MultisetShift<T>(p: multiset<T>, q: multiset<T>, r: multiset<T>, x: T)
    requires p == q + multiset{x}
    ensures p + r == (q + r) + multiset{x} && r + p == (r + q) + multiset{x}
  {
  }

  /** With every enumerator on its first element, the non-empty sets' enumerators stand on heads. */
  lemma NonEmptyOnHeads<T>(s: MergeState<T>, k: nat)
    requires |s.pos| == |s.sets|
    requires forall j :: 0 <= j < |s.pos| ==> s.pos[j] == 0
    ensures forall j :: 0 <= j < |NonEmptyFrom(s.sets, k)| ==> OnHead(s.sets, s.pos, NonEmptyFrom(s.sets, k)[j])
  {
    NonEmptyFromSpec(s.sets, k);
  }

  /** The states just before the scan: `pos` and `live` in place, no enumerator yielded yet. */
  lemma {:induction false} UnionIsRest<T>(s: MergeState<T>, k: nat)
    requires k <= |s.sets| && |s.pos| == |s.sets| && s.current.None?
    requires forall j :: 0 <= j < |s.pos| ==> s.pos[j] == 0
    requires forall j :: 0 <= j < |NonEmptyFrom(s.sets, k)| ==> OnHead(s.sets, s.pos, NonEmptyFrom(s.sets, k)[j])
    ensures UnionFrom(s.sets, k) == Rest(s, NonEmptyFrom(s.sets, k))
    decreases |s.sets| - k
  {
    if k < |s.sets| {
      NonEmptyOnHeads(s, k + 1);
      UnionIsRest(s, k + 1);
      var r, r' := NonEmptyFrom(s.sets, k), NonEmptyFrom(s.sets, k + 1);
      assert UnionFrom(s.sets, k) == multiset(s.sets[k]) + UnionFrom(s.sets, k + 1);
      if s.sets[k] != [] {
        assert r == [k] + r';
        assert r[0] == k && r[1..] == r';
        assert Remaining(s, k) == s.sets[k][0..];
        assert s.sets[k][0..] == s.sets[k];
      } else {
        assert r == r';
      }
    }
  }

  /** An enumerator that has nothing left is dropped without loss. */
  lemma {:induction false} RestDropEmpty<T>(s: MergeState<T>, ids: seq<nat>, c: nat)
    requires forall j :: 0 <= j < |ids| ==> OnHead(s.sets, s.pos, ids[j])
    requires Distinct(ids) && c in ids && Remaining(s, c) == []
    ensures forall j :: 0 <= j < |RemoveFirst(ids, c)| ==> OnHead(s.sets, s.pos, RemoveFirst(ids, c)[j])
    ensures Rest(s, RemoveFirst(ids, c)) == Rest(s, ids)
  {
    RemoveFirstDistinct(ids, c);
    if ids[0] != c {
      assert Distinct(ids[1..]);
      RestDropEmpty(s, ids[1..], c);
      assert RemoveFirst(ids, c) == [ids[0]] + RemoveFirst(ids[1..], c);
      assert RemoveFirst(ids, c)[1..] == RemoveFirst(ids[1..], c);
    }
  }

  /** MoveNext on the enumerator that yielded last loses nothing that was pending. */
  lemma AdvancedPending<T>(s: MergeState<T>)
    requires Valid(s) && !s.start && s.current.Some?
    ensures var u := Advanced(s); Pending(s) == Rest(u.(current := None), u.live)
  {
    var c := s.current.value;
    var u := Advanced(s);
    var v := u.(current := None);
    if c in s.live {
      if u.pos[c] < |s.sets[c]| {
        RestCongruent(s, v, s.live);
      } else {
        RestDropEmpty(s, s.live, c);
        RemoveFirstDistinct(s.live, c);
        RestCongruent(s, v, u.live);
      }
    }
  }

  /** Picking the smallest head takes exactly that head out of what is left. */
  lemma ChoosePending<T>(cmp: Comparer<T>, u: MergeState<T>)
    requires HeadsValid(u) && Distinct(u.live)
    ensures var (t, o) := Choose(cmp, u);
      && HeadsValid(t) && t.live == u.live && !o.NullEnumerator?
      && (o.Yielded? ==> Rest(u.(current := None), u.live) == Rest(t, t.live) + multiset{o.value})
      && (o.Exhausted? ==> Rest(u.(current := None), u.live) == multiset{})
  {
    ChoosePicksLive(cmp, u);
    var (t, o) := Choose(cmp, u);
    if o.Yielded? {
      RestSkip(u, u.live, t.current.value);
    }
  }

  /** Before the first enumeration every element of every set is pending. */
  lemma StartedPending<T>(s: MergeState<T>)
    requires Valid(s) && s.start
    ensures var u := Started(s); HeadsValid(u) && Pending(s) == Rest(u.(current := None), u.live)
  {
    NonEmptyOnHeads(Started(s).(current := None), 0);
    UnionIsRest(Started(s).(current := None), 0);
  }

  /**
   * Each enumeration yields one pending element and removes exactly it; `yield break` and the
   * null-enumerator failure happen only when nothing is pending.
   */
  lemma StepPending<T>(cmp: Comparer<T>, s: MergeState<T>)
    requires Valid(s)
    ensures Valid(Step(cmp, s).0)
    ensures var (t, o) := Step(cmp, s);
      && (o.Yielded? ==> Pending(s) == Pending(t) + multiset{o.value})
      && (o.Exhausted? || o.NullEnumerator? ==> Pending(s) == multiset{})
  {
    StepValid(cmp, s);
    if s.start {
      StartedPending(s);
      NonEmptyDistinct(s.sets);
      ChoosePending(cmp, Started(s));
    } else if s.current.Some? {
      AdvancedStepPending(cmp, s);
    }
  }

  lemma AdvancedStepPending<T>(cmp: Comparer<T>, s: MergeState<T>)
    requires Valid(s) && !s.start && s.current.Some?
    ensures var (t, o) := Choose(cmp, Advanced(s));
      && Valid(t) && !o.NullEnumerator?
      && (o.Yielded? ==> Pending(s) == Pending(t) + multiset{o.value})
      && (o.Exhausted? ==> Pending(s) == multiset{})
  {
    AdvancedValid(cmp, s);
    AdvancedPending(s);
    RemoveFirstDistinct(s.live, s.current.value);
    ChoosePending(cmp, Advanced(s));
  }

  /** Every element of every set from `k` on is in their union. */
  lemma {:induction false} InUnion<T>(sets: seq<seq<T>>, k: nat, j: nat, i: nat)
    requires k <= j < |sets| && i < |sets[j]|
    ensures sets[j][i] in UnionFrom(sets, k)
    decreases |sets| - k
  {
    if k < j {
      InUnion(sets, k + 1, j, i);
    }
  }

  /** Every live head is one of the elements of the sets. */
  lemma HeadsInUnion<T>(s: MergeState<T>)
    requires HeadsValid(s)
    ensures forall j :: 0 <= j < |s.live| ==> Head(s, s.live[j]) in Union(s.sets)
  {
    forall j | 0 <= j < |s.live| ensures Head(s, s.live[j]) in Union(s.sets) {
      InUnion(s.sets, 0, s.live[j], s.pos[s.live[j]]);
    }
  }

  /** Where a pending element comes from: a live enumerator at or past its head. */
  lemma {:induction false} RestMember<T>(s: MergeState<T>, ids: seq<nat>, y: T) returns (j: nat, i: nat)
    requires forall j :: 0 <= j < |ids| ==> OnHead(s.sets, s.pos, ids[j])
    requires y in Rest(s, ids)
    ensures j < |ids| && s.pos[ids[j]] <= i < |s.sets[ids[j]]| && y == s.sets[ids[j]][i]
  {
    var r := Remaining(s, ids[0]);
    if y in multiset(r) {
      assert y in r;
      var d :| 0 <= d < |r| && r[d] == y;
      j, i := 0, s.pos[ids[0]] + (if s.current == Some(ids[0]) then 1 else 0) + d;
    } else {
      j, i := RestMember(s, ids[1..], y);
      j := j + 1;
    }
  }

  /**
   * The scan's invariant with enumerator `c` chosen after `k` comparisons: its head is not after
   * any head scanned, and strictly before the head of every enumerator listed before it.
   */
  ghost predicate ScanInv<T>(cmp: Comparer<T>, s: MergeState<T>, c: nat, k: nat)
    requires HeadsValid(s) && c in s.live
  {
    && (forall j :: 0 <= j < k && j < |s.live| ==> Le(cmp, Head(s, c), Head(s, s.live[j])))
    && (forall m :: 0 <= m < |s.live| && s.live[m] == c ==> m <= k)
    && (forall j, m :: 0 <= j < m < |s.live| && s.live[m] == c ==> !Le(cmp, Head(s, s.live[j]), Head(s, c)))
  }

  /**
   * Over heads the comparer orders, the scan yields a smallest head, and the chosen enumerator is the
   * earliest one holding a smallest head: ties go to the earlier enumerator.
   */
  lemma {:induction false} ScanMinimal<T>(cmp: Comparer<T>, s: MergeState<T>, c: nat, k: nat, e: multiset<T>) returns (w: nat)
    requires HeadsValid(s) && Distinct(s.live) && k <= |s.live| && c in s.live
    requires TotalPreorderOn(cmp, e)
    requires forall j :: 0 <= j < |s.live| ==> Head(s, s.live[j]) in e
    requires ScanInv(cmp, s, c, k)
    ensures w in s.live
    ensures Scan(cmp, s.(current := Some(c)), k) == (s.(current := Some(w)), Yielded(Head(s, w)))
    ensures forall j :: 0 <= j < |s.live| ==> Le(cmp, Head(s, w), Head(s, s.live[j]))
    ensures forall j, m :: 0 <= j < m < |s.live| && s.live[m] == w ==> !Le(cmp, Head(s, s.live[j]), Head(s, w))
    decreases |s.live| - k
  {
    if k < |s.live| {
      var c' := ScanStep(cmp, s, c, k, e);
      ScanOnce(cmp, s, c, k);
      w := ScanMinimal(cmp, s, c', k + 1, e);
    } else {
      w := c;
      assert Head(s.(current := Some(c)), c) == Head(s, c);
    }
  }

  /** One comparison of the scan, on a state whose `current` is `c`. */
  lemma ScanOnce<T>(cmp: Comparer<T>, s: MergeState<T>, c: nat, k: nat)
    requires HeadsValid(s) && k < |s.live| && c in s.live
    requires cmp(Head(s, s.live[k]), Head(s, c)).Some?
    ensures Scan(cmp, s.(current := Some(c)), k) ==
      Scan(cmp, s.(current := Some(if cmp(Head(s, s.live[k]), Head(s, c)).value < 0 then s.live[k] else c)), k + 1)
  {
    var u := s.(current := Some(c));
    assert Head(u, c) == Head(s, c) && Head(u, s.live[k]) == Head(s, s.live[k]);
    assert u.(current := Some(s.live[k])) == s.(current := Some(s.live[k]));
  }

  /** One comparison of the scan keeps the scan's invariant; `c'` is the enumerator chosen after it. */
  lemma ScanStep<T>(cmp: Comparer<T>, s: MergeState<T>, c: nat, k: nat, e: multiset<T>) returns (c': nat)
    requires HeadsValid(s) && Distinct(s.live) && k < |s.live| && c in s.live
    requires TotalPreorderOn(cmp, e)
    requires forall j :: 0 <= j < |s.live| ==> Head(s, s.live[j]) in e
    requires ScanInv(cmp, s, c, k)
    ensures cmp(Head(s, s.live[k]), Head(s, c)).Some?
    ensures c' == if cmp(Head(s, s.live[k]), Head(s, c)).value < 0 then s.live[k] else c
    ensures c' in s.live && ScanInv(cmp, s, c', k + 1)
  {
    var hk, hc := Head(s, s.live[k]), Head(s, c);
    assert hk in e && hc in e;
    var cm := cmp(hk, hc).value;
    if cm < 0 {
      c' := s.live[k];
      ScanTakeBelow(cmp, s, c, k, e);
      ScanTakeStrict(cmp, s, c, k, e);
    } else {
      c' := c;
      assert Le(cmp, hc, hk) by {
        assert Sign(cmp(hc, hk).value) == -Sign(cm);
      }
    }
  }

  /** A head strictly before the chosen one is not after any head scanned so far, itself included. */
  lemma ScanTakeBelow<T>(cmp: Comparer<T>, s: MergeState<T>, c: nat, k: nat, e: multiset<T>)
    requires HeadsValid(s) && k < |s.live| && c in s.live
    requires TotalPreorderOn(cmp, e)
    requires forall j :: 0 <= j < |s.live| ==> Head(s, s.live[j]) in e
    requires ScanInv(cmp, s, c, k)
    requires cmp(Head(s, s.live[k]), Head(s, c)).Some? && cmp(Head(s, s.live[k]), Head(s, c)).value < 0
    ensures forall j :: 0 <= j < k + 1 && j < |s.live| ==> Le(cmp, Head(s, s.live[k]), Head(s, s.live[j]))
  {
    var hk, hc := Head(s, s.live[k]), Head(s, c);
    assert hk in e && hc in e;
    assert Le(cmp, hk, hc);
    assert Le(cmp, hk, hk) by {
      assert Sign(cmp(hk, hk).value) == -Sign(cmp(hk, hk).value);
    }
    forall j | 0 <= j < k && j < |s.live|
      ensures Le(cmp, hk, Head(s, s.live[j]))
    {
      assert Head(s, s.live[j]) in e;
      assert LeChain(cmp, hk, hc, Head(s, s.live[j]));
    }
  }

  /** A head strictly before the chosen one is strictly before every head of an earlier enumerator. */
  lemma ScanTakeStrict<T>(cmp: Comparer<T>, s: MergeState<T>, c: nat, k: nat, e: multiset<T>)
    requires HeadsValid(s) && Distinct(s.live) && k < |s.live| && c in s.live
    requires TotalPreorderOn(cmp, e)
    requires forall j :: 0 <= j < |s.live| ==> Head(s, s.live[j]) in e
    requires ScanInv(cmp, s, c, k)
    requires cmp(Head(s, s.live[k]), Head(s, c)).Some? && cmp(Head(s, s.live[k]), Head(s, c)).value < 0
    ensures forall j, m :: 0 <= j < m < |s.live| && s.live[m] == s.live[k] ==> !Le(cmp, Head(s, s.live[j]), Head(s, s.live[k]))
  {
    var hk, hc := Head(s, s.live[k]), Head(s, c);
    assert hk in e && hc in e;
    assert !Le(cmp, hc, hk) by {
      assert Sign(cmp(hc, hk).value) == -Sign(cmp(hk, hc).value);
    }
    var mc :| 0 <= mc < |s.live| && s.live[mc] == c;
    forall j, m | 0 <= j < m < |s.live| && s.live[m] == s.live[k]
      ensures !Le(cmp, Head(s, s.live[j]), hk)
    {
      assert m == k;
      var hj := Head(s, s.live[j]);
      assert hj in e;
      if j < mc {
        assert !Le(cmp, hj, hc);
        assert LeChain(cmp, hj, hk, hc);
      } else {
        assert Le(cmp, hc, hj);
        assert LeChain(cmp, hc, hj, hk);
      }
    }
  }

  /** Every set's snapshot is in the comparer's order. */
  ghost predicate AllSorted<T>(cmp: Comparer<T>, sets: seq<seq<T>>)
  {
    forall j :: 0 <= j < |sets| ==> SortedBy(cmp, sets[j])
  }

  /** Over sorted sets the chosen head is not after anything still pending, and ties go to the earlier enumerator. */
  lemma ChooseMinimal<T>(cmp: Comparer<T>, u: MergeState<T>)
    requires HeadsValid(u) && Distinct(u.live)
    requires TotalPreorderOn(cmp, Union(u.sets)) && AllSorted(cmp, u.sets)
    ensures var (t, o) := Choose(cmp, u);
      && HeadsValid(t) && t.sets == u.sets && t.live == u.live && !o.NotComparable?
      && (o.Yielded? ==> forall y :: y in Rest(t, t.live) ==> Le(cmp, o.value, y))
      && (o.Yielded? ==> forall j, m :: 0 <= j < m < |t.live| && Some(t.live[m]) == t.current ==>
            !Le(cmp, Head(t, t.live[j]), o.value))
  {
    ChoosePicksLive(cmp, u);
    if u.live != [] {
      HeadsInUnion(u);
      var w := ScanMinimal(cmp, u, u.live[0], 0, Union(u.sets));
      var (t, o) := Choose(cmp, u);
      assert t == u.(current := Some(w)) && o == Yielded(Head(u, w));
      assert o.value in Union(u.sets);
      BelowHeadsBelowRest(cmp, t, o.value);
    }
  }

  /** Over sorted sets, a value not after any live head is not after anything still to come. */
  lemma BelowHeadsBelowRest<T>(cmp: Comparer<T>, t: MergeState<T>, x: T)
    requires HeadsValid(t) && AllSorted(cmp, t.sets) && TotalPreorderOn(cmp, Union(t.sets))
    requires x in Union(t.sets)
    requires forall j :: 0 <= j < |t.live| ==> Le(cmp, x, Head(t, t.live[j]))
    ensures forall y :: y in Rest(t, t.live) ==> Le(cmp, x, y)
  {
    forall y | y in Rest(t, t.live) ensures Le(cmp, x, y) {
      var j, i := RestMember(t, t.live, y);
      var w := t.live[j];
      InUnion(t.sets, 0, w, i);
      InUnion(t.sets, 0, w, t.pos[w]);
      assert Le(cmp, Head(t, w), y) by {
        assert SortedBy(cmp, t.sets[w]);
      }
      assert LeChain(cmp, x, Head(t, w), y);
    }
  }

  /**
   * Over sets sorted by a comparer that orders their elements, no enumeration throws, and each one
   * yields an element not after anything still pending; on ties the earliest enumerator wins.
   */
  lemma StepMinimal<T>(cmp: Comparer<T>, s: MergeState<T>)
    requires Valid(s) && TotalPreorderOn(cmp, Union(s.sets)) && AllSorted(cmp, s.sets)
    ensures var (t, o) := Step(cmp, s); Valid(t) && !t.start && !o.NotComparable?
    ensures var (t, o) := Step(cmp, s);
      o.Yielded? ==> forall y :: y in Pending(t) ==> Le(cmp, o.value, y)
    ensures var (t, o) := Step(cmp, s);
      o.Yielded? ==> forall j, m :: 0 <= j < m < |t.live| && Some(t.live[m]) == t.current ==>
        !Le(cmp, Head(t, t.live[j]), o.value)
  {
    StepValid(cmp, s);
    if s.start {
      NonEmptyDistinct(s.sets);
      assert HeadsValid(Started(s)) by {
        StartedPending(s);
      }
      ChooseMinimal(cmp, Started(s));
    } else if s.current.Some? {
      RemoveFirstDistinct(s.live, s.current.value);
      ChooseMinimal(cmp, Advanced(s));
    }
  }

  /** Every element the merge yields from `s` on, enumeration after enumeration, until it stops. */
  ghost function Run<T>(cmp: Comparer<T>, s: MergeState<T>): seq<T>
    requires Valid(s)
    decreases |Pending(s)|
  {
    StepPending(cmp, s);
    var (t, o) := Step(cmp, s);
    if o.Yielded? then [o.value] + Run(cmp, t) else []
  }

  /**
   * Successive enumerations over sorted sets yield every element of every joined set exactly once,
   * in non-decreasing order.
   */
  lemma {:induction false} RunSorted<T>(cmp: Comparer<T>, s: MergeState<T>)
    requires Valid(s) && TotalPreorderOn(cmp, Union(s.sets)) && AllSorted(cmp, s.sets)
    ensures multiset(Run(cmp, s)) == Pending(s)
    ensures forall i, j :: 0 <= i < j < |Run(cmp, s)| ==> Le(cmp, Run(cmp, s)[i], Run(cmp, s)[j])
    decreases |Pending(s)|
  {
    StepPending(cmp, s);
    StepValid(cmp, s);
    StepMinimal(cmp, s);
    var (t, o) := Step(cmp, s);
    if o.Yielded? {
      RunSorted(cmp, t);
      var r := Run(cmp, t);
      assert Run(cmp, s) == [o.value] + r;
      ConsOrdered(cmp, o.value, r, Pending(t));
    }
  }

  /** A value not after anything in an ordered sequence can go in front of it. */
  lemma ConsOrdered<T>(cmp: Comparer<T>, x: T, r: seq<T>, p: multiset<T>)
    requires forall i, j :: 0 <= i < j < |r| ==> Le(cmp, r[i], r[j])
    requires multiset(r) == p && forall y :: y in p ==> Le(cmp, x, y)
    ensures forall i, j :: 0 <= i < j < |[x] + r| ==> Le(cmp, ([x] + r)[i], ([x] + r)[j])
  {
    forall j | 0 <= j < |r| ensures Le(cmp, x, r[j]) {
      assert r[j] in multiset(r);
    }
  }

  /** The first element of each non-empty set, in the sets' order. */
  function Firsts<T>(sets: seq<seq<T>>): (r: seq<T>)
    ensures |r| <= |sets|
  {
    if sets == [] then [] else (if sets[0] != [] then [sets[0][0]] else []) + Firsts(sets[1..])
  }

  /** All elements of `xs` are the same. */
  ghost predicate AllSame<T>(xs: seq<T>)
  {
    forall i :: 0 <= i < |xs| ==> xs[i] == xs[0]
  }

  /** The heads after the first pass are the sets' first elements. */
  lemma {:induction false} FirstsAreHeads<T>(sets: seq<seq<T>>, k: nat)
    requires k <= |sets|
    ensures |Firsts(sets[k..])| == |NonEmptyFrom(sets, k)|
    ensures forall j :: 0 <= j < |NonEmptyFrom(sets, k)| && NonEmptyFrom(sets, k)[j] < |sets| && sets[NonEmptyFrom(sets, k)[j]] != [] ==>
      Firsts(sets[k..])[j] == sets[NonEmptyFrom(sets, k)[j]][0]
    decreases |sets| - k
  {
    if k < |sets| {
      FirstsAreHeads(sets, k + 1);
      assert sets[k..][0] == sets[k] && sets[k..][1..] == sets[k + 1..];
    } else {
      assert sets[k..] == [];
    }
  }

  /** With the default comparer the scan keeps the first head, and throws at the first head that differs from it. */
  lemma {:induction false} ScanDefault<T>(s: MergeState<T>, k: nat)
    requires HeadsValid(s) && s.live != [] && s.current == Some(s.live[0]) && k <= |s.live|
    ensures Scan(DefaultComparer(), s, k).1 ==
      if forall j :: k <= j < |s.live| ==> Head(s, s.live[j]) == Head(s, s.live[0])
      then Yielded(Head(s, s.live[0])) else NotComparable
    decreases |s.live| - k
  {
    if k < |s.live| {
      if Head(s, s.live[k]) == Head(s, s.live[0]) {
        ScanDefault(s, k + 1);
      }
    }
  }

  /** A merge that has not been enumerated yet is in a valid state. */
  lemma FreshValid<T>(sets: seq<seq<T>>)
    requires |sets| >= 1
    ensures Valid(MergeState(sets, [], [], true, None))
  {
  }

  /**
   * The first enumeration of a fresh merge under the default comparer: nothing when every set is
   * empty; the first set's head when all non-empty sets start with the same object; otherwise the
   * comparer throws.
   */
  lemma DefaultFirstStep<T>(sets: seq<seq<T>>)
    requires |sets| >= 1
    ensures Valid(MergeState(sets, [], [], true, None))
    ensures var h := Firsts(sets);
      Step(DefaultComparer(), MergeState(sets, [], [], true, None)).1 ==
        if h == [] then Exhausted else if AllSame(h) then Yielded(h[0]) else NotComparable
  {
    var s := MergeState(sets, [], [], true, None);
    StartedHeads(sets);
    DefaultChoose(Started(s), Firsts(sets));
  }

  lemma StartedHeads<T>(sets: seq<seq<T>>)
    requires |sets| >= 1
    ensures var u := Started(MergeState(sets, [], [], true, None));
      && HeadsValid(u) && |Firsts(sets)| == |u.live|
      && forall j :: 0 <= j < |u.live| ==> Head(u, u.live[j]) == Firsts(sets)[j]
  {
    var u := Started(MergeState(sets, [], [], true, None));
    FirstsAreHeads(sets, 0);
    assert sets[0..] == sets;
    var h := Firsts(sets);
    forall j | 0 <= j < |u.live| ensures Head(u, u.live[j]) == h[j] {
      var i := u.live[j];
      assert u.live == NonEmptyFrom(sets, 0);
      assert u.pos[i] == 0;
      assert h[j] == sets[i][0];
    }
  }

  lemma DefaultChoose<T>(u: MergeState<T>, h: seq<T>)
    requires HeadsValid(u) && |h| == |u.live|
    requires forall j :: 0 <= j < |u.live| ==> Head(u, u.live[j]) == h[j]
    ensures Choose(DefaultComparer(), u).1 == if h == [] then Exhausted else if AllSame(h) then Yielded(h[0]) else NotComparable
  {
    if u.live != [] {
      var u0 := u.(current := Some(u.live[0]));
      ScanDefault(u0, 0);
      assert forall j :: 0 <= j < |u.live| ==> Head(u0, u.live[j]) == h[j];
    }
  }
}
