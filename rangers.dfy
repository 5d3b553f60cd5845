/**
 * Admission interceptors (Ranger.cs): rangers registered in one global sorted set and in one
 * sorted set per group, both ordered by (priority, id), and `CallRangers`, which asks them whether
 * a new action is vetoed.
 */
module Rangers {
  import opened Basics
  import opened Priority
  import opened Groups
  import opened Actions
  import Merge

  /** What `Ranger.Call` does with an action: nothing when it is out of scope, else `react`'s answer. */
  datatype Verdict = OutOfScope | Reacted(veto: bool)

  /** `Call` returned true. */
  predicate Vetoes(v: Verdict)
  {
    v.Reacted? && v.veto
  }

  /** `CallRangers` throws: `Comparer<Ranger>.Default` cannot compare two different rangers. */
  datatype RangerFault = ComparerThrew

  class Ranger {
    const name: string
    const group: Group
    const priority: real
    const id: nat
    /** The delegates, as functions of the action. */
    const scope: Action -> bool
    const react: Action -> bool

    constructor (scope: Action -> bool, react: Action -> bool, group: Group, priority: real, name: string, id: nat)
      ensures this.scope == scope && this.react == react && this.group == group
      ensures this.priority == priority && this.name == name && this.id == id
    {
      this.scope, this.react, this.group := scope, react, group;
      this.priority, this.name, this.id := priority, name, id;
    }

    /** `Call`: `react` runs only for an action in scope, and then decides the veto. */
    function Call(a: Action): (v: Verdict)
      ensures v.OutOfScope? <==> !scope(a)
      ensures v.Reacted? ==> v.veto == react(a)
      ensures Vetoes(v) <==> scope(a) && react(a)
    {
      if !scope(a) then OutOfScope else Reacted(react(a))
    }
  }

  function Prio(r: Ranger): real { r.priority }

  function Id(r: Ranger): int { r.id }

  /** `SortByPriority` as a comparer for the merge. */
  function PriorityComparer(): Merge.Comparer<Ranger>
  {
    (x: Ranger, y: Ranger) => Some(Compare(x.priority, x.id, y.priority, y.id))
  }

  /** The static state of Ranger.cs: `rangers`, `rangersByGroups` and `firstFreeId`. */
  class RangerChain {
    var rangers: seq<Ranger>
    var byGroup: map<Group, seq<Ranger>>
    var firstFreeId: nat
    /** `Action.Group.all`. */
    const all: Group

    /**
     * Both kinds of set are sorted by (priority, id); ids are below the counter; every group set
     * holds rangers of that group, all registered globally, and every ranger is in its group's set.
     */
    ghost predicate Valid()
      reads this
    {
      ChainValid(rangers, byGroup, firstFreeId)
    }

    constructor (all: Group)
      ensures Valid() && rangers == [] && byGroup == map[] && firstFreeId == 0 && this.all == all
    {
      this.all := all;
      rangers, byGroup, firstFreeId := [], map[], 0;
    }

    /**
     * `new Ranger(scope, react, group, priority, name)`: the next id, `group` defaulting to `all`,
     * added to the global set and to its group's set, which is created when missing.
     */
    method Register(scope: Action -> bool, react: Action -> bool, group: Group?, priority: real, name: string)
      returns (r: Ranger)
      requires Valid()
      modifies this
      ensures Valid() && fresh(r)
      ensures r.scope == scope && r.react == react && r.priority == priority && r.name == name
      ensures r.group == (if group == null then all else group)
      ensures r.id == old(firstFreeId) && firstFreeId == old(firstFreeId) + 1
      ensures rangers == Insert(old(rangers), r, Prio, Id)
      ensures byGroup == old(byGroup)[r.group := Insert(if r.group in old(byGroup) then old(byGroup)[r.group] else [], r, Prio, Id)]
      ensures multiset(rangers) == multiset(old(rangers)) + multiset{r}
      ensures multiset(byGroup[r.group]) == multiset(if r.group in old(byGroup) then old(byGroup)[r.group] else []) + multiset{r}
    {
      var g := if group == null then all else group;
      r := new Ranger(scope, react, g, priority, name, firstFreeId);
      Add(r);
    }

    /** The body of the `Ranger` constructor after the fields are set: `rangers.Add` and the group's `Add`. */
    method Add(r: Ranger)
      requires Valid() && r.id == firstFreeId
      modifies this
      ensures Valid()
      ensures firstFreeId == old(firstFreeId) + 1
      ensures rangers == Insert(old(rangers), r, Prio, Id)
      ensures byGroup == old(byGroup)[r.group := Insert(if r.group in old(byGroup) then old(byGroup)[r.group] else [], r, Prio, Id)]
      ensures multiset(rangers) == multiset(old(rangers)) + multiset{r}
      ensures multiset(byGroup[r.group]) == multiset(if r.group in old(byGroup) then old(byGroup)[r.group] else []) + multiset{r}
    {
      var set0 := if r.group in byGroup then byGroup[r.group] else [];
      var rs, bg := Insert(rangers, r, Prio, Id), byGroup[r.group := Insert(set0, r, Prio, Id)];
      RegisterKeepsValid(rangers, byGroup, firstFreeId, r, rs, bg);
      RegisterAdds(rangers, byGroup, firstFreeId, r, rs, bg);
      rangers, byGroup, firstFreeId := rs, bg, firstFreeId + 1;
      assert ChainValid(rangers, byGroup, firstFreeId);
    }

    /** The sets `CallRangers` joins after its empty default-comparer set: `all`'s, then the action's group's. */
    function Joined(a: Action): seq<seq<Ranger>>
      reads this
    {
      (if all in byGroup then [byGroup[all]] else []) + (if a.group in byGroup then [byGroup[a.group]] else [])
    }

    /**
     * `CallRangers` as written. The merge compares with `sets[0].Comparer`, the default comparer of
     * the empty set it starts from, and the `foreach` sees one element, because the enumerator yields
     * once per enumeration. So: no ranger in either set, no veto; the first ranger of the `all` set
     * (or, without one, of the group's set) decides when it is the only head or both heads are the
     * same ranger; with two different heads the comparer throws.
     */
    ghost function Decision(a: Action): (r: Result<bool, RangerFault>)
      reads this
      ensures r.Err? ==> |Merge.Firsts(Joined(a))| == 2
      ensures r == Ok(true) ==> exists x :: x in Merge.Firsts(Joined(a)) && x.scope(a) && x.react(a)
    {
      var h := Merge.Firsts(Joined(a));
      if h == [] then Ok(false) else if Merge.AllSame(h) then Ok(Vetoes(h[0].Call(a))) else Err(ComparerThrew)
    }

    /** `CallRangers`: true is a veto; an error is the exception the comparer throws. */
    method CallRangers(a: Action) returns (r: Result<bool, RangerFault>)
      ensures r == Decision(a)
    {
      var o := JoinFirst(a);
      r := Ok(false);
      if o.Yielded? {
        if Vetoes(o.value.Call(a)) {
          r := Ok(true);
        }
      } else if o.NotComparable? {
        r := Err(ComparerThrew);
      }
    }

    /**
     * `Join(applicable)` and the first `MoveNext` of the `foreach` over it: the merge of an empty
     * set with the `all` set and the group's set yields the common first element, fails to compare
     * two different ones, or is exhausted at once.
     */
    method JoinFirst(a: Action) returns (o: Merge.Outcome<Ranger>)
      ensures var h := Merge.Firsts(Joined(a));
        o == if h == [] then Merge.Exhausted else if Merge.AllSame(h) then Merge.Yielded(h[0]) else Merge.NotComparable
    {
      var m := new Merge.MergeEnumerator<Ranger>([], Merge.DefaultComparer());
      ghost var sets: seq<seq<Ranger>> := [[]];
      if all in byGroup {
        Merge.FreshValid(sets);
        m.AddSet(byGroup[all]);
        sets := sets + [byGroup[all]];
      }
      assert m.State() == Merge.MergeState(sets, [], [], true, None);
      if a.group in byGroup {
        Merge.FreshValid(sets);
        m.AddSet(byGroup[a.group]);
        sets := sets + [byGroup[a.group]];
      }
      assert m.State() == Merge.MergeState(sets, [], [], true, None);
      assert sets == [[]] + Joined(a);
      Merge.FreshValid(sets);
      FirstOutcome(sets);
      o := m.Next();
    }
  }

  /** The first outcome of the merge `Join` builds, in terms of the joined sets' first elements. */
  lemma FirstOutcome(sets: seq<seq<Ranger>>)
    requires |sets| >= 1 && sets[0] == []
    ensures var h := Merge.Firsts(sets[1..]);
      Merge.Step(Merge.DefaultComparer(), Merge.MergeState(sets, [], [], true, None)).1 ==
        if h == [] then Merge.Exhausted else if Merge.AllSame(h) then Merge.Yielded(h[0]) else Merge.NotComparable
  {
    Merge.DefaultFirstStep(sets);
    assert Merge.Firsts(sets) == Merge.Firsts(sets[1..]);
  }

  /** `SortByPriority` is antisymmetric in sign and returns 0 only for equal (priority, id). */
  lemma SortByPriorityIsStrict(x: Ranger, y: Ranger)
    ensures PriorityComparer()(x, y).value == -PriorityComparer()(y, x).value
    ensures PriorityComparer()(x, y).value == 0 <==> x.priority == y.priority && x.id == y.id
  {
    CompareAntisymmetric(x.priority, x.id, y.priority, y.id);
  }

  /**
   * `SortedSet.Add` never drops a registered ranger: no ranger is registered twice and any two
   * different registered rangers compare unequal under `SortByPriority`.
   */
  lemma RegisteredNeverTie(c: RangerChain)
    requires c.Valid()
    ensures Distinct(c.rangers)
    ensures forall i, j :: 0 <= i < |c.rangers| && 0 <= j < |c.rangers| && i != j ==>
      Compare(c.rangers[i].priority, c.rangers[i].id, c.rangers[j].priority, c.rangers[j].id) != 0
  {
    SortedNeverTie(c.rangers, Prio, Id);
  }

  /** The priority comparer orders every set of rangers totally. */
  lemma PriorityTotal(e: multiset<Ranger>)
    ensures Merge.TotalPreorderOn(PriorityComparer(), e)
  {
    forall x, y | x in e && y in e
      ensures Merge.Sign(PriorityComparer()(x, y).value) == -Merge.Sign(PriorityComparer()(y, x).value)
    {
      CompareAntisymmetric(x.priority, x.id, y.priority, y.id);
    }
  }

  /** A set sorted by `SortByPriority` is in the priority comparer's order. */
  lemma SortedIsOrdered(xs: seq<Ranger>)
    requires Sorted(xs, Prio, Id)
    ensures Merge.SortedBy(PriorityComparer(), xs)
  {
    forall i, j | 0 <= i <= j < |xs| ensures Merge.Le(PriorityComparer(), xs[i], xs[j]) {
      if i < j {
        assert Compare(Prio(xs[i]), Id(xs[i]), Prio(xs[j]), Id(xs[j])) < 0;
      }
    }
  }

  /**
   * The merge `CallRangers` builds, enumerated to the end under `SortByPriority` instead of the
   * default comparer, walks the rangers of both sets once each in ascending (priority, id) order.
   */
  lemma PriorityWalk(c: RangerChain, a: Action)
    requires c.Valid()
    ensures var s := Merge.MergeState([[]] + c.Joined(a), [], [], true, None);
      && Merge.Valid(s)
      && multiset(Merge.Run(PriorityComparer(), s)) == Merge.Union([[]] + c.Joined(a))
      && forall i, j :: 0 <= i < j < |Merge.Run(PriorityComparer(), s)| ==>
           Merge.Le(PriorityComparer(), Merge.Run(PriorityComparer(), s)[i], Merge.Run(PriorityComparer(), s)[j])
  {
    var sets := [[]] + c.Joined(a);
    var s := Merge.MergeState(sets, [], [], true, None);
    PriorityTotal(Merge.Union(sets));
    forall j | 0 <= j < |sets| ensures Merge.SortedBy(PriorityComparer(), sets[j]) {
      if j == 0 {
        SortedIsOrdered(sets[j]);
      } else {
        var g := if j == 1 && c.all in c.byGroup then c.all else a.group;
        assert sets[j] == c.byGroup[g];
        GroupSetShape(c.rangers, c.byGroup, c.firstFreeId, g);
        SortedIsOrdered(sets[j]);
      }
    }
    Merge.RunSorted(PriorityComparer(), s);
  }

  /**
   * The as-written `CallRangers` throws exactly when the `all` set and the action's own group's
   * set both hold rangers and the action's group is not `all`.
   */
  lemma ThrowsIffTwoGroups(c: RangerChain, a: Action)
    requires c.Valid()
    ensures var h := Merge.Firsts(c.Joined(a));
      !Merge.AllSame(h) <==>
        a.group != c.all && c.all in c.byGroup && c.byGroup[c.all] != [] && a.group in c.byGroup && c.byGroup[a.group] != []
  {
    var sets := c.Joined(a);
    if c.all in c.byGroup && a.group in c.byGroup {
      assert sets == [c.byGroup[c.all], c.byGroup[a.group]];
      assert sets[1..] == [c.byGroup[a.group]] && |sets[2..]| == 0;
      if c.byGroup[c.all] != [] && c.byGroup[a.group] != [] {
        assert Merge.Firsts(sets) == [c.byGroup[c.all][0], c.byGroup[a.group][0]];
        var x, y := c.byGroup[c.all][0], c.byGroup[a.group][0];
        GroupSetShape(c.rangers, c.byGroup, c.firstFreeId, c.all);
        GroupSetShape(c.rangers, c.byGroup, c.firstFreeId, a.group);
        assert Merge.AllSame([x, y]) <==> x == y by {
          assert [x, y][1] == y;
        }
        assert x.group == c.all && y.group == a.group;
      }
    } else if c.all in c.byGroup {
      assert sets == [c.byGroup[c.all]] && |sets[1..]| == 0;
    } else if a.group in c.byGroup {
      assert sets == [c.byGroup[a.group]] && |sets[1..]| == 0;
    }
  }

  /** The first ranger of the `all` set, or, when it has none, of the action's own group's set. */
  function FirstHead(c: RangerChain, a: Action): Option<Ranger>
    reads c
  {
    if c.all in c.byGroup && c.byGroup[c.all] != [] then Some(c.byGroup[c.all][0])
    else if a.group in c.byGroup && c.byGroup[a.group] != [] then Some(c.byGroup[a.group][0])
    else None
  }

  /**
   * When `CallRangers` does not throw, it consults one ranger, `FirstHead`, drawn from the `all`
   * set or the action's group's set, and vetoes exactly when that ranger's `Call` does.
   */
  lemma {:induction false} AnswerIsFirstHead(c: RangerChain, a: Action)
    requires c.Valid() && c.Decision(a).Ok?
    ensures c.Decision(a).value <==> FirstHead(c, a).Some? && Vetoes(FirstHead(c, a).value.Call(a))
  {
    var sets := c.Joined(a);
    if c.all in c.byGroup && a.group in c.byGroup {
      assert sets == [c.byGroup[c.all], c.byGroup[a.group]];
      assert sets[1..] == [c.byGroup[a.group]] && |sets[2..]| == 0;
      if c.byGroup[c.all] != [] && c.byGroup[a.group] != [] {
        assert Merge.Firsts(sets) == [c.byGroup[c.all][0], c.byGroup[a.group][0]];
      } else if c.byGroup[c.all] != [] {
        assert Merge.Firsts(sets) == [c.byGroup[c.all][0]];
      } else if c.byGroup[a.group] != [] {
        assert Merge.Firsts(sets) == [c.byGroup[a.group][0]];
      } else {
        assert Merge.Firsts(sets) == [];
      }
    } else if c.all in c.byGroup {
      assert sets == [c.byGroup[c.all]] && |sets[1..]| == 0;
    } else if a.group in c.byGroup {
      assert sets == [c.byGroup[a.group]] && |sets[1..]| == 0;
    } else {
      assert sets == [];
    }
  }

  /** Membership of a ranger in group `g`, as a filter. */
  function InGroup(g: Group): Ranger -> bool
  {
    (x: Ranger) => x.group == g
  }

  /** The rangers of group `g`, in their order in `rangers`. */
  function OfGroup(rangers: seq<Ranger>, g: Group): seq<Ranger>
  {
    if rangers == [] then []
    else OfGroup(rangers[..|rangers| - 1], g) + (if rangers[|rangers| - 1].group == g then [rangers[|rangers| - 1]] else [])
  }

  /** `OfGroup` is the filter by `InGroup`. */
  lemma {:induction false} OfGroupIsFilter(rangers: seq<Ranger>, g: Group)
    ensures OfGroup(rangers, g) == Filter(rangers, InGroup(g))
  {
    if rangers != [] {
      OfGroupIsFilter(rangers[..|rangers| - 1], g);
    }
  }

  /**
   * The invariant of the chain's state: the global set is sorted by (priority, id) with ids below
   * the counter, every registered ranger's group has a set, and each group's set is exactly the
   * global set's rangers of that group, in the same order.
   */
  ghost predicate ChainValid(rangers: seq<Ranger>, byGroup: map<Group, seq<Ranger>>, next: nat)
  {
    && Sorted(rangers, Prio, Id)
    && (forall i :: 0 <= i < |rangers| ==> rangers[i].id < next)
    && (forall i :: 0 <= i < |rangers| ==> rangers[i].group in byGroup)
    && (forall g :: g in byGroup ==> byGroup[g] == OfGroup(rangers, g))
  }

  /** Registering a ranger under the next id keeps the chain's invariant. */
  lemma RegisterKeepsValid(rangers: seq<Ranger>, byGroup: map<Group, seq<Ranger>>, next: nat, r: Ranger,
                           rs: seq<Ranger>, bg: map<Group, seq<Ranger>>)
    requires ChainValid(rangers, byGroup, next) && r.id == next
    requires rs == Insert(rangers, r, Prio, Id)
    requires bg == byGroup[r.group := Insert(if r.group in byGroup then byGroup[r.group] else [], r, Prio, Id)]
    ensures ChainValid(rs, bg, next + 1)
  {
    InsertKeepsSorted(rangers, r, Prio, Id);
    InsertFresh(rangers, r, Prio, Id);
    RegisterSets(rangers, byGroup, next, r, rs, bg);
    RegisterFiles(rangers, byGroup, r, rs, bg);
  }

  /** After registration each group's set is still the global set filtered by group. */
  lemma RegisterSets(rangers: seq<Ranger>, byGroup: map<Group, seq<Ranger>>, next: nat, r: Ranger,
                     rs: seq<Ranger>, bg: map<Group, seq<Ranger>>)
    requires ChainValid(rangers, byGroup, next) && r.id == next
    requires rs == Insert(rangers, r, Prio, Id)
    requires bg == byGroup[r.group := Insert(if r.group in byGroup then byGroup[r.group] else [], r, Prio, Id)]
    ensures forall h :: h in bg ==> bg[h] == OfGroup(rs, h)
  {
    var g := r.group;
    var set0 := if g in byGroup then byGroup[g] else [];
    assert set0 == OfGroup(rangers, g) by {
      if g !in byGroup {
        OfGroupIsFilter(rangers, g);
        FilterNone(rangers, InGroup(g));
      }
    }
    forall h | h in bg ensures bg[h] == OfGroup(rs, h) {
      RegisterSet(rangers, r, h);
    }
  }

  /** Group `h`'s set after inserting `r` into the global set. */
  lemma RegisterSet(rangers: seq<Ranger>, r: Ranger, h: Group)
    requires Sorted(rangers, Prio, Id)
    requires forall i :: 0 <= i < |rangers| ==> rangers[i].id < r.id
    ensures OfGroup(Insert(rangers, r, Prio, Id), h) ==
      if r.group == h then Insert(OfGroup(rangers, h), r, Prio, Id) else OfGroup(rangers, h)
  {
    OfGroupIsFilter(Insert(rangers, r, Prio, Id), h);
    OfGroupIsFilter(rangers, h);
    assert forall k :: 0 <= k < |rangers| ==> Compare(Prio(r), Id(r), Prio(rangers[k]), Id(rangers[k])) != 0;
    InsertFilter(rangers, r, InGroup(h), Prio, Id);
    assert InGroup(h)(r) == (r.group == h);
  }

  /** A group's set is sorted and holds rangers of that group only. */
  lemma GroupSetShape(rangers: seq<Ranger>, byGroup: map<Group, seq<Ranger>>, next: nat, g: Group)
    requires ChainValid(rangers, byGroup, next) && g in byGroup
    ensures Sorted(byGroup[g], Prio, Id)
    ensures forall i :: 0 <= i < |byGroup[g]| ==> byGroup[g][i].group == g
  {
    OfGroupIsFilter(rangers, g);
    FilterSorted(rangers, InGroup(g), Prio, Id);
    FilterMembers(rangers, InGroup(g));
    forall i | 0 <= i < |byGroup[g]| ensures byGroup[g][i].group == g {
      assert InGroup(g)(byGroup[g][i]);
    }
  }

  /** After registration every registered ranger's group still has a set. */
  lemma RegisterFiles(rangers: seq<Ranger>, byGroup: map<Group, seq<Ranger>>, r: Ranger,
                      rs: seq<Ranger>, bg: map<Group, seq<Ranger>>)
    requires forall i :: 0 <= i < |rangers| ==> rangers[i].group in byGroup
    requires rs == Insert(rangers, r, Prio, Id)
    requires bg == byGroup[r.group := Insert(if r.group in byGroup then byGroup[r.group] else [], r, Prio, Id)]
    ensures forall i :: 0 <= i < |rs| ==> rs[i].group in bg
  {
    InsertElements(rangers, r, Prio, Id);
    forall i | 0 <= i < |rs| ensures rs[i].group in bg {
      assert rs[i] in multiset(rs);
      if rs[i] != r {
        assert rs[i] in multiset(rangers);
        var m :| 0 <= m < |rangers| && rangers[m] == rs[i];
      }
    }
  }

  /** Registering adds the ranger to the global set and to its group's set, and files the group. */
  lemma RegisterAdds(rangers: seq<Ranger>, byGroup: map<Group, seq<Ranger>>, next: nat, r: Ranger,
                     rs: seq<Ranger>, bg: map<Group, seq<Ranger>>)
    requires ChainValid(rangers, byGroup, next) && r.id == next
    requires rs == Insert(rangers, r, Prio, Id)
    requires bg == byGroup[r.group := Insert(if r.group in byGroup then byGroup[r.group] else [], r, Prio, Id)]
    ensures multiset(rs) == multiset(rangers) + multiset{r}
    ensures multiset(bg[r.group]) == multiset(if r.group in byGroup then byGroup[r.group] else []) + multiset{r}
  {
    InsertFresh(rangers, r, Prio, Id);
    var set0 := if r.group in byGroup then byGroup[r.group] else [];
    forall i | 0 <= i < |set0| ensures set0[i].id < r.id {
      OfGroupIsFilter(rangers, r.group);
      FilterMembers(rangers, InGroup(r.group));
      assert set0[i] in rangers;
    }
    InsertFresh(set0, r, Prio, Id);
  }
}
