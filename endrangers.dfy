/**
 * Termination interceptors (EndRanger.cs): end-rangers registered in one global set sorted by
 * (priority, id), all of which see every ending action.
 */
module EndRangers {
  import opened Basics
  import opened Priority
  import opened Actions

  class EndRanger {
    const name: string
    const priority: real
    const id: nat
    /** The scope delegate; the void `react` delegate is recorded only as having run. */
    const scope: Action -> bool

    constructor (scope: Action -> bool, priority: real, name: string, id: nat)
      ensures this.scope == scope && this.priority == priority && this.name == name && this.id == id
    {
      this.scope, this.priority, this.name, this.id := scope, priority, name, id;
    }
  }

  function Prio(e: EndRanger): real { e.priority }

  function Id(e: EndRanger): int { e.id }

  /** Whether `Call(action)` runs `react`: exactly when the action is in the end-ranger's scope. */
  function InScope(a: Action): EndRanger -> bool
  {
    (e: EndRanger) => e.scope(a)
  }

  /** The end-rangers that react to an ending action are exactly those of the set whose scope accepts it. */
  lemma {:induction false} InScopeReacts(a: Action, ers: seq<EndRanger>)
    ensures forall i :: 0 <= i < |Filter(ers, InScope(a))| ==> Filter(ers, InScope(a))[i] in ers && Filter(ers, InScope(a))[i].scope(a)
    ensures forall i :: 0 <= i < |ers| && ers[i].scope(a) ==> ers[i] in Filter(ers, InScope(a))
  {
    FilterMembers(ers, InScope(a));
  }

  /** The static state of EndRanger.cs: `endRangers` and `firstFreeId`. */
  class EndRangerChain {
    var endRangers: seq<EndRanger>
    var firstFreeId: nat

    /** The set is sorted by (priority, id) and every id is below the counter. */
    ghost predicate Valid()
      reads this
    {
      && Sorted(endRangers, Prio, Id)
      && forall i :: 0 <= i < |endRangers| ==> endRangers[i].id < firstFreeId
    }

    constructor ()
      ensures Valid() && endRangers == [] && firstFreeId == 0
    {
      endRangers, firstFreeId := [], 0;
    }

    /** `new EndRanger(scope, react, priority, name)`: the next id, added to the sorted set. */
    method Register(scope: Action -> bool, priority: real, name: string) returns (e: EndRanger)
      requires Valid()
      modifies this
      ensures Valid() && fresh(e)
      ensures e.scope == scope && e.priority == priority && e.name == name
      ensures e.id == old(firstFreeId) && firstFreeId == old(firstFreeId) + 1
      ensures endRangers == Insert(old(endRangers), e, Prio, Id)
      ensures multiset(endRangers) == multiset(old(endRangers)) + multiset{e}
    {
      e := new EndRanger(scope, priority, name, firstFreeId);
      Add(e);
    }

    /** The body of the `EndRanger` constructor after the fields are set: `endRangers.Add(this)`. */
    method Add(e: EndRanger)
      requires Valid() && e.id == firstFreeId
      modifies this
      ensures Valid()
      ensures firstFreeId == old(firstFreeId) + 1
      ensures endRangers == Insert(old(endRangers), e, Prio, Id)
      ensures multiset(endRangers) == multiset(old(endRangers)) + multiset{e}
    {
      InsertKeepsSorted(endRangers, e, Prio, Id);
      InsertFresh(endRangers, e, Prio, Id);
      endRangers, firstFreeId := Insert(endRangers, e, Prio, Id), firstFreeId + 1;
    }

    /**
     * `CallEndRangers`: `Call` on every registered end-ranger in the set's order, without
     * short-circuit or group filter; the result lists those whose `react` ran, in that order.
     */
    method CallEndRangers(a: Action) returns (reacted: seq<EndRanger>)
      ensures reacted == Filter(endRangers, InScope(a))
      ensures forall i :: 0 <= i < |endRangers| ==> (endRangers[i] in reacted <==> endRangers[i].scope(a))
      ensures forall i :: 0 <= i < |reacted| ==> reacted[i] in endRangers
    {
      reacted := [];
      var i := 0;
      while i < |endRangers|
        invariant 0 <= i <= |endRangers|
        invariant reacted == Filter(endRangers[..i], InScope(a))
      {
        assert endRangers[..i + 1][..i] == endRangers[..i];
        if endRangers[i].scope(a) {
          reacted := reacted + [endRangers[i]];
        }
        i := i + 1;
      }
      assert endRangers[..i] == endRangers;
      FilterMembers(endRangers, InScope(a));
    }
  }

  /** The end-rangers whose `react` runs do so in ascending (priority, id) order. */
  lemma EndRangersInOrder(c: EndRangerChain, a: Action)
    requires c.Valid()
    ensures Sorted(Filter(c.endRangers, InScope(a)), Prio, Id)
  {
    FilterSorted(c.endRangers, InScope(a), Prio, Id);
  }

  /** Ids come from a counter, so two different registered end-rangers never compare equal. */
  lemma EndRangersNeverTie(c: EndRangerChain)
    requires c.Valid()
    ensures Distinct(c.endRangers)
    ensures forall i, j :: 0 <= i < |c.endRangers| && 0 <= j < |c.endRangers| && i != j ==>
      Compare(c.endRangers[i].priority, c.endRangers[i].id, c.endRangers[j].priority, c.endRangers[j].id) != 0
  {
    SortedNeverTie(c.endRangers, Prio, Id);
  }
}
