/**
 * The static registry of active actions (Action.cs) and their life cycle: admission through the
 * rangers, the per-tick duration rule, and the termination sequence through the end-rangers into
 * the log. The virtual hooks are recorded, in call order, as events of a ghost trace.
 */
module Registry {
  import opened Basics
  import opened Actions
  import opened Logs
  import Rangers
  import EndRangers

  /** A call of a virtual hook, or the end-rangers' walk with the end-rangers whose `react` ran. */
  datatype Event =
    | Modified(a: Action)
    | Started(a: Action)
    | Updated(a: Action, dtime: real)
    | Ended(a: Action)
    | Terminated(a: Action)
    | EndRangersRan(a: Action, reacted: seq<EndRangers.EndRanger>)

  /** Why `AddAction` throws. */
  datatype AddFault = AlreadyAdded | RangersThrew

  /** What `UpdateActions`' loop does to each action of `xs`, by the rule `TickOf`. */
  function TicksOf(xs: seq<Action>, dtime: real): (ts: seq<Tick>)
    reads xs
    ensures |ts| == |xs|
    ensures forall i :: 0 <= i < |xs| ==> ts[i] == TickOf(xs[i].duration, xs[i].frozen, xs[i].ethernal, dtime)
  {
    if xs == [] then []
    else TicksOf(xs[..|xs| - 1], dtime) + [TickOf(xs[|xs| - 1].duration, xs[|xs| - 1].frozen, xs[|xs| - 1].ethernal, dtime)]
  }

  /** The actions whose tick expires them, in registry order: `toRemove`. */
  function Expiring(xs: seq<Action>, ts: seq<Tick>): (r: seq<Action>)
    requires |xs| == |ts|
    ensures forall k :: 0 <= k < |r| ==> r[k] in xs
  {
    if xs == [] then []
    else Expiring(xs[..|xs| - 1], ts[..|ts| - 1]) + (if ts[|ts| - 1].expires then [xs[|xs| - 1]] else [])
  }

  /** The `OnUpdate` call of one tick, if it makes one. */
  function UpdateOf(a: Action, t: Tick): seq<Event>
  {
    if t.update.Some? then [Updated(a, t.update.value)] else []
  }

  /** The `OnUpdate` calls of the loop, in registry order. */
  function UpdateEvents(xs: seq<Action>, ts: seq<Tick>): seq<Event>
    requires |xs| == |ts|
  {
    if xs == [] then []
    else UpdateEvents(xs[..|xs| - 1], ts[..|ts| - 1]) + UpdateOf(xs[|xs| - 1], ts[|ts| - 1])
  }

  lemma TicksSnoc(xs: seq<Action>, ts: seq<Tick>, i: nat)
    requires i < |xs| == |ts|
    ensures Expiring(xs[..i + 1], ts[..i + 1]) == Expiring(xs[..i], ts[..i]) + (if ts[i].expires then [xs[i]] else [])
    ensures UpdateEvents(xs[..i + 1], ts[..i + 1])
      == UpdateEvents(xs[..i], ts[..i]) + UpdateOf(xs[i], ts[i])
  {
    assert xs[..i + 1][..i] == xs[..i] && ts[..i + 1][..i] == ts[..i];
  }

  /** The trace of `EndAction` on each of `gone` in turn: `OnEnd`, then the end-rangers. */
  function EndEvents(gone: seq<Action>, ers: seq<EndRangers.EndRanger>): seq<Event>
  {
    if gone == [] then []
    else
      var a := gone[|gone| - 1];
      EndEvents(gone[..|gone| - 1], ers) + [Ended(a), EndRangersRan(a, Basics.Filter(ers, EndRangers.InScope(a)))]
  }

  lemma EndEventsSnoc(gone: seq<Action>, j: nat, ers: seq<EndRangers.EndRanger>)
    requires j < |gone|
    ensures EndEvents(gone[..j + 1], ers)
      == EndEvents(gone[..j], ers) + [Ended(gone[j]), EndRangersRan(gone[j], Basics.Filter(ers, EndRangers.InScope(gone[j])))]
  {
    assert gone[..j + 1][..j] == gone[..j];
  }

  /** The trace of `RemoveAction`: `OnTerminate` unless `OnEnd` ran, then the end-rangers if asked for. */
  function RemovalEvents(a: Action, onEndWasCalled: bool, callEndRangers: bool, ers: seq<EndRangers.EndRanger>): (r: seq<Event>)
    ensures |r| <= 2
    ensures Terminated(a) in r <==> !onEndWasCalled
    ensures !onEndWasCalled ==> |r| >= 1 && r[0] == Terminated(a)
    ensures callEndRangers ==> |r| >= 1 && r[|r| - 1] == EndRangersRan(a, Basics.Filter(ers, EndRangers.InScope(a)))
    ensures !callEndRangers ==> forall k :: 0 <= k < |r| ==> r[k].Terminated?
  {
    (if onEndWasCalled then [] else [Terminated(a)])
      + (if callEndRangers then [EndRangersRan(a, Basics.Filter(ers, EndRangers.InScope(a)))] else [])
  }

  /** The action, when there is one, as a frame. */
  function Nonnull(a: Action?): set<Action>
  {
    if a == null then {} else {a}
  }

  class ActionRegistry {
    /** The static `actions` list. */
    var actions: seq<Action>
    /** The hooks called so far, in order. */
    ghost var events: seq<Event>
    const rangers: Rangers.RangerChain
    const endRangers: EndRangers.EndRangerChain
    const log: Log

    /** `AddAction` refuses duplicates, so no action is registered twice. */
    ghost predicate Valid()
      reads this
    {
      Distinct(actions)
    }

    constructor (rangers: Rangers.RangerChain, endRangers: EndRangers.EndRangerChain, log: Log)
      ensures Valid() && actions == [] && events == []
      ensures this.rangers == rangers && this.endRangers == endRangers && this.log == log
    {
      this.rangers, this.endRangers, this.log := rangers, endRangers, log;
      actions, events := [], [];
    }

    /** The termination sequence ran on `a`: archived, out of the registry, one log entry, its hooks traced. */
    twostate predicate Removed(a: Action, callEndRangers: bool, now: real)
      reads this, a, log, endRangers
    {
      && a.archived
      && actions == RemoveFirst(old(actions), a) && a !in actions
      && events == old(events) + RemovalEvents(a, old(a.onEndWasCalled), callEndRangers, endRangers.endRangers)
      && old(log.log) <= log.log && |log.log| == |old(log.log)| + 1 && Logged(log.log) == Logged(old(log.log)) + [a]
      && log.log[|log.log| - 1].timestamp == now && log.log[|log.log| - 1].tags == []
      && log.listeners == old(log.listeners) && log.firstFreeLId == old(log.firstFreeLId)
    }

    /** `RemoveAction(callEndRangers)`; the log timestamp, which `GetTime` stubs, is `now`. */
    method RemoveAction(a: Action, callEndRangers: bool, now: real)
      requires Valid()
      modifies this, a`archived, log
      ensures Valid() && Removed(a, callEndRangers, now)
    {
      TerminationHooks(a, callEndRangers);
      a.archived := true;
      Unregister(a);
      log.AddEntry(a, now, None);
    }

    /** The hooks of `RemoveAction`: `OnTerminate` unless `OnEnd` ran, then `CallEndRangers` if asked for. */
    method TerminationHooks(a: Action, callEndRangers: bool)
      modifies this
      ensures actions == old(actions)
      ensures events == old(events) + RemovalEvents(a, a.onEndWasCalled, callEndRangers, endRangers.endRangers)
    {
      if !a.onEndWasCalled {
        events := events + [Terminated(a)];
      }
      if callEndRangers {
        var reacted := endRangers.CallEndRangers(a);
        events := events + [EndRangersRan(a, reacted)];
      }
    }

    /** `actions.Remove(a)`: the first occurrence goes, and, with no duplicates, that is the only one. */
    method Unregister(a: Action)
      requires Valid()
      modifies this
      ensures Valid() && events == old(events)
      ensures actions == RemoveFirst(old(actions), a) && a !in actions
    {
      RemoveFirstDistinct(actions, a);
      actions := RemoveFirst(actions, a);
    }

    /** `EndAction`: `OnEnd`, then the termination sequence, which then skips `OnTerminate`. */
    method EndAction(a: Action, now: real)
      requires Valid()
      modifies this, a`archived, a`onEndWasCalled, log
      ensures Valid() && a.onEndWasCalled && a.archived
      ensures actions == RemoveFirst(old(actions), a) && a !in actions
      ensures events == old(events) + [Ended(a), EndRangersRan(a, Basics.Filter(endRangers.endRangers, EndRangers.InScope(a)))]
      ensures old(log.log) <= log.log && |log.log| == |old(log.log)| + 1 && Logged(log.log) == Logged(old(log.log)) + [a]
      ensures log.log[|log.log| - 1].timestamp == now && log.log[|log.log| - 1].tags == []
      ensures log.listeners == old(log.listeners) && log.firstFreeLId == old(log.firstFreeLId)
    {
      events := events + [Ended(a)];
      a.onEndWasCalled := true;
      RemoveAction(a, true, now);
    }

    /** `OnTrigger(code)`: `terminate` runs the termination sequence; every other code does nothing. */
    method OnTrigger(a: Action, code: ActionCode, now: real)
      requires Valid()
      modifies this, a`archived, log
      ensures Valid()
      ensures code == Terminate ==> Removed(a, true, now)
      ensures code != Terminate ==> unchanged(this, a, log)
    {
      if code == Terminate {
        RemoveAction(a, true, now);
      }
    }

    /** `DeleteAction`: `OnTerminate` unless `OnEnd` ran, and out of the registry; not archived, not logged. */
    method DeleteAction(a: Action)
      requires Valid()
      modifies this
      ensures Valid()
      ensures actions == RemoveFirst(old(actions), a) && a !in actions
      ensures events == old(events) + RemovalEvents(a, a.onEndWasCalled, false, endRangers.endRangers)
    {
      if !a.onEndWasCalled {
        events := events + [Terminated(a)];
      }
      Unregister(a);
    }

    /** The admission branch of `AddAction`, once no ranger vetoed. */
    method Admit(a: Action, now: real)
      requires Valid() && a !in actions
      modifies this, a`duration, a`archived, a`onEndWasCalled, log
      ensures Valid()
      ensures a.duration == old(a.totalDuration)
      ensures !a.instant ==> actions == old(actions) + [a] && unchanged(log)
      ensures !a.instant ==> a.archived == old(a.archived) && a.onEndWasCalled == old(a.onEndWasCalled)
      ensures !a.instant ==> events == old(events) + [Modified(a), Started(a)]
      ensures a.instant ==> actions == old(actions) && a.archived && a.onEndWasCalled
      ensures a.instant ==> events == old(events) + [Modified(a), Started(a), Ended(a),
        EndRangersRan(a, Basics.Filter(endRangers.endRangers, EndRangers.InScope(a)))]
      ensures a.instant ==> old(log.log) <= log.log && Logged(log.log) == Logged(old(log.log)) + [a]
      ensures a.instant ==> |log.log| == |old(log.log)| + 1 && log.log[|log.log| - 1].timestamp == now && log.log[|log.log| - 1].tags == []
      ensures a.instant ==> log.listeners == old(log.listeners) && log.firstFreeLId == old(log.firstFreeLId)
    {
      events := events + [Modified(a)];
      a.duration := a.totalDuration;
      assert Distinct(actions + [a]);
      actions := actions + [a];
      events := events + [Started(a)];
      if a.instant {
        ghost var started := events;
        assert started == old(events) + [Modified(a), Started(a)];
        RemoveFirstAppended(old(actions), a);
        EndAction(a, now);
        ghost var ended := [Ended(a), EndRangersRan(a, Basics.Filter(endRangers.endRangers, EndRangers.InScope(a)))];
        assert events == started + ended;
        assert old(events) + [Modified(a), Started(a)] + ended == old(events) + [Modified(a), Started(a), ended[0], ended[1]];
      }
    }

    /**
     * `AddAction`: null is accepted and changes nothing; an action already registered throws; a
     * comparer failure in `CallRangers` throws; a veto answers false; otherwise the action is admitted.
     */
    method AddAction(action: Action?, now: real) returns (r: Result<bool, AddFault>)
      requires Valid()
      modifies this, Nonnull(action)`duration, Nonnull(action)`archived, Nonnull(action)`onEndWasCalled, log
      ensures Valid()
      ensures action == null ==> r == Ok(true) && unchanged(this, log)
      ensures action != null && action in old(actions) ==> r == Err(AlreadyAdded) && unchanged(this, action, log)
      ensures action != null && action !in old(actions) && rangers.Decision(action).Err? ==>
        r == Err(RangersThrew) && unchanged(this, action, log)
      ensures action != null && action !in old(actions) && rangers.Decision(action) == Ok(true) ==>
        r == Ok(false) && unchanged(this, action, log)
      ensures action != null && action !in old(actions) && rangers.Decision(action) == Ok(false) ==>
        && r == Ok(true)
        && action.duration == old(action.totalDuration)
        && (!action.instant ==> actions == old(actions) + [action] && events == old(events) + [Modified(action), Started(action)])
        && (!action.instant ==> action.archived == old(action.archived) && action.onEndWasCalled == old(action.onEndWasCalled))
        && (!action.instant ==> unchanged(log))
        && (action.instant ==> actions == old(actions) && action.archived && action.onEndWasCalled)
        && (action.instant ==> events == old(events) + [Modified(action), Started(action), Ended(action),
          EndRangersRan(action, Basics.Filter(endRangers.endRangers, EndRangers.InScope(action)))])
        && (action.instant ==> old(log.log) <= log.log && Logged(log.log) == Logged(old(log.log)) + [action])
        && (action.instant ==> |log.log| == |old(log.log)| + 1 && log.log[|log.log| - 1].timestamp == now && log.log[|log.log| - 1].tags == [])
        && (action.instant ==> log.listeners == old(log.listeners) && log.firstFreeLId == old(log.firstFreeLId))
    {
      if action == null {
        return Ok(true);
      }
      if action in actions {
        return Err(AlreadyAdded);
      }
      var veto := rangers.CallRangers(action);
      if veto.Err? {
        return Err(RangersThrew);
      }
      if veto.value {
        return Ok(false);
      }
      Admit(action, now);
      return Ok(true);
    }

    /** `InsertAction`: appended without any check; an instant action ends at once. */
    method InsertAction(a: Action, now: real)
      requires Valid() && a !in actions
      modifies this, a`archived, a`onEndWasCalled, log
      ensures Valid()
      ensures !a.instant ==> actions == old(actions) + [a] && events == old(events) && unchanged(a, log)
      ensures a.instant ==> actions == old(actions) && a.archived && a.onEndWasCalled
      ensures a.instant ==> events == old(events) + [Ended(a), EndRangersRan(a, Basics.Filter(endRangers.endRangers, EndRangers.InScope(a)))]
      ensures a.instant ==> old(log.log) <= log.log && Logged(log.log) == Logged(old(log.log)) + [a]
      ensures a.instant ==> |log.log| == |old(log.log)| + 1 && log.log[|log.log| - 1].timestamp == now && log.log[|log.log| - 1].tags == []
      ensures a.instant ==> log.listeners == old(log.listeners) && log.firstFreeLId == old(log.firstFreeLId)
    {
      assert Distinct(actions + [a]);
      actions := actions + [a];
      if a.instant {
        RemoveFirstAppended(old(actions), a);
        EndAction(a, now);
      }
    }

    /**
     * The loop of `UpdateActions`: every action gets its tick by the rule `TickOf` (the duration it
     * runs down to and its `OnUpdate`), and the expiring ones are collected in registry order.
     */
    method Pass(dtime: real) returns (toRemove: seq<Action>)
      requires Valid()
      modifies this, actions`duration
      ensures Valid() && actions == old(actions)
      ensures forall i :: 0 <= i < |actions| ==> actions[i].duration == old(TicksOf(actions, dtime))[i].duration
      ensures toRemove == Expiring(actions, old(TicksOf(actions, dtime)))
      ensures events == old(events) + UpdateEvents(actions, old(TicksOf(actions, dtime)))
      ensures forall x :: x in actions ==> x.archived == old(x.archived) && x.onEndWasCalled == old(x.onEndWasCalled)
    {
      ghost var ts := TicksOf(actions, dtime);
      toRemove := [];
      var i := 0;
      while i < |actions|
        invariant 0 <= i <= |actions| && actions == old(actions)
        invariant forall j :: 0 <= j < i ==> actions[j].duration == ts[j].duration
        invariant forall j :: i <= j < |actions| ==> ts[j] == TickOf(actions[j].duration, actions[j].frozen, actions[j].ethernal, dtime)
        invariant toRemove == Expiring(actions[..i], ts[..i])
        invariant events == old(events) + UpdateEvents(actions[..i], ts[..i])
      {
        toRemove := PassStep(actions[i], i, dtime, ts, old(events), toRemove);
        i := i + 1;
      }
      assert actions[..i] == actions && ts[..i] == ts;
    }

    /** The bookkeeping around `Tick(actions[i])`: the loop of `Pass` has done one more action. */
    method PassStep(a: Action, i: nat, dtime: real, ghost ts: seq<Tick>, ghost evs: seq<Event>, toRemove: seq<Action>)
      returns (toRemove': seq<Action>)
      requires Valid() && i < |actions| == |ts| && a == actions[i]
      requires forall j :: 0 <= j < i ==> actions[j].duration == ts[j].duration
      requires forall j :: i <= j < |actions| ==> ts[j] == TickOf(actions[j].duration, actions[j].frozen, actions[j].ethernal, dtime)
      requires toRemove == Expiring(actions[..i], ts[..i])
      requires events == evs + UpdateEvents(actions[..i], ts[..i])
      modifies this, a`duration
      ensures actions == old(actions)
      ensures forall j :: 0 <= j <= i ==> actions[j].duration == ts[j].duration
      ensures forall j :: i < j < |actions| ==> ts[j] == TickOf(actions[j].duration, actions[j].frozen, actions[j].ethernal, dtime)
      ensures toRemove' == Expiring(actions[..i + 1], ts[..i + 1])
      ensures events == evs + UpdateEvents(actions[..i + 1], ts[..i + 1])
    {
      TicksSnoc(actions, ts, i);
      ConcatAssoc(evs, UpdateEvents(actions[..i], ts[..i]), UpdateOf(a, ts[i]));
      var expires := Tick(a, dtime, ts[i]);
      toRemove' := toRemove + if expires then [a] else [];
      assert forall j :: 0 <= j < |actions| && j != i ==> actions[j] != a;
    }

    /** One iteration of the loop in `UpdateActions`, on `a`: the rule `TickOf`, with `OnUpdate` traced. */
    method Tick(a: Action, dtime: real, ghost t: Tick) returns (expires: bool)
      requires t == TickOf(a.duration, a.frozen, a.ethernal, dtime)
      modifies this, a`duration
      ensures actions == old(actions)
      ensures a.duration == t.duration && expires == t.expires
      ensures events == old(events) + UpdateOf(a, t)
    {
      expires := false;
      if !a.frozen {
        if !a.ethernal {
          if a.duration <= dtime {
            var durationLeft := a.duration;
            a.duration := 0.0;
            expires := true;
            events := events + [Updated(a, durationLeft)];
          } else {
            a.duration := a.duration - dtime;
            events := events + [Updated(a, dtime)];
          }
        } else {
          events := events + [Updated(a, dtime)];
        }
      }
    }

    /**
     * `UpdateActions(dtime)`: the loop, then `EndAction` on each expired action in registry order.
     * Afterwards the expired actions are gone, every other one is still registered, and each expired
     * one has one log entry.
     */
    method UpdateActions(dtime: real, now: real)
      requires Valid()
      modifies this, actions`duration, actions`archived, actions`onEndWasCalled, log
      ensures Valid()
      ensures var ts := old(TicksOf(actions, dtime));
        && actions == Without(old(actions), Expiring(old(actions), ts))
        && events == old(events) + UpdateEvents(old(actions), ts) + EndEvents(Expiring(old(actions), ts), endRangers.endRangers)
        && (forall i :: 0 <= i < |old(actions)| ==> old(actions)[i].duration == ts[i].duration)
      ensures old(log.log) <= log.log
      ensures Logged(log.log) == Logged(old(log.log)) + Expiring(old(actions), old(TicksOf(actions, dtime)))
      ensures var g := Expiring(old(actions), old(TicksOf(actions, dtime)));
        forall k :: 0 <= k < |g| ==> g[k].archived && g[k].onEndWasCalled
      ensures var g := Expiring(old(actions), old(TicksOf(actions, dtime)));
        forall x :: x in old(actions) && x !in g ==> x.archived == old(x.archived) && x.onEndWasCalled == old(x.onEndWasCalled)
      ensures |log.log| == |old(log.log)| + |Expiring(old(actions), old(TicksOf(actions, dtime)))|
      ensures Stamped(log.log, |old(log.log)|, now)
      ensures log.listeners == old(log.listeners) && log.firstFreeLId == old(log.firstFreeLId)
    {
      ghost var ts := TicksOf(actions, dtime);
      ghost var acts := actions;
      var toRemove := Pass(dtime);
      assert toRemove == Expiring(acts, ts);
      assert forall k :: 0 <= k < |toRemove| ==> toRemove[k] in acts;
      ghost var passed := events;
      EndAll(toRemove, now);
      assert events == passed + EndEvents(toRemove, endRangers.endRangers);
      assert toRemove == Expiring(old(actions), old(TicksOf(actions, dtime)));
    }

    /** The `foreach` at the end of `UpdateActions`: `EndAction` on each of `gone`, in order. */
    method EndAll(gone: seq<Action>, now: real)
      requires Valid()
      modifies this, gone`archived, gone`onEndWasCalled, log
      ensures Valid() && actions == Without(old(actions), gone)
      ensures events == old(events) + EndEvents(gone, endRangers.endRangers)
      ensures old(log.log) <= log.log && Logged(log.log) == Logged(old(log.log)) + gone
      ensures forall k :: 0 <= k < |gone| ==> gone[k].archived && gone[k].onEndWasCalled
      ensures |log.log| == |old(log.log)| + |gone| && Stamped(log.log, |old(log.log)|, now)
      ensures log.listeners == old(log.listeners) && log.firstFreeLId == old(log.firstFreeLId)
      ensures forall x :: x in old(actions) && x !in gone ==> x.archived == old(x.archived) && x.onEndWasCalled == old(x.onEndWasCalled)
    {
      WithoutNone(actions);
      var j := 0;
      while j < |gone|
        invariant 0 <= j <= |gone| && Valid()
        invariant actions == Without(old(actions), gone[..j])
        invariant events == old(events) + EndEvents(gone[..j], endRangers.endRangers)
        invariant old(log.log) <= log.log && Logged(log.log) == Logged(old(log.log)) + gone[..j]
        invariant forall k :: 0 <= k < j ==> gone[k].archived && gone[k].onEndWasCalled
        invariant |log.log| == |old(log.log)| + j && Stamped(log.log, |old(log.log)|, now)
        invariant log.listeners == old(log.listeners) && log.firstFreeLId == old(log.firstFreeLId)
        invariant forall x :: x in old(actions) && x !in gone ==> x.archived == old(x.archived) && x.onEndWasCalled == old(x.onEndWasCalled)
      {
        EndNext(gone[j], gone, j, now, old(actions), old(events), old(log.log), |old(log.log)|);
        j := j + 1;
      }
      assert gone[..j] == gone;
    }

    /** One iteration of `EndAll`: `EndAction` on `gone[j]`, extending what the loop has done by one action. */
    method EndNext(a: Action, gone: seq<Action>, j: nat, now: real, ghost acts: seq<Action>, ghost evs: seq<Event>, ghost entries: seq<LogEntry>, ghost from: nat)
      requires j < |gone| && a == gone[j] && Valid() && Distinct(acts)
      requires from <= |log.log| && Stamped(log.log, from, now)
      requires actions == Without(acts, gone[..j])
      requires events == evs + EndEvents(gone[..j], endRangers.endRangers)
      requires entries <= log.log && Logged(log.log) == Logged(entries) + gone[..j]
      requires forall k :: 0 <= k < j ==> gone[k].archived && gone[k].onEndWasCalled
      modifies this, a`archived, a`onEndWasCalled, log
      ensures Valid() && a.archived && a.onEndWasCalled
      ensures forall k :: 0 <= k < j + 1 ==> gone[k].archived && gone[k].onEndWasCalled
      ensures forall x :: x in acts && x !in gone ==> x.archived == old(x.archived) && x.onEndWasCalled == old(x.onEndWasCalled)
      ensures actions == Without(acts, gone[..j + 1])
      ensures events == evs + EndEvents(gone[..j + 1], endRangers.endRangers)
      ensures entries <= log.log && Logged(log.log) == Logged(entries) + gone[..j + 1]
      ensures |log.log| == |old(log.log)| + 1 && Stamped(log.log, from, now)
      ensures log.listeners == old(log.listeners) && log.firstFreeLId == old(log.firstFreeLId)
    {
      ghost var acts0, evs0, log0 := actions, events, log.log;
      EndAction(a, now);
      EndStep(acts, gone, j, endRangers.endRangers, evs, entries, from, now, acts0, actions, evs0, events, log0, log.log);
    }

    /** `GetAll(check)`: the registered actions that pass `check`, in registry order. */
    method GetAll(check: Action -> bool) returns (result: seq<Action>)
      ensures result == Basics.Filter(actions, check)
    {
      result := [];
      for i := 0 to |actions|
        invariant result == Basics.Filter(actions[..i], check)
      {
        assert actions[..i + 1][..i] == actions[..i];
        if check(actions[i]) {
          result := result + [actions[i]];
        }
      }
      assert actions[..|actions|] == actions;
    }

    /** `Get(check)`: the first registered action that passes `check` (the head of `GetAll`), or null. */
    method Get(check: Action -> bool) returns (r: Action?)
      ensures r == if Basics.Filter(actions, check) == [] then null else Basics.Filter(actions, check)[0]
    {
      for i := 0 to |actions|
        invariant Basics.Filter(actions[..i], check) == []
      {
        assert actions[..i + 1][..i] == actions[..i];
        if check(actions[i]) {
          FilterHeadAt(actions, check, i);
          return actions[i];
        }
      }
      assert actions[..|actions|] == actions;
      return null;
    }

    /** `Any(check)`: whether some registered action passes `check`. */
    method Any(check: Action -> bool) returns (b: bool)
      ensures b <==> exists i :: 0 <= i < |actions| && check(actions[i])
      ensures b <==> Basics.Filter(actions, check) != []
    {
      for i := 0 to |actions|
        invariant forall j :: 0 <= j < i ==> !check(actions[j])
      {
        if check(actions[i]) {
          FilterEmpty(actions, check);
          return true;
        }
      }
      FilterEmpty(actions, check);
      return false;
    }
  }

  /** Every entry from position `from` on was logged at `now` without tags. */
  ghost predicate Stamped(entries: seq<LogEntry>, from: nat, now: real)
  {
    forall k :: from <= k < |entries| ==> entries[k].timestamp == now && entries[k].tags == []
  }

  /**
   * The bookkeeping of one step of `EndAll`, on the values before and after `EndAction(gone[j])`:
   * the registry, the trace and the log each extend what the first `j` steps did by `gone[j]`.
   */
  lemma EndStep(acts: seq<Action>, gone: seq<Action>, j: nat, ers: seq<EndRangers.EndRanger>, evs: seq<Event>,
                entries: seq<LogEntry>, from: nat, now: real, acts0: seq<Action>, acts1: seq<Action>,
                evs0: seq<Event>, evs1: seq<Event>, log0: seq<LogEntry>, log1: seq<LogEntry>)
    requires j < |gone| && Distinct(acts)
    requires acts0 == Without(acts, gone[..j]) && acts1 == RemoveFirst(acts0, gone[j])
    requires evs0 == evs + EndEvents(gone[..j], ers)
    requires evs1 == evs0 + [Ended(gone[j]), EndRangersRan(gone[j], Basics.Filter(ers, EndRangers.InScope(gone[j])))]
    requires entries <= log0 && Logged(log0) == Logged(entries) + gone[..j]
    requires log0 <= log1 && |log1| == |log0| + 1 && Logged(log1) == Logged(log0) + [gone[j]]
    requires from <= |log0| && Stamped(log0, from, now)
    requires log1[|log1| - 1].timestamp == now && log1[|log1| - 1].tags == []
    ensures acts1 == Without(acts, gone[..j + 1])
    ensures evs1 == evs + EndEvents(gone[..j + 1], ers)
    ensures entries <= log1 && Logged(log1) == Logged(entries) + gone[..j + 1]
    ensures Stamped(log1, from, now)
  {
    assert gone[..j + 1] == gone[..j] + [gone[j]];
    WithoutOneMore(acts, gone[..j], gone[j]);
    EndEventsSnoc(gone, j, ers);
    ConcatAssoc(evs, EndEvents(gone[..j], ers), [Ended(gone[j]), EndRangersRan(gone[j], Basics.Filter(ers, EndRangers.InScope(gone[j])))]);
    ConcatAssoc(Logged(entries), gone[..j], [gone[j]]);
    StampedSnoc(log0, log1, from, now);
  }

  /** One more entry at `now` without tags keeps the entries from `from` on stamped. */
  lemma StampedSnoc(before: seq<LogEntry>, after: seq<LogEntry>, from: nat, now: real)
    requires Stamped(before, from, now) && from <= |before|
    requires before <= after && |after| == |before| + 1
    requires after[|before|].timestamp == now && after[|before|].tags == []
    ensures Stamped(after, from, now)
  {
    forall k | from <= k < |after| ensures after[k].timestamp == now && after[k].tags == [] {
      if k < |before| {
        assert after[k] == before[k];
      }
    }
  }

  /** When nothing before position `i` passes and `xs[i]` does, `xs[i]` heads the filter. */
  lemma {:induction false} FilterHeadAt<T>(xs: seq<T>, p: T -> bool, i: nat)
    requires i < |xs| && Basics.Filter(xs[..i], p) == [] && p(xs[i])
    ensures Basics.Filter(xs, p) != [] && Basics.Filter(xs, p)[0] == xs[i]
  {
    assert xs == xs[..i] + [xs[i]] + xs[i + 1..];
    FilterConcat(xs[..i] + [xs[i]], xs[i + 1..], p);
    assert [xs[i]][..0] == [];
    assert Basics.Filter([xs[i]], p) == [xs[i]];
    FilterConcat(xs[..i], [xs[i]], p);
  }

  /** The remaining duration after running down ticks of `dts` (neither frozen nor ethernal). */
  function RunDown(d: real, dts: seq<real>): real
    decreases |dts|
  {
    if dts == [] then d else RunDown(TickOf(d, false, false, dts[0]).duration, dts[1..])
  }

  /** The sum of the `OnUpdate` arguments over those ticks. */
  function Consumed(d: real, dts: seq<real>): real
    decreases |dts|
  {
    if dts == [] then 0.0
    else TickOf(d, false, false, dts[0]).update.value + Consumed(TickOf(d, false, false, dts[0]).duration, dts[1..])
  }

  /**
   * An admitted action starts with `duration == totalDuration`; as long as it is neither frozen nor
   * ethernal and its total is not changed, what is left plus what `OnUpdate` received is that
   * total, and what is left never goes below 0.
   */
  lemma {:induction false} Balanced(total: real, dts: seq<real>)
    ensures RunDown(total, dts) + Consumed(total, dts) == total
    ensures total >= 0.0 ==> RunDown(total, dts) >= 0.0
    decreases |dts|
  {
    if dts != [] {
      var t := TickOf(total, false, false, dts[0]);
      Balanced(t.duration, dts[1..]);
    }
  }
}
