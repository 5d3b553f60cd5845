/**
 * The state of one `Action` (Action.cs): its flags, its total and remaining duration, its group,
 * and the arithmetic of the duration rules. The static registry of actions is in module Registry.
 */
module Actions {
  import opened Basics
  import opened Groups

  /** The `ActionCode` instances handed to `OnTrigger`. */
  datatype ActionCode = SourceDeath | CCd | Irrelevant | Cancelled | Terminate

  class Action {
    var frozen: bool
    var ethernal: bool
    var archived: bool
    const instant: bool
    /** Whether `OnEnd` has run, so that removal skips `OnTerminate`. */
    var onEndWasCalled: bool
    var totalDuration: real
    /** What is left to run; set to `totalDuration` when the action is admitted. */
    var duration: real
    const group: Group

    /** `Action(Args)` (and, with `group` = `Group.ungrouped`, the positional constructor). */
    constructor (duration: real, ethernal: bool, frozen: bool, instant: bool, group: Group)
      ensures totalDuration == duration && this.duration == 0.0
      ensures this.ethernal == ethernal && this.frozen == frozen && this.instant == instant && this.group == group
      ensures !archived && !onEndWasCalled
    {
      totalDuration := duration;
      this.duration := 0.0;
      this.ethernal, this.frozen, this.instant, this.group := ethernal, frozen, instant, group;
      archived, onEndWasCalled := false, false;
    }

    /** `ChangeTotalDuration`: with `addAhead` the remaining duration moves by the change, and never below 0. */
    method ChangeTotalDuration(newTotal: real, addAhead: bool)
      modifies this
      ensures totalDuration == newTotal
      ensures duration == if addAhead then Shifted(old(duration), old(totalDuration), newTotal) else old(duration)
      ensures frozen == old(frozen) && ethernal == old(ethernal) && archived == old(archived)
      ensures onEndWasCalled == old(onEndWasCalled)
    {
      if addAhead {
        duration := duration + (newTotal - totalDuration);
        if duration < 0.0 {
          duration := 0.0;
        }
      }
      totalDuration := newTotal;
    }

    /** The `totalDuration` property setter. */
    method SetTotalDuration(newTotal: real)
      modifies this
      ensures totalDuration == newTotal
      ensures duration == Shifted(old(duration), old(totalDuration), newTotal)
      ensures frozen == old(frozen) && ethernal == old(ethernal) && archived == old(archived)
      ensures onEndWasCalled == old(onEndWasCalled)
    {
      ChangeTotalDuration(newTotal, true);
    }

    method SetFrozen(b: bool)
      modifies this
      ensures frozen == b
      ensures ethernal == old(ethernal) && archived == old(archived) && onEndWasCalled == old(onEndWasCalled)
      ensures duration == old(duration) && totalDuration == old(totalDuration)
    {
      frozen := b;
    }

    method SetEthernal(b: bool)
      modifies this
      ensures ethernal == b
      ensures frozen == old(frozen) && archived == old(archived) && onEndWasCalled == old(onEndWasCalled)
      ensures duration == old(duration) && totalDuration == old(totalDuration)
    {
      ethernal := b;
    }
  }

  /**
   * The remaining duration after the total changes from `oldTotal` to `newTotal` with `addAhead`:
   * never negative, and, unless clamped, the time already run (total minus remaining) is kept.
   */
  function Shifted(d: real, oldTotal: real, newTotal: real): (r: real)
    ensures r >= 0.0
    ensures d + (newTotal - oldTotal) >= 0.0 ==> newTotal - r == oldTotal - d
    ensures d + (newTotal - oldTotal) < 0.0 ==> r == 0.0
  {
    Max(0.0, d + (newTotal - oldTotal))
  }

  /** What one `UpdateActions` pass does to an action: its new duration, its `OnUpdate` argument, and whether it ends. */
  datatype Tick = Tick(duration: real, update: Option<real>, expires: bool)

  /**
   * The per-action rule of `UpdateActions`: a frozen action is skipped; an ethernal one gets
   * `OnUpdate(dtime)` and keeps its duration; any other one runs down by `dtime`, not below 0,
   * gets `OnUpdate` of what it ran down by, and ends if it reached 0.
   */
  function TickOf(d: real, frozen: bool, ethernal: bool, dtime: real): (t: Tick)
    ensures frozen ==> t == Tick(d, None, false)
    ensures !frozen && ethernal ==> t == Tick(d, Some(dtime), false)
    ensures !frozen && !ethernal ==>
      && t.duration == Max(0.0, d - dtime)
      && t.update == Some(d - t.duration)
      && (t.expires <==> d <= dtime)
  {
    if frozen then Tick(d, None, false)
    else if ethernal then Tick(d, Some(dtime), false)
    else if d <= dtime then Tick(0.0, Some(d), true)
    else Tick(d - dtime, Some(dtime), false)
  }
}
