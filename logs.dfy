/**
 * The action log (Log.cs): the list that `RemoveAction` appends to, whose entries remember which
 * listener ids have seen them.
 */
module Logs {
  import opened Basics
  import opened Actions
  import opened Archives

  class LogEntry {
    const timestamp: real
    const tags: seq<string>
    const action: Action
    var seenByIds: set<int>

    /** `LogEntry(action, timestamp, tags)`: a null tag list becomes an empty one; nobody has seen it yet. */
    constructor (action: Action, timestamp: real, tags: Option<seq<string>>)
      ensures this.action == action && this.timestamp == timestamp
      ensures tags.None? ==> this.tags == []
      ensures tags.Some? ==> this.tags == tags.value
      ensures seenByIds == {}
    {
      this.action, this.timestamp := action, timestamp;
      this.tags := if tags.Some? then tags.value else [];
      seenByIds := {};
    }

    /** `SeenBy`: afterwards `WasSeenBy(id)` holds; the answer for every other id is what it was. */
    method SeenBy(id: int)
      modifies this
      ensures seenByIds == old(seenByIds) + {id}
      ensures WasSeenBy(id)
      ensures forall other :: other != id ==> (WasSeenBy(other) <==> old(WasSeenBy(other)))
      ensures old(WasSeenBy(id)) ==> seenByIds == old(seenByIds)
    {
      seenByIds := seenByIds + {id};
    }

    /** `WasSeenBy`: whether `SeenBy(id)` has been called on this entry. */
    function WasSeenBy(id: int): (b: bool)
      reads this
      ensures b <==> id in seenByIds
    {
      id in seenByIds
    }
  }

  /** The actions that `entries` record, in log order. */
  function Logged(entries: seq<LogEntry>): seq<Action>
  {
    if entries == [] then [] else Logged(entries[..|entries| - 1]) + [entries[|entries| - 1].action]
  }

  /** The static state of Log.cs: `log`, `listeners` and `firstFreeLId`. */
  class Log {
    var log: seq<LogEntry>
    var listeners: seq<Listener>
    var firstFreeLId: nat

    /** Listener ids are 0, 1, 2, ... in creation order. */
    ghost predicate Valid()
      reads this
    {
      && |listeners| == firstFreeLId
      && forall i :: 0 <= i < |listeners| ==> listeners[i].id == i
    }

    constructor ()
      ensures Valid() && log == [] && listeners == [] && firstFreeLId == 0
    {
      log, listeners, firstFreeLId := [], [], 0;
    }

    /** `AddEntry`: one fresh entry at the end; earlier entries and listeners stay. */
    method AddEntry(action: Action, timestamp: real, tags: Option<seq<string>>)
      modifies this
      ensures |log| == |old(log)| + 1 && log[..|old(log)|] == old(log)
      ensures fresh(log[|log| - 1])
      ensures log[|log| - 1].action == action && log[|log| - 1].timestamp == timestamp
      ensures log[|log| - 1].tags == (if tags.Some? then tags.value else []) && log[|log| - 1].seenByIds == {}
      ensures Logged(log) == Logged(old(log)) + [action]
      ensures listeners == old(listeners) && firstFreeLId == old(firstFreeLId)
    {
      var e := new LogEntry(action, timestamp, tags);
      log := log + [e];
      assert log[..|log| - 1] == old(log);
    }

    /**
     * `GetListener`: a listener with the next id whose cursor is on the last entry of this log. The
     * listener then scans `Archive.log`, so it is given a check on archive entries.
     */
    method GetListener(check: Entry -> bool) returns (l: Listener)
      requires Valid()
      modifies this
      ensures Valid() && fresh(l) && l.Valid()
      ensures l.check == check && l.id == old(firstFreeLId) && l.recentlyReadEvents == []
      ensures l.lastCheckedEntry == |log| - 1
      ensures listeners == old(listeners) + [l] && firstFreeLId == old(firstFreeLId) + 1
      ensures log == old(log)
    {
      l := new Listener(check, |log| - 1, firstFreeLId);
      listeners := listeners + [l];
      firstFreeLId := firstFreeLId + 1;
    }
  }
}
