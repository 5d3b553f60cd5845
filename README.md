# Action-Library in Dafny

ActionLibrary is a small C# library for timed game actions. An `Action` is an activity with a total
duration. It is admitted into one static registry, counted down by `UpdateActions(dtime)`, and
ended, terminated or deleted. Its life cycle calls the virtual hooks `OnStart`, `OnUpdate`,
`OnEnd` and `OnTerminate`. Two kinds of interceptor take part:

- *Rangers* can veto an action when it is added. `CallRangers` merges the `all` group's ranger
  set with the action's own group's set, through the lazy merge `EnumeratorOfSum`.
- *End-rangers* are all told when an action is removed.

Every removal appends a `LogEntry` to the static `Log`. *Listeners* keep a cursor into the
`Archive` log and report the entries added since their last scan that pass their check.

This project models that core. Each source file maps to one module:

| module | source | form |
|---|---|---|
| `Actions` | `Action.cs` (the state of one action, the duration rules) | class `Action`, pure `TickOf`/`Shifted` |
| `Groups` | `Action.Group` | class `GroupTable` over a `map` |
| `Registry` | `Action.cs` (the static list and life cycle) | class `ActionRegistry` |
| `Rangers` | `Ranger.cs` | classes `Ranger`, `RangerChain` |
| `Merge` | `Extensions.EnumeratorOfSum<T>` in `Ranger.cs` | class `MergeEnumerator`, specified by the pure state machine `Step` |
| `EndRangers` | `EndRanger.cs` | classes `EndRanger`, `EndRangerChain` |
| `Priority` | the two `SortByPriority` comparers and `SortedSet.Add` | functions and lemmas |
| `Logs` | `Log.cs` | classes `LogEntry`, `Log` |
| `Archives` | `Archive.cs`, `Listener.cs` | classes `Listener`, `Archive` |

Each static C# class becomes one Dafny object holding its static fields. The virtual hooks are
recorded in call order in a ghost trace, `ActionRegistry.events`. `GetTime` is a stub that the
source marks TODO; the model takes the time as a parameter `now`.

What the source does as written, and the model keeps:

- `CallRangers` consults at most one ranger. Its `foreach` runs one enumeration of the merge, and
  the iterator body has a single `yield return`, so the loop sees at most one element.
- The merge compares with `sets[0].Comparer`. That is the comparer of the empty `SortedSet<Ranger>`
  the merge starts from, which is `Comparer<Ranger>.Default`. `Ranger` implements no
  `IComparable`, so that comparer throws on two different rangers. `CallRangers` therefore throws
  when the `all` group's set and the action's own group's set both hold rangers and their first
  rangers differ (`ThrowsIffTwoGroups`). Otherwise the first ranger of the `all` set decides; when
  that set is empty, the first ranger of the group's set decides (`AnswerIsFirstHead`).
- With a comparer that orders its elements, successive enumerations of the merge yield every
  element of every joined set exactly once, in order (`RunSorted`). The priority comparer is such a
  comparer (`PriorityWalk`).

## Model

| member | source | states |
|---|---|---|
| Actions.Action.constructor | ActionLibrary/Action.cs:77-92 | The total duration is the duration argument. The flags and group are the arguments. `duration` starts at 0; the action is neither archived nor ended. |
| Actions.Action.ChangeTotalDuration | ActionLibrary/Action.cs:228-236 | The total becomes the new value. With `addAhead` the remaining duration is `Shifted`; without it, the remaining duration is unchanged. The flags are unchanged. |
| Actions.Shifted | ActionLibrary/Action.cs:230-234 | The new remaining duration is never negative. Unless clamped at 0, the time already run (total minus remaining) is kept; it is 0 exactly when the shift would go below 0. |
| Actions.Action.SetTotalDuration | ActionLibrary/Action.cs:63 | The property setter is `ChangeTotalDuration` with `addAhead`: the new total, the remaining duration shifted, nothing else changed. |
| Actions.Action.SetFrozen | ActionLibrary/Action.cs:237 | `frozen` becomes the argument; nothing else changes. |
| Actions.Action.SetEthernal | ActionLibrary/Action.cs:238 | `ethernal` becomes the argument; nothing else changes. |
| Actions.TickOf | ActionLibrary/Action.cs:184-201 | A frozen action is skipped: no update, no change, no end. An ethernal one gets `OnUpdate(dtime)` and keeps its duration. Any other one runs down to `max(0, d - dtime)`, gets `OnUpdate` of exactly what it ran down by, and ends iff `d <= dtime`. |
| Groups.Group.constructor | ActionLibrary/Action.cs:129-134 | The group carries the given name. |
| Groups.GroupTable.constructor | ActionLibrary/Action.cs:124-127 | The table holds exactly "All" and "Ungrouped", two different groups with those names. |
| Groups.GroupTable.NewGroup | ActionLibrary/Action.cs:131-135 | A taken name gives the duplicate-name error and leaves the table unchanged. A new name gives a fresh group, filed under that name and found by `Get`. The invariant is kept. |
| Groups.GroupTable.Get | ActionLibrary/Action.cs:136-140 | There is a result iff the name is in the table. The result is the group filed under that name, and it carries that name. |
| Registry.ActionRegistry.constructor | ActionLibrary/Action.cs:66 | The registry starts empty, with an empty hook trace. |
| Registry.ActionRegistry.RemoveAction | ActionLibrary/Action.cs:169-177 | `Removed`: the action is archived and out of the registry, and every other action stays. `OnTerminate` runs first unless `OnEnd` ran. Then the end-rangers in scope react, if asked for. One log entry for the action is appended at `now` with no tags. |
| Registry.ActionRegistry.TerminationHooks | ActionLibrary/Action.cs:171-173 | The hooks of a removal are added to the trace (`RemovalEvents`), and the registry is unchanged. |
| Registry.ActionRegistry.Unregister | ActionLibrary/Action.cs:175 | `List.Remove`: the first occurrence goes, leaving no copy because the list has no duplicates. The trace is unchanged. |
| Registry.ActionRegistry.EndAction | ActionLibrary/Action.cs:163-168 | `OnEnd`, then the end-rangers in scope. The action is marked ended and archived and is out of the registry. One log entry is appended for it, at `now` with no tags; the listeners and their id counter are unchanged. |
| Registry.ActionRegistry.OnTrigger | ActionLibrary/Action.cs:97-107 | `Terminate` performs a full removal with the end-rangers. Every other code changes nothing. |
| Registry.ActionRegistry.DeleteAction | ActionLibrary/Action.cs:212-216 | `OnTerminate` unless `OnEnd` ran, then out of the registry. No end-rangers and no log entry. |
| Registry.ActionRegistry.Admit | ActionLibrary/Action.cs:153-159 | `Modify` runs, `duration` becomes the total, the action is appended and `OnStart` runs. A non-instant action then stays registered, is neither archived nor marked ended, and the log is unchanged. An instant one is ended at once: out of the registry again, archived, marked ended, and logged once at `now` with no tags, with the listeners unchanged. |
| Registry.ActionRegistry.AddAction | ActionLibrary/Action.cs:144-162 | Null answers true and changes nothing. An action already added throws, as does a ranger walk whose comparer throws; a veto answers false. In all three cases nothing changes. Otherwise the answer is true and the action is admitted as `Admit` states, including its flags and the log. Only the registry, that action's `duration`, `archived` and `onEndWasCalled`, and the log may change. |
| Registry.ActionRegistry.InsertAction | ActionLibrary/Action.cs:207-211 | An append with no hooks for a non-instant action. An instant one is ended at once: archived, marked ended, out of the registry, and logged once at `now` with no tags, with the listeners unchanged. |
| Registry.ActionRegistry.Pass | ActionLibrary/Action.cs:182-203 | The loop gives each action its `TickOf` duration. It adds the `OnUpdate` calls to the trace in registry order. `toRemove` is the expiring actions, in order. The registry list and every action's flags are unchanged. |
| Registry.ActionRegistry.PassStep | ActionLibrary/Action.cs:184-202 | One iteration of that loop extends each of the three by one action. |
| Registry.ActionRegistry.Tick | ActionLibrary/Action.cs:184-202 | One action's branch: its new duration, `OnUpdate` call and expiry are those of `TickOf`. |
| Registry.ActionRegistry.UpdateActions | ActionLibrary/Action.cs:178-206 | Every action runs down by `TickOf`. The expired ones, in registry order, are ended and archived and leave, and each is logged once, at `now` with no tags. Every other action stays and keeps its `archived` and `onEndWasCalled` flags. The listeners are unchanged. The trace is the updates, then each expired action's `OnEnd` and end-rangers. |
| Registry.ActionRegistry.EndAll | ActionLibrary/Action.cs:205 | The `foreach` ends each of `gone` in order. All of them are archived and ended, none stays registered, and each is logged once at `now` with no tags. Every other registered action keeps its flags. |
| Registry.ActionRegistry.EndNext | ActionLibrary/Action.cs:205 | One iteration of that `foreach`: the registry, trace and log are extended by one ended action. The actions ended so far stay ended, and the others keep their flags. |
| Registry.EndStep | ActionLibrary/Action.cs:205 | On values: one more `EndAction` extends the registry removal, the trace and the log entries of the earlier iterations by one action. |
| Registry.ActionRegistry.GetAll | ActionLibrary/Action.cs:241-246 | Exactly the registered actions passing `check`, in registry order. |
| Registry.ActionRegistry.Get | ActionLibrary/Action.cs:247-251 | The first registered action passing `check`, or null when none passes. |
| Registry.ActionRegistry.Any | ActionLibrary/Action.cs:252-256 | True iff some registered action passes `check`. |
| Registry.RemovalEvents | ActionLibrary/Action.cs:171-173 | At most two hooks. `OnTerminate` is among them iff `OnEnd` did not run, and then it comes first. With end-rangers the last one is the end-rangers in scope reacting; without them there is nothing but `OnTerminate`. |
| Basics.RemoveFirst | ActionLibrary/Action.cs:175 | `List.Remove`: an absent element leaves the list as it is; a present one shortens it by exactly one. |
| Registry.TicksOf | ActionLibrary/Action.cs:182-203 | One tick per action, each the action's `TickOf`. |
| Registry.Expiring | ActionLibrary/Action.cs:188-192 | `toRemove` holds only registered actions. |
| Registry.Balanced | ActionLibrary/Action.cs:184-199 | An admitted, unfrozen, non-ethernal action starts at its total. Over any sequence of ticks, what is left plus what `OnUpdate` received equals that total. What is left never goes below 0. |
| Rangers.Ranger.constructor | ActionLibrary/Ranger.cs:52-59 | The fields are the arguments. |
| Rangers.Ranger.Call | ActionLibrary/Ranger.cs:46-50 | `react` runs only for an action in scope, and its answer is the verdict. `Call` returns true iff the action is in scope and `react` says so. |
| Rangers.RangerChain.constructor | ActionLibrary/Ranger.cs:15-17 | No rangers, no group sets, the id counter at 0. |
| Rangers.RangerChain.Register | ActionLibrary/Ranger.cs:52-64 | A fresh ranger gets the next id, with the group defaulting to `all`. It is inserted in the global sorted set and in its group's set, which is created when missing. Each set gains exactly that ranger, and the chain invariant is kept. |
| Rangers.RangerChain.Add | ActionLibrary/Ranger.cs:59-63 | The same `SortedSet.Add` insertions for a ranger under the next id. |
| Rangers.RangerChain.CallRangers | ActionLibrary/Ranger.cs:19-36 | The answer is `Decision`: no veto without rangers; a single head decides through its `Call`; two different heads make the comparer throw. |
| Rangers.RangerChain.Decision | ActionLibrary/Ranger.cs:19-36 | `CallRangers`'s answer on the merge's first enumeration: a throw only when both sets offer a head, and a veto only from a head that has the action in scope and whose `react` answers true. |
| Rangers.RangerChain.JoinFirst | ActionLibrary/Ranger.cs:23-27 | The merge of an empty set, the `all` set and the group's set, enumerated once. It yields the common first ranger, throws on two different ones, or is exhausted. |
| Rangers.FirstOutcome | ActionLibrary/Ranger.cs:23-25 | The empty leading set adds no head to the first enumeration. |
| Rangers.ThrowsIffTwoGroups | ActionLibrary/Ranger.cs:19-36 | `CallRangers` throws iff the action's group is not `all` and both the `all` set and the group's set are non-empty. |
| Rangers.AnswerIsFirstHead | ActionLibrary/Ranger.cs:19-36 | When it does not throw, `CallRangers` vetoes iff the first ranger of the `all` set (else of the group's set) exists and its `Call` is true. |
| Rangers.SortByPriorityIsStrict | ActionLibrary/Ranger.cs:67-85 | `SortByPriority` flips sign when its arguments swap. It returns 0 only for equal (priority, id). |
| Rangers.RegisteredNeverTie | ActionLibrary/Ranger.cs:59-61 | Ids come from a counter, so no ranger is registered twice and no two registered rangers compare equal. `SortedSet.Add` therefore never drops one. |
| Rangers.PriorityTotal | ActionLibrary/Ranger.cs:67-85 | `SortByPriority` never throws, is antisymmetric and is transitive on any rangers. |
| Rangers.SortedIsOrdered | ActionLibrary/Ranger.cs:15-16 | A set sorted by (priority, id) is in `SortByPriority` order. |
| Rangers.PriorityWalk | ActionLibrary/Ranger.cs:90-138 | The merge `CallRangers` builds, run to the end under `SortByPriority`, yields the rangers of both sets. Each comes exactly once, in non-decreasing order. |
| Rangers.GroupSetShape | ActionLibrary/Ranger.cs:62-63 | A group's set is sorted and holds rangers of that group only. |
| Rangers.RegisterKeepsValid | ActionLibrary/Ranger.cs:59-63 | Registering keeps the chain invariant: sorted sets and ids below the counter. Each group's set is the global set's rangers of that group. |
| Rangers.RegisterSets | ActionLibrary/Ranger.cs:61-63 | After registration each group's set is still the global set filtered by group. |
| Rangers.RegisterSet | ActionLibrary/Ranger.cs:61-63 | Filtering by group commutes with inserting a ranger under a fresh id. |
| Rangers.RegisterFiles | ActionLibrary/Ranger.cs:62 | Every registered ranger's group has a set. |
| Rangers.RegisterAdds | ActionLibrary/Ranger.cs:61-63 | The global set and the ranger's group's set each gain exactly the new ranger. |
| Rangers.OfGroupIsFilter | ActionLibrary/Ranger.cs:62-63 | A group's rangers in global order are the global set filtered by group. |
| Merge.MergeEnumerator.constructor | ActionLibrary/Ranger.cs:92-95 | One set, the given comparer, no enumerators yet, `start` set. |
| Merge.MergeEnumerator.AddSet | ActionLibrary/Ranger.cs:96 | The set is appended; nothing else changes. |
| Merge.MergeEnumerator.Reset | ActionLibrary/Ranger.cs:104-112 | One fresh enumerator per set, all live, `start` set. |
| Merge.MergeEnumerator.Next | ActionLibrary/Ranger.cs:114-138 | One enumeration's new state and outcome are `Step`. |
| Merge.MergeEnumerator.FirstMoves | ActionLibrary/Ranger.cs:116-127 | The `start` branch: after `Reset`, every enumerator is on its first element and the exhausted ones are dropped. |
| Merge.MergeEnumerator.MoveAll | ActionLibrary/Ranger.cs:120-125 | MoveNext on every enumerator. An enumerator is collected iff its set is empty, and `start` is cleared. |
| Merge.MergeEnumerator.DropAll | ActionLibrary/Ranger.cs:126 | The collected enumerators leave the live list. |
| Merge.MergeEnumerator.MoveCurrent | ActionLibrary/Ranger.cs:128-131 | MoveNext on the enumerator chosen last, which is dropped once exhausted. |
| Merge.MergeEnumerator.ChooseHead | ActionLibrary/Ranger.cs:133-137 | `yield break` with no live enumerator; otherwise the scan for the smallest head is `Choose`. |
| Merge.Advanced | ActionLibrary/Ranger.cs:130 | After MoveNext on the chosen enumerator, every live enumerator is on an element. |
| Merge.NonEmpty | ActionLibrary/Ranger.cs:121-126 | The survivors of the first pass are non-empty sets. |
| Merge.NonEmptyFromSpec | ActionLibrary/Ranger.cs:121-126 | The survivors are exactly the non-empty sets, in ascending order. |
| Merge.WithoutEmpties | ActionLibrary/Ranger.cs:120-126 | Removing the collected enumerators leaves exactly the non-empty sets' enumerators. |
| Merge.Step | ActionLibrary/Ranger.cs:114-138 | One enumeration keeps the merged sets. It throws on a null enumerator exactly when it is past the first pass with no enumerator chosen. |
| Merge.Choose | ActionLibrary/Ranger.cs:133-137 | The sets, positions, live enumerators and `start` are untouched. It is exhausted (`yield break`) exactly when no enumerator is live, and it never hits the null-enumerator case. |
| Merge.Scan | ActionLibrary/Ranger.cs:134-136 | The scan changes nothing but the chosen enumerator. It ends by yielding a head or by a comparer throw. |
| Merge.StepValid | ActionLibrary/Ranger.cs:114-138 | Every enumeration leaves a well-formed state over the same sets, with `start` cleared. |
| Merge.ChoosePicksLive | ActionLibrary/Ranger.cs:133-137 | The choice changes only `currentValueEnumerator`, and picks a live one. It yields nothing only when none is live. |
| Merge.ScanPicksLive | ActionLibrary/Ranger.cs:134-136 | The scan changes only the chosen enumerator, and the choice stays live. |
| Merge.StepPending | ActionLibrary/Ranger.cs:114-138 | Each enumeration yields one element still pending and removes exactly it. It stops, or throws on a null enumerator, only when nothing is pending. |
| Merge.ChoosePending | ActionLibrary/Ranger.cs:133-137 | Yielding the chosen head takes exactly that head out of what is left. |
| Merge.AdvancedPending | ActionLibrary/Ranger.cs:130 | MoveNext on the last chosen enumerator loses nothing pending. |
| Merge.StartedPending | ActionLibrary/Ranger.cs:118-126 | Before the first enumeration every element of every set is pending. |
| Merge.StepMinimal | ActionLibrary/Ranger.cs:114-138 | Over sets sorted by an ordering comparer, no enumeration throws. The yielded element is not after anything pending; on ties the earliest enumerator wins. |
| Merge.ChooseMinimal | ActionLibrary/Ranger.cs:134-136 | The chosen head is not after anything pending, and no earlier live enumerator's head is at or before it. |
| Merge.ScanMinimal | ActionLibrary/Ranger.cs:135-136 | Under an ordering comparer the scan's choice is live and yields its head. That head is not after any live head, and no earlier enumerator's head ties with it. |
| Merge.RunSorted | ActionLibrary/Ranger.cs:114-138 | Successive enumerations yield every pending element exactly once, in non-decreasing order. |
| Merge.ScanDefault | ActionLibrary/Ranger.cs:134-136 | Under the default comparer the scan keeps the first head when all heads are that same object. Otherwise it throws. |
| Merge.DefaultFirstStep | ActionLibrary/Ranger.cs:114-137 | A fresh merge's first enumeration under the default comparer: exhausted when every set is empty, else the common first element, else a throw. |
| Merge.StartedHeads | ActionLibrary/Ranger.cs:118-126 | After the first pass the live heads are the sets' first elements, in order. |
| Merge.DefaultChoose | ActionLibrary/Ranger.cs:133-137 | The default comparer's choice over given heads: none, the common head, or a throw. |
| Merge.FirstsAreHeads | ActionLibrary/Ranger.cs:121-126 | The first elements of the non-empty sets line up with the surviving enumerators. |
| Merge.FreshValid | ActionLibrary/Ranger.cs:92-101 | A merge not yet enumerated is well-formed. |
| Priority.Compare | ActionLibrary/Ranger.cs:69-84 | `SortByPriority`: 0 iff equal (priority, id); negative iff lexicographically smaller; positive iff larger; always -1, 0 or 1. |
| Priority.CompareAntisymmetric | ActionLibrary/Ranger.cs:69-84 | Swapping the arguments flips the sign. |
| Priority.CompareTransitive | ActionLibrary/Ranger.cs:69-84 | Strictly-before is transitive. |
| Priority.Insert | ActionLibrary/Ranger.cs:61-63 | `SortedSet.Add` grows the set by at most one element. When it grows, the new element is in the set. |
| Priority.InsertKeepsSorted | ActionLibrary/Ranger.cs:61 | `SortedSet.Add` keeps the set strictly sorted. |
| Priority.InsertAddsOne | ActionLibrary/Ranger.cs:61 | Adding an element that ties with none adds exactly that element. |
| Priority.InsertElements | ActionLibrary/Ranger.cs:61 | The insertion holds the old elements and possibly the new one, nothing else. |
| Priority.InsertFresh | ActionLibrary/Ranger.cs:59-61 | An element whose id exceeds every id present is added, and afterwards every id is at most that id. |
| Priority.InsertFilter | ActionLibrary/Ranger.cs:61-63 | Filtering a sorted set commutes with inserting an element that ties with none. |
| Priority.FilterSorted | ActionLibrary/EndRanger.cs:19 | A filtered walk over a sorted set is sorted. |
| Priority.SortedNeverTie | ActionLibrary/Ranger.cs:15 | In a strictly sorted set no two positions compare equal, and no element occurs twice. |
| EndRangers.EndRanger.constructor | ActionLibrary/EndRanger.cs:34-40 | The fields are the arguments. |
| EndRangers.EndRangerChain.constructor | ActionLibrary/EndRanger.cs:14-15 | No end-rangers, the id counter at 0. |
| EndRangers.EndRangerChain.Register | ActionLibrary/EndRanger.cs:34-42 | A fresh end-ranger gets the next id and is inserted in the sorted set, which gains exactly it. The invariant is kept. |
| EndRangers.EndRangerChain.Add | ActionLibrary/EndRanger.cs:40-41 | The same insertion for an end-ranger under the next id. |
| EndRangers.EndRangerChain.CallEndRangers | ActionLibrary/EndRanger.cs:17-32 | Every end-ranger is called, in set order, without short-circuit. `react` runs for exactly those in scope, and only for registered ones. |
| EndRangers.InScopeReacts | ActionLibrary/EndRanger.cs:19-31 | The end-rangers that react to an action are the set's end-rangers whose scope accepts it, and all of those. |
| EndRangers.EndRangersInOrder | ActionLibrary/EndRanger.cs:14-19 | The reactions happen in ascending (priority, id) order. |
| EndRangers.EndRangersNeverTie | ActionLibrary/EndRanger.cs:40-41 | No end-ranger is registered twice and no two compare equal. |
| Logs.LogEntry.constructor | ActionLibrary/Log.cs:36-41 | The action and timestamp are the arguments; a null tag list becomes empty; nobody has seen the entry. |
| Logs.LogEntry.SeenBy | ActionLibrary/Log.cs:42-45 | Afterwards `WasSeenBy(id)` holds and the answer for every other id is unchanged. Seeing twice is the same as once. |
| Logs.LogEntry.WasSeenBy | ActionLibrary/Log.cs:46-49 | True iff `SeenBy(id)` was called. |
| Logs.Log.constructor | ActionLibrary/Log.cs:11-14 | An empty log and no listeners. |
| Logs.Log.AddEntry | ActionLibrary/Log.cs:23-26 | One fresh entry at the end, with the given fields and no viewers. Earlier entries and the listeners stay. |
| Logs.Log.GetListener | ActionLibrary/Log.cs:16-22 | A fresh listener with the next id, its cursor on the current last entry. It is registered, and the log is unchanged. |
| Archives.NewEntry | ActionLibrary/Archive.cs:34-39 | The action and timestamp are the arguments; a null tag list becomes empty. |
| Archives.Archive.constructor | ActionLibrary/Archive.cs:11-14 | An empty archive and no listeners. |
| Archives.Archive.AddEntry | ActionLibrary/Archive.cs:23-26 | One entry at the end; earlier entries and the listeners stay. |
| Archives.Archive.GetListener | ActionLibrary/Archive.cs:16-22 | A fresh listener with the next id, its cursor on the current last entry. It is registered, and the archive is unchanged. |
| Archives.Listener.constructor | ActionLibrary/Listener.cs:50-55 | The check, cursor and id are the arguments; nothing read yet. |
| Archives.Listener.When | ActionLibrary/Listener.cs:17-32 | Keeps exactly the unread entries passing `check`, in order, and moves the cursor to the last entry. True iff some unread entry passes. |
| Archives.Listener.RecentEntries | ActionLibrary/Listener.cs:33-48 | Returns, and keeps, exactly the unread entries passing `check`, in order. The cursor moves to the last entry. |
| Archives.Listener.GetRecentEntries | ActionLibrary/Listener.cs:49 | What the last scan kept. |
| Archives.Unread | ActionLibrary/Listener.cs:21 | The entries after the cursor, in order. |
| Archives.Scanned | ActionLibrary/Listener.cs:21-28 | The cursor never moves back. It lands on the last entry when there was something to read, and stays put otherwise. |
| Archives.OpenedAtEnd | ActionLibrary/Archive.cs:16-22 | A listener opened on `n` entries reads exactly the entries from index `n` on. |
| Archives.ScansCompose | ActionLibrary/Listener.cs:17-48 | Two scans, with appends in between, read each entry exactly once: together they equal one scan of the longer log. |
| Archives.NothingNew | ActionLibrary/Listener.cs:17-48 | A second scan with no append in between finds nothing. |

## Left out

- Console output (`Message`, `StartMessage`, `EndMessage`, `TriggerRemoveMessage`, `DEBUGMESSAGES`): it only prints, so the model has no state for it.
- `GetTime`: a stub in the source; the model takes the timestamp as the parameter `now`.
- `Clone` (`MemberwiseClone`), the unused `TCode` enum, the `Start` extension and the leaf subclasses of `Action`: outside the core.
- `Modifiers`, `GetModifiers` and `Modify`: an opaque attribute bag handed to the rangers. The model passes no modifiers, and `react` sees only the action.
- Floating point: `double` is modelled as `real`, without rounding, NaN or infinities.
- The delegates `scope`, `react` and `check` are modelled as pure functions of their argument, typed `Action -> bool` without a `reads` clause. They therefore cannot read an action's mutable fields (`duration`, `frozen`, `archived`, ...), which a C# delegate can; a scope that depends on those fields is not modelled. The void `react` of an end-ranger is recorded only as having run.
- The virtual hooks are recorded as events in a ghost trace and are assumed not to re-enter the registry. An override that adds or removes actions is not modelled.
- Registry.ActionRegistry.InsertAction: requires the action not to be registered yet. The source appends without a check, and the model keeps its list free of duplicates.
- Archives.Listener.constructor: requires `startIndex >= -1`. Every caller in the source passes `log.Count - 1`; a smaller start would make `When` index the log at a negative position, which throws.
- Archives.Entry is a value, not an object, so two entries with equal fields are not told apart. Nothing in the core compares entries by identity.
- Logs.Log.GetListener: as written the source does not type-check here. ActionLibrary/Log.cs:16-22 passes a `Func<LogEntry, bool>` where the `Listener` constructor (ActionLibrary/Listener.cs:50) expects a `Func<Archive.Entry, bool>`, and C# has no conversion between the two. The model types the check on archive entries, as the constructor does, and otherwise follows `Archive.GetListener`.
- Archives.Listener.GetRecentEntries: the source returns its own `recentlyReadEvents` list (ActionLibrary/Listener.cs:49), so a caller holds an alias that later scans clear and refill (lines 20, 26, 36, 42), and that the caller can change. The model returns a value: a snapshot of what the last scan kept. `RecentEntries` returns a fresh list in the source too, so there the value is exact.
- Merge.MergeEnumerator.AddSet: the model stores a snapshot of each set when it is added (ActionLibrary/Ranger.cs:96). The source keeps references to the live `SortedSet`s and creates their enumerators only in `Reset` (lines 104-111), so a set changed between `AddSet` and `Reset` is seen changed, and a set changed during the enumeration invalidates its enumerator (a later `MoveNext` throws). `CallRangers` builds and enumerates the merge within one call, so neither happens there unless a `react` delegate registers a ranger, which the model's pure delegates cannot do.
- Listeners read `Archive.log`, while removals append to `Log.log`; the model keeps the two logs apart, as the source does.
- Actions.Action.constructor: takes a non-null group. In the source `Args.group` may be set to null, and that null then reaches `CallRangers`.
- Registry.Balanced: the conservation law is stated over the tick rule `TickOf` applied repeatedly to one duration, not as an invariant of `ActionRegistry`. The registry's `Pass` is proved to apply exactly that rule to every action, but a `ChangeTotalDuration` or `SetFrozen` between updates is not tracked per action.
- Writes from outside the library to public fields are not modelled. The model fixes them or changes them only through the library's own operations, and the ordering and scan lemmas assume no such writes:
  - `EndRangers.EndRanger`'s `name` and `priority` are plain public fields (ActionLibrary/EndRanger.cs:22-23), not `readonly` like a ranger's, but the model makes them constants. If `priority` is set after registration, the `SortedSet` keeps its old order, so `CallEndRangers` walks out of (priority, id) order and a later `Add` compares against the new value. `EndRangers.EndRangersInOrder` assumes this never happens.
  - `Log.log` and `Archive.log` are `public static List`s (ActionLibrary/Log.cs:11, ActionLibrary/Archive.cs:11), which outside code can clear, shorten or rewrite. The model changes them only through `AddEntry`, so the listener lemmas (`Archives.ScansCompose`, `Archives.NothingNew`) assume an archive that only grows.
  - `Group.all` and `Group.ungrouped` are non-readonly static fields (ActionLibrary/Action.cs:125-126), but the model fixes the two groups in `Groups.GroupTable`.
- Concurrency: the static lists are not synchronised in the source; the model is sequential.
