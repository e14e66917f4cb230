# Extended.System, modelled in Dafny

Extended.System is a C# utility library. This project models its core and proves properties of the model:

- **The bindable model** (`BindableModel`). This is a base class with a property store and a dependency graph from trigger properties to dependent properties. Setting a property raises "changing" and "changed" events. Its internal handler re-raises "changed" for every dependent, recursively.
- **The two `SetOrAdd` dictionary extensions.** The bindable model uses the second one to fill its graph.
- **`ScheduledTimer`.** This is a one-shot timer, re-armed after each run of an asynchronous delegate, with a per-schedule cancellation source and a semaphore of capacity one.
- **Smaller pieces:**
  - `SplitArray`, `HasItems` and `ForEach`;
  - `EraseHtml`, a regex tag strip followed by `&nbsp;` replacement;
  - `GetFlagEnumList`;
  - the null checks and the byte decode inside `GetLinkerTime`. That decode reads `e_lfanew` at byte 60, then the COFF `TimeDateStamp`, as the Microsoft PE Format specification lays out in sections "MS-DOS Stub (Image Only)" and "COFF File Header".

Modules, one per source file, plus `Wrappers` (Option, Outcome, Result):

| module | file | models |
|---|---|---|
| `DictionaryExtensions` | dictionary_extensions.dfy | `SetOrAdd` (both), `HashSet`, `Dictionary` objects |
| `DependencyGraph` | dependency_graph.dfy | the `_depends` graph as a value, the rule `AddDependency` applies, acyclicity |
| `ChangeCascade` | change_cascade.dfy | the events an outside subscriber receives, as a recursive specification |
| `Bindable` | bindable_model.dfy | class `BindableModel`: the store, the graph object, the raised events |
| `ScheduledTimers` | scheduled_timer.dfy | class `ScheduledTimer` as a state machine |
| `EnumerableExtensions` | enumerable_extensions.dfy | `SplitArray`, `HasItems`, `ForEach` |
| `StringExtensions` | string_extensions.dfy | `EraseHtml` |
| `EnumExtensions` | enum_extensions.dfy | `GetFlagEnumList` |
| `AssemblyExtensions` | assembly_extensions.dfy | `GetAssemblyDirectory`, the decode in `GetLinkerTime` |

How the bindable model is written:

- `BindableModel` is a class. Its fields are `context` (the store) and `depends` (a `Dictionary` of `HashSet` objects, updated in place). A third field, `log`, holds the events that an outside subscriber to both events receives.
- The methods are proved against pure specification functions:
  - the graph after `AddDependency` is `AddTriggers` of the graph before;
  - the events raised are `Cascade`.
- The lemmas about those functions state the promises: path counts, post-order, termination, and the loop rule.

Library behaviour the code relies on is modelled from the documented .NET semantics:

- `Regex.Replace` takes leftmost matches without overlap; `String.Replace` scans left to right.
- `HashSet.Add` returns whether the element was new.
- `BitConverter.ToInt32` reads little-endian. It throws `ArgumentOutOfRangeException` for an index outside the array, and `ArgumentException` when fewer than four bytes follow the index.
- `Enum.HasFlag` is `(value & flag) == flag`.
- Setting `Timer.Interval` to a non-positive value throws `ArgumentException`.
- A `dynamic` call on null, or on a value without that method, throws `RuntimeBinderException`.

Two consequences of the code shape the model:

- **A cascade is transitive.** `OnPropertyChanged(sender, x)` at BindableModel.cs:168 raises `PropertyChanged` again, and that re-enters the internal handler. So a chain of dependents is notified to any depth, and a cycle the loop check misses recurses without end (`ChangeCascade.ThreeCycleNeverFinishes`).
- **Outside subscribers see post-order.** The internal handler is subscribed in the constructor (BindableModel.cs:57-60), before any outside subscriber. It runs first and raises the dependents' events before outside subscribers see the trigger's own event. So an outside subscriber receives the dependents first and the trigger last (`ChangeCascade.CascadeIsPostOrder`).

## Model

| member | source | states |
|---|---|---|
| DictionaryExtensions.Inserted | src/Extended.System/DictionaryExtensions.cs:76 | adding to a hash set makes the item an element, adds nothing else, keeps the earlier elements in order, changes nothing when the item is already there, and never creates a duplicate |
| DictionaryExtensions.InsertedIdempotent | src/Extended.System/DictionaryExtensions.cs:76 | adding the same item twice is adding it once |
| DictionaryExtensions.HashSet.Add | src/Extended.System/DictionaryExtensions.cs:76 | the set keeps no duplicates; the result is true exactly when the item was new; the elements become `Inserted` of the old ones |
| DictionaryExtensions.Upserted | src/Extended.System/DictionaryExtensions.cs:51-61 | after `SetOrAdd` the key is present with the new value, the key set grows by that key only, and every other entry is kept |
| DictionaryExtensions.UpsertedIdempotent | src/Extended.System/DictionaryExtensions.cs:51-61 | setting the same key to the same value twice is setting it once |
| DictionaryExtensions.SetOrAdd | src/Extended.System/DictionaryExtensions.cs:51-61 | overwrites a present key and adds an absent one; the entries become `Upserted` of the old ones |
| DictionaryExtensions.AddedTo | src/Extended.System/DictionaryExtensions.cs:72-82 | the collections by key after the item-`SetOrAdd`: the collection of a present key gains the item, an absent key gets a collection holding just the item, and the other keys keep theirs |
| DictionaryExtensions.SetOrAddItem | src/Extended.System/DictionaryExtensions.cs:72-82 | a present key keeps its collection object, which gains the item in place; an absent key gets a fresh collection holding just the item; no other collection changes; if no two keys shared a collection before, none do after, and the contents become `AddedTo` of the old contents |
| DictionaryExtensions.AddToStored | src/Extended.System/DictionaryExtensions.cs:74-76 | the present-key branch: the entries stay, the stored collection gains the item, the contents become `AddedTo` |
| DictionaryExtensions.StoreNew | src/Extended.System/DictionaryExtensions.cs:78-80 | the absent-key branch: only the new key's entry is added, holding a fresh collection of just the item |
| DependencyGraph.AddTriggers | src/Extended.System/BindableModel.cs:145-154 | `AddDependency` over the triggers in order; `AddTriggersRegistersAll`, `AddTriggersFailure`, `AddTriggersKeepsEdges` and `AddTriggersKeepsOthers` state what it leaves and when it throws |
| DependencyGraph.Insert | src/Extended.System/BindableModel.cs:152 | registering a dependent under a trigger inserts it into that trigger's dependents and leaves every other trigger's dependents unchanged |
| DependencyGraph.InsertPresent | src/Extended.System/BindableModel.cs:152 | registering an edge that already exists leaves the graph unchanged |
| DependencyGraph.AddTriggersKeepsEdges | src/Extended.System/BindableModel.cs:145-154 | `AddDependency` never removes an edge, whether it throws or not |
| DependencyGraph.AddTriggersRegistersAll | src/Extended.System/BindableModel.cs:145-154 | when `AddDependency` does not throw, the dependent is a dependent of every listed trigger |
| DependencyGraph.AddTriggersFailure | src/Extended.System/BindableModel.cs:147-153 | when it throws, it stops at the first trigger `triggers[i]` that already depends on the dependent; the exception names that trigger and the dependent; the graph left is exactly what registering `triggers[..i]` alone produces |
| DependencyGraph.AddTriggersKeepsOthers | src/Extended.System/BindableModel.cs:145-154 | the dependents of a property not among the triggers are unchanged |
| DependencyGraph.TwoPropertyLoopRejected | src/Extended.System/BindableModel.cs:149-150 | once `a` depends on `b`, making `b` depend on `a` throws `LoopTriggerException(a, b)` |
| DependencyGraph.LoopTestThrows | src/Extended.System.Test/BindableModelTest.cs:12-41 | the repository's loop test, `CheckLoop` (lines 12-15) with the registrations of `TestBindableModel`'s constructor (lines 37-41): `MyPropertyOne` on `MyPropertyTwo` passes, then `MyPropertyTwo` on `MyPropertyOne` throws |
| DependencyGraph.RepeatedRegistrationIsNoOp | src/Extended.System/BindableModel.cs:145-154 | repeating a registration that passed changes nothing and does not throw, for a property that does not depend on itself |
| DependencyGraph.RepeatedStep | src/Extended.System/BindableModel.cs:147-153 | the induction behind it: a graph already holding every edge is left as it is, without a throw |
| DependencyGraph.PriceTotalGraph | src/Extended.System/BindableModel.cs:145-154 | registering `Total` on `Price` and `Qty` gives the graph `Price -> [Total], Qty -> [Total]` |
| DependencyGraph.SelfDependencyAccepted | src/Extended.System/BindableModel.cs:149-152 | the loop check lets a first self-dependency through, the graph it leaves is cyclic, and a second one throws |
| DependencyGraph.ThreeCycleAccepted | src/Extended.System/BindableModel.cs:149-152 | the three registrations `A` on `B`, `B` on `C` and `C` on `A` all pass, giving the graph `B -> [A], C -> [B], A -> [C]` |
| DependencyGraph.ThreeCycleIsCyclic | src/Extended.System/BindableModel.cs:149-152 | that graph is cyclic: the loop check detects only direct two-property loops |
| ChangeCascade.Cascade | src/Extended.System/BindableModel.cs:161-171 | the events an outside subscriber receives for a "changed" of `p`; `CascadeCountsPaths`, `CascadeIsChangedOnly` and `CascadeIsPostOrder` state what they are |
| ChangeCascade.CascadeAll | src/Extended.System/BindableModel.cs:166-169 | the cascades of a dependent list in `ForEach` order; `CascadeAllCountsPaths`, `CascadeAllIsChangedOnly` and `CascadeAllContains` state what they hold |
| ChangeCascade.Notify | src/Extended.System/BindableModel.cs:196-199 | "changed" for a possibly null name: a null name reaches no dependent; `FirePropertyChanged` is proved to raise exactly this |
| ChangeCascade.PathCount | src/Extended.System/BindableModel.cs:161-171 | the independent reference for the cascade: the number of dependency paths, which `CascadeCountsPaths` equates with the number of events |
| ChangeCascade.Finishes | src/Extended.System/BindableModel.cs:168 | the handler's recursion returns within a depth; `AcyclicCascadeFinishes` and `CycleNeverFinishes` state when it does |
| ChangeCascade.CascadeCountsPaths | src/Extended.System/BindableModel.cs:161-171 | a property reachable from `p` by k dependency paths receives exactly k "changed" events: the cascade does not de-duplicate |
| ChangeCascade.CascadeAllCountsPaths | src/Extended.System/BindableModel.cs:166-169 | the same for the cascades over a list of dependents |
| ChangeCascade.CascadeIsChangedOnly | src/Extended.System/BindableModel.cs:161-171 | a cascade holds only "changed" events, all with the original sender and a non-null name; dependents get no "changing" |
| ChangeCascade.CascadeAllIsChangedOnly | src/Extended.System/BindableModel.cs:166-169 | the same for a list of dependents |
| ChangeCascade.NoPathUpwards | src/Extended.System/BindableModel.cs:161-171 | in an acyclic graph no dependency path leads from a property to one ranked higher |
| ChangeCascade.NoPathUpwardsAll | src/Extended.System/BindableModel.cs:166-169 | the same from a list of dependents |
| ChangeCascade.CascadeIsPostOrder | src/Extended.System/BindableModel.cs:161-171 | an outside subscriber receives the trigger's own "changed" last and exactly once, after that of every direct dependent |
| ChangeCascade.CascadeAllContains | src/Extended.System/BindableModel.cs:166-169 | the cascade over a list of dependents contains the final event of each of them |
| ChangeCascade.AcyclicCascadeFinishes | src/Extended.System/BindableModel.cs:161-171 | on an acyclic graph the handler's recursion returns within the height of the property plus one nested calls |
| ChangeCascade.FinishesMonotone | src/Extended.System/BindableModel.cs:161-171 | a recursion that returns within some depth also returns within any larger depth |
| ChangeCascade.CycleNeverFinishes | src/Extended.System/BindableModel.cs:161-171 | from a property in a set where every property has a dependent in the set, the recursion returns within no depth |
| ChangeCascade.ThreeCycleNeverFinishes | src/Extended.System/BindableModel.cs:145-171 | the three-property cycle the loop check accepts makes raising "changed" for `A` recurse without end |
| ChangeCascade.TriangleNeverFinishes | src/Extended.System/BindableModel.cs:161-171 | any three properties each depending on the next make the recursion endless |
| ChangeCascade.SelfDependencyNeverFinishes | src/Extended.System/BindableModel.cs:161-171 | so does a property depending on itself |
| ChangeCascade.PriceTotalExample | src/Extended.System/BindableModel.cs:145-171 | after registering `Total` on `Price` and `Qty`, the graph is acyclic, and changing `Price` notifies `Total` and then `Price` |
| ChangeCascade.LeafCascade | src/Extended.System/BindableModel.cs:164-169 | a property without dependents is notified alone |
| ChangeCascade.SingleDependentCascade | src/Extended.System/BindableModel.cs:164-169 | a property whose one dependent has no dependents of its own notifies that dependent, then itself |
| Bindable.DefaultValue | src/Extended.System/TypeExtensions.cs:13-21 | a value type's default is its zero; a reference type or an undeclared property gives null |
| Bindable.DynamicEquals | src/Extended.System/BindableModel.cs:94 | the source's comparison; `DynamicEqualsIsEquality` states it is equality |
| Bindable.ScalarChanges | src/Extended.System/BindableModel.cs:92-98 | whether a scalar set stores and raises; `ScalarChangeRules` and `RepeatedSetIsSilent` state its cases |
| Bindable.DynamicEqualsIsEquality | src/Extended.System/BindableModel.cs:94 | `prev?.Equals(value) ?? value == null` is equality of values, and null equals only null |
| Bindable.ScalarChangeRules | src/Extended.System/BindableModel.cs:92-104 | a first set always changes; null to null does not; non-null to null does; otherwise a set changes exactly when the value differs |
| Bindable.RepeatedSetIsSilent | src/Extended.System/BindableModel.cs:92-98 | setting the value just stored again is not a change |
| Bindable.PlanListSet | src/Extended.System/BindableModel.cs:113-138 | a first set creates a list exactly when the given list is not null (null throws `ArgumentNullException`); a stored binding list is refilled; a stored null with a null list does nothing; a stored null with a list, or a stored value that is not a list, throws `RuntimeBinderException`; each throwing case names its exception |
| Bindable.ReplaceItems | src/Extended.System/BindableModel.cs:121-128 | after `Clear` and the `Add` loop, the stored list holds the new items in order, or none for a null list |
| Bindable.BindingList.constructor | src/Extended.System/BindableModel.cs:135 | a new binding list holds the given items |
| Bindable.BindableModel.constructor | src/Extended.System/BindableModel.cs:57-60 | a new model has an empty store, an empty graph and no events |
| Bindable.BindableModel.GetProperty | src/Extended.System/BindableModel.cs:75-79 | a null name fails with `ArgumentNullException`; a stored name gives its value; a name never set gives its declared type's default; the store is only read |
| Bindable.BindableModel.OnPropertyChanging | src/Extended.System/BindableModel.cs:186-189 | appends exactly one "changing" event, with the model as sender |
| Bindable.BindableModel.OnPropertyChanged | src/Extended.System/BindableModel.cs:177-180 | appends the cascade for the name, with the model as sender |
| Bindable.BindableModel.FirePropertyChanged | src/Extended.System/BindableModel.cs:196-199 | appends the internal handler's events, then this "changed" event: the cascade for a name, the lone event for a null name |
| Bindable.BindableModel.HandlePropertyChanged | src/Extended.System/BindableModel.cs:161-171 | a null name raises nothing; otherwise it raises the cascades of all dependents, which with the trigger's own event make up `Cascade` |
| Bindable.BindableModel.RaiseDependents | src/Extended.System/BindableModel.cs:166-169 | raising "changed" for each dependent in turn produces the cascades of the dependents, in hash-set order |
| Bindable.BindableModel.SetProperty | src/Extended.System/BindableModel.cs:87-105 | callable on any graph when the set changes nothing (acyclicity is needed only for a changing set); a null name fails before any event or change. Otherwise: "changing" fires twice, unconditionally; the store and "changed" with its cascade happen exactly when the value changes; a later `GetProperty` returns the value |
| Bindable.BindableModel.SetListProperty | src/Extended.System/BindableModel.cs:113-138 | callable on any graph in the silent and throwing cases (acyclicity is needed only for a first set or a refill); a null name fails with nothing raised. Otherwise "changing" fires once, and then, per `PlanListSet`: a first set stores a fresh list of the items and raises the cascade; a refill keeps the stored list object, replaces its items and raises the cascade; the silent case and the throwing cases leave the store and the events as they were |
| Bindable.BindableModel.AddDependency | src/Extended.System/BindableModel.cs:145-154 | the graph and the outcome are exactly those of `AddTriggers` on the old graph; no two triggers share a hash set, before or after |
| Bindable.BindableModel.AddTrigger | src/Extended.System/BindableModel.cs:149-152 | one pass of the `ForEach`: throws when the trigger already depends on the dependent, otherwise registers it |
| ScheduledTimers.CancellationSource.Cancel | src/Extended.System/ScheduledTimer.cs:95 | the source is cancelled afterwards |
| ScheduledTimers.ScheduledTimer.constructor | src/Extended.System/ScheduledTimer.cs:30-35 | a new timer is not scheduled, its timer is stopped, ticks are one-shot, the semaphore is free, and there is no delegate |
| ScheduledTimers.ScheduledTimer.Subscribe | src/Extended.System/ScheduledTimer.cs:23 | after a subscription there is a delegate, and nothing else changes |
| ScheduledTimers.ScheduledTimer.Start | src/Extended.System/ScheduledTimer.cs:79-88 | an already scheduled timer is left exactly as it was; a non-positive interval throws and changes nothing; otherwise it sets the interval, takes a fresh uncancelled source, starts the timer and is scheduled |
| ScheduledTimers.ScheduledTimer.Stop | src/Extended.System/ScheduledTimer.cs:93-98 | cancels the current source if there is one, stops the timer, unschedules it, and is callable before any `Start` |
| ScheduledTimers.ScheduledTimer.BeginInvoke | src/Extended.System/ScheduledTimer.cs:54-59 | stops the timer when scheduled; a cancelled wait throws `OperationCanceledException` without taking the semaphore; a successful wait takes it |
| ScheduledTimers.ScheduledTimer.EndInvoke | src/Extended.System/ScheduledTimer.cs:60-72 | with no delegate it throws "not initialized"; otherwise the delegate's outcome is returned; either way the semaphore is back to one, and the timer runs exactly when it is still scheduled |
| ScheduledTimers.ScheduledTimer.Elapsed | src/Extended.System/ScheduledTimer.cs:42-46 | the one-shot tick stops the timer and invokes with the current source's token |
| ScheduledTimers.TickCycle | src/Extended.System/ScheduledTimer.cs:42-73 | a tick whose wait succeeds leaves the timer scheduled, running again and the semaphore free, whatever the delegate did |
| ScheduledTimers.StopDuringRun | src/Extended.System/ScheduledTimer.cs:54-98 | `Stop` while the delegate runs: the semaphore is still released, and the timer stays stopped |
| ScheduledTimers.CancelledWaitStrandsTimer | src/Extended.System/ScheduledTimer.cs:56-59 | a cancelled wait leaves the timer scheduled but stopped, with the semaphore as it was |
| EnumerableExtensions.SkipTakeIsSlice | src/Extended.System/EnumerableExtensions.cs:89 | `Skip(start).Take(count)` is the slice from `start` of length `count`, clipped to the sequence; a non-positive count takes nothing |
| EnumerableExtensions.CeilDivIsCeiling | src/Extended.System/EnumerableExtensions.cs:77 | `itemsPerColumn` is the least count with which `numberOfColumns` columns hold all items |
| EnumerableExtensions.Columns | src/Extended.System/EnumerableExtensions.cs:74-93 | the columns `SplitArray` returns; `ColumnCount`, `ColumnContents`, `ColumnsBounded` and `FlattenColumns` state their number, contents, bound and that they partition the input |
| EnumerableExtensions.SplitArray | src/Extended.System/EnumerableExtensions.cs:74-93 | the loop returns exactly `Columns(values, numberOfColumns)` |
| EnumerableExtensions.ColumnCount | src/Extended.System/EnumerableExtensions.cs:80-90 | `numberOfColumns >= 1` gives exactly that many columns; `numberOfColumns <= 0` gives none |
| EnumerableExtensions.ColumnOfContents | src/Extended.System/EnumerableExtensions.cs:82-89 | column `i < n-1` covers the indices `[i*c, (i+1)*c)` clipped to the input; the last covers everything from `(n-1)*c` |
| EnumerableExtensions.ColumnContents | src/Extended.System/EnumerableExtensions.cs:77-89 | the same with `c` the ceiling of `total / n` |
| EnumerableExtensions.ColumnsBounded | src/Extended.System/EnumerableExtensions.cs:77-89 | no column holds more than the ceiling of `total / n` items |
| EnumerableExtensions.ColumnBounded | src/Extended.System/EnumerableExtensions.cs:82-89 | for any width `c` with `c*n >= total`, no column holds more than `c` items |
| EnumerableExtensions.FlattenPrefix | src/Extended.System/EnumerableExtensions.cs:80-90 | the first `k < n` columns, concatenated, are the first `k*c` items, clipped |
| EnumerableExtensions.FlattenColumns | src/Extended.System/EnumerableExtensions.cs:74-93 | for `numberOfColumns >= 1`, concatenating the columns in order gives back the input |
| EnumerableExtensions.FlattenColumnsOf | src/Extended.System/EnumerableExtensions.cs:84-89 | for any width, the last column takes the rest, so concatenation loses nothing |
| EnumerableExtensions.FiveIntoFour | src/Extended.System/EnumerableExtensions.cs:84-89 | five items in four columns give columns of 2, 2, 1 and 0 items |
| EnumerableExtensions.HasItems | src/Extended.System/EnumerableExtensions.cs:101-104 | `HasItemsIffElement` states it holds exactly when an element exists |
| EnumerableExtensions.HasItemsIffElement | src/Extended.System/EnumerableExtensions.cs:101-104 | `HasItems` holds exactly when the sequence is not null and has an element |
| EnumerableExtensions.Apply | src/Extended.System/EnumerableExtensions.cs:123-126 | the action folded over the values in order; `ApplyAppend` and `ApplyRecords` state it visits each once, in order |
| EnumerableExtensions.ForEach | src/Extended.System/EnumerableExtensions.cs:123-126 | the action runs once per element of the snapshot, in order: the result is `Apply` over the values |
| EnumerableExtensions.ApplyAppend | src/Extended.System/EnumerableExtensions.cs:123-126 | running over `a + b` is running over `a`, then over `b` |
| EnumerableExtensions.ApplyRecords | src/Extended.System/EnumerableExtensions.cs:123-126 | an action that records its argument sees every element exactly once, in order |
| StringExtensions.StripTags | src/Extended.System/StringExtensions.cs:12 | the regex replace of `<[^>]*>`; `StripTagsLeavesNoTag`, `StripTagsOfNoTag`, `TagRemoved` and `UnclosedTagKept` state what it removes and keeps |
| StringExtensions.ReplaceNbsp | src/Extended.System/StringExtensions.cs:32 | the `&nbsp;` replacement; `ReplaceNbspLeavesNone` and `ReplaceNbspOfNone` state what it leaves |
| StringExtensions.EraseHtml | src/Extended.System/StringExtensions.cs:30-33 | the two steps composed; `EraseHtmlResult`, `EraseHtmlOfPlainText` and `EraseHtmlIdempotent` state what it returns |
| StringExtensions.StripTagsKeepsCharacters | src/Extended.System/StringExtensions.cs:12 | the tag strip only removes characters |
| StringExtensions.ReplaceNbspKeepsCharacters | src/Extended.System/StringExtensions.cs:32 | the replacement introduces no character but the space |
| StringExtensions.StripTagsLeavesNoTag | src/Extended.System/StringExtensions.cs:12 | after the tag strip, no `<` is followed anywhere later by a `>` |
| StringExtensions.StripTagsOfNoTag | src/Extended.System/StringExtensions.cs:12 | text where nothing matches `<[^>]*>` is kept as it is |
| StringExtensions.StripTagsAppendUnclosed | src/Extended.System/StringExtensions.cs:12 | a tail without `>` passes through whole, after the strip of what precedes it |
| StringExtensions.UnclosedTagKept | src/Extended.System/StringExtensions.cs:12 | a `<` with no later `>` is kept, with everything after it |
| StringExtensions.TagRemoved | src/Extended.System/StringExtensions.cs:12 | a `<`, a body without `>`, and the first `>` vanish together, leaving the strip of the rest |
| StringExtensions.ReplaceNbspKeepsNoTag | src/Extended.System/StringExtensions.cs:32 | the replacement creates no `<` followed by a `>` |
| StringExtensions.ReplaceNbspLeavesNone | src/Extended.System/StringExtensions.cs:32 | no `&nbsp;` survives the left-to-right replacement |
| StringExtensions.ReplaceNbspOfNone | src/Extended.System/StringExtensions.cs:32 | text without `&nbsp;` is kept as it is |
| StringExtensions.StripTagsShortens | src/Extended.System/StringExtensions.cs:12 | the tag strip never lengthens the text |
| StringExtensions.ReplaceNbspShortens | src/Extended.System/StringExtensions.cs:32 | the replacement never lengthens the text |
| StringExtensions.EraseHtmlResult | src/Extended.System/StringExtensions.cs:30-33 | `EraseHtml` leaves no `<` followed later by a `>`, never lengthens the text, and leaves no `&nbsp;` |
| StringExtensions.EraseHtmlOfPlainText | src/Extended.System/StringExtensions.cs:30-33 | text with no `<` and no `&nbsp;` comes back unchanged |
| StringExtensions.EraseHtmlIdempotent | src/Extended.System/StringExtensions.cs:30-33 | erasing twice is erasing once |
| StringExtensions.EraseHtmlExample | src/Extended.System/StringExtensions.cs:30-33 | `<b>x&nbsp;y</b>` becomes `x y` |
| StringExtensions.StripTagsExample | src/Extended.System/StringExtensions.cs:12 | a bold element around text without `<` leaves just that text |
| StringExtensions.ReplaceNbspExample | src/Extended.System/StringExtensions.cs:32 | `x&nbsp;y` becomes `x y` |
| StringExtensions.StripTagsPlainPrefix | src/Extended.System/StringExtensions.cs:12 | a prefix without `<` passes through the strip |
| StringExtensions.ReplaceNbspPlainPrefix | src/Extended.System/StringExtensions.cs:32 | a prefix without `&` passes through the replacement |
| EnumExtensions.Flagged | src/Extended.System/EnumExtensions.cs:17-20 | the members the `foreach` yields for; `FlaggedMembers` and `FlaggedIsSubsequence` state which and in what order |
| EnumExtensions.FlagEnumList | src/Extended.System/EnumExtensions.cs:14-22 | `GetFlagEnumList`; `FlagEnumListNames` states it names the flagged members in order |
| EnumExtensions.HasFlagIffNoOtherBits | src/Extended.System/EnumExtensions.cs:19 | `HasFlag` holds exactly when the flag has no bit that is clear in the value |
| EnumExtensions.FlaggedMembers | src/Extended.System/EnumExtensions.cs:17-20 | a member is listed exactly when it is declared and all of its bits are set in the value |
| EnumExtensions.FlaggedIsSubsequence | src/Extended.System/EnumExtensions.cs:17-21 | the listed members are a subsequence of the given members, in `Enum.GetValues` order |
| EnumExtensions.ZeroMemberListed | src/Extended.System/EnumExtensions.cs:19 | a member with value zero is listed for every value |
| EnumExtensions.ListedHasNoOtherBits | src/Extended.System/EnumExtensions.cs:19 | a listed member has no bit outside the value |
| EnumExtensions.FlagEnumListNames | src/Extended.System/EnumExtensions.cs:14-22 | the result holds one name per listed member, in order, and is no longer than the member list |
| EnumExtensions.FlaggedShorter | src/Extended.System/EnumExtensions.cs:17-21 | no more members are listed than are declared |
| EnumExtensions.ReadWriteExample | src/Extended.System/EnumExtensions.cs:14-22 | with `None = 0, Read = 1, Write = 2, ReadWrite = 3`, the value 3 lists all four names, and 2 lists `None` and `Write` |
| AssemblyExtensions.Wrap32 | src/Extended.System/AssemblyExtensions.cs:68 | `offset + 8` is the sum wrapped into 32 bits: a 32-bit value, congruent to the exact sum, and equal to it when it fits |
| AssemblyExtensions.AssemblyDirectory | src/Extended.System/AssemblyExtensions.cs:40-46 | a null assembly fails with `ArgumentException("assembly")`, and only a null one; otherwise the result is its location |
| AssemblyExtensions.Int32FromBytes | src/Extended.System/AssemblyExtensions.cs:67 | four bytes decode to a 32-bit signed value |
| AssemblyExtensions.Int32RoundTrip | src/Extended.System/AssemblyExtensions.cs:67-68 | encoding a 32-bit value in little-endian order and decoding it gives it back |
| AssemblyExtensions.BytesRoundTrip | src/Extended.System/AssemblyExtensions.cs:67-68 | decoding four bytes and encoding the value gives the bytes back |
| AssemblyExtensions.ToInt32 | src/Extended.System/AssemblyExtensions.cs:67-68 | the read succeeds exactly when four bytes lie at the index. An index outside the buffer is `ArgumentOutOfRangeException`; one with fewer than four bytes after it is `ArgumentException`; a success decodes those four bytes |
| AssemblyExtensions.ReadBuffer | src/Extended.System/AssemblyExtensions.cs:62-65 | the buffer is 2048 bytes: the image's first bytes, then zeros |
| AssemblyExtensions.LinkerTime | src/Extended.System/AssemblyExtensions.cs:54-77 | a null assembly, and only a null one, fails with `ArgumentNullException("assembly")`; any other failure is a `BitConverter` range error; `LinkerTimeFound` states when it succeeds and with what |
| AssemblyExtensions.HeaderOffsetRead | src/Extended.System/AssemblyExtensions.cs:59-67 | the header offset is the little-endian int32 at bytes 60 to 63 and is always readable |
| AssemblyExtensions.NullAssemblyRefused | src/Extended.System/AssemblyExtensions.cs:56 | a null assembly fails with `ArgumentNullException("assembly")` |
| AssemblyExtensions.LinkerTimeFound | src/Extended.System/AssemblyExtensions.cs:59-71 | the link time is found exactly when `0 <= offset + 8 <= 2044`, and is the int32 at `offset + 8`. An offset below that range, or past the buffer (an overflowing sum included), is out of range; one within the last three bytes is an argument error |
| AssemblyExtensions.LinkerTimeOfImage | src/Extended.System/AssemblyExtensions.cs:54-71 | an image with the header offset and the timestamp written where the PE format puts them, within 2048 bytes, yields that timestamp in seconds after the epoch |
| AssemblyExtensions.ShortImage | src/Extended.System/AssemblyExtensions.cs:62-68 | an image of at most 60 bytes reads a zero header offset from the padding, so the timestamp comes from bytes 8 to 11 |

## Left out

- I/O:
  - `GetLinkerTime`: reading the file (the image bytes are a parameter), `DateTime`, and the time-zone conversion. The link time is integer seconds after 1970-01-01 UTC.
  - `GetAssemblyDirectory`: `Assembly.Location` (the location is a field).
- `LinkerTimeOfImage`, `ReadBuffer`: `Stream.Read` is taken to fill the buffer with as many bytes as the image has, up to 2048. A short read is not modelled.
- `BitConverter` is taken to be little-endian.
- Concurrency in `ScheduledTimer`:
  - real time and thread interleavings;
  - the semaphore's wait queue. This is why `BeginInvoke` requires the semaphore to be free when its wait succeeds.
  - The awaited wait and delegate are inputs, and `Invoke` is split at its `await` into `BeginInvoke` and `EndInvoke`.
  - Only one delegate is modelled, not multicast or unsubscription.
- `ScheduledTimers.ScheduledTimer.Start`: it does not model the upper bound of `Timer.Interval`, `Int32.MaxValue`. The interval is whole milliseconds: the source passes `TimeSpan.TotalMilliseconds`, a double, so a positive fractional interval such as 0.5 ms is accepted there and cannot be expressed in the model.
- `ScheduledTimers.ScheduledTimer.Elapsed`, `ScheduledTimers.TickCycle`, `ScheduledTimers.CancelledWaitStrandsTimer`: `SyncTimer_Elapsed` is `async void`, so the failure of a tick ("AsyncDelegate not initialized.", a faulted delegate, or the `OperationCanceledException` of a cancelled wait) is an unobserved exception rethrown on the thread pool, not a result. The model returns it as a `Fail` value; only a direct `Invoke` call hands the failure to a caller.
- `Dispose`, and the `BindableModel` finalizer that unsubscribes the handler, are not modelled: they only release resources.
- `DictionaryExtensions.HashSet.Add` (and so `RaiseDependents`): a hash set's enumeration order is taken to be its insertion order, which holds for a set never removed from. The path-count and membership lemmas do not depend on that order.
- `DictionaryExtensions.SetOrAddItem`: it is instantiated with `HashSet` only, the collection the bindable model uses. Other `ICollection` types are not modelled.
- `Bindable.BindableModel.SetProperty`, `Bindable.BindableModel.SetListProperty`, `Bindable.BindableModel.OnPropertyChanged`: a set that raises "changed" (a changing scalar set, a first list set or a refill), and every `OnPropertyChanged`, require the whole graph to be acyclic, even when the cycle is one the name cannot reach. On a cycle the name does reach, the source's recursion never returns (`ChangeCascade.CycleNeverFinishes`), and the resulting stack overflow is not modelled; a changing set whose name reaches no cycle returns in the source but is not covered. A set that raises no "changed" is modelled on any graph.
- `Bindable.BindableModel.SetListProperty`:
  - It takes the caller's list to be a different object from both the stored binding list and the list that binding list wraps. Passing the stored binding list itself back (a binding writing back the list it read) makes `prevValue?.Equals(value)` true by reference, and the source does nothing after the one "changing"; the model plans a refill instead. `new BindingList<T>(value)` wraps the caller's list rather than copying it, so setting that wrapped list again clears it, through the wrapper, before its items are copied back, and the property ends empty. A fixed-size list throws on `Clear`. That aliasing is left out; a new binding list is modelled as a copy.
  - It does not model the `dynamic` dispatch beyond its outcome: a call on null or on a non-list value throws `RuntimeBinderException`.
- `Bindable.DefaultValue`: its reflective property-type lookup (`GetPropertyType`) is replaced by a schema from names to declared types, with five kinds of type.
- `Bindable.BindableModel.AddDependency`:
  - The expression-tree overload in `BindableModelExtensions` is not modelled, because its `GetPropertyName` helper is not part of this model. Only the string overload is.
  - A null trigger array (`ToList` in `ForEach` throws `ArgumentNullException`), or a null dependent or trigger name (the dictionary lookups throw `ArgumentNullException`), are not modelled: names are strings, as the source's non-nullable parameters declare.
- `LoopTriggerException`: only the two property names it reports are modelled, not its message text.
- `EnumerableExtensions.SplitArray`:
  - It does not model 32-bit overflow of `itemsPerColumn * i`, because it is unbounded here.
  - `Math.Ceiling(total / (double)n)` is modelled as exact integer ceiling division, which agrees with the double arithmetic for every `int` input.
- `EnumExtensions.FlagEnumList`:
  - It takes the member list in `Enum.GetValues` order as given, ordered by unsigned value, as `Enum.GetValues` documents; the model takes that list as input rather than sorting it.
  - It does not model `Enum.GetName` returning one of several names for aliased values. Each member yields its own name.
  - Underlying types wider than 32 bits are not modelled.
- Everything else in the repository is not part of this model:
  - HTTP, file, stream, hashing and JSON helpers;
  - reflection helpers (`GetInheritedTypes`, `IsInherited`, `ToDynamic`);
  - `ToNameValueCollection` and the query-string builders;
  - `ConcurentTimerProcess` and the delegate helpers;
  - `ToEnum`.

