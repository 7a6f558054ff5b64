# Doge-Engine ECS binding layer in Dafny

This project models the entity–component–system bookkeeping of Doge-Engine (TypeScript) and proves properties of it:

- **ClassMap** (`src/utils/classmap.ts`): a string-keyed store whose key comes from a string, from a class (its name tag, else its `name`), or from an instance (the tag or name of its constructor). Keys keep the order in which they were first inserted, as a JavaScript `Map` does.
- **EventDispatcher** (`src/core/event_dispatcher.ts`): per-event listener arrays. It supports run limits (`maxRuns`), positional insertion (`insertAt`), ids drawn from one module-wide counter, and the `STOP_PROPAGATION` sentinel.
- **Entity** (`src/core/entity.ts`): a component ClassMap, a duplicate-free list of enabled system keys, and named relationship buckets keyed by target id. Every change is announced through the entity's own dispatcher.
- **System** (`src/core/system.ts`): holds an `entities` map and a reference to its world.
- **World** (`src/core/world.ts`): registers child entities and keeps each system's `entities` in step with each child's list of systems. It also runs systems for `update` and `updateComplex`.

Files and modules:

| file | module | contents |
|---|---|---|
| `outcomes.dfy` | `Outcomes` | `Option`, `Result`, the error kinds, and `Outcome`. |
| `sequences.dfy` | `Sequences` | Array helpers: `indexOf`, `splice(i, 1)`, duplicate-freedom. |
| `js_map.dfy` | `JsMap` | `OrderedMap`, the semantics of a JavaScript `Map`. |
| `classmap.dfy` | `ClassMaps` | Keys, `getClassName`, `getInstanceName`, and `class ClassMap`. |
| `event_dispatcher.dfy` | `EventDispatcher` | Listener records, the dispatch pass, and the three dispatcher methods. |
| `entity.dfy` | `Entities` | `class Entity`. |
| `world.dfy` | `Worlds` | `class System` and `class World`. They share a module because each refers to the other. |

Modelling conventions:

- A failed `assert` of the source, or a JavaScript crash such as reading a property of `undefined`, is an `Outcome.Fail` carrying an error kind.
- The dispatcher's listener map is a value of type `Listeners<C>`. It is held in a `listeners` field by Entity, System and World, and the dispatcher methods map old lists to new ones.
- A listener's function is abstracted to a callback value. What calling it does to the pass (proceed, return `STOP_PROPAGATION`, or throw) is given by a reaction function. A system listener may proceed or stop (`SystemListenerReaction`).
- An entity listener is either a program callback with a fixed reaction, or the hook a world installs on a child (`WorldHook`). World.ChildEnableSystem and World.ChildDisableSystem wire those hooks to the world's `entityEnableSystem` and `entityDisableSystem`, once for each hook the announcement reaches.
- `Infinity` is the run count `Unbounded`.
- The module-level `currentID` is an `IdCounter` object passed to `addEventListener`.

## Model

| member | source | states |
|---|---|---|
| ClassMaps.ClassName | src/utils/classmap.ts:15-18 | getClassName is `undefined` exactly for a plain object with neither a tag nor a `name`. Strings and classes always have a key. |
| ClassMaps.StringKeyIsItself | src/utils/classmap.ts:15-18 | A string key resolves to itself. |
| ClassMaps.InstanceKeyIsOwnTagOrName | src/utils/classmap.ts:15-18 | An ordinary object resolves through its own tag, else its own `name`, which may be undefined. Its class plays no part. |
| ClassMaps.ClassKeyIsTagOrName | src/utils/classmap.ts:15-18 | A class resolves to its name tag, or to its `name` when the tag is absent or empty. |
| ClassMaps.UntaggedClassSharesItsNameEntry | src/utils/classmap.ts:15-18 | An untagged class and the string of its name address the same entry, yet they are different key values. |
| ClassMaps.InstanceName | src/utils/classmap.ts:20-23 | A given name is the storage key, the empty string included. Without a name, an instance is stored exactly where a lookup by its class looks. |
| ClassMaps.ClassMap.constructor | src/utils/classmap.ts:26 | A new ClassMap is empty. |
| JsMap.SizeCountsKeys | src/utils/classmap.ts:28-30 | `size` equals the number of distinct keys stored. ClassMap.Size hands it on. |
| ClassMaps.Lookup | src/utils/classmap.ts:32-37 | What `get` finds in the table: a value exactly when the key denotes a name that is stored, and then the value stored under that name. |
| ClassMaps.ClassMap.Has | src/utils/classmap.ts:39-41 | `has` holds exactly when the key denotes a name in the table's iteration order, so forEach visits it. |
| ClassMaps.ClassMap.Get | src/utils/classmap.ts:32-41 | `get` gives a value exactly when `has` holds, and it is the value stored under the key's class name. |
| ClassMaps.ClassMap.Set | src/utils/classmap.ts:43-46 | `set` stores under the instance name, so `get` of that name returns the instance. Every other key keeps its value. Overwriting keeps `size` and the iteration order; a new key adds one to `size`. |
| ClassMaps.ClassMap.Delete | src/utils/classmap.ts:48-50 | `delete` returns true iff the key was present. Afterwards `has` is false, `size` drops by one exactly when it returned true, and other keys are unchanged. |
| ClassMaps.ClassMap.Clear | src/utils/classmap.ts:52-54 | `clear` leaves `size` 0 and no key present. |
| ClassMaps.ClassMap.Entries | src/utils/classmap.ts:56-65 | `forEach` visits one entry per stored key, in key order, and each entry's value is what `get` returns for its key. |
| JsMap.OrderedMap.Set | src/utils/classmap.ts:44 | `Map.set` gives the new value and keeps every other key. An existing key keeps its place; a new key goes last. |
| JsMap.OrderedMap.Delete | src/utils/classmap.ts:49 | `Map.delete` removes exactly that key. The others keep their values and their order, and an absent key leaves the map as it was. |
| JsMap.DeleteEntries | src/utils/classmap.ts:49-65 | After a delete, forEach visits the same entries in the same order, less the deleted one. |
| JsMap.Empty | src/utils/classmap.ts:26 | `new Map()` (and what `clear` leaves) is a valid map with no keys. |
| JsMap.OrderedMap.First | src/core/entity.ts:106 | `const [[k, v]] = map` reads the first entry in iteration order, and is undefined on an empty map. |
| JsMap.EntriesOnce | src/utils/classmap.ts:56-65 | Iteration visits every stored key, and each one exactly once. |
| JsMap.SetEntries | src/utils/classmap.ts:44 | Overwriting a key replaces its entry in place; a new key's entry is appended. |
| JsMap.DeleteThenSetMovesLast | src/utils/classmap.ts:44-49 | A key that is deleted and set again moves to the end of the iteration order. |
| JsMap.SetAgain | src/core/world.ts:79 | Setting the same key to the same value twice is setting it once. |
| JsMap.DeleteAgain | src/core/world.ts:88 | Deleting a key twice is deleting it once. |
| JsMap.SetThenDelete | src/core/world.ts:34-46 | Setting a new key and deleting it gives back the original map. |
| Sequences.RemoveFirst | src/core/entity.ts:70-73 | `splice(indexOf(x), 1)` on a duplicate-free array removes `x` and nothing else, and keeps the array duplicate-free. |
| EventDispatcher.IdCounter.constructor | src/core/event_dispatcher.ts:4 | `currentID` starts at 0. |
| EventDispatcher.NormalRuns | src/core/event_dispatcher.ts:20 | `maxRuns || Infinity`: an omitted or zero run count is unbounded, and any other count is kept as given. |
| EventDispatcher.InsertPosition | src/core/event_dispatcher.ts:21-30 | Where `splice(insertAt || Infinity, 0, record)` puts the record: omitted or 0 appends, a position within the array is used as is, a larger one is clamped to the end, and a negative one counts from the end and stops at the front. |
| EventDispatcher.AddEventListener | src/core/event_dispatcher.ts:12-32 | Auto ids (see the list below). |
| EventDispatcher.AppendedWithoutPosition | src/core/event_dispatcher.ts:21-30 | Without `insertAt`, the record is appended to the event's array. |
| EventDispatcher.ZeroPositionAppends | src/core/event_dispatcher.ts:21-30 | `insertAt: 0` is falsy, so it appends instead of prepending. |
| EventDispatcher.Dispatch | src/core/event_dispatcher.ts:51-65 | An event without an array changes nothing, calls no listener and returns no sentinel. Otherwise one pass runs over the array (see PassCharacterised), and the array it leaves is stored. |
| EventDispatcher.PassCharacterised | src/core/event_dispatcher.ts:55-64 | The pass (see the list below). |
| EventDispatcher.ProceedingPass | src/core/event_dispatcher.ts:55-64 | When every listener proceeds, the pass calls all of them, in order, counts each down and completes. |
| EventDispatcher.CalledUnlessHaltedBefore | src/core/event_dispatcher.ts:55-58 | A listener whose predecessors all proceed is called, in its place. |
| EventDispatcher.StoppedIffSomeListenerStops | src/core/event_dispatcher.ts:63 | Without throwing listeners, the pass returns the sentinel iff some listener returns it. |
| EventDispatcher.UnboundedSurvives | src/core/event_dispatcher.ts:57-61 | An unbounded listener that is called stays in the array, unchanged. |
| EventDispatcher.RunLimit | src/core/event_dispatcher.ts:57-61 | Run limits (see the list below). |
| EventDispatcher.GoneAfterItsRuns | src/core/event_dispatcher.ts:55-61 | Over `m` dispatches in which every listener proceeds, a limited listener with a unique id stays in the array until it has had its passes (`n` for maxRuns `n ≥ 1`, one for a negative count), and is gone from then on. An unbounded one stays. |
| EventDispatcher.AbsentStaysAbsent | src/core/event_dispatcher.ts:55-64 | Dispatching never brings back an id the array lacks. |
| EventDispatcher.SpentListenerNotRemovable | src/core/event_dispatcher.ts:34-61 | Once a limited listener has had its passes, removing it by id finds nothing, so removeEventListener returns false and changes nothing. |
| EventDispatcher.CalledAsOftenAsItsRuns | src/core/event_dispatcher.ts:55-64 | Over any number of dispatches in which every listener proceeds, the one listener with a given id is called exactly as often as RunLimit says. |
| EventDispatcher.AbsentIdNeverFires | src/core/event_dispatcher.ts:55-64 | Over any number of dispatches, no listener with an id absent from the array is ever called. |
| EventDispatcher.RemoveEventListener | src/core/event_dispatcher.ts:34-49 | See the list below. This is the intended behaviour; the source's loop differs (see Findings). |
| EventDispatcher.UnsubscribeUndoesInsert | src/core/event_dispatcher.ts:24-48 | Removing by id undoes an insertion at any position, when no listener of the event carried that id before. |
| EventDispatcher.RemoveEventListenerAsWritten | src/core/event_dispatcher.ts:34-49 | As written, it returns false exactly when the event has no array, and never returns true. |
| EventDispatcher.ScanUp | src/core/event_dispatcher.ts:41-46 | The loop from a non-negative index only stops early on a matching id. It throws exactly when no listener from that index on carries the id, and never reaches `return false`. |
| EventDispatcher.RemoveVersionsAgreeWithoutArray | src/core/event_dispatcher.ts:38-39 | Both the as-written and the intended removal return false for an event without an array. |
| EventDispatcher.RemoveAsWrittenThrows | src/core/event_dispatcher.ts:41-42 | As written, the loop starts at `arr.length` and counts up, so it throws on every event that has an array. |
| Entities.Entity.constructor | src/core/entity.ts:19-27 | A new entity has its id, no components, no systems, no relationships and no listeners. |
| Entities.Entity.GetComponent | src/core/entity.ts:36-42 | `getComponent` gives a component exactly when `hasComponent` holds, namely the one stored under the key. |
| Entities.Entity.HasComponent | src/core/entity.ts:40-42 | `hasComponent` holds exactly when the components ClassMap gives a value for the key. |
| Entities.Entity.AddComponent | src/core/entity.ts:29-34 | As written (see the list below). |
| Entities.GuardBlindToPlainInstances | src/core/entity.ts:30 | The guard never rejects an instance with neither a tag nor a `name`. |
| Entities.SecondPlainInstanceOverwrites | src/core/entity.ts:30-32 | So a second plain instance of a class already present passes the guard and overwrites the first. |
| Entities.Entity.AddComponentChecked | src/core/entity.ts:29-34 | Corrected: it fails when the class key is taken. Otherwise it stores the component, `size` grows by one, `getComponent` of the class returns it, and `componentAdded` is dispatched. |
| Entities.Entity.RemoveComponent | src/core/entity.ts:44-58 | It fails, changing nothing, when no component is stored under the key or that component is protected. Otherwise it deletes the entry, `size` drops by one, and `componentRemoved` is dispatched. |
| Entities.Entity.EnableSystem | src/core/entity.ts:60-67 | It fails on a key already listed. Otherwise it appends the key and dispatches `systemEnabled`, so the list stays duplicate-free. |
| Entities.Entity.DisableSystem | src/core/entity.ts:69-75 | It fails on an absent key. Otherwise it removes that one occurrence, keeps the others in order, and dispatches `systemDisabled`. |
| Entities.Entity.AddRelationship | src/core/entity.ts:84-96 | Relationships (see the list below). |
| Entities.Entity.TargetOf | src/core/entity.ts:105-108 | A given non-empty target id is used as is. A missing or empty one means the bucket's first key, and there is none on an empty bucket. |
| Entities.Entity.RemoveRelationship | src/core/entity.ts:98-118 | See the list below. |
| Entities.Entity.HasRelationship | src/core/entity.ts:77-82 | `hasRelationship` holds exactly when the bucket exists and has a key. |
| Entities.HasRelationshipIffSingleExists | src/core/entity.ts:77-82 | `hasRelationship` holds iff the bucket exists and is non-empty, which is exactly when `getRelationship(name, true)` succeeds. |
| Entities.Entity.GetRelationship | src/core/entity.ts:123-140 | It fails when the bucket is missing. With `single`, it gives the first-inserted member, or throws on an empty bucket. Otherwise it gives the bucket. |
| Worlds.System.constructor | src/core/system.ts:14-24 | A new system has the given world and class, an empty `entities` map and no listeners. |
| Worlds.System.GetTypes | src/core/system.ts:17-19 | `getTypes` is exactly one element, the default system type. |
| Worlds.System.Update | src/core/system.ts:26 | The default `update` changes nothing. |
| Worlds.ResolvingIs | src/core/world.ts:57 | The system-list loop gets exactly as far as the first key that finds no system. |
| Worlds.World.constructor | src/core/world.ts:19-28 | A new world has no systems, no children, no enabled systems and no listeners. |
| Worlds.World.GetChild | src/core/world.ts:48-50 | `getChild(id)` gives a child exactly when one is registered under `id`, and that child's id is `id`. |
| Worlds.World.EntityEnableSystem | src/core/world.ts:77-81 | The system the key finds takes the entity into `entities` under its id and dispatches `entityAdded`. No other system changes. A key that finds nothing throws. |
| Worlds.World.EntityDisableSystem | src/core/world.ts:83-90 | The system the key finds drops the entity's entry and dispatches `entityRemoved`. No other system changes. A key that finds nothing throws. |
| Worlds.World.JoinAll | src/core/world.ts:57 | See connectChild's loop in the list below. |
| Worlds.World.LeaveAll | src/core/world.ts:71 | disconnectChild's loop, the same way: each system that `m > 0` keys reached has dropped the child and dispatched `entityRemoved` `m` times. |
| Worlds.World.Hook | src/core/world.ts:58-67 | The child gets two unbounded `WorldHook` listeners, on `systemEnabled` and `systemDisabled`, appended, with id `child.id`. If that id is empty, the counter supplies two fresh ids. |
| Worlds.World.ConnectChild | src/core/world.ts:56-68 | The child joins as JoinAll says, then gets the two hooks. If a key throws, no hook is added. |
| Worlds.ConnectedChildHookedOnce | src/core/world.ts:58-67 | If the child's own listeners on the two events all proceed, a later announcement by a connected child reaches the world's hook exactly once. It fails with the hook's TypeError when the key finds no system. |
| Worlds.World.ChildEnableSystem | src/core/world.ts:58-62 | A connected child's `enableSystem(k)` (see the list below). |
| Worlds.World.ChildDisableSystem | src/core/world.ts:63-67 | A connected child's `disableSystem(k)`, the same way. The child drops `k` from its list and dispatches `systemDisabled`; each reached hook takes it out of the system `k` finds. |
| Worlds.World.DisconnectChild | src/core/world.ts:70-75 | The child leaves as LeaveAll says, then loses the first listener carrying its id on each of the two events. If a key throws, the listeners are kept. |
| Worlds.World.DisconnectChildAsWritten | src/core/world.ts:70-75 | As written: the child leaves as LeaveAll says. Then removeEventListener throws TypeError whenever the child has a `systemEnabled` or `systemDisabled` array, which every connected child has, and no listener is removed. |
| Worlds.DisconnectUndoesConnect | src/core/world.ts:56-75 | For a non-empty id that no earlier listener carries, disconnecting removes exactly the two hooks connecting added. |
| Worlds.EmptyIdHooksStay | src/core/world.ts:56-75 | A child with the empty id got fresh ids for its hooks, so disconnecting it, which looks for `""`, leaves both hooks. |
| Worlds.World.AddChild | src/core/world.ts:34-39 | See the list below. |
| Worlds.World.Release | src/core/world.ts:44-45 | Once the child is found, the corrected removeChild disconnects it (see DisconnectChild) and dispatches `childRemoved`. |
| Worlds.World.ReleaseAsWritten | src/core/world.ts:44-45 | Once the child is found, removeChild as written runs disconnectChild as written. It fails with TypeError before `childRemoved` for a child with hooks, and announces `childRemoved` only for one without. |
| Worlds.World.RemoveChildAsWritten | src/core/world.ts:41-46 | As written: an unknown id fails and changes nothing. A known child leaves its systems, then the removal throws TypeError if the child has a listener array for either of the two events, and `childRemoved` is not dispatched. The child keeps its listeners and stays in `children`. |
| Worlds.World.RemoveChild | src/core/world.ts:41-46 | Corrected: disconnects with the intended removeEventListener (see Release), and `children` loses the id in every case. Its frame admits only the child found under the id, so every other child is untouched, and an unknown id changes no child. |
| Worlds.RemovedChildCannotReturn | src/core/world.ts:34-46 | As written, removing a child just added throws TypeError, and re-adding it fails with the duplicate-child assertion. |
| Worlds.RemovedChildReturns | src/core/world.ts:34-46 | With the corrected removeChild, the re-add succeeds. |
| Worlds.World.AddSystemAsWritten | src/core/world.ts:92-99 | As written: the system is stored under its instance name, and `name ? name : constructor.name` is appended to `enabledSystems`. |
| Worlds.TaggedSystemPushedUnderWrongKey | src/core/world.ts:92-94 | For a tagged class added without a name, the appended key does not address the stored entry. |
| Worlds.EmptyNamePushedUnderWrongKey | src/core/world.ts:92-94 | The same holds for a system added under the name `""`. |
| Worlds.TaggedSystemNotFoundByUpdate | src/core/world.ts:92-94 | As written, `update("all")` after adding a tagged system fails with system-not-found and runs nothing. |
| Worlds.World.AddSystem | src/core/world.ts:92-94 | Corrected: the appended key is the storage key, and it finds the system just added. |
| Worlds.StorageKeyFindsItself | src/core/world.ts:92-94 | The storage key as a string always finds its entry. Without a name, it is the entry a lookup by class finds. |
| Worlds.TaggedSystemUpdated | src/core/world.ts:92-94 | With the corrected addSystem, `update("all")` runs the tagged system and succeeds. |
| Worlds.World.EnableSystem | src/core/world.ts:101-102 | `enableSystem` appends the key unconditionally, so duplicates are allowed. |
| Worlds.World.DisableSystemAsWritten | src/core/world.ts:111-112 | As written, the filtered list (the keys other than `k`) is computed and discarded, and `enabledSystems` is unchanged. |
| Worlds.DisableAsWrittenKeepsKey | src/core/world.ts:112 | Wherever `k` is listed, the filtered list differs from the list, so discarding it is a real loss. |
| Worlds.FilteredMembers | src/core/world.ts:112 | The filter keeps exactly the elements other than `k`, and changes nothing when `k` is absent. |
| Worlds.World.DisableSystem | src/core/world.ts:111-112 | Corrected: every occurrence of `k` leaves `enabledSystems`, and all other keys stay in order. |
| Worlds.FoundLookups | src/core/world.ts:124-133 | Each system `update` runs is the one its key finds. |
| Worlds.World.Update | src/core/world.ts:121-135 | See the list below. |
| Worlds.SelectedMembers | src/core/world.ts:141-152 | A system is updated by `updateComplex` iff some stored entry holding it has a key satisfying the predicate. |
| Worlds.World.UpdateComplex | src/core/world.ts:137-154 | In map order it runs the stored systems whose key satisfies the predicate. It has no failure path, because every entry's key finds its own system by construction. |

Some rows point here because their contract has several parts.

EventDispatcher.AddEventListener:
- A truthy id is kept and the counter is untouched.
- A falsy id takes `++currentID`, so auto ids strictly increase.
- A falsy `maxRuns` is unbounded.
- An event without an array gets a new one-element array.
- Otherwise the record lands at the splice position. Omitted or 0 appends, a negative value counts from the end (clamped at the front), and a large value is clamped to the end.
- The array grows by one, and removing the record leaves the old array, so the other listeners keep their order.

EventDispatcher.PassCharacterised, a pass:
- calls the listeners in array order, up to and including the first that stops or throws;
- returns the sentinel exactly when that listener stopped;
- removes each called listener on its last run, and counts the others down;
- leaves the listeners after it uncalled and unchanged.

EventDispatcher.RunLimit:
- maxRuns `n ≥ 1`: called on exactly `min(m, n)` of `m` passes;
- negative maxRuns: called once;
- unbounded: called on every pass.

GoneAfterItsRuns states that the limited ones are then gone from the array.

EventDispatcher.RemoveEventListener:
- It removes the first listener of the event carrying the id and keeps the rest in order.
- It returns true iff such a listener exists.
- It returns false and changes nothing when the event has no array or no match.

Entities.Entity.AddComponent, as written:
- The guard asks `has` about the instance, so it resolves through the instance's own tag or `name`.
- When it passes, the instance is stored under its class key, overwriting any entry there.
- `componentAdded` is dispatched.

Entities.Entity.AddRelationship:
- The first use of a name creates the bucket holding the target and dispatches nothing.
- Later uses put the target in under its id and dispatch `relationshipAdded`.
- Both return the entity, and afterwards the target is in the bucket.

Entities.Entity.RemoveRelationship:
- It fails when the bucket was never created.
- It throws when asked for the first member of an empty bucket.
- It fails when the target is absent.
- Otherwise it deletes the target, keeps the possibly empty bucket, and dispatches `relationshipRemoved`.

Worlds.World.JoinAll, connectChild's loop:
- It walks the child's list up to the first key that finds no system, which throws.
- Each system that `m > 0` of the walked keys find holds the child under its id and has dispatched `entityAdded` `m` times.
- A system found by no key is unchanged.

Worlds.World.ChildEnableSystem, a connected child's `enableSystem(k)`:
- A listed key fails and changes nothing.
- Otherwise the child lists `k` and dispatches `systemEnabled`, and the world's hooks react.
- Each hook reached runs `entityEnableSystem`, so the system `k` finds holds the child.
- A key that finds nothing makes the first hook reached throw, and no system changes.

Worlds.World.AddChild:
- A registered id fails and changes nothing.
- Otherwise the child is registered and joined as JoinAll says.
- If every key resolves, it gets the two hooks and `childAdded` is dispatched.
- If a key throws, it stays registered, without hooks and unannounced.

Worlds.World.Update:
- It gives the systems found, in key order: the given keys, or `enabledSystems` for `"all"`.
- It stops at the first key that finds none, with system-not-found, after running the ones before it.
- It succeeds exactly when every key finds a system.

## Left out

- Event payloads and a listener's `scope`/`this` are not modelled. Dispatch records which listeners were called, not what they were given.
- Callback bodies are abstracted to a fixed reaction. A listener that adds or removes listeners while a dispatch is running is not modelled, since the loop over the live array cannot be captured without the callbacks themselves.
- System listeners are modelled as proceeding or stopping, never throwing (`SystemListenerReaction`). So `entityEnableSystem` never fails once its key resolves.
- A hook installed by another world is taken to proceed. Its effect on that world is not modelled.
- World.ChildEnableSystem, World.ChildDisableSystem: the world's effect on the systems is applied after the child's announcement instead of at each hook's position in it. The end state is the same, because the announcement changes only the child and the hooks change only the systems.
- The world's `resources` ClassMap, `addPlugin`, `getChildren` (a live view of `children`) and the logger are not modelled. The logger is output only, and plugins run caller code.
- The `getRelationship` diagnostic for buckets with more than one member is not modelled, because it only writes to the log.
- `Infinity` arithmetic is the marker `Unbounded`. Fractional `maxRuns` and `insertAt` values, and non-numeric ids other than strings, are not modelled.
- Class identity is structural equality of `ClassRef(name, tag)`, where JavaScript compares references. Two distinct classes with the same name and tag are therefore one key here.
- Relationship buckets are values inside the entity. `getRelationship` hands out the bucket, and later mutation through that alias is not modelled.
- A component's protected flag and its own tag and `name` are plain fields of the component value. The decorators that set them are not modelled.
- The body of a concrete system's `update` is caller code. The model runs the default, which does nothing.
- World.DisconnectChild: removes the hooks with the intended `removeEventListener`. It is the corrected disconnect that World.RemoveChild uses. The source's disconnect is World.DisconnectChildAsWritten, which throws there (see Findings).
- Worlds.EmptyIdHooksStay: a child with the empty id keeps its hooks after removal. The model records this without correcting it.
- The unseen `src/utils/assert` is taken to abort with an error when its condition is falsy. `src/config/symbols` (the symbols `nameSymbol`, `protectedComponentSymbol`, `defaultSystemType`) is not part of this model beyond their roles above.

## Findings

| source | as written | input that shows it | evidently intended | confidence | as-written member | corrected member |
|---|---|---|---|---|---|---|
| src/core/event_dispatcher.ts:41-42 | `for (let i = arr.length; i > -1; i++)` starts past the end and counts up, so `arr[i][1]` reads a property of `undefined`. | Any event that has a listener array, e.g. `removeEventListener("systemEnabled", "player")` after connectChild. | Scan the array and splice out the first listener with that id, returning true. | high (not executed) | EventDispatcher.RemoveAsWrittenThrows | EventDispatcher.RemoveEventListener |
| src/core/world.ts:111-112 | `this.enabledSystems.filter(...)` computes a new array and discards it. | `enableSystem("a"); disableSystem("a")` leaves `["a"]` in `enabledSystems`. | Remove `system` from `enabledSystems`. | high (not executed) | Worlds.DisableAsWrittenKeepsKey | Worlds.World.DisableSystem |
| src/core/entity.ts:30 | The duplicate guard passes the instance to `has`, so the key comes from the instance's own tag or `name`, not from its class. | Two plain instances of one class: the second passes the guard and overwrites the first. | Reject a component whose class key is taken. | medium (not executed) | Entities.SecondPlainInstanceOverwrites | Entities.Entity.AddComponentChecked |
| src/core/world.ts:93-94 | The key appended to `enabledSystems` is `name ? name : constructor.name`, while the system is stored under `name` if given, else under the class tag or name. | A system of class `MovementSystem` tagged `movement`, added without a name; then `update("all")` fails its assertion. | Append the key the system is stored under. | high (not executed) | Worlds.TaggedSystemNotFoundByUpdate | Worlds.TaggedSystemUpdated |
| src/core/world.ts:41-46 | removeChild never deletes the id from `children`. | `addChild(p); removeChild(p.id); addChild(p)`: the removal throws in disconnectChild, the re-add fails the duplicate-child assertion, and `getChild(p.id)` still returns `p`. | Drop the child from `children`. | high (not executed) | Worlds.RemovedChildCannotReturn | Worlds.RemovedChildReturns |
