/**
 * System (src/core/system.ts) and World (src/core/world.ts). They sit in one module because each
 * refers to the other: a system holds its world, and a world stores its systems.
 *
 * A world registers child entities, keeps its systems in a ClassMap, keeps the list of keys that
 * `update("all")` runs, and binds every registered child to the systems its system list names:
 * the child takes part in a system by sitting in that system's `entities` map under its id, and
 * the world keeps this up to date through two listeners it installs on the child.
 */
module Worlds {
  import opened Outcomes
  import opened Sequences
  import opened JsMap
  import opened ClassMaps
  import opened EventDispatcher
  import opened Entities

  /** The symbol `defaultSystemType` that `getTypes` returns. */
  datatype SystemType = DefaultSystemType

  /** A system listener's callback, abstracted to whether it returns STOP_PROPAGATION. */
  function SystemListenerReaction(stops: bool): (r: Reaction)
    ensures r != Proceed <==> stops
    ensures !r.Throw?
  {
    if stops then Stop else Proceed
  }

  /**
   * The reaction function for the world's own listeners (`childAdded`, `childRemoved`). Their
   * callbacks are abstracted to the very reaction they have, so the callback type is Reaction
   * and dispatching reads each one as itself.
   */
  function WorldListenerReaction(r: Reaction): Reaction {
    r
  }

  class System {
    /** The system's own class, whose tag or name `addSystem` reads. */
    const cls: ClassRef
    const world: World
    /** `entities`: the entities taking part, by id; the world updates it in place. */
    var entities: OrderedMap<Entity>
    var listeners: Listeners<bool>

    ghost predicate Valid()
      reads this
    {
      entities.Valid()
    }

    constructor (cls: ClassRef, world: World)
      ensures Valid() && this.cls == cls && this.world == world
      ensures entities == Empty() && entities.Size() == 0 && listeners == map[]
    {
      this.cls := cls;
      this.world := world;
      entities := Empty();
      listeners := map[];
    }

    /** `getTypes`: exactly the default system type. */
    function GetTypes(): (r: seq<SystemType>)
      ensures |r| == 1 && r[0] == DefaultSystemType
    {
      [DefaultSystemType]
    }

    /** The default `update`: it changes nothing, whatever it is given. */
    method Update()
      ensures entities == old(entities) && listeners == old(listeners)
    {
    }
  }

  /** The system objects a ClassMap of systems stores. */
  ghost function Stored(m: ClassMap<System>): set<System>
    reads m
  {
    m.table.vals.Values
  }

  /** How many of `keys` find the system `s`. */
  function Hits(t: OrderedMap<System>, keys: seq<Key>, s: System): nat {
    if keys == [] then 0
    else Hits(t, keys[..|keys| - 1], s) + (if Lookup(t, keys[|keys| - 1]) == Some(s) then 1 else 0)
  }

  /** Hits over one more key. */
  lemma HitsNext(t: OrderedMap<System>, keys: seq<Key>, i: nat, s: System)
    requires i < |keys|
    ensures Hits(t, keys[..i + 1], s) == Hits(t, keys[..i], s) + (if Lookup(t, keys[i]) == Some(s) then 1 else 0)
  {
    assert keys[..i + 1][..i] == keys[..i];
  }

  /** How many leading keys of `keys` find a stored system. */
  function Resolving(t: OrderedMap<System>, keys: seq<Key>): (n: nat)
    ensures n <= |keys|
  {
    if keys == [] then 0
    else if Lookup(t, keys[0]).None? then 0
    else 1 + Resolving(t, keys[1..])
  }

  /** Resolving over a suffix, one key at a time. */
  lemma ResolvingFrom(t: OrderedMap<System>, keys: seq<Key>, i: nat)
    requires i < |keys|
    ensures Resolving(t, keys[i..]) == if Lookup(t, keys[i]).None? then 0 else 1 + Resolving(t, keys[i + 1..])
  {
    assert keys[i..][0] == keys[i];
    assert keys[i..][1..] == keys[i + 1..];
  }

  /** The resolving prefix is exactly the keys before the first one that finds nothing. */
  lemma {:induction false} ResolvingIs(t: OrderedMap<System>, keys: seq<Key>, i: nat)
    requires i <= |keys|
    requires forall j | 0 <= j < i :: Lookup(t, keys[j]).Some?
    requires i < |keys| ==> Lookup(t, keys[i]).None?
    ensures Resolving(t, keys) == i
  {
    if i > 0 {
      assert Lookup(t, keys[0]).Some?;
      ResolvingIs(t, keys[1..], i - 1);
    }
  }

  /** The key `addSystem` as written appends to `enabledSystems`: `name ? name : constructor.name`. */
  function PushedKey(cls: ClassRef, name: Option<string>): Key {
    Str(if name.Some? && name.value != "" then name.value else cls.name)
  }

  /**
   * A system with a class tag added without a name is stored under its tag, but the key appended
   * for `update("all")` is its class name, which does not find it.
   */
  lemma TaggedSystemPushedUnderWrongKey(cls: ClassRef)
    requires cls.tag != "" && cls.tag != cls.name
    ensures ClassName(PushedKey(cls, None)) != Some(InstanceName(cls, None))
  {
  }

  /** The same happens to a system added under the empty name. */
  lemma EmptyNamePushedUnderWrongKey(cls: ClassRef)
    requires cls.name != ""
    ensures ClassName(PushedKey(cls, Some(""))) != Some(InstanceName(cls, Some("")))
  {
  }

  /** The corrected key is the storage key itself, so it always finds the system. */
  lemma StorageKeyFindsItself(cls: ClassRef, name: Option<string>)
    ensures ClassName(Str(InstanceName(cls, name))) == Some(InstanceName(cls, name))
    ensures name.None? ==> ClassName(Str(InstanceName(cls, name))) == ClassName(Cls(cls))
  {
  }

  /** `systems.filter(sys => sys !== k)`: the list without any occurrence of `k`, order kept. */
  function Filtered(s: seq<Key>, k: Key): (r: seq<Key>)
    ensures |r| <= |s|
  {
    if s == [] then []
    else (if s[0] == k then [] else [s[0]]) + Filtered(s[1..], k)
  }

  /** What the filter keeps: every element other than `k`, and only those. */
  lemma {:induction false} FilteredMembers(s: seq<Key>, k: Key)
    ensures forall x :: x in Filtered(s, k) <==> x in s && x != k
    ensures k !in s ==> Filtered(s, k) == s
  {
    if s != [] {
      FilteredMembers(s[1..], k);
      assert s == [s[0]] + s[1..];
    }
  }

  /** So wherever `k` is listed, the list as written (left unchanged) still lists it. */
  lemma DisableAsWrittenKeepsKey(s: seq<Key>, k: Key)
    requires k in s
    ensures Filtered(s, k) != s
  {
    FilteredMembers(s, k);
  }

  /** The keys `update` runs: target "all" means `enabledSystems`. */
  datatype Target = All | Only(keys: seq<Key>)

  /** The systems `updateComplex` updates: those whose key satisfies `pred`, in map order. */
  function Selected(entries: seq<(string, System)>, pred: string -> bool): (r: seq<System>)
    ensures |r| <= |entries|
  {
    if entries == [] then []
    else
      var last := entries[|entries| - 1];
      Selected(entries[..|entries| - 1], pred) + (if pred(last.0) then [last.1] else [])
  }

  /** A system is selected exactly when some entry holding it has a key satisfying `pred`. */
  lemma {:induction false} SelectedMembers(entries: seq<(string, System)>, pred: string -> bool, x: System)
    ensures x in Selected(entries, pred) <==> exists i :: 0 <= i < |entries| && pred(entries[i].0) && entries[i].1 == x
    decreases |entries|
  {
    if entries != [] {
      var init := entries[..|entries| - 1];
      SelectedMembers(init, pred, x);
      if x in Selected(entries, pred) && x !in Selected(init, pred) {
        assert entries[|entries| - 1].1 == x;
      }
      forall i | 0 <= i < |init| ensures init[i] == entries[i] {
      }
    }
  }

  /**
   * A system that started with entities `e0` and listeners `l0` and that `m` joined keys resolved
   * to: it holds `child` under its id once `m > 0`, and `entityAdded` was dispatched `m` times.
   */
  ghost predicate Joined(e0: OrderedMap<Entity>, l0: Listeners<bool>, e: OrderedMap<Entity>, l: Listeners<bool>, child: Entity, m: nat) {
    && e0.Valid()
    && e == (if m > 0 then e0.Set(child.id, child) else e0)
    && l == DispatchedTimes(l0, "entityAdded", SystemListenerReaction, m)
  }

  /** One more key: a hit joins again (no change to the map) and announces once more. */
  lemma JoinStep(e0: OrderedMap<Entity>, l0: Listeners<bool>, e1: OrderedMap<Entity>, l1: Listeners<bool>,
                 e2: OrderedMap<Entity>, l2: Listeners<bool>, child: Entity, m: nat, hit: bool)
    requires Joined(e0, l0, e1, l1, child, m)
    requires hit ==> e2 == e1.Set(child.id, child) && l2 == Dispatched(l1, "entityAdded", SystemListenerReaction)
    requires !hit ==> e2 == e1 && l2 == l1
    ensures Joined(e0, l0, e2, l2, child, m + if hit then 1 else 0)
  {
    if hit {
      SetAgain(e0, child.id, child);
      DispatchedOnceMore(l0, "entityAdded", SystemListenerReaction, m);
    }
  }

  /** The same for leaving: the entry under the child's id is gone once `m > 0`. */
  ghost predicate Left(e0: OrderedMap<Entity>, l0: Listeners<bool>, e: OrderedMap<Entity>, l: Listeners<bool>, child: Entity, m: nat) {
    && e0.Valid()
    && e == (if m > 0 then e0.Delete(child.id) else e0)
    && l == DispatchedTimes(l0, "entityRemoved", SystemListenerReaction, m)
  }

  lemma LeaveStep(e0: OrderedMap<Entity>, l0: Listeners<bool>, e1: OrderedMap<Entity>, l1: Listeners<bool>,
                  e2: OrderedMap<Entity>, l2: Listeners<bool>, child: Entity, m: nat, hit: bool)
    requires Left(e0, l0, e1, l1, child, m)
    requires hit ==> e2 == e1.Delete(child.id) && l2 == Dispatched(l1, "entityRemoved", SystemListenerReaction)
    requires !hit ==> e2 == e1 && l2 == l1
    ensures Left(e0, l0, e2, l2, child, m + if hit then 1 else 0)
  {
    if hit {
      DeleteAgain(e0, child.id);
      DispatchedOnceMore(l0, "entityRemoved", SystemListenerReaction, m);
    }
  }

  /** The id listener `j` (1 or 2) that connectChild installs records: the child's, or a fresh one. */
  function HookId(childId: string, counter: int, j: int): Id {
    if childId != "" then Text(childId) else Num(counter + j)
  }

  /** The systems `update` runs for `keys`: those the keys find, up to the first that finds nothing. */
  function Found(t: OrderedMap<System>, keys: seq<Key>): (r: seq<System>)
    ensures |r| == Resolving(t, keys)
  {
    if keys == [] || Lookup(t, keys[0]).None? then []
    else [Lookup(t, keys[0]).value] + Found(t, keys[1..])
  }

  /** Each system found is the one its key finds. */
  lemma {:induction false} FoundLookups(t: OrderedMap<System>, keys: seq<Key>, i: nat)
    requires i < |Found(t, keys)|
    ensures Lookup(t, keys[i]) == Some(Found(t, keys)[i])
  {
    if i > 0 {
      FoundLookups(t, keys[1..], i - 1);
    }
  }

  /** The child's listener arrays once connectChild has installed the world's two hooks. */
  function Hooked(lists: Listeners<Handler>, world: object, childId: string, counter: int): Listeners<Handler> {
    var enabled := Inserted(lists, "systemEnabled", Listener(WorldHook(world), Unbounded, HookId(childId, counter, 1)), None);
    Inserted(enabled, "systemDisabled", Listener(WorldHook(world), Unbounded, HookId(childId, counter, 2)), None)
  }

  /** The child's listener arrays once disconnectChild has removed the listeners carrying its id. */
  function Unhooked(lists: Listeners<Handler>, childId: string): Listeners<Handler> {
    Unsubscribed(Unsubscribed(lists, "systemEnabled", Text(childId)), "systemDisabled", Text(childId))
  }

  /** No listener of `event` carries `id`. */
  predicate Unclaimed<C>(lists: Listeners<C>, event: string, id: Id) {
    event !in lists || FirstWithId(lists[event], id) == -1
  }

  /**
   * Disconnecting undoes connecting: for a child with a non-empty id that no earlier listener of
   * the two events carries, both hooks go and every other listener stays where it was; an event
   * that had no array before is left with an empty one.
   */
  lemma DisconnectUndoesConnect(lists: Listeners<Handler>, world: object, childId: string, counter: int)
    requires childId != ""
    requires Unclaimed(lists, "systemEnabled", Text(childId)) && Unclaimed(lists, "systemDisabled", Text(childId))
    ensures var cleared := lists["systemEnabled" := if "systemEnabled" in lists then lists["systemEnabled"] else []];
      Unhooked(Hooked(lists, world, childId, counter), childId)
        == cleared["systemDisabled" := if "systemDisabled" in lists then lists["systemDisabled"] else []]
  {
    var hook := Listener(WorldHook(world), Unbounded, Text(childId));
    var l1 := Inserted(lists, "systemEnabled", hook, None);
    var cleared := lists["systemEnabled" := if "systemEnabled" in lists then lists["systemEnabled"] else []];
    assert Hooked(lists, world, childId, counter) == Inserted(l1, "systemDisabled", hook, None);
    UnsubscribeElsewhere(l1, "systemEnabled", "systemDisabled", hook, Text(childId));
    UnsubscribeUndoesInsert(lists, "systemEnabled", hook, None);
    assert Unsubscribed(l1, "systemEnabled", Text(childId)) == cleared;
    UnsubscribeUndoesInsert(cleared, "systemDisabled", hook, None);
  }

  /** Removing from one event commutes with appending to another. */
  lemma UnsubscribeElsewhere<C>(lists: Listeners<C>, event: string, other: string, record: Listener<C>, id: Id)
    requires event != other
    ensures Unsubscribed(Inserted(lists, other, record, None), event, id)
         == Inserted(Unsubscribed(lists, event, id), other, record, None)
  {
  }

  /**
   * A child whose id is empty gets hooks with fresh numeric ids, so disconnecting it, which looks
   * for the id "", leaves both in place.
   */
  lemma EmptyIdHooksStay(lists: Listeners<Handler>, world: object, counter: int)
    requires Unclaimed(lists, "systemEnabled", Text("")) && Unclaimed(lists, "systemDisabled", Text(""))
    ensures Unhooked(Hooked(lists, world, "", counter), "") == Hooked(lists, world, "", counter)
  {
    var h := Hooked(lists, world, "", counter);
    var en := Listener(WorldHook(world), Unbounded, Num(counter + 1));
    var l1 := Inserted(lists, "systemEnabled", en, None);
    assert l1["systemEnabled"] == (if "systemEnabled" in lists then lists["systemEnabled"] else []) + [en] by {
      if "systemEnabled" in lists {
        AppendedWithoutPosition(lists, "systemEnabled", en);
      }
    }
    assert FirstWithId(h["systemEnabled"], Text("")) == -1;
    var dis := Listener(WorldHook(world), Unbounded, Num(counter + 2));
    assert h["systemDisabled"] == (if "systemDisabled" in l1 then l1["systemDisabled"] else []) + [dis] by {
      if "systemDisabled" in l1 {
        AppendedWithoutPosition(l1, "systemDisabled", dis);
      }
    }
    assert FirstWithId(h["systemDisabled"], Text("")) == -1;
  }

  /**
   * What a listener on a child does when the child announces a system key and `world` is asked to
   * act on it: a callback of the program reacts as it says; the world's own hook throws when the
   * key finds no system (`sys` is undefined there) and otherwise returns nothing. A hook that
   * another world installed is taken to proceed.
   */
  function HookReaction(world: object, resolves: bool, h: Handler): Reaction {
    match h
    case Callback(r) => r
    case WorldHook(w) => if w == world && !resolves then Throw(TypeError) else Proceed
  }

  /** HookReaction as the reaction function of a dispatch. */
  function Hooks(world: object, resolves: bool): Handler -> Reaction {
    h => HookReaction(world, resolves, h)
  }

  /** How many of the listeners `fired` are hooks of `world`. */
  function HooksOf(fired: seq<Listener<Handler>>, world: object): nat {
    if fired == [] then 0
    else HooksOf(fired[..|fired| - 1], world) + (if fired[|fired| - 1].callback == WorldHook(world) then 1 else 0)
  }

  /** How many hooks of `world` one dispatch of `event` calls. */
  function FiredHooks(lists: Listeners<Handler>, event: string, world: object, react: Handler -> Reaction): nat {
    if event in lists then HooksOf(Pass(lists[event], react).fired, world) else 0
  }

  /** Listeners that are all callbacks of the program include no hook. */
  lemma {:induction false} NoHooksAmongCallbacks(s: seq<Listener<Handler>>, world: object)
    requires forall i | 0 <= i < |s| :: s[i].callback.Callback?
    ensures HooksOf(s, world) == 0
    decreases |s|
  {
    if s != [] {
      NoHooksAmongCallbacks(s[..|s| - 1], world);
    }
  }

  /**
   * One announcement over program callbacks that all proceed followed by the world's hook: the
   * hook is reached once, and when the key finds no system it throws and the announcement fails.
   */
  lemma HookReachedOnce(arr: seq<Listener<Handler>>, hook: Listener<Handler>, world: object)
    requires forall i | 0 <= i < |arr| :: arr[i].callback == Callback(Proceed)
    requires hook.callback == WorldHook(world)
    ensures HooksOf(Pass(arr + [hook], Hooks(world, true)).fired, world) == 1
    ensures Pass(arr + [hook], Hooks(world, true)).ending == Completed
    ensures Pass(arr + [hook], Hooks(world, false)).ending == Threw(TypeError)
  {
    var l := arr + [hook];
    assert AllProceed(l, Hooks(world, true));
    ProceedingPass(l, Hooks(world, true));
    assert l[..|l| - 1] == arr;
    NoHooksAmongCallbacks(arr, world);
    PassCharacterised(l, Hooks(world, false));
    var k := FirstHalt(l, Hooks(world, false));
    assert l[|arr|] == hook && Hooks(world, false)(hook.callback) == Throw(TypeError);
    assert k == |arr|;
  }

  /**
   * For a child connected to `world` whose own listeners on the two events are program callbacks
   * that proceed, each later enableSystem or disableSystem of the child reaches the world's hook
   * exactly once, and fails when the key finds no system.
   */
  lemma ConnectedChildHookedOnce(lists: Listeners<Handler>, world: object, childId: string, counter: int)
    requires "systemEnabled" in lists ==>
      forall i | 0 <= i < |lists["systemEnabled"]| :: lists["systemEnabled"][i].callback == Callback(Proceed)
    requires "systemDisabled" in lists ==>
      forall i | 0 <= i < |lists["systemDisabled"]| :: lists["systemDisabled"][i].callback == Callback(Proceed)
    ensures FiredHooks(Hooked(lists, world, childId, counter), "systemEnabled", world, Hooks(world, true)) == 1
    ensures FiredHooks(Hooked(lists, world, childId, counter), "systemDisabled", world, Hooks(world, true)) == 1
    ensures DispatchEnding(Hooked(lists, world, childId, counter), "systemEnabled", Hooks(world, true)) == Completed
    ensures DispatchEnding(Hooked(lists, world, childId, counter), "systemDisabled", Hooks(world, true)) == Completed
    ensures DispatchEnding(Hooked(lists, world, childId, counter), "systemEnabled", Hooks(world, false)) == Threw(TypeError)
    ensures DispatchEnding(Hooked(lists, world, childId, counter), "systemDisabled", Hooks(world, false)) == Threw(TypeError)
  {
    var h := Hooked(lists, world, childId, counter);
    var en := Listener(WorldHook(world), Unbounded, HookId(childId, counter, 1));
    var l1 := Inserted(lists, "systemEnabled", en, None);
    var arr1 := if "systemEnabled" in lists then lists["systemEnabled"] else [];
    assert l1["systemEnabled"] == arr1 + [en] by {
      if "systemEnabled" in lists {
        AppendedWithoutPosition(lists, "systemEnabled", en);
      }
    }
    assert h["systemEnabled"] == arr1 + [en];
    HookReachedOnce(arr1, en, world);
    var dis := Listener(WorldHook(world), Unbounded, HookId(childId, counter, 2));
    var arr2 := if "systemDisabled" in lists then lists["systemDisabled"] else [];
    assert "systemDisabled" in l1 <==> "systemDisabled" in lists;
    assert "systemDisabled" in l1 ==> l1["systemDisabled"] == arr2;
    assert h["systemDisabled"] == arr2 + [dis] by {
      if "systemDisabled" in l1 {
        AppendedWithoutPosition(l1, "systemDisabled", dis);
      }
    }
    HookReachedOnce(arr2, dis, world);
  }

  class World {
    const systems: ClassMap<System>
    /** `children`: the registered entities by id. */
    var children: OrderedMap<Entity>
    /** `enabledSystems`: the keys `update("all")` runs, in order, duplicates allowed. */
    var enabledSystems: seq<Key>
    var listeners: Listeners<Reaction>

    ghost predicate Valid()
      reads this, systems, Stored(systems)
    {
      && systems.Valid()
      && children.Valid()
      && SystemsValid()
      && (forall k | k in children.vals :: children.vals[k].id == k)
    }

    /** Every stored system's entity map is well formed. */
    ghost predicate SystemsValid()
      reads systems, Stored(systems)
    {
      forall s | s in Stored(systems) :: s.Valid()
    }

    constructor ()
      ensures Valid() && fresh(systems)
      ensures systems.table == Empty() && children == Empty() && enabledSystems == [] && listeners == map[]
    {
      systems := new ClassMap();
      children := Empty();
      enabledSystems := [];
      listeners := map[];
    }

    /** `getChild(id)`: the child registered under `id`, whose own id it is. */
    function GetChild(id: string): (r: Option<Entity>)
      requires Valid()
      reads this, systems, Stored(systems)
      ensures r.Some? <==> children.Has(id)
      ensures r.Some? ==> r.value == children.vals[id] && r.value.id == id
    {
      children.Get(id)
    }

    /**
     * entityEnableSystem: the system `k` resolves to takes `child` into `entities` under its id
     * and announces `entityAdded`; a key that resolves to nothing throws (`sys` is undefined).
     */
    method EntityEnableSystem(k: Key, child: Entity) returns (outcome: Outcome)
      requires SystemsValid()
      modifies Stored(systems)
      ensures SystemsValid()
      ensures systems.table == old(systems.table)
      ensures outcome == if Lookup(systems.table, k).None? then Fail(TypeError) else Done
      ensures forall s | s in Stored(systems) ::
        if Lookup(systems.table, k) == Some(s) then
          s.entities == old(s.entities).Set(child.id, child)
          && s.listeners == Dispatched(old(s.listeners), "entityAdded", SystemListenerReaction)
        else s.entities == old(s.entities) && s.listeners == old(s.listeners)
    {
      var found := systems.Get(k);
      if found.None? {
        return Fail(TypeError);
      }
      var sys := found.value;
      assert sys in Stored(systems);
      sys.entities := sys.entities.Set(child.id, child);
      var fired, ending;
      sys.listeners, fired, ending := Dispatch(sys.listeners, "entityAdded", SystemListenerReaction);
      outcome := Done;
    }

    /**
     * entityDisableSystem: the system `k` resolves to drops the entry under the child's id and
     * announces `entityRemoved`; a key that resolves to nothing throws.
     */
    method EntityDisableSystem(k: Key, child: Entity) returns (outcome: Outcome)
      requires SystemsValid()
      modifies Stored(systems)
      ensures SystemsValid()
      ensures systems.table == old(systems.table)
      ensures outcome == if Lookup(systems.table, k).None? then Fail(TypeError) else Done
      ensures forall s | s in Stored(systems) ::
        if Lookup(systems.table, k) == Some(s) then
          s.entities == old(s.entities).Delete(child.id)
          && s.listeners == Dispatched(old(s.listeners), "entityRemoved", SystemListenerReaction)
        else s.entities == old(s.entities) && s.listeners == old(s.listeners)
    {
      var found := systems.Get(k);
      if found.None? {
        return Fail(TypeError);
      }
      var sys := found.value;
      assert sys in Stored(systems);
      sys.entities := sys.entities.Delete(child.id);
      var fired, ending;
      sys.listeners, fired, ending := Dispatch(sys.listeners, "entityRemoved", SystemListenerReaction);
      outcome := Done;
    }

    /**
     * The loop of connectChild: `child` joins, in list order, the system each of `keys` resolves
     * to, up to the first key that resolves to nothing, which throws. A system that `m` of the
     * joined keys resolve to holds the child and has announced it `m` times.
     */
    method JoinAll(keys: seq<Key>, child: Entity) returns (outcome: Outcome)
      requires Valid()
      modifies Stored(systems)
      ensures Valid() && systems.table == old(systems.table)
      ensures outcome == if Resolving(systems.table, keys) < |keys| then Fail(TypeError) else Done
      ensures forall s | s in old(systems.table).vals.Values ::
        Joined(old(s.entities), old(s.listeners), s.entities, s.listeners, child,
               Hits(old(systems.table), keys[..Resolving(old(systems.table), keys)], s))
    {
      ghost var tbl := systems.table;
      var i := 0;
      while i < |keys|
        invariant 0 <= i <= |keys|
        invariant SystemsValid() && systems.table == tbl
        invariant Resolving(tbl, keys) == i + Resolving(tbl, keys[i..])
        invariant forall s | s in tbl.vals.Values ::
          Joined(old(s.entities), old(s.listeners), s.entities, s.listeners, child, Hits(tbl, keys[..i], s))
      {
        label before:
        outcome := JoinNext(keys, i, child, tbl);
        if outcome.Fail? {
          assert Resolving(tbl, keys) == i;
          return;
        }
        forall s | s in tbl.vals.Values
          ensures Joined(old(s.entities), old(s.listeners), s.entities, s.listeners, child, Hits(tbl, keys[..i + 1], s))
        {
          HitsNext(tbl, keys, i, s);
          JoinStep(old(s.entities), old(s.listeners), old@before(s.entities), old@before(s.listeners),
                   s.entities, s.listeners, child, Hits(tbl, keys[..i], s), Lookup(tbl, keys[i]) == Some(s));
        }
        i := i + 1;
      }
      assert keys[..i] == keys && Resolving(tbl, keys) == i;
      outcome := Done;
    }

    /** One turn of the loop of connectChild: entityEnableSystem on the `i`-th key. */
    method JoinNext(keys: seq<Key>, i: nat, child: Entity, ghost tbl: OrderedMap<System>) returns (outcome: Outcome)
      requires i < |keys| && SystemsValid() && systems.table == tbl
      modifies Stored(systems)
      ensures SystemsValid() && systems.table == tbl
      ensures outcome == if Lookup(tbl, keys[i]).None? then Fail(TypeError) else Done
      ensures outcome.Done? ==> Resolving(tbl, keys[i..]) == 1 + Resolving(tbl, keys[i + 1..])
      ensures outcome.Fail? ==> Resolving(tbl, keys[i..]) == 0
      ensures forall s | s in tbl.vals.Values ::
        if Lookup(tbl, keys[i]) == Some(s) then
          s.entities == old(s.entities).Set(child.id, child)
          && s.listeners == Dispatched(old(s.listeners), "entityAdded", SystemListenerReaction)
        else s.entities == old(s.entities) && s.listeners == old(s.listeners)
    {
      outcome := EntityEnableSystem(keys[i], child);
      ResolvingFrom(tbl, keys, i);
    }

    /**
     * The loop of disconnectChild: `child` leaves the system each of `keys` resolves to, up to
     * the first key that resolves to nothing, which throws.
     */
    method LeaveAll(keys: seq<Key>, child: Entity) returns (outcome: Outcome)
      requires Valid()
      modifies Stored(systems)
      ensures Valid() && systems.table == old(systems.table)
      ensures outcome == if Resolving(systems.table, keys) < |keys| then Fail(TypeError) else Done
      ensures forall s | s in old(systems.table).vals.Values ::
        Left(old(s.entities), old(s.listeners), s.entities, s.listeners, child,
               Hits(old(systems.table), keys[..Resolving(old(systems.table), keys)], s))
    {
      ghost var tbl := systems.table;
      var i := 0;
      while i < |keys|
        invariant 0 <= i <= |keys|
        invariant SystemsValid() && systems.table == tbl
        invariant Resolving(tbl, keys) == i + Resolving(tbl, keys[i..])
        invariant forall s | s in tbl.vals.Values ::
          Left(old(s.entities), old(s.listeners), s.entities, s.listeners, child, Hits(tbl, keys[..i], s))
      {
        label before:
        outcome := LeaveNext(keys, i, child, tbl);
        if outcome.Fail? {
          assert Resolving(tbl, keys) == i;
          return;
        }
        forall s | s in tbl.vals.Values
          ensures Left(old(s.entities), old(s.listeners), s.entities, s.listeners, child, Hits(tbl, keys[..i + 1], s))
        {
          HitsNext(tbl, keys, i, s);
          LeaveStep(old(s.entities), old(s.listeners), old@before(s.entities), old@before(s.listeners),
                   s.entities, s.listeners, child, Hits(tbl, keys[..i], s), Lookup(tbl, keys[i]) == Some(s));
        }
        i := i + 1;
      }
      assert keys[..i] == keys && Resolving(tbl, keys) == i;
      outcome := Done;
    }

    /** One turn of the loop of disconnectChild: entityDisableSystem on the `i`-th key. */
    method LeaveNext(keys: seq<Key>, i: nat, child: Entity, ghost tbl: OrderedMap<System>) returns (outcome: Outcome)
      requires i < |keys| && SystemsValid() && systems.table == tbl
      modifies Stored(systems)
      ensures SystemsValid() && systems.table == tbl
      ensures outcome == if Lookup(tbl, keys[i]).None? then Fail(TypeError) else Done
      ensures outcome.Done? ==> Resolving(tbl, keys[i..]) == 1 + Resolving(tbl, keys[i + 1..])
      ensures outcome.Fail? ==> Resolving(tbl, keys[i..]) == 0
      ensures forall s | s in tbl.vals.Values ::
        if Lookup(tbl, keys[i]) == Some(s) then
          s.entities == old(s.entities).Delete(child.id)
          && s.listeners == Dispatched(old(s.listeners), "entityRemoved", SystemListenerReaction)
        else s.entities == old(s.entities) && s.listeners == old(s.listeners)
    {
      outcome := EntityDisableSystem(keys[i], child);
      ResolvingFrom(tbl, keys, i);
    }

    /**
     * connectChild: the child joins the systems its own list names (see JoinAll), and then gets
     * two listeners, on `systemEnabled` and `systemDisabled`, whose handler is this world and
     * whose id is the child's. A key that finds no system throws before any listener is added.
     */
    method ConnectChild(child: Entity, counter: IdCounter) returns (outcome: Outcome)
      requires Valid()
      modifies Stored(systems), child, counter
      ensures Valid() && systems.table == old(systems.table)
      ensures child.systems == old(child.systems) && child.relationships == old(child.relationships)
      ensures outcome == if Resolving(systems.table, child.systems) < |child.systems| then Fail(TypeError) else Done
      ensures forall s | s in old(systems.table).vals.Values ::
        Joined(old(s.entities), old(s.listeners), s.entities, s.listeners, child,
               Hits(old(systems.table), child.systems[..Resolving(old(systems.table), child.systems)], s))
      ensures outcome.Fail? ==> child.listeners == old(child.listeners) && counter.current == old(counter.current)
      ensures outcome.Done? ==>
        && child.listeners == Hooked(old(child.listeners), this, child.id, old(counter.current))
        && counter.current == old(counter.current) + (if child.id == "" then 2 else 0)
    {
      outcome := JoinAll(child.systems, child);
      if outcome.Fail? {
        return;
      }
      Hook(child, counter);
    }

    /** The two listeners connectChild adds, with the child's id (or fresh ones when it is empty). */
    method Hook(child: Entity, counter: IdCounter)
      modifies child, counter
      ensures child.systems == old(child.systems) && child.relationships == old(child.relationships)
      ensures child.listeners == Hooked(old(child.listeners), this, child.id, old(counter.current))
      ensures counter.current == old(counter.current) + (if child.id == "" then 2 else 0)
    {
      var enabledId, disabledId;
      child.listeners, enabledId :=
        AddEventListener(child.listeners, counter, "systemEnabled", WorldHook(this), None, None, Some(Text(child.id)));
      child.listeners, disabledId :=
        AddEventListener(child.listeners, counter, "systemDisabled", WorldHook(this), None, None, Some(Text(child.id)));
    }

    /**
     * disconnectChild: the child leaves the systems its list names (see LeaveAll), and then the
     * first listener carrying its id goes from `systemEnabled` and from `systemDisabled`.
     */
    method DisconnectChild(child: Entity) returns (outcome: Outcome)
      requires Valid()
      modifies Stored(systems), child
      ensures Valid() && systems.table == old(systems.table)
      ensures child.systems == old(child.systems) && child.relationships == old(child.relationships)
      ensures outcome == if Resolving(systems.table, child.systems) < |child.systems| then Fail(TypeError) else Done
      ensures forall s | s in old(systems.table).vals.Values ::
        Left(old(s.entities), old(s.listeners), s.entities, s.listeners, child,
             Hits(old(systems.table), child.systems[..Resolving(old(systems.table), child.systems)], s))
      ensures outcome.Fail? ==> child.listeners == old(child.listeners)
      ensures outcome.Done? ==> child.listeners == Unhooked(old(child.listeners), child.id)
    {
      outcome := LeaveAll(child.systems, child);
      if outcome.Fail? {
        return;
      }
      var removed;
      child.listeners, removed := RemoveEventListener(child.listeners, "systemEnabled", Text(child.id));
      child.listeners, removed := RemoveEventListener(child.listeners, "systemDisabled", Text(child.id));
    }

    /**
     * disconnectChild as written: the child leaves the systems its list names (see LeaveAll); then
     * removeEventListener, as written, throws on `systemEnabled` whenever the child has an array
     * there, which connectChild always gives it, so no listener is removed.
     */
    method DisconnectChildAsWritten(child: Entity) returns (outcome: Outcome)
      requires Valid()
      modifies Stored(systems)
      ensures Valid() && systems.table == old(systems.table)
      ensures outcome == if Resolving(systems.table, child.systems) < |child.systems|
                            || "systemEnabled" in child.listeners || "systemDisabled" in child.listeners
                         then Fail(TypeError) else Done
      ensures forall s | s in old(systems.table).vals.Values ::
        Left(old(s.entities), old(s.listeners), s.entities, s.listeners, child,
             Hits(old(systems.table), child.systems[..Resolving(old(systems.table), child.systems)], s))
    {
      outcome := LeaveAll(child.systems, child);
      if outcome.Fail? {
        return;
      }
      var unhooked := RemoveEventListenerAsWritten(child.listeners, "systemEnabled", Text(child.id));
      if unhooked.Err? {
        return Fail(unhooked.error);
      }
      unhooked := RemoveEventListenerAsWritten(child.listeners, "systemDisabled", Text(child.id));
      if unhooked.Err? {
        return Fail(unhooked.error);
      }
    }

    /**
     * A connected child's enableSystem(k), with the world's hooks wired in: the child lists `k` and
     * announces `systemEnabled`; each hook of this world that the announcement reaches runs
     * EntityEnableSystem(k, child), which throws, ending the announcement, when `k` finds no
     * system. The model applies the hooks' effect on the systems after the announcement; the end
     * state is the same, since the announcement touches only the child and the hooks only the systems.
     */
    method ChildEnableSystem(child: Entity, k: Key) returns (outcome: Outcome)
      requires Valid() && child.Valid()
      modifies child, Stored(systems)
      ensures Valid() && systems.table == old(systems.table)
      ensures child.Valid() && child.relationships == old(child.relationships)
      ensures k in old(child.systems) ==>
        && outcome == Fail(DuplicateSystem)
        && child.systems == old(child.systems) && child.listeners == old(child.listeners)
        && forall s | s in old(systems.table).vals.Values :: s.entities == old(s.entities) && s.listeners == old(s.listeners)
      ensures !(k in old(child.systems)) ==>
        var react := Hooks(this, Lookup(old(systems.table), k).Some?);
        && child.systems == old(child.systems) + [k]
        && child.listeners == Dispatched(old(child.listeners), "systemEnabled", react)
        && outcome == Raised(DispatchEnding(old(child.listeners), "systemEnabled", react))
        && forall s | s in old(systems.table).vals.Values ::
             Joined(old(s.entities), old(s.listeners), s.entities, s.listeners, child,
                    if Lookup(old(systems.table), k) == Some(s) then FiredHooks(old(child.listeners), "systemEnabled", this, react) else 0)
    {
      var resolves := systems.Get(k).Some?;
      var react := Hooks(this, resolves);
      var refused := k in child.systems;
      var before := child.listeners;
      outcome := child.EnableSystem(k, react);
      if refused || !resolves {
        return;
      }
      JoinTimes(k, child, FiredHooks(before, "systemEnabled", this, react));
    }

    /** EntityEnableSystem(k, child) run `m` times over, as `m` hooks of this world each run it. */
    method JoinTimes(k: Key, child: Entity, m: nat)
      requires SystemsValid()
      modifies Stored(systems)
      ensures SystemsValid() && systems.table == old(systems.table)
      ensures forall s | s in old(systems.table).vals.Values ::
        Joined(old(s.entities), old(s.listeners), s.entities, s.listeners, child,
               if Lookup(old(systems.table), k) == Some(s) then m else 0)
    {
      ghost var tbl := systems.table;
      var j := 0;
      while j < m
        invariant 0 <= j <= m
        invariant SystemsValid() && systems.table == tbl
        invariant forall s | s in tbl.vals.Values ::
          Joined(old(s.entities), old(s.listeners), s.entities, s.listeners, child, if Lookup(tbl, k) == Some(s) then j else 0)
      {
        label step:
        var done := EntityEnableSystem(k, child);
        forall s | s in tbl.vals.Values
          ensures Joined(old(s.entities), old(s.listeners), s.entities, s.listeners, child, if Lookup(tbl, k) == Some(s) then j + 1 else 0)
        {
          JoinStep(old(s.entities), old(s.listeners), old@step(s.entities), old@step(s.listeners), s.entities, s.listeners,
                   child, if Lookup(tbl, k) == Some(s) then j else 0, Lookup(tbl, k) == Some(s));
        }
        j := j + 1;
      }
    }

    /**
     * A connected child's disableSystem(k), with the world's hooks wired in: the child drops `k` from its list and
     * announces `systemDisabled`; each hook of this world that the announcement reaches runs
     * EntityDisableSystem(k, child), which throws, ending the announcement, when `k` finds no
     * system. The model applies the hooks' effect on the systems after the announcement; the end
     * state is the same, since the announcement touches only the child and the hooks only the systems.
     */
    method ChildDisableSystem(child: Entity, k: Key) returns (outcome: Outcome)
      requires Valid() && child.Valid()
      modifies child, Stored(systems)
      ensures Valid() && systems.table == old(systems.table)
      ensures child.Valid() && child.relationships == old(child.relationships)
      ensures k !in old(child.systems) ==>
        && outcome == Fail(SystemNotEnabled)
        && child.systems == old(child.systems) && child.listeners == old(child.listeners)
        && forall s | s in old(systems.table).vals.Values :: s.entities == old(s.entities) && s.listeners == old(s.listeners)
      ensures !(k !in old(child.systems)) ==>
        var react := Hooks(this, Lookup(old(systems.table), k).Some?);
        && child.systems == RemoveFirst(old(child.systems), k)
        && child.listeners == Dispatched(old(child.listeners), "systemDisabled", react)
        && outcome == Raised(DispatchEnding(old(child.listeners), "systemDisabled", react))
        && forall s | s in old(systems.table).vals.Values ::
             Left(old(s.entities), old(s.listeners), s.entities, s.listeners, child,
                    if Lookup(old(systems.table), k) == Some(s) then FiredHooks(old(child.listeners), "systemDisabled", this, react) else 0)
    {
      var resolves := systems.Get(k).Some?;
      var react := Hooks(this, resolves);
      var refused := k !in child.systems;
      var before := child.listeners;
      outcome := child.DisableSystem(k, react);
      if refused || !resolves {
        return;
      }
      LeaveTimes(k, child, FiredHooks(before, "systemDisabled", this, react));
    }

    /** EntityDisableSystem(k, child) run `m` times over, as `m` hooks of this world each run it. */
    method LeaveTimes(k: Key, child: Entity, m: nat)
      requires SystemsValid()
      modifies Stored(systems)
      ensures SystemsValid() && systems.table == old(systems.table)
      ensures forall s | s in old(systems.table).vals.Values ::
        Left(old(s.entities), old(s.listeners), s.entities, s.listeners, child,
               if Lookup(old(systems.table), k) == Some(s) then m else 0)
    {
      ghost var tbl := systems.table;
      var j := 0;
      while j < m
        invariant 0 <= j <= m
        invariant SystemsValid() && systems.table == tbl
        invariant forall s | s in tbl.vals.Values ::
          Left(old(s.entities), old(s.listeners), s.entities, s.listeners, child, if Lookup(tbl, k) == Some(s) then j else 0)
      {
        label step:
        var done := EntityDisableSystem(k, child);
        forall s | s in tbl.vals.Values
          ensures Left(old(s.entities), old(s.listeners), s.entities, s.listeners, child, if Lookup(tbl, k) == Some(s) then j + 1 else 0)
        {
          LeaveStep(old(s.entities), old(s.listeners), old@step(s.entities), old@step(s.listeners), s.entities, s.listeners,
                   child, if Lookup(tbl, k) == Some(s) then j else 0, Lookup(tbl, k) == Some(s));
        }
        j := j + 1;
      }
    }

    /**
     * addChild: a child whose id is already registered fails the assertion and changes nothing;
     * otherwise it is registered, connected, and announced with `childAdded`. A connection that
     * throws leaves the child registered and the systems before the bad key joined.
     */
    method AddChild(child: Entity, counter: IdCounter) returns (outcome: Outcome)
      requires Valid()
      modifies this, Stored(systems), child, counter
      ensures Valid() && systems.table == old(systems.table) && enabledSystems == old(enabledSystems)
      ensures child.systems == old(child.systems) && child.relationships == old(child.relationships)
      ensures old(children.Has(child.id)) ==>
        && outcome == Fail(DuplicateChild)
        && children == old(children) && listeners == old(listeners)
        && child.listeners == old(child.listeners) && counter.current == old(counter.current)
        && forall s | s in old(systems.table).vals.Values :: s.entities == old(s.entities) && s.listeners == old(s.listeners)
      ensures !old(children.Has(child.id)) ==>
        && children == old(children).Set(child.id, child)
        && (forall s | s in old(systems.table).vals.Values ::
              Joined(old(s.entities), old(s.listeners), s.entities, s.listeners, child,
                     Hits(old(systems.table), child.systems[..Resolving(old(systems.table), child.systems)], s)))
        && if Resolving(systems.table, child.systems) < |child.systems| then
             && outcome == Fail(TypeError) && listeners == old(listeners)
             && child.listeners == old(child.listeners) && counter.current == old(counter.current)
           else
             && child.listeners == Hooked(old(child.listeners), this, child.id, old(counter.current))
             && counter.current == old(counter.current) + (if child.id == "" then 2 else 0)
             && listeners == Dispatched(old(listeners), "childAdded", WorldListenerReaction)
             && outcome == Raised(DispatchEnding(old(listeners), "childAdded", WorldListenerReaction))
    {
      if children.Has(child.id) {
        return Fail(DuplicateChild);
      }
      children := children.Set(child.id, child);
      outcome := ConnectChild(child, counter);
      if outcome.Fail? {
        return;
      }
      var fired, ending;
      listeners, fired, ending := Dispatch(listeners, "childAdded", WorldListenerReaction);
      outcome := Raised(ending);
    }

    /** What removeChild does once it has the child: disconnect it and announce `childRemoved`. */
    method Release(child: Entity) returns (outcome: Outcome)
      requires Valid()
      modifies this, Stored(systems), child
      ensures Valid() && systems.table == old(systems.table)
      ensures children == old(children) && enabledSystems == old(enabledSystems)
      ensures child.systems == old(child.systems) && child.relationships == old(child.relationships)
      ensures forall s | s in old(systems.table).vals.Values ::
        Left(old(s.entities), old(s.listeners), s.entities, s.listeners, child,
             Hits(old(systems.table), child.systems[..Resolving(old(systems.table), child.systems)], s))
      ensures if Resolving(systems.table, child.systems) < |child.systems| then
          outcome == Fail(TypeError) && listeners == old(listeners) && child.listeners == old(child.listeners)
        else
          && child.listeners == Unhooked(old(child.listeners), child.id)
          && listeners == Dispatched(old(listeners), "childRemoved", WorldListenerReaction)
          && outcome == Raised(DispatchEnding(old(listeners), "childRemoved", WorldListenerReaction))
    {
      outcome := DisconnectChild(child);
      if outcome.Fail? {
        return;
      }
      var fired, ending;
      listeners, fired, ending := Dispatch(listeners, "childRemoved", WorldListenerReaction);
      outcome := Raised(ending);
    }

    /** What removeChild as written does once it has the child: disconnectChild as written, then `childRemoved`. */
    method ReleaseAsWritten(child: Entity) returns (outcome: Outcome)
      requires Valid()
      modifies this, Stored(systems)
      ensures Valid() && systems.table == old(systems.table)
      ensures children == old(children) && enabledSystems == old(enabledSystems)
      ensures forall s | s in old(systems.table).vals.Values ::
        Left(old(s.entities), old(s.listeners), s.entities, s.listeners, child,
             Hits(old(systems.table), child.systems[..Resolving(old(systems.table), child.systems)], s))
      ensures if Resolving(systems.table, child.systems) < |child.systems|
                 || "systemEnabled" in child.listeners || "systemDisabled" in child.listeners then
          outcome == Fail(TypeError) && listeners == old(listeners)
        else
          && listeners == Dispatched(old(listeners), "childRemoved", WorldListenerReaction)
          && outcome == Raised(DispatchEnding(old(listeners), "childRemoved", WorldListenerReaction))
    {
      outcome := DisconnectChildAsWritten(child);
      if outcome.Fail? {
        return;
      }
      var fired, ending;
      listeners, fired, ending := Dispatch(listeners, "childRemoved", WorldListenerReaction);
      outcome := Raised(ending);
    }

    /**
     * removeChild as written: an unknown id fails the assertion. A known child leaves its systems,
     * and then disconnectChild throws as soon as the child has a `systemEnabled` or
     * `systemDisabled` array, before `childRemoved` is dispatched; the child keeps its listeners and
     * stays registered in `children` in every case.
     */
    method RemoveChildAsWritten(id: string) returns (outcome: Outcome)
      requires Valid()
      modifies this, Stored(systems)
      ensures Valid() && systems.table == old(systems.table)
      ensures children == old(children) && enabledSystems == old(enabledSystems)
      ensures !old(children.Has(id)) ==>
        && outcome == Fail(ChildNotFound) && listeners == old(listeners)
        && forall s | s in old(systems.table).vals.Values :: s.entities == old(s.entities) && s.listeners == old(s.listeners)
      ensures old(children.Has(id)) ==>
        var child := old(children.vals[id]);
        && child.listeners == old(child.listeners) && child.systems == old(child.systems)
        && (forall s | s in old(systems.table).vals.Values ::
              Left(old(s.entities), old(s.listeners), s.entities, s.listeners, child,
                   Hits(old(systems.table), child.systems[..Resolving(old(systems.table), child.systems)], s)))
        && if Resolving(systems.table, child.systems) < |child.systems|
              || "systemEnabled" in child.listeners || "systemDisabled" in child.listeners then
             outcome == Fail(TypeError) && listeners == old(listeners)
           else
             && listeners == Dispatched(old(listeners), "childRemoved", WorldListenerReaction)
             && outcome == Raised(DispatchEnding(old(listeners), "childRemoved", WorldListenerReaction))
    {
      var found := children.Get(id);
      if found.None? {
        return Fail(ChildNotFound);
      }
      outcome := ReleaseAsWritten(found.value);
    }

    /** removeChild as intended: the same, except that the child is also dropped from `children`. */
    method RemoveChild(id: string) returns (outcome: Outcome)
      requires Valid()
      modifies this, Stored(systems), if id in children.vals then {children.vals[id]} else {}
      ensures Valid() && systems.table == old(systems.table)
      ensures children == old(children).Delete(id) && enabledSystems == old(enabledSystems)
      ensures !old(children.Has(id)) ==>
        && outcome == Fail(ChildNotFound) && listeners == old(listeners)
        && forall s | s in old(systems.table).vals.Values :: s.entities == old(s.entities) && s.listeners == old(s.listeners)
      ensures old(children.Has(id)) ==>
        var child := old(children.vals[id]);
        && child.systems == old(child.systems) && child.relationships == old(child.relationships)
        && (forall s | s in old(systems.table).vals.Values ::
              Left(old(s.entities), old(s.listeners), s.entities, s.listeners, child,
                   Hits(old(systems.table), child.systems[..Resolving(old(systems.table), child.systems)], s)))
        && if Resolving(systems.table, child.systems) < |child.systems| then
             outcome == Fail(TypeError) && listeners == old(listeners) && child.listeners == old(child.listeners)
           else
             && child.listeners == Unhooked(old(child.listeners), id)
             && listeners == Dispatched(old(listeners), "childRemoved", WorldListenerReaction)
             && outcome == Raised(DispatchEnding(old(listeners), "childRemoved", WorldListenerReaction))
    {
      var found := children.Get(id);
      if found.None? {
        return Fail(ChildNotFound);
      }
      children := children.Delete(id);
      outcome := Release(found.value);
    }

    /**
     * addSystem as written: the system is stored under its instance name, and the key appended
     * to `enabledSystems` is `name`, or the class name when `name` is missing or empty.
     */
    method AddSystemAsWritten(system: System, name: Option<string>)
      requires Valid() && system.Valid()
      modifies this, systems
      ensures Valid() && children == old(children) && listeners == old(listeners)
      ensures systems.table == old(systems.table).Set(InstanceName(system.cls, name), system)
      ensures enabledSystems == old(enabledSystems) + [PushedKey(system.cls, name)]
    {
      systems.Set(system, system.cls, name);
      enabledSystems := enabledSystems + [PushedKey(system.cls, name)];
    }

    /** addSystem as intended: the key appended is the one the system is stored under. */
    method AddSystem(system: System, name: Option<string>)
      requires Valid() && system.Valid()
      modifies this, systems
      ensures Valid() && children == old(children) && listeners == old(listeners)
      ensures systems.table == old(systems.table).Set(InstanceName(system.cls, name), system)
      ensures enabledSystems == old(enabledSystems) + [Str(InstanceName(system.cls, name))]
      ensures Lookup(systems.table, enabledSystems[|enabledSystems| - 1]) == Some(system)
    {
      systems.Set(system, system.cls, name);
      enabledSystems := enabledSystems + [Str(InstanceName(system.cls, name))];
    }

    /** enableSystem: the key is appended, whether or not it is listed already. */
    method EnableSystem(k: Key)
      requires Valid()
      modifies this
      ensures Valid() && children == old(children) && listeners == old(listeners)
      ensures enabledSystems == old(enabledSystems) + [k]
    {
      enabledSystems := enabledSystems + [k];
    }

    /**
     * disableSystem as written: it computes the list without `k` and discards it, so
     * `enabledSystems` is left as it was (no `modifies`).
     */
    method DisableSystemAsWritten(k: Key) returns (discarded: seq<Key>)
      ensures forall x :: x in discarded <==> x in enabledSystems && x != k
      ensures discarded == Filtered(enabledSystems, k)
    {
      discarded := Filtered(enabledSystems, k);
      FilteredMembers(enabledSystems, k);
    }

    /** disableSystem as intended: every occurrence of `k` leaves `enabledSystems`. */
    method DisableSystem(k: Key)
      requires Valid()
      modifies this
      ensures Valid() && children == old(children) && listeners == old(listeners)
      ensures enabledSystems == Filtered(old(enabledSystems), k)
      ensures forall x :: x in enabledSystems <==> x in old(enabledSystems) && x != k
    {
      FilteredMembers(enabledSystems, k);
      enabledSystems := Filtered(enabledSystems, k);
    }

    /**
     * update: runs, in order, the systems the keys find ("all" meaning `enabledSystems`), and
     * fails the assertion at the first key that finds none, after running those before it.
     */
    method Update(target: Target) returns (updated: seq<System>, outcome: Outcome)
      ensures var keys := if target.All? then enabledSystems else target.keys;
        && updated == Found(systems.table, keys)
        && outcome == if Resolving(systems.table, keys) < |keys| then Fail(SystemNotFound) else Done
    {
      var keys := if target.All? then enabledSystems else target.keys;
      ghost var tbl := systems.table;
      updated := [];
      var i := 0;
      while i < |keys|
        invariant 0 <= i <= |keys| && systems.table == tbl
        invariant Resolving(tbl, keys) == i + Resolving(tbl, keys[i..])
        invariant updated == Found(tbl, keys)[..i]
      {
        var sys := systems.Get(keys[i]);
        assert sys == Lookup(tbl, keys[i]);
        ResolvingFrom(tbl, keys, i);
        if sys.None? {
          assert Found(tbl, keys)[..i] == Found(tbl, keys);
          return updated, Fail(SystemNotFound);
        }
        ghost var found := Found(tbl, keys);
        FoundLookups(tbl, keys, i);
        assert found[i] == sys.value;
        assert found[..i + 1] == found[..i] + [sys.value];
        sys.value.Update();
        updated := updated + [sys.value];
        assert Resolving(tbl, keys) == i + 1 + Resolving(tbl, keys[i + 1..]);
        i := i + 1;
      }
      assert Found(tbl, keys)[..i] == Found(tbl, keys);
      outcome := Done;
    }

    /**
     * updateComplex: runs, in the systems map's order, every stored system whose key satisfies
     * `pred`; its assertion never fails, since each key visited is stored.
     */
    method UpdateComplex(pred: string -> bool) returns (updated: seq<System>)
      requires Valid()
      ensures updated == Selected(systems.Entries(), pred)
      ensures forall x :: x in updated <==>
        exists i :: 0 <= i < |systems.Entries()| && pred(systems.Entries()[i].0) && systems.Entries()[i].1 == x
    {
      var entries := systems.Entries();
      updated := [];
      var i := 0;
      while i < |entries|
        invariant 0 <= i <= |entries|
        invariant updated == Selected(entries[..i], pred)
      {
        var key := entries[i].0;
        assert entries[..i + 1][..i] == entries[..i] && entries[..i + 1][i] == entries[i];
        assert Selected(entries[..i + 1], pred)
          == Selected(entries[..i], pred) + (if pred(key) then [entries[i].1] else []);
        if pred(key) {
          var sys := systems.Get(Str(key));
          if sys.None? {
            assert false;
          }
          assert sys.value == entries[i].1;
          sys.value.Update();
          updated := updated + [sys.value];
        }
        i := i + 1;
      }
      assert entries[..i] == entries;
      forall x {
        SelectedMembers(entries, pred, x);
      }
    }
  }

  /**
   * As written, removing a connected child throws in disconnectChild, and the child is still
   * registered, so adding it back fails the assertion.
   */
  method RemovedChildCannotReturn() returns (removed: Outcome, again: Outcome)
    ensures removed == Fail(TypeError)
    ensures again == Fail(DuplicateChild)
  {
    var world := new World();
    var player := new Entity("player");
    var counter := new IdCounter();
    var added := world.AddChild(player, counter);
    assert added == Done;
    assert "systemEnabled" in player.listeners;
    removed := world.RemoveChildAsWritten("player");
    again := world.AddChild(player, counter);
  }

  /** With the child dropped from `children`, it can be added back. */
  method RemovedChildReturns() returns (again: Outcome)
    ensures again == Done
  {
    var world := new World();
    var player := new Entity("player");
    var counter := new IdCounter();
    var added := world.AddChild(player, counter);
    assert added == Done && world.listeners == map[];
    assert world.children.vals["player"] == player && player.systems == [];
    var removed := world.RemoveChild("player");
    assert world.listeners == map[] && !world.children.Has("player");
    again := world.AddChild(player, counter);
  }

  /** As written, a tagged system added without a name makes `update("all")` fail. */
  method TaggedSystemNotFoundByUpdate() returns (updated: seq<System>, outcome: Outcome)
    ensures updated == [] && outcome == Fail(SystemNotFound)
  {
    var world := new World();
    var movement := new System(ClassRef("MovementSystem", "movement"), world);
    world.AddSystemAsWritten(movement, None);
    assert world.enabledSystems == [Str("MovementSystem")];
    updated, outcome := world.Update(All);
  }

  /** With the storage key appended, `update("all")` runs the system. */
  method TaggedSystemUpdated() returns (updated: seq<System>, outcome: Outcome)
    ensures |updated| == 1 && outcome == Done
  {
    var world := new World();
    var movement := new System(ClassRef("MovementSystem", "movement"), world);
    world.AddSystem(movement, None);
    assert world.enabledSystems == [Str("movement")];
    updated, outcome := world.Update(All);
  }
}
