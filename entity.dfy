/**
 * Entity (src/core/entity.ts): a game object holding components in a ClassMap, the ordered list
 * of systems it takes part in, and named relationship buckets of other entities; every change is
 * announced through the entity's own event dispatcher.
 *
 * A failed `assert` of the source aborts the operation with the error kind its message describes;
 * state touched before it stays touched. A listener that throws during a dispatch makes the
 * operation fail with that error after its own changes are made.
 */
module Entities {
  import opened Outcomes
  import opened Sequences
  import opened JsMap
  import opened ClassMaps
  import opened EventDispatcher

  /**
   * A component instance: the class it was constructed from, the name tag and `name` property of
   * the instance itself (which is what `has(component)` reads), and the protected flag that
   * `removeComponent` reads from the instance.
   */
  datatype Component = Component(cls: ClassRef, ownTag: string, ownName: Option<string>, isProtected: bool)

  /** The key `has` sees when it is handed the instance instead of a class. */
  function InstanceKey(c: Component): Key {
    Inst(c.ownTag, c.ownName)
  }

  /**
   * A listener on an entity: a callback of the program, which proceeds, stops or throws as its
   * reaction says, or the hook a world installs on a child it registers.
   */
  datatype Handler = Callback(reaction: Reaction) | WorldHook(world: object)

  /** What `relationships.get(name)` gives, or the single member `getRelationship(name, true)` picks. */
  datatype Related = Bucket(members: OrderedMap<Entity>) | One(member: Entity)

  class Entity {
    const id: string
    /** `components`: a ClassMap of component instances. */
    const components: ClassMap<Component>
    /** `systems`: the keys of the systems the entity takes part in, in enabling order. */
    var systems: seq<Key>
    /** `relationships`: relationship name to the bucket of related entities by id. */
    var relationships: map<string, OrderedMap<Entity>>
    var listeners: Listeners<Handler>

    ghost predicate Valid()
      reads this, components
    {
      && components.Valid()
      && Distinct(systems)
      && forall n | n in relationships :: relationships[n].Valid()
    }

    constructor (id: string)
      ensures Valid() && fresh(components)
      ensures this.id == id && components.table == Empty() && systems == [] && relationships == map[]
      ensures listeners == map[]
    {
      this.id := id;
      components := new ClassMap();
      systems := [];
      relationships := map[];
      listeners := map[];
    }

    /** `getComponent(key)`: the component stored under the key `key` denotes, if any. */
    function GetComponent(key: Key): (r: Option<Component>)
      reads this, components
      ensures r.Some? <==> HasComponent(key)
      ensures r.Some? ==> r.value == components.table.vals[ClassName(key).value]
    {
      components.Get(key)
    }

    /** `hasComponent(key)` */
    predicate HasComponent(key: Key)
      reads this, components
      ensures HasComponent(key) <==> components.Get(key).Some?
    {
      components.Has(key)
    }

    /**
     * addComponent as written: the duplicate guard asks `has` about the instance, which resolves
     * through the instance's own tag and `name`, while `set` stores the instance under its class
     * key, overwriting whatever is there.
     */
    method AddComponent(c: Component, react: Handler -> Reaction) returns (outcome: Outcome)
      requires Valid()
      modifies this, components
      ensures Valid() && systems == old(systems) && relationships == old(relationships)
      ensures old(components.Has(InstanceKey(c))) ==>
        outcome == Fail(DuplicateComponent) && components.table == old(components.table) && listeners == old(listeners)
      ensures !old(components.Has(InstanceKey(c))) ==>
        && components.table == old(components.table).Set(InstanceName(c.cls, None), c)
        && listeners == Dispatched(old(listeners), "componentAdded", react)
        && outcome == Raised(DispatchEnding(old(listeners), "componentAdded", react))
    {
      if components.Has(InstanceKey(c)) {
        return Fail(DuplicateComponent);
      }
      components.Set(c, c.cls, None);
      var fired, ending;
      listeners, fired, ending := Dispatch(listeners, "componentAdded", react);
      outcome := Raised(ending);
    }

    /**
     * addComponent with the guard it evidently intends: adding a component whose class key is
     * already taken fails, so an entry is never overwritten.
     */
    method AddComponentChecked(c: Component, react: Handler -> Reaction) returns (outcome: Outcome)
      requires Valid()
      modifies this, components
      ensures Valid() && systems == old(systems) && relationships == old(relationships)
      ensures old(HasComponent(Cls(c.cls))) ==>
        outcome == Fail(DuplicateComponent) && components.table == old(components.table) && listeners == old(listeners)
      ensures !old(HasComponent(Cls(c.cls))) ==>
        && components.table == old(components.table).Set(InstanceName(c.cls, None), c)
        && components.Size() == old(components.Size()) + 1
        && GetComponent(Cls(c.cls)) == Some(c)
        && listeners == Dispatched(old(listeners), "componentAdded", react)
        && outcome == Raised(DispatchEnding(old(listeners), "componentAdded", react))
    {
      if components.Has(Cls(c.cls)) {
        return Fail(DuplicateComponent);
      }
      components.Set(c, c.cls, None);
      var fired, ending;
      listeners, fired, ending := Dispatch(listeners, "componentAdded", react);
      outcome := Raised(ending);
    }

    /**
     * removeComponent: fails when nothing is stored under the key or the stored component is
     * protected, changing nothing; otherwise deletes the entry and announces the removed object.
     */
    method RemoveComponent(key: Key, react: Handler -> Reaction) returns (outcome: Outcome)
      requires Valid()
      modifies this, components
      ensures Valid() && systems == old(systems) && relationships == old(relationships)
      ensures old(!HasComponent(key)) ==>
        outcome == Fail(ComponentNotFound) && components.table == old(components.table) && listeners == old(listeners)
      ensures old(HasComponent(key) && GetComponent(key).value.isProtected) ==>
        outcome == Fail(ProtectedComponent) && components.table == old(components.table) && listeners == old(listeners)
      ensures old(HasComponent(key) && !GetComponent(key).value.isProtected) ==>
        && components.table == old(components.table).Delete(ClassName(key).value)
        && !HasComponent(key)
        && components.Size() == old(components.Size()) - 1
        && listeners == Dispatched(old(listeners), "componentRemoved", react)
        && outcome == Raised(DispatchEnding(old(listeners), "componentRemoved", react))
    {
      var found := GetComponent(key);
      if found.None? {
        return Fail(ComponentNotFound);
      }
      if found.value.isProtected {
        return Fail(ProtectedComponent);
      }
      var _ := components.Delete(key);
      var fired, ending;
      listeners, fired, ending := Dispatch(listeners, "componentRemoved", react);
      outcome := Raised(ending);
    }

    /** enableSystem: fails on a key already listed; otherwise appends it and announces it. */
    method EnableSystem(k: Key, react: Handler -> Reaction) returns (outcome: Outcome)
      requires Valid()
      modifies this
      ensures Valid() && relationships == old(relationships)
      ensures k in old(systems) ==>
        outcome == Fail(DuplicateSystem) && systems == old(systems) && listeners == old(listeners)
      ensures k !in old(systems) ==>
        && systems == old(systems) + [k]
        && listeners == Dispatched(old(listeners), "systemEnabled", react)
        && outcome == Raised(DispatchEnding(old(listeners), "systemEnabled", react))
    {
      if k in systems {
        return Fail(DuplicateSystem);
      }
      AppendDistinct(systems, k);
      systems := systems + [k];
      var fired, ending;
      listeners, fired, ending := Dispatch(listeners, "systemEnabled", react);
      outcome := Raised(ending);
    }

    /**
     * disableSystem: fails on a key not listed; otherwise removes its one occurrence, keeping the
     * others in order, and announces it.
     */
    method DisableSystem(k: Key, react: Handler -> Reaction) returns (outcome: Outcome)
      requires Valid()
      modifies this
      ensures Valid() && relationships == old(relationships)
      ensures k !in old(systems) ==>
        outcome == Fail(SystemNotEnabled) && systems == old(systems) && listeners == old(listeners)
      ensures k in old(systems) ==>
        && systems == RemoveFirst(old(systems), k)
        && listeners == Dispatched(old(listeners), "systemDisabled", react)
        && outcome == Raised(DispatchEnding(old(listeners), "systemDisabled", react))
    {
      if k !in systems {
        return Fail(SystemNotEnabled);
      }
      systems := RemoveFirst(systems, k);
      var fired, ending;
      listeners, fired, ending := Dispatch(listeners, "systemDisabled", react);
      outcome := Raised(ending);
    }

    /** hasRelationship: the bucket exists and holds at least one entity. */
    predicate HasRelationship(name: string)
      reads this
      ensures HasRelationship(name) <==> name in relationships && relationships[name].keys != []
    {
      name in relationships && relationships[name].Size() > 0
    }

    /**
     * addRelationship: the first use of a name creates its bucket holding `target` and announces
     * nothing; later uses put `target` into the bucket under its id and announce it. Both return
     * the entity itself.
     */
    method AddRelationship(name: string, target: Entity, react: Handler -> Reaction)
      returns (self: Entity, outcome: Outcome)
      requires Valid()
      modifies this
      ensures Valid() && self == this && systems == old(systems)
      ensures name !in old(relationships) ==>
        && relationships == old(relationships)[name := Empty().Set(target.id, target)]
        && listeners == old(listeners) && outcome == Done
      ensures name in old(relationships) ==>
        && relationships == old(relationships)[name := old(relationships)[name].Set(target.id, target)]
        && listeners == Dispatched(old(listeners), "relationshipAdded", react)
        && outcome == Raised(DispatchEnding(old(listeners), "relationshipAdded", react))
      ensures HasRelationship(name) && relationships[name].Get(target.id) == Some(target)
    {
      self := this;
      if name !in relationships {
        relationships := relationships[name := Empty().Set(target.id, target)];
        return this, Done;
      }
      relationships := relationships[name := relationships[name].Set(target.id, target)];
      var fired, ending;
      listeners, fired, ending := Dispatch(listeners, "relationshipAdded", react);
      outcome := Raised(ending);
    }

    /**
     * The id removeRelationship acts on: the one given, or, when it is omitted or empty, the first
     * key of the bucket; None where the source destructures an empty bucket and throws.
     */
    function TargetOf(bucket: OrderedMap<Entity>, target: Option<string>): (r: Option<string>)
      requires bucket.Valid()
      ensures target.Some? && target.value != "" ==> r == target
      ensures (target.None? || target.value == "") ==>
        (r.None? <==> bucket.Size() == 0) && (r.Some? ==> r.value == bucket.keys[0])
    {
      if target.Some? && target.value != "" then target
      else if bucket.Size() == 0 then None
      else Some(bucket.First().value.0)
    }

    /**
     * removeRelationship: fails when the bucket was never created, throws when asked for the first
     * member of an empty bucket, fails when the target is not in the bucket; otherwise deletes it
     * from the bucket, which is kept even when it becomes empty, and announces the removal.
     */
    method RemoveRelationship(name: string, target: Option<string>, react: Handler -> Reaction)
      returns (outcome: Outcome)
      requires Valid()
      modifies this
      ensures Valid() && systems == old(systems)
      ensures name !in old(relationships) ==>
        outcome == Fail(RelationshipNotFound) && relationships == old(relationships) && listeners == old(listeners)
      ensures name in old(relationships) ==>
        var bucket := old(relationships)[name];
        var t := TargetOf(bucket, target);
        && (t.None? ==> outcome == Fail(TypeError) && relationships == old(relationships) && listeners == old(listeners))
        && (t.Some? && !bucket.Has(t.value) ==>
              outcome == Fail(RelationshipTargetNotFound) && relationships == old(relationships)
              && listeners == old(listeners))
        && (t.Some? && bucket.Has(t.value) ==>
              && relationships == old(relationships)[name := bucket.Delete(t.value)]
              && name in relationships && !relationships[name].Has(t.value)
              && listeners == Dispatched(old(listeners), "relationshipRemoved", react)
              && outcome == Raised(DispatchEnding(old(listeners), "relationshipRemoved", react)))
    {
      if name !in relationships {
        return Fail(RelationshipNotFound);
      }
      var bucket := relationships[name];
      var t := TargetOf(bucket, target);
      if t.None? {
        return Fail(TypeError);
      }
      if !bucket.Has(t.value) {
        return Fail(RelationshipTargetNotFound);
      }
      relationships := relationships[name := bucket.Delete(t.value)];
      var fired, ending;
      listeners, fired, ending := Dispatch(listeners, "relationshipRemoved", react);
      outcome := Raised(ending);
    }

    /**
     * getRelationship: fails when the bucket is missing; with `single` it is the first-inserted
     * member, and throws on an empty bucket; otherwise it is the bucket itself.
     */
    function GetRelationship(name: string, single: bool): (r: Result<Related>)
      requires Valid()
      reads this, components
      ensures name !in relationships <==> r == Err(RelationshipNotFound)
      ensures name in relationships && !single ==> r == Ok(Bucket(relationships[name]))
      ensures name in relationships && single ==>
        var b := relationships[name];
        && (b.Size() == 0 <==> r == Err(TypeError))
        && (b.Size() > 0 ==> r == Ok(One(b.vals[b.keys[0]])))
    {
      if name !in relationships then Err(RelationshipNotFound)
      else if !single then Ok(Bucket(relationships[name]))
      else match relationships[name].First()
        case None => Err(TypeError)
        case Some(entry) => Ok(One(entry.1))
    }
  }

  /** The guard of addComponent never rejects an instance that has neither a tag nor a `name`. */
  lemma GuardBlindToPlainInstances(e: Entity, c: Component)
    requires c.ownTag == "" && c.ownName.None?
    ensures !e.components.Has(InstanceKey(c))
  {
    InstanceKeyIsOwnTagOrName(c.ownTag, c.ownName);
  }

  /**
   * So adding a second plain instance of a class is not rejected, although the class key is taken;
   * the call overwrites the first instance instead.
   */
  lemma SecondPlainInstanceOverwrites(e: Entity, first: Component, second: Component)
    requires e.Valid() && e.GetComponent(Cls(first.cls)) == Some(first)
    requires second.cls == first.cls && second.ownTag == "" && second.ownName.None?
    ensures !e.components.Has(InstanceKey(second))
    ensures e.HasComponent(Cls(second.cls))
    ensures e.components.table.Set(InstanceName(second.cls, None), second).Get(InstanceName(first.cls, None)) == Some(second)
  {
  }

  /** hasRelationship holds exactly when asking for a single member succeeds. */
  lemma HasRelationshipIffSingleExists(e: Entity, name: string)
    requires e.Valid()
    ensures e.HasRelationship(name) <==> e.GetRelationship(name, true).Ok?
  {
  }
}
