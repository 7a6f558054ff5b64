/**
 * ClassMap (src/utils/classmap.ts): a string-keyed store whose keys may be given as strings or
 * derived from classes. A class is known by its `name` and by the optional name tag that the
 * `@name` decorator writes on it.
 */
module ClassMaps {
  import opened Outcomes
  import opened JsMap

  /**
   * A class as the core sees it: its `name`, and its name tag. The source reads the tag through
   * `||`, so an empty tag behaves exactly like no tag; the model writes "no tag" as "".
   */
  datatype ClassRef = ClassRef(name: string, tag: string)

  /**
   * What callers pass where the source accepts `Class | string`. Besides strings and classes, the
   * source also passes ordinary objects there (Entity.addComponent hands the component instance to
   * `has`); such an object is known by its own tag property and its own `name` property, which
   * may be undefined.
   */
  datatype Key =
    | Str(s: string)
    | Cls(c: ClassRef)
    | Inst(tag: string, name: Option<string>)

  /** getClassName: the storage key a lookup argument denotes; None stands for `undefined`. */
  function ClassName(k: Key): (r: Option<string>)
    ensures r.None? <==> k.Inst? && k.tag == "" && k.name.None?
  {
    match k
    case Str(s) => Some(s)
    case Cls(c) => Some(if c.tag != "" then c.tag else c.name)
    case Inst(tag, name) => if tag != "" then Some(tag) else name
  }

  /**
   * getInstanceName: the key `set` stores an instance of class `ctor` under. A given name is used
   * whenever it is there, the empty string included; without one, the instance goes exactly where
   * a lookup by its class looks.
   */
  function InstanceName(ctor: ClassRef, name: Option<string>): (r: string)
    ensures name.Some? ==> r == name.value
    ensures name.None? ==> ClassName(Cls(ctor)) == Some(r)
  {
    if name.Some? then name.value
    else if ctor.tag != "" then ctor.tag
    else ctor.name
  }

  /** A string key is used verbatim. */
  lemma StringKeyIsItself(s: string)
    ensures ClassName(Str(s)) == Some(s)
  {
  }

  /**
   * An ordinary object resolves through its own properties: its tag when truthy, else its own
   * `name`, which may be undefined. Its class plays no part.
   */
  lemma InstanceKeyIsOwnTagOrName(tag: string, name: Option<string>)
    ensures tag != "" ==> ClassName(Inst(tag, name)) == Some(tag)
    ensures tag == "" ==> ClassName(Inst(tag, name)) == name
  {
  }

  /** A class resolves to its tag, and to its name when the tag is absent or empty. */
  lemma ClassKeyIsTagOrName(c: ClassRef)
    ensures c.tag != "" ==> ClassName(Cls(c)) == Some(c.tag)
    ensures c.tag == "" ==> ClassName(Cls(c)) == Some(c.name)
  {
  }

  /**
   * An untagged class and the string of its name address the same entry, although as values
   * (for instance in an entity's list of systems) they are different keys.
   */
  lemma UntaggedClassSharesItsNameEntry(c: ClassRef)
    requires c.tag == ""
    ensures ClassName(Cls(c)) == ClassName(Str(c.name))
    ensures Cls(c) != Str(c.name)
  {
  }

  /** What `get(key)` finds in the wrapped table: the value under the key `key` denotes, or `undefined`. */
  function Lookup<V>(t: OrderedMap<V>, k: Key): (r: Option<V>)
    ensures r.Some? <==> ClassName(k).Some? && ClassName(k).value in t.vals
    ensures r.Some? ==> r.value == t.vals[ClassName(k).value]
  {
    if ClassName(k).Some? then t.Get(ClassName(k).value) else None
  }

  class ClassMap<V> {
    /** The wrapped `Map<string, any>`. */
    var table: OrderedMap<V>

    ghost predicate Valid()
      reads this
    {
      table.Valid()
    }

    constructor ()
      ensures Valid() && table == Empty()
    {
      table := Empty();
    }

    /** `size`, which JsMap.SizeCountsKeys relates to the stored keys. */
    function Size(): nat
      reads this
    {
      table.Size()
    }

    /** `has(key)`: something is stored under the key `key` denotes, so forEach visits that key. */
    predicate Has(key: Key)
      reads this
      ensures Valid() ==> (Has(key) <==> ClassName(key).Some? && ClassName(key).value in table.keys)
    {
      ClassName(key).Some? && table.Has(ClassName(key).value)
    }

    /** `get(key)`: the value stored under the key `key` denotes, or `undefined`. */
    function Get(key: Key): (r: Option<V>)
      reads this
      ensures r.Some? <==> Has(key)
      ensures r.Some? ==> r.value == table.vals[ClassName(key).value]
    {
      Lookup(table, key)
    }

    /** `set(instance, name)`, for an instance whose constructor is `ctor`. */
    method Set(instance: V, ctor: ClassRef, name: Option<string>)
      requires Valid()
      modifies this
      ensures Valid()
      ensures table == old(table).Set(InstanceName(ctor, name), instance)
      ensures Get(Str(InstanceName(ctor, name))) == Some(instance)
      ensures forall k :: ClassName(k) != Some(InstanceName(ctor, name)) ==> Get(k) == old(Get(k))
      ensures old(table.Has(InstanceName(ctor, name))) ==> table.keys == old(table.keys) && Size() == old(Size())
      ensures !old(table.Has(InstanceName(ctor, name))) ==> Size() == old(Size()) + 1
    {
      table := table.Set(InstanceName(ctor, name), instance);
    }

    /** `delete(key)`: true exactly when something was stored under the key `key` denotes. */
    method Delete(key: Key) returns (removed: bool)
      requires Valid()
      modifies this
      ensures Valid()
      ensures removed == old(Has(key))
      ensures !Has(key)
      ensures Size() == if removed then old(Size()) - 1 else old(Size())
      ensures forall k :: ClassName(k) != ClassName(key) ==> Get(k) == old(Get(k))
      ensures !removed ==> table == old(table)
      ensures ClassName(key).Some? ==> table == old(table).Delete(ClassName(key).value)
    {
      match ClassName(key)
      case None =>
        removed := false;
      case Some(n) =>
        removed := table.Has(n);
        table := table.Delete(n);
    }

    /** `clear()` */
    method Clear()
      modifies this
      ensures Valid() && Size() == 0
      ensures forall k :: !Has(k)
    {
      table := Empty();
    }

    /** The visits `forEach` makes: each stored key with its value, in first-insertion order. */
    function Entries(): (r: seq<(string, V)>)
      requires Valid()
      reads this
      ensures |r| == Size()
      ensures forall i :: 0 <= i < |r| ==> r[i].0 == table.keys[i] && Get(Str(r[i].0)) == Some(r[i].1)
    {
      table.Entries()
    }
  }
}
