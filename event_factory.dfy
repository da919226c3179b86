/**
  The event factory: a process-wide cache from event interface to the
  concrete type synthesised for it, and the events built from those types.
  A synthesised type has one private backing field per collected property;
  its generated getter reads that field and its generated setter writes it.
  An event is a value of such a type: which type, and what its fields hold.
 */
module EventFactories {
  import opened Wrappers
  import opened EventShapes

  /**
    What a backing field can hold: a null reference, an integer, a string,
    or a Guid as its 128-bit value.
   */
  datatype Value = Null | Number(n: int) | Text(s: string) | Identifier(guid: nat)

  /** The integer types whose zero is `Number(0)`. */
  const IntegerTypes: set<string> := {"Byte", "SByte", "Int16", "UInt16", "Int32", "UInt32", "Int64", "UInt64"}

  /**
    The value a field of type `propertyType` holds when every bit of it is
    zero: 0 for an integer, the empty Guid for a Guid, null for a reference.
   */
  function ZeroOf(propertyType: string): (v: Value)
    ensures propertyType in IntegerTypes <==> v == Number(0)
    ensures propertyType == "Guid" <==> v == Identifier(0)
    ensures v == Null <==> propertyType !in IntegerTypes && propertyType != "Guid"
  {
    if propertyType in IntegerTypes then Number(0)
    else if propertyType == "Guid" then Identifier(0)
    else Null
  }

  /** One assignment `event.<property> = value` made by the caller's action. */
  datatype Assignment = Assignment(property: string, value: Value)

  /**
    A type synthesised at run time. Each one is a distinct object: two
    synthesised types are the same only if they are the same object.
   */
  class ConcreteType {
    const name: string
    const source: Interface
    const properties: seq<Property>

    constructor (name: string, source: Interface, properties: seq<Property>)
      ensures this.name == name && this.source == source && this.properties == properties
    {
      this.name := name;
      this.source := source;
      this.properties := properties;
    }
  }

  /** `t` is the type the factory synthesises for `iface`. */
  predicate Synthesized(t: ConcreteType, iface: Interface)
  {
    t.source == iface && t.name == ConcreteTypeName(iface) && t.properties == PropertiesOf(iface)
  }

  function PropertyNames(properties: seq<Property>): set<string>
  {
    set p | p in properties :: p.name
  }

  /** The backing fields of a type with these properties. */
  function BackingFields(properties: seq<Property>): set<string>
  {
    set n | n in PropertyNames(properties) :: FieldName(n)
  }

  predicate HasProperty(t: ConcreteType, name: string)
  {
    name in PropertyNames(t.properties)
  }

  /** An instance of a synthesised type: the type and its backing fields. */
  datatype Event = Event(concrete: ConcreteType, fields: map<string, Value>)

  /** The instance has exactly the backing fields its type declares. */
  predicate WellFormed(e: Event)
  {
    e.fields.Keys == BackingFields(e.concrete.properties)
  }

  /** The generated getter of property `name`. */
  function Get(e: Event, name: string): Value
    requires WellFormed(e) && HasProperty(e.concrete, name)
  {
    assert FieldName(name) in BackingFields(e.concrete.properties);
    e.fields[FieldName(name)]
  }

  /** The generated setter of property `name`. */
  function Set(e: Event, name: string, v: Value): (r: Event)
    requires WellFormed(e) && HasProperty(e.concrete, name)
    ensures WellFormed(r) && r.concrete == e.concrete
  {
    assert FieldName(name) in BackingFields(e.concrete.properties);
    e.(fields := e.fields[FieldName(name) := v])
  }

  /**
    Get/set: a get after a set of the same property returns the value set,
    and a set leaves every other property as it was.
   */
  lemma GetAfterSet(e: Event, name: string, v: Value, other: string)
    requires WellFormed(e) && HasProperty(e.concrete, name) && HasProperty(e.concrete, other)
    ensures Get(Set(e, name, v), name) == v
    ensures other != name ==> Get(Set(e, name, v), other) == Get(e, other)
  {
    if other != name && FieldName(other) == FieldName(name) {
      FieldNameInjective(other, name);
    }
  }

  /** No property after the `i`-th has its name. */
  predicate LastWithName(properties: seq<Property>, i: int)
    requires 0 <= i < |properties|
  {
    forall j :: i < j < |properties| ==> properties[j].name != properties[i].name
  }

  /**
    The backing fields of a type with these properties, each holding the
    zero of its property's type. Where a name is declared more than once,
    the type of its last declaration decides.
   */
  function ZeroFields(properties: seq<Property>): (m: map<string, Value>)
    ensures m.Keys == BackingFields(properties)
    ensures forall i :: 0 <= i < |properties| && LastWithName(properties, i) ==>
              m[FieldName(properties[i].name)] == ZeroOf(properties[i].propertyType)
    decreases |properties|
  {
    if properties == [] then map[]
    else
      var init := properties[..|properties| - 1];
      var last := properties[|properties| - 1];
      var m := ZeroFields(init)[FieldName(last.name) := ZeroOf(last.propertyType)];
      assert forall p :: p in properties <==> p in init || p == last;
      assert PropertyNames(properties) == PropertyNames(init) + {last.name};
      forall i | 0 <= i < |properties| - 1 && LastWithName(properties, i)
        ensures m[FieldName(properties[i].name)] == ZeroOf(properties[i].propertyType)
      {
        assert properties[i] == init[i] && LastWithName(init, i);
        if FieldName(properties[i].name) == FieldName(last.name) {
          FieldNameInjective(properties[i].name, last.name);
        }
      }
      m
  }

  /**
    A new instance, as an uninitialised object is: every backing field holds
    the zero of its property's type, which is exactly the value a property
    of that type holds after it is explicitly set to zero.
   */
  function Uninitialized(t: ConcreteType): (e: Event)
    ensures WellFormed(e) && e.concrete == t
    ensures forall i :: 0 <= i < |t.properties| && LastWithName(t.properties, i) ==>
              Get(e, t.properties[i].name) == ZeroOf(t.properties[i].propertyType)
  {
    Event(t, ZeroFields(t.properties))
  }

  /**
    Setting a property to its type's zero leaves a new instance exactly as
    it was: an explicitly zeroed property cannot be told from one never set.
   */
  lemma SetZeroIsUninitialized(t: ConcreteType, i: int)
    requires 0 <= i < |t.properties| && LastWithName(t.properties, i)
    ensures HasProperty(t, t.properties[i].name)
    ensures Set(Uninitialized(t), t.properties[i].name, ZeroOf(t.properties[i].propertyType)) == Uninitialized(t)
  {
    var e := Uninitialized(t);
    var f := FieldName(t.properties[i].name);
    assert t.properties[i] in t.properties;
    assert f in e.fields;
    assert e.fields[f := e.fields[f]] == e.fields;
  }

  /** Every property the action assigns is a property of `t`. */
  predicate Assignable(t: ConcreteType, action: seq<Assignment>)
  {
    forall a :: a in action ==> HasProperty(t, a.property)
  }

  /** Runs the caller's action on `e`: each assignment in turn, through the setter. */
  function RunAction(e: Event, action: seq<Assignment>): (r: Event)
    requires WellFormed(e) && Assignable(e.concrete, action)
    ensures WellFormed(r) && r.concrete == e.concrete
    decreases |action|
  {
    if action == [] then e
    else RunAction(Set(e, action[0].property, action[0].value), action[1..])
  }

  /** The value the last assignment to `name` in `action` stores, or `initial` if there is none. */
  function LastAssigned(action: seq<Assignment>, name: string, initial: Value): Value
  {
    if action == [] then initial
    else if action[|action| - 1].property == name then action[|action| - 1].value
    else LastAssigned(action[..|action| - 1], name, initial)
  }

  lemma {:induction false} RunActionSnoc(e: Event, action: seq<Assignment>, a: Assignment)
    requires WellFormed(e) && Assignable(e.concrete, action + [a])
    ensures Assignable(e.concrete, action)
    ensures RunAction(e, action + [a]) == Set(RunAction(e, action), a.property, a.value)
    decreases |action|
  {
    assert forall b :: b in action ==> b in action + [a];
    if action != [] {
      var e' := Set(e, action[0].property, action[0].value);
      assert (action + [a])[1..] == action[1..] + [a];
      RunActionSnoc(e', action[1..], a);
    }
  }

  /**
    After the action runs, each property holds the value of the last
    assignment to it, and properties the action does not assign keep the
    value they had.
   */
  lemma {:induction false} RunActionGet(e: Event, action: seq<Assignment>, name: string)
    requires WellFormed(e) && Assignable(e.concrete, action) && HasProperty(e.concrete, name)
    ensures Get(RunAction(e, action), name) == LastAssigned(action, name, Get(e, name))
    decreases |action|
  {
    if action != [] {
      var init := action[..|action| - 1];
      var a := action[|action| - 1];
      assert init + [a] == action;
      RunActionSnoc(e, init, a);
      RunActionGet(e, init, name);
      GetAfterSet(RunAction(e, init), a.property, a.value, name);
    }
  }

  /** `after` keeps every entry of `before`: the cache only grows. */
  predicate Extends(before: map<Interface, ConcreteType>, after: map<Interface, ConcreteType>)
  {
    forall k :: k in before ==> k in after && after[k] == before[k]
  }

  /**
    A cache and the set of type names defined in the factory's module agree:
    every cached type is the one synthesised for its key and its name has
    been defined, and no two keys share a name.
   */
  predicate ValidCache(cache: map<Interface, ConcreteType>, names: set<string>)
  {
    (forall k :: k in cache ==> Synthesized(cache[k], k) && ConcreteTypeName(k) in names)
    && (forall k1, k2 :: k1 in cache && k2 in cache && ConcreteTypeName(k1) == ConcreteTypeName(k2) ==> k1 == k2)
  }

  /** The cache entry for `iface`, if there is one. */
  function Lookup(cache: map<Interface, ConcreteType>, iface: Interface): Option<ConcreteType>
  {
    if iface in cache then Some(cache[iface]) else None
  }

  /**
    A request for the type of `iface` succeeds: it is cached, or its name is
    still free in the module and every interface it collects declares
    properties only.
   */
  predicate Creatable(cache: map<Interface, ConcreteType>, names: set<string>, iface: Interface)
  {
    iface in cache || (ConcreteTypeName(iface) !in names && PropertiesOnly(iface))
  }

  /**
    One request for the type of `iface`, from cache `before` and defined
    names `namesBefore` to `after` and `namesAfter`. A hit changes nothing. A
    miss whose name the module already holds is refused by the module and
    changes nothing. Any other miss defines the name; the type is then
    cached only if it can be loaded, that is, if every interface collected
    declares properties only.
   */
  predicate CacheStep(before: map<Interface, ConcreteType>, namesBefore: set<string>, iface: Interface,
                      after: map<Interface, ConcreteType>, namesAfter: set<string>)
  {
    if iface in before || ConcreteTypeName(iface) in namesBefore then
      after == before && namesAfter == namesBefore
    else
      namesAfter == namesBefore + {ConcreteTypeName(iface)}
      && if PropertiesOnly(iface) then
           iface in after && Synthesized(after[iface], iface) && after == before[iface := after[iface]]
         else
           after == before
  }

  /**
    What a request does to the cache: it keeps the cache consistent with
    the module, it only adds, it adds nothing but the entry for `iface`, and
    `iface` ends up cached exactly when the request could succeed.
   */
  lemma CacheStepProperties(before: map<Interface, ConcreteType>, namesBefore: set<string>, iface: Interface,
                            after: map<Interface, ConcreteType>, namesAfter: set<string>)
    requires ValidCache(before, namesBefore)
    requires CacheStep(before, namesBefore, iface, after, namesAfter)
    ensures ValidCache(after, namesAfter)
    ensures Extends(before, after) && namesBefore <= namesAfter
    ensures forall k :: k in after ==> k in before || k == iface
    ensures iface in after <==> Creatable(before, namesBefore, iface)
  {
    if iface !in before && ConcreteTypeName(iface) !in namesBefore && PropertiesOnly(iface) {
      forall k1, k2 | k1 in after && k2 in after && ConcreteTypeName(k1) == ConcreteTypeName(k2)
        ensures k1 == k2
      {
        if k1 != iface {
          assert ConcreteTypeName(k1) in namesBefore;
        }
        if k2 != iface {
          assert ConcreteTypeName(k2) in namesBefore;
        }
      }
    }
  }

  /**
    A request that succeeds for `iface` leaves every other creatable
    interface creatable, unless the two would share a type name.
   */
  lemma CreatableAfterStep(before: map<Interface, ConcreteType>, namesBefore: set<string>, iface: Interface,
                           after: map<Interface, ConcreteType>, namesAfter: set<string>, other: Interface)
    requires ValidCache(before, namesBefore) && CacheStep(before, namesBefore, iface, after, namesAfter)
    requires iface in after
    requires Creatable(before, namesBefore, other)
    requires ConcreteTypeName(other) == ConcreteTypeName(iface) ==> other == iface
    ensures Creatable(after, namesAfter, other)
  {
    CacheStepProperties(before, namesBefore, iface, after, namesAfter);
  }

  /**
    The event factory. `cache` is the static dictionary shared by every
    factory of one event family; the model passes that one object around.
    `definedNames` are the names of the types defined so far in the
    factory's dynamic module.
   */
  class EventFactory {
    var cache: map<Interface, ConcreteType>
    var definedNames: set<string>

    ghost predicate Valid()
      reads this
    {
      ValidCache(cache, definedNames)
    }

    constructor ()
      ensures Valid() && cache == map[] && definedNames == {}
    {
      cache := map[];
      definedNames := {};
    }

    /**
      Collects the properties of `iface`: its own, then, recursively, those
      of each interface it extends.
     */
    method GetPropertyInfo(iface: Interface) returns (properties: seq<Property>)
      ensures properties == PropertiesOf(iface)
      decreases iface
    {
      properties := iface.properties;
      var i := 0;
      while i < |iface.interfaces|
        invariant i <= |iface.interfaces|
        invariant properties == iface.properties + InheritedProperties(iface, i)
      {
        var sub := GetPropertyInfo(iface.interfaces[i]);
        properties := properties + sub;
        i := i + 1;
      }
    }

    /**
      Synthesises a new type for `iface`, named after it, with one backing
      field and one property per collected property. Defining the type
      fails when the module already holds its name. Once defined, the name
      stays taken even if the type then cannot be loaded, which happens
      when a collected interface declares a member other than a property:
      only property accessors are generated, so that member has no
      implementation.
     */
    method CreateType(iface: Interface) returns (r: Option<ConcreteType>)
      modifies this`definedNames
      ensures ConcreteTypeName(iface) in old(definedNames) ==> definedNames == old(definedNames)
      ensures ConcreteTypeName(iface) !in old(definedNames) ==> definedNames == old(definedNames) + {ConcreteTypeName(iface)}
      ensures r.Some? <==> ConcreteTypeName(iface) !in old(definedNames) && PropertiesOnly(iface)
      ensures r.Some? ==> fresh(r.value) && Synthesized(r.value, iface)
    {
      var name := ConcreteTypeName(iface);
      if name in definedNames {
        return None;
      }
      definedNames := definedNames + {name};
      var properties := GetPropertyInfo(iface);
      if !PropertiesOnly(iface) {
        return None;
      }
      var t := new ConcreteType(name, iface, properties);
      r := Some(t);
    }

    /**
      The concrete type for `iface`: the cached one on a hit; on a miss a new
      one, synthesised and stored under `iface`, or nothing when it cannot
      be synthesised (nothing is cached then).
     */
    method GetConcreteType(iface: Interface) returns (r: Option<ConcreteType>)
      requires Valid()
      modifies this
      ensures Valid()
      ensures CacheStep(old(cache), old(definedNames), iface, cache, definedNames)
      ensures r == Lookup(cache, iface)
      ensures r.Some? <==> Creatable(old(cache), old(definedNames), iface)
      ensures iface in old(cache) ==> r == Some(old(cache)[iface])
      ensures iface !in old(cache) && r.Some? ==> fresh(r.value) && cache == old(cache)[iface := r.value]
    {
      if iface in cache {
        r := Some(cache[iface]);
      } else {
        r := CreateType(iface);
        if r.Some? {
          cache := cache[iface := r.value];
        }
      }
      CacheStepProperties(old(cache), old(definedNames), iface, cache, definedNames);
    }

    /**
      Creates an event of interface `iface`: an uninitialised instance of its
      concrete type, on which the caller's action is run once. Nothing is
      created when the type cannot be had.
     */
    method CreateEvent(iface: Interface, action: seq<Assignment>) returns (r: Option<Event>)
      requires Valid()
      requires forall a :: a in action ==> a.property in PropertyNames(PropertiesOf(iface))
      modifies this
      ensures Valid() && CacheStep(old(cache), old(definedNames), iface, cache, definedNames)
      ensures r.Some? <==> Creatable(old(cache), old(definedNames), iface)
      ensures r.Some? <==> iface in cache
      ensures r.Some? ==> r.value.concrete == cache[iface] && Assignable(r.value.concrete, action) && WellFormed(r.value)
      ensures r.Some? ==> r.value == RunAction(Uninitialized(r.value.concrete), action)
      ensures iface !in old(cache) && r.Some? ==> fresh(r.value.concrete) && cache == old(cache)[iface := r.value.concrete]
    {
      var t := GetConcreteType(iface);
      if t.None? {
        return None;
      }
      r := Some(RunAction(Uninitialized(t.value), action));
    }
  }

  /**
    One concrete type per interface and one interface per type name: a
    valid cache never maps two interfaces to the same type, nor to two types
    of the same name.
   */
  lemma CacheIsInjective(f: EventFactory, k1: Interface, k2: Interface)
    requires f.Valid() && k1 in f.cache && k2 in f.cache && k1 != k2
    ensures f.cache[k1] != f.cache[k2]
    ensures f.cache[k1].name != f.cache[k2].name
  {
    assert Synthesized(f.cache[k1], k1) && Synthesized(f.cache[k2], k2);
  }
}
