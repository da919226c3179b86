/**
  The shape of an event interface as the event factory sees it, the names it
  gives to the type it synthesises for that interface, and the list of
  properties it collects by walking the interfaces the event interface extends.
 */
module EventShapes {
  import opened Wrappers

  /** A property declared by an event interface. */
  datatype Property = Property(name: string, propertyType: string)

  /**
    An event interface: its identity as a runtime type, its namespace (""
    for the global namespace), its simple name, the properties it declares
    itself, the other members it declares itself (methods, events,
    indexers), and the interfaces the runtime reports that it extends, in
    the order reported. The identity tells apart types that agree in
    everything else: constructions of one generic interface, interfaces
    nested in different declaring types, interfaces of different assemblies.
   */
  datatype Interface = Interface(
    identity: nat,
    namespace: string,
    name: string,
    properties: seq<Property>,
    members: seq<string>,
    interfaces: seq<Interface>)

  /** The suffix appended to a namespace to place synthesised types. */
  const Suffix: string := ".__Concrete"

  /** Full name of the type synthesised for interface `t`. */
  function ConcreteTypeName(t: Interface): string
  {
    t.namespace + Suffix + "." + t.name
  }

  /**
    Neither `t` nor any interface it extends declares anything but
    properties. Only then can a type that implements `t` with nothing but
    property accessors be loaded.
   */
  predicate PropertiesOnly(t: Interface)
    decreases t
  {
    t.members == [] && forall i :: 0 <= i < |t.interfaces| ==> PropertiesOnly(t.interfaces[i])
  }

  /** Name of the private field that backs property `property`. */
  function FieldName(property: string): string
  {
    "_" + property
  }

  predicate NoDot(s: string)
  {
    forall i :: 0 <= i < |s| ==> s[i] != '.'
  }

  /** The part of `s` after its last dot (all of `s` when it has none). */
  function AfterLastDot(s: string): (r: string)
    ensures |r| <= |s| && r == s[|s| - |r|..]
    ensures NoDot(r)
  {
    if s == [] then []
    else if s[|s| - 1] == '.' then []
    else
      var r := AfterLastDot(s[..|s| - 1]) + [s[|s| - 1]];
      assert s[..|s| - 1][|s| - 1 - (|r| - 1)..] + [s[|s| - 1]] == s[|s| - |r|..];
      r
  }

  /**
    Recovers namespace and simple name from the full name of a synthesised
    type: the simple name is what follows the last dot, and what precedes it
    must end with the suffix and a dot.
   */
  function ParseConcreteTypeName(s: string): Option<(string, string)>
  {
    var name := AfterLastDot(s);
    var rest := s[..|s| - |name|];
    var tail := Suffix + ".";
    if |rest| >= |tail| && rest[|rest| - |tail|..] == tail then
      Some((rest[..|rest| - |tail|], name))
    else
      None
  }

  lemma {:induction false} AfterLastDotOfJoin(prefix: string, name: string)
    requires NoDot(name)
    ensures AfterLastDot(prefix + "." + name) == name
    decreases |name|
  {
    var s := prefix + "." + name;
    if name == [] {
      assert s[|s| - 1] == '.';
    } else {
      var shorter := name[..|name| - 1];
      assert s[..|s| - 1] == prefix + "." + shorter;
      assert s[|s| - 1] == name[|name| - 1];
      AfterLastDotOfJoin(prefix, shorter);
      assert shorter + [name[|name| - 1]] == name;
    }
  }

  /**
    Naming round trip: for an interface whose simple name holds no dot (as
    .NET simple type names do not), the full synthesised name determines the
    namespace and the simple name.
   */
  lemma ConcreteTypeNameRoundTrip(t: Interface)
    requires NoDot(t.name)
    ensures ParseConcreteTypeName(ConcreteTypeName(t)) == Some((t.namespace, t.name))
  {
    var s := ConcreteTypeName(t);
    assert s == (t.namespace + Suffix) + "." + t.name;
    AfterLastDotOfJoin(t.namespace + Suffix, t.name);
    var rest := s[..|s| - |t.name|];
    var tail := Suffix + ".";
    assert rest == t.namespace + tail;
    assert rest[|rest| - |tail|..] == tail;
    assert rest[..|rest| - |tail|] == t.namespace;
  }

  /** Two interfaces get the same synthesised name only when namespace and name agree. */
  lemma ConcreteTypeNameInjective(a: Interface, b: Interface)
    requires NoDot(a.name) && NoDot(b.name)
    requires ConcreteTypeName(a) == ConcreteTypeName(b)
    ensures a.namespace == b.namespace && a.name == b.name
  {
    ConcreteTypeNameRoundTrip(a);
    ConcreteTypeNameRoundTrip(b);
  }

  /** Distinct properties get distinct backing fields. */
  lemma FieldNameInjective(p: string, q: string)
    requires FieldName(p) == FieldName(q)
    ensures p == q
  {
    assert p == FieldName(p)[1..];
    assert q == FieldName(q)[1..];
  }

  /**
    The properties collected for `t`: its own, then those collected for each
    interface it extends, in order. Nothing is removed, so a property reached
    along two paths appears twice.
   */
  function PropertiesOf(t: Interface): seq<Property>
    decreases t, |t.interfaces| + 1
  {
    t.properties + InheritedProperties(t, |t.interfaces|)
  }

  /** The properties collected from the first `k` interfaces `t` extends. */
  function InheritedProperties(t: Interface, k: nat): seq<Property>
    requires k <= |t.interfaces|
    decreases t, k
  {
    if k == 0 then []
    else InheritedProperties(t, k - 1) + PropertiesOf(t.interfaces[k - 1])
  }

  lemma {:induction false} InheritedMembership(t: Interface, k: nat, p: Property)
    requires k <= |t.interfaces|
    ensures p in InheritedProperties(t, k)
        <==> exists j :: 0 <= j < k && p in PropertiesOf(t.interfaces[j])
  {
    if k > 0 {
      InheritedMembership(t, k - 1, p);
      if p in PropertiesOf(t.interfaces[k - 1]) {
        assert 0 <= k - 1 < k;
      }
    }
  }

  /**
    A property is collected for `t` exactly when `t` declares it or it is
    collected for one of the interfaces `t` extends.
   */
  lemma PropertiesOfMembership(t: Interface, p: Property)
    ensures p in PropertiesOf(t)
        <==> p in t.properties || exists j :: 0 <= j < |t.interfaces| && p in PropertiesOf(t.interfaces[j])
  {
    InheritedMembership(t, |t.interfaces|, p);
  }

  /** The number of properties collected for each interface of `ts`, added up. */
  function CollectedCount(ts: seq<Interface>): nat
  {
    if ts == [] then 0
    else CollectedCount(ts[..|ts| - 1]) + |PropertiesOf(ts[|ts| - 1])|
  }

  lemma {:induction false} InheritedLength(t: Interface, k: nat)
    requires k <= |t.interfaces|
    ensures |InheritedProperties(t, k)| == CollectedCount(t.interfaces[..k])
  {
    if k > 0 {
      InheritedLength(t, k - 1);
      assert t.interfaces[..k][..k - 1] == t.interfaces[..k - 1];
    }
  }

  /**
    No property is dropped: `t` collects as many properties as it declares
    plus as many as are collected for each interface it extends.
   */
  lemma PropertiesOfLength(t: Interface)
    ensures |PropertiesOf(t)| == |t.properties| + CollectedCount(t.interfaces)
  {
    InheritedLength(t, |t.interfaces|);
    assert t.interfaces[..|t.interfaces|] == t.interfaces;
  }

  /** Where the list collected for the `j`-th extended interface starts within `t`'s list. */
  function InheritedOffset(t: Interface, j: nat): nat
    requires j <= |t.interfaces|
  {
    |t.properties| + |InheritedProperties(t, j)|
  }

  lemma {:induction false} InheritedSlice(t: Interface, j: nat, k: nat)
    requires j < k <= |t.interfaces|
    ensures |InheritedProperties(t, j)| + |PropertiesOf(t.interfaces[j])| <= |InheritedProperties(t, k)|
    ensures InheritedProperties(t, k)[|InheritedProperties(t, j)|..][..|PropertiesOf(t.interfaces[j])|]
         == PropertiesOf(t.interfaces[j])
    decreases k
  {
    if j < k - 1 {
      InheritedSlice(t, j, k - 1);
      var prev := InheritedProperties(t, k - 1);
      assert InheritedProperties(t, k)[..|prev|] == prev;
    }
  }

  /**
    Order and completeness: `t`'s own properties come first, and the whole
    list collected for each extended interface follows, uninterrupted, at the
    position after everything collected for the interfaces before it.
   */
  lemma PropertiesOfOrder(t: Interface, j: nat)
    requires j < |t.interfaces|
    ensures PropertiesOf(t)[..|t.properties|] == t.properties
    ensures InheritedOffset(t, j) + |PropertiesOf(t.interfaces[j])| <= |PropertiesOf(t)|
    ensures PropertiesOf(t)[InheritedOffset(t, j)..][..|PropertiesOf(t.interfaces[j])|]
         == PropertiesOf(t.interfaces[j])
  {
    var all := PropertiesOf(t);
    var inherited := InheritedProperties(t, |t.interfaces|);
    InheritedSlice(t, j, |t.interfaces|);
    assert all[|t.properties|..] == inherited;
    assert all[InheritedOffset(t, j)..] == inherited[|InheritedProperties(t, j)|..];
  }
}
