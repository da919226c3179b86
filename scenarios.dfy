/**
  Client harnesses: sequences of calls on the aggregates and the builder,
  with what their contracts let a caller conclude about the whole sequence.
 */
module Scenarios {
  import opened Wrappers
  import opened EventShapes
  import opened EventFactories
  import opened EventStreams
  import GenericAggregates
  import opened Aggregates
  import opened Builders

  /** One domain operation's call to Apply: the event interface and the action. */
  datatype Command = Command(iface: Interface, action: seq<Assignment>)

  predicate Assigns(c: Command)
  {
    forall a :: a in c.action ==> a.property in PropertyNames(PropertiesOf(c.iface))
  }

  /** `e` is the event the factory builds for `c`: the action run on a new instance of the type synthesised for the interface. */
  predicate BuiltFrom(e: Event, c: Command)
  {
    Synthesized(e.concrete, c.iface) && Assignable(e.concrete, c.action)
    && e == RunAction(Uninitialized(e.concrete), c.action)
  }

  /**
    Every command can be served in turn: each interface is cached or can be
    synthesised now, and commands whose types would share a name share the
    interface too.
   */
  predicate Admissible(cache: map<Interface, ConcreteType>, names: set<string>, commands: seq<Command>)
  {
    (forall i :: 0 <= i < |commands| ==> Creatable(cache, names, commands[i].iface))
    && (forall i, j :: 0 <= i < |commands| && 0 <= j < |commands|
          && ConcreteTypeName(commands[i].iface) == ConcreteTypeName(commands[j].iface)
          ==> commands[i].iface == commands[j].iface)
  }

  /**
    Serving the first of admissible commands leaves the rest admissible:
    the only name it may take is its own.
   */
  lemma AdmissibleAfterStep(before: map<Interface, ConcreteType>, namesBefore: set<string>,
                            after: map<Interface, ConcreteType>, namesAfter: set<string>, commands: seq<Command>)
    requires |commands| > 0 && ValidCache(before, namesBefore) && Admissible(before, namesBefore, commands)
    requires CacheStep(before, namesBefore, commands[0].iface, after, namesAfter) && commands[0].iface in after
    ensures Admissible(after, namesAfter, commands[1..])
  {
    forall j | 0 <= j < |commands| - 1
      ensures Creatable(after, namesAfter, commands[1..][j].iface)
    {
      assert commands[1..][j] == commands[j + 1];
      CreatableAfterStep(before, namesBefore, commands[0].iface, after, namesAfter, commands[j + 1].iface);
    }
  }

  /**
    n calls to Apply, then Flush: the version does not move until the
    flush, which returns the n events in apply order, empties the buffer and
    adds n to the version; identity and domain state are their replay. A call the factory
    refuses ends the sequence before the flush (`ok` is false): the events
    of the calls before it stay pending and the version is unchanged. No
    call is refused when the commands are admissible.
   */
  method ApplyThenFlush<S, B>(a: AggregateBase<S, B>, factory: EventFactory, commands: seq<Command>)
    returns (flushed: seq<Event>, ok: bool)
    requires a.pending == [] && factory.Valid()
    requires forall i :: 0 <= i < |commands| ==> Assigns(commands[i])
    modifies a, factory
    ensures factory.Valid()
    ensures Admissible(old(factory.cache), old(factory.definedNames), commands) ==> ok
    ensures ok ==> |flushed| == |commands| && a.pending == [] && a.version == old(a.version) + |commands|
    ensures ok ==> forall i :: 0 <= i < |commands| ==> BuiltFrom(flushed[i], commands[i])
    ensures ok ==> a.CurrentView() == Replay(a.handle, old(a.CurrentView()), flushed)
    ensures !ok ==> flushed == [] && |a.pending| < |commands| && a.version == old(a.version)
    ensures !ok ==> forall i :: 0 <= i < |a.pending| ==> BuiltFrom(a.pending[i], commands[i])
    ensures !ok ==> a.CurrentView() == Replay(a.handle, old(a.CurrentView()), a.pending)
  {
    ok := ApplyAll(a, factory, commands);
    if ok {
      flushed := a.Flush();
    } else {
      flushed := [];
    }
  }

  /**
    The calls to Apply of ApplyThenFlush, in order, up to the first one the
    factory refuses.
   */
  method ApplyAll<S, B>(a: AggregateBase<S, B>, factory: EventFactory, commands: seq<Command>) returns (ok: bool)
    requires a.pending == [] && factory.Valid()
    requires forall i :: 0 <= i < |commands| ==> Assigns(commands[i])
    modifies a, factory
    ensures factory.Valid()
    ensures Admissible(old(factory.cache), old(factory.definedNames), commands) ==> ok
    ensures ok ==> |a.pending| == |commands|
    ensures !ok ==> |a.pending| < |commands|
    ensures forall i :: 0 <= i < |a.pending| ==> BuiltFrom(a.pending[i], commands[i])
    ensures a.CurrentView() == Replay(a.handle, old(a.CurrentView()), a.pending)
    ensures a.version == old(a.version)
  {
    ghost var v0 := a.CurrentView();
    ghost var admissible := Admissible(factory.cache, factory.definedNames, commands);
    assert commands[0..] == commands;
    var i := 0;
    ok := true;
    while i < |commands| && ok
      invariant i <= |commands| && |a.pending| == i
      invariant factory.Valid()
      invariant forall j :: 0 <= j < i ==> BuiltFrom(a.pending[j], commands[j])
      invariant a.version == old(a.version)
      invariant a.CurrentView() == Replay(a.handle, v0, a.pending)
      invariant admissible ==> ok && Admissible(factory.cache, factory.definedNames, commands[i..])
      invariant !ok ==> i < |commands|
      decreases |commands| - i, if ok then 1 else 0
    {
      ghost var before := a.pending;
      ok := ApplyFirst(a, factory, commands[i..]);
      if ok {
        ReplaySnoc(a.handle, v0, before, a.pending[i]);
        assert commands[i..][1..] == commands[i + 1..];
        i := i + 1;
      }
    }
  }

  /** One step of ApplyThenFlush: applies the first command. */
  method ApplyFirst<S, B>(a: AggregateBase<S, B>, factory: EventFactory, commands: seq<Command>) returns (ok: bool)
    requires |commands| > 0 && Assigns(commands[0]) && factory.Valid()
    modifies a, factory
    ensures factory.Valid()
    ensures a.version == old(a.version)
    ensures ok ==> |a.pending| == |old(a.pending)| + 1 && a.pending[..|old(a.pending)|] == old(a.pending)
    ensures ok ==> BuiltFrom(a.pending[|old(a.pending)|], commands[0])
    ensures ok ==> a.CurrentView() == a.handle(old(a.CurrentView()), a.pending[|old(a.pending)|])
    ensures !ok ==> a.pending == old(a.pending) && a.CurrentView() == old(a.CurrentView())
    ensures Admissible(old(factory.cache), old(factory.definedNames), commands) ==>
              ok && Admissible(factory.cache, factory.definedNames, commands[1..])
  {
    ghost var cache0, names0 := factory.cache, factory.definedNames;
    ok := a.Apply(factory, commands[0].iface, commands[0].action);
    if ok && Admissible(cache0, names0, commands) {
      AdmissibleAfterStep(cache0, names0, factory.cache, factory.definedNames, commands);
    }
  }

  /**
    Replay determinism: a new aggregate hydrated with the events another
    one flushed, from the same initial state, ends with the same identity
    and state and at the same version.
   */
  method ReplayFlushed<S, B>(handle: (View<S>, Event) -> View<S>, restoreHook: (S, Header, Memento<B>) -> S,
                             takeHook: S -> Memento<B>, initial: S,
                             factory: EventFactory, commands: seq<Command>)
    returns (original: AggregateBase<S, B>, replayed: AggregateBase<S, B>, flushed: seq<Event>, ok: bool)
    requires factory.Valid()
    requires forall i :: 0 <= i < |commands| ==> Assigns(commands[i])
    modifies factory
    ensures fresh(original) && fresh(replayed) && original != replayed
    ensures Admissible(old(factory.cache), old(factory.definedNames), commands) ==> ok
    ensures ok ==> |flushed| == |commands| && original.pending == [] && replayed.pending == []
    ensures ok ==> replayed.CurrentView() == original.CurrentView()
    ensures ok ==> replayed.version == original.version == |commands|
  {
    original := new AggregateBase(handle, restoreHook, takeHook, initial);
    flushed, ok := ApplyThenFlush(original, factory, commands);
    replayed := new AggregateBase(handle, restoreHook, takeHook, initial);
    replayed.Hydrate(flushed);
  }

  /**
    Snapshot and tail: hydrating the first k events, snapshotting, restoring
    the snapshot on a new aggregate and hydrating the remaining events gives
    the identity, state and version that hydrating all events gives,
    provided the aggregate's hooks restore the state they snapshot.
   */
  method SnapshotThenTail<S, B>(handle: (View<S>, Event) -> View<S>, restoreHook: (S, Header, Memento<B>) -> S,
                                takeHook: S -> Memento<B>, initial: S, events: seq<Event>, k: nat)
    returns (restored: AggregateBase<S, B>, replayed: AggregateBase<S, B>)
    requires k <= |events|
    requires var head := Replay(handle, View(EmptyGuid, initial), events[..k]);
             restoreHook(initial, Header(head.id, k), Memento(head.id, k, takeHook(head.state).body)) == head.state
    ensures fresh(restored) && fresh(replayed)
    ensures restored.CurrentView() == replayed.CurrentView()
    ensures restored.version == replayed.version == |events|
    ensures restored.pending == replayed.pending == []
  {
    ghost var head := Replay(handle, View(EmptyGuid, initial), events[..k]);
    var first := new AggregateBase(handle, restoreHook, takeHook, initial);
    first.Hydrate(events[..k]);
    assert first.CurrentView() == head && first.version == k;
    var m := first.TakeSnapshot();
    assert m == Memento(head.id, k, takeHook(head.state).body);
    restored := new AggregateBase(handle, restoreHook, takeHook, initial);
    restored.HydrateFromMemento(m);
    assert restored.CurrentView() == head && restored.version == k;
    restored.Hydrate(events[k..]);
    replayed := new AggregateBase(handle, restoreHook, takeHook, initial);
    replayed.Hydrate(events);
    ReplayAppend(handle, View(EmptyGuid, initial), events[..k], events[k..]);
    assert events[..k] + events[k..] == events;
  }

  /** Two flushes in a row: the second returns nothing and leaves the version alone. */
  method FlushTwice<TId, S, B>(a: GenericAggregates.AggregateBaseGeneric<TId, S, B>)
    returns (first: seq<Event>, second: seq<Event>)
    modifies a
    ensures first == old(a.pending) && second == []
    ensures a.pending == [] && a.version == old(a.version) + |first|
  {
    first := a.Flush();
    ghost var between := a.version;
    second := a.Flush();
    assert a.version == between;
  }

  /** A snapshot restored on a new aggregate reproduces identity, version and bucket. */
  method RestoreOnNewAggregate<TId, S, B>(a: GenericAggregates.AggregateBaseGeneric<TId, S, B>, initial: S)
    returns (m: GenericAggregates.Memento<TId, B>, b: GenericAggregates.AggregateBaseGeneric<TId, S, B>)
    ensures fresh(b)
    ensures b.id == a.id && b.version == a.version && b.bucketId == a.bucketId && b.pending == []
    ensures m.body == a.takeHook(a.state).body
    ensures b.state == a.restoreHook(initial, GenericAggregates.Header(a.defaultId, 0, None), m)
  {
    m := a.TakeSnapshot();
    b := new GenericAggregates.AggregateBaseGeneric(a.handle, a.restoreHook, a.takeHook, a.show,
                                                    a.convertOverride, a.defaultId, initial);
    b.RestoreSnapshot(m);
  }

  /** Building twice makes two aggregates, each hydrated with the same collected events. */
  method BuildTwice<S, B>(builder: AggregateBuilder<S, B>)
    returns (first: AggregateBase<S, B>, second: AggregateBase<S, B>)
    modifies builder
    ensures fresh(first) && fresh(second) && first != second
    ensures builder.events == old(builder.events)
    ensures first.CurrentView() == second.CurrentView() == Replay(builder.handle, View(EmptyGuid, builder.initial), builder.events)
    ensures first.version == second.version == |builder.events|
  {
    first := builder.Build();
    second := builder.Build();
  }

  /** The event interface every event of the sample extends. */
  const IEvent: Interface := Interface(1, "NES", "IEvent", [], [], [])

  /** The sample's user-created event: a user id and a user name. */
  const CreatedUserEvent: Interface :=
    Interface(2, "NES.Sample.Messages", "CreatedUserEvent",
              [Property("UserId", "Guid"), Property("Username", "String")], [], [IEvent])

  /** The action `e => { e.UserId = 42; e.Username = "alice"; }`. */
  const CreatedUserAction: seq<Assignment> :=
    [Assignment("UserId", Identifier(42)), Assignment("Username", Text("alice"))]

  lemma CreatedUserProperties()
    ensures PropertiesOf(CreatedUserEvent) == [Property("UserId", "Guid"), Property("Username", "String")]
    ensures forall a :: a in CreatedUserAction ==> a.property in PropertyNames(PropertiesOf(CreatedUserEvent))
  {
    assert PropertiesOf(IEvent) == [];
    assert InheritedProperties(CreatedUserEvent, 1) == InheritedProperties(CreatedUserEvent, 0) + PropertiesOf(IEvent);
    var names := PropertyNames(PropertiesOf(CreatedUserEvent));
    assert Property("UserId", "Guid").name in names;
    assert Property("Username", "String").name in names;
  }

  /**
    The type synthesised for the created-user event is named after it, and
    the action stores 42 and "alice" in its two properties.
   */
  lemma CreatedUserFields(t: ConcreteType)
    requires Synthesized(t, CreatedUserEvent)
    ensures t.name == "NES.Sample.Messages.__Concrete.CreatedUserEvent"
    ensures Assignable(t, CreatedUserAction) && HasProperty(t, "UserId") && HasProperty(t, "Username")
    ensures Get(RunAction(Uninitialized(t), CreatedUserAction), "UserId") == Identifier(42)
    ensures Get(RunAction(Uninitialized(t), CreatedUserAction), "Username") == Text("alice")
  {
    CreatedUserAssignable(t);
    CreatedUserLastAssigned(Get(Uninitialized(t), "UserId"));
    CreatedUserLastAssigned(Get(Uninitialized(t), "Username"));
    RunActionGet(Uninitialized(t), CreatedUserAction, "UserId");
    RunActionGet(Uninitialized(t), CreatedUserAction, "Username");
  }

  lemma CreatedUserAssignable(t: ConcreteType)
    requires Synthesized(t, CreatedUserEvent)
    ensures t.name == "NES.Sample.Messages.__Concrete.CreatedUserEvent"
    ensures Assignable(t, CreatedUserAction) && HasProperty(t, "UserId") && HasProperty(t, "Username")
  {
    CreatedUserProperties();
    CreatedUserTypeName();
    assert CreatedUserAction[0] in CreatedUserAction && CreatedUserAction[1] in CreatedUserAction;
  }

  lemma CreatedUserTypeName()
    ensures ConcreteTypeName(CreatedUserEvent) == "NES.Sample.Messages.__Concrete.CreatedUserEvent"
  {
    assert Suffix + "." == ".__Concrete.";
    assert "NES.Sample.Messages" + ".__Concrete." == "NES.Sample.Messages.__Concrete.";
  }

  lemma CreatedUserLastAssigned(initial: Value)
    ensures LastAssigned(CreatedUserAction, "UserId", initial) == Identifier(42)
    ensures LastAssigned(CreatedUserAction, "Username", initial) == Text("alice")
  {
    assert CreatedUserAction[..1] == [CreatedUserAction[0]];
    assert CreatedUserAction[..1][..0] == [];
  }

  /**
    Applying a created-user event leaves the version at 0 with the event
    pending (`applied`, `versionAfterApply`); the flush returns it, with its
    fields as set, and the version becomes 1.
   */
  method CreatedUserScenario<S, B>(handle: (View<S>, Event) -> View<S>, restoreHook: (S, Header, Memento<B>) -> S,
                                   takeHook: S -> Memento<B>, initial: S)
    returns (a: AggregateBase<S, B>, applied: seq<Event>, versionAfterApply: int, flushed: seq<Event>)
    ensures versionAfterApply == 0 && applied == flushed
    ensures a.version == 1 && a.pending == [] && |flushed| == 1
    ensures flushed[0].concrete.name == "NES.Sample.Messages.__Concrete.CreatedUserEvent"
    ensures WellFormed(flushed[0]) && HasProperty(flushed[0].concrete, "UserId")
    ensures HasProperty(flushed[0].concrete, "Username")
    ensures Get(flushed[0], "UserId") == Identifier(42) && Get(flushed[0], "Username") == Text("alice")
    ensures a.CurrentView() == handle(View(EmptyGuid, initial), flushed[0])
  {
    var factory := new EventFactory();
    a := new AggregateBase(handle, restoreHook, takeHook, initial);
    CreatedUserProperties();
    assert PropertiesOnly(IEvent);
    assert PropertiesOnly(CreatedUserEvent);
    var ok := a.Apply(factory, CreatedUserEvent, CreatedUserAction);
    assert ok && |a.pending| == 1;
    applied, versionAfterApply := a.pending, a.version;
    CreatedUserFields(factory.cache[CreatedUserEvent]);
    flushed := a.Flush();
  }

  /**
    The runtime lists every interface an interface extends, transitively, so
    a property declared two levels up is collected twice: once directly and
    once through the interface in between.
   */
  lemma DuplicatesKept()
    ensures var id := Property("Id", "Guid");
            var name := Property("Name", "String");
            var root := Interface(10, "App", "IHasId", [id], [], []);
            var middle := Interface(11, "App", "INamed", [name], [], [root]);
            var leaf := Interface(12, "App", "IRenamed", [], [], [middle, root]);
            PropertiesOf(leaf) == [name, id, id]
  {
    var id := Property("Id", "Guid");
    var name := Property("Name", "String");
    var root := Interface(10, "App", "IHasId", [id], [], []);
    var middle := Interface(11, "App", "INamed", [name], [], [root]);
    var leaf := Interface(12, "App", "IRenamed", [], [], [middle, root]);
    assert PropertiesOf(root) == [id];
    assert InheritedProperties(middle, 1) == InheritedProperties(middle, 0) + PropertiesOf(root);
    assert PropertiesOf(middle) == [name, id];
    assert InheritedProperties(leaf, 1) == InheritedProperties(leaf, 0) + PropertiesOf(middle);
    assert InheritedProperties(leaf, 2) == InheritedProperties(leaf, 1) + PropertiesOf(root);
  }

  /** An event interface that declares a method besides its property. */
  const DescribedEvent: Interface :=
    Interface(20, "App", "IDescribed", [Property("Text", "String")], ["Describe"], [IEvent])

  /** An interface of the same name that declares the property only. */
  const DescribedEventFixed: Interface :=
    Interface(21, "App", "IDescribed", [Property("Text", "String")], [], [IEvent])

  /**
    A refused interface: applying an event of an interface that declares a
    method fails, and so does every later request for a type of that name,
    even from an interface that declares properties only. Nothing is
    raised, recorded or cached.
   */
  method RejectedScenario<S, B>(handle: (View<S>, Event) -> View<S>, restoreHook: (S, Header, Memento<B>) -> S,
                                takeHook: S -> Memento<B>, initial: S)
    returns (a: AggregateBase<S, B>, first: bool, second: bool, fixed: bool)
    ensures !first && !second && !fixed
    ensures a.pending == [] && a.version == 0 && a.CurrentView() == View(EmptyGuid, initial)
  {
    var factory := new EventFactory();
    a := new AggregateBase(handle, restoreHook, takeHook, initial);
    assert !PropertiesOnly(DescribedEvent);
    first := a.Apply(factory, DescribedEvent, []);
    assert factory.cache == map[];
    second := a.Apply(factory, DescribedEvent, []);
    assert ConcreteTypeName(DescribedEventFixed) == ConcreteTypeName(DescribedEvent);
    fixed := a.Apply(factory, DescribedEventFixed, []);
  }

  /**
    Two constructions of one generic interface whose type argument appears
    in no property: same namespace, name and shape, distinct runtime types.
   */
  const LabelledOfInt: Interface := Interface(30, "App", "ILabelled`1", [Property("Label", "String")], [], [IEvent])
  const LabelledOfString: Interface := Interface(31, "App", "ILabelled`1", [Property("Label", "String")], [], [IEvent])

  /**
    Distinct interfaces are distinct cache keys even when they agree in
    everything but identity: the first gets its type, the second misses the
    cache and is refused because the name is taken. Only the first event is
    recorded.
   */
  method SameShapeScenario<S, B>(handle: (View<S>, Event) -> View<S>, restoreHook: (S, Header, Memento<B>) -> S,
                                 takeHook: S -> Memento<B>, initial: S)
    returns (a: AggregateBase<S, B>, first: bool, second: bool)
    ensures first && !second
    ensures |a.pending| == 1 && a.pending[0].concrete.source == LabelledOfInt
    ensures a.version == 0 && a.CurrentView() == handle(View(EmptyGuid, initial), a.pending[0])
  {
    var factory := new EventFactory();
    a := new AggregateBase(handle, restoreHook, takeHook, initial);
    assert PropertiesOnly(IEvent);
    assert PropertiesOnly(LabelledOfInt);
    first := a.Apply(factory, LabelledOfInt, []);
    assert LabelledOfString !in factory.cache;
    assert ConcreteTypeName(LabelledOfString) == ConcreteTypeName(LabelledOfInt);
    second := a.Apply(factory, LabelledOfString, []);
  }
}
