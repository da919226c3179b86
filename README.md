# NES event-sourced aggregates in Dafny

This project models the bookkeeping core of NES, a .NET library for event-sourced aggregates.
An aggregate's domain state is derived from an ordered stream of events.

- **Hydrate** replays committed events. Each one goes through the aggregate's handler and adds one to `version`.
- **Apply** creates a new event through the event factory, raises it at once and appends it to the pending buffer. `version` does not move.
- **Flush** hands over the pending events oldest first, empties the buffer and adds their count to `version`.
- **Snapshots** lay identity, version and (in the generic base class) bucket over a memento produced by the aggregate's own hook.

The event factory synthesises one concrete type per event interface and caches it.
The type is named `<namespace>.__Concrete.<name>`.
It has one backing field `_<property>` per property collected from the interface and from every interface it extends.
Its generated getter and setter read and write that field.

Files and modules:

- `wrappers.dfy` (`Wrappers`): `Option`, which stands for a reference that may be null.
- `event_shapes.dfy` (`EventShapes`): event interfaces as a tree of descriptors, the naming of synthesised types and backing fields, and the property collection as a specification function (`PropertiesOf`).
- `event_factory.dfy` (`EventFactories`): synthesised types as objects with an identity, events as values with get/set, and the `EventFactory` class with its cache.
- `event_streams.dfy` (`EventStreams`): `Replay`, the state reached by raising a sequence of events. Both base classes are specified with it.
- `aggregate_base_generic.dfy` (`GenericAggregates`): `AggregateBaseGeneric`, with a generic identity, a bucket and a generic memento.
- `aggregate_base.dfy` (`Aggregates`): `AggregateBase`, with a Guid identity.
- `aggregate_builder.dfy` (`Builders`): the test builder.
- `scenarios.dfy` (`Scenarios`): client methods that chain calls. Their contracts state the properties that span several calls: n applies then a flush, replay determinism, snapshot plus tail, two flushes in a row, build twice, and the created-user example.

Modelling choices:

- Event dispatch (`Raise`) goes through a handler that is not part of this model. Each aggregate holds it as a total, deterministic function `handle` over a `View`: what the handler sees of its aggregate and may assign.
  - In `AggregateBase` the view is the identity and the domain state `S`, because `Id` has a protected setter.
  - In `AggregateBaseGeneric` it is the identity, the bucket and `S`, because `Id` and `BucketId` both have protected setters.
  - `version` and the pending events are private to the base class, so they are outside the view.
- The overridable snapshot hooks are functions too.
  - The restore hook receives the identity, version and bucket that are current when it runs.
  - This makes the ordering visible. `AggregateBaseGeneric.RestoreSnapshot` runs the hook before it overwrites the header, so the hook sees the old header. `AggregateBase.HydrateFromMemento` sets identity and version first, so the hook sees the memento's.
- A synthesised type is a Dafny object, so "the identical type" means the same object. A miss in the cache allocates a fresh one.
- The caller's `Action<TEvent>` is a sequence of property assignments. It is run exactly once, through the generated setters, on an instance whose every field holds the zero of its property's type: 0 for an integer, the empty Guid for a Guid, null for a reference. This is the state an uninitialised object is in, so a property explicitly set to zero cannot be told from one never set.
- The cache is keyed by the interface's identity as a runtime type, not by its shape alone. Two interfaces that agree in namespace, name and members are still different keys when they are different types.
- The process-wide static cache is one `EventFactory` object that callers share. It also holds the names of the types defined so far in the factory's dynamic module.
- A factory request can fail in two ways. Both abandon the request: nothing is cached, and `Apply` neither raises nor records an event.
  - The module already holds a type of the same name. This happens when two distinct interfaces share namespace and simple name, such as two constructions of one generic interface, or after an earlier request for that name failed.
  - A collected interface declares something other than a property (a method, an event, an indexer). Only property accessors are generated, so the type cannot be loaded. Its name stays taken.
  - The methods that call the factory return `ok`, which is false where the source throws.

## Model

| member | source | states |
|---|---|---|
| `GenericAggregates.ConvertToStringId` | src/NES/AggregateBaseGeneric.cs:34-37 | a null identity gives the empty string; any other identity gives its own `ToString` |
| `GenericAggregates.AggregateBaseGeneric.StringId` | src/NES/AggregateBaseGeneric.cs:17-20 | the string id goes through the aggregate's own conversion when it overrides `ConvertToStringId`; with the base conversion it is "" for a null identity and the identity's `ToString` otherwise |
| `GenericAggregates.AggregateBaseGeneric.constructor` | src/NES/AggregateBaseGeneric.cs:13-30 | a new aggregate starts at the identity `default(TId)` (null for a reference type, the zero value for a value type), with no bucket, version 0 and nothing pending |
| `GenericAggregates.AggregateBaseGeneric.Raise` | src/NES/AggregateBaseGeneric.cs:96-99 | the event goes through the aggregate's handler, which may assign identity, bucket and domain state; version and pending are unchanged |
| `GenericAggregates.AggregateBaseGeneric.RestoreSnapshot` | src/NES/AggregateBaseGeneric.cs:39-46 | the hook runs first and sees the old header; afterwards identity, version and bucket equal the memento's whatever the hook did; pending is untouched |
| `GenericAggregates.AggregateBaseGeneric.TakeSnapshot` | src/NES/AggregateBaseGeneric.cs:48-57 | the memento carries the current identity, version and bucket over the hook's body; the aggregate is not changed |
| `GenericAggregates.AggregateBaseGeneric.Hydrate` | src/NES/AggregateBaseGeneric.cs:59-66 | identity, bucket and domain state become the in-order replay of the events through the handler; version grows by exactly their number; pending is unchanged |
| `GenericAggregates.AggregateBaseGeneric.Flush` | src/NES/AggregateBaseGeneric.cs:68-76 | returns the pending events in apply order, empties the buffer, adds the count returned to version, leaves the state alone |
| `GenericAggregates.AggregateBaseGeneric.Apply` | src/NES/AggregateBaseGeneric.cs:78-85 | when the factory can create the event, it is raised (identity, bucket and state become the handler's result) and appended as the only new pending event; when it cannot, identity, bucket, state and pending are unchanged; the factory changes as one request does; version is unchanged either way |
| `Aggregates.AggregateBase.constructor` | src/NES/AggregateBase.cs:9-17 | a new aggregate has the empty Guid, version 0 and nothing pending |
| `Aggregates.AggregateBase.Raise` | src/NES/AggregateBase.cs:76-79 | the event goes through the aggregate's handler, which may assign identity and domain state; version and pending are unchanged |
| `Aggregates.AggregateBase.HydrateFromMemento` | src/NES/AggregateBase.cs:21-27 | identity and version come from the memento before the hook runs, so the hook sees them; pending is untouched |
| `Aggregates.AggregateBase.Hydrate` | src/NES/AggregateBase.cs:29-36 | identity and domain state become the in-order replay of the events through the handler; version grows by exactly their number; pending is unchanged |
| `Aggregates.AggregateBase.TakeSnapshot` | src/NES/AggregateBase.cs:38-46 | the memento carries the current identity and version over the hook's body; the aggregate is not changed |
| `Aggregates.AggregateBase.Flush` | src/NES/AggregateBase.cs:48-56 | returns the pending events in apply order, empties the buffer and adds their count to version |
| `Aggregates.AggregateBase.Apply` | src/NES/AggregateBase.cs:58-65 | when the factory can create the event, it is raised (identity and state become the handler's result) and appended as the only new pending event; when it cannot, identity, state and pending are unchanged; the factory changes as one request does; version is unchanged either way |
| `EventStreams.ReplayAppend` | src/NES/AggregateBase.cs:29-36 | replaying a history in two parts, the second from the state the first reached, equals replaying all of it |
| `EventShapes.ConcreteTypeNameRoundTrip` | src/NES/EventFactory.cs:55 | the synthesised type's name is namespace + `.__Concrete.` + simple name, and parsing that name gives both parts back |
| `EventShapes.ConcreteTypeNameInjective` | src/NES/EventFactory.cs:55 | two interfaces get the same synthesised name only if namespace and simple name agree |
| `EventShapes.FieldNameInjective` | src/NES/EventFactory.cs:63 | backing fields are `_` + property name, so distinct properties get distinct fields |
| `EventShapes.PropertiesOfMembership` | src/NES/EventFactory.cs:86-96 | a property is collected exactly when the interface declares it or it is collected for one of the interfaces it extends |
| `EventShapes.PropertiesOfOrder` | src/NES/EventFactory.cs:86-96 | the interface's own properties come first, then the whole list collected for each extended interface, in order and uninterrupted |
| `EventShapes.PropertiesOfLength` | src/NES/EventFactory.cs:86-96 | nothing is dropped or merged: the count is the own count plus the counts collected for each extended interface |
| `EventFactories.EventFactory.GetPropertyInfo` | src/NES/EventFactory.cs:86-96 | the loop and its recursive calls compute exactly the collected property list |
| `EventFactories.EventFactory.CreateType` | src/NES/EventFactory.cs:53-84 | fails when the module already holds the name; otherwise defines the name, and yields a fresh type named after the interface and carrying the collected properties exactly when every collected interface declares properties only |
| `EventFactories.EventFactory.GetConcreteType` | src/NES/EventFactory.cs:38-51 | a hit returns the cached type and changes nothing; a miss stores a fresh type under the key alone, or fails and caches nothing; it succeeds exactly when the interface is creatable; the cache stays consistent with the module |
| `EventFactories.EventFactory.CreateEvent` | src/NES/EventFactory.cs:24-36 | when the type can be had, the event is an uninitialised instance of the cached type with the caller's action run on it once, and a miss adds only that type, fresh, to the cache; otherwise there is no event |
| `EventFactories.EventFactory.constructor` | src/NES/EventFactory.cs:12-22 | the cache starts empty and the new module holds no type names |
| `EventFactories.CacheIsInjective` | src/NES/EventFactory.cs:44-55 | a valid cache maps distinct interfaces to distinct types with distinct names |
| `EventFactories.CacheStepProperties` | src/NES/EventFactory.cs:38-84 | one request keeps the cache consistent with the module's names, only adds, adds nothing but the requested entry, and caches the interface exactly when it was creatable |
| `EventFactories.CreatableAfterStep` | src/NES/EventFactory.cs:44-55 | a successful request leaves every other creatable interface creatable unless the two share a type name |
| `EventFactories.Uninitialized` | src/NES/EventFactory.cs:35 | a new instance has exactly its type's backing fields, each holding the zero of its property's type |
| `EventFactories.SetZeroIsUninitialized` | src/NES/EventFactory.cs:35 | setting a property of a new instance to its type's zero leaves the instance exactly as it was |
| `EventFactories.Set` | src/NES/EventFactory.cs:74-77 | a generated setter keeps the instance's type and its set of backing fields |
| `EventFactories.GetAfterSet` | src/NES/EventFactory.cs:70-77 | a get after a set of the same property returns the value set, and other properties keep their values |
| `EventFactories.RunAction` | src/NES/EventFactory.cs:28 | running the caller's action keeps the instance's type and its set of fields |
| `EventFactories.RunActionGet` | src/NES/EventFactory.cs:24-31 | after the action, each property holds the value of its last assignment, or its old value if it was not assigned |
| `Builders.AggregateBuilder.constructor` | sample/NES.Sample.Tests/Builders/AggregateBuilder.cs:8-12 | a new builder has collected no events and built no aggregate |
| `Builders.AggregateBuilder.Apply` | sample/NES.Sample.Tests/Builders/AggregateBuilder.cs:14-17 | when the factory can create the event, exactly that event is appended to the collected events; otherwise nothing is collected; no aggregate is touched |
| `Builders.AggregateBuilder.Build` | sample/NES.Sample.Tests/Builders/AggregateBuilder.cs:19-27 | a fresh aggregate, kept in the builder and returned, whose identity and domain state are the in-order replay of the collected events from the empty identity and the initial state, so its identity is whatever the events' handlers assign; version equal to their number, nothing pending; the events are kept |
| `Scenarios.ApplyThenFlush` | src/NES/AggregateBase.cs:48-65 | after n applies the flush returns those n events in apply order, each built from its call, and version grows by exactly n, only at the flush; a refused apply stops the sequence with the earlier events pending and the version unchanged; admissible commands are never refused |
| `Scenarios.ApplyAll` | src/NES/AggregateBase.cs:58-65 | applies in order up to the first refused command; the pending events are built from the commands in order and identity and state are their replay; admissible commands are all applied |
| `Scenarios.AdmissibleAfterStep` | src/NES/EventFactory.cs:38-55 | serving the first of admissible commands leaves the rest admissible |
| `Scenarios.ReplayFlushed` | src/NES/AggregateBase.cs:29-65 | hydrating a new aggregate with the events another one flushed, from the same initial state, gives the same identity, state and version; admissible commands are all flushed |
| `Scenarios.SnapshotThenTail` | src/NES/AggregateBase.cs:21-46 | snapshot at k events, restore on a new aggregate and replay the rest give the identity, state and version of replaying all events, when the hooks restore what they snapshot |
| `Scenarios.FlushTwice` | src/NES/AggregateBaseGeneric.cs:68-76 | a second flush in a row returns nothing and leaves the version unchanged |
| `Scenarios.RestoreOnNewAggregate` | src/NES/AggregateBaseGeneric.cs:39-57 | restoring a taken snapshot on a new aggregate reproduces identity, version and bucket |
| `Scenarios.BuildTwice` | sample/NES.Sample.Tests/Builders/AggregateBuilder.cs:19-27 | two builds give two distinct aggregates, each hydrated from the same collected events |
| `Scenarios.CreatedUserProperties` | sample/NES.Sample/Messages/CreatedUserEvent.cs:5-9 | the created-user event collects `UserId` then `Username`, and its action assigns only those |
| `Scenarios.CreatedUserFields` | src/NES/EventFactory.cs:24-31 | the created-user event's type is `NES.Sample.Messages.__Concrete.CreatedUserEvent`, and the action leaves 42 and "alice" in its two properties |
| `Scenarios.CreatedUserScenario` | sample/NES.Sample/Messages/CreatedUserEvent.cs:5-9 | applying a created-user event leaves version 0 with exactly that event pending (returned as observed after the apply); the flush returns it with its fields as set, and version becomes 1 |
| `Scenarios.DuplicatesKept` | src/NES/EventFactory.cs:88-93 | a property declared two levels up is collected twice, once directly and once through the interface in between |
| `Scenarios.RejectedScenario` | src/NES/EventFactory.cs:44-83 | applying an event whose interface declares a method fails, and every later request for that name fails too, even from a properties-only interface; nothing is raised or recorded |
| `Scenarios.SameShapeScenario` | src/NES/EventFactory.cs:44-55 | two distinct interfaces with the same namespace, name and members are separate cache keys: the first gets its type, the second is refused on the taken name, and only the first event is recorded |

Facts about the source that the model keeps:

- `AggregateBase` has no bucket, and its restore runs the hook after it sets identity and version. The generic class runs the hook before it sets them.
- Neither class checks that a snapshot is consistent with the events replayed after it.
- The factory collects only properties. An interface that declares anything else gets a type that cannot be loaded, and its name stays taken in the module.

## Left out

- Handler resolution behind `Raise` is not part of this model. It is a total function, so missing or ambiguous handlers are not modelled.
- Aggregates.AggregateBase.Raise: a handler that reads the version through the event-source interface is not modelled. The handler sees only identity and domain state.
- GenericAggregates.AggregateBaseGeneric.Raise: likewise, the handler sees only identity, bucket and domain state, not the version.
- The `Cast<T>` in `AggregateBase.Hydrate` is left out. Events have the one type `Event` here, so the cast cannot fail.
- Null mementos from the default snapshot hooks are excluded by the types. The hooks always return a memento.
- Aggregates.AggregateBase.HydrateFromMemento: a hook that assigns `Id` itself is not modelled. Hooks only produce domain state.
- Aggregates.AggregateBase.Hydrate: `version` is an unbounded integer. The 32-bit wrap-around of `_version++` past 2^31 - 1 events is not modelled.
- Aggregates.AggregateBase.Flush: the same 32-bit wrap-around of `_version + events.Count` is not modelled.
- GenericAggregates.AggregateBaseGeneric.Hydrate: the same 32-bit wrap-around is not modelled.
- GenericAggregates.AggregateBaseGeneric.Flush: the same 32-bit wrap-around is not modelled.
- EventFactories.EventFactory.CreateEvent: the caller's action is modelled as a sequence of property assignments. Other code an action might run is not modelled, and neither is the aliasing of the returned instance.
- EventFactories.EventFactory.CreateType: Reflection.Emit is reduced to its observable contract: the type name, one backing field per collected property, and getters and setters that read and write that field. The dynamic assembly and module, the type attributes, the `get_`/`set_` method names and the IL itself are left out.
- Duplicate properties share one backing field in the model. What the runtime does with a type that defines the same field or accessor twice is not modelled.
- Several factory objects of one event family share the static cache while each has its own module. The model has one factory, whose cache and module names go together.
- Which exception a failed request throws is not modelled, only that it fails.
- EventFactories.Uninitialized: zeros are modelled for the integer types, Guid and references. Other value types (bool, decimal, DateTime, enums, structs) are not modelled, and their fields start at `Null` in the model.
- The model does not check that an assigned value fits the property's type. The C# compiler ensures that for the caller's action.
- The `lock` around the cache is left out. The cache is modelled sequentially.
- Dependency-injection wiring of the factories, the NServiceBus configuration, the endpoint configuration, the conflicting-command exception type and the sample command's Guid generation are left out. They hold no bookkeeping logic.
- `Apply` in both base classes and in the builder calls a factory through an interface whose implementation is not part of this model. It is modelled by `EventFactory.CreateEvent`.
- The event source factory that makes the builder's aggregate is not part of this model. The builder holds the handler, hooks and initial state it would use.
