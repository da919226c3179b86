/**
  The test builder: it collects events created through the event factory
  and, on Build, makes a new aggregate, hydrates it with them and flushes it.
 */
module Builders {
  import opened EventShapes
  import opened EventFactories
  import opened EventStreams
  import opened Aggregates

  /**
    A builder for aggregates of one kind. The parameters that make a new
    aggregate of that kind (its handler, its snapshot hooks and its initial
    domain state) stand for what the event source factory does to create one.
   */
  class AggregateBuilder<S, B> {
    const factory: EventFactory
    const handle: (View<S>, Event) -> View<S>
    const restoreHook: (S, Header, Memento<B>) -> S
    const takeHook: S -> Memento<B>
    const initial: S

    /** The events collected so far, in the order they were applied. */
    var events: seq<Event>
    /** The aggregate made by the last Build (both the event source view and the typed view of it). */
    var aggregate: AggregateBase?<S, B>

    constructor (factory: EventFactory, handle: (View<S>, Event) -> View<S>, restoreHook: (S, Header, Memento<B>) -> S,
                 takeHook: S -> Memento<B>, initial: S)
      ensures events == [] && aggregate == null
      ensures this.factory == factory && this.handle == handle && this.restoreHook == restoreHook
      ensures this.takeHook == takeHook && this.initial == initial
    {
      this.factory := factory;
      this.handle := handle;
      this.restoreHook := restoreHook;
      this.takeHook := takeHook;
      this.initial := initial;
      events := [];
      aggregate := null;
    }

    /**
      Collects one event created by the factory from `iface` and the
      caller's action. No aggregate is touched. When the factory cannot
      create it (`ok` is false, standing for the exception it throws),
      nothing is collected.
     */
    method Apply(iface: Interface, action: seq<Assignment>) returns (ok: bool)
      requires factory.Valid()
      requires forall a :: a in action ==> a.property in PropertyNames(PropertiesOf(iface))
      modifies this, factory
      ensures factory.Valid()
      ensures CacheStep(old(factory.cache), old(factory.definedNames), iface, factory.cache, factory.definedNames)
      ensures ok <==> Creatable(old(factory.cache), old(factory.definedNames), iface)
      ensures ok ==> iface in factory.cache && Assignable(factory.cache[iface], action)
      ensures ok ==> events == old(events) + [RunAction(Uninitialized(factory.cache[iface]), action)]
      ensures ok && iface !in old(factory.cache) ==>
                fresh(factory.cache[iface]) && factory.cache == old(factory.cache)[iface := factory.cache[iface]]
      ensures !ok ==> events == old(events)
      ensures aggregate == old(aggregate)
      ensures aggregate != null ==> unchanged(aggregate)
    {
      var r := factory.CreateEvent(iface, action);
      if r.None? {
        return false;
      }
      events := events + [r.value];
      ok := true;
    }

    /**
      Builds a new aggregate hydrated with every collected event, in order:
      identity and domain state are what the handlers make of the empty
      identity and the initial state. The flush that follows finds nothing
      pending, so the version is the number of events. The collected events
      are kept.
     */
    method Build() returns (built: AggregateBase<S, B>)
      modifies this
      ensures fresh(built) && aggregate == built
      ensures built.handle == handle && built.restoreHook == restoreHook && built.takeHook == takeHook
      ensures built.CurrentView() == Replay(handle, View(EmptyGuid, initial), events)
      ensures built.version == |events| && built.pending == []
      ensures events == old(events)
    {
      aggregate := new AggregateBase(handle, restoreHook, takeHook, initial);
      aggregate.Hydrate(events);
      var flushed := aggregate.Flush();
      assert flushed == [];
      built := aggregate;
    }
  }
}
