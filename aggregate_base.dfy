/**
  The aggregate base class with a Guid identity and no bucket. Its
  bookkeeping is that of the generic base class, except that hydrating from
  a memento sets identity and version before the aggregate's own hook runs.
 */
module Aggregates {
  import opened Wrappers
  import opened EventShapes
  import opened EventFactories
  import opened EventStreams

  /** A Guid, as its 128-bit value; 0 is the empty Guid. */
  type Guid = nat

  const EmptyGuid: Guid := 0

  /** Identity and version of an aggregate, as the restore hook sees them. */
  datatype Header = Header(id: Guid, version: int)

  /** A snapshot: identity and version stamped by the base class, over the hook's body. */
  datatype Memento<B> = Memento(id: Guid, version: int, body: B)

  /**
    What an event handler sees of its aggregate and may assign: the identity
    (whose setter is open to derived classes) and the domain state.
   */
  datatype View<S> = View(id: Guid, state: S)

  /**
    An aggregate with domain state `S` and snapshot body `B`. Event dispatch
    is `handle`; the overridable snapshot hooks are `restoreHook` and
    `takeHook`.
   */
  class AggregateBase<S, B> {
    var id: Guid
    var version: int
    var pending: seq<Event>
    var state: S

    const handle: (View<S>, Event) -> View<S>
    const restoreHook: (S, Header, Memento<B>) -> S
    const takeHook: S -> Memento<B>

    /** A new aggregate: empty identity, version 0, nothing pending. */
    constructor (handle: (View<S>, Event) -> View<S>, restoreHook: (S, Header, Memento<B>) -> S,
                 takeHook: S -> Memento<B>, initial: S)
      ensures id == EmptyGuid && version == 0 && pending == [] && state == initial
      ensures this.handle == handle && this.restoreHook == restoreHook && this.takeHook == takeHook
    {
      this.handle := handle;
      this.restoreHook := restoreHook;
      this.takeHook := takeHook;
      id := EmptyGuid;
      version := 0;
      pending := [];
      state := initial;
    }

    /** The part of the aggregate its handlers see and may assign. */
    function CurrentView(): (v: View<S>)
      reads this
      ensures v.id == id && v.state == state
    {
      View(id, state)
    }

    /**
      Dispatches `e` to its handler, which may assign the identity and the
      domain state; version and pending events are out of its reach.
     */
    method Raise(e: Event)
      modifies this`id, this`state
      ensures CurrentView() == handle(old(CurrentView()), e)
    {
      var v := handle(CurrentView(), e);
      id := v.id;
      state := v.state;
    }

    /**
      Hydrates from a memento: identity and version are taken from it
      first, so the hook that runs after them already sees the memento's
      header. The pending events are not touched.
     */
    method HydrateFromMemento(m: Memento<B>)
      modifies this
      ensures id == m.id && version == m.version
      ensures state == restoreHook(old(state), Header(m.id, m.version), m)
      ensures pending == old(pending)
    {
      id := m.id;
      version := m.version;
      state := restoreHook(state, Header(id, version), m);
    }

    /**
      Replays committed events: each one is raised in order and counted in
      the version. Nothing is added to the pending events.
     */
    method Hydrate(events: seq<Event>)
      modifies this
      ensures CurrentView() == Replay(handle, old(CurrentView()), events)
      ensures version == old(version) + |events|
      ensures pending == old(pending)
    {
      for i := 0 to |events|
        invariant CurrentView() == Replay(handle, old(CurrentView()), events[..i])
        invariant version == old(version) + i
        invariant pending == old(pending)
      {
        assert events[..i + 1][..i] == events[..i];
        Raise(events[i]);
        version := version + 1;
      }
      assert events[..|events|] == events;
    }

    /**
      Takes a snapshot: the hook's memento, with the current identity and
      version stamped on it. The aggregate is not changed.
     */
    method TakeSnapshot() returns (m: Memento<B>)
      ensures m.id == id && m.version == version
      ensures m.body == takeHook(state).body
    {
      m := takeHook(state);
      m := m.(id := id, version := version);
    }

    /**
      Hands over the pending events, oldest first, empties the buffer and
      counts them in the version.
     */
    method Flush() returns (flushed: seq<Event>)
      modifies this
      ensures flushed == old(pending) && pending == []
      ensures version == old(version) + |flushed|
      ensures state == old(state) && id == old(id)
    {
      flushed := pending;
      pending := [];
      version := version + |flushed|;
    }

    /**
      Applies a new event: the factory creates it from `iface` and the
      caller's action, it is raised at once, then appended to the pending
      events. The version does not change. When the factory cannot create
      it (`ok` is false, standing for the exception it throws), nothing is
      raised or recorded.
     */
    method Apply(factory: EventFactory, iface: Interface, action: seq<Assignment>) returns (ok: bool)
      requires factory.Valid()
      requires forall a :: a in action ==> a.property in PropertyNames(PropertiesOf(iface))
      modifies this, factory
      ensures factory.Valid()
      ensures CacheStep(old(factory.cache), old(factory.definedNames), iface, factory.cache, factory.definedNames)
      ensures ok <==> Creatable(old(factory.cache), old(factory.definedNames), iface)
      ensures ok ==> iface in factory.cache && Assignable(factory.cache[iface], action)
      ensures ok ==> pending == old(pending) + [RunAction(Uninitialized(factory.cache[iface]), action)]
      ensures ok ==> CurrentView() == handle(old(CurrentView()), pending[|pending| - 1])
      ensures ok && iface !in old(factory.cache) ==>
                fresh(factory.cache[iface]) && factory.cache == old(factory.cache)[iface := factory.cache[iface]]
      ensures !ok ==> pending == old(pending) && CurrentView() == old(CurrentView())
      ensures version == old(version)
    {
      var r := factory.CreateEvent(iface, action);
      if r.None? {
        return false;
      }
      Raise(r.value);
      pending := pending + [r.value];
      ok := true;
    }
  }
}
