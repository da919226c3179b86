/**
  The aggregate base class with a generic identity, an optional bucket and a
  generic memento type. `version` counts the events replayed into the
  aggregate plus those flushed from it; `pending` holds the events applied
  since the last flush, oldest first.
 */
module GenericAggregates {
  import opened Wrappers
  import opened EventShapes
  import opened EventFactories
  import opened EventStreams

  /** Identity, version and bucket of an aggregate, as a snapshot hook sees them. */
  datatype Header<TId> = Header(id: Option<TId>, version: int, bucketId: Option<string>)

  /** A snapshot: the header the base class stamps, over the body the aggregate's own hook fills. */
  datatype Memento<TId, B> = Memento(id: Option<TId>, version: int, bucketId: Option<string>, body: B)

  /**
    What an event handler sees of its aggregate and may assign: the identity
    and the bucket (whose setters are open to derived classes) and the
    domain state.
   */
  datatype View<TId, S> = View(id: Option<TId>, bucketId: Option<string>, state: S)

  /**
    The string form of an identity: empty for a null identity, otherwise
    the identity's own `ToString`, here `show`.
   */
  function ConvertToStringId<TId>(id: Option<TId>, show: TId -> string): (s: string)
    ensures id.None? ==> s == ""
    ensures id.Some? ==> s == show(id.value)
  {
    match id
    case None => ""
    case Some(v) => show(v)
  }

  /**
    An aggregate with domain state `S` and snapshot body `B`. Event dispatch
    is `handle`; the overridable snapshot hooks are `restoreHook` and
    `takeHook`.
   */
  class AggregateBaseGeneric<TId, S, B> {
    var id: Option<TId>
    var bucketId: Option<string>
    var version: int
    var pending: seq<Event>
    var state: S

    const handle: (View<TId, S>, Event) -> View<TId, S>
    const restoreHook: (S, Header<TId>, Memento<TId, B>) -> S
    const takeHook: S -> Memento<TId, B>
    /** The identity type's own `ToString`. */
    const show: TId -> string
    /** The aggregate's override of `ConvertToStringId`, if it has one. */
    const convertOverride: Option<Option<TId> -> string>
    /**
      The identity a new aggregate starts with, `default(TId)`: null for a
      reference type, the zero value (never null) for a value type.
     */
    const defaultId: Option<TId>

    /** A new aggregate: the default identity, no bucket, version 0, nothing pending. */
    constructor (handle: (View<TId, S>, Event) -> View<TId, S>, restoreHook: (S, Header<TId>, Memento<TId, B>) -> S,
                 takeHook: S -> Memento<TId, B>, show: TId -> string,
                 convertOverride: Option<Option<TId> -> string>, defaultId: Option<TId>, initial: S)
      ensures id == defaultId && bucketId == None && version == 0 && pending == [] && state == initial
      ensures this.handle == handle && this.restoreHook == restoreHook && this.takeHook == takeHook
      ensures this.show == show && this.convertOverride == convertOverride && this.defaultId == defaultId
    {
      this.handle := handle;
      this.restoreHook := restoreHook;
      this.takeHook := takeHook;
      this.show := show;
      this.convertOverride := convertOverride;
      this.defaultId := defaultId;
      id := defaultId;
      bucketId := None;
      version := 0;
      pending := [];
      state := initial;
    }

    function CurrentHeader(): Header<TId>
      reads this
    {
      Header(id, version, bucketId)
    }

    /**
      The identity as a string, through the aggregate's conversion: its
      override when it has one, the base conversion otherwise.
     */
    function StringId(): (s: string)
      reads this
      ensures convertOverride.Some? ==> s == convertOverride.value(id)
      ensures convertOverride.None? && id.None? ==> s == ""
      ensures convertOverride.None? && id.Some? ==> s == show(id.value)
    {
      match convertOverride
      case Some(convert) => convert(id)
      case None => ConvertToStringId(id, show)
    }

    /** The part of the aggregate its handlers see and may assign. */
    function CurrentView(): (v: View<TId, S>)
      reads this
      ensures v.id == id && v.bucketId == bucketId && v.state == state
    {
      View(id, bucketId, state)
    }

    /**
      Dispatches `e` to its handler, which may assign the identity, the
      bucket and the domain state; version and pending events are out of
      its reach.
     */
    method Raise(e: Event)
      modifies this`id, this`bucketId, this`state
      ensures CurrentView() == handle(old(CurrentView()), e)
    {
      var v := handle(CurrentView(), e);
      id := v.id;
      bucketId := v.bucketId;
      state := v.state;
    }

    /**
      Restores from a snapshot: the hook runs first, seeing the header as it
      was; then identity, version and bucket are overwritten with the
      memento's, whatever the hook did.
     */
    method RestoreSnapshot(m: Memento<TId, B>)
      modifies this
      ensures state == restoreHook(old(state), old(CurrentHeader()), m)
      ensures id == m.id && version == m.version && bucketId == m.bucketId
      ensures pending == old(pending)
    {
      state := restoreHook(state, CurrentHeader(), m);
      id := m.id;
      version := m.version;
      bucketId := m.bucketId;
    }

    /**
      Takes a snapshot: the hook's memento, with the current identity,
      version and bucket stamped on it. The aggregate is not changed.
     */
    method TakeSnapshot() returns (m: Memento<TId, B>)
      ensures m.id == id && m.version == version && m.bucketId == bucketId
      ensures m.body == takeHook(state).body
    {
      m := takeHook(state);
      m := m.(id := id, version := version, bucketId := bucketId);
    }

    /**
      Replays committed events: each one is raised in order and counted in
      the version. Nothing is added to the pending events.
     */
    method Hydrate(events: seq<Event>)
      modifies this
      ensures CurrentView() == Replay(handle, old(CurrentView()), events)
      ensures version == old(version) + |events|
      ensures pending == old(pending)
    {
      for i := 0 to |events|
        invariant CurrentView() == Replay(handle, old(CurrentView()), events[..i])
        invariant version == old(version) + i
        invariant pending == old(pending)
      {
        assert events[..i + 1][..i] == events[..i];
        Raise(events[i]);
        version := version + 1;
      }
      assert events[..|events|] == events;
    }

    /**
      Hands over the pending events, oldest first, empties the buffer and
      counts them in the version. With nothing pending it returns nothing
      and leaves the version as it is.
     */
    method Flush() returns (flushed: seq<Event>)
      modifies this
      ensures flushed == old(pending) && pending == []
      ensures version == old(version) + |flushed|
      ensures state == old(state) && id == old(id) && bucketId == old(bucketId)
    {
      flushed := pending;
      pending := [];
      version := version + |flushed|;
    }

    /**
      Applies a new event: the factory creates it from `iface` and the
      caller's action, it is raised at once, then appended to the pending
      events. The version does not change. When the factory cannot create
      it (`ok` is false, standing for the exception it throws), nothing is
      raised or recorded.
     */
    method Apply(factory: EventFactory, iface: Interface, action: seq<Assignment>) returns (ok: bool)
      requires factory.Valid()
      requires forall a :: a in action ==> a.property in PropertyNames(PropertiesOf(iface))
      modifies this, factory
      ensures factory.Valid()
      ensures CacheStep(old(factory.cache), old(factory.definedNames), iface, factory.cache, factory.definedNames)
      ensures ok <==> Creatable(old(factory.cache), old(factory.definedNames), iface)
      ensures ok ==> iface in factory.cache && Assignable(factory.cache[iface], action)
      ensures ok ==> pending == old(pending) + [RunAction(Uninitialized(factory.cache[iface]), action)]
      ensures ok ==> CurrentView() == handle(old(CurrentView()), pending[|pending| - 1])
      ensures ok && iface !in old(factory.cache) ==>
                fresh(factory.cache[iface]) && factory.cache == old(factory.cache)[iface := factory.cache[iface]]
      ensures !ok ==> pending == old(pending) && CurrentView() == old(CurrentView())
      ensures version == old(version)
    {
      var r := factory.CreateEvent(iface, action);
      if r.None? {
        return false;
      }
      Raise(r.value);
      pending := pending + [r.value];
      ok := true;
    }
  }
}
