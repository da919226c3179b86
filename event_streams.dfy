/**
  What raising a sequence of events does to an aggregate's domain state: each
  event, in order, passed through the aggregate's handler. Both aggregate
  base classes raise events through one handler, on replay and on apply.
 */
module EventStreams {
  import opened EventFactories

  /** The state reached from `s` by raising `events` in order through `handle`. */
  function Replay<S>(handle: (S, Event) -> S, s: S, events: seq<Event>): S
    decreases |events|
  {
    if events == [] then s
    else handle(Replay(handle, s, events[..|events| - 1]), events[|events| - 1])
  }

  /** Replaying one more event is raising it in the state replay reached. */
  lemma ReplaySnoc<S>(handle: (S, Event) -> S, s: S, events: seq<Event>, e: Event)
    ensures Replay(handle, s, events + [e]) == handle(Replay(handle, s, events), e)
  {
    assert (events + [e])[..|events|] == events;
  }

  /**
    Replaying a history in two parts, the second from where the first left
    off, is replaying all of it. This is what lets a snapshot stand for the
    events before it, and lets events applied one at a time be replayed in
    one batch.
   */
  lemma {:induction false} ReplayAppend<S>(handle: (S, Event) -> S, s: S, first: seq<Event>, second: seq<Event>)
    ensures Replay(handle, s, first + second) == Replay(handle, Replay(handle, s, first), second)
    decreases |second|
  {
    if second == [] {
      assert first + second == first;
    } else {
      var init := second[..|second| - 1];
      assert (first + second)[..|first + second| - 1] == first + init;
      ReplayAppend(handle, s, first, init);
    }
  }
}
