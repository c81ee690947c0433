/** Sending one event without blocking: the step that `Protocol.Deliver` takes outside the lock. */
module Delivery {
  import opened Events
  import opened Protocol
  import opened ProtocolTheorems
  import opened Wrappers

  class Sink {
    const setup: Setup
    var channels: Channels
    var eventsProcessed: nat
    var eventsDropped: nat
    var eventsLost: nat

    constructor (setup: Setup)
      ensures this.setup == setup && channels == Channels(NO_EVENTS, NO_EVENTS)
      ensures eventsProcessed == eventsDropped == eventsLost == 0
    {
      this.setup := setup;
      channels, eventsProcessed, eventsDropped, eventsLost := Channels(NO_EVENTS, NO_EVENTS), 0, 0, 0;
    }

    /** Channels and counters are those of a protocol state. */
    ghost predicate Coupled(s: State)
      reads this
    {
      && s.channels == channels
      && s.processed == eventsProcessed && s.dropped == eventsDropped && s.lost == eventsLost
    }

    /** The event goes to the first channel with room, else it is lost; exactly one counter moves. */
    method SendToChannel(event: WatchEvent)
      modifies this
      ensures var (after, outcome) := Send(setup, old(channels), event);
        && channels == after
        && eventsProcessed == old(eventsProcessed) + (if outcome == Processed then 1 else 0)
        && eventsDropped == old(eventsDropped) + (if outcome == Dropped then 1 else 0)
        && eventsLost == old(eventsLost) + (if outcome == Lost then 1 else 0)
      ensures forall s: State, id: nat {:trigger DeliverStep(setup, s, id)} ::
        old(Coupled(s)) && id in s.inflight && id < |s.taken| && s.taken[id].event == event ==>
          Coupled(DeliverStep(setup, s, id)) && Deliver(setup, s, DeliverStep(setup, s, id), id)
      ensures eventsProcessed + eventsDropped + eventsLost == old(eventsProcessed + eventsDropped + eventsLost) + 1
      ensures var a, b := old(channels).events, old(channels).dropped;
        if a.receivers > 0 || |a.buffer| < setup.eventsCap then
          && eventsProcessed == old(eventsProcessed) + 1 && channels.dropped == b
          && channels.events == (if a.receivers > 0 then Channel(a.buffer, a.receivers - 1)
                                 else Channel(a.buffer + [event], 0))
        else if b.receivers > 0 || |b.buffer| < setup.droppedCap then
          && eventsDropped == old(eventsDropped) + 1 && channels.events == a
          && channels.dropped == (if b.receivers > 0 then Channel(b.buffer, b.receivers - 1)
                                  else Channel(b.buffer + [event], 0))
        else
          eventsLost == old(eventsLost) + 1 && channels == Channels(a, b)
    {
      var first := Offer(setup.eventsCap, channels.events, event);
      if first.Some? {
        channels := channels.(events := first.value);
        eventsProcessed := eventsProcessed + 1;
        return;
      }
      var second := Offer(setup.droppedCap, channels.dropped, event);
      if second.Some? {
        channels := channels.(dropped := second.value);
        eventsDropped := eventsDropped + 1;
      } else {
        eventsLost := eventsLost + 1;
      }
    }
  }
}
