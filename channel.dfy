/** The channel `observeUntil` subscribes: every action dispatched to the store
    after subscription, kept in an expanding buffer. */
module Channel {
  import opened Sagas

  /** An action channel over an expanding buffer. The buffer grows instead of
      dropping, so every action received is eventually delivered, oldest first.
      `received` and `delivered` are the histories since subscription. */
  class ActionChannel<A> {
    var buffer: seq<A>
    ghost var received: seq<A>
    ghost var delivered: seq<A>

    /** Nothing is lost or reordered: what was delivered, followed by what is
        still pending, is exactly what was received. */
    ghost predicate Valid()
      reads this
    {
      received == delivered + buffer
    }

    /** Subscribes: a fresh channel with nothing pending. */
    constructor Subscribe()
      ensures Valid()
      ensures buffer == [] && received == [] && delivered == []
    {
      buffer := [];
      received := [];
      delivered := [];
    }

    /** Actions dispatched to the store join the end of the buffer, in order. */
    method Put(actions: seq<A>)
      requires Valid()
      modifies this
      ensures Valid()
      ensures buffer == old(buffer) + actions
      ensures received == old(received) + actions && delivered == old(delivered)
    {
      buffer := buffer + actions;
      received := received + actions;
    }

    /** `take(channel)`: removes and returns the oldest pending action. With
        nothing pending the take blocks, which the model reports as None. */
    method Take() returns (action: Option<A>)
      requires Valid()
      modifies this
      ensures Valid() && received == old(received)
      ensures old(buffer) == [] ==> action == None && buffer == [] && delivered == old(delivered)
      ensures old(buffer) != [] ==>
        && action == Some(old(buffer)[0])
        && buffer == old(buffer)[1..]
        && delivered == old(delivered) + [old(buffer)[0]]
    {
      if |buffer| == 0 {
        action := None;
      } else {
        action := Some(buffer[0]);
        delivered := delivered + [buffer[0]];
        buffer := buffer[1..];
      }
    }
  }
}
