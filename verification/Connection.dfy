/** What the connections of version 3.0 ask epoll for (version3.0/net/HttpData.cpp), and the state that decides it. */
module Connection {
  datatype ConnectionState = Connected | Disconnecting | Disconnected

  /** EPOLLIN, EPOLLOUT, EPOLLET and EPOLLONESHOT in an event mask. */
  datatype Events = Events(input: bool, output: bool, edge: bool, oneShot: bool)

  const NO_EVENTS: Events := Events(false, false, false, false)
  const DEFAULT_EVENT: Events := Events(true, false, true, true)

  /** What handleConn decides: go on watching the connection, only set its mask, or close it. */
  datatype Conclusion = Watch(events: Events) | SetOnly(events: Events) | Close

  function Conclude(error: bool, state: ConnectionState, events: Events): Conclusion {
    if !error && state == Connected then
      Watch(if events == NO_EVENTS then Events(true, false, true, false)
            else if events.input && events.output then Events(false, true, true, false)
            else events.(edge := true))
    else if !error && state == Disconnecting && events.output then SetOnly(Events(false, true, true, false))
    else Close
  }

  /**
   When it closes, when it only sets the mask, and what is then asked for. A connection that is up asks for output or
   for input, never both, and for output exactly when a handler has requested it.
   */
  lemma ConcludeMeans(error: bool, state: ConnectionState, events: Events)
    ensures Conclude(error, state, events) == Close
            <==> error || state == Disconnected || (state == Disconnecting && !events.output)
    ensures Conclude(error, state, events).Watch? <==> !error && state == Connected
    ensures match Conclude(error, state, events)
            case Watch(mask) =>
              mask.edge
              && (!events.edge && !events.oneShot ==>
                    mask.output == events.output && mask.input == !events.output && !mask.oneShot)
            case SetOnly(mask) => !mask.input && mask.output && mask.edge && !mask.oneShot
            case Close => true
  {
  }
}
