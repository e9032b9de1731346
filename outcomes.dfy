/** Results shared by every endpoint of the MW4S protocol (both variants).

    An endpoint operation either completes (`Ok`), fails with the protocol
    error the source raises (`ProtocolError`, carrying the offending message),
    runs out of modelled input while the real socket would still be blocked in
    a receive (`Waiting`), touches a socket that was already closed, which
    the transport library refuses (`SocketClosed`), or receives on a reply
    socket that has not yet answered the request it received last, which
    the transport library refuses as well (`ReplyOwed`). */
module Outcomes {

  datatype Outcome<M> = Ok | ProtocolError(culprit: M) | Waiting | SocketClosed | ReplyOwed

  /** What an iterator-style `next` produces: an element, the end of the
      sequence (the source raises `StopIteration`), or one of the two
      non-completions above. */
  datatype Yield<M> = Item(item: M) | Stop | Starved | Unusable
}
