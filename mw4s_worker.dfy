/** The worker of the MW4S protocol (`Worker` in pypb/dist.py).

    A worker holds two request sockets, one to the source and one to the
    sink. Each is modelled by the log of what was sent on it; the peer's
    reply to a request is a parameter of the call that sends it. */
module Mw4sWorker {
  import opened Outcomes
  import opened Mw4sMessages

  /** What `next()` makes of the source's reply: the end of the tasks on
      `NoMoreJobs`, otherwise the reply itself, unchanged, as the task. */
  function TaskFrom<T>(reply: Msg<T>): (y: Yield<Msg<T>>)
    ensures y.Stop? || y.Item?
    ensures y.Stop? <==> reply.NoMoreJobs?
    ensures y.Item? ==> y.item == reply
  {
    if reply.NoMoreJobs? then Stop else Item(reply)
  }

  /** The outcome of a request whose reply must be the acknowledgement. */
  function Acked<T>(reply: Msg<T>): (o: Outcome<Msg<T>>)
    ensures o.Ok? || o.ProtocolError?
    ensures o.Ok? <==> reply.Null?
    ensures o.ProtocolError? ==> o.culprit == reply
  {
    if reply.Null? then Ok else ProtocolError(reply)
  }

  class Worker<T> {
    var closed: bool
    var toSource: seq<Msg<T>>  // requests sent to the source, oldest first
    var toSink: seq<Msg<T>>    // requests sent to the sink, oldest first

    /** What a joined worker has told its peers about its membership: it
        is counted once by the source until it closes, and once by the sink
        until it closes and the sink is told. */
    ghost predicate Valid()
      reads this
    {
      && Net(toSource) == (if closed then 0 else 1)
      && 0 <= Net(toSink) <= 1
      && (!closed ==> Net(toSink) == 1)
    }

    constructor Init()
      ensures !closed && toSource == [] && toSink == []
    {
      closed, toSource, toSink := false, [], [];
    }

    /** `__init__`: the join handshake. The worker sends a join to the
        source and, only if the source acknowledged it, a join to the sink;
        any other reply is a protocol error. */
    static method Join(sourceReply: Msg<T>, sinkReply: Msg<T>) returns (w: Worker<T>, o: Outcome<Msg<T>>)
      ensures fresh(w) && !w.closed && (o.Ok? ==> w.Valid())
      ensures w.toSource == [WorkerJoin]
      ensures w.toSink == (if sourceReply.Null? then [WorkerJoin] else [])
      ensures o == (if !sourceReply.Null? then ProtocolError(sourceReply) else Acked(sinkReply))
    {
      w := new Worker.Init();
      NetSnoc(w.toSource, WorkerJoin);
      w.toSource := w.toSource + [WorkerJoin];
      if !sourceReply.Null? {
        return w, ProtocolError(sourceReply);
      }
      NetSnoc(w.toSink, WorkerJoin);
      w.toSink := w.toSink + [WorkerJoin];
      o := Acked(sinkReply);
    }

    /** `next()`: ask the source for a task. */
    method Next(reply: Msg<T>) returns (y: Yield<Msg<T>>)
      requires Valid()
      modifies this`toSource
      ensures Valid()
      ensures toSource == old(toSource) + [Null]
      ensures y == TaskFrom(reply)
    {
      NetSnoc(toSource, Null);
      toSource := toSource + [Null];
      y := TaskFrom(reply);
    }

    /** `send(result)`: submit a result to the sink. */
    method Send(result: T, reply: Msg<T>) returns (o: Outcome<Msg<T>>)
      requires Valid()
      modifies this`toSink
      ensures Valid()
      ensures toSink == old(toSink) + [Payload(result)]
      ensures o == Acked(reply)
    {
      NetSnoc(toSink, Payload(result));
      toSink := toSink + [Payload(result)];
      o := Acked(reply);
    }

    /** `close()`: leave the source, then, if it acknowledged, the sink.
        The closed flag is set first, so a second call does nothing even
        when the first one failed partway. */
    method Close(sourceReply: Msg<T>, sinkReply: Msg<T>) returns (o: Outcome<Msg<T>>)
      requires Valid()
      modifies this
      ensures Valid() && closed
      ensures old(closed) ==> o == Ok && unchanged(this)
      ensures !old(closed) ==>
        && toSource == old(toSource) + [WorkerExited]
        && toSink == old(toSink) + (if sourceReply.Null? then [WorkerExited] else [])
        && o == (if !sourceReply.Null? then ProtocolError(sourceReply) else Acked(sinkReply))
    {
      if closed {
        return Ok;
      }
      NetSnoc(toSource, WorkerExited);
      NetSnoc(toSink, WorkerExited);
      closed, toSource := true, toSource + [WorkerExited];
      if !sourceReply.Null? {
        return ProtocolError(sourceReply);
      }
      toSink := toSink + [WorkerExited];
      o := Acked(sinkReply);
    }
  }
}
