/** How the three MW4S endpoints fit together (pypb/dist.py): what a
    worker makes of the source's replies, and one complete run of the
    protocol with a single worker, driven in one sequential order. */
module Mw4sSession {
  import opened Outcomes
  import opened Mw4sMessages
  import opened Mw4sSource
  import opened Mw4sSink
  import opened Mw4sWorker

  /** Once the source is closing, a worker's `next()` ends the tasks for
      every task request answered by the drain: no task is ever handed out. */
  lemma NextStopsWhileDraining<T>(n: int, reqs: seq<Msg<T>>)
    ensures var d := Drain(n, reqs);
      forall k :: 0 <= k < |d.replies| ==> k < |reqs| && (reqs[k].Null? ==> TaskFrom(d.replies[k]) == Stop)
  {
    DrainEnds(n, reqs);
    DrainReplies(n, reqs);
    var d := Drain(n, reqs);
    forall k | 0 <= k < |d.replies|
      ensures k < |reqs| && (reqs[k].Null? ==> TaskFrom(d.replies[k]) == Stop)
    {
      assert reqs[k].Null? ==> d.replies[k] == NoMoreJobs;
    }
  }

  /** The task of one `send(task)` reaches exactly one `next()` call: the
      one whose request the source answered last, and only when the send
      completed. Every other request of the send got an acknowledgement. */
  lemma TaskReachesOneWorker<T>(n: int, reqs: seq<Msg<T>>, task: T)
    ensures var s := Serve(n, reqs, task);
      forall k :: 0 <= k < |s.replies| ==>
        (TaskFrom(s.replies[k]) == Item(Payload(task)) <==> s.outcome.Ok? && k == |s.replies| - 1)
  {
    ServeHandsTaskOnce(n, reqs, task);
  }

  /** The source's side of the run: the join is acknowledged, the task
      request gets the task, and closing drains the one exit. */
  lemma SourceSideOfRun<T>(job: T)
    ensures Serve(0, [WorkerJoin, Null, WorkerExited], job) == Run(1, 2, [Null, Payload(job)], Ok)
    ensures Drain<T>(1, [WorkerExited]) == Run(0, 1, [Null], Ok)
  {
    var rest: seq<Msg<T>> := [Null, WorkerExited];
    assert [WorkerJoin, Null, WorkerExited][1..] == rest;
    var exit: seq<Msg<T>> := [WorkerExited];
    assert exit[1..] == [];
  }

  /** The sink's side of the run: the join and the result come first, then
      the exit and the source's exit end the sequence. */
  lemma SinkSideOfRun<T>(result: T)
    ensures Collect(0, false, [WorkerJoin, Payload(result), WorkerExited, SourceExited]) ==
      Pull(1, false, 2, Item(Payload(result)))
    ensures Collect<T>(1, false, [WorkerExited, SourceExited]) == Pull(0, true, 2, Stop)
  {
    var all: seq<Msg<T>> := [WorkerJoin, Payload(result), WorkerExited, SourceExited];
    assert all[1..] == [Payload(result), WorkerExited, SourceExited];
    var tail: seq<Msg<T>> := [WorkerExited, SourceExited];
    assert tail[1..] == [SourceExited];
    assert tail[1..][1..] == [];
  }

  /** The worker's and the source's side of a run with one worker: the
      worker joins, takes the task, submits one result and leaves, and the
      source then closes. The worker's requests are exactly the ones the
      source was given, in this order, and the source reads all of them;
      `toSink` is what the worker and then the source sent to the sink. */
  method WorkerAndSourceRun<T>(job: T, result: T)
    returns (task: Yield<Msg<T>>, count: int, closing: Outcome<Msg<T>>,
             sourceHeard: seq<Msg<T>>, toSink: seq<Msg<T>>, unread: nat)
    ensures task == Item(Payload(job))
    ensures count == 1
    ensures closing == Ok
    ensures sourceHeard == [WorkerJoin, Null, WorkerExited]
    ensures toSink == [WorkerJoin, Payload(result), WorkerExited, SourceExited]
    ensures unread == 0
  {
    SourceSideOfRun(job);
    var source := new Source<T>([WorkerJoin, Null, WorkerExited]);

    // The source's `send` loop answers the join and the task request; the
    // worker reads those replies. The sink's answers are `None`.
    var sent := source.Send(job);
    assert sent == Ok && source.replies == [Null, Payload(job)];
    var worker, joined := Worker<T>.Join(source.replies[0], Null);
    task := worker.Next(source.replies[1]);
    var submitted := worker.Send(result, Null);
    count := source.nworkers;

    // The drain of `close()` answers the worker's exit.
    closing := source.Close(Null);
    assert |source.replies| == 3 && source.replies[2] == Null;
    var left := worker.Close(source.replies[2], Null);
    sourceHeard := worker.toSource;
    toSink := worker.toSink + source.toSink;
    unread := |source.inbox|;
  }

  /** The sink's side of the same run, given what the worker and the source
      sent it: the result is delivered while one worker is counted, and the
      next call stops after reading every message. */
  method SinkRun<T>(heard: seq<Msg<T>>, result: T)
    returns (delivered: Yield<Msg<T>>, count: int, last: Yield<Msg<T>>, unread: nat)
    requires heard == [WorkerJoin, Payload(result), WorkerExited, SourceExited]
    ensures delivered == Item(Payload(result))
    ensures count == 1
    ensures last == Stop
    ensures unread == 0
  {
    SinkSideOfRun(result);
    var sink := new Sink<T>(heard);
    delivered := sink.Next();
    count := sink.nworkers;
    last := sink.Next();
    sink.Close();
    unread := |sink.inbox|;
  }

  /** One worker joins, takes one task and returns one result, then leaves;
      the source then closes and the sink's sequence ends. The sink is
      given exactly what the worker and the source sent it; both reply
      sockets read every message. */
  method OneWorkerRun<T>(job: T, result: T)
    returns (task: Yield<Msg<T>>, delivered: Yield<Msg<T>>, counts: (int, int),
             closing: Outcome<Msg<T>>, last: Yield<Msg<T>>,
             sourceHeard: seq<Msg<T>>, sinkHeard: seq<Msg<T>>, unread: (nat, nat))
    ensures task == Item(Payload(job))
    ensures delivered == Item(Payload(result))
    ensures counts == (1, 1)
    ensures closing == Ok
    ensures last == Stop
    ensures sourceHeard == [WorkerJoin, Null, WorkerExited]
    ensures sinkHeard == [WorkerJoin, Payload(result), WorkerExited, SourceExited]
    ensures unread == (0, 0)
  {
    var sourceCount, sinkCount, sourceUnread, sinkUnread;
    task, sourceCount, closing, sourceHeard, sinkHeard, sourceUnread := WorkerAndSourceRun(job, result);
    delivered, sinkCount, last, sinkUnread := SinkRun(sinkHeard, result);
    counts, unread := (sourceCount, sinkCount), (sourceUnread, sinkUnread);
  }

  /** With no worker counted, a refused request strands nothing: `close()`
      has no worker to drain, so it never receives on the reply socket,
      tells the sink the source has exited and releases the sockets. */
  method RefusedRequestWithoutWorkers<T>(task: T, stray: T)
    returns (first: Outcome<Msg<T>>, closing: Outcome<Msg<T>>, told: seq<Msg<T>>, released: bool)
    ensures first == ProtocolError(Payload(stray))
    ensures closing == Ok && told == [SourceExited] && released
  {
    var requests: seq<Msg<T>> := [Payload(stray)];
    var source := new Source<T>(requests);
    first := source.Send(task);
    closing := source.Close(Null);
    told, released := source.toSink, source.released;
  }

  /** A worker that sends something other than a membership message or a
      task request makes `send` raise; the reply socket still owes that
      request its reply, so the next `send` and the `close()` that would
      drain the workers are refused by the socket, the sink never hears of
      the source's exit, and a second `close()` returns at once. */
  method RefusedRequestStrandsSource<T>(task: T, stray: T)
    returns (first: Outcome<Msg<T>>, second: Outcome<Msg<T>>, closing: Outcome<Msg<T>>,
             again: Outcome<Msg<T>>, told: seq<Msg<T>>)
    ensures first == ProtocolError(Payload(stray))
    ensures second == ReplyOwed && closing == ReplyOwed && again == Ok
    ensures told == []
  {
    var requests: seq<Msg<T>> := [WorkerJoin, Payload(stray), Null, WorkerExited];
    assert Serve(0, requests, task) == Run(1, 2, [Null], ProtocolError(Payload(stray))) by {
      assert requests[1..] == [Payload(stray), Null, WorkerExited];
    }
    var source := new Source<T>(requests);
    first := source.Send(task);
    second := source.Send(task);
    closing := source.Close(Null);
    again := source.Close(Null);
    told := source.toSink;
  }
}
