/** The earlier MW4S variant (dist.py at the repository root).

    There are no message classes: a worker joins the source with `True`,
    leaves it with `False`, asks for a task with `None`, and the end of the
    work is a `StopIteration` instance, sent by the source both to workers
    asking for tasks and to the sink. The sink counts nothing, and a worker
    joins the source only. Sockets are modelled as in the current variant. */
module Mw4sLegacy {
  import opened Outcomes
  import Current = Mw4sSource
  import opened Mw4sMessages

  /** A Python object on the wire: `None`, a bool, a `StopIteration`
      instance, or any other object (a task or a result). */
  datatype Obj<T> = None | Bool(b: bool) | StopIter | Value(v: T)

  /** How a request moves the source's worker count. */
  function Step<T>(o: Obj<T>): int
    requires o.Bool?
  {
    if o.b then 1 else -1
  }

  /** The message of the current variant that plays the part of an object
      on the source's reply socket. */
  function Decode<T>(o: Obj<T>): (m: Msg<T>)
    ensures o.Bool? ==> IsMembership(m) && Delta(m) == Step(o)
  {
    match o
    case None => Null
    case Bool(b) => if b then WorkerJoin else WorkerExited
    case StopIter => NoMoreJobs
    case Value(v) => Payload(v)
  }

  /** The object the earlier variant sends where the current one sends a
      message: both of its end-of-work messages are a `StopIteration`. */
  function Encode<T>(m: Msg<T>): (o: Obj<T>)
    ensures o.StopIter? <==> m.NoMoreJobs? || m.SourceExited?
    ensures !m.SourceExited? ==> Decode(o) == m
  {
    match m
    case Null => None
    case WorkerJoin => Bool(true)
    case WorkerExited => Bool(false)
    case NoMoreJobs => StopIter
    case SourceExited => StopIter
    case Payload(v) => Value(v)
  }

  /** Every object of the source's socket corresponds to one message. */
  lemma EncodeDecode<T>(o: Obj<T>)
    ensures Encode(Decode(o)) == o
  {
  }

  function DecodeAll<T>(s: seq<Obj<T>>): (r: seq<Msg<T>>)
    ensures |r| == |s| && forall i :: 0 <= i < |s| ==> r[i] == Decode(s[i])
  {
    seq(|s|, i requires 0 <= i < |s| => Decode(s[i]))
  }

  function EncodeAll<T>(s: seq<Msg<T>>): (r: seq<Obj<T>>)
    ensures |r| == |s| && forall i :: 0 <= i < |s| ==> r[i] == Encode(s[i])
  {
    seq(|s|, i requires 0 <= i < |s| => Encode(s[i]))
  }

  function EncodeOutcome<T>(o: Outcome<Msg<T>>): Outcome<Obj<T>> {
    match o
    case Ok => Ok
    case ProtocolError(m) => ProtocolError(Encode(m))
    case Waiting => Waiting
    case SocketClosed => SocketClosed
    case ReplyOwed => ReplyOwed
  }

  /** Where one source call leaves the count, how many requests it took,
      the replies it sent and how it ended. */
  datatype Run<T> = Run(n: int, used: nat, replies: seq<Obj<T>>, outcome: Outcome<Obj<T>>)

  function After<T>(reply: Obj<T>, rest: Run<T>): Run<T> {
    rest.(used := rest.used + 1, replies := [reply] + rest.replies)
  }

  function Resumed<T>(k: nat, rs: seq<Obj<T>>, rest: Run<T>): Run<T> {
    rest.(used := k + rest.used, replies := rs + rest.replies)
  }

  lemma ResumedAfter<T>(k: nat, rs: seq<Obj<T>>, reply: Obj<T>, rest: Run<T>)
    ensures Resumed(k, rs, After(reply, rest)) == Resumed(k + 1, rs + [reply], rest)
  {
    assert rs + ([reply] + rest.replies) == (rs + [reply]) + rest.replies;
  }

  /** A run of the current variant, as the earlier one would send it. */
  function Lift<T>(r: Current.Run<T>): Run<T> {
    Run(r.n, r.used, EncodeAll(r.replies), EncodeOutcome(r.outcome))
  }

  /** The loop of `send(task)`: `True` and `False` are acknowledged and
      counted, `None` gets the task and ends the call, anything else is a
      protocol error that is not answered. */
  function Serve<T>(n: int, reqs: seq<Obj<T>>, task: T): (s: Run<T>)
    ensures s.used <= |reqs|
    decreases |reqs|
  {
    if reqs == [] then Run(n, 0, [], Waiting)
    else
      var o := reqs[0];
      if o.None? then Run(n, 1, [Value(task)], Ok)
      else if o.Bool? then After(None, Serve(n + Step(o), reqs[1..], task))
      else Run(n, 1, [], ProtocolError(o))
  }

  /** The drain loop of `close()`: while workers remain, `None` gets a
      `StopIteration`, bools are acknowledged and counted, anything else is
      a protocol error. */
  function Drain<T>(n: int, reqs: seq<Obj<T>>): (d: Run<T>)
    ensures d.used <= |reqs|
    decreases |reqs|
  {
    if n <= 0 then Run(n, 0, [], Ok)
    else if reqs == [] then Run(n, 0, [], Waiting)
    else
      var o := reqs[0];
      if o.None? then After(StopIter, Drain(n, reqs[1..]))
      else if o.Bool? then After(None, Drain(n + Step(o), reqs[1..]))
      else Run(n, 1, [], ProtocolError(o))
  }

  lemma LiftAfter<T>(reply: Msg<T>, rest: Current.Run<T>)
    ensures Lift(Current.After(reply, rest)) == After(Encode(reply), Lift(rest))
  {
    assert EncodeAll([reply] + rest.replies) == [Encode(reply)] + EncodeAll(rest.replies);
  }

  /** The earlier `send` does exactly what the current one does on the
      corresponding messages: same count, same requests taken, the same
      replies and the same outcome, written in the earlier encoding. */
  lemma {:induction false} ServeAgrees<T>(n: int, reqs: seq<Obj<T>>, task: T)
    ensures Serve(n, reqs, task) == Lift(Current.Serve(n, DecodeAll(reqs), task))
    decreases |reqs|
  {
    if reqs != [] {
      var o := reqs[0];
      EncodeDecode(o);
      if o.Bool? {
        assert DecodeAll(reqs)[1..] == DecodeAll(reqs[1..]);
        ServeAgrees(n + Step(o), reqs[1..], task);
        LiftAfter(Null, Current.Serve(n + Step(o), DecodeAll(reqs[1..]), task));
      } else if o.None? {
        assert EncodeAll<T>([Payload(task)]) == [Value(task)];
      } else {
        assert EncodeAll<T>([]) == [];
      }
    }
  }

  /** The earlier drain does exactly what the current one does, a
      `StopIteration` standing for `NoMoreJobs`. */
  lemma {:induction false} DrainAgrees<T>(n: int, reqs: seq<Obj<T>>)
    ensures Drain(n, reqs) == Lift(Current.Drain(n, DecodeAll(reqs)))
    decreases |reqs|
  {
    assert EncodeAll<T>([]) == [];
    if n > 0 && reqs != [] {
      var o := reqs[0];
      EncodeDecode(o);
      if o.None? || o.Bool? {
        var n' := if o.Bool? then n + Step(o) else n;
        assert DecodeAll(reqs)[1..] == DecodeAll(reqs[1..]);
        DrainAgrees(n', reqs[1..]);
        LiftAfter(Current.DrainReply(Decode(o)), Current.Drain(n', DecodeAll(reqs[1..])));
      }
    }
  }

  /** Hence the earlier drain also ends with the count at the `True`s
      minus the `False`s it took, and never hands out a task. */
  lemma DrainCountsBools<T>(n: int, reqs: seq<Obj<T>>)
    ensures var d := Drain(n, reqs);
      && d.n == n + Net(DecodeAll(reqs[..d.used]))
      && forall k :: 0 <= k < |d.replies| ==> !d.replies[k].Value?
  {
    DrainAgrees(n, reqs);
    var c := Current.Drain(n, DecodeAll(reqs));
    Current.DrainCount(n, DecodeAll(reqs));
    Current.DrainReplies(n, DecodeAll(reqs));
    assert DecodeAll(reqs)[..c.used] == DecodeAll(reqs[..c.used]);
  }

  /** What the earlier `next()` of a worker makes of the source's reply. */
  function TaskFrom<T>(reply: Obj<T>): (y: Yield<Obj<T>>)
    ensures y.Stop? <==> reply.StopIter?
    ensures y.Item? || y.Stop?
    ensures y.Item? ==> y.item == reply
  {
    if reply.StopIter? then Stop else Item(reply)
  }

  /** The outcome of a request whose reply must be `None`. */
  function Acked<T>(reply: Obj<T>): (o: Outcome<Obj<T>>)
    ensures o.Ok? || o.ProtocolError?
    ensures o.Ok? <==> reply.None?
    ensures o.ProtocolError? ==> o.culprit == reply
  {
    if reply.None? then Ok else ProtocolError(reply)
  }

  class Source<T> {
    var nworkers: int
    var inbox: seq<Obj<T>>    // requests still to arrive on the reply socket
    var replies: seq<Obj<T>>  // replies sent on the reply socket, oldest first
    var owesReply: bool       // a refused request is still unanswered on the reply socket
    var toSink: seq<Obj<T>>   // objects sent on the request socket to the sink
    var released: bool        // both sockets closed

    constructor (requests: seq<Obj<T>>)
      ensures nworkers == 0 && !released && !owesReply
      ensures inbox == requests && replies == [] && toSink == []
    {
      nworkers, released, owesReply := 0, false, false;
      inbox, replies, toSink := requests, [], [];
    }

    method Receive() returns (req: Obj<T>)
      requires inbox != []
      modifies this`inbox
      ensures req == old(inbox)[0] && inbox == old(inbox)[1..]
    {
      req := inbox[0];
      inbox := inbox[1..];
    }

    /** One turn of the `send` loop on a bool. */
    method Acknowledge(ghost task: T)
      requires inbox != [] && inbox[0].Bool?
      modifies this`nworkers, this`inbox, this`replies
      ensures inbox == old(inbox)[1..] && replies == old(replies) + [None]
      ensures Serve(old(nworkers), old(inbox), task) == After(None, Serve(nworkers, inbox, task))
    {
      var req := Receive();
      replies := replies + [None];
      nworkers := nworkers + (if req.b then 1 else -1);
    }

    /** The turn that ends the `send` loop; a refused request leaves the
        reply socket owing its reply. */
    method Answer(task: T) returns (o: Outcome<Obj<T>>)
      requires inbox != [] && !inbox[0].Bool? && !owesReply
      modifies this`inbox, this`replies, this`owesReply
      ensures var s := Serve(nworkers, old(inbox), task);
        && s.used == 1 && s.n == nworkers && o == s.outcome
        && inbox == old(inbox)[1..] && replies == old(replies) + s.replies
        && owesReply == o.ProtocolError?
    {
      var req := Receive();
      if req.None? {
        replies := replies + [Value(task)];
        return Ok;
      }
      owesReply := true;
      return ProtocolError(req);
    }

    /** The turns of the `send` loop that acknowledge bools. */
    method AcknowledgeBools(ghost task: T) returns (ghost k: nat, ghost rs: seq<Obj<T>>)
      modifies this`nworkers, this`inbox, this`replies
      ensures k <= |old(inbox)| && inbox == old(inbox)[k..] && replies == old(replies) + rs
      ensures inbox == [] || !inbox[0].Bool?
      ensures Serve(old(nworkers), old(inbox), task) == Resumed(k, rs, Serve(nworkers, inbox, task))
    {
      k, rs := 0, [];
      while inbox != [] && inbox[0].Bool?
        invariant k <= |old(inbox)| && inbox == old(inbox)[k..]
        invariant replies == old(replies) + rs
        invariant Serve(old(nworkers), old(inbox), task) == Resumed(k, rs, Serve(nworkers, inbox, task))
        decreases |inbox|
      {
        Acknowledge(task);
        ResumedAfter(k, rs, None, Serve(nworkers, inbox, task));
        rs, k := rs + [None], k + 1;
      }
    }

    /** The `while True` loop of `send(task)`: bools are acknowledged until
        some other request arrives. */
    method ServeTask(task: T) returns (o: Outcome<Obj<T>>)
      requires !owesReply
      modifies this`nworkers, this`inbox, this`replies, this`owesReply
      ensures var s := Serve(old(nworkers), old(inbox), task);
        && o == s.outcome && nworkers == s.n
        && inbox == old(inbox)[s.used..] && replies == old(replies) + s.replies
        && owesReply == o.ProtocolError?
    {
      ghost var k, rs := AcknowledgeBools(task);
      if inbox == [] {
        return Waiting;
      }
      ghost var last := Serve(nworkers, inbox, task);
      o := Answer(task);
      assert (old(replies) + rs) + last.replies == old(replies) + (rs + last.replies);
    }

    /** `send(task)`: hand the task to the first worker that asks for one;
        after a refused request every later `send` fails. */
    method Send(task: T) returns (o: Outcome<Obj<T>>)
      modifies this
      ensures released == old(released) && toSink == old(toSink)
      ensures old(released) ==> o == SocketClosed && unchanged(this)
      ensures !old(released) && old(owesReply) ==> o == ReplyOwed && unchanged(this)
      ensures !old(released) && !old(owesReply) ==>
        var s := Serve(old(nworkers), old(inbox), task);
        && o == s.outcome && nworkers == s.n
        && inbox == old(inbox)[s.used..] && replies == old(replies) + s.replies
        && owesReply == o.ProtocolError?
    {
      if released {
        return SocketClosed;
      }
      if owesReply {
        return ReplyOwed;
      }
      o := ServeTask(task);
    }

    /** One turn of the drain loop on `None` or a bool. */
    method DrainOne() returns (ghost reply: Obj<T>)
      requires nworkers > 0 && inbox != [] && (inbox[0].None? || inbox[0].Bool?)
      modifies this`nworkers, this`inbox, this`replies
      ensures inbox == old(inbox)[1..] && replies == old(replies) + [reply]
      ensures Drain(old(nworkers), old(inbox)) == After(reply, Drain(nworkers, inbox))
    {
      var req := Receive();
      if req.None? {
        replies := replies + [StopIter];
        reply := StopIter;
      } else {
        replies := replies + [None];
        nworkers := nworkers + (if req.b then 1 else -1);
        reply := None;
      }
    }

    /** The turns of the drain loop that answer a request. */
    method DrainTurns() returns (ghost k: nat, ghost rs: seq<Obj<T>>)
      modifies this`nworkers, this`inbox, this`replies
      ensures k <= |old(inbox)| && inbox == old(inbox)[k..] && replies == old(replies) + rs
      ensures !(nworkers > 0 && inbox != [] && (inbox[0].None? || inbox[0].Bool?))
      ensures Drain(old(nworkers), old(inbox)) == Resumed(k, rs, Drain(nworkers, inbox))
    {
      k, rs := 0, [];
      while nworkers > 0 && inbox != [] && (inbox[0].None? || inbox[0].Bool?)
        invariant k <= |old(inbox)| && inbox == old(inbox)[k..]
        invariant replies == old(replies) + rs
        invariant Drain(old(nworkers), old(inbox)) == Resumed(k, rs, Drain(nworkers, inbox))
        decreases |inbox|
      {
        var reply := DrainOne();
        ResumedAfter(k, rs, reply, Drain(nworkers, inbox));
        rs, k := rs + [reply], k + 1;
      }
    }

    /** The `while self.nworkers > 0` loop of `close()`. */
    method DrainWorkers() returns (o: Outcome<Obj<T>>)
      requires !owesReply || nworkers <= 0
      modifies this`nworkers, this`inbox, this`replies, this`owesReply
      ensures var d := Drain(old(nworkers), old(inbox));
        && o == d.outcome && nworkers == d.n
        && inbox == old(inbox)[d.used..] && replies == old(replies) + d.replies
        && owesReply == (old(owesReply) || o.ProtocolError?)
    {
      ghost var k, rs := DrainTurns();
      if nworkers <= 0 {
        o := Ok;
      } else if inbox == [] {
        o := Waiting;
      } else {
        var req := Receive();
        owesReply := true;
        o := ProtocolError(req);
      }
    }

    /** `close()`: drain the workers, tell the sink with a `StopIteration`,
        then release both sockets. There is no closed flag: once the
        sockets are released, a second call fails on them, and while a
        refused request is unanswered and workers are left, every call
        fails at the drain's first receive. */
    method Close(sinkReply: Obj<T>) returns (o: Outcome<Obj<T>>)
      modifies this
      ensures old(released) ==> o == SocketClosed && unchanged(this)
      ensures !old(released) && old(owesReply) && old(nworkers) > 0 ==> o == ReplyOwed && unchanged(this)
      ensures !old(released) && !(old(owesReply) && old(nworkers) > 0) ==>
        var d := Drain(old(nworkers), old(inbox));
        && nworkers == d.n
        && inbox == old(inbox)[d.used..] && replies == old(replies) + d.replies
        && owesReply == (old(owesReply) || d.outcome.ProtocolError?)
        && (d.outcome.Ok? ==>
              && toSink == old(toSink) + [StopIter]
              && o == Acked(sinkReply)
              && released == sinkReply.None?)
        && (!d.outcome.Ok? ==> toSink == old(toSink) && o == d.outcome && !released)
    {
      if released {
        return SocketClosed;
      }
      if owesReply && nworkers > 0 {
        return ReplyOwed;
      }
      o := DrainWorkers();
      if !o.Ok? {
        return;
      }
      toSink := toSink + [StopIter];
      o := Acked(sinkReply);
      if o.Ok? {
        released := true;
      }
    }
  }

  class Sink<T> {
    var inbox: seq<Obj<T>>    // objects still to arrive on the reply socket
    var replies: seq<Obj<T>>  // replies sent on the reply socket, oldest first
    var released: bool        // both sockets closed

    constructor (objects: seq<Obj<T>>)
      ensures inbox == objects && replies == [] && !released
    {
      inbox, replies, released := objects, [], false;
    }

    /** `next()`: take one object and acknowledge it; a `StopIteration`
        ends the sequence, anything else is returned unchanged. Nothing is
        remembered, so a later call takes the next object again. */
    method Next() returns (y: Yield<Obj<T>>)
      modifies this
      ensures released == old(released)
      ensures old(released) ==> y == Unusable && unchanged(this)
      ensures !old(released) && old(inbox) == [] ==> y == Starved && unchanged(this)
      ensures !old(released) && old(inbox) != [] ==>
        && inbox == old(inbox)[1..] && replies == old(replies) + [None]
        && y == (if old(inbox)[0].StopIter? then Stop else Item(old(inbox)[0]))
    {
      if released {
        return Unusable;
      }
      if inbox == [] {
        return Starved;
      }
      var result := inbox[0];
      inbox := inbox[1..];
      replies := replies + [None];
      if result.StopIter? {
        return Stop;
      }
      return Item(result);
    }

    /** `close()`: release both sockets; releasing them again does nothing.
        The grace period between the two is not modelled. */
    method Close()
      modifies this
      ensures released && inbox == old(inbox) && replies == old(replies)
    {
      released := true;
    }
  }

  class Worker<T> {
    var toSource: seq<Obj<T>>  // requests sent to the source, oldest first
    var toSink: seq<Obj<T>>    // results sent to the sink, oldest first

    constructor Init()
      ensures toSource == [] && toSink == []
    {
      toSource, toSink := [], [];
    }

    /** `__init__`: join the source with `True`; the sink is not told. */
    static method Join(sourceReply: Obj<T>) returns (w: Worker<T>, o: Outcome<Obj<T>>)
      ensures fresh(w) && w.toSource == [Bool(true)] && w.toSink == []
      ensures o == Acked(sourceReply)
    {
      w := new Worker.Init();
      w.toSource := w.toSource + [Bool(true)];
      o := Acked(sourceReply);
    }

    /** `next()`: ask the source for a task. */
    method Next(reply: Obj<T>) returns (y: Yield<Obj<T>>)
      modifies this`toSource
      ensures toSource == old(toSource) + [None]
      ensures y == TaskFrom(reply)
    {
      toSource := toSource + [None];
      y := TaskFrom(reply);
    }

    /** `send(result)`: submit a result to the sink. */
    method Send(result: T, reply: Obj<T>) returns (o: Outcome<Obj<T>>)
      modifies this`toSink
      ensures toSink == old(toSink) + [Value(result)]
      ensures o == Acked(reply)
    {
      toSink := toSink + [Value(result)];
      o := Acked(reply);
    }

    /** `close()`: leave the source with `False`. Nothing guards against a
        second call, which sends `False` again. */
    method Close(sourceReply: Obj<T>) returns (o: Outcome<Obj<T>>)
      modifies this`toSource
      ensures toSource == old(toSource) + [Bool(false)]
      ensures o == Acked(sourceReply)
    {
      toSource := toSource + [Bool(false)];
      o := Acked(sourceReply);
    }
  }

  /** With no closed flag, closing the earlier source twice fails: the
      first call releases the sockets and the second one uses them. */
  method SourceClosedTwice<T>() returns (first: Outcome<Obj<T>>, second: Outcome<Obj<T>>)
    ensures first == Ok && second == SocketClosed
  {
    var source := new Source<T>([]);
    first := source.Close(None);
    second := source.Close(None);
  }

  /** Closing an earlier worker twice tells the source twice that it left:
      the source, serving that traffic, counts minus one worker. */
  method WorkerClosedTwice<T>(task: T) returns (traffic: seq<Obj<T>>, outcome: Outcome<Obj<T>>, count: int)
    ensures traffic == [Bool(true), Bool(false), Bool(false)]
    ensures outcome == Waiting && count == -1
  {
    var worker, joined := Worker<T>.Join(None);
    var left := worker.Close(None);
    left := worker.Close(None);
    traffic := worker.toSource;
    var source := new Source<T>(traffic);
    assert Serve(0, traffic, task) == Run(-1, 3, [None, None, None], Waiting) by {
      assert traffic[1..] == [Bool(false), Bool(false)];
      assert traffic[1..][1..] == [Bool(false)];
      assert traffic[1..][1..][1..] == [];
      assert Serve(0, traffic[1..][1..], task) == Run(-1, 1, [None], Waiting);
      assert Serve(1, traffic[1..], task) == Run(-1, 2, [None, None], Waiting);
    }
    outcome := source.Send(task);
    count := source.nworkers;
  }

  /** A refused request strands the earlier source: the reply socket owes
      its reply, so neither `send` nor `close` can receive again while a
      worker is counted, and the sink is never told that the source left. */
  method RefusedRequestStrandsSource<T>(task: T, stray: T)
    returns (first: Outcome<Obj<T>>, second: Outcome<Obj<T>>, closing: Outcome<Obj<T>>,
             again: Outcome<Obj<T>>, told: seq<Obj<T>>)
    ensures first == ProtocolError(Value(stray))
    ensures second == ReplyOwed && closing == ReplyOwed && again == ReplyOwed
    ensures told == []
  {
    var requests := [Bool(true), Value(stray), None, Bool(false)];
    assert Serve(0, requests, task) == Run(1, 2, [None], ProtocolError(Value(stray))) by {
      assert requests[1..] == [Value(stray), None, Bool(false)];
    }
    var source := new Source<T>(requests);
    first := source.Send(task);
    second := source.Send(task);
    closing := source.Close(None);
    again := source.Close(None);
    told := source.toSink;
  }
}
