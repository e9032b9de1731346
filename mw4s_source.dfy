/** The job source of the MW4S protocol (`Source` in pypb/dist.py).

    The bound reply socket is modelled as `inbox`, the requests that will
    arrive on it in order, and `replies`, the log of what was sent back. The
    request socket to the sink is the log `toSink`; the sink's answer is a
    parameter of `Close`. */
module Mw4sSource {
  import opened Outcomes
  import opened Mw4sMessages

  /** What a receive loop of the source does to a stream of requests: the
      new worker count, how many requests it took, the replies it sent and
      how it ended. */
  datatype Run<T> = Run(n: int, used: nat, replies: seq<Msg<T>>, outcome: Outcome<Msg<T>>)

  /** A run that first answered one request with `reply`. */
  function After<T>(reply: Msg<T>, rest: Run<T>): Run<T> {
    rest.(used := rest.used + 1, replies := [reply] + rest.replies)
  }

  /** A run that first answered `k` requests with `rs`. */
  function Resumed<T>(k: nat, rs: seq<Msg<T>>, rest: Run<T>): Run<T> {
    rest.(used := k + rest.used, replies := rs + rest.replies)
  }

  lemma ResumedAfter<T>(k: nat, rs: seq<Msg<T>>, reply: Msg<T>, rest: Run<T>)
    ensures Resumed(k, rs, After(reply, rest)) == Resumed(k + 1, rs + [reply], rest)
  {
    assert rs + ([reply] + rest.replies) == (rs + [reply]) + rest.replies;
  }

  /** The `send(task)` loop over a stream of requests: joins and exits are
      acknowledged and counted; a task request gets the task and ends the
      loop; anything else is a protocol error and gets no reply. */
  function Serve<T>(n: int, reqs: seq<Msg<T>>, task: T): (s: Run<T>)
    ensures s.used <= |reqs|
    decreases |reqs|
  {
    if reqs == [] then Run(n, 0, [], Waiting)
    else
      var m := reqs[0];
      if m.Null? then Run(n, 1, [Payload(task)], Ok)
      else if IsMembership(m) then After(Null, Serve(n + Delta(m), reqs[1..], task))
      else Run(n, 1, [], ProtocolError(m))
  }

  /** The first task request, reached through joins and exits only, is
      answered with the task after one acknowledgement per join or exit;
      the count moves by the joins minus the exits, and nothing after the
      task request is consumed. */
  lemma {:induction false} ServeAnswersFirstTaskRequest<T>(n: int, reqs: seq<Msg<T>>, task: T, j: nat)
    requires j < |reqs| && reqs[j].Null?
    requires forall k :: 0 <= k < j ==> IsMembership(reqs[k])
    ensures Serve(n, reqs, task) ==
      Run(n + Joins(reqs[..j]) - Exits(reqs[..j]), j + 1, Acks(j) + [Payload(task)], Ok)
    decreases j
  {
    if j == 0 {
      assert reqs[..0] == [];
    } else {
      var m := reqs[0];
      ServeAnswersFirstTaskRequest(n + Delta(m), reqs[1..], task, j - 1);
      NetPrefix(reqs, j);
      AcksCons<T>(j - 1);
      assert [Null] + (Acks<T>(j - 1) + [Payload(task)]) == Acks<T>(j) + [Payload(task)];
    }
  }

  /** A request that is neither a task request, a join nor an exit ends
      `send` with a protocol error, after one acknowledgement per earlier
      join or exit and with no reply to itself. */
  lemma {:induction false} ServeRejectsUnknown<T>(n: int, reqs: seq<Msg<T>>, task: T, j: nat)
    requires j < |reqs| && !reqs[j].Null? && !IsMembership(reqs[j])
    requires forall k :: 0 <= k < j ==> IsMembership(reqs[k])
    ensures Serve(n, reqs, task) ==
      Run(n + Joins(reqs[..j]) - Exits(reqs[..j]), j + 1, Acks(j), ProtocolError(reqs[j]))
    decreases j
  {
    if j == 0 {
      assert reqs[..0] == [];
    } else {
      var m := reqs[0];
      ServeRejectsUnknown(n + Delta(m), reqs[1..], task, j - 1);
      NetPrefix(reqs, j);
      AcksCons<T>(j - 1);
    }
  }

  /** Joins and exits alone never end `send`: every one is acknowledged and
      counted, and the source is still waiting for a task request. */
  lemma {:induction false} ServeWaitsOnMembershipOnly<T>(n: int, reqs: seq<Msg<T>>, task: T)
    requires forall k :: 0 <= k < |reqs| ==> IsMembership(reqs[k])
    ensures Serve(n, reqs, task) ==
      Run(n + Joins(reqs) - Exits(reqs), |reqs|, Acks(|reqs|), Waiting)
    decreases |reqs|
  {
    if reqs == [] {
    } else {
      var m := reqs[0];
      ServeWaitsOnMembershipOnly(n + Delta(m), reqs[1..], task);
      NetPrefix(reqs, |reqs|);
      assert reqs[..|reqs|] == reqs && reqs[1..][..|reqs| - 1] == reqs[1..];
      AcksCons<T>(|reqs| - 1);
    }
  }

  /** The task is handed out at most once, as the very last reply, and only
      when `send` succeeds; every other reply is an acknowledgement. */
  lemma {:induction false} ServeHandsTaskOnce<T>(n: int, reqs: seq<Msg<T>>, task: T)
    ensures var s := Serve(n, reqs, task);
      && (forall k :: 0 <= k < |s.replies| - 1 ==> s.replies[k].Null?)
      && (s.outcome.Ok? <==> |s.replies| > 0 && s.replies[|s.replies| - 1] == Payload(task))
    decreases |reqs|
  {
    if reqs != [] && IsMembership(reqs[0]) {
      var m := reqs[0];
      ServeHandsTaskOnce(n + Delta(m), reqs[1..], task);
      var s, r := Serve(n, reqs, task), Serve(n + Delta(m), reqs[1..], task);
      assert s.replies == [Null] + r.replies;
      if |r.replies| > 0 {
        assert s.replies[|s.replies| - 1] == r.replies[|r.replies| - 1];
      }
    }
  }

  /** The count `send` leaves is the count before plus the joins minus
      the exits among the requests it took. */
  lemma {:induction false} ServeCount<T>(n: int, reqs: seq<Msg<T>>, task: T)
    ensures var s := Serve(n, reqs, task);
      s.n == n + Net(reqs[..s.used])
    decreases |reqs|
  {
    var s := Serve(n, reqs, task);
    if reqs == [] {
      assert reqs[..0] == [];
    } else if IsMembership(reqs[0]) {
      var m := reqs[0];
      ServeCount(n + Delta(m), reqs[1..], task);
      NetPrefix(reqs, s.used);
    } else {
      NetPrefix(reqs, 1);
      assert reqs[1..][..0] == [];
    }
  }

  /** The drain loop of `close()`: while workers remain, task requests are
      told there are no more jobs, joins and exits are acknowledged and
      counted, and anything else is a protocol error that is not answered. */
  function Drain<T>(n: int, reqs: seq<Msg<T>>): (d: Run<T>)
    ensures d.used <= |reqs|
    decreases |reqs|
  {
    if n <= 0 then Run(n, 0, [], Ok)
    else if reqs == [] then Run(n, 0, [], Waiting)
    else
      var m := reqs[0];
      if m.Null? then After(NoMoreJobs, Drain(n, reqs[1..]))
      else if IsMembership(m) then After(Null, Drain(n + Delta(m), reqs[1..]))
      else Run(n, 1, [], ProtocolError(m))
  }

  /** The reply the drain loop sends to a task request, a join or an exit. */
  function DrainReply<T>(m: Msg<T>): Msg<T> {
    if m.Null? then NoMoreJobs else Null
  }

  /** The drain ends normally exactly when the count has dropped to zero or
      below; with no workers left it consumes nothing at all. It stops early
      only for lack of input (every request taken) or on a protocol error
      (the last request taken, which is not answered). */
  lemma {:induction false} DrainEnds<T>(n: int, reqs: seq<Msg<T>>)
    ensures var d := Drain(n, reqs);
      && (d.outcome.Ok? <==> d.n <= 0)
      && (n <= 0 ==> d == Run(n, 0, [], Ok))
      && (d.outcome.Ok? || d.outcome.Waiting? || d.outcome.ProtocolError?)
      && (d.outcome.Waiting? ==> d.used == |reqs|)
      && (d.outcome.ProtocolError? ==>
            d.used > 0 && d.outcome.culprit == reqs[d.used - 1] &&
            !d.outcome.culprit.Null? && !IsMembership(d.outcome.culprit))
      && |d.replies| == (if d.outcome.ProtocolError? then d.used - 1 else d.used)
    decreases |reqs|
  {
    if n > 0 && reqs != [] {
      var m := reqs[0];
      if m.Null? || IsMembership(m) {
        DrainEnds(n + Delta(m), reqs[1..]);
      }
    }
  }

  /** Each reply of the drain loop answers the request at the same place,
      and that request is a task request, a join or an exit. */
  lemma {:induction false} DrainAnswersInOrder<T>(n: int, reqs: seq<Msg<T>>)
    ensures var d := Drain(n, reqs);
      && |d.replies| <= |reqs|
      && forall k :: 0 <= k < |d.replies| ==>
           (reqs[k].Null? || IsMembership(reqs[k])) && d.replies[k] == DrainReply(reqs[k])
    decreases |reqs|
  {
    var d := Drain(n, reqs);
    if n > 0 && reqs != [] && (reqs[0].Null? || IsMembership(reqs[0])) {
      var m := reqs[0];
      var r := Drain(n + Delta(m), reqs[1..]);
      DrainAnswersInOrder(n + Delta(m), reqs[1..]);
      assert d == After(DrainReply(m), r);
      forall k | 0 <= k < |d.replies|
        ensures (reqs[k].Null? || IsMembership(reqs[k])) && d.replies[k] == DrainReply(reqs[k])
      {
        if k > 0 {
          assert d.replies[k] == r.replies[k - 1];
          assert reqs[k] == reqs[1..][k - 1];
        }
      }
    } else {
      assert d.replies == [];
    }
  }

  /** While draining, task requests get `NoMoreJobs`, joins and exits get an
      acknowledgement, and no reply is ever a task. */
  lemma DrainReplies<T>(n: int, reqs: seq<Msg<T>>)
    ensures var d := Drain(n, reqs);
      forall k :: 0 <= k < |d.replies| ==>
        k < |reqs| &&
        (reqs[k].Null? ==> d.replies[k] == NoMoreJobs) &&
        (IsMembership(reqs[k]) ==> d.replies[k] == Null) &&
        (reqs[k].Null? || IsMembership(reqs[k])) &&
        !d.replies[k].Payload?
  {
    DrainAnswersInOrder(n, reqs);
  }

  /** The count after draining is the count before plus the joins minus the
      exits among the requests taken, and every request was taken while the
      count was still positive. */
  lemma {:induction false} DrainCount<T>(n: int, reqs: seq<Msg<T>>)
    ensures var d := Drain(n, reqs);
      && d.n == n + Joins(reqs[..d.used]) - Exits(reqs[..d.used])
      && forall k :: 0 <= k < d.used ==> n + Net(reqs[..k]) > 0
    decreases |reqs|
  {
    var d := Drain(n, reqs);
    if n <= 0 || reqs == [] {
      assert reqs[..0] == [];
    } else {
      var m := reqs[0];
      if m.Null? || IsMembership(m) {
        var r := Drain(n + Delta(m), reqs[1..]);
        DrainCount(n + Delta(m), reqs[1..]);
        NetPrefix(reqs, d.used);
        forall k | 0 <= k < d.used
          ensures n + Net(reqs[..k]) > 0
        {
          if k == 0 {
            assert reqs[..0] == [];
          } else {
            NetPrefix(reqs, k);
          }
        }
      } else {
        NetPrefix(reqs, 1);
        assert reqs[1..][..0] == [];
        assert reqs[..0] == [];
      }
    }
  }

  /** The source's count never goes negative as long as, counting from a
      fresh source, no worker has left more often than workers joined: the
      count starts from the requests received before (`history`), and
      neither `send` nor the drain of `close()` adds a floor of its own. */
  lemma CountStaysNonNegative<T>(history: seq<Msg<T>>, reqs: seq<Msg<T>>, task: T)
    requires NeverOverExited(history + reqs)
    ensures Serve(Net(history), reqs, task).n >= 0
    ensures Drain(Net(history), reqs).n >= 0
  {
    var s := Serve(Net(history), reqs, task);
    ServeCount(Net(history), reqs, task);
    NetAfterPrefix(history, reqs, s.used);
    var d := Drain(Net(history), reqs);
    DrainCount(Net(history), reqs);
    NetAfterPrefix(history, reqs, d.used);
  }

  class Source<T> {
    var nworkers: int
    var closed: bool
    var inbox: seq<Msg<T>>    // requests still to arrive on the reply socket
    var replies: seq<Msg<T>>  // replies sent on the reply socket, oldest first
    var owesReply: bool       // a refused request is still unanswered on the reply socket
    var toSink: seq<Msg<T>>   // messages sent on the request socket to the sink
    var released: bool        // both sockets closed

    /** The sockets are released only by a close. */
    ghost predicate Valid()
      reads this
    {
      released ==> closed
    }

    constructor (requests: seq<Msg<T>>)
      ensures Valid()
      ensures nworkers == 0 && !closed && !released && !owesReply
      ensures inbox == requests && replies == [] && toSink == []
    {
      nworkers, closed, released, owesReply := 0, false, false, false;
      inbox, replies, toSink := requests, [], [];
    }

    /** `recv_pyobj` on the reply socket: take the next request. */
    method Receive() returns (req: Msg<T>)
      requires inbox != []
      modifies this`inbox
      ensures req == old(inbox)[0] && inbox == old(inbox)[1..]
    {
      req := inbox[0];
      inbox := inbox[1..];
    }

    /** One turn of the `send` loop on a join or an exit. */
    method Acknowledge(ghost task: T)
      requires inbox != [] && IsMembership(inbox[0])
      modifies this`nworkers, this`inbox, this`replies
      ensures inbox == old(inbox)[1..] && replies == old(replies) + [Null]
      ensures Serve(old(nworkers), old(inbox), task) == After(Null, Serve(nworkers, inbox, task))
    {
      var req := Receive();
      replies := replies + [Null];
      if req.WorkerJoin? {
        nworkers := nworkers + 1;
      } else {
        nworkers := nworkers - 1;
      }
    }

    /** The turn that ends the `send` loop: a task request gets the task,
        anything else other than a join or an exit is refused unanswered,
        and the reply socket then still owes its reply. */
    method Answer(task: T) returns (o: Outcome<Msg<T>>)
      requires inbox != [] && !IsMembership(inbox[0]) && !owesReply
      modifies this`inbox, this`replies, this`owesReply
      ensures var s := Serve(nworkers, old(inbox), task);
        && s.used == 1 && s.n == nworkers && o == s.outcome
        && inbox == old(inbox)[1..] && replies == old(replies) + s.replies
        && owesReply == o.ProtocolError?
    {
      var req := Receive();
      if req.Null? {
        replies := replies + [Payload(task)];
        return Ok;
      }
      owesReply := true;
      return ProtocolError(req);
    }

    /** The turns of the `send` loop that acknowledge joins and exits. */
    method AcknowledgeMembership(ghost task: T) returns (ghost k: nat, ghost rs: seq<Msg<T>>)
      modifies this`nworkers, this`inbox, this`replies
      ensures k <= |old(inbox)| && inbox == old(inbox)[k..] && replies == old(replies) + rs
      ensures inbox == [] || !IsMembership(inbox[0])
      ensures Serve(old(nworkers), old(inbox), task) == Resumed(k, rs, Serve(nworkers, inbox, task))
    {
      k, rs := 0, [];
      while inbox != [] && IsMembership(inbox[0])
        invariant k <= |old(inbox)| && inbox == old(inbox)[k..]
        invariant replies == old(replies) + rs
        invariant Serve(old(nworkers), old(inbox), task) == Resumed(k, rs, Serve(nworkers, inbox, task))
        decreases |inbox|
      {
        Acknowledge(task);
        ResumedAfter(k, rs, Null, Serve(nworkers, inbox, task));
        rs, k := rs + [Null], k + 1;
      }
    }

    /** The `while True` loop of `send(task)`: joins and exits are
        acknowledged until some other request arrives. */
    method ServeTask(task: T) returns (o: Outcome<Msg<T>>)
      requires !owesReply
      modifies this`nworkers, this`inbox, this`replies, this`owesReply
      ensures var s := Serve(old(nworkers), old(inbox), task);
        && o == s.outcome && nworkers == s.n
        && inbox == old(inbox)[s.used..] && replies == old(replies) + s.replies
        && owesReply == o.ProtocolError?
    {
      ghost var k, rs := AcknowledgeMembership(task);
      if inbox == [] {
        return Waiting;
      }
      ghost var last := Serve(nworkers, inbox, task);
      o := Answer(task);
      assert (old(replies) + rs) + last.replies == old(replies) + (rs + last.replies);
    }

    /** `send(task)`: hand the task to the first worker that asks for one.
        Once a request has been refused, the reply socket refuses to
        receive again until it has replied, so every later `send` fails. */
    method Send(task: T) returns (o: Outcome<Msg<T>>)
      requires Valid()
      modifies this
      ensures Valid()
      ensures closed == old(closed) && released == old(released) && toSink == old(toSink)
      ensures old(released) ==> o == SocketClosed && unchanged(this)
      ensures !old(released) && old(owesReply) ==> o == ReplyOwed && unchanged(this)
      ensures !old(released) && !old(owesReply) ==>
        var s := Serve(old(nworkers), old(inbox), task);
        && o == s.outcome && nworkers == s.n
        && inbox == old(inbox)[s.used..] && replies == old(replies) + s.replies
        && owesReply == o.ProtocolError?
    {
      if released {
        return SocketClosed;
      }
      if owesReply {
        return ReplyOwed;
      }
      o := ServeTask(task);
    }

    /** One turn of the drain loop on a task request, a join or an exit. */
    method DrainOne() returns (ghost reply: Msg<T>)
      requires nworkers > 0 && inbox != []
      requires inbox[0].Null? || IsMembership(inbox[0])
      modifies this`nworkers, this`inbox, this`replies
      ensures inbox == old(inbox)[1..] && replies == old(replies) + [reply]
      ensures Drain(old(nworkers), old(inbox)) == After(reply, Drain(nworkers, inbox))
    {
      var req := Receive();
      if req.Null? {
        replies := replies + [NoMoreJobs];
        reply := NoMoreJobs;
      } else if req.WorkerJoin? {
        replies := replies + [Null];
        nworkers := nworkers + 1;
        reply := Null;
      } else {
        replies := replies + [Null];
        nworkers := nworkers - 1;
        reply := Null;
      }
    }

    /** The turns of the drain loop that answer a request. */
    method DrainTurns() returns (ghost k: nat, ghost rs: seq<Msg<T>>)
      modifies this`nworkers, this`inbox, this`replies
      ensures k <= |old(inbox)| && inbox == old(inbox)[k..] && replies == old(replies) + rs
      ensures !(nworkers > 0 && inbox != [] && (inbox[0].Null? || IsMembership(inbox[0])))
      ensures Drain(old(nworkers), old(inbox)) == Resumed(k, rs, Drain(nworkers, inbox))
    {
      k, rs := 0, [];
      while nworkers > 0 && inbox != [] && (inbox[0].Null? || IsMembership(inbox[0]))
        invariant k <= |old(inbox)| && inbox == old(inbox)[k..]
        invariant replies == old(replies) + rs
        invariant Drain(old(nworkers), old(inbox)) == Resumed(k, rs, Drain(nworkers, inbox))
        decreases |inbox|
      {
        var reply := DrainOne();
        ResumedAfter(k, rs, reply, Drain(nworkers, inbox));
        rs, k := rs + [reply], k + 1;
      }
    }

    /** The `while nworkers > 0` loop of `close()`: it runs until the count
        reaches zero, the input runs out or a request is refused. A refused
        request leaves the reply socket owing its reply. */
    method DrainWorkers() returns (o: Outcome<Msg<T>>)
      requires !owesReply || nworkers <= 0
      modifies this`nworkers, this`inbox, this`replies, this`owesReply
      ensures var d := Drain(old(nworkers), old(inbox));
        && o == d.outcome && nworkers == d.n
        && inbox == old(inbox)[d.used..] && replies == old(replies) + d.replies
        && owesReply == (old(owesReply) || o.ProtocolError?)
    {
      ghost var k, rs := DrainTurns();
      if nworkers <= 0 {
        o := Ok;
      } else if inbox == [] {
        o := Waiting;
      } else {
        var req := Receive();
        owesReply := true;
        o := ProtocolError(req);
      }
    }

    /** `close()`: drain the workers, then tell the sink the source exited.
        The closed flag is set before anything else, so a second call does
        nothing even when the first one failed partway. With workers left
        and a refused request still unanswered, the first receive of the
        drain fails: the sink is never told and the sockets stay open. */
    method Close(sinkReply: Msg<T>) returns (o: Outcome<Msg<T>>)
      requires Valid()
      modifies this
      ensures Valid()
      ensures old(closed) ==> o == Ok && unchanged(this)
      ensures !old(closed) && old(owesReply) && old(nworkers) > 0 ==>
        && closed && o == ReplyOwed && !released && owesReply
        && nworkers == old(nworkers) && inbox == old(inbox)
        && replies == old(replies) && toSink == old(toSink)
      ensures !old(closed) && !(old(owesReply) && old(nworkers) > 0) ==>
        var d := Drain(old(nworkers), old(inbox));
        && closed && nworkers == d.n
        && inbox == old(inbox)[d.used..] && replies == old(replies) + d.replies
        && owesReply == (old(owesReply) || d.outcome.ProtocolError?)
        && (d.outcome.Ok? ==>
              && toSink == old(toSink) + [SourceExited]
              && o == (if sinkReply.Null? then Ok else ProtocolError(sinkReply))
              && released == sinkReply.Null?)
        && (!d.outcome.Ok? ==> toSink == old(toSink) && o == d.outcome && !released)
    {
      if closed {
        return Ok;
      }
      closed := true;
      if owesReply && nworkers > 0 {
        return ReplyOwed;
      }
      o := DrainWorkers();
      if !o.Ok? {
        return;
      }
      toSink := toSink + [SourceExited];
      if !sinkReply.Null? {
        return ProtocolError(sinkReply);
      }
      released := true;
    }
  }
}
