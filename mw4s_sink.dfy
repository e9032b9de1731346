/** The result sink of the MW4S protocol (`Sink` in pypb/dist.py).

    The bound reply socket is `inbox`, the messages that will arrive on it
    in order, and `replies`, the log of what was sent back. `Next` is one
    call of the iterator's `next()`. */
module Mw4sSink {
  import opened Outcomes
  import opened Mw4sMessages

  /** Where one `next()` call leaves the sink: its worker count and
      source-closed flag, how many messages it took, and what it produced. */
  datatype Pull<T> = Pull(n: int, sourceClosed: bool, used: nat, result: Yield<Msg<T>>)

  /** True when the loop check of `next()` fails: the source has exited and
      no worker is left. */
  predicate Exhausted(n: int, sourceClosed: bool) {
    sourceClosed && n <= 0
  }

  /** A pull that first consumed one control message. */
  function Consumed<T>(rest: Pull<T>): Pull<T> {
    rest.(used := rest.used + 1)
  }

  /** The loop of `next()` over a stream of messages: while the sink is not
      exhausted, every message is taken (and acknowledged); joins, exits and
      the source's exit update the state, anything else is returned. */
  function Collect<T>(n: int, sourceClosed: bool, msgs: seq<Msg<T>>): (c: Pull<T>)
    ensures c.used <= |msgs|
    ensures c.result.Item? ==> c.used > 0
    decreases |msgs|
  {
    if Exhausted(n, sourceClosed) then Pull(n, sourceClosed, 0, Stop)
    else if msgs == [] then Pull(n, sourceClosed, 0, Starved)
    else
      var m := msgs[0];
      if IsSinkControl(m) then Consumed(Collect(n + Delta(m), sourceClosed || m.SourceExited?, msgs[1..]))
      else Pull(n, sourceClosed, 1, Item(m))
  }

  /** `next()` ends the sequence exactly when the sink is exhausted at a
      loop check; what it returns is the last message it took, unchanged,
      and never a join, an exit or the source's exit; it runs out of input
      only after taking all of it; and the source-closed flag never reverts. */
  lemma {:induction false} CollectResult<T>(n: int, sourceClosed: bool, msgs: seq<Msg<T>>)
    ensures var c := Collect(n, sourceClosed, msgs);
      && (c.result.Stop? <==> Exhausted(c.n, c.sourceClosed))
      && (c.result.Item? || c.result.Stop? || c.result.Starved?)
      && (c.result.Item? ==> c.result.item == msgs[c.used - 1] && !IsSinkControl(c.result.item))
      && (c.result.Starved? ==> c.used == |msgs|)
      && (sourceClosed ==> c.sourceClosed)
    decreases |msgs|
  {
    if !Exhausted(n, sourceClosed) && msgs != [] && IsSinkControl(msgs[0]) {
      var m := msgs[0];
      CollectResult(n + Delta(m), sourceClosed || m.SourceExited?, msgs[1..]);
    }
  }

  /** Whether a stream holds the source's exit message. */
  predicate SawSourceExit<T>(msgs: seq<Msg<T>>) {
    exists j :: 0 <= j < |msgs| && msgs[j].SourceExited?
  }

  lemma SawSourceExitCons<T>(m: Msg<T>, msgs: seq<Msg<T>>)
    ensures SawSourceExit([m] + msgs) == (m.SourceExited? || SawSourceExit(msgs))
  {
    var s := [m] + msgs;
    if SawSourceExit(msgs) {
      var j :| 0 <= j < |msgs| && msgs[j].SourceExited?;
      assert s[j + 1].SourceExited?;
    }
    if m.SourceExited? {
      assert s[0].SourceExited?;
    }
    if SawSourceExit(s) && !m.SourceExited? {
      var j :| 0 <= j < |s| && s[j].SourceExited?;
      assert msgs[j - 1].SourceExited?;
    }
  }

  /** The state `next()` leaves is the state before plus the joins minus the
      exits among the messages taken, closed when one of them was the
      source's exit. */
  lemma {:induction false} CollectState<T>(n: int, sourceClosed: bool, msgs: seq<Msg<T>>)
    ensures var c := Collect(n, sourceClosed, msgs);
      && c.n == n + Joins(msgs[..c.used]) - Exits(msgs[..c.used])
      && c.sourceClosed == (sourceClosed || SawSourceExit(msgs[..c.used]))
    decreases |msgs|
  {
    var c := Collect(n, sourceClosed, msgs);
    if c.used == 0 {
      assert msgs[..0] == [];
    } else {
      var m := msgs[0];
      if IsSinkControl(m) {
        var sc' := sourceClosed || m.SourceExited?;
        var r := Collect(n + Delta(m), sc', msgs[1..]);
        CollectState(n + Delta(m), sc', msgs[1..]);
        NetPrefix(msgs, c.used);
        assert msgs[..c.used] == [m] + msgs[1..][..r.used];
        SawSourceExitCons(m, msgs[1..][..r.used]);
      } else {
        NetPrefix(msgs, 1);
        assert msgs[1..][..0] == [];
        assert msgs[..1] == [m];
      }
    }
  }

  /** Once `next()` has ended the sequence, every later call ends it again
      without taking anything: the sequence cannot be restarted. */
  lemma StopIsFinal<T>(n: int, sourceClosed: bool, msgs: seq<Msg<T>>, later: seq<Msg<T>>)
    requires Collect(n, sourceClosed, msgs).result.Stop?
    ensures var c := Collect(n, sourceClosed, msgs);
      Collect(c.n, c.sourceClosed, later) == Pull(c.n, c.sourceClosed, 0, Stop)
  {
    CollectResult(n, sourceClosed, msgs);
  }

  /** Everything repeated `next()` calls hand to the consumer, oldest first,
      until the sequence ends or the input runs out. */
  function Results<T>(n: int, sourceClosed: bool, msgs: seq<Msg<T>>): (r: seq<Msg<T>>)
    ensures |r| <= |msgs|
    ensures forall i :: 0 <= i < |r| ==> !IsSinkControl(r[i])
    decreases |msgs|
  {
    var c := Collect(n, sourceClosed, msgs);
    CollectResult(n, sourceClosed, msgs);
    if c.result.Item? then [c.result.item] + Results(c.n, c.sourceClosed, msgs[c.used..])
    else []
  }

  /** The sink's count never goes negative as long as, counting from a
      fresh sink, no worker has left more often than workers joined. */
  lemma CountStaysNonNegative<T>(history: seq<Msg<T>>, sourceClosed: bool, msgs: seq<Msg<T>>)
    requires NeverOverExited(history + msgs)
    ensures Collect(Net(history), sourceClosed, msgs).n >= 0
  {
    var c := Collect(Net(history), sourceClosed, msgs);
    CollectState(Net(history), sourceClosed, msgs);
    NetAfterPrefix(history, msgs, c.used);
  }

  /** The messages of a stream that the sink hands on: all but joins, exits
      and the source's exit. */
  function Deliverable<T>(msgs: seq<Msg<T>>): (r: seq<Msg<T>>)
    ensures forall i :: 0 <= i < |r| ==> !IsSinkControl(r[i])
  {
    if msgs == [] then []
    else (if IsSinkControl(msgs[0]) then [] else [msgs[0]]) + Deliverable(msgs[1..])
  }

  /** The sink stays live before every message of the stream: at no loop
      check is it exhausted. */
  ghost predicate LiveThroughout<T>(n: int, sourceClosed: bool, msgs: seq<Msg<T>>) {
    forall j :: 0 <= j < |msgs| ==>
      !Exhausted(n + Net(msgs[..j]), sourceClosed || SawSourceExit(msgs[..j]))
  }

  lemma LiveAfterFirst<T>(n: int, sourceClosed: bool, msgs: seq<Msg<T>>)
    requires msgs != [] && LiveThroughout(n, sourceClosed, msgs)
    ensures LiveThroughout(n + Delta(msgs[0]), sourceClosed || msgs[0].SourceExited?, msgs[1..])
  {
    var m := msgs[0];
    forall j | 0 <= j < |msgs[1..]|
      ensures !Exhausted(n + Delta(m) + Net(msgs[1..][..j]),
                         sourceClosed || m.SourceExited? || SawSourceExit(msgs[1..][..j]))
    {
      NetPrefix(msgs, j + 1);
      assert msgs[..j + 1] == [m] + msgs[1..][..j];
      SawSourceExitCons(m, msgs[1..][..j]);
    }
  }

  /** While the sink stays live, repeated `next()` calls hand on every
      result exactly once, unchanged and in arrival order: nothing is lost,
      duplicated or reordered. */
  lemma {:induction false} AllResultsDelivered<T>(n: int, sourceClosed: bool, msgs: seq<Msg<T>>)
    requires LiveThroughout(n, sourceClosed, msgs)
    ensures Results(n, sourceClosed, msgs) == Deliverable(msgs)
    decreases |msgs|
  {
    if msgs == [] {
    } else {
      var m := msgs[0];
      assert msgs[..0] == [];
      var n', sc' := n + Delta(m), sourceClosed || m.SourceExited?;
      LiveAfterFirst(n, sourceClosed, msgs);
      AllResultsDelivered(n', sc', msgs[1..]);
      if IsSinkControl(m) {
        var c, r := Collect(n, sourceClosed, msgs), Collect(n', sc', msgs[1..]);
        assert c == Consumed(r);
        assert msgs[c.used..] == msgs[1..][r.used..];
      } else {
        assert n' == n && sc' == sourceClosed;
      }
    }
  }

  class Sink<T> {
    var nworkers: int
    var sourceClosed: bool
    var closed: bool
    var inbox: seq<Msg<T>>    // messages still to arrive on the reply socket
    var replies: seq<Msg<T>>  // replies sent on the reply socket, oldest first
    var released: bool        // the socket is closed

    /** The socket is released only by a close. */
    ghost predicate Valid()
      reads this
    {
      released ==> closed
    }

    constructor (messages: seq<Msg<T>>)
      ensures Valid()
      ensures nworkers == 0 && !sourceClosed && !closed && !released
      ensures inbox == messages && replies == []
    {
      nworkers, sourceClosed, closed, released := 0, false, false, false;
      inbox, replies := messages, [];
    }

    /** `recv_pyobj` then `send_pyobj(None)`: take the next message and
        acknowledge it before looking at it. */
    method ReceiveAndAck() returns (m: Msg<T>)
      requires inbox != []
      modifies this`inbox, this`replies
      ensures m == old(inbox)[0] && inbox == old(inbox)[1..] && replies == old(replies) + [Null]
    {
      m := inbox[0];
      inbox := inbox[1..];
      replies := replies + [Null];
    }

    /** One turn of the `next()` loop on a join, an exit or the source's exit. */
    method Classify()
      requires !Exhausted(nworkers, sourceClosed) && inbox != [] && IsSinkControl(inbox[0])
      modifies this`nworkers, this`sourceClosed, this`inbox, this`replies
      ensures inbox == old(inbox)[1..] && replies == old(replies) + [Null]
      ensures Collect(old(nworkers), old(sourceClosed), old(inbox)) == Consumed(Collect(nworkers, sourceClosed, inbox))
    {
      var m := ReceiveAndAck();
      if m.WorkerJoin? {
        nworkers := nworkers + 1;
      } else if m.WorkerExited? {
        nworkers := nworkers - 1;
      } else {
        sourceClosed := true;
      }
    }

    /** The loop of `next()` up to its last turn: joins, exits and the
        source's exit are taken and acknowledged while the sink is live. */
    method SkipControl() returns (ghost k: nat)
      modifies this`nworkers, this`sourceClosed, this`inbox, this`replies
      ensures k <= |old(inbox)| && inbox == old(inbox)[k..] && replies == old(replies) + Acks(k)
      ensures Exhausted(nworkers, sourceClosed) || inbox == [] || !IsSinkControl(inbox[0])
      ensures Collect(old(nworkers), old(sourceClosed), old(inbox)) ==
        Collect(nworkers, sourceClosed, inbox).(used := k + Collect(nworkers, sourceClosed, inbox).used)
    {
      k := 0;
      while !Exhausted(nworkers, sourceClosed) && inbox != [] && IsSinkControl(inbox[0])
        invariant k <= |old(inbox)| && inbox == old(inbox)[k..]
        invariant replies == old(replies) + Acks(k)
        invariant Collect(old(nworkers), old(sourceClosed), old(inbox)) ==
          Collect(nworkers, sourceClosed, inbox).(used := k + Collect(nworkers, sourceClosed, inbox).used)
        decreases |inbox|
      {
        Classify();
        k := k + 1;
      }
    }

    /** The loop of `next()`, once the socket is known to be usable. */
    method Pull() returns (y: Yield<Msg<T>>)
      modifies this`nworkers, this`sourceClosed, this`inbox, this`replies
      ensures var c := Collect(old(nworkers), old(sourceClosed), old(inbox));
        && y == c.result && nworkers == c.n && sourceClosed == c.sourceClosed
        && inbox == old(inbox)[c.used..] && replies == old(replies) + Acks(c.used)
    {
      ghost var k := SkipControl();
      if Exhausted(nworkers, sourceClosed) {
        return Stop;
      }
      if inbox == [] {
        return Starved;
      }
      var m := ReceiveAndAck();
      y := Item(m);
    }

    /** `next()`: the next result, or the end of the sequence once the
        source has exited and no worker is left. */
    method Next() returns (y: Yield<Msg<T>>)
      requires Valid()
      modifies this
      ensures Valid()
      ensures closed == old(closed) && released == old(released)
      ensures old(released) && !Exhausted(old(nworkers), old(sourceClosed)) ==>
        y == Unusable && unchanged(this)
      ensures !old(released) || Exhausted(old(nworkers), old(sourceClosed)) ==>
        var c := Collect(old(nworkers), old(sourceClosed), old(inbox));
        && y == c.result && nworkers == c.n && sourceClosed == c.sourceClosed
        && inbox == old(inbox)[c.used..] && replies == old(replies) + Acks(c.used)
    {
      if released && !Exhausted(nworkers, sourceClosed) {
        return Unusable;
      }
      y := Pull();
    }

    /** `close()`: release the socket once; later calls do nothing. The grace
        period before the release is not modelled. */
    method Close()
      requires Valid()
      modifies this
      ensures Valid()
      ensures old(closed) ==> unchanged(this)
      ensures !old(closed) ==> closed && released
      ensures nworkers == old(nworkers) && sourceClosed == old(sourceClosed)
      ensures inbox == old(inbox) && replies == old(replies)
    {
      if closed {
        return;
      }
      closed := true;
      released := true;
    }
  }
}
