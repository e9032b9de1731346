/** The `Close` mixin and the `runonce` decorator of pypb/abs.py.

    `runonce` keys on an attribute `_closed` that the object may or may not
    have: absent, it is created as `True` and the original method runs;
    present, the method returns `None` without running it, whatever the
    attribute's value. */
module RunOnce {
  import opened Wrappers

  /** What a call of the decorated method does: run the original, with its
      effect, or return `None` without running it. */
  datatype Reply<R, E> = Ran(effect: Effect<R, E>) | Skipped

  /** One check of the guard: the attribute afterwards, and whether the
      original runs. */
  function Guard(closed: Option<bool>): (g: (Option<bool>, bool))
    ensures g.1 <==> closed.None?
    ensures closed.None? ==> g.0 == Some(true)
    ensures closed.Some? ==> g.0 == closed
  {
    match closed
    case None => (Some(true), true)
    case Some(b) => (Some(b), false)
  }

  /** How many times the original runs over `calls` calls of the decorated
      method, starting from the attribute `closed`. */
  function Runs(closed: Option<bool>, calls: nat): nat
    decreases calls
  {
    if calls == 0 then 0
    else
      var g := Guard(closed);
      (if g.1 then 1 else 0) + Runs(g.0, calls - 1)
  }

  /** The original runs at most once however often the decorated method is
      called, and exactly once when the attribute was absent to begin with
      and there is at least one call. */
  lemma {:induction false} RunsAtMostOnce(closed: Option<bool>, calls: nat)
    ensures Runs(closed, calls) == (if closed.None? && calls > 0 then 1 else 0)
    decreases calls
  {
    if calls > 0 {
      RunsAtMostOnce(Guard(closed).0, calls - 1);
    }
  }

  /** An object mixing in `Close`, whose `close` is decorated with
      `runonce` when `guarded` holds and is not otherwise. */
  class Closable<R, E> {
    const guarded: bool
    var closedAttr: Option<bool>  // the `_closed` attribute, if the object has one
    var runs: nat                 // how many times the original `close` ran

    constructor (guarded: bool)
      ensures this.guarded == guarded && closedAttr.None? && runs == 0
    {
      this.guarded := guarded;
      closedAttr, runs := None, 0;
    }

    /** `close()`. When decorated, the attribute is set before the original
        runs, so an original that raises still counts as having closed. */
    method Close(effect: Effect<R, E>) returns (reply: Reply<R, E>)
      modifies this`closedAttr, this`runs
      ensures guarded ==>
        var g := Guard(old(closedAttr));
        && closedAttr == g.0
        && runs == old(runs) + (if g.1 then 1 else 0)
        && reply == (if g.1 then Ran(effect) else Skipped)
      ensures !guarded ==> closedAttr == old(closedAttr) && runs == old(runs) + 1 && reply == Ran(effect)
    {
      if guarded {
        if closedAttr.Some? {
          return Skipped;
        }
        closedAttr := Some(true);
      }
      runs := runs + 1;
      reply := Ran(effect);
    }

    /** `__exit__`: always calls `close()`; the mixin adds no guard of its
        own. */
    method Exit(effect: Effect<R, E>) returns (reply: Reply<R, E>)
      modifies this`closedAttr, this`runs
      ensures guarded ==>
        var g := Guard(old(closedAttr));
        && closedAttr == g.0
        && runs == old(runs) + (if g.1 then 1 else 0)
        && reply == (if g.1 then Ran(effect) else Skipped)
      ensures !guarded ==> closedAttr == old(closedAttr) && runs == old(runs) + 1 && reply == Ran(effect)
    {
      reply := Close(effect);
    }
  }

  /** An explicit `close()` inside a `with` block followed by the block's
      exit: the original runs once when `close` is decorated with
      `runonce`, and twice when it is not, even if the first run raised. */
  method CloseThenExit<R, E>(guarded: bool, first: Effect<R, E>, second: Effect<R, E>)
    returns (closing: Reply<R, E>, exiting: Reply<R, E>, runs: nat)
    ensures closing == Ran(first)
    ensures exiting == (if guarded then Skipped else Ran(second))
    ensures runs == (if guarded then 1 else 2)
  {
    var c := new Closable<R, E>(guarded);
    closing := c.Close(first);
    exiting := c.Exit(second);
    runs := c.runs;
  }
}
