/** The message vocabulary of the MW4S protocol ("multiple worker, single
    source, single sink") and the worker-count bookkeeping shared by the
    source and the sink (pypb/dist.py). */
module Mw4sMessages {

  /** Everything that travels over a socket. `Null` is Python's `None`: the
      acknowledgement and, sent to the source, the plain "give me a task"
      request. `Payload` is an application task or result. */
  datatype Msg<T> =
    | Null
    | WorkerJoin
    | WorkerExited
    | NoMoreJobs
    | SourceExited
    | Payload(value: T)

  /** A message that changes a worker count. */
  predicate IsMembership<T>(m: Msg<T>) {
    m.WorkerJoin? || m.WorkerExited?
  }

  /** A message the sink consumes itself instead of handing it on. */
  predicate IsSinkControl<T>(m: Msg<T>) {
    m.WorkerJoin? || m.WorkerExited? || m.SourceExited?
  }

  /** How one message moves a worker count. */
  function Delta<T>(m: Msg<T>): int {
    if m.WorkerJoin? then 1 else if m.WorkerExited? then -1 else 0
  }

  /** Number of join messages in a stream. */
  function Joins<T>(s: seq<Msg<T>>): nat {
    if s == [] then 0
    else Joins(s[..|s| - 1]) + (if s[|s| - 1].WorkerJoin? then 1 else 0)
  }

  /** Number of exit messages in a stream. */
  function Exits<T>(s: seq<Msg<T>>): nat {
    if s == [] then 0
    else Exits(s[..|s| - 1]) + (if s[|s| - 1].WorkerExited? then 1 else 0)
  }

  /** The worker count a stream of requests implies: joins minus exits. */
  function Net<T>(s: seq<Msg<T>>): int {
    Joins(s) - Exits(s)
  }

  /** `k` acknowledgements. */
  function Acks<T>(k: nat): (r: seq<Msg<T>>)
    ensures |r| == k
    ensures forall i :: 0 <= i < k ==> r[i].Null?
  {
    if k == 0 then [] else Acks(k - 1) + [Null]
  }

  lemma {:induction false} JoinsAppend<T>(a: seq<Msg<T>>, b: seq<Msg<T>>)
    ensures Joins(a + b) == Joins(a) + Joins(b)
    decreases |b|
  {
    if b == [] {
      assert a + b == a;
    } else {
      var b' := b[..|b| - 1];
      assert (a + b)[..|a + b| - 1] == a + b';
      JoinsAppend(a, b');
    }
  }

  lemma {:induction false} ExitsAppend<T>(a: seq<Msg<T>>, b: seq<Msg<T>>)
    ensures Exits(a + b) == Exits(a) + Exits(b)
    decreases |b|
  {
    if b == [] {
      assert a + b == a;
    } else {
      var b' := b[..|b| - 1];
      assert (a + b)[..|a + b| - 1] == a + b';
      ExitsAppend(a, b');
    }
  }

  /** The net count is additive over concatenated streams. */
  lemma NetAppend<T>(a: seq<Msg<T>>, b: seq<Msg<T>>)
    ensures Net(a + b) == Net(a) + Net(b)
  {
    JoinsAppend(a, b);
    ExitsAppend(a, b);
  }

  /** Counting one more message: only joins and exits move the count. */
  lemma NetSnoc<T>(s: seq<Msg<T>>, m: Msg<T>)
    ensures Net(s + [m]) == Net(s) + Delta(m)
  {
    assert (s + [m])[..|s|] == s;
  }

  /** Counting a message in front of a stream. */
  lemma NetCons<T>(m: Msg<T>, s: seq<Msg<T>>)
    ensures Net([m] + s) == Net(s) + Delta(m)
  {
    var one: seq<Msg<T>> := [m];
    NetAppend(one, s);
    assert one[..0] == [];
    assert Joins(one) == (if m.WorkerJoin? then 1 else 0);
    assert Exits(one) == (if m.WorkerExited? then 1 else 0);
  }

  /** Counting a non-empty prefix from its first message. */
  lemma NetPrefix<T>(s: seq<Msg<T>>, j: nat)
    requires 0 < j <= |s|
    ensures Net(s[..j]) == Delta(s[0]) + Net(s[1..][..j - 1])
  {
    assert s[..j] == [s[0]] + s[1..][..j - 1];
    NetCons(s[0], s[1..][..j - 1]);
  }

  /** One more acknowledgement in front. */
  lemma AcksCons<T>(k: nat)
    ensures [Null] + Acks<T>(k) == Acks<T>(k + 1)
  {
  }

  /** A stream in which no prefix has more exits than joins: every worker
      leaves only after it joined. */
  ghost predicate NeverOverExited<T>(s: seq<Msg<T>>) {
    forall k :: 0 <= k <= |s| ==> Net(s[..k]) >= 0
  }

  /** Counting on from `history`, the count after any prefix of `s` is the
      count after a prefix of `history + s`, so it is not negative. */
  lemma NetAfterPrefix<T>(history: seq<Msg<T>>, s: seq<Msg<T>>, u: nat)
    requires NeverOverExited(history + s)
    requires u <= |s|
    ensures Net(history) + Net(s[..u]) >= 0
  {
    NetAppend(history, s[..u]);
    assert (history + s)[..|history| + u] == history + s[..u];
  }

  /** An exit arriving before any join drives the count below zero. */
  lemma ExitFirstGoesNegative<T>()
    ensures Net<T>([WorkerExited]) == -1
  {
    var s: seq<Msg<T>> := [WorkerExited];
    assert s[..0] == [];
  }
}
