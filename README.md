# MW4S job distribution, function cache and run-once guard, in Dafny

This project models the core of the `pypb` Python utilities and proves properties of the model.

- **MW4S protocol** (`pypb/dist.py`): "multiple worker, single source, single sink" job distribution over ZeroMQ request/reply sockets.
  - A `Source` hands tasks to workers, counts joins and exits, drains the workers when it closes, and then tells the sink it has exited.
  - A `Sink` acknowledges every message, counts workers itself, and yields results until the source has exited and no worker is left.
  - A `Worker` joins both ends, asks for tasks, submits results, and leaves both ends.
- **The earlier protocol variant** (`dist.py` at the repository root). Joins and exits are the booleans `True`/`False`, and the end of work is a `StopIteration` instance. The sink counts nothing, and a worker joins the source only.
- **`fnhash`** (`pypb/cache.py`): normalises a function's source lines into a string that identifies its code. **`diskcache`** decides whether a call is served from the cache.
- **`runonce` and the `Close` mixin** (`pypb/abs.py`): make a `close` method run at most once, and call `close()` when a `with` block exits.

Files:

| file | module | contents |
|---|---|---|
| `wrappers.dfy` | `Wrappers` | a value that may be absent (`Option`), what a wrapped function does (`Effect`) |
| `outcomes.dfy` | `Outcomes` | how an endpoint call ends (`Outcome`), how an iterator step ends (`Yield`) |
| `mw4s_messages.dfy` | `Mw4sMessages` | the message union, worker-count bookkeeping |
| `mw4s_source.dfy` | `Mw4sSource` | `Serve` and `Drain` (the two receive loops as functions), class `Source` |
| `mw4s_sink.dfy` | `Mw4sSink` | `Collect` (the `next()` loop as a function), `Results`, class `Sink` |
| `mw4s_worker.dfy` | `Mw4sWorker` | class `Worker` |
| `mw4s_session.dfy` | `Mw4sSession` | how the endpoints fit together, one complete run |
| `mw4s_legacy.dfy` | `Mw4sLegacy` | the earlier variant, and its agreement with the current one |
| `fn_cache.dfy` | `FnCache` | `fnhash`, class `DiskCache` |
| `run_once.dfy` | `RunOnce` | the `runonce` guard, class `Closable` |

How sockets are modelled:

- A bound reply socket is two fields: `inbox`, the requests that will arrive on it in order, fixed when the object is built; and `replies`, the log of what was sent back.
- A connected request socket is a log of what was sent on it. The peer's reply is a parameter of the method that sends the request.
- Every class method is proved against a function of the old state. For example, `Source.Send` ends exactly as `Serve(old(nworkers), old(inbox), task)` says. The lemmas then state what the code promises about those functions.
- Where the real call would block because no further input has arrived, the model ends with `Waiting` (from `send`/`close`) or `Starved` (from `next`).
- A call on a socket that was already closed ends with `SocketClosed` (from `send`/`close`) or `Unusable` (from `next`). This stands for the `ZMQError` Python raises.
- `Error` (the protocol violation) is `ProtocolError(culprit)`, carrying the message that was refused.
- A reply socket that received a request and raised `Error` instead of answering still owes that request its reply. ZeroMQ then refuses the next receive on it. The source records this in `owesReply`, and a later `send` or draining `close()` ends with `ReplyOwed`.
- `StopIteration` is `Stop`.

What the code does where one might expect otherwise:

- The worker counts have no floor. The code decrements them unconditionally (`pypb/dist.py:109`, `:135`, `:189`, `dist.py:79`, `:97`). The model proves "count = joins − exits" for every input. The counts are non-negative only for inputs in which no prefix has more exits than joins (`Mw4sSource.CountStaysNonNegative`, `Mw4sSink.CountStaysNonNegative`). The lemma `Mw4sMessages.ExitFirstGoesNegative` shows the count going below zero.
- Not every `close()` can be repeated. In the earlier variant `Source.close` has no flag: once it has released its sockets, a second call fails on them (`Mw4sLegacy.SourceClosedTwice`). `Worker.close` there sends `False` again on every call (`Mw4sLegacy.WorkerClosedTwice`).
- A protocol error strands the source while a worker is still counted. After `send` has refused a request, the source cannot serve again, the draining `close()` fails with `ReplyOwed`, and the sink never learns that the source has exited (`Mw4sSession.RefusedRequestStrandsSource`, `Mw4sLegacy.RefusedRequestStrandsSource`). With no worker counted, `close()` does not receive at all, so it still tells the sink and releases the sockets (`Mw4sSession.RefusedRequestWithoutWorkers`).

## Model

| member | source | states |
|---|---|---|
| Mw4sMessages.NetSnoc | pypb/dist.py:103-110 | one more request moves the count by +1 for a join, −1 for an exit, 0 otherwise |
| Mw4sMessages.NetAppend | pypb/dist.py:97-110 | the count implied by a stream of requests is additive over concatenation |
| Mw4sMessages.NetAfterPrefix | pypb/dist.py:103-110 | counting on from earlier requests, the count after any prefix of the new ones is non-negative when no prefix of the whole stream has more exits than joins |
| Mw4sMessages.ExitFirstGoesNegative | pypb/dist.py:107-110 | there is no floor: an exit before any join leaves the count at −1 |
| Mw4sSource.Serve | pypb/dist.py:97-112 | the `send` loop never takes more requests than have arrived |
| Mw4sSource.Drain | pypb/dist.py:123-138 | the drain loop never takes more requests than have arrived |
| Mw4sSource.ServeAnswersFirstTaskRequest | pypb/dist.py:97-110 | the first `None` request reached through joins and exits gets the task; each earlier join/exit gets `None`; the count moves by joins − exits; nothing after it is consumed |
| Mw4sSource.ServeRejectsUnknown | pypb/dist.py:97-112 | a request that is not `None`, a join or an exit ends `send` with `Error` naming that request, and it gets no reply |
| Mw4sSource.ServeWaitsOnMembershipOnly | pypb/dist.py:97-110 | joins and exits alone never end `send`: all are acknowledged and counted, and the source still waits |
| Mw4sSource.ServeHandsTaskOnce | pypb/dist.py:97-102 | every reply of `send` but the last is `None`; `send` succeeds iff its last reply is the task |
| Mw4sSource.DrainEnds | pypb/dist.py:123-138 | the drain ends normally iff the count is ≤ 0; with count ≤ 0 it consumes nothing; a refused request is the last one taken, is unanswered, and is neither `None` nor a join/exit |
| Mw4sSource.DrainAnswersInOrder | pypb/dist.py:123-136 | each reply of the drain answers the request at the same position, and that request is `None`, a join or an exit |
| Mw4sSource.DrainReplies | pypb/dist.py:123-136 | while draining, `None` requests get `NoMoreJobsMessage`, joins/exits get `None`, and no reply is ever a task |
| Mw4sSource.DrainCount | pypb/dist.py:123-136 | after draining, the count is the old count plus joins minus exits taken, and each request was taken while the count was positive |
| Mw4sSource.ServeCount | pypb/dist.py:103-110 | after `send`, the count is the old count plus joins minus exits among the requests taken |
| Mw4sSource.CountStaysNonNegative | pypb/dist.py:97-136 | neither `send` nor the drain of `close()` leaves a negative count when no prefix of all requests so far has more exits than joins |
| Mw4sSource.Source.constructor | pypb/dist.py:75-81 | a new source has no workers and is neither closed nor released |
| Mw4sSource.Source.ServeTask | pypb/dist.py:97-112 | the `while True` loop of `send` ends with the count, replies and remaining input that `Serve` gives |
| Mw4sSource.Source.Send | pypb/dist.py:92-112 | `send(task)` behaves as `Serve` on the pending requests, so the count becomes old count + joins − exits taken (by `Mw4sSource.ServeCount` and `Mw4sMessages.NetAppend`); it fails on released sockets, and with `ReplyOwed` while a refused request is unanswered; a refusal leaves a reply owed |
| Mw4sSource.Source.DrainWorkers | pypb/dist.py:123-138 | the drain loop ends with the count, replies and remaining input that `Drain` gives |
| Mw4sSource.Source.Close | pypb/dist.py:114-148 | a second `close()` does nothing; otherwise `closed` is set first; with workers left and a reply owed it fails with `ReplyOwed` and nothing else changes; otherwise the workers are drained, exactly one `SourceExitedMessage` goes to the sink, a non-`None` answer is `Error`, and the sockets are released only on success |
| Mw4sSink.Collect | pypb/dist.py:181-197 | `next()` never takes more messages than have arrived, and takes at least one when it returns an item |
| Mw4sSink.CollectResult | pypb/dist.py:181-197 | `next()` stops iff the source has exited and the count is ≤ 0 at a loop check; what it returns is the last message taken, unchanged, and never a join, an exit or the source's exit; the source-closed flag never reverts |
| Mw4sSink.CollectState | pypb/dist.py:181-193 | after `next()`, the count is the old count plus joins minus exits taken, and the source is closed iff it was before or one of the messages taken was its exit |
| Mw4sSink.CountStaysNonNegative | pypb/dist.py:181-193 | `next()` never leaves a negative count when no prefix of all messages so far has more exits than joins |
| Mw4sSink.Results | pypb/dist.py:176-197 | the items of repeated `next()` calls are at most as many as the messages, and none is a join, an exit or the source's exit |
| Mw4sSink.StopIsFinal | pypb/dist.py:181-197 | once `next()` has stopped, every later call stops without receiving anything |
| Mw4sSink.AllResultsDelivered | pypb/dist.py:181-195 | while the sink stays live, repeated `next()` calls hand on every non-control message exactly once, unchanged and in arrival order |
| Mw4sSink.Sink.constructor | pypb/dist.py:157-162 | a new sink has no workers and is neither source-closed nor closed |
| Mw4sSink.Sink.ReceiveAndAck | pypb/dist.py:182-183 | each message is acknowledged with `None` as soon as it is received, before it is looked at |
| Mw4sSink.Sink.Pull | pypb/dist.py:181-197 | the `next()` loop ends with the count, flag, remaining input and one `None` per message taken, as `Collect` gives |
| Mw4sSink.Sink.Next | pypb/dist.py:176-197 | `next()` behaves as `Collect`; on a released socket it fails unless it stops at the loop check without receiving |
| Mw4sSink.Sink.Close | pypb/dist.py:199-211 | `close()` releases the socket once; a second call changes nothing |
| Mw4sWorker.TaskFrom | pypb/dist.py:257-263 | `next()` stops iff the reply is `NoMoreJobsMessage`, and otherwise returns the reply unchanged |
| Mw4sWorker.Acked | pypb/dist.py:271-273 | a call succeeds iff the reply is `None`, and otherwise fails with `Error` naming the reply |
| Mw4sWorker.Worker.Join | pypb/dist.py:221-238 | the join goes to the source first and to the sink only if the source answered `None`; a non-`None` answer fails with `Error` naming it |
| Mw4sWorker.Worker.Next | pypb/dist.py:252-263 | `next()` sends one `None` request to the source and reads its reply as `TaskFrom` says |
| Mw4sWorker.Worker.Send | pypb/dist.py:265-273 | `send(result)` sends the result to the sink and requires `None` back |
| Mw4sWorker.Worker.Close | pypb/dist.py:275-294 | a second `close()` does nothing; otherwise the exit goes to the source, then to the sink only if the source answered `None`, and a non-`None` answer fails with `Error` naming it; afterwards the worker's joins minus exits are 0 at the source and at most 1 at the sink |
| Mw4sSession.NextStopsWhileDraining | pypb/dist.py:123-128 | a worker's `next()` stops on every reply the draining source gives to a task request |
| Mw4sSession.TaskReachesOneWorker | pypb/dist.py:97-102 | the task of one `send` reaches exactly one `next()` call, the one answered last, and only when `send` succeeds |
| Mw4sSession.WorkerAndSourceRun | pypb/dist.py:92-294 | with one worker, whose join, task and exit are answered by the source's own replies, the join is acknowledged (count 1), the task reaches the worker, the source's close succeeds after draining the exit; the source hears join, task request, exit, and the sink is sent join, result, exit, source exit, in that order; the source reads every request |
| Mw4sSession.SinkRun | pypb/dist.py:157-211 | given that traffic, the sink counts one worker, yields the result, then stops after reading every message |
| Mw4sSession.OneWorkerRun | pypb/dist.py:92-294 | one complete run: the sink is given exactly what the worker and the source sent; the worker gets the task, the sink yields the result, both counts are 1 mid-run, the close succeeds and the sink then stops |
| Mw4sSession.RefusedRequestWithoutWorkers | pypb/dist.py:114-148 | with no worker counted, a refused `send` still lets `close()` tell the sink and release the sockets, since the drain loop never receives |
| Mw4sSession.RefusedRequestStrandsSource | pypb/dist.py:92-148 | after `send` refuses a stray request, a second `send` and the draining `close()` fail with `ReplyOwed`, the sink is told nothing, and a second `close()` returns at once |
| Mw4sLegacy.Decode | dist.py:77-79 | `True` and `False` move the count as a join and an exit do |
| Mw4sLegacy.Encode | dist.py:71-98 | both end-of-work messages become a `StopIteration`, and every other message is recovered by `Decode` |
| Mw4sLegacy.Serve | dist.py:71-82 | the earlier `send` loop never takes more requests than have arrived |
| Mw4sLegacy.Drain | dist.py:89-100 | the earlier drain never takes more requests than have arrived |
| Mw4sLegacy.ServeAgrees | dist.py:71-82 | the earlier `send` loop equals the current one under the encoding: same count, requests taken, replies and outcome |
| Mw4sLegacy.DrainAgrees | dist.py:89-100 | the earlier drain equals the current one, `StopIteration` standing for `NoMoreJobsMessage` |
| Mw4sLegacy.DrainCountsBools | dist.py:89-100 | the earlier drain ends with the count at `True`s minus `False`s taken and never hands out a task |
| Mw4sLegacy.TaskFrom | dist.py:196-202 | the earlier worker's `next()` stops iff the reply is a `StopIteration`, and otherwise returns the reply unchanged |
| Mw4sLegacy.Acked | dist.py:210-212 | a request succeeds iff the reply is `None` |
| Mw4sLegacy.Source.constructor | dist.py:53-58 | a new source has no workers, owes no reply and has sent nothing |
| Mw4sLegacy.Source.Send | dist.py:66-82 | `send(task)` behaves as the earlier `Serve`, so the count moves by `True`s − `False`s taken (by `Mw4sLegacy.ServeAgrees` with `Mw4sSource.ServeCount`); it fails with `ReplyOwed` while a refused request is unanswered, and a refusal leaves a reply owed |
| Mw4sLegacy.Source.Close | dist.py:84-114 | drains as the earlier `Drain`, sends one `StopIteration` to the sink, requires `None`, releases both sockets; called again after that, it fails; with workers left and a reply owed it fails with `ReplyOwed` and changes nothing |
| Mw4sLegacy.Sink.constructor | dist.py:124-128 | a new sink has received and sent nothing |
| Mw4sLegacy.Sink.Next | dist.py:139-150 | each call receives one object and acknowledges it; a `StopIteration` stops, anything else is returned unchanged |
| Mw4sLegacy.Sink.Close | dist.py:152-161 | `close()` releases the sockets and changes nothing else |
| Mw4sLegacy.Worker.Init | dist.py:171-175 | a new worker has sent nothing |
| Mw4sLegacy.Worker.Join | dist.py:171-180 | the worker sends `True` to the source only and requires `None` |
| Mw4sLegacy.Worker.Next | dist.py:191-202 | `next()` sends `None` to the source and reads the reply as the earlier `TaskFrom` |
| Mw4sLegacy.Worker.Send | dist.py:204-212 | `send(result)` sends the result to the sink and requires `None` |
| Mw4sLegacy.Worker.Close | dist.py:214-222 | every `close()` sends `False` to the source and requires `None` |
| Mw4sLegacy.SourceClosedTwice | dist.py:84-114 | a first `close()` succeeds and a second one fails on the released sockets |
| Mw4sLegacy.WorkerClosedTwice | dist.py:214-222 | a worker closed twice sends `False` twice, and the source then counts −1 workers |
| Mw4sLegacy.RefusedRequestStrandsSource | dist.py:66-114 | after `send` refuses a stray request, a second `send` and the draining `close()` fail with `ReplyOwed`, and the sink is told nothing |
| FnCache.TrimLeft | pypb/cache.py:31 | `lstrip` removes exactly the leading whitespace |
| FnCache.TrimRight | pypb/cache.py:31 | `rstrip` removes exactly the trailing whitespace |
| FnCache.KeptMeans | pypb/cache.py:31 | a line is kept iff its first non-whitespace character exists and is not `#` |
| FnCache.FilterAppend | pypb/cache.py:31 | filtering a concatenation is concatenating the filtered parts |
| FnCache.KeptLinesMembers | pypb/cache.py:31 | a line is among the kept lines iff it is an input line that is kept |
| FnCache.KeptLinesSnoc | pypb/cache.py:31 | one more input line is appended to the kept lines iff it is kept, and the earlier kept lines stay as they were: order and multiplicity are preserved |
| FnCache.Find | pypb/cache.py:37-41 | a position found leaves room for the whole pattern |
| FnCache.FindIsFirst | pypb/cache.py:37-41 | the position found is the first occurrence of the pattern, or there is none |
| FnCache.RemoveFirst | pypb/cache.py:37-41 | `replace(pat, "", 1)` shortens the string by the pattern's length when it occurs, and not at all otherwise |
| FnCache.RemoveFirstExact | pypb/cache.py:37-41 | `replace(pat, "", 1)` removes exactly the first occurrence, and changes nothing when there is none |
| FnCache.RemoveSpaces | pypb/cache.py:44-45 | the result has no whitespace character |
| FnCache.RemoveSpacesAppend | pypb/cache.py:44-45 | removing whitespace from a concatenation is concatenating the parts without whitespace |
| FnCache.RemoveSpacesSnoc | pypb/cache.py:44-45 | one more character survives iff it is not whitespace, after the earlier survivors: order and multiplicity are preserved |
| FnCache.RemoveSpacesUnchanged | pypb/cache.py:44-45 | a string without whitespace is left as it is |
| FnCache.RemoveSpacesIdempotent | pypb/cache.py:44-45 | removing whitespace twice is removing it once |
| FnCache.FnHash | pypb/cache.py:22-47 | `fnhash`'s output has no whitespace |
| FnCache.FnHashProperties | pypb/cache.py:22-47 | `fnhash`'s output has no whitespace and is obtained from the joined kept lines by deleting characters only |
| FnCache.Stripped | pypb/cache.py:72-76 | the key's kwargs lack `_force_miss` and `_force_before` and agree with the call's kwargs on every other name |
| FnCache.ControlArgsNotInKey | pypb/cache.py:69-81 | `_force_miss` and `_force_before` never change the entry looked up |
| FnCache.StoredThenHit | pypb/cache.py:84-106 | a result just stored is used by a later plain call on the same key iff that call is made strictly after it |
| FnCache.DiskCache.Call | pypb/cache.py:63-106 | the stored result is returned iff the entry exists, no miss is forced and it is older than `force_before`; a `_force_before` that is not a time, met with an existing entry, fails; otherwise the original runs on the stripped kwargs, and its result is stored with the new time, or its exception is passed on and the files stay as they were |
| FnCache.RaisingOriginalKeepsEntry | pypb/cache.py:94-106 | a forced miss whose original raises passes the exception on and keeps the entry stored before |
| RunOnce.Guard | pypb/abs.py:50-55 | the original runs iff `_closed` is absent; an absent `_closed` is set to `True`, and an existing value is kept |
| RunOnce.RunsAtMostOnce | pypb/abs.py:39-57 | over any number of calls the original runs at most once, and exactly once iff `_closed` was absent and there was a call |
| RunOnce.Closable.Close | pypb/abs.py:44-55 | decorated, `close()` sets `_closed` before running the original, so a raising original still counts, and later calls return `None` |
| RunOnce.Closable.Exit | pypb/abs.py:28-29 | `__exit__` always calls `close()` and adds no guard of its own |
| RunOnce.CloseThenExit | pypb/abs.py:12-57 | `close()` inside a `with` block runs the original once if `close` is decorated, twice if it is not |

## Left out

- ZeroMQ sockets and pickling (`rep_socket`, `req_socket`, `send_pyobj`, `recv_pyobj`) are foreign calls. They are replaced by the input sequences, reply logs and reply parameters described above.
- Blocking and the interleaving of concurrent workers are left out. Each endpoint is verified sequentially over a given finite input. `Mw4sSession.OneWorkerRun` fixes one interleaving with one worker.
- The two-worker first-come-first-served scenario is not a separate member. Serving in arrival order is what `Serve` does with its single input sequence.
- `time.sleep(CLOSESYNC)` in `Sink.close` and in the earlier variant's closes is a timing workaround with no stateable effect.
- `__del__` finalizers depend on garbage-collection timing.
- `Error`'s message text is left out. A protocol error records only the refused message.
- Tasks and results are one type parameter `T`. A task or result that is itself one of the control messages is not distinguished from the control message, as in the code.
- Mw4sWorker.Worker.Join: a worker whose join failed is returned but promises nothing further. In Python its `__init__` raised, so no usable object exists.
- Mw4sLegacy.Sink.Close: the grace period, and the order in which the two sockets are closed, are not modelled. Closing an already closed ZeroMQ socket does nothing, so the method is written as idempotent.
- In `pypb/cache.py`, the following are parameters or left out:
  - `inspect.getsourcelines`: the source lines, docstring and name are parameters of `FnHash`;
  - the cache directory and files: a map from run key to entry;
  - `cPickle` and SHA-1: the run key itself stands for the file name, so hash collisions are not modelled;
  - `datetime.utcnow`: two integer parameters, one per read of the clock;
  - `os.makedirs` and logging: left out;
  - the entry's metadata fields other than `at` and `result`: left out.
- FnCache.IsSpace: strings are sequences of characters. Whitespace is Python 2's six ASCII whitespace characters; the byte-string encoding is not modelled.
- FnCache.KwArg: a keyword argument's Python truth value is given with it (`Plain`). A `datetime` is an integer time.
- `pypb/pds.py` (sqlite3 and json), `gsb.py` (an HTTP client) and `setup.py` (packaging) are not part of this model.
