# DisposingAggregateSink, modelled in Dafny

Serilog's `DisposingAggregateSink` is a log-event sink that fans every event
out to a fixed, ordered array of other sinks. This project models it and
proves what it promises:

- `Emit` isolates failures. Every sink is offered the event exactly once and
  in array order, whatever the sinks before it threw. Each exception is
  written to SelfLog (Serilog's diagnostic channel) and collected. If any
  sink threw, one `AggregateException` constructed with the message
  "Failed to emit a log event." carries the collected exceptions in dispatch
  order.
- `Dispose` disposes exactly the sinks that are also `IDisposable`, in
  array order. An exception from a sink's `Dispose` is written to SelfLog and
  swallowed, so `Dispose` always returns normally. Nothing records that it
  ran, so a second call disposes every disposable sink again.
- The constructor throws `ArgumentNullException` for a null source and
  otherwise copies the sinks into a new array once.

Files:

- `collaborators.dfy` (module `Collaborators`): log events and exceptions as
  opaque values; a sink handle as a value with an identity, an "is disposable"
  flag and a scripted outcome for `Emit` and for `Dispose`; the observable
  effects (a call on a sink, a SelfLog line) and their projections `Calls`
  and `Diags`.
- `aggregate_spec.dfy` (module `AggregateSpec`): what one `Emit` or `Dispose`
  pass over a sink sequence does, as functions (`EmitTrace`, `EmitErrors`,
  `EmitReports`, `EmitOutcome`, `DisposeTrace`, `DisposeCalls`,
  `DisposeReports`), and the lemmas about them.
- `disposing_aggregate_sink.dfy` (module `CoreSinks`): the class
  `DisposingAggregateSink`. Its `sinks` field is a `const` array, as `_sinks`
  is `readonly`. `Emit` and `Dispose` are `for` loops over it. Neither has a
  `modifies` clause, so Dafny checks that they change nothing. Each returns
  the trace of the effects it had; `Emit` also returns how it ended.

Modelling choices:

- A thrown exception is a returned value. `Create` returns
  `Failure(ArgumentNullException("sinks"))`, and `Emit` returns
  `Failed(AggregateException(...))`.
- A null source is `None` of an `Option`.
- Calls on sinks and SelfLog lines are one trace of effects, in the order
  they happen: the call on a sink, then its SelfLog line if it threw.
- A sink's scripted outcome is the same on every call.
- Only sinks that are also `IDisposable` get a dispose call
  (DisposingAggregateSink.cs:59).
- The aggregate exception is constructed with the message
  "Failed to emit a log event." (DisposingAggregateSink.cs:52). The model
  keeps that constructor argument; how .NET renders the exception's
  `Message` property from it is not modelled.
- Nothing records that `Dispose` ran, so `Emit` after `Dispose` behaves as
  before.
- The sink array is private to the aggregate. The class keeps a ghost copy
  of the construction input, `contents`, and an invariant `Valid()` that the
  array still holds it; `Emit` and `Dispose` require `Valid()` and are
  specified over `contents`.

## Model

| member | source | states |
|---|---|---|
| `CoreSinks.DisposingAggregateSink.constructor` | custom-serilog/Core/Sinks/DisposingAggregateSink.cs:31 | the sinks are copied into a fresh array holding the input in the same order; the aggregate records that input as its contents and starts valid |
| `CoreSinks.DisposingAggregateSink.Create` | custom-serilog/Core/Sinks/DisposingAggregateSink.cs:28-32 | a null source fails with `ArgumentNullException("sinks")`, and no aggregate is created; otherwise construction succeeds with a fresh, valid aggregate whose contents are the input |
| `CoreSinks.DisposingAggregateSink.Emit` | custom-serilog/Core/Sinks/DisposingAggregateSink.cs:34-53 | every sink gets exactly one `Emit` call with the event, in array order. The SelfLog lines are the "emitting" reports of the throwing sinks. The result is normal exactly when no sink threw, and then there is no SelfLog line. Otherwise it is one aggregate with the fixed message whose inner exceptions are those of the throwing sinks, in order, with one SelfLog line per inner exception |
| `CoreSinks.DisposingAggregateSink.Dispose` | custom-serilog/Core/Sinks/DisposingAggregateSink.cs:55-70 | it never fails. Its calls are exactly the dispose calls of the disposable sinks and its SelfLog lines exactly the "disposing" reports. Every disposable sink gets one dispose call, at its rank among the disposable sinks. Every call is a dispose of some disposable sink at that rank. Every SelfLog line reports a disposable sink whose `Dispose` threw, at its rank |
| `AggregateSpec.EmitOutcome` | custom-serilog/Core/Sinks/DisposingAggregateSink.cs:51-52 | an `Emit` pass ends normally if and only if every sink's `Emit` returned |
| `AggregateSpec.EmitAttemptsEverySink` | custom-serilog/Core/Sinks/DisposingAggregateSink.cs:37-42 | the calls of an `Emit` pass are exactly one `Emit` of the event per sink, in array order, whatever the outcomes |
| `AggregateSpec.EmitTraceDiags` | custom-serilog/Core/Sinks/DisposingAggregateSink.cs:43-45 | the SelfLog lines of an `Emit` pass are exactly one "emitting" line per throwing sink, in array order, naming the sink and its exception |
| `AggregateSpec.EmitErrorsEmptyIffAllReturn` | custom-serilog/Core/Sinks/DisposingAggregateSink.cs:36-52 | no exception is collected if and only if no sink threw |
| `AggregateSpec.EmitTraceLength` | custom-serilog/Core/Sinks/DisposingAggregateSink.cs:37-47 | an `Emit` pass has exactly one effect per sink plus one per collected exception: the call, and a SelfLog line for each failure |
| `AggregateSpec.EmitReportsMirrorErrors` | custom-serilog/Core/Sinks/DisposingAggregateSink.cs:43-47 | there are as many "emitting" lines as collected exceptions, and the j-th line carries the j-th exception |
| `AggregateSpec.EmitFailureAt` | custom-serilog/Core/Sinks/DisposingAggregateSink.cs:43-47 | a sink that throws has its exception collected and its "emitting" line written, both at the position equal to the number of failures before it |
| `AggregateSpec.EmitFailureFrom` | custom-serilog/Core/Sinks/DisposingAggregateSink.cs:43-47 | every collected exception and every "emitting" line comes from a throwing sink, at that sink's rank among the failures |
| `AggregateSpec.DisposeTraceCalls` | custom-serilog/Core/Sinks/DisposingAggregateSink.cs:57-63 | the calls of a `Dispose` pass are exactly one dispose call per disposable sink, in array order |
| `AggregateSpec.DisposeTraceDiags` | custom-serilog/Core/Sinks/DisposingAggregateSink.cs:61-68 | the SelfLog lines of a `Dispose` pass are exactly one "disposing" line per disposable sink whose `Dispose` threw, in array order |
| `AggregateSpec.DisposeCallAt` | custom-serilog/Core/Sinks/DisposingAggregateSink.cs:57-68 | a disposable sink gets its dispose call at its rank among the disposable sinks. If its `Dispose` throws, one "disposing" line names it and its exception, at its rank among the failures |
| `AggregateSpec.DisposeCallFrom` | custom-serilog/Core/Sinks/DisposingAggregateSink.cs:57-63 | every dispose call of a pass disposes a disposable sink at that sink's rank, so no non-disposable sink is disposed |
| `AggregateSpec.DisposeReportFrom` | custom-serilog/Core/Sinks/DisposingAggregateSink.cs:61-68 | every "disposing" line of a pass comes from a disposable sink whose `Dispose` threw, at that sink's rank among the failures |
| `AggregateSpec.SkippedSinkLeavesNoTrace` | custom-serilog/Core/Sinks/DisposingAggregateSink.cs:59 | inserting a non-disposable sink anywhere leaves the `Dispose` trace unchanged: it gets no call and no SelfLog line |
| `AggregateSpec.DisposeTwiceRepeats` | custom-serilog/Core/Sinks/DisposingAggregateSink.cs:55-70 | two `Dispose` passes dispose each disposable sink twice, once in each pass, and report a failing one twice |

## Left out

- SelfLog's own behaviour (message formatting, where lines go, its own failures) is not modelled. A line is reduced to its phrase ("emitting" or "disposing"), the sink and the exception.
- `LogEvent`, the sinks' own implementations and .NET's `AggregateException` are opaque values. A sink's behaviour is a scripted outcome that is the same on every call. So a sink whose second `Dispose` behaves differently from its first is not modelled.
- A null element in the source array is not a separate case. At run time it behaves like a sink whose `Emit` throws and that is not disposable, and such a sink can be scripted.
- Concurrent callers of `Emit` are not modelled; the class does no synchronization.
- The source is taken as an already finite sequence or null. Lazy `IEnumerable` evaluation is not modelled.
- The demo program in serilog-test/Program.cs is not part of this model. It only configures the logger and writes sample events.
