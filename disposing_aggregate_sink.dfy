/**
 Serilog's DisposingAggregateSink: a sink that forwards every log event to a
 fixed, ordered array of sinks, isolating their failures, and that disposes
 those of them that are disposable when it is disposed itself.

 Calls on the sinks and lines written to SelfLog are returned as a trace of
 effects; an exception the source throws is returned as a value.
 */
module CoreSinks {
  import opened Collaborators
  import opened AggregateSpec

  /** .NET's ArgumentNullException, naming the parameter that was null. */
  datatype ArgumentNullException = ArgumentNullException(paramName: string)

  class DisposingAggregateSink {
    /** The sinks, in dispatch order; assigned once, by the constructor. */
    const sinks: array<Sink>

    /** The sinks the aggregate was constructed with. */
    ghost const contents: seq<Sink>

    /** The array is private to the aggregate, so it still holds what the constructor stored. */
    ghost predicate Valid()
      reads this, sinks
    {
      sinks[..] == contents
    }

    /** Copies `source` into a fresh array, as `ToArray()` does. */
    constructor (source: seq<Sink>)
      ensures fresh(sinks)
      ensures contents == source && Valid()
    {
      var copy := new Sink[|source|](i requires 0 <= i < |source| => source[i]);
      sinks := copy;
      contents := source;
    }

    /**
     The public constructor: a null source throws ArgumentNullException
     before anything is stored; otherwise the sinks are copied in order.
     */
    static method Create(source: Option<seq<Sink>>) returns (r: Result<DisposingAggregateSink, ArgumentNullException>)
      ensures source.None? <==> r.Failure?
      ensures r.Failure? ==> r.error == ArgumentNullException("sinks")
      ensures r.Success? ==> fresh(r.value) && fresh(r.value.sinks) && r.value.contents == source.value && r.value.Valid()
    {
      if source.None? {
        return Failure(ArgumentNullException("sinks"));
      }
      var aggregate := new DisposingAggregateSink(source.value);
      r := Success(aggregate);
    }

    /**
     Offers `logEvent` to every sink in order. A sink that throws is reported
     to SelfLog and its exception collected, and the loop goes on; if any
     exception was collected, one AggregateException carries them all.
     */
    method Emit(logEvent: LogEvent) returns (result: EmitResult, trace: seq<Effect>)
      requires Valid()
      ensures trace == EmitTrace(contents, logEvent)
      ensures result == EmitOutcome(contents)
      ensures |Calls(trace)| == |contents|
      ensures forall i | 0 <= i < |contents| :: Calls(trace)[i] == EmitTo(contents[i].id, logEvent)
      ensures Diags(trace) == EmitReports(contents)
      ensures result.Emitted? <==> forall i | 0 <= i < |contents| :: contents[i].onEmit.Returns?
      ensures result.Emitted? <==> Diags(trace) == []
      ensures result.Failed? ==>
                && result.error.message == EmitFailedMessage
                && result.error.innerExceptions == EmitErrors(contents)
                && |Diags(trace)| == |result.error.innerExceptions|
    {
      var exceptions: Option<seq<Exception>> := None;
      trace := [];
      for i := 0 to sinks.Length
        invariant trace == EmitTrace(sinks[..i], logEvent)
        invariant exceptions.None? <==> EmitErrors(sinks[..i]) == []
        invariant exceptions.Some? ==> exceptions.value == EmitErrors(sinks[..i])
      {
        var sink := sinks[i];
        EmitPrefixStep(sinks[..], i, logEvent);
        trace := trace + [Called(EmitTo(sink.id, logEvent))];
        match sink.onEmit {
          case Returns =>
          case Throws(ex) =>
            trace := trace + [Logged(Emitting(sink.id, ex))];
            var collected := if exceptions.None? then [] else exceptions.value;
            exceptions := Some(collected + [ex]);
        }
      }
      assert sinks[..sinks.Length] == sinks[..];
      if exceptions.Some? {
        result := Failed(AggregateException(EmitFailedMessage, exceptions.value));
      } else {
        result := Emitted;
      }
      EmitAttemptsEverySink(sinks[..], logEvent);
      EmitTraceDiags(sinks[..], logEvent);
      EmitReportsMirrorErrors(sinks[..]);
    }

    /**
     Disposes, in order, every sink that is disposable, skipping the others.
     A Dispose that throws is reported to SelfLog and otherwise swallowed, so
     this method always returns normally. Nothing records that it ran.
     */
    method Dispose() returns (trace: seq<Effect>)
      requires Valid()
      ensures trace == DisposeTrace(contents)
      ensures Calls(trace) == DisposeCalls(contents)
      ensures Diags(trace) == DisposeReports(contents)
      ensures forall k | 0 <= k < |contents| && contents[k].disposable ::
                |DisposeCalls(contents[..k])| < |Calls(trace)| &&
                Calls(trace)[|DisposeCalls(contents[..k])|] == DisposeOf(contents[k].id)
      ensures forall j | 0 <= j < |Calls(trace)| ::
                Calls(trace)[j].DisposeOf? && exists k | 0 <= k < |contents| :: DisposalOf(contents, j, k)
      ensures forall j | 0 <= j < |Diags(trace)| ::
                Diags(trace)[j].Disposing? && exists k | 0 <= k < |contents| :: DisposeReportOf(contents, j, k)
    {
      trace := [];
      for i := 0 to sinks.Length
        invariant trace == DisposeTrace(sinks[..i])
      {
        var sink := sinks[i];
        DisposePrefixStep(sinks[..], i);
        if !sink.disposable {
          continue;
        }
        trace := trace + [Called(DisposeOf(sink.id))];
        match sink.onDispose {
          case Returns =>
          case Throws(ex) =>
            trace := trace + [Logged(Disposing(sink.id, ex))];
        }
      }
      assert sinks[..sinks.Length] == sinks[..];
      DisposeTraceCalls(contents);
      DisposeTraceDiags(contents);
      forall k | 0 <= k < |contents| && contents[k].disposable
        ensures |DisposeCalls(contents[..k])| < |Calls(trace)|
        ensures Calls(trace)[|DisposeCalls(contents[..k])|] == DisposeOf(contents[k].id)
      {
        DisposeCallAt(contents, k);
      }
      forall j | 0 <= j < |Calls(trace)|
        ensures Calls(trace)[j].DisposeOf? && exists k | 0 <= k < |contents| :: DisposalOf(contents, j, k)
      {
        DisposeCallFrom(contents, j);
      }
      forall j | 0 <= j < |Diags(trace)|
        ensures Diags(trace)[j].Disposing? && exists k | 0 <= k < |contents| :: DisposeReportOf(contents, j, k)
      {
        DisposeReportFrom(contents, j);
      }
    }
  }
}
