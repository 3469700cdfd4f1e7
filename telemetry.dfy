/**
 * The telemetry records (log entries, metric data points, spans, traces)
 * and the fields a trace derives from its spans once, at construction.
 *
 * Timestamps and durations are integer seconds (span durations in integer
 * milliseconds, carried opaquely); identifiers and names are strings.
 * Attribute, label and event maps and the analysis placeholder fields are
 * not carried, since nothing modelled here reads them.
 */
module Telemetry {
  import opened Wrappers

  /** The standard log levels. */
  datatype LogLevel = Debug | Info | Warn | Warning | Error | Fatal | Critical

  /** The status of a span. */
  datatype SpanStatus = SpanOk | SpanError | SpanUnset

  /** One log entry; `id` is assigned when the entry is created. */
  datatype LogEntry = LogEntry(
    id: string,
    timestamp: int,
    serviceName: string,
    level: LogLevel,
    message: string)

  /** One metric observation; `value` is carried opaquely. */
  datatype MetricPoint = MetricPoint(
    id: string,
    timestamp: int,
    serviceName: string,
    metricName: string,
    value: int)

  /** One timed operation of a distributed trace. */
  datatype Span = Span(
    traceId: string,
    spanId: string,
    parentSpanId: Option<string>,
    serviceName: string,
    operationName: string,
    startTime: int,
    endTime: int,
    durationMs: int,
    status: SpanStatus)

  /** A trace with the three fields derived from its spans. */
  datatype Trace = Trace(
    traceId: string,
    spans: seq<Span>,
    rootService: Option<string>,
    totalDurationMs: int,
    hasError: bool)

  function LogTimestamp(e: LogEntry): int { e.timestamp }

  function MetricTimestamp(m: MetricPoint): int { m.timestamp }

  predicate IsRoot(s: Span) { s.parentSpanId.None? }

  /** The first-match loop: the service of the first span without a parent. */
  function FirstRootService(spans: seq<Span>): (r: Option<string>)
    ensures r.None? <==> forall i :: 0 <= i < |spans| ==> !IsRoot(spans[i])
    ensures r.Some? ==> exists i :: 0 <= i < |spans| && IsRoot(spans[i])
                          && r.value == spans[i].serviceName
                          && forall j :: 0 <= j < i ==> !IsRoot(spans[j])
  {
    if spans == [] then None
    else if IsRoot(spans[0]) then Some(spans[0].serviceName)
    else
      var r := FirstRootService(spans[1..]);
      assert forall i :: 1 <= i < |spans| ==> spans[i] == spans[1..][i - 1];
      r
  }

  /** The list comprehension of root spans, in span order. */
  function RootSpans(spans: seq<Span>): (r: seq<Span>)
    ensures forall x :: x in r <==> x in spans && IsRoot(x)
    ensures |r| <= |spans|
  {
    if spans == [] then []
    else if IsRoot(spans[0]) then [spans[0]] + RootSpans(spans[1..])
    else RootSpans(spans[1..])
  }

  /** `any(span.status == ERROR for span in spans)`. */
  function AnyError(spans: seq<Span>): (r: bool)
  {
    if spans == [] then false
    else spans[0].status == SpanError || AnyError(spans[1..])
  }

  /**
   * A trace built from its id and spans: the derived fields keep their
   * defaults (None, 0, false) for an empty span list.
   */
  function NewTrace(traceId: string, spans: seq<Span>): (t: Trace)
    ensures t.traceId == traceId && t.spans == spans
  {
    if spans == [] then Trace(traceId, spans, None, 0, false)
    else
      var root := FirstRootService(spans);
      var roots := RootSpans(spans);
      Trace(traceId, spans, root,
            if roots != [] then roots[0].durationMs else 0,
            AnyError(spans))
  }

  /** Derived fields have their defaults when there are no spans. */
  lemma NewTraceEmpty(traceId: string)
    ensures NewTrace(traceId, []).rootService == None
    ensures NewTrace(traceId, []).totalDurationMs == 0
    ensures !NewTrace(traceId, []).hasError
  {
  }

  /** `AnyError` is an any-match over the span list. */
  lemma {:induction false} AnyErrorExists(spans: seq<Span>)
    ensures AnyError(spans) <==> exists i :: 0 <= i < |spans| && spans[i].status == SpanError
  {
    if spans != [] {
      AnyErrorExists(spans[1..]);
      assert forall i :: 1 <= i < |spans| ==> spans[i] == spans[1..][i - 1];
      if AnyError(spans[1..]) {
        var i :| 0 <= i < |spans[1..]| && spans[1..][i].status == SpanError;
        assert spans[i + 1].status == SpanError;
      }
    }
  }

  /** A trace has an error iff some span has status ERROR. */
  lemma HasErrorIffSomeSpanFailed(traceId: string, spans: seq<Span>)
    ensures NewTrace(traceId, spans).hasError
            <==> exists i :: 0 <= i < |spans| && spans[i].status == SpanError
  {
    AnyErrorExists(spans);
  }

  /** The first element of `RootSpans` is the first parentless span. */
  lemma {:induction false} RootSpansHead(spans: seq<Span>, i: nat)
    requires i < |spans| && IsRoot(spans[i])
    requires forall j :: 0 <= j < i ==> !IsRoot(spans[j])
    ensures RootSpans(spans) != [] && RootSpans(spans)[0] == spans[i]
  {
    if i > 0 {
      assert !IsRoot(spans[0]);
      assert forall j :: 0 <= j < i - 1 ==> spans[1..][j] == spans[j + 1];
      RootSpansHead(spans[1..], i - 1);
    }
  }

  /** Without a parentless span there are no root spans. */
  lemma {:induction false} NoRootNoRootSpans(spans: seq<Span>)
    requires forall i :: 0 <= i < |spans| ==> !IsRoot(spans[i])
    ensures RootSpans(spans) == []
  {
    if spans != [] {
      assert forall i :: 0 <= i < |spans[1..]| ==> spans[1..][i] == spans[i + 1];
      NoRootNoRootSpans(spans[1..]);
    }
  }

  /**
   * The root service and the total duration come from one span, the first
   * without a parent; with no such span both keep their defaults.
   */
  lemma RootFieldsAgree(traceId: string, spans: seq<Span>)
    ensures var t := NewTrace(traceId, spans);
      (t.rootService.None? <==> forall i :: 0 <= i < |spans| ==> !IsRoot(spans[i]))
      && (t.rootService.None? ==> t.totalDurationMs == 0)
      && (t.rootService.Some? ==>
            exists i :: 0 <= i < |spans| && IsRoot(spans[i])
              && (forall j :: 0 <= j < i ==> !IsRoot(spans[j]))
              && t.rootService == Some(spans[i].serviceName)
              && t.totalDurationMs == spans[i].durationMs)
  {
    var t := NewTrace(traceId, spans);
    if spans != [] {
      var roots := RootSpans(spans);
      if t.rootService.Some? {
        var i :| 0 <= i < |spans| && IsRoot(spans[i]) && t.rootService.value == spans[i].serviceName
                 && forall j :: 0 <= j < i ==> !IsRoot(spans[j]);
        RootSpansHead(spans, i);
      } else {
        NoRootNoRootSpans(spans);
      }
    }
  }
}
