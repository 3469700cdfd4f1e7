/**
 * Payload validation ahead of the store: straight-line check chains that
 * stop at the first failing check, and batch validators that sort each
 * input into the valid items or an error tagged with its input index.
 *
 * The current time is a parameter (`now`, integer seconds); a created log
 * entry or metric point takes a fresh identifier from the caller.
 */
module Validators {
  import opened Wrappers
  import opened Telemetry

  /** How far in the past (7 days) and the future (5 minutes) a timestamp may lie. */
  const MaxPastSeconds: int := 7 * 24 * 60 * 60
  const MaxFutureSeconds: int := 5 * 60
  const MaxServiceNameLength: int := 128
  const MaxMessageLength: int := 65536
  const MaxMetricNameLength: int := 256

  /** The first failing check of a validation chain. */
  datatype ValidationError =
    | TimestampTooOld(timestamp: int)
    | TimestampInFuture(timestamp: int)
    | ServiceNameEmpty
    | ServiceNameTooLong
    | ServiceNameInvalidChars
    | MessageEmpty
    | MessageTooLong
    | MetricNameEmpty
    | MetricNameTooLong
    | InStartTime(cause: ValidationError)
    | InEndTime(cause: ValidationError)
    | EndBeforeStart
    | TraceIdEmpty
    | SpanIdEmpty
    | NoSpans
    | InSpan(index: nat, cause: ValidationError)
    | MismatchedTraceId(spanId: string)

  /** The outcome of a check that produces nothing: `(True, None)` or `(False, error)`. */
  datatype Verdict = Accepted | Rejected(error: ValidationError)

  /** A log entry as submitted, before it has an identifier. */
  datatype LogInput = LogInput(timestamp: int, serviceName: string, level: LogLevel, message: string)

  /** A metric data point as submitted, before it has an identifier. */
  datatype MetricInput = MetricInput(timestamp: int, serviceName: string, metricName: string, value: int)

  /** A trace as submitted; its spans have the fields of `Span`. */
  datatype TraceInput = TraceInput(traceId: string, spans: seq<Span>)

  /** A batch error: the item kind, its input index and the item's own error. */
  datatype BatchError = BatchError(kind: string, index: nat, cause: ValidationError)

  /** The valid items of a batch, in input order, and the errors of the others. */
  datatype ValidationResult<T> = ValidationResult(validItems: seq<T>, errors: seq<BatchError>)
  {
    function HasErrors(): bool { |errors| > 0 }
    function SuccessCount(): nat { |validItems| }
    function ErrorCount(): nat { |errors| }
  }

  // ---------------------------------------------------------------------
  // Single items
  // ---------------------------------------------------------------------

  /** Accepts a timestamp from 7 days before `now` up to 5 minutes after it, both inclusive. */
  function ValidateTimestamp(timestamp: int, now: int): (r: Verdict)
    ensures r.Accepted? <==> now - MaxPastSeconds <= timestamp <= now + MaxFutureSeconds
    ensures r == Rejected(TimestampTooOld(timestamp)) <==> timestamp < now - MaxPastSeconds
    ensures r == Rejected(TimestampInFuture(timestamp))
            <==> now - MaxPastSeconds <= timestamp && now + MaxFutureSeconds < timestamp
  {
    if timestamp < now - MaxPastSeconds then Rejected(TimestampTooOld(timestamp))
    else if timestamp > now + MaxFutureSeconds then Rejected(TimestampInFuture(timestamp))
    else Accepted
  }

  /** The character class `[a-zA-Z0-9_-]`. */
  predicate IsServiceNameChar(c: char)
  {
    ('a' <= c <= 'z') || ('A' <= c <= 'Z') || ('0' <= c <= '9') || c == '_' || c == '-'
  }

  predicate AllServiceNameChars(s: string)
  {
    forall i :: 0 <= i < |s| ==> IsServiceNameChar(s[i])
  }

  /**
   * What `re.match(r'^[a-zA-Z0-9_-]+$', s)` accepts: one or more class
   * characters, where `$` also matches just before a final newline.
   */
  predicate MatchesServiceNamePattern(s: string)
  {
    (|s| >= 1 && AllServiceNameChars(s))
    || (|s| >= 2 && s[|s| - 1] == '\n' && AllServiceNameChars(s[..|s| - 1]))
  }

  /** The service-name check as written, with the pattern above. */
  function ValidateServiceNameAsWritten(serviceName: string): (r: Verdict)
    ensures r.Accepted? <==> 1 <= |serviceName| <= MaxServiceNameLength
                             && MatchesServiceNamePattern(serviceName)
  {
    if |serviceName| == 0 then Rejected(ServiceNameEmpty)
    else if |serviceName| > MaxServiceNameLength then Rejected(ServiceNameTooLong)
    else if !MatchesServiceNamePattern(serviceName) then Rejected(ServiceNameInvalidChars)
    else Accepted
  }

  /** The pattern as written lets a newline through at the end of a name. */
  lemma AsWrittenAcceptsTrailingNewline()
    ensures ValidateServiceNameAsWritten("svc\n") == Accepted
    ensures ValidateServiceName("svc\n") == Rejected(ServiceNameInvalidChars)
  {
    assert IsServiceNameChar('s') && IsServiceNameChar('v') && IsServiceNameChar('c');
    assert "svc\n"[..3] == "svc";
    assert !IsServiceNameChar("svc\n"[3]);
  }

  /** The two checks differ only on names that end in a newline. */
  lemma AsWrittenAgreesWithoutTrailingNewline(serviceName: string)
    requires |serviceName| == 0 || serviceName[|serviceName| - 1] != '\n'
    ensures ValidateServiceNameAsWritten(serviceName) == ValidateServiceName(serviceName)
  {
  }

  /**
   * Accepts a non-empty service name of at most 128 class characters. The
   * checks run empty, then length, then character set; the first failing
   * one gives the error.
   */
  function ValidateServiceName(serviceName: string): (r: Verdict)
    ensures r.Accepted? <==> 1 <= |serviceName| <= MaxServiceNameLength
                             && AllServiceNameChars(serviceName)
    ensures |serviceName| == 0 ==> r == Rejected(ServiceNameEmpty)
    ensures |serviceName| > MaxServiceNameLength ==> r == Rejected(ServiceNameTooLong)
    ensures 1 <= |serviceName| <= MaxServiceNameLength && !AllServiceNameChars(serviceName)
            ==> r == Rejected(ServiceNameInvalidChars)
  {
    if |serviceName| == 0 then Rejected(ServiceNameEmpty)
    else if |serviceName| > MaxServiceNameLength then Rejected(ServiceNameTooLong)
    else if !AllServiceNameChars(serviceName) then Rejected(ServiceNameInvalidChars)
    else Accepted
  }

  /**
   * Checks the timestamp, then the service name, then the message (not
   * empty, at most 65536 characters); on success builds the entry with
   * the fresh identifier `id`.
   */
  function ValidateLogEntry(data: LogInput, now: int, id: string): (r: Result<LogEntry, ValidationError>)
    ensures r.Ok? <==> ValidateTimestamp(data.timestamp, now).Accepted?
                       && ValidateServiceName(data.serviceName).Accepted?
                       && 1 <= |data.message| <= MaxMessageLength
    ensures r.Ok? ==> r.value == LogEntry(id, data.timestamp, data.serviceName, data.level, data.message)
    ensures ValidateTimestamp(data.timestamp, now).Rejected?
            ==> r == Err(ValidateTimestamp(data.timestamp, now).error)
    ensures ValidateTimestamp(data.timestamp, now).Accepted? && ValidateServiceName(data.serviceName).Rejected?
            ==> r == Err(ValidateServiceName(data.serviceName).error)
    ensures ValidateTimestamp(data.timestamp, now).Accepted? && ValidateServiceName(data.serviceName).Accepted?
            && |data.message| == 0
            ==> r == Err(MessageEmpty)
    ensures ValidateTimestamp(data.timestamp, now).Accepted? && ValidateServiceName(data.serviceName).Accepted?
            && |data.message| > MaxMessageLength
            ==> r == Err(MessageTooLong)
  {
    match ValidateTimestamp(data.timestamp, now)
    case Rejected(e) => Err(e)
    case Accepted =>
      match ValidateServiceName(data.serviceName)
      case Rejected(e) => Err(e)
      case Accepted =>
        if |data.message| == 0 then Err(MessageEmpty)
        else if |data.message| > MaxMessageLength then Err(MessageTooLong)
        else Ok(LogEntry(id, data.timestamp, data.serviceName, data.level, data.message))
  }

  /**
   * Checks the timestamp, then the service name, then the metric name (not
   * empty, at most 256 characters); on success builds the point with the
   * fresh identifier `id`.
   */
  function ValidateMetricDataPoint(data: MetricInput, now: int, id: string): (r: Result<MetricPoint, ValidationError>)
    ensures r.Ok? <==> ValidateTimestamp(data.timestamp, now).Accepted?
                       && ValidateServiceName(data.serviceName).Accepted?
                       && 1 <= |data.metricName| <= MaxMetricNameLength
    ensures r.Ok? ==> r.value == MetricPoint(id, data.timestamp, data.serviceName, data.metricName, data.value)
    ensures ValidateTimestamp(data.timestamp, now).Rejected?
            ==> r == Err(ValidateTimestamp(data.timestamp, now).error)
    ensures ValidateTimestamp(data.timestamp, now).Accepted? && ValidateServiceName(data.serviceName).Rejected?
            ==> r == Err(ValidateServiceName(data.serviceName).error)
    ensures ValidateTimestamp(data.timestamp, now).Accepted? && ValidateServiceName(data.serviceName).Accepted?
            && |data.metricName| == 0
            ==> r == Err(MetricNameEmpty)
    ensures ValidateTimestamp(data.timestamp, now).Accepted? && ValidateServiceName(data.serviceName).Accepted?
            && |data.metricName| > MaxMetricNameLength
            ==> r == Err(MetricNameTooLong)
  {
    match ValidateTimestamp(data.timestamp, now)
    case Rejected(e) => Err(e)
    case Accepted =>
      match ValidateServiceName(data.serviceName)
      case Rejected(e) => Err(e)
      case Accepted =>
        if |data.metricName| == 0 then Err(MetricNameEmpty)
        else if |data.metricName| > MaxMetricNameLength then Err(MetricNameTooLong)
        else Ok(MetricPoint(id, data.timestamp, data.serviceName, data.metricName, data.value))
  }

  /** The span's times and service name pass: the checks made before the identifiers. */
  predicate SpanTimesAndServiceValid(s: Span, now: int)
  {
    && now - MaxPastSeconds <= s.startTime <= now + MaxFutureSeconds
    && now - MaxPastSeconds <= s.endTime <= now + MaxFutureSeconds
    && s.startTime <= s.endTime
    && ValidateServiceName(s.serviceName).Accepted?
  }

  /** Everything a span must satisfy, stated apart from the order of the checks. */
  predicate SpanAcceptable(s: Span, now: int)
  {
    SpanTimesAndServiceValid(s, now) && |s.traceId| > 0 && |s.spanId| > 0
  }

  /**
   * Checks start time, end time, end not before start, service name,
   * trace id and span id, in that order.
   */
  function ValidateSpan(data: Span, now: int): (r: Result<Span, ValidationError>)
    ensures r.Ok? <==> SpanAcceptable(data, now)
    ensures r.Ok? ==> r.value == data
    ensures ValidateTimestamp(data.startTime, now).Rejected?
            ==> r == Err(InStartTime(ValidateTimestamp(data.startTime, now).error))
    ensures ValidateTimestamp(data.startTime, now).Accepted? && ValidateTimestamp(data.endTime, now).Accepted?
            && data.endTime < data.startTime
            ==> r == Err(EndBeforeStart)
    ensures ValidateTimestamp(data.startTime, now).Accepted? && ValidateTimestamp(data.endTime, now).Rejected?
            ==> r == Err(InEndTime(ValidateTimestamp(data.endTime, now).error))
    ensures ValidateTimestamp(data.startTime, now).Accepted? && ValidateTimestamp(data.endTime, now).Accepted?
            && data.startTime <= data.endTime && ValidateServiceName(data.serviceName).Rejected?
            ==> r == Err(ValidateServiceName(data.serviceName).error)
    ensures SpanTimesAndServiceValid(data, now) && |data.traceId| == 0 ==> r == Err(TraceIdEmpty)
    ensures SpanTimesAndServiceValid(data, now) && |data.traceId| > 0 && |data.spanId| == 0 ==> r == Err(SpanIdEmpty)
  {
    match ValidateTimestamp(data.startTime, now)
    case Rejected(e) => Err(InStartTime(e))
    case Accepted =>
      match ValidateTimestamp(data.endTime, now)
      case Rejected(e) => Err(InEndTime(e))
      case Accepted =>
        if data.endTime < data.startTime then Err(EndBeforeStart)
        else
          match ValidateServiceName(data.serviceName)
          case Rejected(e) => Err(e)
          case Accepted =>
            if |data.traceId| == 0 then Err(TraceIdEmpty)
            else if |data.spanId| == 0 then Err(SpanIdEmpty)
            else Ok(data)
  }

  /**
   * The record validators use the corrected service-name check, so a name
   * with a final newline is rejected here, where the source accepts it.
   */
  lemma ComposedChecksRejectTrailingNewline(now: int)
    ensures ValidateLogEntry(LogInput(now, "svc\n", Info, "m"), now, "id") == Err(ServiceNameInvalidChars)
    ensures ValidateMetricDataPoint(MetricInput(now, "svc\n", "cpu", 0), now, "id") == Err(ServiceNameInvalidChars)
    ensures ValidateSpan(Span("t", "s", None, "svc\n", "op", now, now, 0, SpanOk), now) == Err(ServiceNameInvalidChars)
  {
    AsWrittenAcceptsTrailingNewline();
  }

  /** The index of the first span that fails validation, if any. */
  function FirstInvalidSpan(spans: seq<Span>, now: int): (r: Option<nat>)
    ensures r.None? <==> forall i :: 0 <= i < |spans| ==> ValidateSpan(spans[i], now).Ok?
    ensures r.Some? ==> r.value < |spans| && ValidateSpan(spans[r.value], now).Err?
                        && forall j :: 0 <= j < r.value ==> ValidateSpan(spans[j], now).Ok?
  {
    if spans == [] then None
    else if ValidateSpan(spans[0], now).Err? then Some(0)
    else
      var r := FirstInvalidSpan(spans[1..], now);
      assert forall i :: 1 <= i < |spans| ==> spans[i] == spans[1..][i - 1];
      if r.Some? then Some(r.value + 1) else None
  }

  /** The index of the first span whose trace id is not `traceId`, if any. */
  function FirstMismatchedSpan(spans: seq<Span>, traceId: string): (r: Option<nat>)
    ensures r.None? <==> forall i :: 0 <= i < |spans| ==> spans[i].traceId == traceId
    ensures r.Some? ==> r.value < |spans| && spans[r.value].traceId != traceId
                        && forall j :: 0 <= j < r.value ==> spans[j].traceId == traceId
  {
    if spans == [] then None
    else if spans[0].traceId != traceId then Some(0)
    else
      var r := FirstMismatchedSpan(spans[1..], traceId);
      assert forall i :: 1 <= i < |spans| ==> spans[i] == spans[1..][i - 1];
      if r.Some? then Some(r.value + 1) else None
  }

  /** What `validate_trace` returns, as a function of its input. */
  function TraceVerdict(data: TraceInput, now: int): Result<Trace, ValidationError>
  {
    if |data.traceId| == 0 then Err(TraceIdEmpty)
    else if |data.spans| == 0 then Err(NoSpans)
    else
      match FirstInvalidSpan(data.spans, now)
      case Some(i) => Err(InSpan(i, ValidateSpan(data.spans[i], now).error))
      case None =>
        match FirstMismatchedSpan(data.spans, data.traceId)
        case Some(i) => Err(MismatchedTraceId(data.spans[i].spanId))
        case None => Ok(NewTrace(data.traceId, data.spans))
  }

  /**
   * A trace is accepted iff its id and span list are non-empty, every span
   * validates and every span carries the trace's id; an accepted trace is
   * built from exactly those spans.
   */
  lemma TraceVerdictAccepts(data: TraceInput, now: int)
    ensures TraceVerdict(data, now).Ok?
            <==> |data.traceId| > 0 && |data.spans| > 0
                 && (forall i :: 0 <= i < |data.spans| ==> SpanAcceptable(data.spans[i], now))
                 && (forall i :: 0 <= i < |data.spans| ==> data.spans[i].traceId == data.traceId)
    ensures TraceVerdict(data, now).Ok? ==>
              TraceVerdict(data, now).value == NewTrace(data.traceId, data.spans)
              && forall s :: s in TraceVerdict(data, now).value.spans ==> s.traceId == data.traceId
  {
  }

  /** A span error names the lowest-index failing span and that span's own error. */
  lemma TraceVerdictFirstSpanError(data: TraceInput, now: int, i: nat, e: ValidationError)
    requires TraceVerdict(data, now) == Err(InSpan(i, e))
    ensures |data.traceId| > 0
    ensures i < |data.spans| && ValidateSpan(data.spans[i], now) == Err(e)
    ensures forall j :: 0 <= j < i ==> SpanAcceptable(data.spans[j], now)
  {
  }

  /**
   * A mismatch is reported only once every span validates, and names the
   * first span whose trace id differs.
   */
  lemma TraceVerdictMismatch(data: TraceInput, now: int, spanId: string)
    requires TraceVerdict(data, now) == Err(MismatchedTraceId(spanId))
    ensures forall j :: 0 <= j < |data.spans| ==> SpanAcceptable(data.spans[j], now)
    ensures exists i :: 0 <= i < |data.spans| && data.spans[i].spanId == spanId
                        && data.spans[i].traceId != data.traceId
                        && forall j :: 0 <= j < i ==> data.spans[j].traceId == data.traceId
  {
    var i := FirstMismatchedSpan(data.spans, data.traceId).value;
    assert data.spans[i].spanId == spanId;
  }

  /**
   * Validates a trace: its id, then that it has spans, then each span in
   * order (the first failure wins), then that every span carries the
   * trace's id.
   */
  method ValidateTrace(data: TraceInput, now: int) returns (r: Result<Trace, ValidationError>)
    ensures r == TraceVerdict(data, now)
  {
    if |data.traceId| == 0 {
      return Err(TraceIdEmpty);
    }
    if |data.spans| == 0 {
      return Err(NoSpans);
    }
    var validated: seq<Span> := [];
    var idx := 0;
    while idx < |data.spans|
      invariant 0 <= idx <= |data.spans|
      invariant validated == data.spans[..idx]
      invariant forall j :: 0 <= j < idx ==> ValidateSpan(data.spans[j], now).Ok?
    {
      var checked := ValidateSpan(data.spans[idx], now);
      if checked.Err? {
        return Err(InSpan(idx, checked.error));
      }
      validated := validated + [checked.value];
      idx := idx + 1;
    }
    assert validated == data.spans;
    idx := 0;
    while idx < |validated|
      invariant 0 <= idx <= |validated|
      invariant forall j :: 0 <= j < idx ==> validated[j].traceId == data.traceId
    {
      if validated[idx].traceId != data.traceId {
        return Err(MismatchedTraceId(validated[idx].spanId));
      }
      idx := idx + 1;
    }
    r := Ok(NewTrace(data.traceId, validated));
  }

  // ---------------------------------------------------------------------
  // Batches
  // ---------------------------------------------------------------------

  /** The valid items and indexed errors of a sequence of item outcomes. */
  function Partition<T>(outcomes: seq<Result<T, ValidationError>>, kind: string): ValidationResult<T>
  {
    if outcomes == [] then ValidationResult([], [])
    else
      var n := |outcomes| - 1;
      var p := Partition(outcomes[..n], kind);
      match outcomes[n]
      case Ok(v) => p.(validItems := p.validItems + [v])
      case Err(e) => p.(errors := p.errors + [BatchError(kind, n, e)])
  }

  /** The successful values, in input order. */
  function Oks<T>(outcomes: seq<Result<T, ValidationError>>): seq<T>
  {
    if outcomes == [] then []
    else (if outcomes[0].Ok? then [outcomes[0].value] else []) + Oks(outcomes[1..])
  }

  lemma {:induction false} OksAppend<T>(a: seq<Result<T, ValidationError>>, x: Result<T, ValidationError>)
    ensures Oks(a + [x]) == Oks(a) + (if x.Ok? then [x.value] else [])
  {
    if a == [] {
      assert a + [x] == [x];
    } else {
      assert (a + [x])[0] == a[0] && (a + [x])[1..] == a[1..] + [x];
      OksAppend(a[1..], x);
    }
  }

  /** The valid items are the successful values in input order; with the errors they account for every input. */
  lemma {:induction false} PartitionCounts<T>(outcomes: seq<Result<T, ValidationError>>, kind: string)
    ensures var p := Partition(outcomes, kind);
      p.SuccessCount() + p.ErrorCount() == |outcomes| && p.validItems == Oks(outcomes)
  {
    if outcomes != [] {
      var n := |outcomes| - 1;
      assert outcomes == outcomes[..n] + [outcomes[n]];
      PartitionCounts(outcomes[..n], kind);
      OksAppend(outcomes[..n], outcomes[n]);
    }
  }

  /** Each error names its batch, the index of a failed input and that input's cause, in ascending index order. */
  lemma {:induction false} PartitionErrorsFaithful<T>(outcomes: seq<Result<T, ValidationError>>, kind: string)
    ensures var p := Partition(outcomes, kind);
      forall k :: 0 <= k < |p.errors| ==> p.errors[k].kind == kind && p.errors[k].index < |outcomes|
    ensures var p := Partition(outcomes, kind);
      forall k :: 0 <= k < |p.errors| ==> p.errors[k].index < |outcomes| && outcomes[p.errors[k].index] == Err(p.errors[k].cause)
    ensures var p := Partition(outcomes, kind);
      forall k1, k2 :: 0 <= k1 < k2 < |p.errors| ==> p.errors[k1].index < p.errors[k2].index
  {
    if outcomes != [] {
      var n := |outcomes| - 1;
      assert outcomes == outcomes[..n] + [outcomes[n]];
      var q := Partition(outcomes[..n], kind);
      var p := Partition(outcomes, kind);
      PartitionErrorsFaithful(outcomes[..n], kind);
      assert forall k :: 0 <= k < |Partition(outcomes[..n], kind).errors| ==> Partition(outcomes[..n], kind).errors[k].index < |outcomes[..n]|;
      assert |q.errors| <= |p.errors| && forall k :: 0 <= k < |q.errors| ==> p.errors[k] == q.errors[k];
      assert |p.errors| == |q.errors| + (if outcomes[n].Err? then 1 else 0);
      forall k | 0 <= k < |p.errors|
        ensures p.errors[k].kind == kind && p.errors[k].index < |outcomes|
                && outcomes[p.errors[k].index] == Err(p.errors[k].cause)
      {
        if k < |q.errors| {
          assert outcomes[..n][q.errors[k].index] == outcomes[q.errors[k].index];
        }
      }
    }
  }

  /** Every failed input has an error that names its index. */
  ghost predicate Covered<T>(outcomes: seq<Result<T, ValidationError>>, errors: seq<BatchError>)
  {
    forall i :: 0 <= i < |outcomes| && outcomes[i].Err? ==> exists k :: 0 <= k < |errors| && errors[k].index == i
  }

  /** Every failed input has an error. */
  lemma {:induction false} PartitionErrorsCover<T>(outcomes: seq<Result<T, ValidationError>>, kind: string)
    ensures Covered(outcomes, Partition(outcomes, kind).errors)
  {
    if outcomes != [] {
      var n := |outcomes| - 1;
      var init := outcomes[..n];
      assert outcomes == init + [outcomes[n]];
      PartitionErrorsCover(init, kind);
      var q := Partition(init, kind);
      var p := Partition(outcomes, kind);
      assert |q.errors| <= |p.errors| && forall k :: 0 <= k < |q.errors| ==> p.errors[k] == q.errors[k];
      forall i | 0 <= i < |outcomes| && outcomes[i].Err?
        ensures exists k :: 0 <= k < |p.errors| && p.errors[k].index == i
      {
        if i < n {
          assert init[i] == outcomes[i];
          var k :| 0 <= k < |q.errors| && q.errors[k].index == i;
          assert p.errors[k].index == i;
        } else {
          assert p.errors[|p.errors| - 1].index == i;
        }
      }
      assert Covered(outcomes, p.errors);
    }
  }

  /**
   * Every input lands in exactly one of the two lists: the valid items are
   * the successful values in input order, and the errors are those of the
   * failed inputs, tagged with their indices in ascending order.
   */
  lemma PartitionIsExact<T>(outcomes: seq<Result<T, ValidationError>>, kind: string)
    ensures var p := Partition(outcomes, kind);
      && p.SuccessCount() + p.ErrorCount() == |outcomes|
      && p.validItems == Oks(outcomes)
      && (forall k :: 0 <= k < |p.errors| ==>
            p.errors[k].kind == kind && p.errors[k].index < |outcomes|
            && outcomes[p.errors[k].index] == Err(p.errors[k].cause))
      && (forall k1, k2 :: 0 <= k1 < k2 < |p.errors| ==> p.errors[k1].index < p.errors[k2].index)
      && (forall i :: 0 <= i < |outcomes| && outcomes[i].Err? ==>
            exists k :: 0 <= k < |p.errors| && p.errors[k].index == i)
  {
    PartitionCounts(outcomes, kind);
    PartitionErrorsFaithful(outcomes, kind);
    PartitionErrorsCover(outcomes, kind);
  }

  function LogOutcomes(logs: seq<LogInput>, now: int, ids: seq<string>): (r: seq<Result<LogEntry, ValidationError>>)
    requires |ids| == |logs|
    ensures |r| == |logs|
  {
    seq(|logs|, i requires 0 <= i < |logs| => ValidateLogEntry(logs[i], now, ids[i]))
  }

  function MetricOutcomes(metrics: seq<MetricInput>, now: int, ids: seq<string>): (r: seq<Result<MetricPoint, ValidationError>>)
    requires |ids| == |metrics|
    ensures |r| == |metrics|
  {
    seq(|metrics|, i requires 0 <= i < |metrics| => ValidateMetricDataPoint(metrics[i], now, ids[i]))
  }

  function TraceOutcomes(traces: seq<TraceInput>, now: int): (r: seq<Result<Trace, ValidationError>>)
    ensures |r| == |traces|
  {
    seq(|traces|, i requires 0 <= i < |traces| => TraceVerdict(traces[i], now))
  }

  /** Validates each log in turn; `ids[i]` is the fresh id for the i-th log. */
  method ValidateLogBatch(logs: seq<LogInput>, now: int, ids: seq<string>) returns (result: ValidationResult<LogEntry>)
    requires |ids| == |logs|
    ensures result == Partition(LogOutcomes(logs, now, ids), "Log")
    ensures result.SuccessCount() + result.ErrorCount() == |logs|
    ensures forall k :: 0 <= k < |result.errors| ==>
              result.errors[k].index < |logs|
              && ValidateLogEntry(logs[result.errors[k].index], now, ids[result.errors[k].index])
                 == Err(result.errors[k].cause)
  {
    ghost var outcomes := LogOutcomes(logs, now, ids);
    result := ValidationResult([], []);
    var idx := 0;
    while idx < |logs|
      invariant 0 <= idx <= |logs|
      invariant result == Partition(outcomes[..idx], "Log")
    {
      var entry := ValidateLogEntry(logs[idx], now, ids[idx]);
      assert outcomes[..idx + 1][..idx] == outcomes[..idx];
      if entry.Err? {
        result := result.(errors := result.errors + [BatchError("Log", idx, entry.error)]);
      } else {
        result := result.(validItems := result.validItems + [entry.value]);
      }
      idx := idx + 1;
    }
    assert outcomes[..idx] == outcomes;
    PartitionIsExact(outcomes, "Log");
  }

  /** Validates each metric in turn; `ids[i]` is the fresh id for the i-th point. */
  method ValidateMetricBatch(metrics: seq<MetricInput>, now: int, ids: seq<string>) returns (result: ValidationResult<MetricPoint>)
    requires |ids| == |metrics|
    ensures result == Partition(MetricOutcomes(metrics, now, ids), "Metric")
    ensures result.SuccessCount() + result.ErrorCount() == |metrics|
    ensures forall k :: 0 <= k < |result.errors| ==>
              result.errors[k].index < |metrics|
              && ValidateMetricDataPoint(metrics[result.errors[k].index], now, ids[result.errors[k].index])
                 == Err(result.errors[k].cause)
  {
    ghost var outcomes := MetricOutcomes(metrics, now, ids);
    result := ValidationResult([], []);
    var idx := 0;
    while idx < |metrics|
      invariant 0 <= idx <= |metrics|
      invariant result == Partition(outcomes[..idx], "Metric")
    {
      var point := ValidateMetricDataPoint(metrics[idx], now, ids[idx]);
      assert outcomes[..idx + 1][..idx] == outcomes[..idx];
      if point.Err? {
        result := result.(errors := result.errors + [BatchError("Metric", idx, point.error)]);
      } else {
        result := result.(validItems := result.validItems + [point.value]);
      }
      idx := idx + 1;
    }
    assert outcomes[..idx] == outcomes;
    PartitionIsExact(outcomes, "Metric");
  }

  /** Validates each trace in turn. */
  method ValidateTraceBatch(traces: seq<TraceInput>, now: int) returns (result: ValidationResult<Trace>)
    ensures result == Partition(TraceOutcomes(traces, now), "Trace")
    ensures result.SuccessCount() + result.ErrorCount() == |traces|
    ensures forall k :: 0 <= k < |result.errors| ==>
              result.errors[k].index < |traces|
              && TraceVerdict(traces[result.errors[k].index], now) == Err(result.errors[k].cause)
  {
    ghost var outcomes := TraceOutcomes(traces, now);
    result := ValidationResult([], []);
    var idx := 0;
    while idx < |traces|
      invariant 0 <= idx <= |traces|
      invariant result == Partition(outcomes[..idx], "Trace")
    {
      var trace := ValidateTrace(traces[idx], now);
      assert outcomes[..idx + 1][..idx] == outcomes[..idx];
      if trace.Err? {
        result := result.(errors := result.errors + [BatchError("Trace", idx, trace.error)]);
      } else {
        result := result.(validItems := result.validItems + [trace.value]);
      }
      idx := idx + 1;
    }
    assert outcomes[..idx] == outcomes;
    PartitionIsExact(outcomes, "Trace");
  }
}
