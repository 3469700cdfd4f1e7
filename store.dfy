/**
 * The in-memory telemetry store: per-service capped lists of logs and
 * metrics with by-id indices, an insertion-ordered, globally capped trace
 * map, the service registry and cumulative ingestion counters.
 *
 * Every method is one atomic step (the store's lock is not modelled). The
 * current time is a parameter of the retention sweep.
 */
module Store {
  import opened Wrappers
  import opened Telemetry
  import opened TimeUtil
  import opened Sorting
  import opened StoreSpec
  import opened ServiceLists
  import opened StoreOps

  class TelemetryStore {
    /** The retention period in seconds (`timedelta(hours=...)`). */
    const retention: nat
    const maxLogs: nat
    const maxMetrics: nat
    const maxTraces: nat

    /** Per-service log lists, oldest first, and the services in first-seen order. */
    var logs: map<string, seq<LogEntry>>
    var logOrder: seq<string>
    /** Per-service metric lists, oldest first, and the services in first-seen order. */
    var metrics: map<string, seq<MetricPoint>>
    var metricOrder: seq<string>
    /** Traces by id, with the ids in insertion order. */
    var traces: map<string, Trace>
    var traceOrder: seq<string>

    var logsById: map<string, LogEntry>
    var metricsById: map<string, MetricPoint>
    var services: set<string>
    var stats: IngestStats

    /**
     * Caps of at least one; both list families valid with their services
     * registered; the trace table valid.
     */
    ghost predicate Valid()
      reads this
    {
      StoreValid(maxLogs, maxMetrics, maxTraces, Family(logs, logOrder, logsById),
                 Family(metrics, metricOrder, metricsById), TraceTable(traceOrder, traces), services)
    }

    /** A setting of 0 falls back to its default (`value or default`). */
    constructor (retentionHours: nat, maxLogsPerService: nat, maxMetricsPerService: nat, maxTraces: nat)
      ensures Valid()
      ensures retention == (if retentionHours == 0 then DefaultRetentionHours else retentionHours) * SecondsPerHour
      ensures maxLogs == if maxLogsPerService == 0 then DefaultMaxLogsPerService else maxLogsPerService
      ensures maxMetrics == if maxMetricsPerService == 0 then DefaultMaxMetricsPerService else maxMetricsPerService
      ensures this.maxTraces == if maxTraces == 0 then DefaultMaxTraces else maxTraces
      ensures logs == map[] && metrics == map[] && traces == map[]
      ensures logOrder == [] && metricOrder == [] && traceOrder == []
      ensures logsById == map[] && metricsById == map[] && services == {}
      ensures stats == IngestStats(0, 0, 0)
    {
      retention := (if retentionHours == 0 then DefaultRetentionHours else retentionHours) * SecondsPerHour;
      maxLogs := if maxLogsPerService == 0 then DefaultMaxLogsPerService else maxLogsPerService;
      maxMetrics := if maxMetricsPerService == 0 then DefaultMaxMetricsPerService else maxMetricsPerService;
      this.maxTraces := if maxTraces == 0 then DefaultMaxTraces else maxTraces;
      logs, metrics, traces := map[], map[], map[];
      logOrder, metricOrder, traceOrder := [], [], [];
      logsById, metricsById, services := map[], map[], {};
      stats := IngestStats(0, 0, 0);
    }

    // =================================================================
    // Logs
    // =================================================================

    /**
     * Appends the entry to its service's list, indexes it, registers the
     * service and counts it; when the list then exceeds the cap, its oldest
     * entry is dropped from the list and the index. `log.id` is fresh.
     */
    method AddLog(log: LogEntry) returns (id: string)
      requires Valid()
      requires log.id !in logsById
      modifies this
      ensures Valid()
      ensures id == log.id && id in logsById && logsById[id] == log
      ensures Family(logs, logOrder, logsById) == Append(Family(old(logs), old(logOrder), old(logsById)), log, maxLogs, LogId, LogService)
      ensures services == old(services) + {log.serviceName}
      ensures stats == old(stats).(logsIngested := old(stats).logsIngested + 1)
      ensures metrics == old(metrics) && metricOrder == old(metricOrder) && metricsById == old(metricsById) && traceOrder == old(traceOrder) && traces == old(traces)
    {
      var l, o, b, sv := AddLogEntry(maxLogs, maxMetrics, maxTraces, logs, logOrder, logsById,
                                     Family(metrics, metricOrder, metricsById), TraceTable(traceOrder, traces), services, log);
      Install(Family(l, o, b), Family(metrics, metricOrder, metricsById), TraceTable(traceOrder, traces), sv);
      stats := stats.(logsIngested := stats.logsIngested + 1);
      id := log.id;
    }

    /** `add_logs_batch`: `AddLog` on each entry in turn; the ids come back in input order. */
    method AddLogsBatch(batch: seq<LogEntry>) returns (ids: seq<string>)
      requires Valid()
      requires forall i :: 0 <= i < |batch| ==> batch[i].id !in logsById
      requires forall i, j :: 0 <= i < j < |batch| ==> batch[i].id != batch[j].id
      modifies this
      ensures Valid()
      ensures |ids| == |batch| && forall i :: 0 <= i < |batch| ==> ids[i] == batch[i].id
      ensures Family(logs, logOrder, logsById) == AppendAll(Family(old(logs), old(logOrder), old(logsById)), batch, maxLogs, LogId, LogService)
      ensures services == old(services) + Owners(batch, LogService)
      ensures stats == old(stats).(logsIngested := old(stats).logsIngested + |batch|)
      ensures metrics == old(metrics) && metricOrder == old(metricOrder) && metricsById == old(metricsById) && traceOrder == old(traceOrder) && traces == old(traces)
    {
      ids := [];
      var idx := 0;
      while idx < |batch|
        invariant 0 <= idx <= |batch|
        invariant Valid()
        invariant ids == IdList(batch[..idx], LogId)
        invariant Family(logs, logOrder, logsById) == AppendAll(Family(old(logs), old(logOrder), old(logsById)), batch[..idx], maxLogs, LogId, LogService)
        invariant services == old(services) + Owners(batch[..idx], LogService)
        invariant stats == old(stats).(logsIngested := old(stats).logsIngested + idx)
        invariant metrics == old(metrics) && metricOrder == old(metricOrder) && metricsById == old(metricsById) && traceOrder == old(traceOrder) && traces == old(traces)
      {
        AppendAllStep(Family(old(logs), old(logOrder), old(logsById)), batch, idx, maxLogs, LogId, LogService);
        var id := AddLog(batch[idx]);
        ids := ids + [id];
        idx := idx + 1;
      }
      assert batch[..idx] == batch;
      IdListMembers(batch, LogId);
    }

    /** The index lookup: whatever it returns is filed under that id, and every stored entry with that id is what it returns. */
    function GetLogById(id: string): (r: Option<LogEntry>)
      reads this
      ensures Valid() && r.Some? ==> r.value.id == id
      ensures Valid() ==> forall s :: s in logs ==> forall x :: x in logs[s] && x.id == id ==> r == Some(x)
    {
      LogLookup(Family(logs, logOrder, logsById), id);
      if id in logsById then Some(logsById[id]) else None
    }

    /**
     * The entries of the target services (all known services when none are
     * given) inside `[start, end]`, with the level filter applied only when
     * `levels` is non-empty, stably sorted by timestamp.
     */
    method GetLogsInWindow(start: int, end: int, services: seq<string>, levels: seq<LogLevel>) returns (r: seq<LogEntry>)
      ensures var scan := ScanLogs(logs, TargetsOr(services, logOrder), start, end, levels);
        && r == SortBy(scan, LogTimestamp)
        && SortedBy(r, LogTimestamp)
        && multiset(r) == multiset(scan)
        && (forall t :: WithKey(r, LogTimestamp, t) == WithKey(scan, LogTimestamp, t))
      ensures forall x :: x in r <==> (LogSelected(x, start, end, levels)
                && exists s :: s in TargetsOr(services, logOrder) && s in logs && x in logs[s])
    {
      var results := [];
      var targets := TargetsOr(services, logOrder);
      var i := 0;
      while i < |targets|
        invariant 0 <= i <= |targets|
        invariant results == ScanLogs(logs, targets[..i], start, end, levels)
      {
        var list := ListOf(logs, targets[i]);
        var j := 0;
        while j < |list|
          invariant 0 <= j <= |list|
          invariant results == ScanLogs(logs, targets[..i], start, end, levels)
                               + SelectLogs(list[..j], start, end, levels)
        {
          var log := list[j];
          SelectLogsStep(list, j, start, end, levels);
          if IsWithinWindow(log.timestamp, start, end) && (|levels| == 0 || log.level in levels) {
            results := results + [log];
          }
          j := j + 1;
        }
        assert list[..j] == list;
        ScanLogsStep(logs, targets, i, start, end, levels);
        i := i + 1;
      }
      assert targets[..i] == targets;
      r := SortBy(results, LogTimestamp);
      LogWindowAnswer(logs, targets, start, end, levels);
    }

    /** The log query with the level filter fixed to ERROR, FATAL and CRITICAL. */
    method GetErrorLogsInWindow(start: int, end: int, services: seq<string>) returns (r: seq<LogEntry>)
      ensures r == SortBy(ScanLogs(logs, TargetsOr(services, logOrder), start, end, ErrorLevels), LogTimestamp)
      ensures SortedBy(r, LogTimestamp)
      ensures forall x :: x in r <==> (IsWithinWindow(x.timestamp, start, end)
                && (x.level == Error || x.level == Fatal || x.level == Critical)
                && exists s :: s in TargetsOr(services, logOrder) && s in logs && x in logs[s])
    {
      r := GetLogsInWindow(start, end, services, ErrorLevels);
      assert forall l :: l in ErrorLevels <==> l == Error || l == Fatal || l == Critical;
    }

    // =================================================================
    // Metrics
    // =================================================================

    /**
     * Appends the point to its service's list, indexes it, registers the
     * service and counts it; when the list then exceeds the cap, its oldest
     * point is dropped from the list and the index. `metric.id` is fresh.
     */
    method AddMetric(metric: MetricPoint) returns (id: string)
      requires Valid()
      requires metric.id !in metricsById
      modifies this
      ensures Valid()
      ensures id == metric.id && id in metricsById && metricsById[id] == metric
      ensures Family(metrics, metricOrder, metricsById) == Append(Family(old(metrics), old(metricOrder), old(metricsById)), metric, maxMetrics, MetricId, MetricService)
      ensures services == old(services) + {metric.serviceName}
      ensures stats == old(stats).(metricsIngested := old(stats).metricsIngested + 1)
      ensures logs == old(logs) && logOrder == old(logOrder) && logsById == old(logsById) && traceOrder == old(traceOrder) && traces == old(traces)
    {
      var l, o, b, sv := AddMetricEntry(maxLogs, maxMetrics, maxTraces, Family(logs, logOrder, logsById),
                                        metrics, metricOrder, metricsById, TraceTable(traceOrder, traces), services, metric);
      Install(Family(logs, logOrder, logsById), Family(l, o, b), TraceTable(traceOrder, traces), sv);
      stats := stats.(metricsIngested := stats.metricsIngested + 1);
      id := metric.id;
    }

    /** `add_metrics_batch`: `AddMetric` on each point in turn; ids in input order. */
    method AddMetricsBatch(batch: seq<MetricPoint>) returns (ids: seq<string>)
      requires Valid()
      requires forall i :: 0 <= i < |batch| ==> batch[i].id !in metricsById
      requires forall i, j :: 0 <= i < j < |batch| ==> batch[i].id != batch[j].id
      modifies this
      ensures Valid()
      ensures |ids| == |batch| && forall i :: 0 <= i < |batch| ==> ids[i] == batch[i].id
      ensures Family(metrics, metricOrder, metricsById) == AppendAll(Family(old(metrics), old(metricOrder), old(metricsById)), batch, maxMetrics, MetricId, MetricService)
      ensures services == old(services) + Owners(batch, MetricService)
      ensures stats == old(stats).(metricsIngested := old(stats).metricsIngested + |batch|)
      ensures logs == old(logs) && logOrder == old(logOrder) && logsById == old(logsById) && traceOrder == old(traceOrder) && traces == old(traces)
    {
      ids := [];
      var idx := 0;
      while idx < |batch|
        invariant 0 <= idx <= |batch|
        invariant Valid()
        invariant ids == IdList(batch[..idx], MetricId)
        invariant Family(metrics, metricOrder, metricsById) == AppendAll(Family(old(metrics), old(metricOrder), old(metricsById)), batch[..idx], maxMetrics, MetricId, MetricService)
        invariant services == old(services) + Owners(batch[..idx], MetricService)
        invariant stats == old(stats).(metricsIngested := old(stats).metricsIngested + idx)
        invariant logs == old(logs) && logOrder == old(logOrder) && logsById == old(logsById) && traceOrder == old(traceOrder) && traces == old(traces)
      {
        AppendAllStep(Family(old(metrics), old(metricOrder), old(metricsById)), batch, idx, maxMetrics, MetricId, MetricService);
        var id := AddMetric(batch[idx]);
        ids := ids + [id];
        idx := idx + 1;
      }
      assert batch[..idx] == batch;
      IdListMembers(batch, MetricId);
    }

    function GetMetricById(id: string): (r: Option<MetricPoint>)
      reads this
      ensures Valid() && r.Some? ==> r.value.id == id
      ensures Valid() ==> forall s :: s in metrics ==> forall x :: x in metrics[s] && x.id == id ==> r == Some(x)
    {
      MetricLookup(Family(metrics, metricOrder, metricsById), id);
      if id in metricsById then Some(metricsById[id]) else None
    }

    /** The points of one service and metric inside `[start, end]`, stably sorted by timestamp. */
    method GetMetricSeries(serviceName: string, metricName: string, start: int, end: int) returns (r: seq<MetricPoint>)
      ensures var scan := SelectSeries(ListOf(metrics, serviceName), metricName, start, end);
        && r == SortBy(scan, MetricTimestamp)
        && SortedBy(r, MetricTimestamp)
        && multiset(r) == multiset(scan)
        && (forall t :: WithKey(r, MetricTimestamp, t) == WithKey(scan, MetricTimestamp, t))
      ensures forall x :: x in r <==> (serviceName in metrics && x in metrics[serviceName]
                                       && x.metricName == metricName && IsWithinWindow(x.timestamp, start, end))
    {
      var series := [];
      var list := ListOf(metrics, serviceName);
      var j := 0;
      while j < |list|
        invariant 0 <= j <= |list|
        invariant series == SelectSeries(list[..j], metricName, start, end)
      {
        var metric := list[j];
        assert list[..j + 1][..j] == list[..j];
        if metric.metricName == metricName && IsWithinWindow(metric.timestamp, start, end) {
          series := series + [metric];
        }
        j := j + 1;
      }
      assert list[..j] == list;
      r := SortBy(series, MetricTimestamp);
      SortByMembers(series, MetricTimestamp);
      forall t | true ensures WithKey(r, MetricTimestamp, t) == WithKey(series, MetricTimestamp, t) {
        SortByIsStable(series, MetricTimestamp, t);
      }
    }

    /** The distinct metric names in one service's list. */
    method GetMetricNamesForService(serviceName: string) returns (names: set<string>)
      ensures forall n :: n in names <==> exists x :: x in ListOf(metrics, serviceName) && x.metricName == n
    {
      names := {};
      var list := ListOf(metrics, serviceName);
      var j := 0;
      while j < |list|
        invariant 0 <= j <= |list|
        invariant forall n :: n in names <==> exists k :: 0 <= k < j && list[k].metricName == n
      {
        names := names + {list[j].metricName};
        j := j + 1;
      }
      forall n | n in names ensures exists x :: x in list && x.metricName == n {
        var k :| 0 <= k < j && list[k].metricName == n;
        assert list[k] in list;
      }
    }

    /**
     * The points of the target services (all known services when none are
     * given) inside `[start, end]`, with the name filter applied only when
     * `metricNames` is non-empty, stably sorted by timestamp.
     */
    method GetMetricsInWindow(start: int, end: int, services: seq<string>, metricNames: seq<string>) returns (r: seq<MetricPoint>)
      ensures var scan := ScanMetrics(metrics, TargetsOr(services, metricOrder), start, end, metricNames);
        && r == SortBy(scan, MetricTimestamp)
        && SortedBy(r, MetricTimestamp)
        && multiset(r) == multiset(scan)
        && (forall t :: WithKey(r, MetricTimestamp, t) == WithKey(scan, MetricTimestamp, t))
      ensures forall x :: x in r <==> (MetricSelected(x, start, end, metricNames)
                && exists s :: s in TargetsOr(services, metricOrder) && s in metrics && x in metrics[s])
    {
      var results := [];
      var targets := TargetsOr(services, metricOrder);
      var i := 0;
      while i < |targets|
        invariant 0 <= i <= |targets|
        invariant results == ScanMetrics(metrics, targets[..i], start, end, metricNames)
      {
        var list := ListOf(metrics, targets[i]);
        var j := 0;
        while j < |list|
          invariant 0 <= j <= |list|
          invariant results == ScanMetrics(metrics, targets[..i], start, end, metricNames)
                               + SelectMetrics(list[..j], start, end, metricNames)
        {
          var metric := list[j];
          SelectMetricsStep(list, j, start, end, metricNames);
          if IsWithinWindow(metric.timestamp, start, end) && (|metricNames| == 0 || metric.metricName in metricNames) {
            results := results + [metric];
          }
          j := j + 1;
        }
        assert list[..j] == list;
        ScanMetricsStep(metrics, targets, i, start, end, metricNames);
        i := i + 1;
      }
      assert targets[..i] == targets;
      r := SortBy(results, MetricTimestamp);
      MetricWindowAnswer(metrics, targets, start, end, metricNames);
    }

    // =================================================================
    // Traces
    // =================================================================

    /**
     * Stores the trace under its id (an existing id keeps its place), counts
     * it, registers its spans' services, and drops the first-inserted trace
     * when the map then exceeds the cap.
     */
    method AddTrace(trace: Trace) returns (id: string)
      requires Valid()
      modifies this
      ensures Valid()
      ensures id == trace.traceId && id in traces && traces[id] == trace
      ensures TraceTable(traceOrder, traces) == InsertTrace(TraceTable(old(traceOrder), old(traces)), trace, maxTraces)
      ensures services == old(services) + SpanServices(trace.spans)
      ensures stats == old(stats).(tracesIngested := old(stats).tracesIngested + 1)
      ensures logs == old(logs) && logOrder == old(logOrder) && logsById == old(logsById) && metrics == old(metrics) && metricOrder == old(metricOrder) && metricsById == old(metricsById)
    {
      var o, t, sv := AddTraceEntry(maxLogs, maxMetrics, maxTraces, Family(logs, logOrder, logsById),
                                    Family(metrics, metricOrder, metricsById), traceOrder, traces, services, trace);
      Install(Family(logs, logOrder, logsById), Family(metrics, metricOrder, metricsById), TraceTable(o, t), sv);
      stats := stats.(tracesIngested := stats.tracesIngested + 1);
      id := trace.traceId;
    }

    /** `add_traces_batch`: `AddTrace` on each trace in turn; ids in input order. */
    method AddTracesBatch(batch: seq<Trace>) returns (ids: seq<string>)
      requires Valid()
      modifies this
      ensures Valid()
      ensures |ids| == |batch| && forall i :: 0 <= i < |batch| ==> ids[i] == batch[i].traceId
      ensures TraceTable(traceOrder, traces) == InsertTraces(TraceTable(old(traceOrder), old(traces)), batch, maxTraces)
      ensures services == old(services) + SpanServicesOf(batch)
      ensures stats == old(stats).(tracesIngested := old(stats).tracesIngested + |batch|)
      ensures logs == old(logs) && logOrder == old(logOrder) && logsById == old(logsById) && metrics == old(metrics) && metricOrder == old(metricOrder) && metricsById == old(metricsById)
    {
      ids := [];
      var idx := 0;
      while idx < |batch|
        invariant 0 <= idx <= |batch|
        invariant Valid()
        invariant ids == IdList(batch[..idx], TraceKey)
        invariant TraceTable(traceOrder, traces) == InsertTraces(TraceTable(old(traceOrder), old(traces)), batch[..idx], maxTraces)
        invariant services == old(services) + SpanServicesOf(batch[..idx])
        invariant stats == old(stats).(tracesIngested := old(stats).tracesIngested + idx)
        invariant logs == old(logs) && logOrder == old(logOrder) && logsById == old(logsById) && metrics == old(metrics) && metricOrder == old(metricOrder) && metricsById == old(metricsById)
      {
        assert batch[..idx + 1][..idx] == batch[..idx];
        var id := AddTrace(batch[idx]);
        ids := ids + [id];
        idx := idx + 1;
      }
      assert batch[..idx] == batch;
      IdListMembers(batch, TraceKey);
    }

    function GetTraceById(id: string): (r: Option<Trace>)
      reads this
      ensures Valid() ==> (r.Some? <==> id in traceOrder)
      ensures Valid() && r.Some? ==> r.value.traceId == id
      ensures Valid() && id in traceOrder ==> id in traces && r == Some(traces[id])
    {
      if id in traces then Some(traces[id]) else None
    }

    /**
     * `get_traces_for_service`: the stored traces, in insertion order, with
     * a span of the service starting inside `[start, end]`; each trace at
     * most once.
     */
    method GetTracesForService(serviceName: string, start: int, end: int) returns (r: seq<Trace>)
      requires Valid()
      ensures r == ServiceTraces(TracesAt(traceOrder, traces), serviceName, start, end)
      ensures forall t :: t in r <==> (exists id :: id in traces && traces[id] == t) && HitsService(t, serviceName, start, end)
    {
      r := CollectServiceTraces(TracesAt(traceOrder, traces), serviceName, start, end);
      forall t ensures t in TracesAt(traceOrder, traces) <==> exists id :: id in traces && traces[id] == t {
        TracesAtMembers(traceOrder, traces, t);
      }
    }

    /**
     * `get_error_traces_in_window`: the stored failed traces, in insertion
     * order, with a span (of the given services, when any are given)
     * starting inside `[start, end]`.
     */
    method GetErrorTracesInWindow(start: int, end: int, services: seq<string>) returns (r: seq<Trace>)
      requires Valid()
      ensures r == ErrorTraces(TracesAt(traceOrder, traces), services, start, end)
      ensures forall t :: t in r <==> (exists id :: id in traces && traces[id] == t) && HitsErrorWindow(t, services, start, end)
    {
      r := CollectErrorTraces(TracesAt(traceOrder, traces), services, start, end);
      forall t ensures t in TracesAt(traceOrder, traces) <==> exists id :: id in traces && traces[id] == t {
        TracesAtMembers(traceOrder, traces, t);
      }
    }

    // =================================================================
    // Services, maintenance, statistics
    // =================================================================

    /**
     * `list(services)`: every registered service once, in some order. Under
     * the invariant the registry covers every service with stored logs or
     * metrics and every span service of a stored trace.
     */
    method GetServices() returns (r: seq<string>)
      ensures Distinct(r) && forall s :: s in r <==> s in services
      ensures Valid() ==> forall s :: s in logs || s in metrics ==> s in r
      ensures Valid() ==> forall id, s :: id in traces && s in SpanServices(traces[id].spans) ==> s in r
    {
      r := [];
      var rest := services;
      while rest != {}
        invariant rest <= services
        invariant forall s :: s in r <==> s in services && s !in rest
        invariant Distinct(r)
        decreases |rest|
      {
        var s :| s in rest;
        DistinctAppend(r, s);
        r := r + [s];
        rest := rest - {s};
      }
    }

    /**
     * The retention sweep at time `now`: the cutoff is `now` minus the
     * retention period; log and metric lists keep only entries strictly
     * after it; traces whose spans all ended strictly before it are dropped.
     * The swept entries leave the by-id indices too, as evicted ones do; the
     * registry and the counters are left alone.
     */
    method CleanupOldData(now: int) returns (removed: Removed)
      requires Valid()
      modifies this
      ensures Valid()
      ensures var c := Cleaned(Family(old(logs), old(logOrder), old(logsById)), Family(old(metrics), old(metricOrder), old(metricsById)),
                               TraceTable(old(traceOrder), old(traces)), now - retention);
        && Family(logs, logOrder, logsById) == c.logs && Family(metrics, metricOrder, metricsById) == c.metrics
        && TraceTable(traceOrder, traces) == c.traces && removed == c.removed
      ensures services == old(services) && stats == old(stats)
    {
      var cutoff := now - retention;
      var logs', metrics', traces';
      logs', metrics', traces', removed := CleanStore(maxLogs, maxMetrics, maxTraces, logs, logOrder, logsById,
        metrics, metricOrder, metricsById, traceOrder, traces, services, cutoff);
      Install(logs', metrics', traces', services);
    }

    /** Replaces both list families, the trace table and the registry with a valid state; the counters stay. */
    method Install(logs': Family<LogEntry>, metrics': Family<MetricPoint>, traces': TraceTable, services': set<string>)
      requires StoreValid(maxLogs, maxMetrics, maxTraces, logs', metrics', traces', services')
      modifies this
      ensures Valid()
      ensures Family(logs, logOrder, logsById) == logs' && Family(metrics, metricOrder, metricsById) == metrics'
      ensures TraceTable(traceOrder, traces) == traces' && services == services' && stats == old(stats)
    {
      logs, logOrder, logsById := logs'.lists, logs'.order, logs'.byId;
      metrics, metricOrder, metricsById := metrics'.lists, metrics'.order, metrics'.byId;
      traceOrder, traces, services := traces'.order, traces'.entries, services';
    }

    /** `get_stats`: the counters, the registry size and the stored totals. */
    function GetStats(): StoreStats
      reads this
    {
      StoreStats(stats.logsIngested, stats.metricsIngested, stats.tracesIngested,
                 |services|, TotalLength(logOrder, logs), TotalLength(metricOrder, metrics), |traces|)
    }

    /**
     * Under the invariant the stored totals respect the caps: at most the
     * per-service cap for every known service, and at most the trace cap.
     */
    lemma StatsBounded()
      requires Valid()
      ensures GetStats().logsStored <= |logOrder| * maxLogs
      ensures GetStats().metricsStored <= |metricOrder| * maxMetrics
      ensures GetStats().tracesStored == |traceOrder| <= maxTraces
    {
      TotalLengthBound(logOrder, logs, maxLogs);
      TotalLengthBound(metricOrder, metrics, maxMetrics);
      TableCount(TraceTable(traceOrder, traces), maxTraces);
    }

    /**
     * The statistics report the registry size and the number of stored
     * traces; the stored log and metric totals add up every list, so each
     * list is within its total, and a total is zero exactly when every list
     * of that family is empty.
     */
    lemma StatsCounts()
      requires Valid()
      ensures GetStats().servicesCount == |services|
      ensures GetStats().tracesStored == |traceOrder|
      ensures forall s :: s in logs ==> |logs[s]| <= GetStats().logsStored
      ensures forall s :: s in metrics ==> |metrics[s]| <= GetStats().metricsStored
      ensures GetStats().logsStored == 0 <==> forall s :: s in logs ==> logs[s] == []
      ensures GetStats().metricsStored == 0 <==> forall s :: s in metrics ==> metrics[s] == []
    {
      TableCount(TraceTable(traceOrder, traces), maxTraces);
      forall s | s in logs ensures |logs[s]| <= GetStats().logsStored {
        TotalLengthCovers(logOrder, logs, s);
      }
      forall s | s in metrics ensures |metrics[s]| <= GetStats().metricsStored {
        TotalLengthCovers(metricOrder, metrics, s);
      }
      TotalLengthZero(logOrder, logs);
      TotalLengthZero(metricOrder, metrics);
    }

    /** Empties every map, list, index and the registry; the counters survive. */
    method Clear()
      requires Valid()
      modifies this
      ensures Valid()
      ensures logs == map[] && metrics == map[] && traces == map[]
      ensures logOrder == [] && metricOrder == [] && traceOrder == []
      ensures logsById == map[] && metricsById == map[] && services == {}
      ensures stats == old(stats)
    {
      EmptyStoreValid(maxLogs, maxMetrics, maxTraces);
      Install(Family(map[], [], map[]), Family(map[], [], map[]), TraceTable([], map[]), {});
    }
  }
}
