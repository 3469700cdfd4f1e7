/**
 * The store's operations on values: the invariant of its fields, one
 * append, one trace insertion, the retention sweep and the trace scans.
 * The class in module Store assigns its fields from these results.
 */
module StoreOps {
  import opened Wrappers
  import opened Telemetry
  import opened TimeUtil
  import opened Sorting
  import opened StoreSpec
  import opened ServiceLists

  /** Cumulative ingestion counters; never reset. */
  datatype IngestStats = IngestStats(logsIngested: nat, metricsIngested: nat, tracesIngested: nat)

  /** What `get_stats` reports. */
  datatype StoreStats = StoreStats(
    logsIngested: nat, metricsIngested: nat, tracesIngested: nat,
    servicesCount: nat, logsStored: nat, metricsStored: nat, tracesStored: nat)

  /** What the retention sweep removed, per family. */
  datatype Removed = Removed(logs: nat, metrics: nat, traces: nat)

  /** Defaults the store falls back to when a setting is given as 0. */
  const DefaultRetentionHours: nat := 24
  const DefaultMaxLogsPerService: nat := 100000
  const DefaultMaxMetricsPerService: nat := 100000
  const DefaultMaxTraces: nat := 50000

  const SecondsPerHour: nat := 3600

  /** The levels the error-log query keeps. */
  const ErrorLevels: seq<LogLevel> := [Error, Fatal, Critical]

  function LogId(e: LogEntry): string { e.id }
  function LogService(e: LogEntry): string { e.serviceName }
  function MetricId(p: MetricPoint): string { p.id }
  function MetricService(p: MetricPoint): string { p.serviceName }
  function TraceKey(t: Trace): string { t.traceId }

  /** The query's services, or every known service when none are given (`services or keys`). */
  function TargetsOr(services: seq<string>, known: seq<string>): seq<string>
  {
    if |services| > 0 then services else known
  }

  /** The services of a trace's spans. */
  function SpanServices(spans: seq<Span>): set<string>
  {
    set i | 0 <= i < |spans| :: spans[i].serviceName
  }

  /** The services of the spans of a run of traces. */
  function SpanServicesOf(ts: seq<Trace>): set<string>
  {
    if ts == [] then {} else SpanServicesOf(ts[..|ts| - 1]) + SpanServices(ts[|ts| - 1].spans)
  }

  /**
   * One family's part of the retention sweep: every list of `lists`, visited
   * in key order, cut down to its entries newer than `cutoff`, and the number
   * of entries that went.
   */
  method SweepLists<T(!new)>(lists: map<string, seq<T>>, keys: seq<string>, key: T -> int, cutoff: int)
    returns (swept: map<string, seq<T>>, count: nat)
    requires Distinct(keys) && forall s :: s in lists <==> s in keys
    ensures swept == Sweep(lists, key, cutoff)
    ensures count == RemovedCount(keys, lists, key, cutoff)
  {
    swept := lists;
    count := 0;
    var i := 0;
    while i < |keys|
      invariant 0 <= i <= |keys|
      invariant swept == SweepKeys(lists, keys[..i], key, cutoff)
      invariant count == RemovedCount(keys[..i], lists, key, cutoff)
    {
      var s := keys[i];
      SweepKeysStep(lists, keys, i, key, cutoff);
      var original := |swept[s]|;
      swept := swept[s := Newer(swept[s], key, cutoff)];
      count := count + (original - |swept[s]|);
      i := i + 1;
    }
    assert keys[..i] == keys;
    SweepKeysAll(lists, keys, key, cutoff);
    RemovedCountIsDrop(keys, lists, key, cutoff);
  }

  /** The ids, in map order, of the traces whose spans all ended before `cutoff`. */
  method FindExpired(order: seq<string>, traces: map<string, Trace>, cutoff: int) returns (ids: seq<string>)
    requires forall id :: id in order ==> id in traces
    ensures ids == ExpiredIds(order, traces, cutoff)
  {
    ids := [];
    var i := 0;
    while i < |order|
      invariant 0 <= i <= |order|
      invariant ids == ExpiredIds(order[..i], traces, cutoff)
    {
      ExpiredIdsStep(order, traces, cutoff, i);
      var trace := traces[order[i]];
      if |trace.spans| > 0 {
        var latest := MaxEndTime(trace.spans);
        if latest < cutoff {
          ids := ids + [order[i]];
        }
      }
      i := i + 1;
    }
    assert order[..i] == order;
  }

  /**
   * One family's part of the retention sweep, on the family's values: its
   * lists cut down to the entries newer than `cutoff`, the swept entries'
   * ids taken out of the index, the family still valid, and the number of
   * entries that went.
   */
  method SweepFamily<T(!new)>(f: Family<T>, cap: nat, ident: T -> string, owner: T -> string, key: T -> int, cutoff: int)
    returns (swept: map<string, seq<T>>, byId: map<string, T>, count: nat)
    requires FamilyValid(f, cap, ident, owner)
    ensures FamilyValid(Family(swept, f.order, byId), cap, ident, owner)
    ensures swept == Sweep(f.lists, key, cutoff)
    ensures byId == PruneIndex(f.byId, key, cutoff)
    ensures count == RemovedCount(f.order, f.lists, key, cutoff)
  {
    SweepKeepsValid(f, cap, ident, owner, key, cutoff);
    swept, count := SweepLists(f.lists, f.order, key, cutoff);
    byId := map k | k in f.byId && key(f.byId[k]) > cutoff :: f.byId[k];
  }

  /** A valid trace table whose span services are all registered. */
  ghost predicate TracesRegistered(t: TraceTable, cap: nat, services: set<string>)
  {
    && TableValid(t, cap)
    && (forall id :: id in t.entries ==> SpanServices(t.entries[id].spans) <= services)
  }

  /**
   * The trace part of the retention sweep on the table's values: the ids, in
   * key order, of the traces whose spans all ended before `cutoff`, then
   * those traces deleted.
   */
  method DropExpired(order: seq<string>, traces: map<string, Trace>, cutoff: int, ghost cap: nat, ghost services: set<string>)
    returns (order': seq<string>, traces': map<string, Trace>, count: nat)
    requires TracesRegistered(TraceTable(order, traces), cap, services)
    ensures TracesRegistered(TraceTable(order', traces'), cap, services)
    ensures traces' == Unexpired(traces, cutoff)
    ensures order' == KeepIn(order, traces'.Keys)
    ensures |order'| + count == |order|
  {
    var expired := FindExpired(order, traces, cutoff);
    order', traces' := DropTraces(order, traces, expired);
    DroppedAreUnexpired(order, traces, cutoff, traces');
    KeptStayRegistered(TraceTable(order, traces), cap, services, traces');
    ExpiredAndKeptSplit(order, traces, cutoff, traces'.Keys);
    count := |expired|;
  }

  /** Deleting exactly the expired ids of a table's order leaves the unexpired traces. */
  lemma DroppedAreUnexpired(order: seq<string>, traces: map<string, Trace>, cutoff: int, rest: map<string, Trace>)
    requires forall id :: id in traces <==> id in order
    requires forall id :: id in rest <==> id in traces && id !in ExpiredIds(order, traces, cutoff)
    requires forall id :: id in rest ==> rest[id] == traces[id]
    ensures forall id :: id in order ==> (id in rest <==> !Expired(traces[id], cutoff))
    ensures rest == Unexpired(traces, cutoff)
  {
    assert rest.Keys == Unexpired(traces, cutoff).Keys;
  }

  /** Keeping a subset of a registered table's traces keeps them registered. */
  lemma KeptStayRegistered(t: TraceTable, cap: nat, services: set<string>, kept: map<string, Trace>)
    requires TracesRegistered(t, cap, services)
    requires forall id :: id in kept ==> id in t.entries && kept[id] == t.entries[id]
    ensures TracesRegistered(TraceTable(KeepIn(t.order, kept.Keys), kept), cap, services)
  {
    KeepInKeepsValid(t, cap, kept);
  }

  /** `del traces[id]` for every id of `ids`; the key order keeps the ids that remain. */
  method DropTraces(order: seq<string>, traces: map<string, Trace>, ids: seq<string>)
    returns (order': seq<string>, traces': map<string, Trace>)
    ensures forall id :: id in traces' <==> id in traces && id !in ids
    ensures forall id :: id in traces' ==> traces'[id] == traces[id]
    ensures order' == KeepIn(order, traces'.Keys)
  {
    traces' := traces;
    var j := 0;
    while j < |ids|
      invariant 0 <= j <= |ids|
      invariant forall id :: id in traces' <==> id in traces && id !in ids[..j]
      invariant forall id :: id in traces' ==> traces'[id] == traces[id]
    {
      traces' := traces' - {ids[j]};
      assert ids[..j + 1] == ids[..j] + [ids[j]];
      j := j + 1;
    }
    assert ids[..j] == ids;
    order' := KeepIn(order, traces'.Keys);
  }

  /**
   * One append on a family's values: the entry goes to the end of its
   * owner's list, is indexed, and evicts the list's oldest entry (list and
   * index) when the list then exceeds the cap.
   */
  method AppendEntry<T(!new)>(lists: map<string, seq<T>>, order: seq<string>, byId: map<string, T>,
                              x: T, cap: nat, ident: T -> string, owner: T -> string)
    returns (lists': map<string, seq<T>>, order': seq<string>, byId': map<string, T>)
    requires cap >= 1 && FamilyValid(Family(lists, order, byId), cap, ident, owner) && ident(x) !in byId
    ensures Family(lists', order', byId') == Append(Family(lists, order, byId), x, cap, ident, owner)
    ensures FamilyValid(Family(lists', order', byId'), cap, ident, owner)
    ensures ident(x) in byId' && byId'[ident(x)] == x
  {
    AppendKeepsValid(Family(lists, order, byId), x, cap, ident, owner);
    var s := owner(x);
    var list := ListOf(lists, s) + [x];
    var index := byId[ident(x) := x];
    if |list| > cap {
      var removed := list[0];
      list := list[1..];
      index := index - {ident(removed)};
    }
    order' := if s in lists then order else order + [s];
    lists' := lists[s := list];
    byId' := index;
  }

  /**
   * One insert on the trace table's values: the trace goes in under its id
   * (a new id at the end of the order), and when the map then holds more
   * than `cap` traces the first-inserted one is dropped.
   */
  method InsertEntry(order: seq<string>, entries: map<string, Trace>, trace: Trace, cap: nat)
    returns (order': seq<string>, entries': map<string, Trace>)
    requires cap >= 1 && TableValid(TraceTable(order, entries), cap)
    ensures TraceTable(order', entries') == InsertTrace(TraceTable(order, entries), trace, cap)
    ensures TableValid(TraceTable(order', entries'), cap)
    ensures trace.traceId in entries' && entries'[trace.traceId] == trace
    ensures forall id :: id in entries' && id != trace.traceId ==> id in entries && entries'[id] == entries[id]
  {
    InsertTraceSpec(TraceTable(order, entries), trace, cap);
    var tid := trace.traceId;
    order' := if tid in entries then order else order + [tid];
    entries' := entries[tid := trace];
    if tid !in entries {
      DistinctAppend(order, tid);
    }
    KeysMatchOrder(order', entries');
    if |entries'| > cap {
      var oldest := order'[0];
      entries' := entries' - {oldest};
      order' := order'[1..];
    }
  }

  /** Registering more services keeps a trace table's spans registered. */
  lemma RegisteredGrows(t: TraceTable, cap: nat, services: set<string>, more: set<string>)
    requires TracesRegistered(t, cap, services) && services <= more
    ensures TracesRegistered(t, cap, more)
  {
  }

  /**
   * `add_log` on the store's values: the entry appended to the log family,
   * its service registered, and the store still valid. `log.id` is fresh.
   */
  method AddLogEntry(maxLogs: nat, maxMetrics: nat, maxTraces: nat,
                     logs: map<string, seq<LogEntry>>, logOrder: seq<string>, logsById: map<string, LogEntry>,
                     metrics: Family<MetricPoint>, traces: TraceTable, services: set<string>, log: LogEntry)
    returns (logs': map<string, seq<LogEntry>>, logOrder': seq<string>, logsById': map<string, LogEntry>, services': set<string>)
    requires StoreValid(maxLogs, maxMetrics, maxTraces, Family(logs, logOrder, logsById), metrics, traces, services)
    requires log.id !in logsById
    ensures StoreValid(maxLogs, maxMetrics, maxTraces, Family(logs', logOrder', logsById'), metrics, traces, services')
    ensures Family(logs', logOrder', logsById') == Append(Family(logs, logOrder, logsById), log, maxLogs, LogId, LogService)
    ensures services' == services + {log.serviceName}
    ensures log.id in logsById' && logsById'[log.id] == log
  {
    logs', logOrder', logsById' := AppendEntry(logs, logOrder, logsById, log, maxLogs, LogId, LogService);
    services' := services + {log.serviceName};
    RegisteredGrows(traces, maxTraces, services, services');
  }

  /**
   * `add_metric` on the store's values: the point appended to the metric
   * family, its service registered, and the store still valid. `metric.id`
   * is fresh.
   */
  method AddMetricEntry(maxLogs: nat, maxMetrics: nat, maxTraces: nat, logs: Family<LogEntry>,
                        metrics: map<string, seq<MetricPoint>>, metricOrder: seq<string>, metricsById: map<string, MetricPoint>,
                        traces: TraceTable, services: set<string>, metric: MetricPoint)
    returns (metrics': map<string, seq<MetricPoint>>, metricOrder': seq<string>, metricsById': map<string, MetricPoint>, services': set<string>)
    requires StoreValid(maxLogs, maxMetrics, maxTraces, logs, Family(metrics, metricOrder, metricsById), traces, services)
    requires metric.id !in metricsById
    ensures StoreValid(maxLogs, maxMetrics, maxTraces, logs, Family(metrics', metricOrder', metricsById'), traces, services')
    ensures Family(metrics', metricOrder', metricsById') == Append(Family(metrics, metricOrder, metricsById), metric, maxMetrics, MetricId, MetricService)
    ensures services' == services + {metric.serviceName}
    ensures metric.id in metricsById' && metricsById'[metric.id] == metric
  {
    metrics', metricOrder', metricsById' := AppendEntry(metrics, metricOrder, metricsById, metric, maxMetrics, MetricId, MetricService);
    services' := services + {metric.serviceName};
    RegisteredGrows(traces, maxTraces, services, services');
  }

  /**
   * `add_trace` on the store's values: the trace inserted into the table
   * (evicting the first-inserted trace when over the cap), the services of
   * its spans registered one span at a time, and the store still valid.
   */
  method AddTraceEntry(maxLogs: nat, maxMetrics: nat, maxTraces: nat, logs: Family<LogEntry>, metrics: Family<MetricPoint>,
                       traceOrder: seq<string>, traces: map<string, Trace>, services: set<string>, trace: Trace)
    returns (traceOrder': seq<string>, traces': map<string, Trace>, services': set<string>)
    requires StoreValid(maxLogs, maxMetrics, maxTraces, logs, metrics, TraceTable(traceOrder, traces), services)
    ensures StoreValid(maxLogs, maxMetrics, maxTraces, logs, metrics, TraceTable(traceOrder', traces'), services')
    ensures TraceTable(traceOrder', traces') == InsertTrace(TraceTable(traceOrder, traces), trace, maxTraces)
    ensures services' == services + SpanServices(trace.spans)
    ensures trace.traceId in traces' && traces'[trace.traceId] == trace
  {
    traceOrder', traces' := InsertEntry(traceOrder, traces, trace, maxTraces);
    services' := services;
    var i := 0;
    while i < |trace.spans|
      invariant 0 <= i <= |trace.spans|
      invariant services' == services + set k | 0 <= k < i :: trace.spans[k].serviceName
    {
      services' := services' + {trace.spans[i].serviceName};
      i := i + 1;
    }
  }

  /** The span scan of the service query: does a span of `serviceName` start inside `[start, end]`? */
  method ScanServiceSpans(trace: Trace, serviceName: string, start: int, end: int) returns (hit: bool)
    ensures hit == HitsService(trace, serviceName, start, end)
  {
    hit := false;
    var j := 0;
    while j < |trace.spans|
      invariant 0 <= j <= |trace.spans|
      invariant forall k :: 0 <= k < j ==> !(trace.spans[k].serviceName == serviceName
                                             && IsWithinWindow(trace.spans[k].startTime, start, end))
    {
      var span := trace.spans[j];
      if span.serviceName == serviceName {
        if IsWithinWindow(span.startTime, start, end) {
          hit := true;
          return;
        }
      }
      j := j + 1;
    }
  }

  /**
   * The span scan of the error query: does a span (of `services`, when any
   * are given) start inside `[start, end]`?
   */
  method ScanErrorSpans(trace: Trace, services: seq<string>, start: int, end: int) returns (hit: bool)
    ensures hit <==> exists i :: 0 <= i < |trace.spans| && (|services| == 0 || trace.spans[i].serviceName in services)
                                 && IsWithinWindow(trace.spans[i].startTime, start, end)
  {
    hit := false;
    var j := 0;
    while j < |trace.spans|
      invariant 0 <= j <= |trace.spans|
      invariant forall k :: 0 <= k < j ==> !((|services| == 0 || trace.spans[k].serviceName in services)
                                             && IsWithinWindow(trace.spans[k].startTime, start, end))
    {
      var span := trace.spans[j];
      if |services| > 0 && span.serviceName !in services {
        j := j + 1;
        continue;
      }
      if IsWithinWindow(span.startTime, start, end) {
        hit := true;
        return;
      }
      j := j + 1;
    }
  }

  /** The traces of `ts`, in order, with a span of `serviceName` starting inside `[start, end]`. */
  method CollectServiceTraces(ts: seq<Trace>, serviceName: string, start: int, end: int) returns (r: seq<Trace>)
    ensures r == ServiceTraces(ts, serviceName, start, end)
  {
    r := [];
    var i := 0;
    while i < |ts|
      invariant 0 <= i <= |ts|
      invariant r == ServiceTraces(ts[..i], serviceName, start, end)
    {
      var hit := ScanServiceSpans(ts[i], serviceName, start, end);
      if hit {
        r := r + [ts[i]];
      }
      assert ts[..i + 1][..i] == ts[..i];
      i := i + 1;
    }
    assert ts[..i] == ts;
  }

  /** The failed traces of `ts`, in order, with a span (of `services`, when given) starting inside `[start, end]`. */
  method CollectErrorTraces(ts: seq<Trace>, services: seq<string>, start: int, end: int) returns (r: seq<Trace>)
    ensures r == ErrorTraces(ts, services, start, end)
  {
    r := [];
    var i := 0;
    while i < |ts|
      invariant 0 <= i <= |ts|
      invariant r == ErrorTraces(ts[..i], services, start, end)
    {
      var hit := false;
      if ts[i].hasError {
        hit := ScanErrorSpans(ts[i], services, start, end);
      }
      if hit {
        r := r + [ts[i]];
      }
      assert ts[..i + 1][..i] == ts[..i];
      i := i + 1;
    }
    assert ts[..i] == ts;
  }

  /**
   * The store invariant on the values of the store's fields: caps of at
   * least one, both list families valid with their services registered, and
   * the trace table valid with its span services registered.
   */
  ghost predicate StoreValid(maxLogs: nat, maxMetrics: nat, maxTraces: nat, logs: Family<LogEntry>,
                             metrics: Family<MetricPoint>, traces: TraceTable, services: set<string>)
  {
    && maxLogs >= 1 && maxMetrics >= 1 && maxTraces >= 1
    && FamilyValid(logs, maxLogs, LogId, LogService) && logs.lists.Keys <= services
    && FamilyValid(metrics, maxMetrics, MetricId, MetricService) && metrics.lists.Keys <= services
    && TracesRegistered(traces, maxTraces, services)
  }

  /** Any stored log with id `id` is the one the by-id index files under `id`. */
  lemma LogLookup(f: Family<LogEntry>, id: string)
    ensures Indexed(f, LogId, LogService) ==>
      forall s :: s in f.lists ==> forall x :: x in f.lists[s] && x.id == id ==> id in f.byId && f.byId[id] == x
  {
    if Indexed(f, LogId, LogService) {
      forall s | s in f.lists
        ensures forall x :: x in f.lists[s] && x.id == id ==> id in f.byId && f.byId[id] == x
      {
        forall x | x in f.lists[s] && x.id == id
          ensures id in f.byId && f.byId[id] == x
        {
          assert LogId(x) == id;
        }
      }
    }
  }

  /** Any stored point with id `id` is the one the by-id index files under `id`. */
  lemma MetricLookup(f: Family<MetricPoint>, id: string)
    ensures Indexed(f, MetricId, MetricService) ==>
      forall s :: s in f.lists ==> forall x :: x in f.lists[s] && x.id == id ==> id in f.byId && f.byId[id] == x
  {
    if Indexed(f, MetricId, MetricService) {
      forall s | s in f.lists
        ensures forall x :: x in f.lists[s] && x.id == id ==> id in f.byId && f.byId[id] == x
      {
        forall x | x in f.lists[s] && x.id == id
          ensures id in f.byId && f.byId[id] == x
        {
          assert MetricId(x) == id;
        }
      }
    }
  }

  /** A store with nothing in it is valid for any positive limits. */
  lemma EmptyStoreValid(maxLogs: nat, maxMetrics: nat, maxTraces: nat)
    requires maxLogs >= 1 && maxMetrics >= 1 && maxTraces >= 1
    ensures StoreValid(maxLogs, maxMetrics, maxTraces, Family(map[], [], map[]), Family(map[], [], map[]),
                       TraceTable([], map[]), {})
  {
  }

  /** The store's lists and trace table after the retention sweep, with what went. */
  datatype Cleanup = Cleanup(logs: Family<LogEntry>, metrics: Family<MetricPoint>, traces: TraceTable, removed: Removed)

  /**
   * What `cleanup_old_data` does to the store's values at `cutoff`: every
   * log and metric list keeps its entries strictly newer than `cutoff`, the
   * traces whose spans all ended before it leave the table (the rest keep
   * their order), the service orders stay as they were, the by-id indices
   * lose the swept entries, and the counts say how many entries and traces
   * went.
   */
  function Cleaned(logs: Family<LogEntry>, metrics: Family<MetricPoint>, traces: TraceTable, cutoff: int): Cleanup
  {
    var kept := Unexpired(traces.entries, cutoff);
    var order := KeepIn(traces.order, kept.Keys);
    Cleanup(Family(Sweep(logs.lists, LogTimestamp, cutoff), logs.order, PruneIndex(logs.byId, LogTimestamp, cutoff)),
            Family(Sweep(metrics.lists, MetricTimestamp, cutoff), metrics.order, PruneIndex(metrics.byId, MetricTimestamp, cutoff)),
            TraceTable(order, kept),
            Removed(RemovedCount(logs.order, logs.lists, LogTimestamp, cutoff),
                    RemovedCount(metrics.order, metrics.lists, MetricTimestamp, cutoff),
                    |traces.order| - |order|))
  }

  /**
   * `cleanup_old_data` as written: the same sweep of lists and traces, but
   * both by-id indices are kept whole, swept entries included.
   */
  function CleanedAsWritten(logs: Family<LogEntry>, metrics: Family<MetricPoint>, traces: TraceTable, cutoff: int): (r: Cleanup)
    ensures var c := Cleaned(logs, metrics, traces, cutoff);
      && r.logs.lists == c.logs.lists && r.logs.order == c.logs.order && r.logs.byId == logs.byId
      && r.metrics.lists == c.metrics.lists && r.metrics.order == c.metrics.order && r.metrics.byId == metrics.byId
      && r.traces == c.traces && r.removed == c.removed
  {
    var c := Cleaned(logs, metrics, traces, cutoff);
    Cleanup(c.logs.(byId := logs.byId), c.metrics.(byId := metrics.byId), c.traces, c.removed)
  }

  /**
   * A log entry older than the cutoff: the sweep as written empties its list
   * but still finds it by id, so the index holds a stale entry; the
   * corrected sweep no longer finds it and keeps the index clean.
   */
  lemma AsWrittenSweepLeavesStaleEntry()
    ensures var e := LogEntry("a", 0, "svc", Info, "m");
      var logs := Family(map["svc" := [e]], ["svc"], map["a" := e]);
      var w := CleanedAsWritten(logs, Family(map[], [], map[]), TraceTable([], map[]), 10);
      var c := Cleaned(logs, Family(map[], [], map[]), TraceTable([], map[]), 10);
      && FamilyValid(logs, 1, LogId, LogService) && IndexStored(logs, LogService)
      && w.logs.lists["svc"] == [] && "a" in w.logs.byId && !IndexStored(w.logs, LogService)
      && c.logs.lists["svc"] == [] && "a" !in c.logs.byId && IndexStored(c.logs, LogService)
  {
    var e := LogEntry("a", 0, "svc", Info, "m");
    var logs := Family(map["svc" := [e]], ["svc"], map["a" := e]);
    var swept := Sweep(logs.lists, LogTimestamp, 10);
    assert swept["svc"] == Newer([e], LogTimestamp, 10);
    SweepKeepsStored(logs, LogService, LogTimestamp, 10);
  }

  /** The sweep leaves a valid store valid. */
  lemma CleanedKeepsValid(maxLogs: nat, maxMetrics: nat, maxTraces: nat, logs: Family<LogEntry>,
                          metrics: Family<MetricPoint>, traces: TraceTable, services: set<string>, cutoff: int)
    requires StoreValid(maxLogs, maxMetrics, maxTraces, logs, metrics, traces, services)
    ensures var r := Cleaned(logs, metrics, traces, cutoff);
      StoreValid(maxLogs, maxMetrics, maxTraces, r.logs, r.metrics, r.traces, services)
  {
    var r := Cleaned(logs, metrics, traces, cutoff);
    SweepKeepsValid(logs, maxLogs, LogId, LogService, LogTimestamp, cutoff);
    SweepKeepsValid(metrics, maxMetrics, MetricId, MetricService, MetricTimestamp, cutoff);
    KeepInKeepsValid(traces, maxTraces, r.traces.entries);
  }

  /**
   * The sweep's lists: every service keeps its list, which keeps exactly its
   * entries newer than `cutoff`, and each count is the drop in its family's
   * stored total.
   */
  lemma CleanedLists(logs: Family<LogEntry>, metrics: Family<MetricPoint>, traces: TraceTable, cutoff: int)
    ensures var r := Cleaned(logs, metrics, traces, cutoff);
      && r.logs.lists.Keys == logs.lists.Keys && r.metrics.lists.Keys == metrics.lists.Keys
      && (forall s :: s in logs.lists ==> forall x :: x in r.logs.lists[s] <==> x in logs.lists[s] && x.timestamp > cutoff)
      && (forall s :: s in metrics.lists ==> forall x :: x in r.metrics.lists[s] <==> x in metrics.lists[s] && x.timestamp > cutoff)
      && TotalLength(logs.order, logs.lists) == TotalLength(logs.order, r.logs.lists) + r.removed.logs
      && TotalLength(metrics.order, metrics.lists) == TotalLength(metrics.order, r.metrics.lists) + r.removed.metrics
  {
    var r := Cleaned(logs, metrics, traces, cutoff);
    forall s | s in logs.lists
      ensures forall x :: x in r.logs.lists[s] <==> x in logs.lists[s] && x.timestamp > cutoff
    {
      forall x ensures x in r.logs.lists[s] <==> x in logs.lists[s] && x.timestamp > cutoff {
        SweepMembers(logs.lists, LogTimestamp, cutoff, s, x);
      }
    }
    forall s | s in metrics.lists
      ensures forall x :: x in r.metrics.lists[s] <==> x in metrics.lists[s] && x.timestamp > cutoff
    {
      forall x ensures x in r.metrics.lists[s] <==> x in metrics.lists[s] && x.timestamp > cutoff {
        SweepMembers(metrics.lists, MetricTimestamp, cutoff, s, x);
      }
    }
    RemovedCountIsDrop(logs.order, logs.lists, LogTimestamp, cutoff);
    RemovedCountIsDrop(metrics.order, metrics.lists, MetricTimestamp, cutoff);
  }

  /**
   * The sweep's trace table: exactly the traces that are not expired stay,
   * unchanged, and the trace count is the number of expired ones.
   */
  lemma CleanedTraces(logs: Family<LogEntry>, metrics: Family<MetricPoint>, traces: TraceTable, cutoff: int)
    requires forall id :: id in traces.entries <==> id in traces.order
    ensures var r := Cleaned(logs, metrics, traces, cutoff);
      && (forall id :: id in r.traces.entries <==> id in traces.entries && !Expired(traces.entries[id], cutoff))
      && (forall id :: id in r.traces.entries ==> r.traces.entries[id] == traces.entries[id])
      && r.removed.traces == |ExpiredIds(traces.order, traces.entries, cutoff)|
  {
    var r := Cleaned(logs, metrics, traces, cutoff);
    ExpiredAndKeptSplit(traces.order, traces.entries, cutoff, r.traces.entries.Keys);
  }

  /**
   * The three sweeps of `cleanup_old_data` on the store's values: every list
   * keeps its entries newer than `cutoff`, the expired traces are dropped,
   * and the counts say how much went.
   */
  method CleanStore(maxLogs: nat, maxMetrics: nat, maxTraces: nat,
                    logs: map<string, seq<LogEntry>>, logOrder: seq<string>, logsById: map<string, LogEntry>,
                    metrics: map<string, seq<MetricPoint>>, metricOrder: seq<string>, metricsById: map<string, MetricPoint>,
                    traceOrder: seq<string>, traces: map<string, Trace>, services: set<string>, cutoff: int)
    returns (logs': Family<LogEntry>, metrics': Family<MetricPoint>, traces': TraceTable, removed: Removed)
    requires StoreValid(maxLogs, maxMetrics, maxTraces, Family(logs, logOrder, logsById),
                        Family(metrics, metricOrder, metricsById), TraceTable(traceOrder, traces), services)
    ensures StoreValid(maxLogs, maxMetrics, maxTraces, logs', metrics', traces', services)
    ensures logs'.order == logOrder && metrics'.order == metricOrder
    ensures var c := Cleaned(Family(logs, logOrder, logsById), Family(metrics, metricOrder, metricsById), TraceTable(traceOrder, traces), cutoff);
      logs' == c.logs && metrics' == c.metrics && traces' == c.traces && removed == c.removed
  {
    var lists, index, logsRemoved := SweepFamily(Family(logs, logOrder, logsById), maxLogs, LogId, LogService, LogTimestamp, cutoff);
    logs' := Family(lists, logOrder, index);
    var mlists, mindex, metricsRemoved := SweepFamily(Family(metrics, metricOrder, metricsById), maxMetrics, MetricId, MetricService, MetricTimestamp, cutoff);
    metrics' := Family(mlists, metricOrder, mindex);
    var order, kept, tracesRemoved := DropExpired(traceOrder, traces, cutoff, maxTraces, services);
    traces' := TraceTable(order, kept);
    removed := Removed(logsRemoved, metricsRemoved, tracesRemoved);
  }

  /**
   * The answer of the log query: the scan sorted by timestamp, a
   * permutation of it that keeps each timestamp's entries in scan order,
   * holding exactly the selected entries of the target services.
   */
  lemma LogWindowAnswer(m: map<string, seq<LogEntry>>, targets: seq<string>, start: int, end: int, levels: seq<LogLevel>)
    ensures var scan := ScanLogs(m, targets, start, end, levels);
      var r := SortBy(scan, LogTimestamp);
      && SortedBy(r, LogTimestamp)
      && multiset(r) == multiset(scan)
      && (forall t :: WithKey(r, LogTimestamp, t) == WithKey(scan, LogTimestamp, t))
      && (forall x :: x in r <==> (LogSelected(x, start, end, levels) && exists s :: s in targets && s in m && x in m[s]))
  {
    var scan := ScanLogs(m, targets, start, end, levels);
    ScanLogsMembers(m, targets, start, end, levels);
    SortByMembers(scan, LogTimestamp);
    forall t | true ensures WithKey(SortBy(scan, LogTimestamp), LogTimestamp, t) == WithKey(scan, LogTimestamp, t) {
      SortByIsStable(scan, LogTimestamp, t);
    }
  }

  /**
   * The answer of the metric query: the scan sorted by timestamp, a
   * permutation of it that keeps each timestamp's points in scan order,
   * holding exactly the selected points of the target services.
   */
  lemma MetricWindowAnswer(m: map<string, seq<MetricPoint>>, targets: seq<string>, start: int, end: int, names: seq<string>)
    ensures var scan := ScanMetrics(m, targets, start, end, names);
      var r := SortBy(scan, MetricTimestamp);
      && SortedBy(r, MetricTimestamp)
      && multiset(r) == multiset(scan)
      && (forall t :: WithKey(r, MetricTimestamp, t) == WithKey(scan, MetricTimestamp, t))
      && (forall x :: x in r <==> (MetricSelected(x, start, end, names) && exists s :: s in targets && s in m && x in m[s]))
  {
    var scan := ScanMetrics(m, targets, start, end, names);
    ScanMetricsMembers(m, targets, start, end, names);
    SortByMembers(scan, MetricTimestamp);
    forall t | true ensures WithKey(SortBy(scan, MetricTimestamp), MetricTimestamp, t) == WithKey(scan, MetricTimestamp, t) {
      SortByIsStable(scan, MetricTimestamp, t);
    }
  }
}
