/**
 * The value-level operations the telemetry store is specified by: capped
 * appends to a per-service list, the insertion-ordered trace table, the
 * scan-and-filter steps of the window queries and the retention sweep.
 */
module StoreSpec {
  import opened Wrappers
  import opened Telemetry
  import opened TimeUtil

  ghost predicate Distinct<T>(s: seq<T>)
  {
    forall i, j :: 0 <= i < j < |s| ==> s[i] != s[j]
  }

  /** A duplicate-free sequence has as many distinct elements as it has elements. */
  lemma {:induction false} DistinctCardinality<T>(s: seq<T>)
    requires Distinct(s)
    ensures |set x | x in s| == |s|
  {
    if s != [] {
      var init := s[..|s| - 1];
      var last := s[|s| - 1];
      assert Distinct(init);
      DistinctCardinality(init);
      assert (set x | x in s) == (set x | x in init) + {last};
      assert last !in (set x | x in init);
    }
  }

  // -------------------------------------------------------------------
  // Per-service capped lists
  // -------------------------------------------------------------------

  /**
   * `list.append(x)` followed by `pop(0)` when the list then exceeds `cap`:
   * the new element is last, and at most one element, the oldest, is gone.
   */
  function CapAppend<T>(l: seq<T>, x: T, cap: nat): (r: seq<T>)
    requires cap >= 1
    ensures |r| > 0 && r[|r| - 1] == x
    ensures r[..|r| - 1] == l || (l != [] && r[..|r| - 1] == l[1..])
    ensures |r| == |l| + 1 <==> |l| < cap
    ensures |l| <= cap ==> |r| <= cap
  {
    var grown := l + [x];
    assert grown[..|grown| - 1] == l;
    if |grown| > cap then
      assert grown[1..][..|l| - 1] == l[1..];
      grown[1..]
    else grown
  }

  /** The last `n` elements of `s` (all of them when there are fewer). */
  function LastN<T>(s: seq<T>, n: nat): (r: seq<T>)
    ensures |r| == if |s| < n then |s| else n
  {
    if |s| <= n then s else s[|s| - n..]
  }

  /** A run of capped appends, oldest first. */
  function CapAppendAll<T>(l: seq<T>, xs: seq<T>, cap: nat): seq<T>
    requires cap >= 1
  {
    if xs == [] then l
    else CapAppend(CapAppendAll(l, xs[..|xs| - 1], cap), xs[|xs| - 1], cap)
  }

  /**
   * Capacity invariant: after any run of appends to a list within its cap,
   * the list holds exactly the `cap` most recent elements, in order.
   */
  lemma {:induction false} CapAppendAllKeepsLatest<T>(l: seq<T>, xs: seq<T>, cap: nat)
    requires cap >= 1 && |l| <= cap
    ensures CapAppendAll(l, xs, cap) == LastN(l + xs, cap)
  {
    if xs != [] {
      var init := xs[..|xs| - 1];
      var x := xs[|xs| - 1];
      CapAppendAllKeepsLatest(l, init, cap);
      var a := l + init;
      assert l + xs == a + [x];
      var prev := LastN(a, cap);
      if |a| + 1 <= cap {
      } else if |a| <= cap {
        assert prev == a;
        assert (a + [x])[1..] == (a + [x])[|a + [x]| - cap..];
      } else {
        assert prev + [x] == (a + [x])[|a| - cap..];
        assert (prev + [x])[1..] == (a + [x])[|a + [x]| - cap..];
      }
    }
  }

  /** Starting from an empty list: `min(n, cap)` entries, the most recent ones. */
  lemma CapAppendAllFromEmpty<T>(xs: seq<T>, cap: nat)
    requires cap >= 1
    ensures |CapAppendAll([], xs, cap)| == if |xs| < cap then |xs| else cap
    ensures CapAppendAll([], xs, cap) == xs[|xs| - |CapAppendAll([], xs, cap)|..]
  {
    CapAppendAllKeepsLatest([], xs, cap);
    assert [] + xs == xs;
    assert CapAppendAll([], xs, cap) == LastN(xs, cap);
    if |xs| > cap {
      assert CapAppendAll([], xs, cap) == xs[|xs| - cap..];
    }
  }

  // -------------------------------------------------------------------
  // Trace table: a map together with its keys in insertion order
  // -------------------------------------------------------------------

  /** The trace map and the insertion order of its keys. */
  datatype TraceTable = TraceTable(order: seq<string>, entries: map<string, Trace>)

  ghost predicate TableValid(t: TraceTable, cap: nat)
  {
    && Distinct(t.order)
    && (forall id :: id in t.entries <==> id in t.order)
    && |t.order| <= cap
    && (forall id :: id in t.entries ==> t.entries[id].traceId == id)
  }

  /**
   * `traces[trace.trace_id] = trace`, then removal of the first key when
   * the map exceeds `cap`. Overwriting keeps the key's position.
   */
  function InsertTrace(t: TraceTable, trace: Trace, cap: nat): TraceTable
  {
    var id := trace.traceId;
    var order := if id in t.entries then t.order else t.order + [id];
    var entries := t.entries[id := trace];
    if |order| > cap then TraceTable(order[1..], entries - {order[0]})
    else TraceTable(order, entries)
  }

  /** The table as it is after every trace of `traces` has been inserted in turn. */
  function InsertTraces(t: TraceTable, traces: seq<Trace>, cap: nat): TraceTable
  {
    if traces == [] then t
    else InsertTrace(InsertTraces(t, traces[..|traces| - 1], cap), traces[|traces| - 1], cap)
  }

  lemma DistinctAppend<T>(s: seq<T>, x: T)
    requires Distinct(s) && x !in s
    ensures Distinct(s + [x])
  {
  }

  /**
   * Insertion stores the trace under its id and keeps the table valid.
   * Overwriting an id keeps the order and the count; a new id goes last,
   * and on overflow exactly the first key is removed. Other entries keep
   * their traces.
   */
  lemma InsertTraceSpec(t: TraceTable, trace: Trace, cap: nat)
    requires cap >= 1 && TableValid(t, cap)
    ensures var r := InsertTrace(t, trace, cap); var id := trace.traceId;
      && TableValid(r, cap)
      && id in r.entries && r.entries[id] == trace
      && (id in t.entries ==> r.order == t.order && |r.entries| == |t.entries|)
      && (id !in t.entries && |t.order| < cap ==> r.order == t.order + [id])
      && (id !in t.entries && |t.order| == cap ==>
            r.order == t.order[1..] + [id] && t.order[0] !in r.entries)
      && (forall other :: other in t.entries && other != id && other in r.entries
            ==> r.entries[other] == t.entries[other])
      && (forall other :: other in t.entries && other != id && other !in r.entries
            ==> id !in t.entries && |t.order| == cap && other == t.order[0])
  {
    var id := trace.traceId;
    var r := InsertTrace(t, trace, cap);
    if id in t.entries {
      assert t.entries[id := trace].Keys == t.entries.Keys;
    } else {
      DistinctAppend(t.order, id);
      var order := t.order + [id];
      if |order| > cap {
        assert order[0] == t.order[0];
        assert order[1..] == t.order[1..] + [id];
        assert forall k :: k in order[1..] ==> k != order[0];
      }
    }
  }

  /** The number of traces always equals the number of keys in the order. */
  lemma TableCount(t: TraceTable, cap: nat)
    requires TableValid(t, cap)
    ensures |t.entries| == |t.order| <= cap
  {
    DistinctCardinality(t.order);
    assert t.entries.Keys == set x | x in t.order;
  }

  /** A run of insertions keeps the table valid, and the last trace inserted is stored under its id. */
  lemma {:induction false} InsertTracesKeepsValid(t: TraceTable, traces: seq<Trace>, cap: nat)
    requires cap >= 1 && TableValid(t, cap)
    ensures TableValid(InsertTraces(t, traces, cap), cap)
    ensures traces != [] ==> var last := traces[|traces| - 1]; var r := InsertTraces(t, traces, cap);
              last.traceId in r.entries && r.entries[last.traceId] == last
  {
    if traces != [] {
      InsertTracesKeepsValid(t, traces[..|traces| - 1], cap);
      InsertTraceSpec(InsertTraces(t, traces[..|traces| - 1], cap), traces[|traces| - 1], cap);
    }
  }

  /** A duplicate-free key order that lists exactly the keys of `m` is as long as `m` is large. */
  lemma KeysMatchOrder<T>(order: seq<string>, m: map<string, T>)
    requires Distinct(order) && forall id :: id in m <==> id in order
    ensures |m| == |order|
  {
    DistinctCardinality(order);
    assert m.Keys == set x | x in order;
  }

  // -------------------------------------------------------------------
  // Window queries
  // -------------------------------------------------------------------

  function ListOf<T>(m: map<string, seq<T>>, service: string): seq<T>
  {
    if service in m then m[service] else []
  }

  /** A log inside the window whose level passes the (possibly empty) level filter. */
  predicate LogSelected(e: LogEntry, start: int, end: int, levels: seq<LogLevel>)
  {
    IsWithinWindow(e.timestamp, start, end) && (|levels| == 0 || e.level in levels)
  }

  /** The entries of one list that pass the log filter, in list order. */
  function SelectLogs(l: seq<LogEntry>, start: int, end: int, levels: seq<LogLevel>): seq<LogEntry>
  {
    if l == [] then []
    else
      var n := |l| - 1;
      SelectLogs(l[..n], start, end, levels) + (if LogSelected(l[n], start, end, levels) then [l[n]] else [])
  }

  /** The selection holds exactly the entries of the list that pass the filter. */
  lemma {:induction false} SelectLogsMembers(l: seq<LogEntry>, start: int, end: int, levels: seq<LogLevel>)
    ensures forall x :: x in SelectLogs(l, start, end, levels) <==> x in l && LogSelected(x, start, end, levels)
  {
    if l != [] {
      var n := |l| - 1;
      assert l == l[..n] + [l[n]];
      SelectLogsMembers(l[..n], start, end, levels);
    }
  }

  /** The scan of the log query: each target service's list in turn, filtered. */
  function ScanLogs(m: map<string, seq<LogEntry>>, targets: seq<string>, start: int, end: int, levels: seq<LogLevel>): seq<LogEntry>
  {
    if targets == [] then []
    else
      var n := |targets| - 1;
      ScanLogs(m, targets[..n], start, end, levels) + SelectLogs(ListOf(m, targets[n]), start, end, levels)
  }

  /** The scan holds exactly the selected entries of the target services' lists. */
  lemma {:induction false} ScanLogsMembers(m: map<string, seq<LogEntry>>, targets: seq<string>, start: int, end: int, levels: seq<LogLevel>)
    ensures forall x :: x in ScanLogs(m, targets, start, end, levels) <==>
                          (LogSelected(x, start, end, levels) && exists s :: s in targets && s in m && x in m[s])
  {
    if targets != [] {
      var n := |targets| - 1;
      assert forall s :: s in targets <==> s in targets[..n] || s == targets[n];
      ScanLogsMembers(m, targets[..n], start, end, levels);
      SelectLogsMembers(ListOf(m, targets[n]), start, end, levels);
    }
  }

  /** One more entry of a list is kept by the log filter exactly when it is selected. */
  lemma SelectLogsStep(l: seq<LogEntry>, j: nat, start: int, end: int, levels: seq<LogLevel>)
    requires j < |l|
    ensures SelectLogs(l[..j + 1], start, end, levels)
            == SelectLogs(l[..j], start, end, levels) + (if LogSelected(l[j], start, end, levels) then [l[j]] else [])
  {
    assert l[..j + 1][..j] == l[..j];
  }

  /** One more target service adds its whole filtered list to the scan. */
  lemma ScanLogsStep(m: map<string, seq<LogEntry>>, targets: seq<string>, i: nat, start: int, end: int, levels: seq<LogLevel>)
    requires i < |targets|
    ensures ScanLogs(m, targets[..i + 1], start, end, levels)
            == ScanLogs(m, targets[..i], start, end, levels) + SelectLogs(ListOf(m, targets[i]), start, end, levels)
  {
    assert targets[..i + 1][..i] == targets[..i];
  }

  /** A metric point inside the window whose name passes the (possibly empty) name filter. */
  predicate MetricSelected(p: MetricPoint, start: int, end: int, names: seq<string>)
  {
    IsWithinWindow(p.timestamp, start, end) && (|names| == 0 || p.metricName in names)
  }

  function SelectMetrics(l: seq<MetricPoint>, start: int, end: int, names: seq<string>): seq<MetricPoint>
  {
    if l == [] then []
    else
      var n := |l| - 1;
      SelectMetrics(l[..n], start, end, names) + (if MetricSelected(l[n], start, end, names) then [l[n]] else [])
  }

  /** The selection holds exactly the points of the list that pass the filter. */
  lemma {:induction false} SelectMetricsMembers(l: seq<MetricPoint>, start: int, end: int, names: seq<string>)
    ensures forall x :: x in SelectMetrics(l, start, end, names) <==> x in l && MetricSelected(x, start, end, names)
  {
    if l != [] {
      var n := |l| - 1;
      assert l == l[..n] + [l[n]];
      SelectMetricsMembers(l[..n], start, end, names);
    }
  }

  function ScanMetrics(m: map<string, seq<MetricPoint>>, targets: seq<string>, start: int, end: int, names: seq<string>): seq<MetricPoint>
  {
    if targets == [] then []
    else
      var n := |targets| - 1;
      ScanMetrics(m, targets[..n], start, end, names) + SelectMetrics(ListOf(m, targets[n]), start, end, names)
  }

  /** The scan holds exactly the selected points of the target services' lists. */
  lemma {:induction false} ScanMetricsMembers(m: map<string, seq<MetricPoint>>, targets: seq<string>, start: int, end: int, names: seq<string>)
    ensures forall x :: x in ScanMetrics(m, targets, start, end, names) <==>
                          (MetricSelected(x, start, end, names) && exists s :: s in targets && s in m && x in m[s])
  {
    if targets != [] {
      var n := |targets| - 1;
      assert forall s :: s in targets <==> s in targets[..n] || s == targets[n];
      ScanMetricsMembers(m, targets[..n], start, end, names);
      SelectMetricsMembers(ListOf(m, targets[n]), start, end, names);
    }
  }

  /** One more point of a list is kept by the metric filter exactly when it is selected. */
  lemma SelectMetricsStep(l: seq<MetricPoint>, j: nat, start: int, end: int, names: seq<string>)
    requires j < |l|
    ensures SelectMetrics(l[..j + 1], start, end, names)
            == SelectMetrics(l[..j], start, end, names) + (if MetricSelected(l[j], start, end, names) then [l[j]] else [])
  {
    assert l[..j + 1][..j] == l[..j];
  }

  /** One more target service adds its whole filtered list to the scan. */
  lemma ScanMetricsStep(m: map<string, seq<MetricPoint>>, targets: seq<string>, i: nat, start: int, end: int, names: seq<string>)
    requires i < |targets|
    ensures ScanMetrics(m, targets[..i + 1], start, end, names)
            == ScanMetrics(m, targets[..i], start, end, names) + SelectMetrics(ListOf(m, targets[i]), start, end, names)
  {
    assert targets[..i + 1][..i] == targets[..i];
  }

  /** A point of the named metric inside the window. */
  predicate InSeries(p: MetricPoint, metricName: string, start: int, end: int)
  {
    p.metricName == metricName && IsWithinWindow(p.timestamp, start, end)
  }

  function SelectSeries(l: seq<MetricPoint>, metricName: string, start: int, end: int): (r: seq<MetricPoint>)
    ensures forall x :: x in r <==> x in l && InSeries(x, metricName, start, end)
  {
    if l == [] then []
    else
      var n := |l| - 1;
      assert l == l[..n] + [l[n]];
      SelectSeries(l[..n], metricName, start, end) + (if InSeries(l[n], metricName, start, end) then [l[n]] else [])
  }

  /** Some span of the service starts inside the window. */
  predicate HitsService(t: Trace, service: string, start: int, end: int)
  {
    exists i :: 0 <= i < |t.spans| && t.spans[i].serviceName == service
                && IsWithinWindow(t.spans[i].startTime, start, end)
  }

  /** A failed trace with a span (of the given services, if any) starting inside the window. */
  predicate HitsErrorWindow(t: Trace, services: seq<string>, start: int, end: int)
  {
    t.hasError
    && exists i :: 0 <= i < |t.spans| && (|services| == 0 || t.spans[i].serviceName in services)
                   && IsWithinWindow(t.spans[i].startTime, start, end)
  }

  /** The traces of `ts`, in order, that have a span of `service` starting in the window. */
  function ServiceTraces(ts: seq<Trace>, service: string, start: int, end: int): (r: seq<Trace>)
    ensures forall t :: t in r <==> t in ts && HitsService(t, service, start, end)
  {
    if ts == [] then []
    else
      var n := |ts| - 1;
      assert forall t :: t in ts <==> t in ts[..n] || t == ts[n];
      ServiceTraces(ts[..n], service, start, end) + (if HitsService(ts[n], service, start, end) then [ts[n]] else [])
  }

  /** The failed traces of `ts`, in order, with a matching span starting in the window. */
  function ErrorTraces(ts: seq<Trace>, services: seq<string>, start: int, end: int): (r: seq<Trace>)
    ensures forall t :: t in r <==> t in ts && HitsErrorWindow(t, services, start, end)
  {
    if ts == [] then []
    else
      var n := |ts| - 1;
      assert forall t :: t in ts <==> t in ts[..n] || t == ts[n];
      ErrorTraces(ts[..n], services, start, end) + (if HitsErrorWindow(ts[n], services, start, end) then [ts[n]] else [])
  }

  /** The traces stored under `ids`, in that order (`dict.values()` when `ids` is the key order). */
  function TracesAt(ids: seq<string>, m: map<string, Trace>): (r: seq<Trace>)
    requires forall id :: id in ids ==> id in m
    ensures |r| == |ids| && forall k :: 0 <= k < |ids| ==> r[k] == m[ids[k]]
  {
    if ids == [] then []
    else
      var n := |ids| - 1;
      assert forall id :: id in ids[..n] ==> id in ids;
      TracesAt(ids[..n], m) + [m[ids[n]]]
  }

  /** A trace is among `TracesAt(ids, m)` exactly when it is stored under one of `ids`. */
  lemma TracesAtMembers(ids: seq<string>, m: map<string, Trace>, t: Trace)
    requires forall id :: id in ids ==> id in m
    ensures t in TracesAt(ids, m) <==> exists id :: id in ids && m[id] == t
  {
    var r := TracesAt(ids, m);
    if t in r {
      var k :| 0 <= k < |r| && r[k] == t;
      assert ids[k] in ids && m[ids[k]] == t;
    }
    if exists id :: id in ids && m[id] == t {
      var id :| id in ids && m[id] == t;
      var k :| 0 <= k < |ids| && ids[k] == id;
      assert r[k] == t;
    }
  }

  // -------------------------------------------------------------------
  // Retention sweep
  // -------------------------------------------------------------------

  /** `[x for x in l if key(x) > cutoff]`. */
  function Newer<T>(l: seq<T>, key: T -> int, cutoff: int): (r: seq<T>)
    ensures |r| <= |l|
  {
    if l == [] then []
    else (if key(l[0]) > cutoff then [l[0]] else []) + Newer(l[1..], key, cutoff)
  }

  /** The sweep of one list keeps exactly its entries newer than `cutoff`. */
  lemma {:induction false} NewerMembers<T(!new)>(l: seq<T>, key: T -> int, cutoff: int)
    ensures forall x :: x in Newer(l, key, cutoff) <==> x in l && key(x) > cutoff
  {
    if l != [] {
      NewerMembers(l[1..], key, cutoff);
      assert forall x :: x in l <==> x == l[0] || x in l[1..];
    }
  }

  /** Every list of `m` cut down to its entries newer than `cutoff`. */
  function Sweep<T(!new)>(m: map<string, seq<T>>, key: T -> int, cutoff: int): (r: map<string, seq<T>>)
    ensures r.Keys == m.Keys
  {
    map s | s in m :: Newer(m[s], key, cutoff)
  }

  /** The by-id index without the entries that are not newer than `cutoff`. */
  function PruneIndex<T>(byId: map<string, T>, key: T -> int, cutoff: int): map<string, T>
  {
    map k | k in byId && key(byId[k]) > cutoff :: byId[k]
  }

  /** A service's list after the sweep keeps exactly its entries newer than `cutoff`. */
  lemma SweepMembers<T(!new)>(m: map<string, seq<T>>, key: T -> int, cutoff: int, s: string, x: T)
    requires s in m
    ensures x in Sweep(m, key, cutoff)[s] <==> x in m[s] && key(x) > cutoff
  {
    NewerMembers(m[s], key, cutoff);
  }

  /** The sweep applied, one service after another, to the lists of the services in `keys`. */
  function SweepKeys<T(!new)>(m: map<string, seq<T>>, keys: seq<string>, key: T -> int, cutoff: int): map<string, seq<T>>
  {
    if keys == [] then m
    else
      var s := keys[|keys| - 1];
      var init := SweepKeys(m, keys[..|keys| - 1], key, cutoff);
      if s in m then init[s := Newer(m[s], key, cutoff)] else init
  }

  /** `SweepKeys` cuts exactly the lists of the services in `keys`. */
  lemma {:induction false} SweepKeysLists<T(!new)>(m: map<string, seq<T>>, keys: seq<string>, key: T -> int, cutoff: int)
    ensures SweepKeys(m, keys, key, cutoff).Keys == m.Keys
    ensures forall s :: s in m ==> SweepKeys(m, keys, key, cutoff)[s] == if s in keys then Newer(m[s], key, cutoff) else m[s]
  {
    if keys != [] {
      var init := keys[..|keys| - 1];
      SweepKeysLists(m, init, key, cutoff);
      assert forall s :: s in keys <==> s in init || s == keys[|keys| - 1];
    }
  }

  /** Sweeping every key of `m` is the whole sweep. */
  lemma SweepKeysAll<T(!new)>(m: map<string, seq<T>>, keys: seq<string>, key: T -> int, cutoff: int)
    requires forall s :: s in m ==> s in keys
    ensures SweepKeys(m, keys, key, cutoff) == Sweep(m, key, cutoff)
  {
    SweepKeysLists(m, keys, key, cutoff);
  }

  /**
   * One step of the sweep over duplicate-free `keys`: the list of `keys[i]`
   * is still untouched, sweeping it extends the partial sweep and the count
   * by that one list.
   */
  lemma SweepKeysStep<T(!new)>(m: map<string, seq<T>>, keys: seq<string>, i: nat, key: T -> int, cutoff: int)
    requires Distinct(keys) && i < |keys| && keys[i] in m
    ensures keys[i] in SweepKeys(m, keys[..i], key, cutoff)
    ensures SweepKeys(m, keys[..i], key, cutoff)[keys[i]] == m[keys[i]]
    ensures SweepKeys(m, keys[..i + 1], key, cutoff)
         == SweepKeys(m, keys[..i], key, cutoff)[keys[i] := Newer(m[keys[i]], key, cutoff)]
    ensures RemovedCount(keys[..i + 1], m, key, cutoff)
         == RemovedCount(keys[..i], m, key, cutoff) + (|m[keys[i]]| - |Newer(m[keys[i]], key, cutoff)|)
  {
    SweepKeysLists(m, keys[..i], key, cutoff);
    assert keys[i] !in keys[..i];
    assert keys[..i + 1][..i] == keys[..i];
  }

  /** The total length of the lists of the services in `order`. */
  function TotalLength<T>(order: seq<string>, m: map<string, seq<T>>): nat
  {
    if order == [] then 0
    else TotalLength(order[..|order| - 1], m) + |ListOf(m, order[|order| - 1])|
  }

  lemma MulSucc(n: nat, c: nat)
    ensures (n + 1) * c == n * c + c
  {
  }

  /** Lists within `cap` add up to at most `cap` per service. */
  lemma {:induction false} TotalLengthBound<T>(order: seq<string>, m: map<string, seq<T>>, cap: nat)
    requires forall s :: s in order ==> |ListOf(m, s)| <= cap
    ensures TotalLength(order, m) <= |order| * cap
  {
    if order != [] {
      var n := |order| - 1;
      var init := order[..n];
      assert forall s :: s in init ==> s in order;
      TotalLengthBound(init, m, cap);
      assert order[n] in order;
      MulSucc(n, cap);
    }
  }

  /** Every listed service's list counts toward the total. */
  lemma {:induction false} TotalLengthCovers<T>(order: seq<string>, m: map<string, seq<T>>, s: string)
    requires s in order
    ensures |ListOf(m, s)| <= TotalLength(order, m)
  {
    var n := |order| - 1;
    if order[n] != s {
      assert s in order[..n] by {
        var i :| 0 <= i < |order| && order[i] == s;
        assert order[..n][i] == s;
      }
      TotalLengthCovers(order[..n], m, s);
    }
  }

  /** The total is zero exactly when every listed service's list is empty. */
  lemma {:induction false} TotalLengthZero<T>(order: seq<string>, m: map<string, seq<T>>)
    ensures TotalLength(order, m) == 0 <==> forall s :: s in order ==> ListOf(m, s) == []
  {
    if order != [] {
      var n := |order| - 1;
      TotalLengthZero(order[..n], m);
      assert forall s :: s in order <==> s in order[..n] || s == order[n] by {
        assert order == order[..n] + [order[n]];
      }
    }
  }

  /** What the sweep takes out of the lists of the services in `order`. */
  function RemovedCount<T(!new)>(order: seq<string>, m: map<string, seq<T>>, key: T -> int, cutoff: int): nat
  {
    if order == [] then 0
    else
      var l := ListOf(m, order[|order| - 1]);
      RemovedCount(order[..|order| - 1], m, key, cutoff) + (|l| - |Newer(l, key, cutoff)|)
  }

  /** The sweep's count is exactly the drop in the stored total. */
  lemma {:induction false} RemovedCountIsDrop<T(!new)>(order: seq<string>, m: map<string, seq<T>>, key: T -> int, cutoff: int)
    ensures TotalLength(order, m) == TotalLength(order, Sweep(m, key, cutoff)) + RemovedCount(order, m, key, cutoff)
  {
    if order != [] {
      RemovedCountIsDrop(order[..|order| - 1], m, key, cutoff);
    }
  }

  /** The latest end time among the spans (`max(spans, key=end_time).end_time`). */
  function MaxEndTime(spans: seq<Span>): (r: int)
    requires spans != []
    ensures forall i :: 0 <= i < |spans| ==> spans[i].endTime <= r
    ensures exists i :: 0 <= i < |spans| && spans[i].endTime == r
  {
    if |spans| == 1 then spans[0].endTime
    else
      var rest := MaxEndTime(spans[1..]);
      assert forall i :: 1 <= i < |spans| ==> spans[i] == spans[1..][i - 1];
      if spans[0].endTime >= rest then spans[0].endTime else rest
  }

  /** A trace the sweep removes: it has spans and all of them ended before `cutoff`. */
  predicate Expired(t: Trace, cutoff: int)
  {
    t.spans != [] && MaxEndTime(t.spans) < cutoff
  }

  lemma ExpiredMeansAllEnded(t: Trace, cutoff: int)
    ensures Expired(t, cutoff) <==> t.spans != [] && forall i :: 0 <= i < |t.spans| ==> t.spans[i].endTime < cutoff
  {
    if t.spans != [] {
      var r := MaxEndTime(t.spans);
      var i :| 0 <= i < |t.spans| && t.spans[i].endTime == r;
    }
  }

  /** The ids, in order, of the traces the sweep removes. */
  function ExpiredIds(ids: seq<string>, m: map<string, Trace>, cutoff: int): (r: seq<string>)
    requires forall id :: id in ids ==> id in m
    ensures forall id :: id in r <==> id in ids && Expired(m[id], cutoff)
  {
    if ids == [] then []
    else
      var n := |ids| - 1;
      assert forall id :: id in ids <==> id in ids[..n] || id == ids[n];
      ExpiredIds(ids[..n], m, cutoff) + (if Expired(m[ids[n]], cutoff) then [ids[n]] else [])
  }

  /** One more id of the order adds it to the expired ids exactly when its trace expired. */
  lemma ExpiredIdsStep(ids: seq<string>, m: map<string, Trace>, cutoff: int, i: nat)
    requires forall id :: id in ids ==> id in m
    requires i < |ids|
    ensures ExpiredIds(ids[..i + 1], m, cutoff)
            == ExpiredIds(ids[..i], m, cutoff) + (if Expired(m[ids[i]], cutoff) then [ids[i]] else [])
  {
    assert ids[..i + 1][..i] == ids[..i];
  }

  /** The traces the sweep keeps: those not expired at `cutoff`. */
  function Unexpired(m: map<string, Trace>, cutoff: int): map<string, Trace>
  {
    map id | id in m && !Expired(m[id], cutoff) :: m[id]
  }

  /** The ids of `order` that are still keys of `keys`, in order. */
  function KeepIn(order: seq<string>, keys: set<string>): (r: seq<string>)
    ensures |r| <= |order|
  {
    if order == [] then []
    else KeepIn(order[..|order| - 1], keys) + (if order[|order| - 1] in keys then [order[|order| - 1]] else [])
  }

  /** `KeepIn` keeps exactly the ids of `order` in `keys`, and no id twice when `order` has none twice. */
  lemma {:induction false} KeepInMembers(order: seq<string>, keys: set<string>)
    ensures forall id :: id in KeepIn(order, keys) <==> id in order && id in keys
    ensures Distinct(order) ==> Distinct(KeepIn(order, keys))
  {
    if order != [] {
      var n := |order| - 1;
      KeepInMembers(order[..n], keys);
      assert forall id :: id in order <==> id in order[..n] || id == order[n];
      if Distinct(order) {
        assert Distinct(order[..n]);
        assert order[n] !in order[..n];
        if order[n] in keys {
          DistinctAppend(KeepIn(order[..n], keys), order[n]);
        }
      }
    }
  }

  /** The sweep's trace count is the drop in the number of keys. */
  lemma {:induction false} ExpiredAndKeptSplit(order: seq<string>, m: map<string, Trace>, cutoff: int, keys: set<string>)
    requires forall id :: id in order ==> id in m
    requires forall id :: id in order ==> (id in keys <==> !Expired(m[id], cutoff))
    ensures |ExpiredIds(order, m, cutoff)| + |KeepIn(order, keys)| == |order|
  {
    if order != [] {
      ExpiredAndKeptSplit(order[..|order| - 1], m, cutoff, keys);
    }
  }

  /** Dropping traces from a valid table, and their ids from its order, leaves a valid table. */
  lemma KeepInKeepsValid(t: TraceTable, cap: nat, kept: map<string, Trace>)
    requires TableValid(t, cap)
    requires forall id :: id in kept ==> id in t.entries && kept[id] == t.entries[id]
    ensures TableValid(TraceTable(KeepIn(t.order, kept.Keys), kept), cap)
  {
    KeepInMembers(t.order, kept.Keys);
  }
}
