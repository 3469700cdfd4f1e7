# Telemetry store — a verified Dafny model

This project models the ingestion core of an observability service. The
service accepts logs, metric data points and distributed traces, validates
them, and keeps them in a bounded in-memory store. The store answers
time-window and service-scoped queries and sweeps out old data on request.

The Dafny modules follow the program's structure:

- `Wrappers` holds `Option` and `Result`.
- `Telemetry` holds the records: log entries, metric points, spans and
  traces. A trace derives three fields from its spans: the root service,
  the total duration and whether any span failed.
- `TimeUtil` holds the time helpers: inclusive windows, the window around
  an incident, timestamp bucketing, interval alignment and sliding windows.
- `Validators` holds the single-record validators (pure functions). It also
  holds the trace validator and the three batch validators, which are
  methods with loops. Each of those methods is proved against a
  specification function.
- `Sorting` defines a stable insertion sort by an integer key. It stands in
  for Python's `sorted(..., key=...)`, which the queries use to order
  results by timestamp.
- `StoreSpec` and `ServiceLists` are the value-level specification of the
  store:
  - a per-service list with a cap, which evicts the oldest entry when full;
  - a *family*: per-service lists, the services in first-seen order, and a
    by-id index;
  - the trace table: ids in insertion order plus a map, capped in total,
    which evicts the first-inserted id;
  - the query filters and the retention sweep.
- `StoreOps` holds the value-level methods that the store's methods call:
  the loops of the queries and the sweep, and the insertions.
- `Store.TelemetryStore` is the store itself: a class whose fields are the
  source's dictionaries, lists, indices, service registry and counters.
  `Valid()` is its invariant, and it says:
  - each cap is at least one;
  - every per-service list is within its cap and has its service registered;
  - every stored entry is in the by-id index under its own id;
  - the trace map's keys are exactly the insertion-ordered id list, which
    is within the trace cap;
  - every span service of a stored trace is registered.

Timestamps are integer seconds. The current time is a parameter wherever
the source reads the clock. Record identifiers, which the source draws from
`uuid4`, are also parameters; the store requires them to be fresh.

## Model

| member | source | states |
|---|---|---|
| Telemetry.FirstRootService | app/core/models.py:100-104 | the result is None exactly when no span lacks a parent; otherwise it is the service of the first parentless span |
| Telemetry.RootSpans | app/core/models.py:112 | the root spans are exactly the parentless spans, and there are no more of them than spans |
| Telemetry.NewTrace | app/core/models.py:97-114 | building a trace keeps its id and span list unchanged |
| Telemetry.NewTraceEmpty | app/core/models.py:93-99 | a trace without spans keeps the defaults: no root service, duration 0, no error |
| Telemetry.AnyErrorExists | app/core/models.py:107-109 | the error scan `AnyError` is true iff some span has status ERROR |
| Telemetry.HasErrorIffSomeSpanFailed | app/core/models.py:106-109 | a trace is marked failed iff at least one of its spans has status ERROR |
| Telemetry.RootSpansHead | app/core/models.py:111-114 | the first root span is the first parentless span in span order |
| Telemetry.NoRootNoRootSpans | app/core/models.py:111-114 | with no parentless span the list of root spans is empty |
| Telemetry.RootFieldsAgree | app/core/models.py:99-114 | root service and total duration come from the same span, the first parentless one; with no such span, neither is set |
| TimeUtil.FloorDiv | app/utils/time.py:86 | the quotient rounds toward minus infinity (Python's `//`), for either sign of divisor |
| TimeUtil.WindowIsInclusive | app/utils/time.py:100-106 | for `IsWithinWindow`, both window ends are inside the window, and one second beyond either end is outside |
| TimeUtil.TimeWindow | app/utils/time.py:49-65 | the window starts `before` seconds ahead of the centre and spans before+after seconds, so it ends `after` seconds past it; it contains the centre iff both offsets are non-negative |
| TimeUtil.GroupedStep | app/utils/time.py:85-89 | filing the next index under its bucket key keeps the buckets a faithful, ordered grouping of the indices seen so far |
| TimeUtil.BucketTimestamps | app/utils/time.py:68-91 | every index sits in its own timestamp's bucket; every bucket holds only indices with that key, in increasing order; no bucket is empty |
| TimeUtil.BucketStartBounds | app/utils/time.py:94-97 | for `BucketKeyToTimestamp`, a bucket's start time is at most the timestamp, and the next bucket starts after it |
| TimeUtil.AlignToInterval | app/utils/time.py:119-143 | the result is a multiple of the interval; flooring lands in the interval containing the timestamp, and ceiling lands in the one just after it |
| TimeUtil.CeilOfAlignedMovesUp | app/utils/time.py:138-141 | ceiling an already-aligned timestamp moves it up a whole interval |
| TimeUtil.SlidingWindows | app/utils/time.py:146-171 | window k starts at start+k*step and lasts the window size; every window ends by `end`; the next one would not; the list is empty iff the first window does not fit |
| Validators.ValidateTimestamp | app/ingestion/validators.py:42-57 | a timestamp is accepted iff it lies within seven days before now and five minutes after; each rejection names the side it fails on |
| Validators.ValidateServiceNameAsWritten | app/ingestion/validators.py:60-73 | the source's check as written: length 1..128 and the regex match, which lets one final newline through |
| Validators.AsWrittenAcceptsTrailingNewline | app/ingestion/validators.py:70 | the as-written check accepts "svc\n", and the corrected check rejects it |
| Validators.AsWrittenAgreesWithoutTrailingNewline | app/ingestion/validators.py:60-73 | on names that do not end in a newline, the two checks agree |
| Validators.ValidateServiceName | app/ingestion/validators.py:60-73 | a name is accepted iff it has 1..128 characters, all letters, digits, `_` or `-`; each error (empty, too long, bad characters) arises in exactly its case |
| Validators.ValidateLogEntry | app/ingestion/validators.py:76-111 | the entry is built iff timestamp, service name and message length (1..65536) are all valid, and it carries the input's fields; a timestamp error comes first, then a service-name error, then an empty message is reported as empty and one over 65536 characters as too long |
| Validators.ValidateMetricDataPoint | app/ingestion/validators.py:128-167 | the point is built iff timestamp, service name and metric name length (1..256) are all valid, and it carries the input's fields; a timestamp error comes first, then a service-name error, then an empty metric name is reported as empty and one over 256 characters as too long |
| Validators.ValidateSpan | app/ingestion/validators.py:184-228 | the span is accepted iff both timestamps, the end-not-before-start order, the service name and non-empty trace and span ids are valid; the checks report in source order: a bad start time, then a bad end time, then an end before the start, then the service-name error, then an empty trace id, then an empty span id |
| Validators.ComposedChecksRejectTrailingNewline | app/ingestion/validators.py:89 | the log, metric and span validators reject the service name "svc\n" with the bad-characters error |
| Validators.FirstInvalidSpan | app/ingestion/validators.py:241-245 | the result is None iff every span validates; otherwise it is the first span that fails |
| Validators.FirstMismatchedSpan | app/ingestion/validators.py:247-250 | the result is None iff every span carries the trace id; otherwise it is the first span that does not |
| Validators.TraceVerdictAccepts | app/ingestion/validators.py:231-260 | for `TraceVerdict`, a trace is accepted iff its id and span list are non-empty, every span validates and every span carries the trace id; the accepted trace is built from the input spans |
| Validators.TraceVerdictFirstSpanError | app/ingestion/validators.py:239-245 | a span error names a span that fails and after which every earlier span is valid |
| Validators.TraceVerdictMismatch | app/ingestion/validators.py:247-250 | a mismatch error comes only when all spans are valid, and it names the first span with a foreign trace id |
| Validators.ValidateTrace | app/ingestion/validators.py:231-260 | the validating loops compute exactly the trace verdict |
| Validators.OksAppend | app/ingestion/validators.py:123 | appending an outcome appends its item to the valid items exactly when it succeeded |
| Validators.PartitionCounts | app/ingestion/validators.py:29-39 | successes plus errors equal the batch size, and the valid items are the successful outcomes in order |
| Validators.PartitionErrorsFaithful | app/ingestion/validators.py:118-123 | each error carries the batch label and the index of a failed item with that item's own error, and errors come in index order |
| Validators.PartitionErrorsCover | app/ingestion/validators.py:118-123 | every failed item has an error entry |
| Validators.PartitionIsExact | app/ingestion/validators.py:114-125 | for `Partition`, a batch result is an exact split of the outcomes: counts, valid items, and a sound and complete list of errors in order |
| Validators.ValidateLogBatch | app/ingestion/validators.py:114-125 | the loop yields the partition of the per-entry outcomes; the counts add up to the batch size; each error is that entry's own error |
| Validators.ValidateMetricBatch | app/ingestion/validators.py:170-181 | the same for metric batches |
| Validators.ValidateTraceBatch | app/ingestion/validators.py:263-274 | the same for trace batches, with each error the verdict of that trace |
| Sorting.InsertBy | app/ingestion/repository.py:112 | inserting adds exactly the one element (multiset) |
| Sorting.InsertBySorted | app/ingestion/repository.py:112 | inserting into a sorted list keeps it sorted |
| Sorting.SortBy | app/ingestion/repository.py:112 | the result is sorted by the key and is a permutation of the input |
| Sorting.WithKeyAppend | app/ingestion/repository.py:112 | the elements with a given key in a concatenation are those of each part, in turn |
| Sorting.WithKeyAbove | app/ingestion/repository.py:112 | a sorted list whose smallest key exceeds k has no element with key k |
| Sorting.InsertByWithKey | app/ingestion/repository.py:112 | insertion places the element after every element with an equal key |
| Sorting.SortByIsStable | app/ingestion/repository.py:112 | the sort is stable: elements with equal keys keep their input order |
| Sorting.SortByMembers | app/ingestion/repository.py:176 | the sorted list has the input's length and members |
| StoreSpec.DistinctCardinality | app/ingestion/repository.py:283-286 | a list without duplicates has as many members as entries |
| StoreSpec.CapAppend | app/ingestion/repository.py:63-71 | the new entry ends the list; at most the oldest entry (index 0) is evicted, and only when the list was full; the cap is kept |
| StoreSpec.CapAppendAllKeepsLatest | app/ingestion/repository.py:75-77 | appending a batch under the cap keeps exactly the latest `cap` entries of old list plus batch |
| StoreSpec.CapAppendAllFromEmpty | app/ingestion/repository.py:75-77 | from an empty list, a batch leaves its last min(cap, batch size) entries |
| StoreSpec.InsertTraceSpec | app/ingestion/repository.py:212-226 | for `InsertTrace`, storing a trace keeps the table valid; an existing id keeps its place; a new id is appended; with the table full, the first-inserted trace is dropped and nothing else changes |
| StoreSpec.TableCount | app/ingestion/repository.py:341 | the number of stored traces equals the id list's length and is within the cap |
| StoreSpec.InsertTracesKeepsValid | app/ingestion/repository.py:230-232 | for `InsertTraces`, a batch of traces keeps the table valid, and the last trace of the batch is stored |
| StoreSpec.KeysMatchOrder | app/ingestion/repository.py:223 | a map whose keys are exactly a duplicate-free id list has that list's length |
| StoreSpec.SelectLogsMembers | app/ingestion/repository.py:105-110 | the log entries `SelectLogs` keeps are those of the list inside the window and, if levels are given, of a listed level |
| StoreSpec.ScanLogsMembers | app/ingestion/repository.py:100-110 | the entries `ScanLogs` collects are exactly the selected entries of the target services' lists |
| StoreSpec.SelectLogsStep | app/ingestion/repository.py:105-110 | one more entry extends the selection by that entry exactly when it is selected |
| StoreSpec.ScanLogsStep | app/ingestion/repository.py:102-110 | one more service extends the scan by that service's selected entries |
| StoreSpec.SelectMetricsMembers | app/ingestion/repository.py:198-204 | the points `SelectMetrics` keeps are those inside the window and, if names are given, of a listed metric |
| StoreSpec.ScanMetricsMembers | app/ingestion/repository.py:194-204 | the points `ScanMetrics` collects are exactly the selected points of the target services' lists |
| StoreSpec.SelectMetricsStep | app/ingestion/repository.py:198-204 | one more point extends the selection by that point exactly when it is selected |
| StoreSpec.ScanMetricsStep | app/ingestion/repository.py:196-204 | one more service extends the scan by that service's selected points |
| StoreSpec.SelectSeries | app/ingestion/repository.py:168-175 | the series holds exactly the service's points of that metric inside the window |
| StoreSpec.ServiceTraces | app/ingestion/repository.py:247-254 | the traces kept are exactly those with a span of the service starting inside the window |
| StoreSpec.ErrorTraces | app/ingestion/repository.py:264-277 | the traces kept are exactly the failed ones with a span, of a given service if any are given, starting inside the window |
| StoreSpec.TracesAt | app/ingestion/repository.py:248 | the traces are listed in id order, one per id |
| StoreSpec.TracesAtMembers | app/ingestion/repository.py:248 | a trace is listed iff some stored id maps to it |
| StoreSpec.Newer | app/ingestion/repository.py:301-303 | filtering never lengthens a list |
| StoreSpec.NewerMembers | app/ingestion/repository.py:301-303 | the kept entries are exactly those strictly after the cutoff |
| StoreSpec.Sweep | app/ingestion/repository.py:299-312 | the sweep keeps every service key |
| StoreSpec.SweepMembers | app/ingestion/repository.py:299-312 | after the sweep a service's list holds exactly its entries strictly after the cutoff |
| StoreSpec.SweepKeysLists | app/ingestion/repository.py:299-304 | sweeping some services filters exactly those lists and leaves the other lists alone |
| StoreSpec.SweepKeysAll | app/ingestion/repository.py:299 | sweeping every known service is the whole sweep |
| StoreSpec.SweepKeysStep | app/ingestion/repository.py:299-304 | one more service filters that list and adds its drop to the removed count |
| StoreSpec.TotalLengthCovers | app/ingestion/repository.py:339-340 | the stored total is at least the length of any listed service's list |
| StoreSpec.TotalLengthZero | app/ingestion/repository.py:339-340 | the stored total is zero iff every listed service's list is empty |
| StoreSpec.TotalLengthBound | app/ingestion/repository.py:339-340 | the stored total is at most services times the per-service cap |
| StoreSpec.RemovedCountIsDrop | app/ingestion/repository.py:300-304 | the reported removed count is the old total minus the new total |
| StoreSpec.MaxEndTime | app/ingestion/repository.py:318 | the latest end time bounds every span's end time and is attained by one |
| StoreSpec.ExpiredMeansAllEnded | app/ingestion/repository.py:317-319 | a trace is expired iff it has spans and every span ended strictly before the cutoff |
| StoreSpec.ExpiredIds | app/ingestion/repository.py:315-320 | the ids collected are exactly the stored ids whose trace is expired |
| StoreSpec.ExpiredIdsStep | app/ingestion/repository.py:316-320 | one more id extends the collection by that id exactly when it is expired |
| StoreSpec.KeepIn | app/ingestion/repository.py:322-323 | filtering the id list never lengthens it |
| StoreSpec.KeepInMembers | app/ingestion/repository.py:322-323 | the kept ids are exactly the ids still stored, with no duplicates |
| StoreSpec.ExpiredAndKeptSplit | app/ingestion/repository.py:322-324 | expired and kept ids together account for every id once |
| StoreSpec.KeepInKeepsValid | app/ingestion/repository.py:322-323 | dropping traces keeps the table valid |
| ServiceLists.IdListMembers | app/ingestion/repository.py:77 | the id list has one id per record, in input order |
| ServiceLists.IdentsMembers | app/ingestion/repository.py:77 | an id is among a batch's ids iff some record carries it |
| ServiceLists.DistinctCapAppend | app/ingestion/repository.py:63-71 | a capped append of a new entry keeps the list free of duplicates |
| ServiceLists.CapAppendMember | app/ingestion/repository.py:69-71 | after a capped append every entry is the new one or an old one; on eviction it is not the old head |
| ServiceLists.AppendKeepsOrder | app/ingestion/repository.py:63 | the first-seen service order stays duplicate-free and covers exactly the services with lists |
| ServiceLists.AppendKeepsBounds | app/ingestion/repository.py:69-71 | appending keeps every list within the cap and free of duplicates |
| ServiceLists.SameListStaysIndexed | app/ingestion/repository.py:63-71 | every entry of the appended list is still indexed under its own id |
| ServiceLists.OtherListStaysIndexed | app/ingestion/repository.py:63-71 | entries of other services remain indexed |
| ServiceLists.AppendKeepsIndexed | app/ingestion/repository.py:63-71 | after an append every stored entry is indexed under its id, and the index's entries carry their keys |
| ServiceLists.AppendKeepsValid | app/ingestion/repository.py:60-73 | an append keeps the family valid and indexes the new entry |
| ServiceLists.AppendEffect | app/ingestion/repository.py:63-71 | for `Append`, the new entry ends its service's list and is indexed under its id; only that list changes; the list grows iff it was below the cap; the index gains only the new id; on an eviction the evicted entry's id leaves the index; every other index entry stays as it was |
| ServiceLists.CapAppendKeeps | app/ingestion/repository.py:69-71 | an old entry survives a capped append unless it is the evicted head |
| ServiceLists.AppendKeepsStored | app/ingestion/repository.py:63-71 | when the index holds only stored entries, it still does after an append: the evicted entry's id goes with it |
| ServiceLists.AppendAllKeys | app/ingestion/repository.py:75-77 | a batch adds exactly its owners' lists and at most its own ids to the index |
| ServiceLists.AppendAllStep | app/ingestion/repository.py:75-77 | a batch of fresh, distinct ids is appended one entry after another, and each next id is still unindexed |
| ServiceLists.AppendAllKeepsValid | app/ingestion/repository.py:75-77 | a batch of fresh, distinct ids keeps the family valid |
| ServiceLists.AppendAllLists | app/ingestion/repository.py:75-77 | each service's list receives exactly that service's batch entries, capped in turn |
| ServiceLists.AppendAllKeepsLatest | app/ingestion/repository.py:75-77 | for `AppendAll`, each service keeps exactly the latest `cap` of its old entries plus its batch entries |
| ServiceLists.NewerDistinct | app/ingestion/repository.py:301-303 | filtering keeps a list duplicate-free |
| ServiceLists.SweepKeepsValid | app/ingestion/repository.py:299-312 | the sweep, with the swept entries taken out of the by-id index, keeps the family valid; the order is unchanged |
| ServiceLists.SweepKeepsStored | app/ingestion/repository.py:299-312 | when the index holds only stored entries, it still does after the sweep with its index pruning |
| ServiceLists.SweepDropsSweptIds | app/ingestion/repository.py:299-312 | after the sweep with its index pruning, an entry at or before the cutoff is no longer found by id, and a later one still is, as itself |
| StoreOps.SweepLists | app/ingestion/repository.py:299-312 | the loop over the services computes the sweep and the number of entries removed |
| StoreOps.FindExpired | app/ingestion/repository.py:315-320 | the loop collects exactly the expired trace ids, in insertion order |
| StoreOps.SweepFamily | app/ingestion/repository.py:299-312 | the family's sweep keeps it valid and reports the swept lists, the by-id index without the swept entries, and the removed count |
| StoreOps.DropExpired | app/ingestion/repository.py:315-324 | the traces left are exactly the unexpired ones; order and registry stay consistent; the count is the number dropped |
| StoreOps.DroppedAreUnexpired | app/ingestion/repository.py:322-323 | deleting the expired ids leaves exactly the unexpired traces |
| StoreOps.KeptStayRegistered | app/ingestion/repository.py:322-323 | after dropping traces, the table stays valid and its span services stay registered |
| StoreOps.DropTraces | app/ingestion/repository.py:322-323 | the deletion loop removes exactly the listed ids, keeps the other traces unchanged and filters the id order to match |
| StoreOps.AppendEntry | app/ingestion/repository.py:63-71 | the append-index-evict steps compute the family append, keep the family valid and index the new entry |
| StoreOps.InsertEntry | app/ingestion/repository.py:215-226 | storing and evicting compute the table insertion, keep it valid, store the trace, and change no other stored trace |
| StoreOps.RegisteredGrows | app/ingestion/repository.py:218-219 | registering more services keeps every trace's services registered |
| StoreOps.AddLogEntry | app/ingestion/repository.py:60-73 | adding a log keeps the whole store valid, computes the family append and registers the service |
| StoreOps.AddMetricEntry | app/ingestion/repository.py:128-141 | adding a metric keeps the whole store valid, computes the family append and registers the service |
| StoreOps.AddTraceEntry | app/ingestion/repository.py:212-228 | adding a trace keeps the whole store valid, computes the table insertion and registers the span services |
| StoreOps.ScanServiceSpans | app/ingestion/repository.py:249-253 | the span scan finds a span of the service starting inside the window iff one exists |
| StoreOps.ScanErrorSpans | app/ingestion/repository.py:270-275 | the span scan succeeds iff some span, of a given service if any are given, starts inside the window |
| StoreOps.CollectServiceTraces | app/ingestion/repository.py:247-254 | the loop computes the service's traces, in order |
| StoreOps.CollectErrorTraces | app/ingestion/repository.py:265-277 | the loop computes the failed traces in the window, in order |
| StoreOps.LogLookup | app/ingestion/repository.py:79-82 | any stored log entry is what the index holds under its id |
| StoreOps.MetricLookup | app/ingestion/repository.py:147-150 | any stored metric point is what the index holds under its id |
| StoreOps.EmptyStoreValid | app/ingestion/repository.py:344-352 | the empty store satisfies the invariant |
| StoreOps.CleanedKeepsValid | app/ingestion/repository.py:292-324 | the retention sweep keeps the whole store valid |
| StoreOps.CleanedLists | app/ingestion/repository.py:299-312 | after the sweep, each service's logs and metrics are exactly those strictly after the cutoff; each removed count is the drop in the stored total |
| StoreOps.CleanedTraces | app/ingestion/repository.py:315-324 | after the sweep the traces are exactly the unexpired ones, unchanged; the removed count is the number of expired ids |
| StoreOps.CleanedAsWritten | app/ingestion/repository.py:297-312 | the sweep as the source writes it: lists, order, traces and counts as in the corrected sweep, but both by-id indices left as they were |
| StoreOps.AsWrittenSweepLeavesStaleEntry | app/ingestion/repository.py:299-312 | with one log entry at time 0 and cutoff 10, the as-written sweep empties the list but keeps the entry's id in the index, so the index holds an entry no list has; the corrected sweep drops the id |
| StoreOps.CleanStore | app/ingestion/repository.py:297-324 | the three sweeps together compute the retention sweep (the by-id indices losing the swept entries), keep the service order and keep the store valid |
| StoreOps.LogWindowAnswer | app/ingestion/repository.py:84-112 | sorting the scan gives a list sorted by timestamp, with the scan's entries, stable for equal timestamps, holding exactly the target services' entries in the window of a given level |
| StoreOps.MetricWindowAnswer | app/ingestion/repository.py:186-206 | sorting the scan gives a list sorted by timestamp, with the scan's points, stable for equal timestamps, holding exactly the target services' points in the window of a given name |
| Store.TelemetryStore.constructor | app/ingestion/repository.py:24-54 | a setting of 0 falls back to its default; everything starts empty, counters at zero |
| Store.TelemetryStore.AddLog | app/ingestion/repository.py:60-73 | the log is appended to its service's list (evicting at most the oldest, when full) and indexed; its service is registered; the counter is incremented; nothing else changes |
| Store.TelemetryStore.AddLogsBatch | app/ingestion/repository.py:75-77 | the batch is added in order; ids come back in input order; the counter grows by the batch size |
| Store.TelemetryStore.GetLogById | app/ingestion/repository.py:79-82 | a hit carries the requested id, and any stored entry with that id is the hit |
| Store.TelemetryStore.GetLogsInWindow | app/ingestion/repository.py:84-112 | the result is exactly the entries of the target services in the window (of the given levels), sorted stably by timestamp |
| Store.TelemetryStore.GetErrorLogsInWindow | app/ingestion/repository.py:114-122 | the result is exactly the ERROR, FATAL and CRITICAL entries of the target services in the window, sorted by timestamp |
| Store.TelemetryStore.AddMetric | app/ingestion/repository.py:128-141 | the point is appended to its service's list (evicting at most the oldest, when full) and indexed; its service is registered; the counter is incremented; nothing else changes |
| Store.TelemetryStore.AddMetricsBatch | app/ingestion/repository.py:143-145 | the batch is added in order; ids come back in input order; the counter grows by the batch size |
| Store.TelemetryStore.GetMetricById | app/ingestion/repository.py:147-150 | a hit carries the requested id, and any stored point with that id is the hit |
| Store.TelemetryStore.GetMetricSeries | app/ingestion/repository.py:152-176 | the result is exactly the service's points of that metric in the window, sorted stably by timestamp |
| Store.TelemetryStore.GetMetricNamesForService | app/ingestion/repository.py:178-184 | the names are exactly the metric names among the service's stored points |
| Store.TelemetryStore.GetMetricsInWindow | app/ingestion/repository.py:186-206 | the result is exactly the points of the target services in the window (of the given names), sorted stably by timestamp |
| Store.TelemetryStore.AddTrace | app/ingestion/repository.py:212-228 | the trace is stored under its id (a known id keeps its place); when the table is over the cap, the first-inserted trace is evicted; its span services are registered; the counter is incremented |
| Store.TelemetryStore.AddTracesBatch | app/ingestion/repository.py:230-232 | the traces are added in order; ids come back in input order |
| Store.TelemetryStore.GetTraceById | app/ingestion/repository.py:234-237 | a trace is found iff its id is stored, and the hit is the trace stored under that id, carrying that id |
| Store.TelemetryStore.GetTracesForService | app/ingestion/repository.py:239-254 | the result is exactly the stored traces with a span of the service starting in the window, in insertion order |
| Store.TelemetryStore.GetErrorTracesInWindow | app/ingestion/repository.py:256-277 | the result is exactly the stored failed traces with a span of the given services (any, if none given) starting in the window, in insertion order |
| Store.TelemetryStore.GetServices | app/ingestion/repository.py:283-286 | every registered service once; it covers every service with stored logs, metrics or trace spans |
| Store.TelemetryStore.CleanupOldData | app/ingestion/repository.py:292-331 | the store becomes its retention sweep at now minus the retention period: lists filtered, swept entries gone from the by-id indices, expired traces dropped, with removed counts per family; registry and counters are unchanged; the invariant survives |
| Store.TelemetryStore.StatsBounded | app/ingestion/repository.py:333-342 | the stored totals in the statistics respect the caps: per service for logs and metrics, in total for traces |
| Store.TelemetryStore.StatsCounts | app/ingestion/repository.py:333-342 | for `GetStats`, the service count is the registry's size and the stored trace count the id list's length; every log or metric list is within its family's stored total, and a total is zero iff every list of its family is empty |
| Store.TelemetryStore.Clear | app/ingestion/repository.py:344-353 | every collection, index and the registry become empty; the counters survive |

## Left out

- The store's reentrant lock and all concurrency. Each method is one
  atomic step, as the lock makes it. The module-level singleton accessor
  (`get_telemetry_store`) is not modelled.
- Logging calls.
- Reading configuration from the environment. The four settings are
  constructor parameters; 0 falls back to the defaults of 24 hours,
  100000, 100000 and 50000, as `value or default` does.
- Store.TelemetryStore.constructor: the settings are `nat`, so a negative
  setting is not modelled. The source's `value or default` passes one
  through (`max_logs_per_service=-1`, say), and the caps would then never
  hold.
- Clock reads (`datetime.utcnow`): the current time is a parameter.
  Datetimes are integer seconds and `timedelta`s are integer seconds.
  `to_utc`, `parse_timestamp`, `format_timestamp`, `time_diff_seconds`,
  `time_diff_ms` and `temporal_precedence_score` handle formats, time
  zones or floating point, and are not modelled.
- Floating point: a metric value and a span duration are integers carried
  opaquely. Because of that, the NaN/infinity check of the metric validator
  is not modelled.
- Attribute, label and event maps, and the analysis placeholder fields of
  the records. No modelled operation reads them.
- `uuid4` identifiers: ids are parameters of the validators. `AddLog`,
  `AddMetric` and their batch forms require ids that are fresh and, within
  a batch, distinct, which `uuid4` makes true in practice.
- The `try/except` around record construction in the validators: building
  a record from valid input cannot fail in the model.
- Error messages are a datatype, not formatted strings. A batch error
  carries its label ("Log", "Metric", "Trace"), the item index and the
  cause.
- Store.TelemetryStore.GetServices and
  Store.TelemetryStore.GetMetricNamesForService: the order of the returned
  names is not stated, because the source iterates a Python set, whose
  order is unspecified.
- Store.TelemetryStore.CleanupOldData: the model takes the swept entries
  out of the by-id indices, which the source does not (see Findings).
- Store.TelemetryStore.GetLogById and Store.TelemetryStore.GetMetricById:
  `Valid()` does not carry the invariant that the by-id index holds only
  stored entries. That invariant is proved on values instead
  (ServiceLists.AppendKeepsStored, ServiceLists.SweepKeepsStored), so the
  lookups promise agreement with stored entries, not absence of removed
  ones.
- Validators.ValidateLogEntry, Validators.ValidateMetricDataPoint and
  Validators.ValidateSpan use the corrected service-name check (see
  Findings), and so do FirstInvalidSpan, TraceVerdict, ValidateTrace and
  the three batch validators through them. A name such as "svc\n" is
  rejected there, where the source accepts it.
- TimeUtil.BucketTimestamps and TimeUtil.AlignToInterval with a zero bucket
  size or interval raise `ZeroDivisionError` in the source. The model
  requires a non-zero size.
- TimeUtil.SlidingWindows with a non-positive step loops forever in the
  source whenever the first window fits. The model requires a positive
  step or a first window that does not fit.
- Fractional-second bucket sizes and intervals: they are integer seconds.
- Store.TelemetryStore: the query loops and the sweep are written as
  value-level methods in `StoreOps`, which the class methods call on their
  fields. The collections are immutable Dafny values reassigned by the
  class, so aliasing of the source's Python lists is not modelled.

## Findings

| source | as written | input that shows it | evidently intended | confidence | as-written member | corrected member |
|---|---|---|---|---|---|---|
| app/ingestion/validators.py:70 | `re.match` with pattern `^[a-zA-Z0-9_-]+$`; without MULTILINE, `$` also matches just before a final newline, so a name ending in one newline passes | "svc\n" | reject any character outside letters, digits, `_` and `-` (for example with `fullmatch` or `\Z`) | high, not executed | Validators.ValidateServiceNameAsWritten, Validators.AsWrittenAcceptsTrailingNewline | Validators.ValidateServiceName |
| app/ingestion/repository.py:299-312 | the sweep filters the per-service lists but never deletes from `_logs_by_id` or `_metrics_by_id`, so a swept entry is still found by id | a log entry "a" at time 0 in service "svc", swept with cutoff 10 | the swept ids leave the index, as an evicted entry's id does at lines 69-71 | high, not executed | StoreOps.CleanedAsWritten, StoreOps.AsWrittenSweepLeavesStaleEntry | StoreOps.Cleaned, ServiceLists.SweepDropsSweptIds |
