# Elasticsearch reindex exporter: a Dafny model of its scrape

The exporter is a Prometheus collector for Elasticsearch reindex tasks. Each scrape
makes one call to the cluster's task API, `GET <base>/_tasks?pretty&detailed=true&actions=*reindex`.
It flattens the `nodes -> tasks` maps of the response into one list of tasks. For each
task it takes the source index name from the description, using the regular expression
`reindex from \[(.*)\] to .*`, and writes five gauges labelled with that index:
`total`, `updated`, `created`, `deleted` and `running_seconds`. After the tasks come one
`up` gauge and, from a deferred call, one `scrape_duration_seconds` gauge.

The model has four modules:

- `Wrappers` (`wrappers.dfy`): `Option` and `Result`.
- `IndexName` (`index_name.dfy`): the index-name extractor, with RE2's matching rules
  written out. The match is unanchored and starts at the leftmost position that admits
  one. `.` does not match a newline. The capture group is greedy.
- `Client` (`client.dfy`): the task and response records, and the four error paths of
  `Tasks` in the source's order (transport, status, body read, decoding). It also models
  the flattening of the node and task maps. Go visits map entries in an unspecified
  order, so the method picks keys with `:|` and states its result as a multiset.
- `Collector` (`collector.dfy`): one scrape as the sequence of samples written to the
  channel. The sample layout is proved once, generically over the extractor function.
  `Collect` and the lemmas about it then instantiate it with `ExtractIndex`.

The source's `float64` counters are `real`; its `int64` fields use the `Int64` newtype.
The scrape duration comes from the wall clock, so it is a parameter (`elapsed`).

The capture group is greedy: it runs to the last `] to ` on the same line, not to the
first `]`, so `reindex from [a] to [b] to c` yields `a] to [b` (`IndexName.GreedyExample`).

Go hands out map entries in an unspecified order, so the task list's order is not fixed
by the cluster's answer. When every task matches, the order changes only the arrangement
of the samples (`Collector.SameAnswerSameSamples`). When some task does not match, the
order decides which groups are written before `up = 0`: the same answer can give a
different number of samples on different scrapes (`Collector.OrderMattersOnMismatch`).

## Model

| member | source | states |
|---|---|---|
| IndexName.ExtractIndex | collector/collector.go:112-118 | the submatch `FindStringSubmatch(description)[1]`, or `None` for nil; its own contract says a found name fits inside the description with room for `reindex from [`; what it returns is stated by `ExtractIndexNoneIffNoMatch`, `ExtractIndexFound`, `ExtractIndexIsLeftmostGreedy` and `ExtractIndexHasLeftmostGreedyMatch` |
| IndexName.ExtractIndexNoneIffNoMatch | collector/collector.go:112-113 | no name exactly when the pattern matches nowhere in the description, which is when the loop stops with `up = 0` |
| IndexName.ExtractIndexFound | collector/collector.go:112-118 | a found name is newline-free, and `reindex from [` + name + `] to ` occurs in the description |
| IndexName.LastSepFromIsGreedyEnd | collector/collector.go:130 | the greedy `(.*)` starting at a position ends at the last `] to ` reachable without crossing a newline, or no end is reachable |
| IndexName.FindMatchFromIsLeftmost | collector/collector.go:130 | the unanchored search finds the leftmost start that admits a match, with the greatest group end for that start, or no start at or after the given one matches |
| IndexName.ExtractIndexIsLeftmostGreedy | collector/collector.go:112-118 | whenever (i, j) is the leftmost-then-greedy match, the extracted name is the text between the literals of that match |
| IndexName.ExtractIndexHasLeftmostGreedyMatch | collector/collector.go:112-118 | conversely, every extracted name is the group of a leftmost-then-greedy match |
| IndexName.ExtractFromLayout | collector/collector.go:130 | `reindex from [x] to ` followed by text with no `]` (and a short tail) yields exactly `x` when `x` is on one line |
| IndexName.NoBracketNoIndex | collector/collector.go:112-113 | a description without `[` never matches, so the scrape takes the failure branch |
| IndexName.NewlineStopsGroup | collector/collector.go:130 | `.` does not cross a newline: a `] to ` on the next line is out of reach of the group |
| IndexName.ExampleIndexIsPlain | collector/collector.go:129 | the documented index name holds no newline and no `]` |
| IndexName.DocumentedExample | collector/collector.go:129-130 | the documented description yields `staging-index-6d064080943311e9b3cc42010a840084`, the source index and not the destination |
| IndexName.IdxAExample | collector/collector.go:112-118 | `reindex from [idx-a] to [idx-a-new]` yields `idx-a` |
| IndexName.GreedyExample | collector/collector.go:130 | with two `] to ` on one line the group runs to the second |
| IndexName.NewlineExample | collector/collector.go:130 | `reindex from [a` newline `] to b` yields no name |
| IndexName.UnexpectedExample | collector/collector.go:112-113 | a description that does not follow the pattern yields no name |
| Client.Classify | client/client.go:33-47 | success exactly when the GET, the 200 status, the body read and the decoding all succeed; a transport failure is `GetFailed`; read and decode errors arise only after a 200 |
| Client.StatusCheckedBeforeBody | client/client.go:37-39 | any status other than 200 is `BadStatus` whatever the body holds |
| Client.ValuesRemove | client/client.go:49-51 | the multiset of a task map's values may be taken apart at any key, so visiting order does not matter |
| Client.FlattenRemove | client/client.go:48-52 | the flattened multiset may be taken apart at any node, so node order does not matter |
| Client.ValuesSize | client/client.go:49-51 | a task map contributes one task per key |
| Client.FlattenSize | client/client.go:48-52 | the flattened multiset has as many tasks as the task maps together |
| Client.ValuesMembers | client/client.go:49-51 | a task is among a map's values exactly when some id maps to it |
| Client.FlattenMembers | client/client.go:48-52 | a task is in the flattened multiset exactly when some node's map holds it: nothing added, nothing dropped |
| Client.ValuesInsert | client/client.go:49-51 | adding a task under a fresh id adds one copy of it to the map's values |
| Client.ValuesCount | client/client.go:49-51 | a task occurs among a map's values once per id that holds it, so equal tasks under different ids are all kept |
| Client.FlattenCount | client/client.go:48-52 | a task occurs in the flattened multiset once per (node id, task id) pair that holds it |
| Client.AppendTasks | client/client.go:49-51 | the inner loop keeps what was collected as a prefix and adds exactly the map's values, in any order |
| Client.FlattenNodes | client/client.go:48-52 | the nested loops produce exactly the union of all nodes' tasks, as many as all task maps together |
| Client.Tasks | client/client.go:29-54 | requests exactly `base + "/_tasks?pretty&detailed=true&actions=*reindex"`; an error exactly when some stage failed, and then no tasks and the stage's error kind; otherwise every task of every node |
| Client.NoNodesNoTasks | client/client.go:48-53 | an empty `nodes` map is a success with no tasks |
| Collector.Seconds | collector/collector.go:123 | `time.Duration(nanos).Seconds()`: the result times 10^9 is the running time in nanoseconds |
| Collector.TaskSamples | collector/collector.go:119-123 | the five sends for one task: five samples, all labelled with the index, for `total`, `updated`, `created`, `deleted` and `running_seconds` in that order; `GroupValues` states the values they carry |
| Collector.EmitTasks | collector/collector.go:111-126 | the task loop and the `up` send after it write at least the `up` sample; `EmitShape` (the `up` comes last, everything before it is labelled), `EmitUpValue` (`up` is 1 exactly when every description is named) and `EmitPrefix` (named tasks write their groups in order) state what it writes |
| Collector.CollectWith | collector/collector.go:94-127 | for any extractor: at least two samples, duration last, an unlabelled `up` next-to-last, every other sample a labelled per-task sample |
| Collector.Collect | collector/collector.go:94-127 | `up` once as the next-to-last sample, the duration once and last, every other sample a per-task sample with an index label |
| Collector.EmitShape | collector/collector.go:111-126 | the task loop and its `up` end with the one `up`; everything before it is labelled per-task output |
| Collector.EmitUpValue | collector/collector.go:111-126 | the loop's `up` is 1 exactly when every description yields a name |
| Collector.UpValueWith | collector/collector.go:104-126 | `up` is 1 exactly when the fetch succeeded and every description yields a name, for any extractor |
| Collector.UpIffSucceeded | collector/collector.go:104-126 | `up` is 1 exactly when the fetch succeeded and every description matched the pattern |
| Collector.GroupsLayout | collector/collector.go:119-123 | the groups of N matching tasks are 5N samples, task k's group at 5k, in slice order |
| Collector.EmitPrefix | collector/collector.go:111-124 | while tasks match, the loop writes their groups and then continues exactly as if it had started after them |
| Collector.FetchFailedOutput | collector/collector.go:104-109 | a failed fetch writes exactly `up = 0` and then the duration |
| Collector.CollectAllNamed | collector/collector.go:111-126 | for any extractor, when every description is named a successful scrape is the groups of all tasks, then `up = 1`, then the duration |
| Collector.AllNamedOutput | collector/collector.go:111-126 | for any extractor: all groups in slice order, then `up = 1`, then the duration, 5N + 2 samples |
| Collector.AllMatchedOutput | collector/collector.go:111-126 | when every description matches: task k's group at 5k labelled with its index, `up = 1` at 5N, the duration at 5N + 1 |
| Collector.AbortedOutputWith | collector/collector.go:111-117 | for any extractor: with task k the first unnamed, the groups of tasks before k, then `up = 0`, then the duration |
| Collector.AbortedOutput | collector/collector.go:111-117 | with task k the first unmatched: groups of tasks 0..k-1, `up = 0` at 5k, the duration at 5k + 1, 5k + 2 samples, and tasks after k change nothing |
| Collector.GroupsAppend | collector/collector.go:111-124 | the groups of two named task sequences laid end to end are the two groups laid end to end |
| Collector.GroupsPermutation | collector/collector.go:111-124 | two orderings of the same named tasks write the same multiset of per-task samples |
| Collector.SameAnswerSameSamples | client/client.go:48-52 | when every task of the answer matches, any two orders of the flattened tasks give the same multiset of samples |
| Collector.OrderMattersOnMismatch | collector/collector.go:111-117 | with one node holding a matching and a non-matching task, one listing order gives 7 samples and the other only `up = 0` and the duration |
| Collector.EmitIgnoresUnreported | collector/collector.go:119-123 | the loop reads only the description, four counters and running time of each task |
| Collector.IgnoresBatchesAndStartTime | client/client.go:68-71 | `batches` and `startTimeInMillis` never affect the output |
| Collector.OnlyDurationVaries | collector/collector.go:98-101 | two scrapes given the same task list, in the same order, and the same fetch error differ at most in the final duration sample; the same cluster answer listed in another order can differ in more (`OrderMattersOnMismatch`) |
| Collector.GroupValues | collector/collector.go:119-123 | the counters pass through unchanged, every sample carries the index label, and `running_seconds` times 10^9 is the running time in nanoseconds |
| Collector.MetricNamesDistinct | collector/collector.go:24-65 | the seven fully qualified `elasticsearch_reindex_*` names are pairwise distinct |
| Collector.ScrapeOnce | collector/collector.go:94-127 | a failed fetch (transport, status, body read or decoding) gives no tasks and `[up = 0, duration]`; otherwise the output is `Collect` of the client's listing `order`, which holds exactly the tasks of all nodes; `up = 1` exactly when every one of them matches, and then there are 5 * (number of tasks) + 2 samples |
| Collector.SuccessfulScrape | collector/collector.go:104-126 | for tasks flattened from the nodes, `up = 1` exactly when every node's every task matches; then task k of the listing has its group, labelled with its index, at 5k, and there are 5 * (number of tasks) + 2 samples |
| Collector.AllMatchMultiset | collector/collector.go:111-117 | whether every task matches does not depend on the order of the tasks |
| Collector.SingleTaskExample | collector/collector.go:111-126 | one task `idx-a` with counters 100/40/40/0 and 2 s running gives the seven samples in order, with `running_seconds = 2` |
| Collector.ExampleTaskIndex | collector/collector.go:112-118 | the example description matches and reports `idx-a` |
| Collector.UnavailableExample | client/client.go:37-39 | an HTTP 503 is a `BadStatus` error and the scrape writes only `up = 0` and the duration |
| Collector.AbortExample | collector/collector.go:111-117 | a good task, an unmatched one and any third: the first group, `up = 0`, the duration |

## Left out

- `main.go` (flags, the HTTP server, registration) is not part of this model.
- The collector's mutex only serializes concurrent scrapes; the model covers one scrape.
- The wall clock: the scrape duration is the parameter `elapsed`, not computed.
- `net/http`, `ioutil.ReadAll` and `encoding/json`: each stage is an abstract outcome (`HttpOutcome`, `BodyRead`, `Decoding`). The model does not describe which bodies decode or how JSON fields map onto the records.
- The error messages and wrapping (`errors.Wrap`, `fmt.Errorf`): the model keeps only which stage failed.
- Logging, which has no effect on the output.
- The Prometheus library calls (`NewDesc`, `MustNewConstMetric`, the channel): a sample is a metric, an optional `index` label value and a value. The help strings and `Describe` are left out.
- Closing the response body, and the body not being closed on a non-200 status: these are resource handling with no effect on the output.
- Floating point: counters are exact reals and `running_seconds` is the exact quotient of nanoseconds by 10^9. The model does not round as `float64` does.
