/** The collector: one scrape turns the client's answer into the sequence of metric
    samples written to the output channel.

    Samples are written in this order: for each task, in slice order, five samples
    labelled with the task's index name; then the `up` sample; then, from the deferred
    call, the scrape-duration sample. A failed fetch writes `up = 0` at once; the first
    task whose description does not name an index writes `up = 0` and ends the scrape. */
module Collector {
  import opened Wrappers
  import opened Client
  import opened IndexName

  const Namespace: string := "elasticsearch"
  const Subsystem: string := "reindex"

  /** The seven metric descriptors the collector owns. */
  datatype Metric = Up | ScrapeDuration | Total | Updated | Created | Deleted | Running

  /** The last part of each metric's fully qualified name. */
  function Suffix(m: Metric): string {
    match m
    case Up => "up"
    case ScrapeDuration => "scrape_duration_seconds"
    case Total => "total"
    case Updated => "updated"
    case Created => "created"
    case Deleted => "deleted"
    case Running => "running_seconds"
  }

  /** The fully qualified name, `namespace_subsystem_name`. */
  function MetricName(m: Metric): string {
    Namespace + "_" + Subsystem + "_" + Suffix(m)
  }

  /** The metrics written once per scrape, without a label. */
  predicate ScrapeLevel(m: Metric) {
    m == Up || m == ScrapeDuration
  }

  /** One sample written to the channel: a metric, the value of its `index` label (only the
      per-task metrics have one) and the gauge value. */
  datatype Sample = Sample(metric: Metric, index: Option<string>, value: real)

  function UpSample(value: real): Sample {
    Sample(Up, None, value)
  }

  function DurationSample(seconds: real): Sample {
    Sample(ScrapeDuration, None, seconds)
  }

  /** `time.Duration(nanos).Seconds()`, as an exact quotient without float64 rounding. */
  function Seconds(nanos: Int64): (r: real)
    ensures r * 1_000_000_000.0 == nanos as int as real
  {
    (nanos as int) as real / 1_000_000_000.0
  }

  /** The task's description yields an index name under `extract`. */
  predicate Named(extract: string -> Option<string>, task: Task) {
    extract(task.description).Some?
  }

  /** The index name `extract` yields for a named task. */
  function NameOf(extract: string -> Option<string>, task: Task): string
    requires Named(extract, task)
  {
    extract(task.description).value
  }

  /** Every task's description yields an index name under `extract`. */
  predicate AllNamed(extract: string -> Option<string>, tasks: seq<Task>) {
    forall k :: 0 <= k < |tasks| ==> Named(extract, tasks[k])
  }

  /** The five samples written for one task, all labelled with `index`. */
  function TaskSamples(task: Task, index: string): (g: seq<Sample>)
    ensures |g| == 5 && forall i :: 0 <= i < |g| ==> g[i].index == Some(index)
    ensures [g[0].metric, g[1].metric, g[2].metric, g[3].metric, g[4].metric]
            == [Total, Updated, Created, Deleted, Running]
  {
    [ Sample(Total, Some(index), task.status.total),
      Sample(Updated, Some(index), task.status.updated),
      Sample(Created, Some(index), task.status.created),
      Sample(Deleted, Some(index), task.status.deleted),
      Sample(Running, Some(index), Seconds(task.runningTimeInNanos)) ]
  }

  /** The groups of a sequence of named tasks, one after another. */
  function Groups(extract: string -> Option<string>, tasks: seq<Task>): seq<Sample>
    requires AllNamed(extract, tasks)
  {
    if tasks == [] then []
    else TaskSamples(tasks[0], NameOf(extract, tasks[0])) + Groups(extract, tasks[1..])
  }

  /** The loop over the tasks and the `up` sample after it, for the index-name extractor
      `extract`: everything a successful fetch writes before the deferred duration
      sample. */
  function EmitTasks(extract: string -> Option<string>, tasks: seq<Task>): (out: seq<Sample>)
    ensures |out| >= 1
    decreases |tasks|
  {
    if |tasks| == 0 then [UpSample(1.0)]
    else
      match extract(tasks[0].description)
      case None => [UpSample(0.0)]
      case Some(index) => TaskSamples(tasks[0], index) + EmitTasks(extract, tasks[1..])
  }

  /** The loop ends with the one `up` sample; every sample before it is a labelled
      per-task sample. */
  lemma {:induction false} EmitShape(extract: string -> Option<string>, tasks: seq<Task>)
    ensures var out := EmitTasks(extract, tasks);
            && out[|out| - 1].metric == Up && out[|out| - 1].index == None
            && forall i :: 0 <= i < |out| - 1 ==> !ScrapeLevel(out[i].metric) && out[i].index.Some?
    decreases |tasks|
  {
    if |tasks| > 0 && extract(tasks[0].description).Some? {
      var g := TaskSamples(tasks[0], NameOf(extract, tasks[0]));
      var rest := EmitTasks(extract, tasks[1..]);
      EmitShape(extract, tasks[1..]);
      var out: seq<Sample> := g + rest;
      assert EmitTasks(extract, tasks) == out;
      forall i | 0 <= i < |out| - 1
        ensures !ScrapeLevel(out[i].metric) && out[i].index.Some?
      {
        if i >= |g| {
          assert out[i] == rest[i - |g|];
        }
      }
    }
  }

  /** One scrape for the index-name extractor `extract`. */
  function CollectWith(extract: string -> Option<string>, tasks: seq<Task>, err: Option<FetchError>, elapsed: real): (out: seq<Sample>)
    ensures |out| >= 2
    ensures out[|out| - 1] == DurationSample(elapsed)
    ensures out[|out| - 2].metric == Up && out[|out| - 2].index == None
    ensures forall i :: 0 <= i < |out| - 2 ==> !ScrapeLevel(out[i].metric) && out[i].index.Some?
  {
    EmitShape(extract, tasks);
    var body := if err.Some? then [UpSample(0.0)] else EmitTasks(extract, tasks);
    body + [DurationSample(elapsed)]
  }

  /** `Collect`: the samples one scrape writes, given the client's answer and the elapsed
      wall time (measured outside the model), with the index names taken by
      `ExtractIndex`. `up` is written exactly once, as the next-to-last sample; the
      duration sample is written exactly once, last; every other sample is a per-task
      sample carrying an index label. */
  function Collect(tasks: seq<Task>, err: Option<FetchError>, elapsed: real): (out: seq<Sample>)
    ensures |out| >= 2
    ensures out[|out| - 1] == DurationSample(elapsed)
    ensures out[|out| - 2].metric == Up && out[|out| - 2].index == None
    ensures forall i :: 0 <= i < |out| - 2 ==> !ScrapeLevel(out[i].metric) && out[i].index.Some?
  {
    CollectWith(ExtractIndex, tasks, err, elapsed)
  }

  /** The task's description names an index. */
  predicate Matches(task: Task) {
    Named(ExtractIndex, task)
  }

  /** Every task's description names an index. */
  predicate AllMatch(tasks: seq<Task>) {
    AllNamed(ExtractIndex, tasks)
  }

  /** The index name a matching task reports under. */
  function IndexOf(task: Task): string
    requires Matches(task)
  {
    NameOf(ExtractIndex, task)
  }

  /** Dropping the first task keeps every remaining task named. */
  lemma AllNamedTail(extract: string -> Option<string>, tasks: seq<Task>)
    requires |tasks| > 0
    ensures AllNamed(extract, tasks) <==> Named(extract, tasks[0]) && AllNamed(extract, tasks[1..])
  {
    assert forall m :: 0 <= m < |tasks| - 1 ==> tasks[1..][m] == tasks[m + 1];
  }

  /** The `up` sample the loop ends with is 1 exactly when every description is named. */
  lemma {:induction false} EmitUpValue(extract: string -> Option<string>, tasks: seq<Task>)
    ensures var out := EmitTasks(extract, tasks);
            out[|out| - 1] == UpSample(if AllNamed(extract, tasks) then 1.0 else 0.0)
    decreases |tasks|
  {
    if |tasks| > 0 {
      AllNamedTail(extract, tasks);
      if Named(extract, tasks[0]) {
        EmitUpValue(extract, tasks[1..]);
      }
    }
  }

  /** `up` is 1 exactly when the fetch succeeded and every description was named. */
  lemma UpValueWith(extract: string -> Option<string>, tasks: seq<Task>, err: Option<FetchError>, elapsed: real)
    ensures var out := CollectWith(extract, tasks, err, elapsed);
            out[|out| - 2] == UpSample(if err.None? && AllNamed(extract, tasks) then 1.0 else 0.0)
  {
    if err.None? {
      EmitUpValue(extract, tasks);
    }
  }

  /** `up` is 1 exactly when the fetch succeeded and every description named an index. */
  lemma UpIffSucceeded(tasks: seq<Task>, err: Option<FetchError>, elapsed: real)
    ensures var out := Collect(tasks, err, elapsed);
            out[|out| - 2] == UpSample(if err.None? && AllMatch(tasks) then 1.0 else 0.0)
  {
    UpValueWith(ExtractIndex, tasks, err, elapsed);
  }

  /** One turn of the loop for a task whose description is named. */
  lemma EmitStep(extract: string -> Option<string>, tasks: seq<Task>)
    requires |tasks| > 0 && Named(extract, tasks[0])
    ensures EmitTasks(extract, tasks)
            == TaskSamples(tasks[0], NameOf(extract, tasks[0])) + EmitTasks(extract, tasks[1..])
  {
    assert extract(tasks[0].description) == Some(NameOf(extract, tasks[0]));
  }

  /** The groups of a non-empty sequence start with the first task's group. */
  lemma GroupsStep(extract: string -> Option<string>, tasks: seq<Task>)
    requires |tasks| > 0 && AllNamed(extract, tasks)
    ensures AllNamed(extract, tasks[1..])
    ensures Groups(extract, tasks)
            == TaskSamples(tasks[0], NameOf(extract, tasks[0])) + Groups(extract, tasks[1..])
  {
    AllNamedTail(extract, tasks);
  }

  /** A slice lying wholly in the second part of a concatenation. */
  lemma SliceAfter(a: seq<Sample>, b: seq<Sample>, i: nat, n: nat)
    requires i + n <= |b|
    ensures (a + b)[|a| + i..|a| + i + n] == b[i..i + n]
  {
  }

  /** The groups of named tasks: five samples per task, task `k`'s at `5 * k`. */
  lemma {:induction false} GroupsLayout(extract: string -> Option<string>, tasks: seq<Task>)
    requires AllNamed(extract, tasks)
    ensures |Groups(extract, tasks)| == 5 * |tasks|
    ensures forall k :: 0 <= k < |tasks| ==>
              Groups(extract, tasks)[5 * k..5 * k + 5]
              == TaskSamples(tasks[k], NameOf(extract, tasks[k]))
    decreases |tasks|
  {
    if tasks != [] {
      GroupsStep(extract, tasks);
      GroupsLayout(extract, tasks[1..]);
      forall k | 0 <= k < |tasks|
        ensures Groups(extract, tasks)[5 * k..5 * k + 5]
                == TaskSamples(tasks[k], NameOf(extract, tasks[k]))
      {
        var head := TaskSamples(tasks[0], NameOf(extract, tasks[0]));
        if k == 0 {
          assert (head + Groups(extract, tasks[1..]))[0..5] == head;
        } else {
          SliceAfter(head, Groups(extract, tasks[1..]), 5 * (k - 1), 5);
          assert tasks[k] == tasks[1..][k - 1];
        }
      }
    }
  }

  /** The named prefix of a task sequence, seen from the whole and from its tail. */
  lemma NamedPrefix(extract: string -> Option<string>, tasks: seq<Task>, k: nat)
    requires k <= |tasks| && forall m :: 0 <= m < k ==> Named(extract, tasks[m])
    ensures AllNamed(extract, tasks[..k])
    ensures k > 0 ==> forall m :: 0 <= m < k - 1 ==> Named(extract, tasks[1..][m])
  {
    assert forall m :: 0 <= m < k ==> tasks[..k][m] == tasks[m];
    if k > 0 {
      assert forall m :: 0 <= m < k - 1 ==> tasks[1..][m] == tasks[m + 1];
    }
  }

  /** Cutting the first task and then `k - 1` more is cutting `k`. */
  lemma CutTail(tasks: seq<Task>, k: nat)
    requires 0 < k <= |tasks|
    ensures tasks[..k][1..] == tasks[1..][..k - 1]
    ensures tasks[1..][k - 1..] == tasks[k..]
  {
  }

  /** The loop writes the groups of the first `k` tasks as long as they are named, and then
      carries on with the rest exactly as if it had started there. */
  lemma {:induction false} EmitPrefix(extract: string -> Option<string>, tasks: seq<Task>, k: nat)
    requires k <= |tasks| && forall m :: 0 <= m < k ==> Named(extract, tasks[m])
    ensures AllNamed(extract, tasks[..k])
    ensures EmitTasks(extract, tasks) == Groups(extract, tasks[..k]) + EmitTasks(extract, tasks[k..])
    decreases k
  {
    NamedPrefix(extract, tasks, k);
    if k > 0 {
      var rest := tasks[1..];
      var head := TaskSamples(tasks[0], NameOf(extract, tasks[0]));
      EmitStep(extract, tasks);
      EmitPrefix(extract, rest, k - 1);
      GroupsStep(extract, tasks[..k]);
      CutTail(tasks, k);
      var groups, more := Groups(extract, rest[..k - 1]), EmitTasks(extract, tasks[k..]);
      calc {
        EmitTasks(extract, tasks);
        head + EmitTasks(extract, rest);
        head + (groups + more);
        (head + groups) + more;
        Groups(extract, tasks[..k]) + more;
      }
    }
  }

  /** A failed fetch writes `up = 0` and the duration, and nothing for any task. */
  lemma FetchFailedOutput(tasks: seq<Task>, e: FetchError, elapsed: real)
    ensures Collect(tasks, Some(e), elapsed) == [UpSample(0.0), DurationSample(elapsed)]
  {
  }

  /** When every description is named, a successful scrape is the groups of all tasks,
      then `up = 1`, then the duration. */
  lemma CollectAllNamed(extract: string -> Option<string>, tasks: seq<Task>, elapsed: real)
    requires AllNamed(extract, tasks)
    ensures CollectWith(extract, tasks, None, elapsed)
            == Groups(extract, tasks) + [UpSample(1.0), DurationSample(elapsed)]
  {
    EmitPrefix(extract, tasks, |tasks|);
    assert tasks[..|tasks|] == tasks;
    assert tasks[|tasks|..] == [];
  }

  /** When every description is named: the groups of all tasks in slice order, then
      `up = 1`, then the duration. */
  lemma AllNamedOutput(extract: string -> Option<string>, tasks: seq<Task>, elapsed: real)
    requires AllNamed(extract, tasks)
    ensures var out := CollectWith(extract, tasks, None, elapsed);
            && |out| == 5 * |tasks| + 2
            && (forall k :: 0 <= k < |tasks| ==>
                  out[5 * k..5 * k + 5] == TaskSamples(tasks[k], NameOf(extract, tasks[k])))
            && out[5 * |tasks|] == UpSample(1.0)
            && out[5 * |tasks| + 1] == DurationSample(elapsed)
  {
    var g := Groups(extract, tasks);
    CollectAllNamed(extract, tasks, elapsed);
    GroupsLayout(extract, tasks);
    var out := CollectWith(extract, tasks, None, elapsed);
    forall k | 0 <= k < |tasks|
      ensures out[5 * k..5 * k + 5] == TaskSamples(tasks[k], NameOf(extract, tasks[k]))
    {
      assert out[5 * k..5 * k + 5] == g[5 * k..5 * k + 5];
    }
  }

  /** When every description names an index: the groups of all tasks in slice order, then
      `up = 1`, then the duration; `5 * N + 2` samples. */
  lemma AllMatchedOutput(tasks: seq<Task>, elapsed: real)
    requires AllMatch(tasks)
    ensures var out := Collect(tasks, None, elapsed);
            && |out| == 5 * |tasks| + 2
            && (forall k :: 0 <= k < |tasks| ==>
                  out[5 * k..5 * k + 5] == TaskSamples(tasks[k], IndexOf(tasks[k])))
            && out[5 * |tasks|] == UpSample(1.0)
            && out[5 * |tasks| + 1] == DurationSample(elapsed)
  {
    AllNamedOutput(ExtractIndex, tasks, elapsed);
  }

  /** When task `k` is the first whose description is not named: the groups of tasks
      `0 .. k - 1`, then `up = 0`, then the duration. */
  lemma AbortedOutputWith(extract: string -> Option<string>, tasks: seq<Task>, k: nat, elapsed: real)
    requires k < |tasks| && !Named(extract, tasks[k])
    requires forall m :: 0 <= m < k ==> Named(extract, tasks[m])
    ensures var out := CollectWith(extract, tasks, None, elapsed);
            && |out| == 5 * k + 2
            && (forall m :: 0 <= m < k ==>
                  out[5 * m..5 * m + 5] == TaskSamples(tasks[m], NameOf(extract, tasks[m])))
            && out[5 * k] == UpSample(0.0)
            && out[5 * k + 1] == DurationSample(elapsed)
            && out == CollectWith(extract, tasks[..k + 1], None, elapsed)
  {
    var pre := tasks[..k];
    var g := Groups(extract, pre);
    EmitPrefix(extract, tasks, k);
    assert tasks[k..][0] == tasks[k];
    assert EmitTasks(extract, tasks) == g + [UpSample(0.0)];
    var cut := tasks[..k + 1];
    assert cut[..k] == pre && cut[k..][0] == tasks[k];
    EmitPrefix(extract, cut, k);
    assert EmitTasks(extract, cut) == g + [UpSample(0.0)];
    GroupsLayout(extract, pre);
    var out := CollectWith(extract, tasks, None, elapsed);
    assert out == g + [UpSample(0.0), DurationSample(elapsed)];
    forall m | 0 <= m < k
      ensures out[5 * m..5 * m + 5] == TaskSamples(tasks[m], NameOf(extract, tasks[m]))
    {
      assert out[5 * m..5 * m + 5] == g[5 * m..5 * m + 5];
      assert pre[m] == tasks[m];
    }
  }

  /** When task `k` is the first whose description names no index: the groups of tasks
      `0 .. k - 1`, then `up = 0`, then the duration; `5 * k + 2` samples. The tasks after
      `k` are never looked at: the output is the same as for the tasks up to `k`. */
  lemma AbortedOutput(tasks: seq<Task>, k: nat, elapsed: real)
    requires k < |tasks| && !Matches(tasks[k]) && forall m :: 0 <= m < k ==> Matches(tasks[m])
    ensures var out := Collect(tasks, None, elapsed);
            && |out| == 5 * k + 2
            && (forall m :: 0 <= m < k ==>
                  out[5 * m..5 * m + 5] == TaskSamples(tasks[m], IndexOf(tasks[m])))
            && out[5 * k] == UpSample(0.0)
            && out[5 * k + 1] == DurationSample(elapsed)
            && out == Collect(tasks[..k + 1], None, elapsed)
  {
    AbortedOutputWith(ExtractIndex, tasks, k, elapsed);
  }

  /** The groups of two named sequences laid end to end. */
  lemma {:induction false} GroupsAppend(extract: string -> Option<string>, x: seq<Task>, y: seq<Task>)
    requires AllNamed(extract, x) && AllNamed(extract, y)
    ensures AllNamed(extract, x + y)
    ensures Groups(extract, x + y) == Groups(extract, x) + Groups(extract, y)
    decreases |x|
  {
    assert forall k :: 0 <= k < |x + y| ==> (x + y)[k] == if k < |x| then x[k] else y[k - |x|];
    if x == [] {
      assert x + y == y;
    } else {
      AllNamedTail(extract, x);
      GroupsAppend(extract, x[1..], y);
      assert (x + y)[1..] == x[1..] + y;
      GroupsStep(extract, x + y);
      GroupsStep(extract, x);
    }
  }

  /** Every member of a multiset drawn from named tasks is named. */
  lemma NamedByMultiset(extract: string -> Option<string>, a: seq<Task>, b: seq<Task>)
    requires AllNamed(extract, a) && multiset(a) == multiset(b)
    ensures AllNamed(extract, b)
  {
    forall k | 0 <= k < |b| ensures Named(extract, b[k]) {
      assert b[k] in multiset(b);
      var j :| 0 <= j < |a| && a[j] == b[k];
    }
  }

  /** A sequence is its part before `p`, the element at `p` and its part after `p`; leaving
      the element out takes one copy of it out of the multiset. */
  lemma SplitAt<T>(b: seq<T>, p: nat)
    requires p < |b|
    ensures b == b[..p] + [b[p]] + b[p + 1..]
    ensures multiset(b[..p] + b[p + 1..]) == multiset(b) - multiset{b[p]}
  {
    assert b == b[..p] + [b[p]] + b[p + 1..];
    assert multiset(b) == multiset(b[..p]) + multiset{b[p]} + multiset(b[p + 1..]);
  }

  /** Taking the first element off a non-empty sequence. */
  lemma DropFirst<T>(a: seq<T>)
    requires |a| > 0
    ensures multiset(a[1..]) == multiset(a) - multiset{a[0]}
  {
    assert a == [a[0]] + a[1..];
  }

  /** The samples of `front + middle + back` are those of `middle` and of `front + back`. */
  lemma MiddleBag(front: seq<Sample>, middle: seq<Sample>, back: seq<Sample>)
    ensures multiset(front + middle + back) == multiset(middle) + multiset(front + back)
  {
  }

  /** Every part of a named sequence is named. */
  lemma NamedParts(extract: string -> Option<string>, b: seq<Task>, p: nat)
    requires p < |b| && AllNamed(extract, b)
    ensures AllNamed(extract, b[..p]) && AllNamed(extract, [b[p]]) && AllNamed(extract, b[p + 1..])
  {
    var front, back := b[..p], b[p + 1..];
    assert forall k :: 0 <= k < |front| ==> front[k] == b[k];
    assert forall k :: 0 <= k < |back| ==> back[k] == b[p + 1 + k];
  }

  /** The group of a single named task. */
  lemma GroupsSingle(extract: string -> Option<string>, t: Task)
    requires Named(extract, t)
    ensures AllNamed(extract, [t])
    ensures Groups(extract, [t]) == TaskSamples(t, NameOf(extract, t))
  {
    assert [t][1..] == [];
  }

  /** Taking the task at `p` out of a sequence: the rest of it, as a multiset and as groups. */
  lemma RemoveAt(extract: string -> Option<string>, b: seq<Task>, p: nat)
    requires p < |b| && AllNamed(extract, b)
    ensures var rest := b[..p] + b[p + 1..];
            && multiset(rest) == multiset(b) - multiset{b[p]}
            && AllNamed(extract, rest)
            && multiset(Groups(extract, b))
               == multiset(TaskSamples(b[p], NameOf(extract, b[p]))) + multiset(Groups(extract, rest))
  {
    var front, x, back := b[..p], b[p], b[p + 1..];
    SplitAt(b, p);
    NamedParts(extract, b, p);
    GroupsSingle(extract, x);
    GroupsAppend(extract, front, back);
    GroupsAppend(extract, front, [x]);
    GroupsAppend(extract, front + [x], back);
    var gf, gx, gb := Groups(extract, front), Groups(extract, [x]), Groups(extract, back);
    assert Groups(extract, b) == gf + gx + gb;
    MiddleBag(gf, gx, gb);
  }

  /** The groups of two orderings of the same named tasks hold the same samples. */
  lemma {:induction false} GroupsPermutation(extract: string -> Option<string>, a: seq<Task>, b: seq<Task>)
    requires AllNamed(extract, a) && multiset(a) == multiset(b)
    ensures AllNamed(extract, b)
    ensures multiset(Groups(extract, a)) == multiset(Groups(extract, b))
    decreases |a|
  {
    NamedByMultiset(extract, a, b);
    if a == [] {
      assert |b| == |multiset(b)| == 0;
    } else {
      assert a[0] in multiset(b);
      var p :| 0 <= p < |b| && b[p] == a[0];
      RemoveAt(extract, b, p);
      DropFirst(a);
      AllNamedTail(extract, a);
      GroupsPermutation(extract, a[1..], b[..p] + b[p + 1..]);
      GroupsStep(extract, a);
    }
  }

  /** When every task of the answer names an index, the order Go's maps hand the tasks out
      in does not matter: any two orders write the same samples, only arranged differently. */
  lemma SameAnswerSameSamples(nodes: map<string, Node>, a: seq<Task>, b: seq<Task>, elapsed: real)
    requires multiset(a) == Flatten(nodes) && multiset(b) == Flatten(nodes)
    requires forall t :: t in Flatten(nodes) ==> Matches(t)
    ensures multiset(Collect(a, None, elapsed)) == multiset(Collect(b, None, elapsed))
  {
    AllMatchMultiset(a);
    GroupsPermutation(ExtractIndex, a, b);
    CollectAllNamed(ExtractIndex, a, elapsed);
    CollectAllNamed(ExtractIndex, b, elapsed);
  }

  /** A task map with two ids holds exactly their two tasks. */
  lemma TwoValues(first: Task, second: Task)
    ensures Values(map["1" := first, "2" := second]) == multiset{first, second}
  {
    var one: map<string, Task> := map["1" := first];
    ValuesInsert(map[], "1", first);
    assert map[]["1" := first] == one;
    assert "2" != "1";
    ValuesInsert(one, "2", second);
    assert one["2" := second] == map["1" := first, "2" := second];
  }

  /** One node flattens to its own task map's values. */
  lemma OneNode(m: map<string, Task>)
    ensures Flatten(map["node" := Node(m)]) == Values(m)
  {
    var nodes := map["node" := Node(m)];
    FlattenRemove(nodes, "node");
    assert nodes - {"node"} == map[];
  }

  /** A well-formed task ahead of a malformed one: its group, then `up = 0`. */
  lemma GoodThenBad(good: Task, bad: Task, elapsed: real)
    requires good.description == "reindex from [idx-a] to [idx-a-new]"
    requires bad.description == "something unexpected"
    ensures |Collect([good, bad], None, elapsed)| == 7
  {
    ExampleTaskIndex(good);
    UnexpectedExample();
    AbortedOutput([good, bad], 1, elapsed);
  }

  /** A malformed task first: `up = 0` at once. */
  lemma BadFirst(good: Task, bad: Task, elapsed: real)
    requires bad.description == "something unexpected"
    ensures Collect([bad, good], None, elapsed) == [UpSample(0.0), DurationSample(elapsed)]
  {
    UnexpectedExample();
    AbortedOutput([bad, good], 0, elapsed);
  }

  /** When a task does not name an index, the order of the tasks does matter: one node
      holding a well-formed task and a malformed one, listed in either order, gives seven
      samples in one order and two in the other. */
  lemma OrderMattersOnMismatch(good: Task, bad: Task, elapsed: real)
    requires good.description == "reindex from [idx-a] to [idx-a-new]"
    requires bad.description == "something unexpected"
    ensures var nodes := map["node" := Node(map["1" := good, "2" := bad])];
            && multiset([good, bad]) == Flatten(nodes) == multiset([bad, good])
            && |Collect([good, bad], None, elapsed)| == 7
            && Collect([bad, good], None, elapsed) == [UpSample(0.0), DurationSample(elapsed)]
  {
    TwoValues(good, bad);
    OneNode(map["1" := good, "2" := bad]);
    assert multiset([good, bad]) == multiset{good, bad} == multiset([bad, good]);
    GoodThenBad(good, bad, elapsed);
    BadFirst(good, bad, elapsed);
  }

  /** Two tasks that agree on everything except `batches` and `startTimeInMillis`. */
  predicate SameReported(a: Task, b: Task) {
    && a.description == b.description
    && a.status.total == b.status.total
    && a.status.updated == b.status.updated
    && a.status.created == b.status.created
    && a.status.deleted == b.status.deleted
    && a.runningTimeInNanos == b.runningTimeInNanos
  }

  /** The loop reads nothing of a task but what `SameReported` compares. */
  lemma {:induction false} EmitIgnoresUnreported(extract: string -> Option<string>, a: seq<Task>, b: seq<Task>)
    requires |a| == |b| && forall k :: 0 <= k < |a| ==> SameReported(a[k], b[k])
    ensures EmitTasks(extract, a) == EmitTasks(extract, b)
    decreases |a|
  {
    if a != [] {
      assert forall k :: 0 <= k < |a| - 1 ==> a[1..][k] == a[k + 1] && b[1..][k] == b[k + 1];
      EmitIgnoresUnreported(extract, a[1..], b[1..]);
    }
  }

  /** `batches` and `startTimeInMillis` never reach the output: task lists that differ only
      in those fields produce the same samples. */
  lemma IgnoresBatchesAndStartTime(a: seq<Task>, b: seq<Task>, err: Option<FetchError>, elapsed: real)
    requires |a| == |b| && forall k :: 0 <= k < |a| ==> SameReported(a[k], b[k])
    ensures Collect(a, err, elapsed) == Collect(b, err, elapsed)
  {
    EmitIgnoresUnreported(ExtractIndex, a, b);
  }

  /** Two scrapes given the same task list, in the same order, and the same fetch error
      differ at most in the final duration value. The same cluster answer listed in another
      order can differ in more (`OrderMattersOnMismatch`). */
  lemma OnlyDurationVaries(tasks: seq<Task>, err: Option<FetchError>, d1: real, d2: real)
    ensures var o1, o2 := Collect(tasks, err, d1), Collect(tasks, err, d2);
            |o1| == |o2| && o1[..|o1| - 1] == o2[..|o2| - 1]
  {
  }

  /** A task's `running_seconds` sample carries its running time converted from
      nanoseconds; the four counters pass through unchanged. */
  lemma GroupValues(task: Task, index: string)
    ensures var g := TaskSamples(task, index);
            && |g| == 5
            && (forall i :: 0 <= i < 5 ==> g[i].index == Some(index))
            && [g[0].value, g[1].value, g[2].value, g[3].value]
               == [task.status.total, task.status.updated, task.status.created, task.status.deleted]
            && g[4].value * 1_000_000_000.0 == (task.runningTimeInNanos as int) as real
  {
  }

  /** The labelled metric names are those of the source, all distinct. */
  lemma MetricNamesDistinct(a: Metric, b: Metric)
    requires a != b
    ensures MetricName(a) != MetricName(b)
  {
    var p := Namespace + "_" + Subsystem + "_";
    assert MetricName(a)[|p|..] == Suffix(a);
    assert MetricName(b)[|p|..] == Suffix(b);
  }

  /** One scrape end to end: the client's GET of `baseURL + TasksPath` through `get`,
      then `Collect`. `order` is the order in which the client listed the tasks; it is one
      arrangement of every task of every node, chosen by Go's map iteration. */
  method ScrapeOnce(baseURL: string, get: string -> HttpOutcome, elapsed: real) returns (out: seq<Sample>, order: seq<Task>)
    ensures |out| >= 2
    ensures var response := get(baseURL + TasksPath);
            !Succeeded(response) ==> order == [] && out == [UpSample(0.0), DurationSample(elapsed)]
    ensures var response := get(baseURL + TasksPath);
            Succeeded(response) ==>
              var nodes := response.body.decoding.document.nodes;
              && multiset(order) == Flatten(nodes)
              && out == Collect(order, None, elapsed)
              && out[|out| - 1] == DurationSample(elapsed)
              && (out[|out| - 2] == UpSample(1.0) <==> forall t :: t in Flatten(nodes) ==> Matches(t))
              && ((forall t :: t in Flatten(nodes) ==> Matches(t)) ==> |out| == 5 * TaskCount(nodes) + 2)
  {
    var err;
    order, err := Tasks(baseURL, get);
    out := Collect(order, err, elapsed);
    if err.None? {
      SuccessfulScrape(order, get(baseURL + TasksPath).body.decoding.document.nodes, elapsed);
    }
  }

  /** A scrape of the tasks flattened from `nodes`: `up` is 1 exactly when every task of
      every node names an index, and then every task's group is written, in the order the
      tasks were listed. */
  lemma SuccessfulScrape(tasks: seq<Task>, nodes: map<string, Node>, elapsed: real)
    requires multiset(tasks) == Flatten(nodes) && |tasks| == TaskCount(nodes)
    ensures var out := Collect(tasks, None, elapsed);
            && (out[|out| - 2] == UpSample(1.0) <==> forall t :: t in Flatten(nodes) ==> Matches(t))
            && ((forall t :: t in Flatten(nodes) ==> Matches(t)) ==>
                  && AllMatch(tasks)
                  && |out| == 5 * TaskCount(nodes) + 2
                  && forall k :: 0 <= k < |tasks| ==>
                       out[5 * k..5 * k + 5] == TaskSamples(tasks[k], IndexOf(tasks[k])))
  {
    UpIffSucceeded(tasks, None, elapsed);
    AllMatchMultiset(tasks);
    if AllMatch(tasks) {
      AllMatchedOutput(tasks, elapsed);
    }
  }

  /** Whether every task matches does not depend on the order of the tasks. */
  lemma AllMatchMultiset(tasks: seq<Task>)
    ensures AllMatch(tasks) <==> forall t :: t in multiset(tasks) ==> Matches(t)
  {
    if AllMatch(tasks) {
      forall t | t in multiset(tasks) ensures Matches(t) {
        var k :| 0 <= k < |tasks| && tasks[k] == t;
        assert Matches(tasks[k]);
      }
    } else {
      var k :| 0 <= k < |tasks| && !Matches(tasks[k]);
      assert tasks[k] in multiset(tasks);
    }
  }

  /** A reindex of `idx-a` with 100 documents, 40 updated, 40 created, running for two
      seconds, reported by a fetch that succeeded. */
  lemma SingleTaskExample(elapsed: real)
    ensures
      var task := Task(Status(100.0, 40.0, 40.0, 0.0, 3.0), "reindex from [idx-a] to [idx-a-new]", 0, 2_000_000_000);
      Collect([task], None, elapsed)
      == [ Sample(Total, Some("idx-a"), 100.0), Sample(Updated, Some("idx-a"), 40.0),
           Sample(Created, Some("idx-a"), 40.0), Sample(Deleted, Some("idx-a"), 0.0),
           Sample(Running, Some("idx-a"), 2.0), UpSample(1.0), DurationSample(elapsed) ]
  {
    var task := Task(Status(100.0, 40.0, 40.0, 0.0, 3.0), "reindex from [idx-a] to [idx-a-new]", 0, 2_000_000_000);
    ExampleTaskIndex(task);
    EmitStep(ExtractIndex, [task]);
    assert [task][1..] == [];
    assert Seconds(task.runningTimeInNanos) == 2.0;
  }

  /** The description used by the examples names `idx-a`. */
  lemma ExampleTaskIndex(task: Task)
    requires task.description == "reindex from [idx-a] to [idx-a-new]"
    ensures Matches(task) && IndexOf(task) == "idx-a"
  {
    IdxAExample();
  }

  /** An HTTP 503 from the cluster: `up = 0` and the duration only. */
  lemma UnavailableExample(body: BodyRead, elapsed: real)
    ensures Classify(HttpResponse(503, body)) == Err(BadStatus(503))
    ensures Collect([], Some(BadStatus(503)), elapsed) == [UpSample(0.0), DurationSample(elapsed)]
  {
  }

  /** A well-formed task followed by one whose description names no index: the first
      task's group, then `up = 0`, then the duration; the third task is never examined. */
  lemma AbortExample(good: Task, later: Task, elapsed: real)
    requires good.description == "reindex from [idx-a] to [idx-a-new]"
    ensures
      var bad := good.(description := "something unexpected");
      Collect([good, bad, later], None, elapsed)
      == TaskSamples(good, "idx-a") + [UpSample(0.0), DurationSample(elapsed)]
  {
    ExampleTaskIndex(good);
    UnexpectedExample();
    var bad := good.(description := "something unexpected");
    var tasks := [good, bad, later];
    EmitStep(ExtractIndex, tasks);
    assert tasks[1..] == [bad, later];
    assert EmitTasks(ExtractIndex, [bad, later]) == [UpSample(0.0)];
  }
}
