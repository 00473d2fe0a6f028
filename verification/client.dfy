/** The Elasticsearch task client: one GET of the task-status endpoint, classification
    of every way it can fail, and flattening of the decoded `nodes -> tasks` maps into
    one list of tasks.

    The network, reading the body and JSON decoding are not modelled: `Tasks` receives
    the transport as a function from URL to an abstract `HttpOutcome`, whose parts say
    whether the request, the body read and the decoding succeeded. */
module Client {
  import opened Wrappers

  /** Signed 64-bit integers, the width of the source's `int64` fields. */
  newtype Int64 = x: int | -0x8000_0000_0000_0000 <= x < 0x8000_0000_0000_0000

  /** The `status` object of a task; the source decodes each counter as a float64. */
  datatype Status = Status(total: real, updated: real, created: real, deleted: real, batches: real)

  /** One running reindex task as reported by the cluster. */
  datatype Task = Task(
    status: Status,
    description: string,
    startTimeInMillis: Int64,
    runningTimeInNanos: Int64)

  /** One cluster node's entry: its tasks by task id. */
  datatype Node = Node(tasks: map<string, Task>)

  /** The decoded response document (`Result` in the source): the nodes by node id. */
  datatype TasksDocument = TasksDocument(nodes: map<string, Node>)

  /** What JSON decoding of the body produced. */
  datatype Decoding = DecodeFailed | Decoded(document: TasksDocument)

  /** What reading the response body produced. */
  datatype BodyRead = ReadFailed | BodyBytes(decoding: Decoding)

  /** What the HTTP GET produced: a transport error, or a response with a status code. */
  datatype HttpOutcome = TransportFailed | HttpResponse(statusCode: int, body: BodyRead)

  /** The four failures the client distinguishes; the caller only sees that one happened. */
  datatype FetchError = GetFailed | BadStatus(statusCode: int) | ReadError | DecodeError

  /** The query appended to the configured base URL. */
  const TasksPath: string := "/_tasks?pretty&detailed=true&actions=*reindex"

  /** The request succeeded at every stage: transport, status 200, body read, decoding. */
  predicate Succeeded(response: HttpOutcome) {
    && response.HttpResponse?
    && response.statusCode == 200
    && response.body.BodyBytes?
    && response.body.decoding.Decoded?
  }

  /** The error checks of `Tasks`, in the order the source performs them: transport,
      status, body read, decoding. */
  function Classify(response: HttpOutcome): (r: Result<TasksDocument, FetchError>)
    ensures r.Ok? <==> Succeeded(response)
    ensures r.Ok? ==> r.value == response.body.decoding.document
    ensures response.TransportFailed? ==> r == Err(GetFailed)
    ensures r == Err(ReadError) ==> response.HttpResponse? && response.statusCode == 200
    ensures r == Err(DecodeError) ==> response.HttpResponse? && response.statusCode == 200 && response.body.BodyBytes?
  {
    match response
    case TransportFailed => Err(GetFailed)
    case HttpResponse(code, body) =>
      if code != 200 then Err(BadStatus(code))
      else match body
        case ReadFailed => Err(ReadError)
        case BodyBytes(DecodeFailed) => Err(DecodeError)
        case BodyBytes(Decoded(document)) => Ok(document)
  }

  /** A status other than 200 is an error whatever the body holds: the body is never
      looked at, so two responses that differ only in their bodies classify alike. */
  lemma StatusCheckedBeforeBody(code: int, body1: BodyRead, body2: BodyRead)
    requires code != 200
    ensures Classify(HttpResponse(code, body1)) == Classify(HttpResponse(code, body2)) == Err(BadStatus(code))
  {
  }

  /** Some key of a non-empty map, the same one every time for the same map. */
  ghost function PickKey<V>(m: map<string, V>): (k: string)
    requires m != map[]
    ensures k in m
  {
    var k :| k in m; k
  }

  /** The values of a task map, with multiplicity. */
  ghost function Values(m: map<string, Task>): multiset<Task>
    decreases |m|
  {
    if m == map[] then multiset{}
    else
      var k := PickKey(m);
      multiset{m[k]} + Values(m - {k})
  }

  /** All tasks of all nodes, with multiplicity. */
  ghost function Flatten(nodes: map<string, Node>): multiset<Task>
    decreases |nodes|
  {
    if nodes == map[] then multiset{}
    else
      var n := PickKey(nodes);
      Values(nodes[n].tasks) + Flatten(nodes - {n})
  }

  /** The sum of the sizes of the nodes' task maps. */
  ghost function TaskCount(nodes: map<string, Node>): nat
    decreases |nodes|
  {
    if nodes == map[] then 0
    else
      var n := PickKey(nodes);
      |nodes[n].tasks| + TaskCount(nodes - {n})
  }

  /** `Values` may peel off any key, not only the one it picks itself. */
  lemma {:induction false} ValuesRemove(m: map<string, Task>, k: string)
    requires k in m
    ensures Values(m) == multiset{m[k]} + Values(m - {k})
    decreases |m|
  {
    var p := PickKey(m);
    if p != k {
      var both := m - {p} - {k};
      assert m - {k} - {p} == both;
      ValuesRemove(m - {p}, k);
      assert Values(m - {p}) == multiset{m[k]} + Values(both);
      ValuesRemove(m - {k}, p);
      assert Values(m - {k}) == multiset{m[p]} + Values(both);
      assert Values(m) == multiset{m[p]} + Values(m - {p});
    }
  }

  /** `Flatten` may peel off any node, not only the one it picks itself. */
  lemma {:induction false} FlattenRemove(nodes: map<string, Node>, n: string)
    requires n in nodes
    ensures Flatten(nodes) == Values(nodes[n].tasks) + Flatten(nodes - {n})
    decreases |nodes|
  {
    var p := PickKey(nodes);
    if p != n {
      var both := nodes - {p} - {n};
      assert nodes - {n} - {p} == both;
      FlattenRemove(nodes - {p}, n);
      assert Flatten(nodes - {p}) == Values(nodes[n].tasks) + Flatten(both);
      FlattenRemove(nodes - {n}, p);
      assert Flatten(nodes - {n}) == Values(nodes[p].tasks) + Flatten(both);
      assert Flatten(nodes) == Values(nodes[p].tasks) + Flatten(nodes - {p});
    }
  }

  /** Adding a fresh id to a task map adds its task to the values. */
  lemma ValuesInsert(m: map<string, Task>, id: string, t: Task)
    requires id !in m
    ensures Values(m[id := t]) == Values(m) + multiset{t}
  {
    ValuesRemove(m[id := t], id);
    assert m[id := t] - {id} == m;
  }

  /** A task map holds one value per key. */
  lemma {:induction false} ValuesSize(m: map<string, Task>)
    ensures |Values(m)| == |m|
    decreases |m|
  {
    if m != map[] {
      ValuesSize(m - {PickKey(m)});
    }
  }

  /** The flattened collection has as many tasks as all task maps together. */
  lemma {:induction false} FlattenSize(nodes: map<string, Node>)
    ensures |Flatten(nodes)| == TaskCount(nodes)
    decreases |nodes|
  {
    if nodes != map[] {
      var n := PickKey(nodes);
      ValuesSize(nodes[n].tasks);
      FlattenSize(nodes - {n});
    }
  }

  /** A task is among the values of a map exactly when some key maps to it. */
  lemma {:induction false} ValuesMembers(m: map<string, Task>, t: Task)
    ensures t in Values(m) <==> exists id :: id in m && m[id] == t
    decreases |m|
  {
    if m != map[] {
      var k := PickKey(m);
      ValuesMembers(m - {k}, t);
      assert Values(m) == multiset{m[k]} + Values(m - {k});
      if t in Values(m - {k}) {
        var id :| id in m - {k} && (m - {k})[id] == t;
        assert id in m && m[id] == t;
      }
      if exists id :: id in m && m[id] == t {
        var id :| id in m && m[id] == t;
        if id != k {
          assert id in m - {k} && (m - {k})[id] == t;
        }
      }
    }
  }

  /** The ids under which a task map holds `t`. */
  ghost function IdsOf(m: map<string, Task>, t: Task): set<string> {
    set id | id in m && m[id] == t
  }

  /** A task occurs among a map's values once for every id that holds it, so equal tasks
      under different ids are all kept. */
  lemma {:induction false} ValuesCount(m: map<string, Task>, t: Task)
    ensures Values(m)[t] == |IdsOf(m, t)|
    decreases |m|
  {
    if m == map[] {
      assert IdsOf(m, t) == {};
    } else {
      var k := PickKey(m);
      ValuesCount(m - {k}, t);
      assert Values(m) == multiset{m[k]} + Values(m - {k});
      if m[k] == t {
        assert IdsOf(m, t) == IdsOf(m - {k}, t) + {k};
        assert k !in IdsOf(m - {k}, t);
      } else {
        assert IdsOf(m, t) == IdsOf(m - {k}, t);
      }
    }
  }

  /** The (node id, task id) pairs under which the nodes hold `t`. */
  ghost function Holders(nodes: map<string, Node>, t: Task): set<(string, string)> {
    set n, id | n in nodes && id in nodes[n].tasks && nodes[n].tasks[id] == t :: (n, id)
  }

  /** The ids of `ids`, each paired with node id `n`. */
  ghost function Tagged(n: string, ids: set<string>): set<(string, string)> {
    set id | id in ids :: (n, id)
  }

  /** Tagging every id of a set with the same node id keeps the set's size. */
  lemma {:induction false} TaggedSize(n: string, ids: set<string>)
    ensures |Tagged(n, ids)| == |ids|
    decreases |ids|
  {
    if ids != {} {
      var x :| x in ids;
      TaggedSize(n, ids - {x});
      assert Tagged(n, ids) == Tagged(n, ids - {x}) + {(n, x)};
    }
  }

  /** The holders of `t` split into those on node `p` and those on the other nodes. */
  lemma HoldersSplit(nodes: map<string, Node>, p: string, t: Task)
    requires p in nodes
    ensures Holders(nodes, t) == Tagged(p, IdsOf(nodes[p].tasks, t)) + Holders(nodes - {p}, t)
    ensures Tagged(p, IdsOf(nodes[p].tasks, t)) !! Holders(nodes - {p}, t)
  {
    var here := Tagged(p, IdsOf(nodes[p].tasks, t));
    var rest := Holders(nodes - {p}, t);
    forall h | h in Holders(nodes, t) ensures h in here + rest {
      if h.0 == p {
        assert h.1 in IdsOf(nodes[p].tasks, t);
      } else {
        assert h.0 in nodes - {p};
      }
    }
  }

  /** A task occurs in the flattened collection once for every (node, id) pair that holds
      it. */
  lemma {:induction false} FlattenCount(nodes: map<string, Node>, t: Task)
    ensures Flatten(nodes)[t] == |Holders(nodes, t)|
    decreases |nodes|
  {
    if nodes == map[] {
      assert Holders(nodes, t) == {};
    } else {
      var p := PickKey(nodes);
      FlattenCount(nodes - {p}, t);
      ValuesCount(nodes[p].tasks, t);
      TaggedSize(p, IdsOf(nodes[p].tasks, t));
      HoldersSplit(nodes, p, t);
      assert Flatten(nodes) == Values(nodes[p].tasks) + Flatten(nodes - {p});
    }
  }

  /** Nothing added, nothing dropped: a task is in the flattened collection exactly when
      some node's task map holds it. */
  lemma {:induction false} FlattenMembers(nodes: map<string, Node>, t: Task)
    ensures t in Flatten(nodes) <==> exists n, id :: n in nodes && id in nodes[n].tasks && nodes[n].tasks[id] == t
    decreases |nodes|
  {
    if nodes != map[] {
      var p := PickKey(nodes);
      FlattenMembers(nodes - {p}, t);
      ValuesMembers(nodes[p].tasks, t);
      if t in Flatten(nodes - {p}) {
        var n, id :| n in nodes - {p} && id in (nodes - {p})[n].tasks && (nodes - {p})[n].tasks[id] == t;
        assert n in nodes && id in nodes[n].tasks && nodes[n].tasks[id] == t;
      }
      if exists n, id :: n in nodes && id in nodes[n].tasks && nodes[n].tasks[id] == t {
        var n, id :| n in nodes && id in nodes[n].tasks && nodes[n].tasks[id] == t;
        if n != p {
          assert n in nodes - {p} && id in (nodes - {p})[n].tasks;
        }
      }
    }
  }

  /** The inner `range` loop of the source: every task of one node appended to `acc`, in
      an order the model leaves open (Go's map order is unspecified). */
  method AppendTasks(acc: seq<Task>, m: map<string, Task>) returns (tasks: seq<Task>)
    ensures multiset(tasks) == multiset(acc) + Values(m)
    ensures |acc| <= |tasks| && tasks[..|acc|] == acc
  {
    tasks := acc;
    var pending := m;
    while pending != map[]
      invariant multiset(tasks) + Values(pending) == multiset(acc) + Values(m)
      invariant |acc| <= |tasks| && tasks[..|acc|] == acc
      decreases |pending|
    {
      var id :| id in pending;
      var t := pending[id];
      ValuesRemove(pending, id);
      assert multiset(tasks + [t]) == multiset(tasks) + multiset{t};
      assert (tasks + [t])[..|acc|] == tasks[..|acc|];
      tasks := tasks + [t];
      pending := pending - {id};
    }
  }

  /** The two nested `range` loops of the source: every task of every node appended to one
      list, nodes visited in an order the model leaves open. */
  method FlattenNodes(nodes: map<string, Node>) returns (tasks: seq<Task>)
    ensures multiset(tasks) == Flatten(nodes)
    ensures |tasks| == TaskCount(nodes)
  {
    tasks := [];
    var rest := nodes;
    while rest != map[]
      invariant multiset(tasks) + Flatten(rest) == Flatten(nodes)
      decreases |rest|
    {
      var n :| n in rest;
      FlattenRemove(rest, n);
      tasks := AppendTasks(tasks, rest[n].tasks);
      rest := rest - {n};
    }
    FlattenSize(nodes);
  }

  /** `(*client).Tasks`: GET `baseURL + TasksPath` through `get`, then either the error
      (with no tasks) or every task of every node. */
  method Tasks(baseURL: string, get: string -> HttpOutcome) returns (tasks: seq<Task>, err: Option<FetchError>)
    ensures err.Some? <==> !Succeeded(get(baseURL + TasksPath))
    ensures err.Some? ==> tasks == [] && Classify(get(baseURL + TasksPath)) == Err(err.value)
    ensures err.None? ==>
              var nodes := get(baseURL + TasksPath).body.decoding.document.nodes;
              multiset(tasks) == Flatten(nodes) && |tasks| == TaskCount(nodes)
  {
    var response := get(baseURL + TasksPath);
    match Classify(response)
    case Err(e) =>
      tasks, err := [], Some(e);
    case Ok(document) =>
      tasks := FlattenNodes(document.nodes);
      err := None;
  }

  /** An empty `nodes` map is a success with no tasks. */
  lemma NoNodesNoTasks()
    ensures Flatten(map[]) == multiset{} && TaskCount(map[]) == 0
  {
  }
}
