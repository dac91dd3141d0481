/**
 agents/orchestrator/index.ts: `handlePartialFailure` and `executeDAG`, in their own
 imperative form. Task nodes are objects whose status is updated in place.
 */
module Orchestrator {
  import opened TaskGraph
  import opened Wrappers

  datatype Status = Pending | Running | Completed | Failure

  class TaskNode {
    const id: string
    const dependsOn: seq<string>
    var status: Status
    var deliverable: Option<string>

    constructor (id: string, dependsOn: seq<string>)
      ensures this.id == id && this.dependsOn == dependsOn
      ensures status == Pending && deliverable == None
    {
      this.id, this.dependsOn, status, deliverable := id, dependsOn, Pending, None;
    }

    ghost function Progress(): Progress
      reads this
    {
      match status
      case Pending => Waiting
      case Running => Active
      case Completed => if deliverable.Some? then Done(deliverable.value) else Done("")
      case Failure => Failed
    }
  }

  /** A JavaScript Map of task nodes: `order` is its insertion order. */
  datatype TaskDag = TaskDag(order: seq<string>, nodes: map<string, TaskNode>) {
    ghost predicate Valid() {
      && (forall i, j :: 0 <= i < j < |order| ==> order[i] != order[j])
      && (forall k :: k in nodes <==> k in order)
      && (forall k :: k in nodes ==> nodes[k].id == k)
    }

    ghost function Graph(): Deps { map k | k in nodes :: nodes[k].dependsOn }

    ghost function View(): map<string, Progress>
      reads nodes.Values
    {
      map k | k in nodes :: nodes[k].Progress()
    }
  }

  lemma SizeOfOrder(s: seq<string>, keys: set<string>)
    requires forall i, j :: 0 <= i < j < |s| ==> s[i] != s[j]
    requires forall k :: k in keys <==> k in s
    ensures |keys| == |s|
  {
    if s == [] {
      assert keys == {};
    } else {
      var last := s[|s| - 1];
      SizeOfOrder(s[..|s| - 1], keys - {last});
    }
  }

  /** One pass over the map: adds tasks that depend on a member of the set grown so far. */
  method CollectPass(dag: TaskDag, failedTaskId: string, before: set<string>)
    returns (toFail: set<string>, changed: bool)
    requires dag.Valid() && failedTaskId in before
    requires forall k :: k in before ==> k in dag.nodes && Reaches(dag.Graph(), k, failedTaskId)
    ensures before <= toFail && (changed <==> before != toFail)
    ensures forall k :: k in toFail ==> k in dag.nodes && Reaches(dag.Graph(), k, failedTaskId)
    ensures !changed ==> forall x, d :: Edge(dag.Graph(), x, d) && d in toFail ==> x in toFail
  {
    hide Reaches;
    ghost var g := dag.Graph();
    toFail, changed := before, false;
    for n := 0 to |dag.order|
      invariant before <= toFail && (changed <==> before != toFail)
      invariant forall k :: k in toFail ==> k in dag.nodes && Reaches(g, k, failedTaskId)
      invariant !changed ==> forall m :: 0 <= m < n ==> NotBlamed(g, toFail, dag.order[m])
    {
      var id := dag.order[n];
      if id !in toFail && exists d :: d in dag.nodes[id].dependsOn && d in toFail {
        ghost var d :| d in dag.nodes[id].dependsOn && d in toFail;
        ReachesStep(g, id, d, failedTaskId);
        toFail := toFail + {id};
        changed := true;
      }
    }
    if !changed {
      forall x, d | Edge(g, x, d) && d in toFail ensures x in toFail {
        var m :| 0 <= m < |dag.order| && dag.order[m] == x;
        assert NotBlamed(g, toFail, dag.order[m]);
      }
    }
  }

  ghost predicate NotBlamed(g: Deps, toFail: set<string>, x: string) {
    forall d :: Edge(g, x, d) && d in toFail ==> x in toFail
  }

  /** The collecting loop: `toFail` grows until no task outside it depends on a member. */
  method CollectDependents(dag: TaskDag, failedTaskId: string) returns (toFail: set<string>)
    requires dag.Valid() && failedTaskId in dag.nodes
    ensures forall k :: k in toFail <==> k in dag.nodes && Reaches(dag.Graph(), k, failedTaskId)
  {
    hide Reaches;
    ghost var g := dag.Graph();
    ReachesSelf(g, failedTaskId);
    toFail := {failedTaskId};
    var changed := true;
    while changed
      invariant failedTaskId in toFail
      invariant forall k :: k in toFail ==> k in dag.nodes && Reaches(g, k, failedTaskId)
      invariant !changed ==> forall x, d :: Edge(g, x, d) && d in toFail ==> x in toFail
      decreases changed, |dag.nodes.Keys - toFail|
    {
      ghost var before := toFail;
      toFail, changed := CollectPass(dag, failedTaskId, toFail);
      if changed { GrowingLeavesFewer(dag.nodes.Keys, before, toFail); }
    }
    forall k | k in dag.nodes && Reaches(g, k, failedTaskId) ensures k in toFail {
      ClosedHoldsAllThatReach(g, toFail, k, failedTaskId);
    }
  }

  lemma ClosedHoldsAllThatReach(g: Deps, s: set<string>, k: string, target: string)
    requires Reaches(g, k, target) && target in s
    requires forall x, d :: Edge(g, x, d) && d in s ==> x in s
    ensures k in s
  {
    var p :| PathBetween(g, p, k, target);
    ClosedUnderDependents(g, s, p);
  }

  lemma GrowingLeavesFewer(all: set<string>, before: set<string>, after: set<string>)
    requires before < after <= all
    ensures |all - after| < |all - before|
  {
    SubsetSmaller(all - after, all - before);
  }

  lemma SubsetSmaller<T>(a: set<T>, b: set<T>)
    requires a < b
    ensures |a| < |b|
  {
    var x :| x in b && x !in a;
    SubsetNotLarger(a, b - {x});
  }

  lemma SubsetNotLarger<T>(a: set<T>, b: set<T>)
    requires a <= b
    ensures |a| <= |b|
  {
    if a != {} {
      var x :| x in a;
      SubsetNotLarger(a - {x}, b - {x});
    }
  }

  /** Assigns one node's status; distinct ids are distinct nodes, so no other task changes. */
  method SetStatus(dag: TaskDag, id: string, status: Status)
    requires dag.Valid() && id in dag.nodes && status != Completed
    modifies dag.nodes[id]
    ensures dag.View()
            == old(dag.View())[id := match status case Pending => Waiting case Running => Active case Failure => Failed]
  {
    dag.nodes[id].status := status;
    forall k | k in dag.nodes && k != id ensures dag.nodes[k].Progress() == old(dag.nodes[k].Progress()) {
      assert dag.nodes[k] != dag.nodes[id];
    }
  }

  /** Marks one task failed unless it is completed. */
  method FailUnlessCompleted(dag: TaskDag, id: string)
    requires dag.Valid() && id in dag.nodes
    modifies dag.nodes[id]
    ensures dag.View() == if old(dag.View())[id].Done? then old(dag.View()) else old(dag.View())[id := Failed]
  {
    if dag.nodes[id].status != Completed {
      SetStatus(dag, id, Failure);
    }
  }

  /** The marking loop over the collected set. */
  method FailAll(dag: TaskDag, ids: set<string>)
    requires dag.Valid() && ids <= dag.nodes.Keys
    modifies dag.nodes.Values
    ensures dag.View() == MarkedFailed(old(dag.View()), ids)
  {
    var rest := ids;
    ghost var v := dag.View();
    ghost var marked := {};
    while rest != {}
      invariant ids == rest + marked && rest !! marked
      invariant dag.View() == MarkedFailed(v, marked)
      decreases rest
    {
      var id :| id in rest;
      MarkOne(v, marked, id);
      FailUnlessCompleted(dag, id);
      rest, marked := rest - {id}, marked + {id};
    }
    assert marked == ids;
  }

  /** Marks the failed task and everything that transitively depends on it, sparing what is completed. */
  method HandlePartialFailure(dag: TaskDag, failedTaskId: string)
    requires dag.Valid() && failedTaskId in dag.nodes
    modifies dag.nodes.Values
    ensures dag.View() == FailDownstream(dag.Graph(), old(dag.View()), failedTaskId)
  {
    var toFail := CollectDependents(dag, failedTaskId);
    AllMarked(dag.Graph(), dag.View(), failedTaskId, toFail);
    FailAll(dag, toFail);
  }

  ghost function MarkedFailed(v: map<string, Progress>, ids: set<string>): map<string, Progress> {
    map k | k in v :: if k in ids && !v[k].Done? then Failed else v[k]
  }

  lemma MarkOne(v: map<string, Progress>, ids: set<string>, id: string)
    requires id in v && id !in ids
    ensures MarkedFailed(v, ids)[id] == v[id]
    ensures MarkedFailed(v, ids + {id}) == if v[id].Done? then MarkedFailed(v, ids)
            else MarkedFailed(v, ids)[id := Failed]
  {
  }

  lemma AllMarked(g: Deps, v: map<string, Progress>, failed: string, ids: set<string>)
    requires forall k :: k in ids <==> k in v && Reaches(g, k, failed)
    ensures MarkedFailed(v, ids) == FailDownstream(g, v, failed)
  {
  }

  // ---------- executing the graph ----------

  method IsReady(dag: TaskDag, node: TaskNode) returns (ready: bool)
    requires dag.Valid() && node.id in dag.nodes && dag.nodes[node.id] == node
    ensures ready <==> Ready(dag.Graph(), dag.View(), node.id)
  {
    if node.status != Pending { return false; }
    for n := 0 to |node.dependsOn|
      invariant forall m :: 0 <= m < n ==> node.dependsOn[m] in dag.nodes && dag.View()[node.dependsOn[m]].Done?
    {
      var dep := node.dependsOn[n];
      if dep !in dag.nodes || dag.nodes[dep].status != Completed {
        assert dep in dag.Graph()[node.id];
        return false;
      }
    }
    return true;
  }

  /** The first task of the map that is ready. */
  ghost predicate FirstReady(order: seq<string>, g: Deps, r: map<string, Progress>, id: string) {
    exists n :: 0 <= n < |order| && order[n] == id && Ready(g, r, id)
                && forall k :: 0 <= k < n ==> !Ready(g, r, order[k])
  }

  /** The ready tasks among some, in their order. */
  ghost function ReadyIn(order: seq<string>, g: Deps, r: map<string, Progress>): seq<string> {
    if order == [] then []
    else
      ReadyIn(order[..|order| - 1], g, r)
      + if Ready(g, r, order[|order| - 1]) then [order[|order| - 1]] else []
  }

  lemma {:induction false} ReadyInOrder(order: seq<string>, g: Deps, r: map<string, Progress>)
    ensures forall k :: k in ReadyIn(order, g, r) <==> k in order && Ready(g, r, k)
    ensures ReadyIn(order, g, r) != [] ==> FirstReady(order, g, r, ReadyIn(order, g, r)[0])
  {
    hide Ready;
    if order != [] {
      var n := |order| - 1;
      var front := order[..n];
      ReadyInOrder(front, g, r);
      assert order == front + [order[n]];
      if ReadyIn(front, g, r) != [] {
        var m :| 0 <= m < n && front[m] == ReadyIn(front, g, r)[0] && Ready(g, r, front[m])
                 && forall k :: 0 <= k < m ==> !Ready(g, r, front[k]);
        assert order[m] == front[m] && forall k :: 0 <= k < m ==> order[k] == front[k];
      } else if Ready(g, r, order[n]) {
        forall k | 0 <= k < n ensures !Ready(g, r, order[k]) { assert front[k] in front; }
      }
    }
  }

  lemma ReadyAreTasks(order: seq<string>, g: Deps, r: map<string, Progress>)
    requires forall k :: k in g ==> k in order
    ensures forall k :: Ready(g, r, k) ==> k in order
  {
  }

  /** Each task of `log` was the first ready one in the map when its turn came. */
  ghost predicate InMapOrder(order: seq<string>, g: Deps, attempt: Attempt, log: seq<string>) {
    log == [] || (InMapOrder(order, g, attempt, log[..|log| - 1])
                  && FirstReady(order, g, Replay(g, attempt, log[..|log| - 1]), log[|log| - 1]))
  }

  lemma MapOrderNext(order: seq<string>, g: Deps, attempt: Attempt, log: seq<string>, id: string)
    ensures InMapOrder(order, g, attempt, log + [id])
            <==> InMapOrder(order, g, attempt, log) && FirstReady(order, g, Replay(g, attempt, log), id)
    ensures InMapOrder(order, g, attempt, [])
  {
    assert (log + [id])[..|log + [id]| - 1] == log;
  }

  lemma {:induction false} MapOrderPrefix(order: seq<string>, g: Deps, attempt: Attempt, log: seq<string>, n: nat)
    requires InMapOrder(order, g, attempt, log) && n <= |log|
    ensures InMapOrder(order, g, attempt, log[..n])
    ensures n < |log| ==> FirstReady(order, g, Replay(g, attempt, log[..n]), log[n])
  {
    hide Replay, FirstReady;
    if n < |log| - 1 {
      MapOrderPrefix(order, g, attempt, log[..|log| - 1], n);
      assert log[..|log| - 1][..n] == log[..n];
    } else if n == |log| {
      assert log[..n] == log;
    }
  }

  lemma OneFirst(order: seq<string>, g: Deps, r: map<string, Progress>, a: string, b: string)
    requires FirstReady(order, g, r, a) && FirstReady(order, g, r, b)
    ensures a == b
  {
    hide Ready;
    var m :| 0 <= m < |order| && order[m] == a && Ready(g, r, a) && forall k :: 0 <= k < m ==> !Ready(g, r, order[k]);
    var n :| 0 <= n < |order| && order[n] == b && Ready(g, r, b) && forall k :: 0 <= k < n ==> !Ready(g, r, order[k]);
    assert m == n;
  }

  lemma {:induction false} SamePrefix(order: seq<string>, g: Deps, attempt: Attempt, a: seq<string>, b: seq<string>,
                                      n: nat)
    requires InMapOrder(order, g, attempt, a) && InMapOrder(order, g, attempt, b) && n <= |a| && n <= |b|
    ensures a[..n] == b[..n]
  {
    hide InMapOrder, Replay, FirstReady;
    if n > 0 {
      SamePrefix(order, g, attempt, a, b, n - 1);
      MapOrderPrefix(order, g, attempt, a, n - 1);
      MapOrderPrefix(order, g, attempt, b, n - 1);
      OneFirst(order, g, Replay(g, attempt, a[..n - 1]), a[n - 1], b[n - 1]);
      assert a[..n] == a[..n - 1] + [a[n - 1]] && b[..n] == b[..n - 1] + [b[n - 1]];
    }
  }

  lemma NotCut(order: seq<string>, g: Deps, attempt: Attempt, a: seq<string>, b: seq<string>)
    requires InMapOrder(order, g, attempt, a) && InMapOrder(order, g, attempt, b) && CompleteRun(g, attempt, a)
    ensures |a| >= |b|
  {
    hide InMapOrder, Replay, Ready, Schedule;
    if |a| < |b| {
      SamePrefix(order, g, attempt, a, b, |a|);
      assert a[..|a|] == a;
      MapOrderPrefix(order, g, attempt, b, |a|);
    }
  }

  /** Which tasks are tried, and in which order, is determined: a map has one complete run that
      always picks the first ready task. */
  lemma OneRun(order: seq<string>, g: Deps, attempt: Attempt, a: seq<string>, b: seq<string>)
    requires InMapOrder(order, g, attempt, a) && CompleteRun(g, attempt, a)
    requires InMapOrder(order, g, attempt, b) && CompleteRun(g, attempt, b)
    ensures a == b
  {
    hide *;
    NotCut(order, g, attempt, a, b);
    NotCut(order, g, attempt, b, a);
    SamePrefix(order, g, attempt, a, b, |a|);
    assert a[..|a|] == a && b[..|b|] == b;
  }

  /** All ready tasks, in map order. */
  method FindReady(dag: TaskDag) returns (ready: seq<string>)
    requires dag.Valid()
    ensures forall k :: k in ready <==> Ready(dag.Graph(), dag.View(), k)
    ensures ready != [] ==> FirstReady(dag.order, dag.Graph(), dag.View(), ready[0])
  {
    ghost var g, r := dag.Graph(), dag.View();
    hide Ready;
    ready := [];
    for n := 0 to |dag.order|
      invariant ready == ReadyIn(dag.order[..n], g, r)
    {
      assert dag.order[..n + 1][..n] == dag.order[..n];
      var isReady := IsReady(dag, dag.nodes[dag.order[n]]);
      if isReady { ready := ready + [dag.order[n]]; }
    }
    assert dag.order[..|dag.order|] == dag.order;
    ReadyAreTasks(dag.order, g, r);
    ReadyInOrder(dag.order, g, r);
  }

  /** Adds every finished task to `completed`; failed tasks must not block the loop. */
  method CollectFinished(dag: TaskDag, completed: set<string>) returns (all: set<string>)
    requires dag.Valid()
    ensures forall k ::
               k in all <==> k in completed || (k in dag.nodes && (dag.View()[k].Done? || dag.View()[k].Failed?))
  {
    all := completed;
    for n := 0 to |dag.order|
      invariant forall k :: k in all <==>
        k in completed || (k in dag.order[..n] && (dag.View()[k].Done? || dag.View()[k].Failed?))
    {
      assert dag.order[..n + 1] == dag.order[..n] + [dag.order[n]];
      var node := dag.nodes[dag.order[n]];
      if node.status == Completed || node.status == Failure { all := all + {dag.order[n]}; }
    }
    assert dag.order[..|dag.order|] == dag.order;
  }

  /** The upstream deliverables substituted into a task's description. */
  method UpstreamDeliverables(dag: TaskDag, node: TaskNode) returns (inputs: seq<string>)
    requires dag.Valid() && node.id in dag.nodes && dag.nodes[node.id] == node
    requires AllDone(dag.Graph(), dag.View(), node.id)
    ensures inputs == Inputs(dag.Graph(), dag.View(), node.id) && |inputs| == |node.dependsOn|
    ensures forall k :: 0 <= k < |inputs| ==> dag.View()[node.dependsOn[k]] == Done(inputs[k])
  {
    inputs := [];
    ghost var wanted := Inputs(dag.Graph(), dag.View(), node.id);
    for n := 0 to |node.dependsOn|
      invariant inputs == wanted[..n]
      invariant forall k :: 0 <= k < n ==> dag.View()[node.dependsOn[k]] == Done(inputs[k])
    {
      assert node.dependsOn[n] in dag.Graph()[node.id];
      var dep := dag.nodes[node.dependsOn[n]];
      inputs := inputs + [if dep.deliverable.Some? then dep.deliverable.value else ""];
      assert wanted[n] == dag.View()[node.dependsOn[n]].deliverable;
    }
  }

  method Deliver(dag: TaskDag, id: string, deliverable: string)
    requires dag.Valid() && id in dag.nodes
    modifies dag.nodes[id]
    ensures dag.View() == old(dag.View())[id := Done(deliverable)]
  {
    var task := dag.nodes[id];
    task.deliverable := Some(deliverable);
    task.status := Completed;
    forall k | k in dag.nodes && k != id ensures dag.nodes[k].Progress() == old(dag.nodes[k].Progress()) {
      assert dag.nodes[k] != task;
    }
  }

  lemma RunningIsOverwritten(g: Deps, r: map<string, Progress>, id: string)
    requires id in r && r[id].Waiting?
    ensures FailDownstream(g, r[id := Active], id) == FailDownstream(g, r, id)
  {
    ReachesSelf(g, id);
  }

  /** One iteration's work: run the task, then record its deliverable or spread its failure. */
  method RunTask(dag: TaskDag, attempt: Attempt, id: string) returns (delivered: bool)
    requires dag.Valid() && Ready(dag.Graph(), dag.View(), id)
    modifies dag.nodes.Values
    ensures dag.View() == Step(dag.Graph(), attempt, old(dag.View()), id)
    ensures delivered <==> attempt(id, Inputs(dag.Graph(), old(dag.View()), id)).Some?
  {
    ghost var r := dag.View();
    var inputs := UpstreamDeliverables(dag, dag.nodes[id]);
    SetStatus(dag, id, Running);
    match attempt(id, inputs)
    case None =>
      HandlePartialFailure(dag, id);
      delivered := false;
      RunningIsOverwritten(dag.Graph(), r, id);
    case Some(v) =>
      Deliver(dag, id, v);
      delivered := true;
      assert r[id := Active][id := Done(v)] == r[id := Done(v)];
  }

  ghost function WaitingIds(r: map<string, Progress>): set<string> { set k | k in r && r[k].Waiting? }

  lemma FewerWaiting(g: Deps, r: map<string, Progress>, q: map<string, Progress>, id: string)
    requires id in r && r[id].Waiting? && q.Keys == r.Keys && !q[id].Waiting?
    requires forall k :: k in r && !r[k].Waiting? ==> !q[k].Waiting?
    ensures |WaitingIds(q)| < |WaitingIds(r)|
  {
    assert id in WaitingIds(r) && id !in WaitingIds(q);
    SubsetSmaller(WaitingIds(q), WaitingIds(r));
  }

  lemma StepLeavesWaiting(g: Deps, attempt: Attempt, r: map<string, Progress>, id: string)
    requires Ready(g, r, id)
    ensures id in g && Step(g, attempt, r, id).Keys == r.Keys
    ensures |WaitingIds(Step(g, attempt, r, id))| < |WaitingIds(r)|
    ensures id !in WaitingIds(Step(g, attempt, r, id)) && WaitingIds(Step(g, attempt, r, id)) <= WaitingIds(r)
  {
    ReachesSelf(g, id);
    FewerWaiting(g, r, Step(g, attempt, r, id), id);
  }

  lemma NothingTriedYet(g: Deps, attempt: Attempt, r: map<string, Progress>)
    requires r.Keys == g.Keys && forall k :: k in r ==> r[k].Waiting?
    ensures Schedule(g, attempt, []) && r == Replay(g, attempt, [])
    ensures forall order :: InMapOrder(order, g, attempt, [])
  {
  }

  /** One iteration of the loop past its exit tests: try the first ready task, if any. */
  method Advance(dag: TaskDag, attempt: Attempt, log: seq<string>, completed: set<string>)
    returns (progressed: bool, newLog: seq<string>, newCompleted: set<string>)
    requires dag.Valid() && Schedule(dag.Graph(), attempt, log) && dag.View() == Replay(dag.Graph(), attempt, log)
    requires InMapOrder(dag.order, dag.Graph(), attempt, log)
    requires completed <= dag.nodes.Keys - WaitingIds(dag.View())
    modifies dag.nodes.Values
    ensures Schedule(dag.Graph(), attempt, newLog) && dag.View() == Replay(dag.Graph(), attempt, newLog)
    ensures InMapOrder(dag.order, dag.Graph(), attempt, newLog)
    ensures newCompleted <= dag.nodes.Keys - WaitingIds(dag.View())
    ensures progressed ==> |WaitingIds(dag.View())| < |WaitingIds(old(dag.View()))|
    ensures !progressed ==> CompleteRun(dag.Graph(), attempt, newLog) && dag.View() == old(dag.View())
    ensures !progressed ==> newLog == log && newCompleted == completed
  {
    hide Ready, Step, Replay, Schedule, WaitingIds, InMapOrder, FirstReady;
    ghost var g, r := dag.Graph(), dag.View();
    newLog, newCompleted := log, completed;
    var ready := FindReady(dag);
    progressed := |ready| > 0;
    if progressed {
      var id := ready[0];
      assert id in ready;
      ExtendRun(g, attempt, log, id);
      MapOrderNext(dag.order, g, attempt, log, id);
      StepLeavesWaiting(g, attempt, r, id);
      var delivered := RunTask(dag, attempt, id);
      if delivered { newCompleted := completed + {id}; }
      newLog := log + [id];
    }
  }

  ghost predicate SomeWaiting(r: map<string, Progress>) { exists k :: k in r && r[k].Waiting? }

  /** Runs the whole graph. It terminates on every graph, cyclic ones included; `log` is the
      order in which tasks were tried, always the first ready one of the map, and the statuses are
      those of that complete run. It gives
      up as stalled exactly when some task is left waiting, hence never on an acyclic graph
      without missing dependencies. */
  method ExecuteDag(dag: TaskDag, attempt: Attempt) returns (log: seq<string>, stalled: bool)
    requires dag.Valid()
    requires forall k :: k in dag.nodes ==> dag.nodes[k].status == Pending
    modifies dag.nodes.Values
    ensures CompleteRun(dag.Graph(), attempt, log) && InMapOrder(dag.order, dag.Graph(), attempt, log)
    ensures dag.View() == Replay(dag.Graph(), attempt, log)
    ensures stalled <==> SomeWaiting(dag.View())
    ensures AcyclicAndClosed(dag.Graph()) ==> !stalled
  {
    var completed := {};
    var iterationsWithoutProgress := 0;
    var maxStall := |dag.order| + 1;
    log, stalled := [], false;
    ghost var g := dag.Graph();
    NothingTriedYet(g, attempt, dag.View());
    hide Schedule, Replay, CompleteRun, WaitingIds, SomeWaiting, AcyclicAndClosed, InMapOrder, Ready, Step;
    while |completed| < |dag.order|
      invariant Schedule(g, attempt, log) && dag.View() == Replay(g, attempt, log)
      invariant InMapOrder(dag.order, g, attempt, log)
      invariant completed <= dag.nodes.Keys - WaitingIds(dag.View())
      invariant iterationsWithoutProgress <= maxStall
      decreases |WaitingIds(dag.View())|, maxStall - iterationsWithoutProgress
    {
      completed := CollectAll(dag, completed);
      if |completed| == |dag.order| { break; }
      StalledMeansWaiting(dag, attempt, log, dag.View(), completed);
      var progressed;
      progressed, log, completed := Advance(dag, attempt, log, completed);
      if progressed {
        iterationsWithoutProgress := 0;
      } else {
        iterationsWithoutProgress := iterationsWithoutProgress + 1;
        if iterationsWithoutProgress > maxStall {
          AcyclicHasNoWaiting(g, attempt, log);
          return log, true;
        }
      }
    }
    NothingLeft(dag, attempt, log, dag.View(), completed);
  }

  /** The collecting part of an iteration. */
  method CollectAll(dag: TaskDag, completed: set<string>) returns (all: set<string>)
    requires dag.Valid() && completed <= dag.nodes.Keys - WaitingIds(dag.View())
    ensures all <= dag.nodes.Keys - WaitingIds(dag.View())
    ensures forall k :: k in dag.nodes && (dag.View()[k].Done? || dag.View()[k].Failed?) ==> k in all
  {
    all := CollectFinished(dag, completed);
  }

  /** While not every task is collected, some task is waiting: none is left running. */
  lemma StalledMeansWaiting(dag: TaskDag, attempt: Attempt, log: seq<string>, r: map<string, Progress>,
                            completed: set<string>)
    requires dag.Valid() && Schedule(dag.Graph(), attempt, log) && r == Replay(dag.Graph(), attempt, log)
    requires completed <= dag.nodes.Keys && |completed| != |dag.order|
    requires forall k :: k in dag.nodes && k in r && (r[k].Done? || r[k].Failed?) ==> k in completed
    ensures SomeWaiting(r)
  {
    EveryRunConsistent(dag.Graph(), attempt, log);
    hide Schedule, Replay, CompletedOk, FailedOk, LogOk;
    SizeOfOrder(dag.order, dag.nodes.Keys);
    var k := MissingElement(completed, dag.nodes.Keys);
    assert k in r && r[k].Waiting?;
  }

  lemma MissingElement(a: set<string>, b: set<string>) returns (x: string)
    requires a <= b && |a| != |b|
    ensures x in b && x !in a
  {
    var rest := b - a;
    assert b == a + rest;
    assert rest != {};
    x :| x in rest;
  }

  lemma AcyclicHasNoWaiting(g: Deps, attempt: Attempt, log: seq<string>)
    requires CompleteRun(g, attempt, log)
    ensures AcyclicAndClosed(g) ==> !SomeWaiting(Replay(g, attempt, log))
  {
    EveryRunConsistent(g, attempt, log);
    hide AcyclicAndClosed, Consistent, Replay, Schedule;
    if AcyclicAndClosed(g) {
      AcyclicNeverStalls(g, attempt, log, Replay(g, attempt, log));
      assert Replay(g, attempt, log).Keys == g.Keys by { KeysOfRun(g, attempt, log); }
    }
  }

  lemma KeysOfRun(g: Deps, attempt: Attempt, log: seq<string>)
    requires Consistent(g, attempt, log, Replay(g, attempt, log))
    ensures Replay(g, attempt, log).Keys == g.Keys
  {
    hide Replay;
  }

  lemma NothingLeft(dag: TaskDag, attempt: Attempt, log: seq<string>, r: map<string, Progress>, completed: set<string>)
    requires dag.Valid() && Schedule(dag.Graph(), attempt, log) && r == Replay(dag.Graph(), attempt, log)
    requires completed <= dag.nodes.Keys - WaitingIds(r) && |completed| >= |dag.order|
    ensures CompleteRun(dag.Graph(), attempt, log) && !SomeWaiting(r)
  {
    EveryRunConsistent(dag.Graph(), attempt, log);
    KeysOfRun(dag.Graph(), attempt, log);
    hide Schedule, Replay, Consistent;
    SizeOfOrder(dag.order, dag.nodes.Keys);
    AllFinished(completed, dag.nodes.Keys);
    assert forall k :: k in r ==> k in completed;
  }

  lemma AllFinished(completed: set<string>, all: set<string>)
    requires completed <= all && |completed| >= |all|
    ensures completed == all
  {
    if completed < all { SubsetSmaller(completed, all); }
  }

  // ---------- planning ----------

  /** Every task depends on tasks before it only. */
  ghost predicate DependsBack(order: seq<string>, g: Deps) {
    && (forall k :: k in g <==> k in order)
    && (forall i, j :: 0 <= i < j < |order| ==> order[i] != order[j])
    && (forall i, d :: 0 <= i < |order| && d in g[order[i]] ==> d in order[..i])
  }

  lemma DependsBackNext(order: seq<string>, g: Deps, id: string, dependsOn: seq<string>)
    requires DependsBack(order, g) && id !in order && forall d :: d in dependsOn ==> d in order
    ensures DependsBack(order + [id], g[id := dependsOn])
  {
    var o, h := order + [id], g[id := dependsOn];
    forall i, d | 0 <= i < |o| && d in h[o[i]] ensures d in o[..i] {
      if i < |order| {
        assert o[..i] == order[..i] && order[i] in order;
      } else {
        assert o[..i] == order;
      }
    }
  }

  /** `Map.set` with a new task. */
  method SetTask(dag: TaskDag, id: string, dependsOn: seq<string>) returns (more: TaskDag)
    requires dag.Valid() && id !in dag.order
    ensures more.Valid() && more.order == dag.order + [id] && more.nodes.Keys == dag.nodes.Keys + {id}
    ensures (forall k :: k in dag.nodes ==> more.nodes[k] == dag.nodes[k]) && fresh(more.nodes[id])
    ensures more.Graph() == dag.Graph()[id := dependsOn] && more.nodes[id].status == Pending
  {
    var node := new TaskNode(id, dependsOn);
    more := TaskDag(dag.order + [id], dag.nodes[id := node]);
  }

  predicate Includes(text: string, word: string) { exists i :: 0 <= i <= |text| && word <= text[i..] }

  /** A task to plan: its id and what it depends on. */
  datatype Planned = Planned(id: string, dependsOn: seq<string>)

  /** The tasks for a goal given in lower case, each but the first depending on the one before it. */
  function TasksFor(lower: string): seq<Planned> {
    if Includes(lower, "launch") && Includes(lower, "product") then
      [Planned("name", []), Planned("copy", ["name"]), Planned("web", ["copy"])]
    else if Includes(lower, "research") || Includes(lower, "analyse") || Includes(lower, "analyze") then
      [Planned("research", []), Planned("report", ["research"])]
    else [Planned("task-1", []), Planned("task-2", ["task-1"]), Planned("task-3", ["task-2"])]
  }

  function Ids(tasks: seq<Planned>): (ids: seq<string>)
    ensures |ids| == |tasks| && forall i :: 0 <= i < |ids| ==> ids[i] == tasks[i].id
  {
    seq(|tasks|, i requires 0 <= i < |tasks| => tasks[i].id)
  }

  ghost function GraphOf(tasks: seq<Planned>): Deps {
    if tasks == [] then map[]
    else GraphOf(tasks[..|tasks| - 1])[tasks[|tasks| - 1].id := tasks[|tasks| - 1].dependsOn]
  }

  ghost predicate Backwards(tasks: seq<Planned>) {
    && (forall i, j :: 0 <= i < j < |tasks| ==> tasks[i].id != tasks[j].id)
    && (forall i, d :: 0 <= i < |tasks| && d in tasks[i].dependsOn ==> d in Ids(tasks)[..i])
  }

  lemma {:induction false} BackwardsDependsBack(tasks: seq<Planned>)
    requires Backwards(tasks)
    ensures DependsBack(Ids(tasks), GraphOf(tasks))
  {
    if tasks != [] {
      var n := |tasks| - 1;
      var front := tasks[..n];
      assert Ids(front) == Ids(tasks)[..n] && Ids(tasks) == Ids(front) + [tasks[n].id];
      assert forall i :: 0 <= i < n ==> Ids(front)[..i] == Ids(tasks)[..i];
      BackwardsDependsBack(front);
      hide DependsBack, GraphOf;
      assert GraphOf(tasks) == GraphOf(front)[tasks[n].id := tasks[n].dependsOn] by { GraphOfLast(tasks); }
      DependsBackNext(Ids(front), GraphOf(front), tasks[n].id, tasks[n].dependsOn);
    }
  }

  lemma GraphOfLast(tasks: seq<Planned>)
    requires tasks != []
    ensures GraphOf(tasks) == GraphOf(tasks[..|tasks| - 1])[tasks[|tasks| - 1].id := tasks[|tasks| - 1].dependsOn]
  {
  }

  /** No goal is planned with a cycle or a missing dependency, so no planned graph ever stalls. */
  lemma PlansAreAcyclic(lower: string)
    ensures Backwards(TasksFor(lower)) && AcyclicAndClosed(GraphOf(TasksFor(lower)))
  {
    var tasks := TasksFor(lower);
    hide Includes;
    assert forall i :: 0 < i < |tasks| ==> tasks[i].dependsOn == [tasks[i - 1].id];
    assert tasks[0].dependsOn == [];
    forall i, d | 0 <= i < |tasks| && d in tasks[i].dependsOn ensures d in Ids(tasks)[..i] {
      assert d == Ids(tasks)[..i][i - 1];
    }
    hide TasksFor;
    BackwardsDependsBack(tasks);
    BackwardsIsAcyclic(Ids(tasks), GraphOf(tasks));
  }

  lemma PlannedNext(tasks: seq<Planned>, n: nat)
    requires Backwards(tasks) && n < |tasks|
    ensures tasks[n].id !in Ids(tasks)[..n] && Ids(tasks)[..n + 1] == Ids(tasks)[..n] + [tasks[n].id]
    ensures GraphOf(tasks[..n + 1]) == GraphOf(tasks[..n])[tasks[n].id := tasks[n].dependsOn]
  {
    assert tasks[..n + 1][..n] == tasks[..n];
  }

  lemma AllPlanned(tasks: seq<Planned>)
    ensures Ids(tasks)[..|tasks|] == Ids(tasks) && tasks[..|tasks|] == tasks
    ensures Ids(tasks)[..0] == [] && GraphOf(tasks[..0]) == map[]
  {
  }

  /** The map of tasks planned for a goal, set one after the other. */
  method PlanTasks(lower: string) returns (dag: TaskDag)
    ensures dag.Valid() && forall k :: k in dag.nodes ==> fresh(dag.nodes[k]) && dag.nodes[k].status == Pending
    ensures dag.order == Ids(TasksFor(lower)) && dag.Graph() == GraphOf(TasksFor(lower))
    ensures AcyclicAndClosed(dag.Graph())
  {
    PlansAreAcyclic(lower);
    var tasks := TasksFor(lower);
    AllPlanned(tasks);
    hide TasksFor, AcyclicAndClosed, DependsBack, Backwards, GraphOf, Ids;
    dag := TaskDag([], map[]);
    assert dag.Graph() == map[];
    for n := 0 to |tasks|
      invariant dag.Valid()
      invariant forall k :: k in dag.nodes ==> fresh(dag.nodes[k]) && dag.nodes[k].status == Pending
      invariant dag.order == Ids(tasks)[..n] && dag.Graph() == GraphOf(tasks[..n])
    {
      PlannedNext(tasks, n);
      dag := SetTask(dag, tasks[n].id, tasks[n].dependsOn);
    }
  }

  /** A graph whose tasks, in some order, depend on earlier ones only has no cycle. */
  lemma BackwardsIsAcyclic(order: seq<string>, g: Deps)
    requires DependsBack(order, g)
    ensures AcyclicAndClosed(g)
  {
    forall x, d | Edge(g, x, d) ensures d in g {
      var i :| 0 <= i < |order| && order[i] == x;
      assert d in order[..i];
    }
    forall x | x in g ensures !OnCycle(g, x) {
      if OnCycle(g, x) {
        var p :| PathBetween(g, p, x, x) && |p| >= 2;
        var i :| 0 <= i < |order| && order[i] == x;
        Descends(order, g, p, i);
      }
    }
  }

  /** Along a path positions go down. */
  lemma {:induction false} Descends(order: seq<string>, g: Deps, p: seq<string>, i: nat)
    requires DependsBack(order, g) && IsPath(g, p) && |p| >= 2 && i < |order| && order[i] == p[0]
    ensures p[|p| - 1] in order[..i]
  {
    assert Edge(g, p[0], p[1]);
    var j :| 0 <= j < i && order[j] == p[1];
    if |p| > 2 {
      forall k | 0 <= k < |p[1..]| - 1 ensures Edge(g, p[1..][k], p[1..][k + 1]) { assert Edge(g, p[k + 1], p[k + 2]); }
      Descends(order, g, p[1..], j);
      assert order[..j] <= order[..i];
    }
  }
}
