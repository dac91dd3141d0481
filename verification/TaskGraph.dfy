/**
 Values and theory behind the orchestrator's task graph: reachability along `dependsOn`,
 what one executed task does to the statuses, and why the outcome of a whole execution is
 a function of the graph and the tasks' own attempts.
 */
module TaskGraph {
  import opened Wrappers

  /** Task id to the ids it depends on, in declaration order. */
  type Deps = map<string, seq<string>>

  /** What a task's `status` and `deliverable` say together. */
  datatype Progress = Waiting | Active | Done(deliverable: string) | Failed

  /** One attempt at a task: provider lookup, escrow and polling, given the deliverables of its
      dependencies (they are all the attempt learns from other tasks). None is any failure. */
  type Attempt = (string, seq<string>) -> Option<string>

  // ---------- reachability ----------

  ghost predicate Edge(g: Deps, x: string, y: string) { x in g && y in g[x] }

  ghost predicate IsPath(g: Deps, p: seq<string>) {
    |p| >= 1 && forall i :: 0 <= i < |p| - 1 ==> Edge(g, p[i], p[i + 1])
  }

  ghost predicate PathBetween(g: Deps, p: seq<string>, x: string, y: string) {
    IsPath(g, p) && p[0] == x && p[|p| - 1] == y
  }

  /** `y` is `x` or one of its transitive dependencies. */
  ghost predicate Reaches(g: Deps, x: string, y: string) {
    exists p :: PathBetween(g, p, x, y)
  }

  ghost predicate OnCycle(g: Deps, x: string) {
    exists p :: PathBetween(g, p, x, x) && |p| >= 2
  }

  /** Every transitive dependency of `x` exists and none of them lies on a cycle. */
  ghost predicate WellFounded(g: Deps, x: string) {
    forall y :: Reaches(g, x, y) ==> y in g && !OnCycle(g, y)
  }

  lemma ReachesSelf(g: Deps, x: string)
    ensures Reaches(g, x, x)
  {
    assert PathBetween(g, [x], x, x);
  }

  lemma ReachesStep(g: Deps, x: string, d: string, y: string)
    requires Edge(g, x, d) && Reaches(g, d, y)
    ensures Reaches(g, x, y)
  {
    var p :| PathBetween(g, p, d, y);
    assert PathBetween(g, [x] + p, x, y);
  }

  lemma ReachesSplit(g: Deps, x: string, y: string) returns (d: string)
    requires Reaches(g, x, y) && x != y
    ensures Edge(g, x, d) && Reaches(g, d, y)
  {
    var p :| PathBetween(g, p, x, y);
    d := p[1];
    assert Edge(g, p[0], p[1]);
    forall i | 0 <= i < |p[1..]| - 1 ensures Edge(g, p[1..][i], p[1..][i + 1]) {
      assert Edge(g, p[i + 1], p[i + 2]);
    }
    assert PathBetween(g, p[1..], d, y);
  }

  lemma ReachesTransitive(g: Deps, x: string, y: string, z: string)
    requires Reaches(g, x, y) && Reaches(g, y, z)
    ensures Reaches(g, x, z)
  {
    var p :| PathBetween(g, p, x, y);
    var q :| PathBetween(g, q, y, z);
    var r := p + q[1..];
    forall i | 0 <= i < |r| - 1 ensures Edge(g, r[i], r[i + 1]) {
      if i < |p| - 1 {
        assert Edge(g, p[i], p[i + 1]);
      } else {
        assert Edge(g, q[i - |p| + 1], q[i - |p| + 2]);
      }
    }
    assert PathBetween(g, r, x, z);
  }

  /** A set that holds `target` and every task depending on a member holds all that reach it. */
  lemma {:induction false} ClosedUnderDependents(g: Deps, s: set<string>, p: seq<string>)
    requires IsPath(g, p) && p[|p| - 1] in s
    requires forall x, d :: Edge(g, x, d) && d in s ==> x in s
    ensures p[0] in s
  {
    if |p| > 1 {
      assert Edge(g, p[0], p[1]);
      forall i | 0 <= i < |p[1..]| - 1 ensures Edge(g, p[1..][i], p[1..][i + 1]) {
        assert Edge(g, p[i + 1], p[i + 2]);
      }
      ClosedUnderDependents(g, s, p[1..]);
    }
  }

  lemma {:induction false} Pigeonhole(p: seq<string>, s: set<string>)
    requires forall i :: 0 <= i < |p| ==> p[i] in s
    requires |p| > |s|
    ensures exists i, j :: 0 <= i < j < |p| && p[i] == p[j]
  {
    var last := p[|p| - 1];
    var front := p[..|p| - 1];
    if last in front {
      var i :| 0 <= i < |front| && front[i] == last;
      assert p[i] == p[|p| - 1];
    } else {
      assert p[|p| - 1] in s;
      Pigeonhole(front, s - {last});
      var i, j :| 0 <= i < j < |front| && front[i] == front[j];
      assert p[i] == p[j];
    }
  }

  /** `next` names, for each of its keys, one dependency that is again a key. */
  ghost predicate Successors(g: Deps, next: map<string, string>) {
    forall y :: y in next ==> next[y] in next && Edge(g, y, next[y])
  }

  /** If each task of a set depends on another of the set, walks inside it are as long as we like. */
  lemma {:induction false} LongWalk(g: Deps, next: map<string, string>, x: string, n: nat) returns (p: seq<string>)
    requires x in next && Successors(g, next)
    ensures IsPath(g, p) && p[0] == x && |p| == n + 1 && forall i :: 0 <= i < |p| ==> p[i] in next.Keys
    decreases n
  {
    if n == 0 {
      p := [x];
    } else {
      var q := LongWalk(g, next, next[x], n - 1);
      p := [x] + q;
    }
  }

  lemma SubPath(g: Deps, p: seq<string>, i: nat, j: nat)
    requires IsPath(g, p) && i <= j < |p|
    ensures PathBetween(g, p[i..j + 1], p[i], p[j])
  {
    var q := p[i..j + 1];
    forall k | 0 <= k < |q| - 1 ensures Edge(g, q[k], q[k + 1]) {
      assert Edge(g, p[i + k], p[i + k + 1]);
    }
  }

  lemma WalkHasCycle(g: Deps, s: set<string>, p: seq<string>)
    requires IsPath(g, p) && |p| > |s| && forall i :: 0 <= i < |p| ==> p[i] in s
    ensures exists y :: Reaches(g, p[0], y) && OnCycle(g, y)
  {
    Pigeonhole(p, s);
    var i, j :| 0 <= i < j < |p| && p[i] == p[j];
    SubPath(g, p, 0, i);
    SubPath(g, p, i, j);
    assert Reaches(g, p[0], p[i]) && OnCycle(g, p[i]);
  }

  /** In a finite graph, a set of tasks each waiting for another member contains a cycle. */
  lemma EndlessWaitIsCycle(g: Deps, next: map<string, string>, x: string)
    requires x in next && Successors(g, next)
    ensures exists y :: Reaches(g, x, y) && OnCycle(g, y)
  {
    var p := LongWalk(g, next, x, |next.Keys|);
    WalkHasCycle(g, next.Keys, p);
  }

  // ---------- one step ----------

  ghost predicate AllDone(g: Deps, r: map<string, Progress>, id: string)
    requires id in g
  {
    forall d :: d in g[id] ==> d in r && r[d].Done?
  }

  ghost function Inputs(g: Deps, r: map<string, Progress>, id: string): seq<string>
    requires id in g && AllDone(g, r, id)
  {
    seq(|g[id]|, i requires 0 <= i < |g[id]| => r[g[id][i]].deliverable)
  }

  ghost predicate Ready(g: Deps, r: map<string, Progress>, id: string) {
    id in g && id in r && r[id].Waiting? && AllDone(g, r, id)
  }

  /** Everything that reaches `failed` and is not completed becomes failed. */
  ghost function FailDownstream(g: Deps, r: map<string, Progress>, failed: string): map<string, Progress> {
    map k | k in r :: if Reaches(g, k, failed) && !r[k].Done? then Failed else r[k]
  }

  /** What trying a ready task does to the statuses. */
  ghost function Step(g: Deps, attempt: Attempt, r: map<string, Progress>, id: string): map<string, Progress>
    requires Ready(g, r, id)
  {
    match attempt(id, Inputs(g, r, id))
    case Some(v) => r[id := Done(v)]
    case None => FailDownstream(g, r, id)
  }

  /** The task `id` was tried with all dependencies completed and its attempt gave nothing. */
  ghost predicate OwnFailure(g: Deps, attempt: Attempt, r: map<string, Progress>, id: string) {
    id in g && AllDone(g, r, id) && attempt(id, Inputs(g, r, id)).None?
  }

  /** Completed tasks have all dependencies completed and carry their attempt's deliverable. */
  ghost predicate CompletedOk(g: Deps, attempt: Attempt, log: seq<string>, r: map<string, Progress>) {
    forall id :: id in g && id in r && r[id].Done? ==>
      id in log && AllDone(g, r, id) && attempt(id, Inputs(g, r, id)) == Some(r[id].deliverable)
  }

  ghost predicate HasFailedDep(g: Deps, r: map<string, Progress>, id: string) {
    exists d :: Edge(g, id, d) && d in r && r[d].Failed?
  }

  ghost predicate ReachesOwnFailure(g: Deps, attempt: Attempt, r: map<string, Progress>, id: string) {
    exists b :: Reaches(g, id, b) && OwnFailure(g, attempt, r, b)
  }

  /** Dependents of a failed task are failed, and nothing fails without a failed attempt below it. */
  ghost predicate FailedOk(g: Deps, attempt: Attempt, r: map<string, Progress>) {
    && (forall id, d :: Edge(g, id, d) && d in r && r[d].Failed? ==> id in r && r[id].Failed?)
    && (forall id :: id in r && r[id].Failed? ==> HasFailedDep(g, r, id) || OwnFailure(g, attempt, r, id))
    && (forall id :: id in r && r[id].Failed? ==> ReachesOwnFailure(g, attempt, r, id))
  }

  /** Each task is tried at most once, after all its dependencies. */
  ghost predicate LogOk(g: Deps, log: seq<string>, r: map<string, Progress>) {
    && (forall i, j :: 0 <= i < j < |log| ==> log[i] != log[j])
    && (forall i :: 0 <= i < |log| ==> log[i] in g && log[i] in r && !r[log[i]].Waiting? && AllDone(g, r, log[i]))
    && (forall i, d :: 0 <= i < |log| && Edge(g, log[i], d) ==> d in log[..i])
  }

  ghost predicate DomainOk(g: Deps, r: map<string, Progress>) {
    r.Keys == g.Keys && forall id :: id in g ==> !r[id].Active?
  }

  /** What holds before and after every executed task; `log` is the order tasks were tried in. */
  ghost predicate Consistent(g: Deps, attempt: Attempt, log: seq<string>, r: map<string, Progress>) {
    DomainOk(g, r) && CompletedOk(g, attempt, log, r) && FailedOk(g, attempt, r) && LogOk(g, log, r)
  }

  lemma {:induction false} DoneBelow(g: Deps, attempt: Attempt, log: seq<string>, r: map<string, Progress>,
          p: seq<string>)
    requires Consistent(g, attempt, log, r) && IsPath(g, p) && p[0] in g && r[p[0]].Done?
    ensures p[|p| - 1] in g && r[p[|p| - 1]].Done?
  {
    if |p| > 1 {
      assert Edge(g, p[0], p[1]);
      SubPath(g, p, 1, |p| - 1);
      assert p[1..|p| - 1 + 1] == p[1..];
      DoneBelow(g, attempt, log, r, p[1..]);
    }
  }

  /** Everything a completed task transitively depends on exists and is completed. */
  lemma DoneReaches(g: Deps, attempt: Attempt, log: seq<string>, r: map<string, Progress>, x: string, y: string)
    requires Consistent(g, attempt, log, r) && x in g && r[x].Done? && Reaches(g, x, y)
    ensures y in g && r[y].Done?
  {
    var p :| PathBetween(g, p, x, y);
    DoneBelow(g, attempt, log, r, p);
  }

  lemma InputsSame(g: Deps, r: map<string, Progress>, q: map<string, Progress>, id: string)
    requires id in g && AllDone(g, r, id)
    requires forall d :: d in g[id] ==> d in q && q[d] == r[d]
    ensures AllDone(g, q, id) && Inputs(g, q, id) == Inputs(g, r, id)
  {
    forall i | 0 <= i < |g[id]| ensures r[g[id][i]] == q[g[id][i]] {
      assert g[id][i] in g[id];
    }
  }

  /** Nothing already completed changes, so earlier verdicts stand. */
  lemma VerdictsStand(g: Deps, attempt: Attempt, r: map<string, Progress>, q: map<string, Progress>)
    requires r.Keys == q.Keys && forall d :: d in r && r[d].Done? ==> q[d] == r[d]
    ensures forall id :: id in g && AllDone(g, r, id) ==> AllDone(g, q, id) && Inputs(g, q, id) == Inputs(g, r, id)
    ensures forall id :: OwnFailure(g, attempt, r, id) ==> OwnFailure(g, attempt, q, id)
  {
    forall id | id in g && AllDone(g, r, id)
      ensures AllDone(g, q, id) && Inputs(g, q, id) == Inputs(g, r, id)
    {
      InputsSame(g, r, q, id);
    }
  }

  /** Trying one more ready task keeps the log in dependency order. */
  lemma TryingKeepsLogOk(g: Deps, attempt: Attempt, log: seq<string>, r: map<string, Progress>, id: string,
                         q: map<string, Progress>)
    requires Consistent(g, attempt, log, r) && Ready(g, r, id)
    requires q.Keys == r.Keys && !q[id].Waiting?
    requires forall k :: k in r && !r[k].Waiting? ==> !q[k].Waiting?
    requires forall k :: k in g && AllDone(g, r, k) ==> AllDone(g, q, k)
    ensures LogOk(g, log + [id], q)
  {
    var more := log + [id];
    assert id !in log;
    forall i, d | 0 <= i < |more| && Edge(g, more[i], d) ensures d in more[..i] {
      if i < |log| {
        assert Edge(g, log[i], d) && more[..i] == log[..i];
      } else {
        assert more[..i] == log && d in g[id];
      }
    }
  }

  /** An executed task that delivers keeps every invariant of the execution. */
  lemma CompletingKeepsConsistent(g: Deps, attempt: Attempt, log: seq<string>, r: map<string, Progress>, id: string)
    requires Consistent(g, attempt, log, r) && Ready(g, r, id)
    requires attempt(id, Inputs(g, r, id)).Some?
    ensures Consistent(g, attempt, log + [id], Step(g, attempt, r, id))
  {
    var q := Step(g, attempt, r, id);
    VerdictsStand(g, attempt, r, q);
    TryingKeepsLogOk(g, attempt, log, r, id, q);
    CompletingKeepsFailedOk(g, attempt, r, id);
  }

  lemma CompletingKeepsFailedOk(g: Deps, attempt: Attempt, r: map<string, Progress>, id: string)
    requires r.Keys == g.Keys && FailedOk(g, attempt, r) && Ready(g, r, id) && attempt(id, Inputs(g, r, id)).Some?
    ensures FailedOk(g, attempt, Step(g, attempt, r, id))
  {
    var q := Step(g, attempt, r, id);
    VerdictsStand(g, attempt, r, q);
    forall k | k in q && q[k].Failed?
      ensures HasFailedDep(g, q, k) || OwnFailure(g, attempt, q, k)
      ensures ReachesOwnFailure(g, attempt, q, k)
    {
      assert ReachesOwnFailure(g, attempt, r, k);
      if HasFailedDep(g, r, k) {
        var d :| Edge(g, k, d) && d in r && r[d].Failed?;
        assert d in q && q[d].Failed?;
      }
    }
  }

  /** The tasks a failure reaches: none was completed, all are failed afterwards. */
  lemma FailureHits(g: Deps, attempt: Attempt, log: seq<string>, r: map<string, Progress>, id: string)
    requires Consistent(g, attempt, log, r) && Ready(g, r, id)
    ensures var q := FailDownstream(g, r, id);
            && q.Keys == r.Keys && q[id].Failed?
            && (forall k :: k in g && Reaches(g, k, id) ==> !r[k].Done? && q[k].Failed?)
            && (forall k :: k in g && !Reaches(g, k, id) ==> q[k] == r[k])
            && (forall k :: k in r && r[k].Done? ==> q[k] == r[k])
  {
    ReachesSelf(g, id);
    forall k | k in g && Reaches(g, k, id) ensures !r[k].Done? {
      if r[k].Done? { DoneReaches(g, attempt, log, r, k, id); }
    }
  }

  lemma FailingKeepsFailedOk(g: Deps, attempt: Attempt, log: seq<string>, r: map<string, Progress>, id: string)
    requires Consistent(g, attempt, log, r) && Ready(g, r, id) && attempt(id, Inputs(g, r, id)).None?
    ensures FailedOk(g, attempt, FailDownstream(g, r, id))
  {
    var q := FailDownstream(g, r, id);
    FailureHits(g, attempt, log, r, id);
    VerdictsStand(g, attempt, r, q);
    hide FailDownstream, Reaches, CompletedOk, LogOk;
    assert OwnFailure(g, attempt, q, id);
    forall k, d | Edge(g, k, d) && d in q && q[d].Failed? ensures q[k].Failed? {
      if Reaches(g, d, id) { ReachesStep(g, k, d, id); }
    }
    forall k | k in q && q[k].Failed?
      ensures HasFailedDep(g, q, k) || OwnFailure(g, attempt, q, k)
      ensures ReachesOwnFailure(g, attempt, q, k)
    {
      if Reaches(g, k, id) && k != id {
        var d := ReachesSplit(g, k, id);
        ReachesDomain(g, d, id);
        assert q[d].Failed?;
      }
    }
  }

  /** An executed task that fails, with its failure spread downstream, keeps them too. */
  lemma FailingKeepsConsistent(g: Deps, attempt: Attempt, log: seq<string>, r: map<string, Progress>, id: string)
    requires Consistent(g, attempt, log, r) && Ready(g, r, id)
    requires attempt(id, Inputs(g, r, id)).None?
    ensures Consistent(g, attempt, log + [id], Step(g, attempt, r, id))
  {
    var q := Step(g, attempt, r, id);
    FailureHits(g, attempt, log, r, id);
    VerdictsStand(g, attempt, r, q);
    TryingKeepsLogOk(g, attempt, log, r, id, q);
    FailingKeepsFailedOk(g, attempt, log, r, id);
  }

  lemma ReachesDomain(g: Deps, x: string, y: string)
    requires Reaches(g, x, y) && y in g
    ensures x in g
  {
    if x != y { var d := ReachesSplit(g, x, y); }
  }

  // ---------- whole executions ----------

  ghost function AllWaiting(g: Deps): map<string, Progress> { map k | k in g :: Waiting }

  /** The statuses after trying the tasks of `log` in order. */
  ghost function Replay(g: Deps, attempt: Attempt, log: seq<string>): (r: map<string, Progress>) {
    if log == [] then AllWaiting(g)
    else
      var r := Replay(g, attempt, log[..|log| - 1]);
      var id := log[|log| - 1];
      if Ready(g, r, id) then Step(g, attempt, r, id) else r
  }

  /** Every task of `log` was ready when its turn came: `log` is a run of the executor. */
  ghost predicate Schedule(g: Deps, attempt: Attempt, log: seq<string>) {
    log == [] || (Schedule(g, attempt, log[..|log| - 1])
                  && Ready(g, Replay(g, attempt, log[..|log| - 1]), log[|log| - 1]))
  }

  /** A run that stopped because nothing is ready. */
  ghost predicate CompleteRun(g: Deps, attempt: Attempt, log: seq<string>) {
    Schedule(g, attempt, log) && forall id :: !Ready(g, Replay(g, attempt, log), id)
  }

  lemma ExtendRun(g: Deps, attempt: Attempt, log: seq<string>, id: string)
    requires Schedule(g, attempt, log) && Ready(g, Replay(g, attempt, log), id)
    ensures Schedule(g, attempt, log + [id])
    ensures Replay(g, attempt, log + [id]) == Step(g, attempt, Replay(g, attempt, log), id)
  {
    assert (log + [id])[..|log + [id]| - 1] == log;
  }

  /** Safety over every run: after each task tried, in any order, the invariants hold. */
  lemma {:induction false} EveryRunConsistent(g: Deps, attempt: Attempt, log: seq<string>)
    requires Schedule(g, attempt, log)
    ensures Consistent(g, attempt, log, Replay(g, attempt, log))
  {
    if log != [] {
      var front := log[..|log| - 1];
      var id := log[|log| - 1];
      EveryRunConsistent(g, attempt, front);
      var r := Replay(g, attempt, front);
      assert log == front + [id];
      if attempt(id, Inputs(g, r, id)).Some? {
        CompletingKeepsConsistent(g, attempt, front, r, id);
      } else {
        FailingKeepsConsistent(g, attempt, front, r, id);
      }
    }
  }

  /** What an execution leaves behind: consistent, and no task is still ready. */
  ghost predicate Finished(g: Deps, attempt: Attempt, log: seq<string>, r: map<string, Progress>) {
    Consistent(g, attempt, log, r) && forall id :: !Ready(g, r, id)
  }

  /** The final status of a task in terms of its dependencies' final statuses. */
  lemma FinalStatus(g: Deps, attempt: Attempt, log: seq<string>, r: map<string, Progress>, id: string)
    requires Finished(g, attempt, log, r) && id in g
    ensures r[id] ==
            if HasFailedDep(g, r, id) then Failed
            else if !AllDone(g, r, id) then Waiting
            else match attempt(id, Inputs(g, r, id)) case None => Failed case Some(v) => Done(v)
  {
    if AllDone(g, r, id) { assert !Ready(g, r, id); }
  }

  lemma {:induction false} LoggedAgree(g: Deps, attempt: Attempt, log1: seq<string>, r1: map<string, Progress>,
                                       log2: seq<string>, r2: map<string, Progress>, n: nat)
    requires Finished(g, attempt, log1, r1) && Finished(g, attempt, log2, r2) && n <= |log1|
    ensures forall i :: 0 <= i < n ==> r1[log1[i]] == r2[log1[i]] || (r1[log1[i]].Failed? && r2[log1[i]].Failed?)
  {
    if n > 0 {
      LoggedAgree(g, attempt, log1, r1, log2, r2, n - 1);
      var id := log1[n - 1];
      assert AllDone(g, r1, id);
      forall d | d in g[id] ensures d in r2 && r2[d] == r1[d] {
        assert Edge(g, log1[n - 1], d) && d in log1[..n - 1];
      }
      InputsSame(g, r1, r2, id);
      FinalStatus(g, attempt, log1, r1, id);
      FinalStatus(g, attempt, log2, r2, id);
    }
  }

  lemma {:induction false} FailureClimbs(g: Deps, attempt: Attempt, r: map<string, Progress>, p: seq<string>)
    requires FailedOk(g, attempt, r) && IsPath(g, p) && p[|p| - 1] in r && r[p[|p| - 1]].Failed?
    ensures p[0] in r && r[p[0]].Failed?
  {
    if |p| > 1 {
      assert Edge(g, p[0], p[1]);
      SubPath(g, p, 1, |p| - 1);
      assert p[1..|p| - 1 + 1] == p[1..];
      FailureClimbs(g, attempt, r, p[1..]);
    }
  }

  lemma SettledAgree(g: Deps, attempt: Attempt, log1: seq<string>, r1: map<string, Progress>,
                     log2: seq<string>, r2: map<string, Progress>, id: string)
    requires Finished(g, attempt, log1, r1) && Finished(g, attempt, log2, r2) && id in g
    ensures r1[id].Done? ==> r2[id] == r1[id]
    ensures r1[id].Failed? ==> r2[id].Failed?
  {
    LoggedAgree(g, attempt, log1, r1, log2, r2, |log1|);
    if r1[id].Done? {
      assert id in log1;
    } else if r1[id].Failed? {
      assert ReachesOwnFailure(g, attempt, r1, id);
      var b :| Reaches(g, id, b) && OwnFailure(g, attempt, r1, b);
      forall d | d in g[b] ensures d in r2 && r2[d] == r1[d] {
        assert d in log1;
      }
      InputsSame(g, r1, r2, b);
      FinalStatus(g, attempt, log2, r2, b);
      var p :| PathBetween(g, p, id, b);
      FailureClimbs(g, attempt, r2, p);
    }
  }

  /** On EVERY graph, cyclic or with missing dependencies, the final statuses and deliverables
      depend on the graph and the attempts alone: two executions, in whatever order they
      found ready tasks, end alike. */
  lemma OutcomeUnique(g: Deps, attempt: Attempt, log1: seq<string>, r1: map<string, Progress>,
                      log2: seq<string>, r2: map<string, Progress>)
    requires Finished(g, attempt, log1, r1) && Finished(g, attempt, log2, r2)
    ensures r1 == r2
  {
    forall id | id in g ensures r1[id] == r2[id] {
      SettledAgree(g, attempt, log1, r1, log2, r2, id);
      SettledAgree(g, attempt, log2, r2, log1, r1, id);
    }
  }

  /** The same for runs: the order in which ready tasks were picked leaves no trace. */
  lemma RunOrderIrrelevant(g: Deps, attempt: Attempt, log1: seq<string>, log2: seq<string>)
    requires CompleteRun(g, attempt, log1) && CompleteRun(g, attempt, log2)
    ensures Replay(g, attempt, log1) == Replay(g, attempt, log2)
  {
    EveryRunConsistent(g, attempt, log1);
    EveryRunConsistent(g, attempt, log2);
    OutcomeUnique(g, attempt, log1, Replay(g, attempt, log1), log2, Replay(g, attempt, log2));
  }

  /** A task is left waiting only if it reaches a missing dependency or a cycle. */
  lemma StallMeansCycleOrMissing(g: Deps, attempt: Attempt, log: seq<string>, r: map<string, Progress>, id: string)
    requires Finished(g, attempt, log, r) && id in g && r[id].Waiting?
    ensures !WellFounded(g, id)
  {
    ReachesSelf(g, id);
    if WellFounded(g, id) {
      var next := map k | k in g && r[k].Waiting? && Reaches(g, id, k) :: Blocker(g, r, k);
      forall k | k in next ensures next[k] in next && Edge(g, k, next[k]) {
        assert !Ready(g, r, k);
        var d := Blocker(g, r, k);
        assert Edge(g, k, d);
        ReachesSelf(g, d);
        ReachesStep(g, k, d, d);
        ReachesTransitive(g, id, k, d);
      }
      EndlessWaitIsCycle(g, next, id);
    }
  }

  /** A dependency that keeps `k` from being ready, if there is one. */
  ghost function Blocker(g: Deps, r: map<string, Progress>, k: string): (d: string)
    requires k in g
    ensures !AllDone(g, r, k) ==> d in g[k] && !(d in r && r[d].Done?)
  {
    if AllDone(g, r, k) then k else var d :| d in g[k] && !(d in r && r[d].Done?); d
  }

  ghost function IndexOf(log: seq<string>, x: string): (i: nat)
    ensures x in log ==> i < |log| && log[i] == x
  {
    if x in log then var i :| 0 <= i < |log| && log[i] == x; i else 0
  }

  /** Along a path from a completed task, tasks were tried strictly earlier and earlier. */
  lemma {:induction false} LogDescends(g: Deps, attempt: Attempt, log: seq<string>, r: map<string, Progress>,
                                       p: seq<string>)
    requires Consistent(g, attempt, log, r) && IsPath(g, p) && p[0] in g && r[p[0]].Done? && |p| >= 2
    ensures p[|p| - 1] in log[..IndexOf(log, p[0])]
  {
    assert Edge(g, p[0], p[1]);
    assert Edge(g, log[IndexOf(log, p[0])], p[1]);
    if |p| > 2 {
      SubPath(g, p, 1, |p| - 1);
      assert p[1..|p| - 1 + 1] == p[1..];
      LogDescends(g, attempt, log, r, p[1..]);
      assert IndexOf(log, p[1]) < IndexOf(log, p[0]);
    }
  }

  /** Conversely a completed task reaches neither: no cycle and no missing dependency below it. */
  lemma DoneIsWellFounded(g: Deps, attempt: Attempt, log: seq<string>, r: map<string, Progress>, id: string)
    requires Consistent(g, attempt, log, r) && id in g && r[id].Done?
    ensures WellFounded(g, id)
  {
    forall y | Reaches(g, id, y) ensures y in g && !OnCycle(g, y) {
      DoneReaches(g, attempt, log, r, id, y);
      if OnCycle(g, y) {
        var p :| PathBetween(g, p, y, y) && |p| >= 2;
        LogDescends(g, attempt, log, r, p);
      }
    }
  }

  /** No task depends on a missing one and no task lies on a cycle. */
  ghost predicate AcyclicAndClosed(g: Deps) {
    && (forall x, d :: Edge(g, x, d) ==> d in g)
    && (forall x :: x in g ==> !OnCycle(g, x))
  }

  /** On an acyclic graph with no missing dependency every task ends completed or failed. */
  lemma AcyclicNeverStalls(g: Deps, attempt: Attempt, log: seq<string>, r: map<string, Progress>)
    requires Finished(g, attempt, log, r) && AcyclicAndClosed(g)
    ensures forall id :: id in g ==> WellFounded(g, id) && (r[id].Done? || r[id].Failed?)
  {
    forall id | id in g ensures WellFounded(g, id) && (r[id].Done? || r[id].Failed?) {
      forall y | Reaches(g, id, y) ensures y in g {
        var p :| PathBetween(g, p, id, y);
        if |p| > 1 { assert Edge(g, p[|p| - 2], p[|p| - 1]); }
      }
      if r[id].Waiting? { StallMeansCycleOrMissing(g, attempt, log, r, id); }
    }
  }

  /** When success does not depend on inputs: a well-founded task is completed exactly when it
      and every transitive dependency succeed, and failed otherwise. */
  lemma CompletedIffAllSucceed(g: Deps, attempt: Attempt, ok: string -> bool, log: seq<string>,
                               r: map<string, Progress>, id: string)
    requires Finished(g, attempt, log, r) && id in g && WellFounded(g, id)
    requires forall t, inputs :: attempt(t, inputs).Some? <==> ok(t)
    ensures r[id].Done? <==> forall b :: Reaches(g, id, b) ==> ok(b)
    ensures !r[id].Done? <==> r[id].Failed?
  {
    if r[id].Waiting? { StallMeansCycleOrMissing(g, attempt, log, r, id); }
    if r[id].Done? {
      forall b | Reaches(g, id, b) ensures ok(b) {
        DoneReaches(g, attempt, log, r, id, b);
      }
    } else {
      assert ReachesOwnFailure(g, attempt, r, id);
      var b :| Reaches(g, id, b) && OwnFailure(g, attempt, r, b);
      assert !ok(b);
    }
  }

  /** In terms of the deliverables themselves: given, in declaration order, what each dependency of
      a task delivered, the task ends as its attempt on exactly that ends. */
  lemma AttemptedOnUpstream(g: Deps, attempt: Attempt, log: seq<string>, r: map<string, Progress>, id: string,
                            upstream: seq<string>)
    requires Finished(g, attempt, log, r) && id in g && |upstream| == |g[id]|
    requires forall k :: 0 <= k < |upstream| ==> g[id][k] in r && r[g[id][k]] == Done(upstream[k])
    ensures r[id] == match attempt(id, upstream) case None => Failed case Some(v) => Done(v)
  {
    FinalStatus(g, attempt, log, r, id);
    assert AllDone(g, r, id);
    assert Inputs(g, r, id) == upstream;
    forall d | d in g[id] ensures r[d].Done? {
      var k :| 0 <= k < |g[id]| && g[id][k] == d;
    }
  }
}
