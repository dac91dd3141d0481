/**
 Runs of the watcher together with the steps they took: why each call ended as it did, which
 refund it made, and that every call ends.
 */
module WatcherTraces {
  import opened Watcher
  import opened Wrappers

  /** A run and the step taken at each of its states. */
  ghost predicate IsTrace(run: seq<State>, actions: seq<Action>) {
    && |run| == |actions| + 1 && Init(run[0])
    && forall k :: 0 <= k < |actions| ==> Enabled(run[k], actions[k]) && Perform(run[k], actions[k]) == run[k + 1]
  }

  lemma TraceIsRun(run: seq<State>, actions: seq<Action>)
    requires IsTrace(run, actions)
    ensures IsRun(run)
  {
    hide Enabled, Perform;
    forall k | 0 <= k < |run| - 1 ensures Steps(run[k], run[k + 1]) {
      assert Enabled(run[k], actions[k]) && Perform(run[k], actions[k]) == run[k + 1];
    }
  }

  // ---------- why calls end as they do ----------

  /** Call `i` began with step `b`, for `job`. */
  ghost predicate BeganAt(run: seq<State>, actions: seq<Action>, b: nat, i: nat, job: string) {
    b < |actions| < |run| && actions[b] == Start(job) && |run[b].calls| == i
  }

  /** Step `r` read the chain for call `i`, about `job`, and found `answer`. */
  ghost predicate ReadAt(run: seq<State>, actions: seq<Action>, r: nat, i: nat, job: string, answer: Option<OnChain>) {
    && r < |actions| < |run| && actions[r] == ChainIsRead(i)
    && answer == if job in run[r].chain then Some(run[r].chain[job]) else None
  }

  predicate IsFunded(answer: Option<OnChain>) { answer.Some? && answer.value.status == "Funded" }

  predicate EndedAs(pc: Pc, refunded: bool) { pc == Returning(refunded) || pc == Finished(refunded) }

  /** Where a call can be after the steps `actions` when it has read `answer`: a job found Funded is
      submitted, and the call then ends as that submission was reported. */
  ghost predicate Follows(pc: Pc, i: nat, answer: Option<OnChain>, actions: seq<Action>) {
    match pc
    case Told(told) => told == answer
    case Submitting(read, _) => IsFunded(answer) && read == answer.value
    case Returning(refunded) => if IsFunded(answer) then RefundReturns(i, refunded) in actions else !refunded
    case Finished(refunded) => if IsFunded(answer) then RefundReturns(i, refunded) in actions else !refunded
    case _ => false
  }

  ghost predicate HasRead(run: seq<State>, actions: seq<Action>, t: nat, i: nat)
    requires t <= |actions| < |run| && i < |run[t].calls|
  {
    exists r: nat, answer :: r < t && ReadAt(run, actions, r, i, run[t].calls[i].job, answer)
                             && Follows(run[t].calls[i].pc, i, answer, actions[..t])
  }

  /** What became of a call that got past the guards. */
  ghost predicate Explained(run: seq<State>, actions: seq<Action>, t: nat, i: nat)
    requires t <= |actions| < |run| && i < |run[t].calls|
  {
    var pc := run[t].calls[i].pc;
    pc == Asking || (ReadFails(i) in actions[..t] && EndedAs(pc, false)) || HasRead(run, actions, t, i)
  }

  lemma FollowsNext(s: State, a: Action, i: nat, answer: Option<OnChain>, actions: seq<Action>)
    requires Enabled(s, a) && i < |s.calls| && Follows(s.calls[i].pc, i, answer, actions)
    ensures i < |Perform(s, a).calls| && Perform(s, a).calls[i].job == s.calls[i].job
    ensures Follows(Perform(s, a).calls[i].pc, i, answer, actions + [a])
  {
    assert a in actions + [a] && forall b :: b in actions ==> b in actions + [a];
  }

  lemma ReadNext(s: State, a: Action, i: nat)
    requires Enabled(s, a) && i < |s.calls| && s.calls[i].pc.Asking?
    ensures i < |Perform(s, a).calls| && Perform(s, a).calls[i].job == s.calls[i].job
    ensures var pc := Perform(s, a).calls[i].pc;
            pc == Asking || (a == ReadFails(i) && pc == Returning(false))
            || (a == ChainIsRead(i) && pc == Told(Lookup(s.chain, s.calls[i].job)))
  {
  }

  lemma EndNext(s: State, a: Action, i: nat, refunded: bool)
    requires Enabled(s, a) && i < |s.calls| && EndedAs(s.calls[i].pc, refunded)
    ensures i < |Perform(s, a).calls| && Perform(s, a).calls[i].job == s.calls[i].job
    ensures EndedAs(Perform(s, a).calls[i].pc, refunded)
  {
  }

  lemma ExplainedNext(run: seq<State>, actions: seq<Action>, t: nat, i: nat)
    requires IsTrace(run, actions) && t < |actions| && i < |run[t].calls| && Explained(run, actions, t, i)
    ensures i < |run[t + 1].calls| && run[t + 1].calls[i].job == run[t].calls[i].job
    ensures Explained(run, actions, t + 1, i)
  {
    var s, a := run[t], actions[t];
    assert Enabled(s, a) && Perform(s, a) == run[t + 1];
    assert actions[..t + 1] == actions[..t] + [a];
    hide IsTrace, Perform, Enabled, Follows, EndedAs;
    if HasRead(run, actions, t, i) {
      var r: nat, answer :| r < t && ReadAt(run, actions, r, i, s.calls[i].job, answer)
                            && Follows(s.calls[i].pc, i, answer, actions[..t]);
      FollowsNext(s, a, i, answer, actions[..t]);
    } else if ReadFails(i) in actions[..t] && EndedAs(s.calls[i].pc, false) {
      EndNext(s, a, i, false);
    } else {
      ReadNext(s, a, i);
      ReadJustNow(run, actions, t, i);
    }
  }

  lemma ReadJustNow(run: seq<State>, actions: seq<Action>, t: nat, i: nat)
    requires t < |actions| < |run| && i < |run[t + 1].calls|
    ensures actions[t] == ReadFails(i) && run[t + 1].calls[i].pc == Returning(false)
            ==> ReadFails(i) in actions[..t + 1] && EndedAs(run[t + 1].calls[i].pc, false)
    ensures actions[t] == ChainIsRead(i)
            && run[t + 1].calls[i].pc == Told(Lookup(run[t].chain, run[t + 1].calls[i].job))
            ==> HasRead(run, actions, t + 1, i)
  {
    assert actions[..t + 1][t] == actions[t];
    if actions[t] == ChainIsRead(i) {
      assert ReadAt(run, actions, t, i, run[t + 1].calls[i].job, Lookup(run[t].chain, run[t + 1].calls[i].job));
    }
  }

  lemma SkippedStays(s: State, a: Action, i: nat)
    requires Enabled(s, a) && i < |s.calls| && s.calls[i].pc.Skipped?
    ensures i < |Perform(s, a).calls| && Perform(s, a).calls[i] == s.calls[i]
  {
  }

  /** Some call is dealing with the job. */
  ghost predicate BeingDealtWith(s: State, job: string) {
    exists j :: 0 <= j < |s.calls| && Active(s.calls[j].pc) && s.calls[j].job == job
  }

  /** How call `i` began, and what became of it: skipped if and only if a call was already
      dealing with the job. */
  ghost predicate Accounted(run: seq<State>, actions: seq<Action>, t: nat, i: nat)
    requires t <= |actions| < |run| && i < |run[t].calls|
  {
    exists b: nat ::
      && b < t && BeganAt(run, actions, b, i, run[t].calls[i].job)
      && if BeingDealtWith(run[b], run[t].calls[i].job) then run[t].calls[i].pc == Skipped(SkipInFlight)
         else Explained(run, actions, t, i)
  }

  lemma StartNext(s: State, a: Action)
    requires GuardsOk(s) && Enabled(s, a) && |Perform(s, a).calls| > |s.calls|
    ensures a.Start? && |Perform(s, a).calls| == |s.calls| + 1 && Perform(s, a).calls[|s.calls|].job == a.job
    ensures Perform(s, a).calls[|s.calls|].pc
            == if BeingDealtWith(s, a.job) then Skipped(SkipInFlight) else Asking
  {
    if a.job in s.guards.locks { assert Active(s.calls[s.guards.locks[a.job]].pc); }
  }

  /** Every call of every run is accounted for. */
  lemma {:induction false} EveryCallExplained(run: seq<State>, actions: seq<Action>, t: nat, i: nat)
    requires IsTrace(run, actions) && t < |run| && i < |run[t].calls|
    ensures Accounted(run, actions, t, i)
  {
    assert t > 0;
    var s, a := run[t - 1], actions[t - 1];
    assert Enabled(s, a) && Perform(s, a) == run[t - 1 + 1];
    TraceIsRun(run, actions);
    RunKeepsInv(run, t - 1);
    hide Perform, Enabled, IsTrace, IsRun, Explained, BeingDealtWith, ReportsOk, GuardsOk;
    if i < |s.calls| {
      EveryCallExplained(run, actions, t - 1, i);
      var b: nat :| b < t - 1 && BeganAt(run, actions, b, i, s.calls[i].job)
                    && if BeingDealtWith(run[b], s.calls[i].job) then s.calls[i].pc == Skipped(SkipInFlight)
                       else Explained(run, actions, t - 1, i);
      if BeingDealtWith(run[b], s.calls[i].job) {
        SkippedStays(s, a, i);
      } else {
        ExplainedNext(run, actions, t - 1, i);
      }
    } else {
      StartNext(s, a);
      JustBegun(run, actions, t, i);
    }
  }

  lemma JustBegun(run: seq<State>, actions: seq<Action>, t: nat, i: nat)
    requires 0 < t <= |actions| < |run| && i < |run[t].calls| && BeganAt(run, actions, t - 1, i, run[t].calls[i].job)
    requires run[t].calls[i].pc
             == if BeingDealtWith(run[t - 1], run[t].calls[i].job) then Skipped(SkipInFlight) else Asking
    ensures Accounted(run, actions, t, i)
  {
    hide BeingDealtWith;
  }

  /** What a call read binds it from then on: it can read no other answer, nor fail to read. */
  lemma {:induction false} ReadingBinds(run: seq<State>, actions: seq<Action>, t: nat, r: nat, i: nat, job: string,
                                        answer: Option<OnChain>)
    requires IsTrace(run, actions) && r < t < |run| && ReadAt(run, actions, r, i, job, answer)
    requires i < |run[r].calls| && run[r].calls[i].job == job
    ensures i < |run[t].calls| && run[t].calls[i].job == job
    ensures Follows(run[t].calls[i].pc, i, answer, actions[..t])
  {
    assert Enabled(run[t - 1], actions[t - 1]) && Perform(run[t - 1], actions[t - 1]) == run[t - 1 + 1];
    assert actions[..t] == actions[..t - 1] + [actions[t - 1]];
    if r == t - 1 {
      ReadNext(run[r], actions[r], i);
    } else {
      ReadingBinds(run, actions, t - 1, r, i, job, answer);
      hide Perform, Enabled, IsTrace, Follows;
      FollowsNext(run[t - 1], actions[t - 1], i, answer, actions[..t - 1]);
    }
  }

  /** A call ends as its submission was reported. */
  lemma {:induction false} ReportDecides(run: seq<State>, actions: seq<Action>, t: nat, k: nat, i: nat, ok: bool)
    requires IsTrace(run, actions) && k < t < |run| && actions[k] == RefundReturns(i, ok)
    ensures i < |run[t].calls| && EndedAs(run[t].calls[i].pc, ok)
  {
    assert Enabled(run[t - 1], actions[t - 1]) && Perform(run[t - 1], actions[t - 1]) == run[t - 1 + 1];
    if k < t - 1 {
      ReportDecides(run, actions, t - 1, k, i, ok);
      hide Perform, Enabled, IsTrace, EndedAs;
      EndNext(run[t - 1], actions[t - 1], i, ok);
    }
  }

  // ---------- the refunds ----------

  function CountBy(refunds: seq<Refund>, i: nat): nat {
    if refunds == [] then 0
    else CountBy(refunds[..|refunds| - 1], i) + if refunds[|refunds| - 1].call == i then 1 else 0
  }

  /** A call makes one refund: the one that took effect while it was submitting. */
  ghost predicate OneRefundEach(s: State) {
    && (forall i: nat :: CountBy(s.refunds, i) <= 1)
    && (forall i: nat :: i >= |s.calls| ==> CountBy(s.refunds, i) == 0)
    && (forall i: nat :: i < |s.calls| ==>
          match s.calls[i].pc
          case Submitting(_, applied) => CountBy(s.refunds, i) == if applied then 1 else 0
          case Returning(refunded) => refunded ==> CountBy(s.refunds, i) == 1
          case Finished(refunded) => refunded ==> CountBy(s.refunds, i) == 1
          case _ => CountBy(s.refunds, i) == 0)
  }

  lemma CountByNext(refunds: seq<Refund>, r: Refund)
    ensures forall i: nat :: CountBy(refunds + [r], i) == CountBy(refunds, i) + if r.call == i then 1 else 0
  {
    assert (refunds + [r])[..|refunds + [r]| - 1] == refunds;
  }

  lemma StepKeepsOneRefundEach(s: State, a: Action)
    requires OneRefundEach(s) && Enabled(s, a)
    ensures OneRefundEach(Perform(s, a))
  {
    hide CountBy;
    if a.RefundApplies? {
      CountByNext(s.refunds, Refund(a.i, s.calls[a.i].job, ActionFor(s.calls[a.i].pc.read)));
    } else {
      assert Perform(s, a).refunds == s.refunds;
    }
  }

  lemma {:induction false} RunKeepsOneRefundEach(run: seq<State>, t: nat)
    requires IsRun(run) && t < |run|
    ensures OneRefundEach(run[t])
  {
    if t > 0 {
      RunKeepsOneRefundEach(run, t - 1);
      hide OneRefundEach, Perform, Enabled;
      assert Steps(run[t - 1], run[t - 1 + 1]);
      var a :| Enabled(run[t - 1], a) && Perform(run[t - 1], a) == run[t];
      StepKeepsOneRefundEach(run[t - 1], a);
    }
  }

  lemma {:induction false} SomeRefund(refunds: seq<Refund>, i: nat) returns (n: nat)
    requires CountBy(refunds, i) == 1
    ensures n < |refunds| && refunds[n].call == i
    ensures forall k :: 0 <= k < |refunds| && refunds[k].call == i ==> k == n
  {
    var last := |refunds| - 1;
    if refunds[last].call == i {
      n := last;
      NoRefund(refunds[..last], i);
      forall k | 0 <= k < last ensures refunds[k].call != i { assert refunds[..last][k].call != i; }
    } else {
      n := SomeRefund(refunds[..last], i);
      forall k | 0 <= k < |refunds| && refunds[k].call == i ensures k == n {
        assert refunds[..last][k].call == i;
      }
    }
  }

  lemma {:induction false} NoRefund(refunds: seq<Refund>, i: nat)
    requires CountBy(refunds, i) == 0
    ensures forall k :: 0 <= k < |refunds| ==> refunds[k].call != i
  {
    if refunds != [] {
      var last := |refunds| - 1;
      NoRefund(refunds[..last], i);
      forall k | 0 <= k < |refunds| ensures refunds[k].call != i {
        if k < last { assert refunds[..last][k].call != i; }
      }
    }
  }

  /** The refund is of the job the call read Funded: expired if its provider had submitted,
      cancelled if not. */
  ghost predicate RefundFollows(run: seq<State>, actions: seq<Action>, t: nat, refund: Refund) {
    exists r: nat, read ::
      && r < t && ReadAt(run, actions, r, refund.call, refund.job, Some(read)) && read.status == "Funded"
      && refund.action == if read.providerSubmitted then Expire else Cancel
  }

  lemma {:induction false} RefundsFollow(run: seq<State>, actions: seq<Action>, t: nat, n: nat)
    requires IsTrace(run, actions) && t < |run| && n < |run[t].refunds|
    ensures RefundFollows(run, actions, t, run[t].refunds[n])
  {
    assert t > 0;
    var s, a := run[t - 1], actions[t - 1];
    assert Enabled(s, a) && Perform(s, a) == run[t - 1 + 1];
    if n < |s.refunds| {
      assert run[t].refunds[n] == s.refunds[n];
      hide Perform, Enabled, IsTrace;
      RefundsFollow(run, actions, t - 1, n);
    } else {
      AppliedNow(s, a, n);
      EveryCallExplained(run, actions, t - 1, a.i);
      hide Perform, Enabled, IsTrace, BeganAt, ReadAt;
      SubmittingHasRead(run, actions, t - 1, a.i);
    }
  }

  lemma AppliedNow(s: State, a: Action, n: nat)
    requires Enabled(s, a) && |s.refunds| <= n < |Perform(s, a).refunds|
    ensures a.RefundApplies? && n == |s.refunds| && a.i < |s.calls| && s.calls[a.i].pc.Submitting?
    ensures Perform(s, a).refunds[n] == Refund(a.i, s.calls[a.i].job, ActionFor(s.calls[a.i].pc.read))
  {
  }

  lemma SubmittingHasRead(run: seq<State>, actions: seq<Action>, t: nat, i: nat)
    requires t <= |actions| < |run| && i < |run[t].calls| && run[t].calls[i].pc.Submitting?
    requires Accounted(run, actions, t, i)
    ensures run[t].calls[i].pc.read.status == "Funded"
    ensures exists r: nat ::
               r < t && ReadAt(run, actions, r, i, run[t].calls[i].job, Some(run[t].calls[i].pc.read))
  {
    hide BeganAt, ReadAt, BeingDealtWith;
    assert HasRead(run, actions, t, i);
  }

  /** A job read Funded whose submission was reported a success: the call reports a refund and made
      exactly one, of its job, expiring if and only if what it read had a submission. */
  lemma SuccessIsRefunded(run: seq<State>, actions: seq<Action>, t: nat, r: nat, k: nat, i: nat,
                          answer: Option<OnChain>)
    requires IsTrace(run, actions) && r < t < |run| && k < t && i < |run[r].calls|
    requires ReadAt(run, actions, r, i, run[r].calls[i].job, answer) && actions[k] == RefundReturns(i, true)
    ensures i < |run[t].calls| && EndedAs(run[t].calls[i].pc, true) && IsFunded(answer)
    ensures var refund := Refund(i, run[r].calls[i].job, if answer.value.providerSubmitted then Expire else Cancel);
            exists n: nat :: n < |run[t].refunds| && run[t].refunds[n] == refund
                             && forall l :: 0 <= l < |run[t].refunds| && run[t].refunds[l].call == i ==> l == n
  {
    var job := run[r].calls[i].job;
    TraceIsRun(run, actions);
    ReadingBinds(run, actions, t, r, i, job, answer);
    ReportDecides(run, actions, t, k, i, true);
    RunKeepsOneRefundEach(run, t);
    RunKeepsInv(run, t);
    hide IsRun, CountBy, Enabled, Perform, GuardsOk;
    var n := SomeRefund(run[t].refunds, i);
    RefundsFollow(run, actions, t, n);
    var q: nat, read :| q < t && ReadAt(run, actions, q, i, run[t].refunds[n].job, Some(read))
                        && read.status == "Funded"
                        && run[t].refunds[n].action == if read.providerSubmitted then Expire else Cancel;
    ReadOnce(run, actions, r, q, i);
  }

  lemma ReadEnabled(run: seq<State>, actions: seq<Action>, q: nat, i: nat)
    requires IsTrace(run, actions) && q < |actions| && actions[q] == ChainIsRead(i)
    ensures i < |run[q].calls| && run[q].calls[i].pc == Asking
  {
    assert Enabled(run[q], actions[q]);
  }

  lemma ReadOnce(run: seq<State>, actions: seq<Action>, r: nat, q: nat, i: nat)
    requires IsTrace(run, actions) && r < |actions| && q < |actions|
    requires actions[r] == ChainIsRead(i) && actions[q] == ChainIsRead(i)
    ensures r == q
  {
    ReadEnabled(run, actions, r, i);
    ReadEnabled(run, actions, q, i);
    hide Enabled, Perform, IsTrace;
    if r < q {
      ReadingBinds(run, actions, q, r, i, run[r].calls[i].job, Lookup(run[r].chain, run[r].calls[i].job));
    } else if q < r {
      ReadingBinds(run, actions, r, q, i, run[q].calls[i].job, Lookup(run[q].chain, run[q].calls[i].job));
    }
  }

  // ---------- every call ends ----------

  /** Steps a call has still to take. */
  function Rank(pc: Pc): nat {
    match pc
    case Skipped(_) => 0
    case Asking => 5
    case Told(_) => 4
    case Submitting(_, applied) => if applied then 2 else 3
    case Returning(_) => 1
    case Finished(_) => 0
  }

  function TotalRank(calls: seq<Call>): (n: nat)
    ensures n <= 5 * |calls|
  {
    if calls == [] then 0 else TotalRank(calls[..|calls| - 1]) + Rank(calls[|calls| - 1].pc)
  }

  lemma {:induction false} TotalRankAt(calls: seq<Call>, i: nat, c: Call)
    requires i < |calls|
    ensures TotalRank(calls[i := c]) == TotalRank(calls) - Rank(calls[i].pc) + Rank(c.pc)
  {
    hide Rank;
    var n := |calls| - 1;
    if i < n {
      TotalRankAt(calls[..n], i, c);
      assert calls[i := c][..n] == calls[..n][i := c];
    } else {
      assert calls[i := c][..n] == calls[..n];
    }
  }

  predicate IsOwnStep(a: Action) { !a.Start? && !a.World? }

  lemma StepLowersRank(s: State, a: Action)
    requires Enabled(s, a) && !a.Start?
    ensures |Perform(s, a).calls| == |s.calls|
    ensures TotalRank(Perform(s, a).calls) + (if IsOwnStep(a) then 1 else 0) <= TotalRank(s.calls)
  {
    hide TotalRank;
    if IsOwnStep(a) { TotalRankAt(s.calls, a.i, Perform(s, a).calls[a.i]); }
  }

  function OwnSteps(actions: seq<Action>): nat {
    if actions == [] then 0
    else OwnSteps(actions[..|actions| - 1]) + if IsOwnStep(actions[|actions| - 1]) then 1 else 0
  }

  lemma {:induction false} RanksFall(run: seq<State>, actions: seq<Action>, t: nat, u: nat)
    requires IsTrace(run, actions) && t <= u < |run|
    requires forall k :: t <= k < u ==> !actions[k].Start?
    ensures |run[u].calls| == |run[t].calls|
    ensures OwnSteps(actions[t..u]) + TotalRank(run[u].calls) <= TotalRank(run[t].calls)
    decreases u
  {
    hide Perform, Enabled, TotalRank;
    if t < u {
      RanksFall(run, actions, t, u - 1);
      assert Enabled(run[u - 1], actions[u - 1]) && Perform(run[u - 1], actions[u - 1]) == run[u - 1 + 1];
      StepLowersRank(run[u - 1], actions[u - 1]);
      assert actions[t..u] == actions[t..u - 1] + [actions[u - 1]];
      assert actions[t..u][..|actions[t..u]| - 1] == actions[t..u - 1];
    }
  }

  lemma ActiveCanProceed(s: State, i: nat)
    requires i < |s.calls| && Active(s.calls[i].pc)
    ensures exists a: Action :: Enabled(s, a) && IsOwnStep(a)
  {
    var a := match s.calls[i].pc
      case Asking => ReadFails(i)
      case Told(_) => Decide(i)
      case Submitting(_, _) => RefundReturns(i, false)
      case _ => Finish(i);
    assert Enabled(s, a) && IsOwnStep(a);
  }

  /** While no call begins, the calls take at most five steps each between them, whatever the chain
      does; once none is left to take, every call has been skipped or has finished, and no job is
      left guarded. */
  lemma EveryCallEnds(run: seq<State>, actions: seq<Action>, t: nat, u: nat)
    requires IsTrace(run, actions) && t <= u < |run|
    requires forall k :: t <= k < u ==> !actions[k].Start?
    ensures |run[u].calls| == |run[t].calls| && OwnSteps(actions[t..u]) <= 5 * |run[t].calls|
    ensures (forall a: Action :: Enabled(run[u], a) ==> !IsOwnStep(a)) ==>
              && (forall i :: 0 <= i < |run[u].calls| ==> run[u].calls[i].pc.Skipped? || run[u].calls[i].pc.Finished?)
              && run[u].guards == Guards({}, map[])
  {
    TraceIsRun(run, actions);
    RanksFall(run, actions, t, u);
    hide Enabled, IsTrace, IsRun, OwnSteps;
    if forall a: Action :: Enabled(run[u], a) ==> !IsOwnStep(a) {
      forall i | 0 <= i < |run[u].calls| ensures !Active(run[u].calls[i].pc) {
        if Active(run[u].calls[i].pc) { ActiveCanProceed(run[u], i); }
      }
      NothingIsLeftLocked(run, u, "");
    }
  }
}
