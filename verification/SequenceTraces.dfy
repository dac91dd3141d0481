/**
 Runs of the sequence manager together with the steps they took: why each call ended as it did,
 what a resync does to the numbers after it, and that every call ends.
 */
module SequenceTraces {
  import opened SequenceManager
  import opened Wrappers

  /** A run and the step taken at each of its states. */
  ghost predicate IsTrace(run: seq<State>, actions: seq<Action>) {
    && |run| == |actions| + 1 && run[0] == Init
    && forall k :: 0 <= k < |actions| ==> Enabled(run[k], actions[k]) && Perform(run[k], actions[k]) == run[k + 1]
  }

  lemma TraceIsRun(run: seq<State>, actions: seq<Action>)
    requires IsTrace(run, actions)
    ensures IsRun(run)
  {
    hide Enabled, Perform;
    forall k | 0 <= k < |run| - 1 ensures Steps(run[k], run[k + 1]) {
      assert Enabled(run[k], actions[k]) && Perform(run[k], actions[k]) == run[k + 1];
    }
  }

  // ---------- why calls end as they do ----------

  predicate Ended(c: Call) { c.pc.Leaving? || c.pc.Returned? }

  /** Entry `k` of the log is the resync of call `i`. */
  predicate ResyncAt(s: State, k: nat, i: nat) {
    k < |s.log| && i < |s.calls| && s.log[k] == Resynced(i, s.calls[i].account)
  }

  /** The log names only ended resyncs, each once. */
  ghost predicate EntriesOk(s: State) {
    && (forall k :: 0 <= k < |s.log| && s.log[k].Resynced? ==>
          ResyncAt(s, k, s.log[k].call) && s.calls[s.log[k].call].op.Resync? && Ended(s.calls[s.log[k].call]))
    && (forall k, l :: 0 <= k < l < |s.log| && s.log[k].Resynced? && s.log[l].Resynced? ==>
          s.log[k].call != s.log[l].call)
  }

  /** Every ended resync is in the log, and ended without a number. */
  ghost predicate ResyncsOk(s: State) {
    forall i :: 0 <= i < |s.calls| && s.calls[i].op.Resync? && Ended(s.calls[i]) ==>
                  s.calls[i].pc.result == Done && exists k: nat :: ResyncAt(s, k, i)
  }

  /** A `next` that ended has a number, or threw because its fetch was rejected; a fetched number
      is the network's answer to that call. */
  ghost predicate NextsOk(s: State, actions: seq<Action>) {
    && (forall i :: 0 <= i < |s.calls| && s.calls[i].op.Next? && Ended(s.calls[i]) ==>
          s.calls[i].pc.result.Number? || (s.calls[i].pc.result == Thrown && FetchRejects(i) in actions))
    && (forall k :: 0 <= k < |s.log| && s.log[k].Issued? && s.log[k].fetched.Some? ==>
          FetchResolves(s.log[k].call, s.log[k].fetched.value) in actions)
  }

  lemma StepKeepsEntriesOk(s: State, a: Action)
    requires EntriesOk(s) && Enabled(s, a)
    ensures EntriesOk(Perform(s, a))
  {
    var t := Perform(s, a);
    var n := |s.log|;
    ResyncLogged(s, a);
    forall k | 0 <= k < n && s.log[k].Resynced?
      ensures t.log[k] == s.log[k] && ResyncAt(t, k, t.log[k].call)
      ensures t.calls[t.log[k].call].op.Resync? && Ended(t.calls[t.log[k].call])
    {
      assert ResyncAt(s, k, s.log[k].call);
      CallKept(s, a, s.log[k].call);
    }
    hide Enabled, Perform;
  }

  lemma CallKept(s: State, a: Action, i: nat)
    requires Enabled(s, a) && i < |s.calls|
    ensures i < |Perform(s, a).calls| && Perform(s, a).calls[i].op == s.calls[i].op
    ensures Perform(s, a).calls[i].account == s.calls[i].account
    ensures Ended(s.calls[i]) ==> Ended(Perform(s, a).calls[i])
  {
  }

  /** What a step does to the log. */
  lemma ResyncLogged(s: State, a: Action)
    requires Enabled(s, a)
    ensures var t, n := Perform(s, a), |s.log|;
            && s.log <= t.log && |t.log| <= n + 1
            && (|t.log| > n && t.log[n].Resynced? ==>
                  ResyncAt(t, n, t.log[n].call) && t.calls[t.log[n].call].op.Resync?
                  && Ended(t.calls[t.log[n].call])
                  && t.log[n].call < |s.calls| && !Ended(s.calls[t.log[n].call]))
  {
  }

  lemma StepKeepsResyncsOk(s: State, a: Action)
    requires CacheOk(s) && ResyncsOk(s) && Enabled(s, a)
    ensures ResyncsOk(Perform(s, a))
  {
    hide Legal, Cached;
    var t := Perform(s, a);
    forall i | 0 <= i < |t.calls| && t.calls[i].op.Resync? && Ended(t.calls[i])
      ensures t.calls[i].pc.result == Done && exists k: nat :: ResyncAt(t, k, i)
    {
      if i < |s.calls| && Ended(s.calls[i]) {
        var k: nat :| ResyncAt(s, k, i);
        assert ResyncAt(t, k, i);
      } else {
        assert ResyncAt(t, |s.log|, i);
      }
    }
  }

  lemma StepKeepsNextsOk(s: State, actions: seq<Action>, a: Action)
    requires Inv(s) && NextsOk(s, actions) && Enabled(s, a)
    ensures NextsOk(Perform(s, a), actions + [a])
  {
    hide LocksOk, ResultsOk, Legal, Cached;
    assert a in actions + [a];
    assert forall b :: b in actions ==> b in actions + [a];
    var t := Perform(s, a);
    forall i | 0 <= i < |t.calls| && t.calls[i].op.Next? && Ended(t.calls[i])
      ensures t.calls[i].pc.result.Number? || (t.calls[i].pc.result == Thrown && FetchRejects(i) in actions + [a])
    {
      if i < |s.calls| && !Ended(s.calls[i]) {}
    }
  }

  lemma {:induction false} RunKeepsResyncsOk(run: seq<State>, t: nat)
    requires IsRun(run) && t < |run|
    ensures EntriesOk(run[t]) && ResyncsOk(run[t])
  {
    hide LocksOk, CacheOk, ResultsOk, EntriesOk, ResyncsOk, Perform, Enabled;
    if t == 0 {
      NothingEnded();
    } else {
      RunKeepsResyncsOk(run, t - 1);
      ReachedOk(run, t - 1);
      assert Steps(run[t - 1], run[t - 1 + 1]);
      var a :| Enabled(run[t - 1], a) && Perform(run[t - 1], a) == run[t];
      StepKeepsEntriesOk(run[t - 1], a);
      StepKeepsResyncsOk(run[t - 1], a);
    }
  }

  lemma {:induction false} TraceKeepsNextsOk(run: seq<State>, actions: seq<Action>, t: nat)
    requires IsTrace(run, actions) && t < |run|
    ensures NextsOk(run[t], actions[..t])
  {
    hide Inv, Perform, Enabled, NextsOk;
    if t == 0 {
      NothingEnded();
    } else {
      TraceKeepsNextsOk(run, actions, t - 1);
      TraceIsRun(run, actions);
      ReachedOk(run, t - 1);
      assert Enabled(run[t - 1], actions[t - 1]) && Perform(run[t - 1], actions[t - 1]) == run[t - 1 + 1];
      StepKeepsNextsOk(run[t - 1], actions[..t - 1], actions[t - 1]);
      assert actions[..t] == actions[..t - 1] + [actions[t - 1]];
    }
  }

  lemma NothingEnded()
    ensures EntriesOk(Init) && ResyncsOk(Init) && NextsOk(Init, [])
  {
  }

  lemma NumbersHaveCalls(s: State)
    requires ResultsOk(s)
    ensures forall l :: 0 <= l < |s.log| && s.log[l].Issued? ==>
              s.log[l].call < |s.calls| && Numbered(s.calls[s.log[l].call])
  {
    forall l | 0 <= l < |s.log| && s.log[l].Issued?
      ensures s.log[l].call < |s.calls| && Numbered(s.calls[s.log[l].call])
    {
      assert LoggedFor(s, l, s.log[l].call);
    }
  }

  /** A `resync` that ended ended without a number, and the log holds one entry of it: the one
      that says its account was resynced. */
  lemma ResyncIsLogged(run: seq<State>, t: nat, i: nat)
    requires IsRun(run) && t < |run| && i < |run[t].calls| && run[t].calls[i].op.Resync? && Ended(run[t].calls[i])
    ensures run[t].calls[i].pc.result == Done
    ensures exists k: nat :: k < |run[t].log| && run[t].log[k] == Resynced(i, run[t].calls[i].account)
                             && forall l :: 0 <= l < |run[t].log| && run[t].log[l].call == i ==> l == k
  {
    RunKeepsResyncsOk(run, t);
    ReachedOk(run, t);
    var s := run[t];
    hide LocksOk, CacheOk, IsRun;
    var k: nat :| ResyncAt(s, k, i);
    NumbersHaveCalls(s);
  }

  /** A `next` that ended without a number threw, and did so because its fetch was rejected; a
      number logged as fetched is what the network answered that call, plus one. */
  lemma EndsWithoutNumberThrew(run: seq<State>, actions: seq<Action>, t: nat, i: nat)
    requires IsTrace(run, actions) && t < |run|
    requires i < |run[t].calls| && run[t].calls[i].op.Next? && Ended(run[t].calls[i])
    ensures run[t].calls[i].pc.result.Number?
            || (run[t].calls[i].pc.result == Thrown && FetchRejects(i) in actions[..t])
    ensures forall k :: 0 <= k < |run[t].log| && run[t].log[k].Issued? && run[t].log[k].fetched.Some? ==>
              FetchResolves(run[t].log[k].call, run[t].log[k].fetched.value) in actions[..t]
  {
    TraceKeepsNextsOk(run, actions, t);
    hide IsTrace;
  }

  // ---------- what a resync does to the numbers after it ----------

  /** What a step only adds to. */
  ghost predicate Grown(s: State, t: State) {
    && s.log <= t.log && |s.calls| <= |t.calls|
    && forall i :: 0 <= i < |s.calls| ==> t.calls[i].op == s.calls[i].op && t.calls[i].account == s.calls[i].account
  }

  lemma StepGrows(s: State, a: Action)
    requires Enabled(s, a)
    ensures Grown(s, Perform(s, a))
  {
  }

  lemma {:induction false} RunGrows(run: seq<State>, t: nat, u: nat)
    requires IsRun(run) && t <= u < |run|
    ensures Grown(run[t], run[u])
    decreases u
  {
    hide Perform, Enabled;
    if t < u {
      RunGrows(run, t, u - 1);
      assert Steps(run[u - 1], run[u - 1 + 1]);
      var a :| Enabled(run[u - 1], a) && Perform(run[u - 1], a) == run[u];
      StepGrows(run[u - 1], a);
    }
  }

  /** The last resync of the account at or after `k` and before `l`. */
  lemma {:induction false} LastResync(log: seq<Event>, account: string, k: nat, l: nat) returns (r: nat)
    requires k < l <= |log| && log[k].Resynced? && log[k].account == account
    ensures k <= r < l && log[r].Resynced? && log[r].account == account && NoResync(log, account, r + 1, l)
    decreases l
  {
    if log[l - 1].Resynced? && log[l - 1].account == account {
      r := l - 1;
    } else {
      r := LastResync(log, account, k, l - 1);
    }
  }

  /** The first number of the account issued after its resync at `r`, with nothing cached by then. */
  lemma {:induction false} FirstIssue(log: seq<Event>, account: string, r: nat, l: nat) returns (m: nat)
    requires r < l < |log| && log[r].Resynced? && log[r].account == account && NoResync(log, account, r + 1, l)
    requires log[l].Issued? && log[l].account == account
    ensures r < m <= l && log[m].Issued? && log[m].account == account && Cached(log[..m], account) == None
    decreases l
  {
    hide Cached;
    if n :| r < n < l && log[n].Issued? && log[n].account == account {
      m := FirstIssue(log, account, r, n);
    } else {
      m := l;
      NothingCached(log, account, r, l);
    }
  }

  lemma {:induction false} NothingCached(log: seq<Event>, account: string, r: nat, l: nat)
    requires r < l <= |log| && log[r].Resynced? && log[r].account == account
    requires forall n :: r < n < l ==> log[n].account != account
    ensures Cached(log[..l], account) == None
    decreases l
  {
    assert log[..l] == log[..l - 1] + [log[l - 1]];
    CachedAfter(log[..l - 1], log[l - 1], account);
    if r < l - 1 { NothingCached(log, account, r, l - 1); }
  }

  /** Entry `l` is a number counted up, one by one, from what the network answered a call that
      fetched after entry `k`. */
  ghost predicate CountsFromFetchAfter(log: seq<Event>, k: nat, l: nat)
    requires k < l < |log| && log[l].Issued?
  {
    exists m: nat :: k < m <= l && log[m].Issued? && log[m].account == log[l].account && log[m].fetched.Some?
                     && log[l].value == log[m].fetched.value + CountIssued(log, log[l].account, m, l + 1)
  }

  lemma LegalLogCountsFromFetch(log: seq<Event>, k: nat, l: nat)
    requires Legal(log) && k < l < |log| && log[l].Issued?
    requires log[k].Resynced? && log[k].account == log[l].account
    ensures CountsFromFetchAfter(log, k, l)
  {
    var account := log[l].account;
    var r := LastResync(log, account, k, l);
    var m := FirstIssue(log, account, r, l);
    LegalLogStarts(log, m);
    hide Legal, Cached;
    if m < l {
      LegalLogCounts(log, account, m, l);
    }
    OneMoreCounted(log, account, m, l + 1);
  }

  lemma {:induction false} OneMoreCounted(log: seq<Event>, account: string, m: nat, upto: nat)
    requires m < upto <= |log| && log[m].Issued? && log[m].account == account
    ensures CountIssued(log, account, m, upto) == 1 + CountIssued(log, account, m + 1, upto)
    decreases upto
  {
    if m + 1 < upto { OneMoreCounted(log, account, m, upto - 1); }
  }

  /** Once a resync has ended, a `next` for the same account that begins later and returns a number
      returns one counted from what the network answered after that resync: no number cached
      before it is ever used again. */
  lemma NextAfterResync(run: seq<State>, t: nat, i: nat, u: nat, j: nat, v: int)
    requires IsRun(run) && t <= u < |run|
    requires i < |run[t].calls| && run[t].calls[i].op.Resync? && Ended(run[t].calls[i])
    requires |run[t].calls| <= j < |run[u].calls| && run[u].calls[j].pc == Returned(Number(v))
    requires run[u].calls[j].account == run[t].calls[i].account
    ensures exists k: nat, l: nat ::
              && k < l < |run[u].log| && run[u].log[k] == Resynced(i, run[t].calls[i].account)
              && run[u].log[l].Issued? && run[u].log[l].call == j && run[u].log[l].value == v
              && CountsFromFetchAfter(run[u].log, k, l)
  {
    var log := run[u].log;
    RunGrows(run, t, u);
    ReachedOk(run, t);
    ReachedOk(run, u);
    RunKeepsResyncsOk(run, t);
    ReturnedNumbersAreLogged(run, u, j, v);
    hide IsRun, LocksOk, Legal, Cached, CountIssued, CountsFromFetchAfter;
    var k: nat :| ResyncAt(run[t], k, i);
    NumbersHaveCalls(run[t]);
    forall n | 0 <= n < |run[t].log| ensures log[n] == run[t].log[n] {}
    var l: nat :| LoggedFor(run[u], l, j) && log[l].value == v;
    LegalLogCountsFromFetch(log, k, l);
  }

  // ---------- every call ends ----------

  /** Segments a call has still to run. */
  function Rank(pc: Pc): nat {
    match pc
    case AtRegistry(standing) => if standing.Awaits? then 6 else 5
    case HasLock => 4
    case Waiting(_, _) => 3
    case Fetching(_) => 2
    case Leaving(_, _) => 1
    case Returned(_) => 0
  }

  function TotalRank(calls: seq<Call>): (n: nat)
    ensures n <= 6 * |calls|
  {
    if calls == [] then 0 else TotalRank(calls[..|calls| - 1]) + Rank(calls[|calls| - 1].pc)
  }

  lemma {:induction false} TotalRankAt(calls: seq<Call>, i: nat, c: Call)
    requires i < |calls|
    ensures TotalRank(calls[i := c]) == TotalRank(calls) - Rank(calls[i].pc) + Rank(c.pc)
  {
    hide Rank;
    var n := |calls| - 1;
    if i < n {
      TotalRankAt(calls[..n], i, c);
      assert calls[i := c][..n] == calls[..n][i := c];
    } else {
      assert calls[i := c][..n] == calls[..n];
    }
  }

  lemma StepLowersRank(s: State, a: Action)
    requires Enabled(s, a) && !a.Start?
    ensures TotalRank(Perform(s, a).calls) < TotalRank(s.calls) && |Perform(s, a).calls| == |s.calls|
  {
    hide TotalRank;
    TotalRankAt(s.calls, a.i, Perform(s, a).calls[a.i]);
  }

  lemma {:induction false} RanksFall(run: seq<State>, actions: seq<Action>, t: nat, u: nat)
    requires IsTrace(run, actions) && t <= u < |run|
    requires forall k :: t <= k < u ==> !actions[k].Start?
    ensures |run[u].calls| == |run[t].calls| && u - t + TotalRank(run[u].calls) <= TotalRank(run[t].calls)
    decreases u
  {
    hide Perform, Enabled, TotalRank;
    if t < u {
      RanksFall(run, actions, t, u - 1);
      assert Enabled(run[u - 1], actions[u - 1]) && Perform(run[u - 1], actions[u - 1]) == run[u - 1 + 1];
      StepLowersRank(run[u - 1], actions[u - 1]);
    }
  }

  lemma NobodyStuck(run: seq<State>, u: nat, i: nat)
    requires IsRun(run) && u < |run| && i < |run[u].calls|
    requires forall a: Action :: Enabled(run[u], a) ==> a.Start?
    ensures run[u].calls[i].pc.Returned?
  {
    hide Enabled, IsRun;
    if !run[u].calls[i].pc.Returned? { NoDeadlock(run, u, i); }
  }

  /** While no call begins, a run can take at most six steps per call, and when no step is left
      every call has returned: with failing fetches included, each `next` and `resync` ends. */
  lemma EveryCallReturns(run: seq<State>, actions: seq<Action>, t: nat, u: nat)
    requires IsTrace(run, actions) && t <= u < |run|
    requires forall k :: t <= k < u ==> !actions[k].Start?
    ensures |run[u].calls| == |run[t].calls|
    ensures u - t + TotalRank(run[u].calls) <= TotalRank(run[t].calls) <= 6 * |run[t].calls|
    ensures (forall a: Action :: Enabled(run[u], a) ==> a.Start?) ==>
              forall i :: 0 <= i < |run[u].calls| ==> run[u].calls[i].pc.Returned?
  {
    TraceIsRun(run, actions);
    RanksFall(run, actions, t, u);
    hide *;
    if forall a: Action :: Enabled(run[u], a) ==> a.Start? {
      forall i | 0 <= i < |run[u].calls| ensures run[u].calls[i].pc.Returned? {
        NobodyStuck(run, u, i);
      }
    }
  }
}
