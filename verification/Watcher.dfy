/**
 agents/watcher/watcher.ts: `tick`, `processJob` and `doProcess`. The guards are an object updated
 in place; any number of overlapping calls is a state machine with one atomic step per
 await-to-await segment, and separate steps for the moments the network acts.
 */
module Watcher {
  import opened Wrappers

  // ---------- the guards ----------

  /** `inFlight`, and for each key of `locks` the call that put it there. */
  datatype Guards = Guards(inFlight: set<string>, locks: map<string, nat>)

  datatype Entry = Entered | SkipInFlight | SkipLocked

  function EntryFor(g: Guards, job: string): Entry {
    if job in g.inFlight then SkipInFlight else if job in g.locks then SkipLocked else Entered
  }

  function Enter(g: Guards, job: string, call: nat): Guards {
    if EntryFor(g, job).Entered? then Guards(g.inFlight + {job}, g.locks[job := call]) else g
  }

  function Leave(g: Guards, job: string): Guards { Guards(g.inFlight - {job}, g.locks - {job}) }

  class JobExpirationWatcher {
    var inFlight: set<string>
    var locks: map<string, nat>

    constructor ()
      ensures View() == Guards({}, map[])
    {
      inFlight, locks := {}, map[];
    }

    function View(): Guards
      reads this
    {
      Guards(inFlight, locks)
    }

    predicate Valid()
      reads this
    {
      inFlight == locks.Keys
    }

    /** `processJob` up to its first await. */
    method Begin(job: string, call: nat) returns (entry: Entry)
      modifies this
      ensures entry == EntryFor(old(View()), job) && View() == Enter(old(View()), job, call)
    {
      if job in inFlight { return SkipInFlight; }
      if job in locks { return SkipLocked; }
      inFlight := inFlight + {job};
      locks := locks[job := call];
      return Entered;
    }

    /** The `finally` block of `processJob`. */
    method End(job: string)
      modifies this
      ensures View() == Leave(old(View()), job)
    {
      inFlight := inFlight - {job};
      locks := locks - {job};
    }

    /** The synchronous part of `tick`: every record is started in turn. A job enters once, at its
        first record, and only when it was not already in flight. */
    method Tick(expired: seq<string>, first: nat) returns (entries: seq<Entry>)
      requires Valid()
      modifies this
      ensures Valid()
      ensures |entries| == |expired|
      ensures forall i :: 0 <= i < |expired| ==>
                entries[i] == if expired[i] in old(inFlight) || Listed(expired, i, expired[i]) then SkipInFlight
                              else Entered
      ensures forall job :: job in inFlight <==> job in old(inFlight) || job in expired
    {
      hide Listed;
      entries := [];
      NotListed(expired);
      for i := 0 to |expired|
        invariant Valid() && |entries| == i
        invariant forall k :: 0 <= k < i ==>
                    entries[k] == if expired[k] in old(inFlight) || Listed(expired, k, expired[k]) then SkipInFlight
                                  else Entered
        invariant forall job :: job in inFlight <==> job in old(inFlight) || Listed(expired, i, job)
      {
        var entry := Begin(expired[i], first + i);
        entries := entries + [entry];
        ListedNext(expired, i);
      }
      AllListed(expired);
    }
  }

  /** The job has one of the first n records. */
  predicate Listed(expired: seq<string>, n: nat, job: string)
    requires n <= |expired|
  {
    exists k :: 0 <= k < n && expired[k] == job
  }

  lemma NotListed(expired: seq<string>)
    ensures forall job :: !Listed(expired, 0, job)
  {
  }

  lemma ListedNext(expired: seq<string>, i: nat)
    requires i < |expired|
    ensures forall job :: Listed(expired, i + 1, job) <==> Listed(expired, i, job) || job == expired[i]
  {
    forall job ensures Listed(expired, i + 1, job) <==> Listed(expired, i, job) || job == expired[i] {
      if Listed(expired, i, job) {
        var k :| 0 <= k < i && expired[k] == job;
        assert k < i + 1;
      }
      if job == expired[i] { assert 0 <= i < i + 1; }
    }
  }

  lemma AllListed(expired: seq<string>)
    ensures forall job :: Listed(expired, |expired|, job) <==> job in expired
  {
  }

  // ---------- overlapping calls ----------

  datatype OnChain = OnChain(status: string, providerSubmitted: bool)

  datatype RefundAction = Cancel | Expire

  datatype Pc =
    | Skipped(entry: Entry)
    | Asking                                      // `getJob` under way, the chain not read yet
    | Told(answer: Option<OnChain>)               // read; the answer is on its way
    | Submitting(read: OnChain, applied: bool)    // `refundJob` under way; whether it took effect
    | Returning(refunded: bool)                   // `doProcess` done, the guards still held
    | Finished(refunded: bool)

  datatype Call = Call(job: string, pc: Pc)

  /** A refund that took effect on the chain. */
  datatype Refund = Refund(call: nat, job: string, action: RefundAction)

  datatype State = State(guards: Guards, calls: seq<Call>, chain: map<string, OnChain>, refunds: seq<Refund>)

  datatype Action =
    | Start(job: string)
    | ChainIsRead(i: nat)
    | ReadFails(i: nat)
    | Decide(i: nat)
    | RefundApplies(i: nat, left: OnChain)
    | RefundReturns(i: nat, ok: bool)
    | Finish(i: nat)
    | World(job: string, now: Option<OnChain>)

  predicate Init(s: State) { s.guards == Guards({}, map[]) && s.calls == [] && s.refunds == [] }

  /** A refund reported as a success has taken effect by then; one reported as an error may have. */
  predicate Enabled(s: State, a: Action) {
    match a
    case Start(_) => true
    case ChainIsRead(i) => i < |s.calls| && s.calls[i].pc.Asking?
    case ReadFails(i) => i < |s.calls| && s.calls[i].pc.Asking?
    case Decide(i) => i < |s.calls| && s.calls[i].pc.Told?
    case RefundApplies(i, _) => i < |s.calls| && s.calls[i].pc.Submitting? && !s.calls[i].pc.applied
    case RefundReturns(i, ok) => i < |s.calls| && s.calls[i].pc.Submitting? && (ok ==> s.calls[i].pc.applied)
    case Finish(i) => i < |s.calls| && s.calls[i].pc.Returning?
    case World(_, _) => true
  }

  function Goto(s: State, i: nat, pc: Pc): State
    requires i < |s.calls|
  {
    s.(calls := s.calls[i := s.calls[i].(pc := pc)])
  }

  function Lookup(chain: map<string, OnChain>, job: string): Option<OnChain> {
    if job in chain then Some(chain[job]) else None
  }

  function ActionFor(read: OnChain): RefundAction {
    if read.providerSubmitted || read.status == "Submitted" then Expire else Cancel
  }

  function Perform(s: State, a: Action): State
    requires Enabled(s, a)
  {
    match a
    case Start(job) =>
      var entry := EntryFor(s.guards, job);
      s.(guards := Enter(s.guards, job, |s.calls|),
         calls := s.calls + [Call(job, if entry.Entered? then Asking else Skipped(entry))])
    case ChainIsRead(i) => Goto(s, i, Told(Lookup(s.chain, s.calls[i].job)))
    case ReadFails(i) => Goto(s, i, Returning(false))
    case Decide(i) =>
      var answer := s.calls[i].pc.answer;
      if answer.None? || answer.value.status != "Funded" then Goto(s, i, Returning(false))
      else Goto(s, i, Submitting(answer.value, false))
    case RefundApplies(i, left) =>
      var Call(job, pc) := s.calls[i];
      Goto(s, i, Submitting(pc.read, true)).(chain := s.chain[job := left],
                                             refunds := s.refunds + [Refund(i, job, ActionFor(pc.read))])
    case RefundReturns(i, ok) => Goto(s, i, Returning(ok))
    case Finish(i) =>
      Goto(s, i, Finished(s.calls[i].pc.refunded)).(guards := Leave(s.guards, s.calls[i].job))
    case World(job, now) =>
      s.(chain := if now.Some? then s.chain[job := now.value] else s.chain - {job})
  }

  predicate Refunded(refunds: seq<Refund>, job: string) { exists k :: 0 <= k < |refunds| && refunds[k].job == job }

  /** The hypothesis on the contract: a successful refund leaves the job no longer Funded, for good. */
  predicate KeepsRefunded(s: State, a: Action) {
    match a
    case RefundApplies(_, left) => left.status != "Funded"
    case World(job, now) => Refunded(s.refunds, job) && now.Some? ==> now.value.status != "Funded"
    case _ => true
  }

  ghost predicate Steps(s: State, t: State) { exists a :: Enabled(s, a) && Perform(s, a) == t }

  /** Any run: any ticks, any repeated records, any interleaving, anything the chain may do. */
  ghost predicate IsRun(run: seq<State>) {
    run != [] && Init(run[0]) && forall k :: 0 <= k < |run| - 1 ==> Steps(run[k], run[k + 1])
  }

  ghost predicate KeptSteps(s: State, t: State) {
    exists a :: Enabled(s, a) && KeepsRefunded(s, a) && Perform(s, a) == t
  }

  /** A run on which a refunded job is never Funded again. */
  ghost predicate IsKeptRun(run: seq<State>) {
    run != [] && Init(run[0]) && forall k :: 0 <= k < |run| - 1 ==> KeptSteps(run[k], run[k + 1])
  }

  lemma KeptRunIsRun(run: seq<State>)
    requires IsKeptRun(run)
    ensures IsRun(run)
  {
    hide Enabled, Perform, KeepsRefunded;
    forall k | 0 <= k < |run| - 1 ensures Steps(run[k], run[k + 1]) { assert KeptSteps(run[k], run[k + 1]); }
  }

  // ---------- the invariant ----------

  predicate Active(pc: Pc) { !pc.Skipped? && !pc.Finished? }

  /** Every guarded job has one active call, which holds both guards; nothing else is guarded. */
  predicate GuardsOk(s: State) {
    && s.guards.locks.Keys == s.guards.inFlight
    && (forall job :: job in s.guards.locks ==>
          && s.guards.locks[job] < |s.calls|
          && s.calls[s.guards.locks[job]].job == job && Active(s.calls[s.guards.locks[job]].pc))
    && (forall i :: 0 <= i < |s.calls| && Active(s.calls[i].pc) ==>
          s.calls[i].job in s.guards.locks && s.guards.locks[s.calls[i].job] == i)
    && (forall i :: 0 <= i < |s.calls| ==> s.calls[i].pc != Skipped(SkipLocked) && s.calls[i].pc != Skipped(Entered))
  }

  /** A call on its way to a refund that has not taken effect. */
  predicate Bound(pc: Pc) {
    || (pc.Told? && pc.answer.Some? && pc.answer.value.status == "Funded")
    || (pc.Submitting? && !pc.applied)
  }

  predicate Funded(chain: map<string, OnChain>, job: string) { job in chain && chain[job].status == "Funded" }

  predicate RefundsOk(s: State) {
    && (forall a, b :: 0 <= a < b < |s.refunds| ==> s.refunds[a].job != s.refunds[b].job)
    && (forall a :: 0 <= a < |s.refunds| ==> !Funded(s.chain, s.refunds[a].job))
    && (forall i :: 0 <= i < |s.calls| && Bound(s.calls[i].pc) ==> !Refunded(s.refunds, s.calls[i].job))
  }

  predicate RefundedBy(refunds: seq<Refund>, i: nat) { exists k :: 0 <= k < |refunds| && refunds[k].call == i }

  /** The log names the calls' own jobs, and calls that took, or report, a refund are in it. */
  predicate ReportsOk(s: State) {
    && (forall a :: 0 <= a < |s.refunds| ==>
          s.refunds[a].call < |s.calls| && s.calls[s.refunds[a].call].job == s.refunds[a].job)
    && (forall i :: 0 <= i < |s.calls| && s.calls[i].pc.Submitting? ==> s.calls[i].pc.read.status == "Funded")
    && (forall i :: 0 <= i < |s.calls| ==>
          match s.calls[i].pc
          case Submitting(_, applied) => applied ==> RefundedBy(s.refunds, i)
          case Returning(refunded) => refunded ==> RefundedBy(s.refunds, i)
          case Finished(refunded) => refunded ==> RefundedBy(s.refunds, i)
          case _ => true)
  }

  /** What holds on every run, whatever becomes of refunded jobs. */
  predicate Inv(s: State) { GuardsOk(s) && ReportsOk(s) }

  lemma StepKeepsGuards(s: State, a: Action)
    requires GuardsOk(s) && Enabled(s, a)
    ensures GuardsOk(Perform(s, a))
  {
    hide GuardsOk;
    match a {
      case Start(job) => StartKeepsGuards(s, job);
      case ChainIsRead(i) => GotoKeepsGuards(s, i, Told(Lookup(s.chain, s.calls[i].job)));
      case ReadFails(i) => GotoKeepsGuards(s, i, Returning(false));
      case Decide(i) =>
        GotoKeepsGuards(s, i, Returning(false));
        if s.calls[i].pc.answer.Some? { GotoKeepsGuards(s, i, Submitting(s.calls[i].pc.answer.value, false)); }
      case RefundApplies(i, left) =>
        GotoKeepsGuards(s, i, Submitting(s.calls[i].pc.read, true));
        OnlyGuardsMatter(Goto(s, i, Submitting(s.calls[i].pc.read, true)), Perform(s, a));
      case RefundReturns(i, ok) => GotoKeepsGuards(s, i, Returning(ok));
      case Finish(i) => FinishKeepsGuards(s, i);
      case World(job, now) => OnlyGuardsMatter(s, Perform(s, a));
    }
  }

  lemma OnlyGuardsMatter(s: State, t: State)
    requires GuardsOk(s) && t.guards == s.guards && t.calls == s.calls
    ensures GuardsOk(t)
  {
  }

  lemma GotoKeepsGuards(s: State, i: nat, pc: Pc)
    requires GuardsOk(s) && i < |s.calls| && Active(s.calls[i].pc) && Active(pc)
    ensures GuardsOk(Goto(s, i, pc))
  {
  }

  lemma StartKeepsGuards(s: State, job: string)
    requires GuardsOk(s)
    ensures GuardsOk(Perform(s, Start(job)))
  {
  }

  lemma FinishKeepsGuards(s: State, i: nat)
    requires GuardsOk(s) && Enabled(s, Finish(i))
    ensures GuardsOk(Perform(s, Finish(i)))
  {
  }

  lemma StepKeepsReports(s: State, a: Action)
    requires ReportsOk(s) && Enabled(s, a)
    ensures ReportsOk(Perform(s, a))
  {
    var t := Perform(s, a);
    forall i: nat | RefundedBy(s.refunds, i) ensures RefundedBy(t.refunds, i) {
      var k :| 0 <= k < |s.refunds| && s.refunds[k].call == i;
      assert t.refunds[k].call == i;
    }
    if a.RefundApplies? {
      assert t.refunds[|s.refunds|].call == a.i;
    }
  }

  lemma StepKeepsRefunds(s: State, a: Action)
    requires GuardsOk(s) && RefundsOk(s) && Enabled(s, a) && KeepsRefunded(s, a)
    ensures RefundsOk(Perform(s, a))
  {
    if a.RefundApplies? {
      ApplyingKeepsRefunds(s, a.i, a.left);
    } else {
      QuietKeepsRefunds(s, a);
    }
  }

  /** Without a refund taking effect: a call bound by what it reads has read Funded just now. */
  lemma QuietKeepsRefunds(s: State, a: Action)
    requires RefundsOk(s) && Enabled(s, a) && KeepsRefunded(s, a) && !a.RefundApplies?
    ensures RefundsOk(Perform(s, a))
  {
    var t := Perform(s, a);
    assert t.refunds == s.refunds;
    forall i | 0 <= i < |t.calls| && Bound(t.calls[i].pc) ensures !Refunded(t.refunds, t.calls[i].job) {
      if i < |s.calls| && !Bound(s.calls[i].pc) {
        assert a == ChainIsRead(i) && Funded(s.chain, s.calls[i].job);
      }
    }
  }

  /** No other call is bound to the job being refunded, and it has not been refunded before. */
  lemma ApplyingKeepsRefunds(s: State, i: nat, left: OnChain)
    requires GuardsOk(s) && RefundsOk(s) && Enabled(s, RefundApplies(i, left)) && left.status != "Funded"
    ensures RefundsOk(Perform(s, RefundApplies(i, left)))
  {
    var t := Perform(s, RefundApplies(i, left));
    forall j | 0 <= j < |t.calls| && Bound(t.calls[j].pc) ensures !Refunded(t.refunds, t.calls[j].job) {
      assert Active(s.calls[j].pc) && s.calls[j].job != s.calls[i].job;
    }
  }

  /** Every segment, chain read and refund keeps the guards and the reports consistent. */
  lemma StepKeepsInv(s: State, a: Action)
    requires Inv(s) && Enabled(s, a)
    ensures Inv(Perform(s, a))
  {
    hide GuardsOk, ReportsOk, Perform;
    StepKeepsGuards(s, a);
    StepKeepsReports(s, a);
  }

  lemma {:induction false} RunKeepsInv(run: seq<State>, k: nat)
    requires IsRun(run) && k < |run|
    ensures Inv(run[k])
  {
    if k > 0 {
      RunKeepsInv(run, k - 1);
      hide Inv, Perform, Enabled;
      assert Steps(run[k - 1], run[k - 1 + 1]);
      var a :| Enabled(run[k - 1], a) && Perform(run[k - 1], a) == run[k];
      StepKeepsInv(run[k - 1], a);
    }
  }

  lemma {:induction false} KeptRunKeepsRefunds(run: seq<State>, k: nat)
    requires IsKeptRun(run) && k < |run|
    ensures RefundsOk(run[k])
  {
    if k > 0 {
      KeptRunKeepsRefunds(run, k - 1);
      KeptRunIsRun(run);
      RunKeepsInv(run, k - 1);
      hide GuardsOk, RefundsOk, ReportsOk, Perform, Enabled, KeepsRefunded, IsRun;
      assert KeptSteps(run[k - 1], run[k - 1 + 1]);
      var a :| Enabled(run[k - 1], a) && KeepsRefunded(run[k - 1], a) && Perform(run[k - 1], a) == run[k];
      StepKeepsRefunds(run[k - 1], a);
    }
  }

  // ---------- what follows for every run ----------

  /** Both guards always hold exactly the jobs of the active calls, of which there is one per job. */
  lemma GuardsHoldActiveJobs(run: seq<State>, k: nat)
    requires IsRun(run) && k < |run|
    ensures var s := run[k];
            && s.guards.inFlight == s.guards.locks.Keys
            && s.guards.inFlight == (set i | 0 <= i < |s.calls| && Active(s.calls[i].pc) :: s.calls[i].job)
            && forall i, j :: 0 <= i < j < |s.calls| && Active(s.calls[i].pc) && Active(s.calls[j].pc)
                ==> s.calls[i].job != s.calls[j].job
  {
    RunKeepsInv(run, k);
    var s := run[k];
    hide IsRun, ReportsOk, Active;
    assert forall job :: job in s.guards.inFlight ==> job == s.calls[s.guards.locks[job]].job;
  }

  /** No job ever has two refunds in progress. */
  lemma NoTwoRefundsInProgress(run: seq<State>, k: nat, i: nat, j: nat)
    requires IsRun(run) && k < |run| && i < |run[k].calls| && j < |run[k].calls|
    requires run[k].calls[i].pc.Submitting? && run[k].calls[j].pc.Submitting?
             && run[k].calls[i].job == run[k].calls[j].job
    ensures i == j
  {
    hide IsRun;
    GuardsHoldActiveJobs(run, k);
  }

  function Count(refunds: seq<Refund>, job: string): nat {
    if refunds == [] then 0
    else Count(refunds[..|refunds| - 1], job) + if refunds[|refunds| - 1].job == job then 1 else 0
  }

  lemma {:induction false} CountDistinct(refunds: seq<Refund>, job: string)
    requires forall a, b :: 0 <= a < b < |refunds| ==> refunds[a].job != refunds[b].job
    ensures Count(refunds, job) <= 1
    ensures Count(refunds, job) == 1 <==> Refunded(refunds, job)
  {
    if refunds != [] {
      var n := |refunds| - 1;
      CountDistinct(refunds[..n], job);
      assert Refunded(refunds, job) <==> Refunded(refunds[..n], job) || refunds[n].job == job by {
        if Refunded(refunds[..n], job) {
          var k :| 0 <= k < n && refunds[..n][k].job == job;
          assert refunds[k].job == job;
        }
        if Refunded(refunds, job) {
          var k :| 0 <= k < |refunds| && refunds[k].job == job;
          assert k < n ==> refunds[..n][k].job == job;
        }
      }
    }
  }

  /** If a refunded job is never Funded again, each job is refunded at most once over a run. */
  lemma RefundedAtMostOnce(run: seq<State>, k: nat, job: string)
    requires IsKeptRun(run) && k < |run|
    ensures Count(run[k].refunds, job) <= 1
  {
    KeptRunKeepsRefunds(run, k);
    hide IsKeptRun;
    CountDistinct(run[k].refunds, job);
  }

  /** A call that reports a refund has made one, of its own job. */
  lemma ReportedRefundIsReal(run: seq<State>, k: nat, i: nat)
    requires IsRun(run) && k < |run| && i < |run[k].calls| && run[k].calls[i].pc == Finished(true)
    ensures exists a ::
               0 <= a < |run[k].refunds| && run[k].refunds[a].call == i && run[k].refunds[a].job == run[k].calls[i].job
  {
    RunKeepsInv(run, k);
    var s := run[k];
    hide IsRun, GuardsOk;
    assert RefundedBy(s.refunds, i);
    var a :| 0 <= a < |s.refunds| && s.refunds[a].call == i;
    assert s.refunds[a].job == s.calls[i].job;
  }

  /** And it is its job's only one, if a refunded job is never Funded again. */
  lemma ReportedRefundIsOnly(run: seq<State>, k: nat, i: nat)
    requires IsKeptRun(run) && k < |run| && i < |run[k].calls| && run[k].calls[i].pc == Finished(true)
    ensures Count(run[k].refunds, run[k].calls[i].job) == 1
  {
    KeptRunIsRun(run);
    ReportedRefundIsReal(run, k, i);
    KeptRunKeepsRefunds(run, k);
    var s := run[k];
    hide IsRun, IsKeptRun;
    CountDistinct(s.refunds, s.calls[i].job);
  }

  /** The per-job lock is never what stops a call: by then the in-flight guard has. */
  lemma LockBranchIsDead(run: seq<State>, k: nat, job: string)
    requires IsRun(run) && k < |run|
    ensures EntryFor(run[k].guards, job) != SkipLocked
    ensures forall i :: 0 <= i < |run[k].calls| ==> run[k].calls[i].pc != Skipped(SkipLocked)
  {
    RunKeepsInv(run, k);
    hide IsRun;
  }

  /** Only the provider's submission decides between expiring and cancelling: a call that submits
      has read the status Funded, so the test for Submitted never holds. */
  lemma SubmissionDecides(run: seq<State>, k: nat, i: nat)
    requires IsRun(run) && k < |run| && i < |run[k].calls| && run[k].calls[i].pc.Submitting?
    ensures ActionFor(run[k].calls[i].pc.read) == if run[k].calls[i].pc.read.providerSubmitted then Expire else Cancel
  {
    RunKeepsInv(run, k);
    hide IsRun;
  }

  /** Once no call is active the guards are empty, and any job can be taken up again. */
  lemma NothingIsLeftLocked(run: seq<State>, k: nat, job: string)
    requires IsRun(run) && k < |run|
    requires forall i :: 0 <= i < |run[k].calls| ==> !Active(run[k].calls[i].pc)
    ensures run[k].guards == Guards({}, map[]) && EntryFor(run[k].guards, job) == Entered
  {
    GuardsHoldActiveJobs(run, k);
    hide IsRun;
  }
}
