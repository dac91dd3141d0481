/**
 `AccountSequenceManager` of sdk/src/baseClient.ts as a state machine: any number of `next` and
 `resync` calls for any accounts, one atomic step per await-to-await segment, any interleaving.
 */
module SequenceManager {
  import opened PromiseMutex
  import opened Wrappers

  datatype Op = Next | Resync

  /** Program counter of one call. */
  datatype Pc =
    | AtRegistry(standing: Standing)     // awaiting, or inside, the registry lock
    | HasLock                            // `lockFor` returned; not yet queued on the account's lock
    | Waiting(previous: nat, own: nat)   // queued on the account's lock
    | Fetching(own: nat)                 // inside, awaiting the network
    | Leaving(own: nat, result: Outcome) // body ended, lock not yet released
    | Returned(result: Outcome)

  /** What a call's body produced. */
  datatype Outcome = Number(value: int) | Done | Thrown

  datatype Call = Call(op: Op, account: string, pc: Pc)

  /** History of what bodies did, in the order they did it. */
  datatype Event =
    | Issued(call: nat, account: string, fetched: Option<int>, value: int)
    | Resynced(call: nat, account: string)

  datatype State = State(
    calls: seq<Call>,
    registry: Mutex,
    locks: map<string, Mutex>,
    sequences: map<string, int>,
    log: seq<Event>)

  const Init := State([], Fresh, map[], map[], [])

  // ---------- atomic segments ----------

  datatype Action =
    | Start(op: Op, account: string)
    | EnterRegistry(i: nat)
    | LeaveRegistry(i: nat)
    | QueueOnLock(i: nat)
    | EnterLock(i: nat)
    | FetchResolves(i: nat, sequence: int)
    | FetchRejects(i: nat)
    | LeaveLock(i: nat)

  predicate Enabled(s: State, a: Action) {
    match a
    case Start(_, _) => true
    case EnterRegistry(i) => i < |s.calls| && s.calls[i].pc.AtRegistry? && s.calls[i].pc.standing.Awaits?
                             && s.calls[i].pc.standing.previous in s.registry.resolved
    case LeaveRegistry(i) => i < |s.calls| && s.calls[i].pc.AtRegistry? && s.calls[i].pc.standing.Inside?
    case QueueOnLock(i) => i < |s.calls| && s.calls[i].pc.HasLock? && s.calls[i].account in s.locks
    case EnterLock(i) => i < |s.calls| && s.calls[i].pc.Waiting? && s.calls[i].account in s.locks
                         && s.calls[i].pc.previous in s.locks[s.calls[i].account].resolved
    case FetchResolves(i, _) => i < |s.calls| && s.calls[i].pc.Fetching?
    case FetchRejects(i) => i < |s.calls| && s.calls[i].pc.Fetching?
    case LeaveLock(i) => i < |s.calls| && s.calls[i].pc.Leaving? && s.calls[i].account in s.locks
  }

  function Goto(s: State, i: nat, pc: Pc): State
    requires i < |s.calls|
  {
    s.(calls := s.calls[i := s.calls[i].(pc := pc)])
  }

  /** Caches `value` as the account's last number and hands it out. */
  function Issue(s: State, i: nat, own: nat, fetched: Option<int>, value: int): State
    requires i < |s.calls|
  {
    var account := s.calls[i].account;
    Goto(s, i, Leaving(own, Number(value))).(sequences := s.sequences[account := value],
                                             log := s.log + [Issued(i, account, fetched, value)])
  }

  function Perform(s: State, a: Action): State
    requires Enabled(s, a)
  {
    match a
    case Start(op, account) =>
      s.(calls := s.calls + [Call(op, account, AtRegistry(Ticket(s.registry)))], registry := Enqueue(s.registry))
    case EnterRegistry(i) =>
      var account := s.calls[i].account;
      Goto(s, i, AtRegistry(Inside(s.calls[i].pc.standing.own)))
        .(locks := if account in s.locks then s.locks else s.locks[account := Fresh])
    case LeaveRegistry(i) =>
      Goto(s, i, HasLock).(registry := Release(s.registry, s.calls[i].pc.standing.own))
    case QueueOnLock(i) =>
      var account := s.calls[i].account;
      var ticket := Ticket(s.locks[account]);
      Goto(s, i, Waiting(ticket.previous, ticket.own)).(locks := s.locks[account := Enqueue(s.locks[account])])
    case EnterLock(i) =>
      var Call(op, account, pc) := s.calls[i];
      match op {
        case Next =>
          if account in s.sequences then Issue(s, i, pc.own, None, s.sequences[account] + 1)
          else Goto(s, i, Fetching(pc.own))
        case Resync =>
          Goto(s, i, Leaving(pc.own, Done)).(sequences := s.sequences - {account},
                                             log := s.log + [Resynced(i, account)])
      }
    case FetchResolves(i, sequence) => Issue(s, i, s.calls[i].pc.own, Some(sequence), sequence + 1)
    case FetchRejects(i) => Goto(s, i, Leaving(s.calls[i].pc.own, Thrown))
    case LeaveLock(i) =>
      var Call(_, account, pc) := s.calls[i];
      Goto(s, i, Returned(pc.result)).(locks := s.locks[account := Release(s.locks[account], pc.own)])
  }

  ghost predicate Steps(s: State, t: State) { exists a :: Enabled(s, a) && Perform(s, a) == t }

  /** Any run: any calls, any interleaving, any network answers. */
  ghost predicate IsRun(run: seq<State>) {
    run != [] && run[0] == Init && forall k :: 0 <= k < |run| - 1 ==> Steps(run[k], run[k + 1])
  }

  // ---------- the sequential allocator the log is judged by ----------

  /** The cached number after the events of `log`, as one caller at a time would leave it. */
  ghost function Cached(log: seq<Event>, account: string): Option<int> {
    if log == [] then None
    else
      match log[|log| - 1]
      case Issued(_, a, _, v) => if a == account then Some(v) else Cached(log[..|log| - 1], account)
      case Resynced(_, a) => if a == account then None else Cached(log[..|log| - 1], account)
  }

  /** Each number is one more than the cached one, or than the freshly fetched one if none is cached. */
  ghost predicate Legal(log: seq<Event>) {
    log == [] || (Legal(log[..|log| - 1]) && LegalEvent(log[..|log| - 1], log[|log| - 1]))
  }

  ghost predicate LegalEvent(before: seq<Event>, e: Event) {
    match e
    case Resynced(_, _) => true
    case Issued(_, a, fetched, v) =>
      match Cached(before, a)
      case Some(c) => fetched == None && v == c + 1
      case None => fetched.Some? && v == fetched.value + 1
  }

  // ---------- invariant ----------

  ghost function RegistryStanding(c: Call): Standing {
    if c.pc.AtRegistry? then c.pc.standing else Absent
  }

  ghost function LockStanding(c: Call, account: string): Standing {
    if c.account != account then Absent
    else match c.pc
         case Waiting(p, o) => Awaits(p, o)
         case Fetching(o) => Inside(o)
         case Leaving(o, _) => Inside(o)
         case _ => Absent
  }

  ghost function AtRegistrySeq(s: State): (cs: seq<Standing>)
    ensures |cs| == |s.calls| && forall i :: 0 <= i < |cs| ==> cs[i] == RegistryStanding(s.calls[i])
  {
    seq(|s.calls|, i requires 0 <= i < |s.calls| => RegistryStanding(s.calls[i]))
  }

  ghost function AtLockSeq(s: State, account: string): (cs: seq<Standing>)
    ensures |cs| == |s.calls| && forall i :: 0 <= i < |cs| ==> cs[i] == LockStanding(s.calls[i], account)
  {
    seq(|s.calls|, i requires 0 <= i < |s.calls| => LockStanding(s.calls[i], account))
  }

  ghost predicate LocksOk(s: State) {
    && Coherent(s.registry, AtRegistrySeq(s))
    && (forall i :: 0 <= i < |s.calls| && s.calls[i].pc.AtRegistry? ==> !s.calls[i].pc.standing.Absent?)
    && (forall a :: a in s.locks ==> Coherent(s.locks[a], AtLockSeq(s, a)))
    && (forall i :: 0 <= i < |s.calls| && (s.calls[i].pc.AtRegistry? ==> s.calls[i].pc.standing.Inside?) ==>
          s.calls[i].account in s.locks)
  }

  /** The result a call has, once its body ended. */
  ghost predicate HasResult(c: Call, r: Outcome) {
    (c.pc.Leaving? || c.pc.Returned?) && c.pc.result == r
  }

  /** The cache is what one caller at a time would have left, and only uncached accounts are fetched. */
  ghost predicate CacheOk(s: State) {
    && Legal(s.log)
    && (forall a :: Cached(s.log, a) == CachedIn(s, a))
    && (forall i :: 0 <= i < |s.calls| && s.calls[i].pc.Fetching? ==>
          s.calls[i].account !in s.sequences && s.calls[i].op.Next?)
  }

  ghost function CachedIn(s: State, a: string): Option<int> {
    if a in s.sequences then Some(s.sequences[a]) else None
  }

  /** Entry `k` of the log is the number call `i` got. */
  ghost predicate LoggedFor(s: State, k: nat, i: nat) {
    k < |s.log| && s.log[k].Issued? && s.log[k].call == i && i < |s.calls| && s.log[k].account == s.calls[i].account
    && HasResult(s.calls[i], Number(s.log[k].value))
  }

  /** Each number handed out is logged once, by the call that returns it. */
  ghost predicate ResultsOk(s: State) {
    && (forall k :: 0 <= k < |s.log| && s.log[k].Issued? ==> LoggedFor(s, k, s.log[k].call))
    && (forall k, l :: 0 <= k < l < |s.log| && s.log[k].Issued? && s.log[l].Issued? ==> s.log[k].call != s.log[l].call)
    && (forall i :: 0 <= i < |s.calls| && Numbered(s.calls[i]) ==> exists k: nat :: LoggedFor(s, k, i))
  }

  ghost predicate Numbered(c: Call) { (c.pc.Leaving? || c.pc.Returned?) && c.pc.result.Number? }

  ghost predicate NumbersOk(s: State) { CacheOk(s) && ResultsOk(s) }

  ghost predicate Inv(s: State) { LocksOk(s) && NumbersOk(s) }

  // ---------- the locks ----------

  lemma StandingsAfterGoto(s: State, i: nat, pc: Pc, a: string)
    requires i < |s.calls|
    ensures var t := Goto(s, i, pc);
            && AtRegistrySeq(t) == AtRegistrySeq(s)[i := RegistryStanding(t.calls[i])]
            && AtLockSeq(t, a) == AtLockSeq(s, a)[i := LockStanding(t.calls[i], a)]
  {
  }

  lemma StartKeepsLocksOk(s: State, op: Op, account: string)
    requires LocksOk(s)
    ensures LocksOk(Perform(s, Start(op, account)))
  {
    var t := Perform(s, Start(op, account));
    var with := AtRegistrySeq(s) + [Absent];
    BystanderKeepsOk(s.registry, AtRegistrySeq(s), with);
    EnqueueKeepsOk(s.registry, with, |s.calls|);
    assert AtRegistrySeq(t) == with[|s.calls| := Ticket(s.registry)];
    forall a | a in s.locks ensures Coherent(t.locks[a], AtLockSeq(t, a)) {
      BystanderKeepsOk(s.locks[a], AtLockSeq(s, a), AtLockSeq(t, a));
    }
  }

  /** A step that moves one call and neither touches nor changes its standing at a lock. */
  lemma SameStandings(s: State, i: nat, pc: Pc, a: string)
    requires i < |s.calls| && LockStanding(s.calls[i], a) == LockStanding(s.calls[i].(pc := pc), a)
    ensures AtLockSeq(Goto(s, i, pc), a) == AtLockSeq(s, a)
  {
  }

  lemma EnterRegistryKeepsLocksOk(s: State, i: nat)
    requires LocksOk(s) && Enabled(s, EnterRegistry(i))
    ensures LocksOk(Perform(s, EnterRegistry(i)))
  {
    var t := Perform(s, EnterRegistry(i));
    var pc := t.calls[i].pc;
    EnterKeepsOk(s.registry, AtRegistrySeq(s), i);
    StandingsAfterGoto(s, i, pc, s.calls[i].account);
    assert AtRegistrySeq(t) == AtRegistrySeq(Goto(s, i, pc));
    forall a | a in t.locks ensures Coherent(t.locks[a], AtLockSeq(t, a)) {
      SameStandings(s, i, pc, a);
      assert AtLockSeq(t, a) == AtLockSeq(s, a);
    }
  }

  lemma LeaveRegistryKeepsLocksOk(s: State, i: nat)
    requires LocksOk(s) && Enabled(s, LeaveRegistry(i))
    ensures LocksOk(Perform(s, LeaveRegistry(i)))
  {
    var t := Perform(s, LeaveRegistry(i));
    ReleaseKeepsOk(s.registry, AtRegistrySeq(s), i);
    StandingsAfterGoto(s, i, HasLock, s.calls[i].account);
    assert AtRegistrySeq(t) == AtRegistrySeq(Goto(s, i, HasLock));
    forall a | a in t.locks ensures Coherent(t.locks[a], AtLockSeq(t, a)) {
      SameStandings(s, i, HasLock, a);
      assert AtLockSeq(t, a) == AtLockSeq(s, a);
    }
  }

  /** Any step of call `i` at its account's lock, given what it does to that one lock. */
  lemma LockStepKeepsLocksOk(s: State, t: State, i: nat, pc: Pc, lock: Mutex)
    requires LocksOk(s) && i < |s.calls| && !s.calls[i].pc.AtRegistry? && !pc.AtRegistry?
    requires s.calls[i].account in s.locks
    requires t.calls == Goto(s, i, pc).calls && t.registry == s.registry
             && t.locks == s.locks[s.calls[i].account := lock]
    requires Coherent(lock, AtLockSeq(s, s.calls[i].account)[
                              i := LockStanding(s.calls[i].(pc := pc), s.calls[i].account)])
    ensures LocksOk(t)
  {
    StandingsAfterGoto(s, i, pc, s.calls[i].account);
    assert AtRegistrySeq(t) == AtRegistrySeq(s);
    forall a | a in t.locks ensures Coherent(t.locks[a], AtLockSeq(t, a)) {
      assert AtLockSeq(t, a) == AtLockSeq(Goto(s, i, pc), a);
      if a != s.calls[i].account { SameStandings(s, i, pc, a); }
    }
  }

  lemma QueueKeepsLocksOk(s: State, i: nat)
    requires LocksOk(s) && Enabled(s, QueueOnLock(i))
    ensures LocksOk(Perform(s, QueueOnLock(i)))
  {
    var a, t := s.calls[i].account, Perform(s, QueueOnLock(i));
    EnqueueKeepsOk(s.locks[a], AtLockSeq(s, a), i);
    LockStepKeepsLocksOk(s, t, i, t.calls[i].pc, t.locks[a]);
  }

  lemma EnterKeepsLocksOk(s: State, i: nat)
    requires LocksOk(s) && Enabled(s, EnterLock(i))
    ensures LocksOk(Perform(s, EnterLock(i)))
  {
    var a, t := s.calls[i].account, Perform(s, EnterLock(i));
    var pc := t.calls[i].pc;
    EnterKeepsOk(s.locks[a], AtLockSeq(s, a), i);
    assert s.locks[a := s.locks[a]] == s.locks;
    assert LockStanding(s.calls[i].(pc := pc), a) == Inside(s.calls[i].pc.own);
    assert t.calls == Goto(s, i, pc).calls;
    LockStepKeepsLocksOk(s, t, i, pc, s.locks[a]);
  }

  /** A body that ends while inside keeps its place until it releases. */
  lemma BodyEndKeepsLocksOk(s: State, i: nat, result: Outcome, t: State)
    requires LocksOk(s) && i < |s.calls| && s.calls[i].pc.Fetching?
    requires t.calls == Goto(s, i, Leaving(s.calls[i].pc.own, result)).calls && t.registry == s.registry
             && t.locks == s.locks
    ensures LocksOk(t)
  {
    var a := s.calls[i].account;
    assert s.locks[a := s.locks[a]] == s.locks;
    assert AtLockSeq(s, a)[i := Inside(s.calls[i].pc.own)] == AtLockSeq(s, a);
    LockStepKeepsLocksOk(s, t, i, Leaving(s.calls[i].pc.own, result), s.locks[a]);
  }

  lemma LeaveKeepsLocksOk(s: State, i: nat)
    requires LocksOk(s) && Enabled(s, LeaveLock(i))
    ensures LocksOk(Perform(s, LeaveLock(i)))
  {
    var a, t := s.calls[i].account, Perform(s, LeaveLock(i));
    var own, pc := s.calls[i].pc.own, Returned(s.calls[i].pc.result);
    assert AtLockSeq(s, a)[i] == Inside(own);
    ReleaseKeepsOk(s.locks[a], AtLockSeq(s, a), i);
    assert LockStanding(s.calls[i].(pc := pc), a) == Absent;
    LockStepKeepsLocksOk(s, t, i, pc, Release(s.locks[a], own));
  }

  // ---------- the numbers ----------

  lemma CachedAfter(log: seq<Event>, e: Event, account: string)
    ensures Cached(log + [e], account) ==
            if e.account != account then Cached(log, account) else if e.Issued? then Some(e.value) else None
    ensures Legal(log + [e]) <==> Legal(log) && LegalEvent(log, e)
  {
    assert (log + [e])[..|log + [e]| - 1] == log;
  }

  /** While a call is inside its account's lock, no other call for the account is fetching. */
  lemma FetchIsAlone(s: State, i: nat, j: nat)
    requires LocksOk(s) && i < |s.calls| && j < |s.calls| && s.calls[i].account == s.calls[j].account
    requires s.calls[j].pc.Fetching?
    requires || s.calls[i].pc.Fetching?
             || (s.calls[i].pc.Waiting? && s.calls[i].pc.previous in s.locks[s.calls[i].account].resolved)
    ensures i == j
  {
    var a := s.calls[i].account;
    var cs := AtLockSeq(s, a);
    if s.calls[i].pc.Waiting? { EnterKeepsOk(s.locks[a], cs, i); }
    var ds := cs[i := Inside(s.calls[i].pc.own)];
    assert s.calls[i].pc.Fetching? ==> ds == cs;
    if i != j { ExclusiveInCallOrder(s.locks[a], ds, i, j); }
  }

  /** A legal event logged together with the matching change of the cache. */
  lemma EventKeepsCacheOk(s: State, t: State, e: Event)
    requires CacheOk(s) && t.log == s.log + [e] && LegalEvent(s.log, e)
    requires forall a :: CachedIn(t, a) == if e.account != a then CachedIn(s, a) else if e.Issued? then Some(e.value)
             else None
    requires forall i :: 0 <= i < |t.calls| && t.calls[i].pc.Fetching? ==>
                t.calls[i].account !in t.sequences && t.calls[i].op.Next?
    ensures CacheOk(t)
  {
    CachedAfter(s.log, e, e.account);
    forall a ensures Cached(t.log, a) == CachedIn(t, a) {
      CachedAfter(s.log, e, a);
      assert Cached(s.log, a) == CachedIn(s, a);
    }
  }

  lemma IssueKeepsCacheOk(s: State, i: nat, own: nat, fetched: Option<int>, value: int)
    requires CacheOk(s) && i < |s.calls|
    requires LegalEvent(s.log, Issued(i, s.calls[i].account, fetched, value))
    requires forall j :: 0 <= j < |s.calls| && j != i && s.calls[j].pc.Fetching? ==>
                s.calls[j].account != s.calls[i].account
    ensures CacheOk(Issue(s, i, own, fetched, value))
  {
    EventKeepsCacheOk(s, Issue(s, i, own, fetched, value), Issued(i, s.calls[i].account, fetched, value));
  }

  lemma IssueKeepsResultsOk(s: State, i: nat, own: nat, fetched: Option<int>, value: int)
    requires ResultsOk(s) && i < |s.calls| && !s.calls[i].pc.Leaving? && !s.calls[i].pc.Returned?
    ensures ResultsOk(Issue(s, i, own, fetched, value))
  {
    var t := Issue(s, i, own, fetched, value);
    assert LoggedFor(t, |s.log|, i);
    forall k | 0 <= k < |s.log| && s.log[k].Issued? ensures LoggedFor(t, k, t.log[k].call) && t.log[k].call != i {
      assert LoggedFor(s, k, s.log[k].call);
    }
    forall j | 0 <= j < |t.calls| && Numbered(t.calls[j]) ensures exists k: nat :: LoggedFor(t, k, j) {
      if j != i {
        assert Numbered(s.calls[j]);
        var k: nat :| LoggedFor(s, k, j);
        assert LoggedFor(t, k, j);
      }
    }
  }

  lemma ResyncKeepsCacheOk(s: State, i: nat)
    requires CacheOk(s) && Enabled(s, EnterLock(i)) && s.calls[i].op.Resync?
    ensures CacheOk(Perform(s, EnterLock(i)))
  {
    EventKeepsCacheOk(s, Perform(s, EnterLock(i)), Resynced(i, s.calls[i].account));
  }

  /** A step that hands out no number and changes no result. */
  ghost predicate SameResults(s: State, t: State) {
    && |s.calls| <= |t.calls|
    && (forall i :: 0 <= i < |s.calls| ==> s.calls[i].account == t.calls[i].account)
    && (forall i :: 0 <= i < |t.calls| && Numbered(t.calls[i]) ==>
          i < |s.calls| && Numbered(s.calls[i]) && t.calls[i].pc.result == s.calls[i].pc.result)
    && (forall i :: 0 <= i < |s.calls| && Numbered(s.calls[i]) ==> Numbered(t.calls[i]))
  }

  lemma SameResultsKeepResultsOk(s: State, t: State)
    requires ResultsOk(s) && SameResults(s, t)
    requires t.log == s.log || (|t.log| == |s.log| + 1 && t.log[..|s.log|] == s.log && t.log[|s.log|].Resynced?)
    ensures ResultsOk(t)
  {
    forall k | 0 <= k < |t.log| && t.log[k].Issued? ensures LoggedFor(t, k, t.log[k].call) && t.log[k] == s.log[k] {
      assert t.log[k] == s.log[k];
      assert LoggedFor(s, k, s.log[k].call);
    }
    forall j | 0 <= j < |t.calls| && Numbered(t.calls[j]) ensures exists k: nat :: LoggedFor(t, k, j) {
      var k: nat :| LoggedFor(s, k, j);
      assert t.log[k] == s.log[k];
      assert LoggedFor(t, k, j);
    }
  }

  /** A step that leaves the cache and the log alone, ends no body with a number, and fetches
      nothing that is cached. */
  ghost predicate Quiet(s: State, t: State) {
    && t.log == s.log && t.sequences == s.sequences
    && (forall i :: 0 <= i < |t.calls| && t.calls[i].pc.Fetching? ==>
          i < |s.calls| && s.calls[i].account == t.calls[i].account && s.calls[i].op == t.calls[i].op
          && (s.calls[i].pc.Fetching? || (s.calls[i].account !in s.sequences && s.calls[i].op.Next?)))
    && SameResults(s, t)
  }

  lemma QuietStep(s: State, a: Action)
    requires Enabled(s, a) && !a.FetchResolves?
    requires a.EnterLock? ==> s.calls[a.i].op.Next? && s.calls[a.i].account !in s.sequences
    ensures Quiet(s, Perform(s, a))
  {
  }

  lemma QuietKeepsNumbersOk(s: State, t: State)
    requires NumbersOk(s) && Quiet(s, t)
    ensures NumbersOk(t)
  {
    SameResultsKeepResultsOk(s, t);
    forall a ensures Cached(t.log, a) == CachedIn(t, a) { assert Cached(s.log, a) == CachedIn(s, a); }
  }

  lemma OthersNotFetching(s: State, i: nat)
    requires LocksOk(s) && i < |s.calls|
    requires s.calls[i].pc.Fetching? || Enabled(s, EnterLock(i))
    ensures forall j :: 0 <= j < |s.calls| && j != i && s.calls[j].pc.Fetching? ==>
               s.calls[j].account != s.calls[i].account
  {
    forall j | 0 <= j < |s.calls| && s.calls[j].pc.Fetching? && s.calls[j].account == s.calls[i].account
      ensures j == i
    {
      FetchIsAlone(s, i, j);
    }
  }

  lemma CachedNextKeepsNumbersOk(s: State, i: nat)
    requires LocksOk(s) && NumbersOk(s) && Enabled(s, EnterLock(i))
    requires s.calls[i].op.Next? && s.calls[i].account in s.sequences
    ensures NumbersOk(Perform(s, EnterLock(i)))
  {
    hide LocksOk, ResultsOk;
    var account := s.calls[i].account;
    OthersNotFetching(s, i);
    assert Cached(s.log, account) == CachedIn(s, account);
    IssueKeepsCacheOk(s, i, s.calls[i].pc.own, None, s.sequences[account] + 1);
    IssueKeepsResultsOk(s, i, s.calls[i].pc.own, None, s.sequences[account] + 1);
  }

  lemma ResyncKeepsNumbersOk(s: State, i: nat)
    requires NumbersOk(s) && Enabled(s, EnterLock(i)) && s.calls[i].op.Resync?
    ensures NumbersOk(Perform(s, EnterLock(i)))
  {
    hide CacheOk, ResultsOk;
    var t := Perform(s, EnterLock(i));
    ResyncKeepsCacheOk(s, i);
    assert SameResults(s, t);
    SameResultsKeepResultsOk(s, t);
  }

  lemma FetchKeepsNumbersOk(s: State, i: nat, sequence: int)
    requires LocksOk(s) && NumbersOk(s) && Enabled(s, FetchResolves(i, sequence))
    ensures NumbersOk(Perform(s, FetchResolves(i, sequence)))
  {
    hide LocksOk, ResultsOk;
    OthersNotFetching(s, i);
    assert Cached(s.log, s.calls[i].account) == CachedIn(s, s.calls[i].account);
    IssueKeepsCacheOk(s, i, s.calls[i].pc.own, Some(sequence), sequence + 1);
    IssueKeepsResultsOk(s, i, s.calls[i].pc.own, Some(sequence), sequence + 1);
  }

  // ---------- every run ----------

  lemma InitOk()
    ensures Inv(Init)
  {
  }

  lemma StepKeepsLocksOk(s: State, a: Action)
    requires LocksOk(s) && Enabled(s, a)
    ensures LocksOk(Perform(s, a))
  {
    hide LocksOk;
    match a
    case Start(op, account) => StartKeepsLocksOk(s, op, account);
    case EnterRegistry(i) => EnterRegistryKeepsLocksOk(s, i);
    case LeaveRegistry(i) => LeaveRegistryKeepsLocksOk(s, i);
    case QueueOnLock(i) => QueueKeepsLocksOk(s, i);
    case EnterLock(i) => EnterKeepsLocksOk(s, i);
    case FetchResolves(i, q) => BodyEndKeepsLocksOk(s, i, Number(q + 1), Perform(s, a));
    case FetchRejects(i) => BodyEndKeepsLocksOk(s, i, Thrown, Perform(s, a));
    case LeaveLock(i) => LeaveKeepsLocksOk(s, i);
  }

  lemma StepKeepsNumbersOk(s: State, a: Action)
    requires LocksOk(s) && NumbersOk(s) && Enabled(s, a)
    ensures NumbersOk(Perform(s, a))
  {
    hide LocksOk, NumbersOk, Quiet, Perform;
    if a.FetchResolves? {
      FetchKeepsNumbersOk(s, a.i, a.sequence);
    } else if a.EnterLock? && s.calls[a.i].op.Resync? {
      ResyncKeepsNumbersOk(s, a.i);
    } else if a.EnterLock? && s.calls[a.i].account in s.sequences {
      CachedNextKeepsNumbersOk(s, a.i);
    } else {
      QuietStep(s, a);
      QuietKeepsNumbersOk(s, Perform(s, a));
    }
  }

  /** Every atomic step of every call keeps the locks and the numbers consistent. */
  lemma StepKeepsInv(s: State, a: Action)
    requires Inv(s) && Enabled(s, a)
    ensures Inv(Perform(s, a))
  {
    hide LocksOk, NumbersOk, Perform;
    StepKeepsLocksOk(s, a);
    StepKeepsNumbersOk(s, a);
  }

  lemma {:induction false} RunKeepsInv(run: seq<State>)
    requires IsRun(run)
    ensures forall k :: 0 <= k < |run| ==> Inv(run[k])
  {
    hide Inv, Perform;
    if |run| == 1 {
      InitOk();
    } else {
      var front := run[..|run| - 1];
      RunKeepsInv(front);
      var s, t := run[|run| - 2], run[|run| - 1];
      assert Inv(front[|run| - 2]);
      assert Steps(s, run[|run| - 2 + 1]);
      var a :| Enabled(s, a) && Perform(s, a) == t;
      StepKeepsInv(s, a);
      forall k | 0 <= k < |run| ensures Inv(run[k]) {
        if k < |run| - 1 { assert run[k] == front[k]; }
      }
    }
  }

  // ---------- what callers see ----------

  /** In every reachable state, per mutex, at most one body is active and it is the earliest
      call not yet released. */
  lemma AtMostOneInside(run: seq<State>, k: nat, account: string, i: nat, j: nat)
    requires IsRun(run) && k < |run| && account in run[k].locks && i < |run[k].calls| && j < |run[k].calls| && i != j
    requires LockStanding(run[k].calls[i], account).Inside? && !LockStanding(run[k].calls[j], account).Absent?
    ensures LockStanding(run[k].calls[j], account).Awaits?
    ensures LockStanding(run[k].calls[j], account).own > LockStanding(run[k].calls[i], account).own
  {
    ReachedOk(run, k);
    ExclusiveInCallOrder(run[k].locks[account], AtLockSeq(run[k], account), i, j);
  }

  /** Numbers handed out for `account` at the positions of `log` from `from` up to, not including, `upto`. */
  ghost function CountIssued(log: seq<Event>, account: string, from: nat, upto: nat): nat
    requires from <= upto <= |log|
    decreases upto
  {
    if from == upto then 0
    else
      var last := log[upto - 1];
      CountIssued(log, account, from, upto - 1) + if last.Issued? && last.account == account then 1 else 0
  }

  ghost predicate NoResync(log: seq<Event>, account: string, from: nat, upto: nat)
    requires from <= upto <= |log|
  {
    forall n :: from <= n < upto ==> !(log[n].Resynced? && log[n].account == account)
  }

  lemma {:induction false} LegalPrefix(log: seq<Event>, n: nat)
    requires Legal(log) && n <= |log|
    ensures Legal(log[..n])
  {
    if n < |log| {
      LegalPrefix(log[..|log| - 1], n);
      assert log[..|log| - 1][..n] == log[..n];
    } else {
      assert log[..n] == log;
    }
  }

  /** Between resyncs a legal log counts: the cached number grows by one with every number issued. */
  lemma {:induction false} CachedCounts(log: seq<Event>, account: string, from: nat, upto: nat)
    requires Legal(log) && from <= upto <= |log| && NoResync(log, account, from, upto)
    requires Cached(log[..from], account).Some?
    ensures Cached(log[..upto], account)
            == Some(Cached(log[..from], account).value + CountIssued(log, account, from, upto))
    decreases upto
  {
    if from < upto {
      CachedCounts(log, account, from, upto - 1);
      LegalPrefix(log, upto);
      assert log[..upto] == log[..upto - 1] + [log[upto - 1]];
      CachedAfter(log[..upto - 1], log[upto - 1], account);
    }
  }

  lemma LegalLogCounts(log: seq<Event>, account: string, k: nat, l: nat)
    requires Legal(log) && k < l < |log| && NoResync(log, account, k, l)
    requires log[k].Issued? && log[k].account == account && log[l].Issued? && log[l].account == account
    ensures log[l].value == log[k].value + CountIssued(log, account, k + 1, l + 1)
  {
    assert log[..k + 1] == log[..k] + [log[k]];
    CachedAfter(log[..k], log[k], account);
    assert log[..l + 1] == log[..l] + [log[l]];
    CachedAfter(log[..l], log[l], account);
    CachedCounts(log, account, k + 1, l + 1);
  }

  lemma LegalLogStarts(log: seq<Event>, l: nat)
    requires Legal(log) && l < |log| && log[l].Issued? && Cached(log[..l], log[l].account) == None
    ensures log[l].fetched.Some? && log[l].value == log[l].fetched.value + 1
  {
    LegalPrefix(log, l + 1);
    assert log[..l + 1] == log[..l] + [log[l]];
    CachedAfter(log[..l], log[l], log[l].account);
  }

  lemma ReachedOk(run: seq<State>, t: nat)
    requires IsRun(run) && t < |run|
    ensures Inv(run[t])
  {
    RunKeepsInv(run);
  }

  /** The numbers `next` hands out for one account between two resyncs are consecutive, hence
      pairwise distinct, whatever the interleaving and the network did. */
  lemma ConsecutiveBetweenResyncs(run: seq<State>, t: nat, account: string, k: nat, l: nat)
    requires IsRun(run) && t < |run| && k < l < |run[t].log| && NoResync(run[t].log, account, k, l)
    requires run[t].log[k].Issued? && run[t].log[k].account == account
    requires run[t].log[l].Issued? && run[t].log[l].account == account
    ensures run[t].log[l].value == run[t].log[k].value + CountIssued(run[t].log, account, k + 1, l + 1)
    ensures run[t].log[l].value > run[t].log[k].value && run[t].log[l].call != run[t].log[k].call
  {
    ReachedOk(run, t);
    LegalLogCounts(run[t].log, account, k, l);
  }

  /** The first number after the start or a resync is one more than the number its call fetched. */
  lemma FirstIsFetchedPlusOne(run: seq<State>, t: nat, l: nat)
    requires IsRun(run) && t < |run| && l < |run[t].log| && run[t].log[l].Issued?
    requires Cached(run[t].log[..l], run[t].log[l].account) == None
    ensures run[t].log[l].fetched.Some? && run[t].log[l].value == run[t].log[l].fetched.value + 1
  {
    ReachedOk(run, t);
    LegalLogStarts(run[t].log, l);
  }

  /** Every number a call returned is in the log, under that call and its account. */
  lemma ReturnedNumbersAreLogged(run: seq<State>, t: nat, i: nat, v: int)
    requires IsRun(run) && t < |run| && i < |run[t].calls| && run[t].calls[i].pc == Returned(Number(v))
    ensures exists k: nat :: LoggedFor(run[t], k, i) && run[t].log[k].value == v
  {
    ReachedOk(run, t);
    assert Numbered(run[t].calls[i]);
    var k: nat :| LoggedFor(run[t], k, i);
  }

  lemma RegistryCanProceed(s: State, i: nat) returns (a: Action)
    requires LocksOk(s) && i < |s.calls| && s.calls[i].pc.AtRegistry?
    ensures !a.Start? && Enabled(s, a)
  {
    var k := SomeoneMayProceed(s.registry, AtRegistrySeq(s), i);
    a := if AtRegistrySeq(s)[k].Inside? then LeaveRegistry(k) else EnterRegistry(k);
  }

  lemma LockCanProceed(s: State, i: nat) returns (a: Action)
    requires LocksOk(s) && i < |s.calls| && s.calls[i].account in s.locks
             && !LockStanding(s.calls[i], s.calls[i].account).Absent?
    ensures !a.Start? && Enabled(s, a)
  {
    var account := s.calls[i].account;
    var k := SomeoneMayProceed(s.locks[account], AtLockSeq(s, account), i);
    a := match s.calls[k].pc
         case Waiting(_, _) => EnterLock(k)
         case Fetching(_) => FetchRejects(k)
         case _ => LeaveLock(k);
  }

  lemma UnfinishedCanProceed(s: State, i: nat) returns (a: Action)
    requires LocksOk(s) && i < |s.calls| && !s.calls[i].pc.Returned?
    ensures !a.Start? && Enabled(s, a)
  {
    if s.calls[i].pc.AtRegistry? {
      a := RegistryCanProceed(s, i);
    } else if s.calls[i].pc.HasLock? {
      a := QueueOnLock(i);
    } else {
      a := LockCanProceed(s, i);
    }
  }

  /** No deadlock, with throwing bodies included: while any call is unfinished, some segment of
      some unfinished call can run. */
  lemma NoDeadlock(run: seq<State>, t: nat, i: nat)
    requires IsRun(run) && t < |run| && i < |run[t].calls| && !run[t].calls[i].pc.Returned?
    ensures exists a: Action :: !a.Start? && Enabled(run[t], a)
  {
    ReachedOk(run, t);
    var a := UnfinishedCanProceed(run[t], i);
  }
}
