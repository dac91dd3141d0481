/**
 sdk/src/baseClient.ts: `Mutex` and `AccountSequenceManager` as the objects they are, one method
 for each await-to-await segment. Each method performs exactly the matching action of the state
 machine in SequenceManager. The running calls and the history are ghost: in the source they are
 the suspended async functions.
 */
module BaseClient {
  import P = PromiseMutex
  import opened SequenceManager
  import opened Wrappers

  class Mutex {
    var tail: nat
    var created: nat
    var resolved: set<nat>

    constructor ()
      ensures View() == P.Fresh
    {
      tail, created, resolved := 0, 0, {0};
    }

    function View(): P.Mutex
      reads this
    {
      P.Mutex(tail, created, resolved)
    }

    /** `runExclusive` up to awaiting the previous tail. */
    method Queue() returns (previous: nat, own: nat)
      modifies this
      ensures View() == P.Enqueue(old(View())) && P.Awaits(previous, own) == P.Ticket(old(View()))
    {
      previous := tail;
      created := created + 1;
      own := created;
      tail := own;
    }

    /** The `finally` block of `runExclusive`. */
    method Release(own: nat)
      modifies this
      ensures View() == P.Release(old(View()), own)
    {
      resolved := resolved + {own};
    }
  }

  class AccountSequenceManager {
    var sequences: map<string, int>
    var locks: map<string, Mutex>
    const registryLock: Mutex
    ghost var calls: seq<Call>
    ghost var log: seq<Event>

    constructor ()
      ensures Valid() && View() == Init && fresh(registryLock)
    {
      sequences, locks := map[], map[];
      registryLock := new Mutex();
      calls, log := [], [];
    }

    /** Every account has a mutex of its own, and none is the registry's. */
    ghost predicate Valid()
      reads this
    {
      && registryLock !in locks.Values
      && forall a, b :: a in locks && b in locks && a != b ==> locks[a] != locks[b]
    }

    ghost function View(): State
      reads this, registryLock, locks.Values
    {
      State(calls, registryLock.View(), map a | a in locks :: locks[a].View(), sequences, log)
    }

    /** `next` or `resync` is called: `lockFor` queues on the registry lock. */
    method Begin(op: Op, account: string) returns (previous: nat, own: nat)
      requires Valid()
      modifies this`calls, registryLock
      ensures Valid() && View() == Perform(old(View()), Start(op, account))
      ensures P.Awaits(previous, own) == P.Ticket(old(registryLock.View()))
    {
      previous, own := registryLock.Queue();
      calls := calls + [Call(op, account, AtRegistry(P.Awaits(previous, own)))];
    }

    /** The body of `lockFor`, once the registry lock is entered. */
    method FindOrCreateLock(i: nat, account: string)
      requires Valid() && Enabled(View(), EnterRegistry(i)) && calls[i].account == account
      modifies this`calls, this`locks
      ensures Valid() && View() == Perform(old(View()), EnterRegistry(i))
      ensures account in locks && (account in old(locks) ==> locks == old(locks))
    {
      if account !in locks {
        var lock := new Mutex();
        locks := locks[account := lock];
      }
      calls := calls[i := calls[i].(pc := AtRegistry(P.Inside(calls[i].pc.standing.own)))];
    }

    method ReleaseRegistry(i: nat, own: nat)
      requires Valid() && Enabled(View(), LeaveRegistry(i)) && calls[i].pc.standing.own == own
      modifies this`calls, registryLock
      ensures Valid() && View() == Perform(old(View()), LeaveRegistry(i))
    {
      registryLock.Release(own);
      calls := calls[i := calls[i].(pc := HasLock)];
    }

    /** `lock.runExclusive` up to awaiting the account's previous holder. */
    method QueueForAccount(i: nat, account: string) returns (previous: nat, own: nat)
      requires Valid() && Enabled(View(), QueueOnLock(i)) && calls[i].account == account
      modifies this`calls, locks[account]
      ensures Valid() && View() == Perform(old(View()), QueueOnLock(i))
    {
      previous, own := locks[account].Queue();
      calls := calls[i := calls[i].(pc := Waiting(previous, own))];
    }

    /** The body of `next` up to its fetch: a cached number is advanced and handed out at once. */
    method NextBody(i: nat, account: string) returns (result: Option<int>)
      requires Valid() && Enabled(View(), EnterLock(i)) && calls[i].account == account && calls[i].op == Next
      modifies this`calls, this`sequences, this`log
      ensures Valid() && View() == Perform(old(View()), EnterLock(i))
      ensures result == if account in old(sequences) then Some(old(sequences)[account] + 1) else None
      ensures sequences == if result.Some? then old(sequences)[account := result.value] else old(sequences)
    {
      ghost var own := calls[i].pc.own;
      if account in sequences {
        var next := sequences[account] + 1;
        sequences := sequences[account := next];
        log := log + [Issued(i, account, None, next)];
        calls := calls[i := calls[i].(pc := Leaving(own, Number(next)))];
        return Some(next);
      }
      calls := calls[i := calls[i].(pc := Fetching(own))];
      return None;
    }

    /** The rest of `next` once the network answered. */
    method NextFetched(i: nat, account: string, sequence: int) returns (next: int)
      requires Valid() && Enabled(View(), FetchResolves(i, sequence)) && calls[i].account == account
      modifies this`calls, this`sequences, this`log
      ensures Valid() && View() == Perform(old(View()), FetchResolves(i, sequence)) && next == sequence + 1
      ensures sequences == old(sequences)[account := next] && calls[i].pc.result == Number(next)
    {
      next := sequence + 1;
      sequences := sequences[account := next];
      log := log + [Issued(i, account, Some(sequence), next)];
      calls := calls[i := calls[i].(pc := Leaving(calls[i].pc.own, Number(next)))];
    }

    /** The network failed: `next` throws, and nothing is cached. */
    method NextFailed(i: nat)
      requires Valid() && Enabled(View(), FetchRejects(i))
      modifies this`calls
      ensures Valid() && View() == Perform(old(View()), FetchRejects(i))
      ensures calls[i].pc.Leaving? && calls[i].pc.result == Thrown
    {
      calls := calls[i := calls[i].(pc := Leaving(calls[i].pc.own, Thrown))];
    }

    method ResyncBody(i: nat, account: string)
      requires Valid() && Enabled(View(), EnterLock(i)) && calls[i].account == account && calls[i].op == Resync
      modifies this`calls, this`sequences, this`log
      ensures Valid() && View() == Perform(old(View()), EnterLock(i))
      ensures sequences == old(sequences) - {account} && log == old(log) + [Resynced(i, account)]
    {
      sequences := sequences - {account};
      log := log + [Resynced(i, account)];
      calls := calls[i := calls[i].(pc := Leaving(calls[i].pc.own, Done))];
    }

    method ReleaseAccount(i: nat, account: string, own: nat)
      requires Valid() && Enabled(View(), LeaveLock(i)) && calls[i].account == account && calls[i].pc.own == own
      modifies this`calls, locks[account]
      ensures Valid() && View() == Perform(old(View()), LeaveLock(i))
    {
      locks[account].Release(own);
      calls := calls[i := calls[i].(pc := Returned(calls[i].pc.result))];
    }
  }
}
