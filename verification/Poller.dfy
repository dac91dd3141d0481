/**
 indexer/src/poller.ts: `detectAndRecoverReorg`, `getFromLedger` and `poll`, over an event store
 with a watermark and ledger hashes.
 */
module Poller {
  import opened Strings
  import opened Wrappers

  datatype Event = Event(ledger: int, contract: string, body: string)

  // ---------- the store ----------

  datatype Snapshot = Snapshot(events: seq<Event>, last: Option<int>, hashes: map<int, string>)

  /** The events of ledgers up to the bound, in their order. */
  function UpTo(events: seq<Event>, ledger: int): (kept: seq<Event>)
    ensures |kept| <= |events|
  {
    if events == [] then []
    else
      var last := events[|events| - 1];
      UpTo(events[..|events| - 1], ledger) + (if last.ledger <= ledger then [last] else [])
  }

  class EventStore {
    var events: seq<Event>
    var last: Option<int>
    var hashes: map<int, string>

    constructor ()
      ensures View() == Snapshot([], None, map[])
    {
      events, last, hashes := [], None, map[];
    }

    function View(): Snapshot
      reads this
    {
      Snapshot(events, last, hashes)
    }

    method DeleteEventsFromLedger(ledger: int) returns (purged: nat)
      modifies this`events
      ensures events == UpTo(old(events), ledger - 1) && purged == |old(events)| - |events|
    {
      ghost var before := events;
      var kept: seq<Event> := [];
      for i := 0 to |events|
        invariant events == before && kept == UpTo(events[..i], ledger - 1)
      {
        assert events[..i + 1][..i] == events[..i];
        if events[i].ledger < ledger { kept := kept + [events[i]]; }
      }
      assert events[..|events|] == events;
      purged := |events| - |kept|;
      events := kept;
    }

    /** One transaction: every row, then the watermark and its hash. `failsAt` is the position of
        the write that fails, if one does; the whole batch is then rolled back. */
    method InsertEventsBatch(batch: seq<Event>, watermark: int, hash: Option<string>, failsAt: Option<nat>)
      returns (ok: bool)
      modifies this
      ensures ok == Commits(batch, failsAt)
      ensures ok <==> failsAt.None? || failsAt.value > |batch|
      ensures View() == if ok then Inserted(old(View()), batch, watermark, hash) else old(View())
      ensures ok ==> events == old(events) + batch && last == Some(watermark)
      ensures ok && hash.Some? ==> watermark in hashes && hashes[watermark] == hash.value
      ensures forall l :: l != watermark || !ok || hash.None? ==>
                (l in hashes <==> l in old(hashes)) && (l in hashes ==> hashes[l] == old(hashes)[l])
    {
      var saved := events;
      for i := 0 to |batch|
        invariant events == saved + batch[..i] && last == old(last) && hashes == old(hashes)
        invariant failsAt.Some? ==> i <= failsAt.value
      {
        if failsAt == Some(i) {
          events := saved;
          return false;
        }
        events := events + [batch[i]];
      }
      assert batch[..|batch|] == batch;
      if failsAt == Some(|batch|) {
        events := saved;
        return false;
      }
      last := Some(watermark);
      if hash.Some? { hashes := hashes[watermark := hash.value]; }
      return true;
    }
  }

  predicate Commits(batch: seq<Event>, failsAt: Option<nat>) { failsAt.None? || failsAt.value > |batch| }

  function Inserted(s: Snapshot, batch: seq<Event>, watermark: int, hash: Option<string>): Snapshot {
    Snapshot(s.events + batch, Some(watermark),
             if hash.Some? then s.hashes[watermark := hash.value] else s.hashes)
  }

  // ---------- what the network answers during one poll ----------

  /** Where reorg detection throws: on a read before any change, or between its two writes. */
  datatype Fault = NoFault | Reading | BetweenWrites

  datatype Round = Round(
    headers: int -> Option<string>,          // the hash reported for a ledger, if its header is obtained
    fault: Fault,
    latest: Option<int>,                     // the newest ledger, unless that call fails
    answers: nat -> Option<seq<Event>>,      // getEvents for each listed contract; None when it fails
    latestHash: Option<string>,
    failsAt: Option<nat>)

  datatype Config = Config(contracts: seq<string>, startLedger: int, maxReorgDepth: int)

  /** A stored or reported hash counts only when it is not empty. */
  function Usable(hash: Option<string>): Option<string> { if hash == Some("") then None else hash }

  function StoredHash(hashes: map<int, string>, ledger: int): Option<string> {
    if ledger in hashes then Usable(Some(hashes[ledger])) else None
  }

  predicate Matches(hashes: map<int, string>, headers: int -> Option<string>, ledger: int) {
    StoredHash(hashes, ledger).Some? && headers(ledger) == StoredHash(hashes, ledger)
  }

  /** From the candidate down, through recorded ledgers only, to the first match. */
  function WalkBack(candidate: int, budget: int, start: int, hashes: map<int, string>,
                    headers: int -> Option<string>): Option<int>
    decreases budget
  {
    if budget <= 0 || candidate < start || StoredHash(hashes, candidate).None? then None
    else if Matches(hashes, headers, candidate) then Some(candidate)
    else WalkBack(candidate - 1, budget - 1, start, hashes, headers)
  }

  function FromLedger(s: Snapshot, config: Config): int {
    if s.last.Some? then s.last.value + 1 else config.startLedger
  }

  /** The reported hash of the watermark contradicts the stored one. */
  predicate Forked(s: Snapshot, headers: int -> Option<string>) {
    && s.last.Some?
    && StoredHash(s.hashes, s.last.value).Some?
    && Usable(headers(s.last.value)).Some?
    && headers(s.last.value) != StoredHash(s.hashes, s.last.value)
  }

  /** Where a forked store is rewound to. */
  function RewoundTo(s: Snapshot, config: Config, headers: int -> Option<string>): int
    requires s.last.Some?
  {
    var met := WalkBack(s.last.value - 1, config.maxReorgDepth, config.startLedger, s.hashes, headers);
    if met.Some? then met.value else s.last.value
  }

  /** The store after reorg detection. */
  function Recovered(s: Snapshot, config: Config, round: Round): Snapshot {
    if round.fault == Reading || !Forked(s, round.headers) then s
    else
      var ledger := RewoundTo(s, config, round.headers);
      var purged := s.(events := UpTo(s.events, ledger));
      if round.fault == BetweenWrites then purged else purged.(last := Some(ledger))
  }

  class SorobanEventPoller {
    const store: EventStore
    const config: Config
    var reorgCount: nat

    constructor (store: EventStore, config: Config)
      ensures this.store == store && this.config == config && reorgCount == 0
    {
      this.store, this.config, reorgCount := store, config, 0;
    }

    method DetectAndRecoverReorg(round: Round) returns (from: Option<int>)
      modifies this`reorgCount, store
      ensures store.View() == Recovered(old(store.View()), config, round)
      ensures from.Some? ==> from.value == FromLedger(store.View(), config)
      ensures from.None?
              <==> round.fault == Reading
                   || (round.fault == BetweenWrites && Forked(old(store.View()), round.headers))
      ensures reorgCount == old(reorgCount) + if from.Some? && Forked(old(store.View()), round.headers) then 1 else 0
    {
      ghost var before := store.View();
      if round.fault == Reading { return None; }
      if store.last.None? { return Some(config.startLedger); }
      var last := store.last.value;
      var storedHash := StoredHash(store.hashes, last);
      if storedHash.None? { return Some(last + 1); }
      var header := round.headers(last);
      if Usable(header).None? { return Some(last + 1); }
      if header == storedHash { return Some(last + 1); }

      var forkLedger, rewoundTo := last, last;
      var depth := 0;
      while depth < config.maxReorgDepth
        invariant 0 <= depth && (depth <= config.maxReorgDepth || depth == 0)
        invariant forkLedger == last - depth && rewoundTo == last
        invariant store.View() == before && reorgCount == old(reorgCount)
        invariant WalkBack(last - 1, config.maxReorgDepth, config.startLedger, store.hashes, round.headers)
               == WalkBack(forkLedger - 1, config.maxReorgDepth - depth, config.startLedger,
                           store.hashes, round.headers)
        decreases config.maxReorgDepth - depth
      {
        var candidate := forkLedger - 1;
        if candidate < config.startLedger { break; }
        var candidateHash := StoredHash(store.hashes, candidate);
        if candidateHash.None? { break; }
        var candidateHeader := round.headers(candidate);
        if Usable(candidateHeader).Some? && candidateHeader == candidateHash {
          rewoundTo := candidate;
          break;
        }
        forkLedger := candidate;
        depth := depth + 1;
      }
      var purged := store.DeleteEventsFromLedger(rewoundTo + 1);
      if round.fault == BetweenWrites { return None; }
      store.last := Some(rewoundTo);
      reorgCount := reorgCount + 1;
      return Some(rewoundTo + 1);
    }

    method Poll(round: Round)
      modifies this`reorgCount, store
      ensures store.View() == AfterPoll(old(store.View()), config, round)
      ensures Writes(old(store.View()), config, round) && round.latestHash.Some? ==>
                && store.last == round.latest
                && round.latest.value in store.hashes && store.hashes[round.latest.value] == round.latestHash.value
    {
      var detected := DetectAndRecoverReorg(round);
      var fromLedger := if detected.Some? then detected.value
                        else if store.last.Some? then store.last.value + 1 else config.startLedger;
      if round.latest.None? { return; }
      var latest := round.latest.value;
      if fromLedger > latest { return; }
      var allInserts: seq<Event> := [];
      for i := 0 to |config.contracts|
        invariant allInserts == Collected(round.answers, i)
        invariant store.View() == Recovered(old(store.View()), config, round)
      {
        var response := round.answers(i);
        if response.None? || response.value == [] { continue; }
        allInserts := allInserts + response.value;
      }
      var ok := store.InsertEventsBatch(allInserts, latest, round.latestHash, round.failsAt);
    }
  }

  /** The first n contracts' events; a failed or empty answer contributes none. */
  function Collected(answers: nat -> Option<seq<Event>>, n: nat): seq<Event> {
    if n == 0 then []
    else Collected(answers, n - 1) + (if answers(n - 1).Some? then answers(n - 1).value else [])
  }

  function AfterPoll(s: Snapshot, config: Config, round: Round): Snapshot {
    var recovered := Recovered(s, config, round);
    var batch := Collected(round.answers, |config.contracts|);
    if round.latest.None? || FromLedger(recovered, config) > round.latest.value then recovered
    else if !Commits(batch, round.failsAt) then recovered
    else Inserted(recovered, batch, round.latest.value, round.latestHash)
  }

  // ---------- the walk back ----------

  /** The match the walk back meets: every ledger above it, up to the watermark, is recorded and
      does not match, and it is within the depth and not below the first ledger. */
  predicate Met(m: int, s: Snapshot, config: Config, headers: int -> Option<string>)
    requires s.last.Some?
  {
    && config.startLedger <= m < s.last.value && s.last.value - m <= config.maxReorgDepth
    && Matches(s.hashes, headers, m)
    && forall k :: m < k < s.last.value ==> StoredHash(s.hashes, k).Some? && !Matches(s.hashes, headers, k)
  }

  lemma {:induction false} WalkBackMeets(candidate: int, budget: int, start: int, hashes: map<int, string>,
          headers: int -> Option<string>, m: int)
    ensures WalkBack(candidate, budget, start, hashes, headers) == Some(m)
            <==> && start <= m <= candidate && candidate - m < budget
                 && Matches(hashes, headers, m)
                 && forall k :: m < k <= candidate ==> StoredHash(hashes, k).Some? && !Matches(hashes, headers, k)
    decreases budget
  {
    hide StoredHash;
    if budget > 0 && candidate >= start && StoredHash(hashes, candidate).Some? && !Matches(hashes, headers, candidate) {
      WalkBackMeets(candidate - 1, budget - 1, start, hashes, headers, m);
    }
  }

  lemma {:induction false} UpToSplits(events: seq<Event>, ledger: int)
    ensures forall e :: multiset(UpTo(events, ledger))[e] == if e.ledger <= ledger then multiset(events)[e] else 0
  {
    if events != [] {
      var n := |events| - 1;
      UpToSplits(events[..n], ledger);
      assert events == events[..n] + [events[n]];
    }
  }

  /** On a mismatch the store is rewound to the match the walk back meets, which is the greatest
      one below the old watermark; with none met the watermark stays. Everything above the new
      watermark is removed, nothing at or below it, and polling resumes one past it. */
  lemma RecoveryRewinds(s: Snapshot, config: Config, round: Round)
    requires Forked(s, round.headers) && round.fault == NoFault
    ensures var r := Recovered(s, config, round);
            && r.last.Some? && r.hashes == s.hashes && FromLedger(r, config) == r.last.value + 1
            && (forall e :: multiset(r.events)[e] == if e.ledger <= r.last.value then multiset(s.events)[e] else 0)
            && (forall m :: Met(m, s, config, round.headers) ==>
                  r.last == Some(m) && forall k :: m < k < s.last.value ==> !Matches(s.hashes, round.headers, k))
            && ((forall m :: !Met(m, s, config, round.headers)) ==> r.last == s.last)
  {
    var last := s.last.value;
    hide Matches, StoredHash, Forked, UpTo;
    UpToSplits(s.events, RewoundTo(s, config, round.headers));
    var met := WalkBack(last - 1, config.maxReorgDepth, config.startLedger, s.hashes, round.headers);
    if met.Some? {
      WalkBackMeets(last - 1, config.maxReorgDepth, config.startLedger, s.hashes, round.headers, met.value);
      assert Met(met.value, s, config, round.headers);
    }
    forall m | Met(m, s, config, round.headers) ensures met == Some(m) {
      WalkBackMeets(last - 1, config.maxReorgDepth, config.startLedger, s.hashes, round.headers, m);
    }
  }

  // ---------- the chain ----------

  /** The chain's events of one contract in the ledgers lo to hi. */
  function Slice(chain: seq<Event>, contract: string, lo: int, hi: int): seq<Event> {
    if chain == [] then []
    else
      var e := chain[|chain| - 1];
      Slice(chain[..|chain| - 1], contract, lo, hi)
          + (if e.contract == contract && lo <= e.ledger <= hi then [e] else [])
  }

  /** The same for a list of contracts, once for each time a contract is listed. */
  function Expected(chain: seq<Event>, contracts: seq<string>, lo: int, hi: int): multiset<Event> {
    if contracts == [] then multiset{}
    else
      var last := contracts[|contracts| - 1];
      Expected(chain, contracts[..|contracts| - 1], lo, hi) + multiset(Slice(chain, last, lo, hi))
  }

  lemma {:induction false} SliceSplits(chain: seq<Event>, contract: string, lo: int, mid: int, hi: int)
    requires lo - 1 <= mid <= hi
    ensures multiset(Slice(chain, contract, lo, hi))
            == multiset(Slice(chain, contract, lo, mid)) + multiset(Slice(chain, contract, mid + 1, hi))
  {
    if chain != [] { SliceSplits(chain[..|chain| - 1], contract, lo, mid, hi); }
  }

  lemma {:induction false} ExpectedSplits(chain: seq<Event>, contracts: seq<string>, lo: int, mid: int, hi: int)
    requires lo - 1 <= mid <= hi
    ensures Expected(chain, contracts, lo, hi) == Expected(chain, contracts, lo, mid)
            + Expected(chain, contracts, mid + 1, hi)
  {
    hide Slice;
    if contracts != [] {
      ExpectedSplits(chain, contracts[..|contracts| - 1], lo, mid, hi);
      SliceSplits(chain, contracts[|contracts| - 1], lo, mid, hi);
    }
  }

  lemma {:induction false} SliceEmpty(chain: seq<Event>, contract: string, lo: int, hi: int)
    requires hi < lo
    ensures Slice(chain, contract, lo, hi) == []
  {
    if chain != [] { SliceEmpty(chain[..|chain| - 1], contract, lo, hi); }
  }

  lemma {:induction false} ExpectedEmpty(chain: seq<Event>, contracts: seq<string>, lo: int, hi: int)
    requires hi < lo
    ensures Expected(chain, contracts, lo, hi) == multiset{}
  {
    if contracts != [] {
      ExpectedEmpty(chain, contracts[..|contracts| - 1], lo, hi);
      SliceEmpty(chain, contracts[|contracts| - 1], lo, hi);
    }
  }

  lemma {:induction false} SliceWithin(chain: seq<Event>, contract: string, lo: int, hi: int)
    ensures forall e :: e in Slice(chain, contract, lo, hi) ==> lo <= e.ledger <= hi
  {
    if chain != [] { SliceWithin(chain[..|chain| - 1], contract, lo, hi); }
  }

  lemma {:induction false} ExpectedWithin(chain: seq<Event>, contracts: seq<string>, lo: int, hi: int)
    ensures forall e :: e in Expected(chain, contracts, lo, hi) ==> lo <= e.ledger <= hi
  {
    hide Slice;
    if contracts != [] {
      ExpectedWithin(chain, contracts[..|contracts| - 1], lo, hi);
      SliceWithin(chain, contracts[|contracts| - 1], lo, hi);
    }
  }

  /** Events up to a ledger are the part of the slice up to it. */
  lemma UpToExpected(events: seq<Event>, chain: seq<Event>, contracts: seq<string>, lo: int, mid: int, hi: int)
    requires lo - 1 <= mid <= hi && multiset(events) == Expected(chain, contracts, lo, hi)
    ensures multiset(UpTo(events, mid)) == Expected(chain, contracts, lo, mid)
  {
    UpToSplits(events, mid);
    ExpectedSplits(chain, contracts, lo, mid, hi);
    ExpectedWithin(chain, contracts, lo, mid);
    ExpectedWithin(chain, contracts, mid + 1, hi);
    hide UpTo, Expected;
    forall e ensures multiset(UpTo(events, mid))[e] == Expected(chain, contracts, lo, mid)[e] {
      assert multiset(events)[e] == Expected(chain, contracts, lo, mid)[e] + Expected(chain, contracts, mid + 1, hi)[e];
    }
  }

  // ---------- rounds with complete answers ----------

  function Answer(round: Round, i: nat): seq<Event> {
    if round.answers(i).Some? then round.answers(i).value else []
  }

  /** Each contract's answer is its part of the chain from the ledger asked for to the newest. */
  predicate Complete(round: Round, contracts: seq<string>, chain: seq<Event>, from: int)
    requires round.latest.Some?
  {
    forall i :: 0 <= i < |contracts| ==>
       multiset(Answer(round, i)) == multiset(Slice(chain, contracts[i], from, round.latest.value))
  }

  lemma {:induction false} CompleteCollects(round: Round, contracts: seq<string>, chain: seq<Event>, from: int, n: nat)
    requires round.latest.Some? && Complete(round, contracts, chain, from) && n <= |contracts|
    ensures multiset(Collected(round.answers, n)) == Expected(chain, contracts[..n], from, round.latest.value)
  {
    hide Slice;
    if n > 0 {
      var k, latest := n - 1, round.latest.value;
      CompleteCollects(round, contracts, chain, from, k);
      assert contracts[..n][..k] == contracts[..k] && contracts[..n][k] == contracts[k];
      assert multiset(Answer(round, k)) == multiset(Slice(chain, contracts[k], from, latest));
      assert Collected(round.answers, n) == Collected(round.answers, k) + Answer(round, k);
      assert Expected(chain, contracts[..n], from, latest)
          == Expected(chain, contracts[..k], from, latest) + multiset(Slice(chain, contracts[k], from, latest));
      hide *;
    }
  }

  /** Whether the round gets to write a batch, and the batch is committed. */
  predicate Writes(s: Snapshot, config: Config, round: Round) {
    && round.latest.Some? && FromLedger(Recovered(s, config, round), config) <= round.latest.value
    && Commits(Collected(round.answers, |config.contracts|), round.failsAt)
  }

  /** A round that writes adds exactly the slice from where it resumed. */
  lemma WrittenSlice(s: Snapshot, config: Config, round: Round, chain: seq<Event>)
    requires Writes(s, config, round)
    requires Complete(round, config.contracts, chain, FromLedger(Recovered(s, config, round), config))
    ensures var r, after := Recovered(s, config, round), AfterPoll(s, config, round);
            && after.last == round.latest
            && multiset(after.events) == multiset(r.events)
                + Expected(chain, config.contracts, FromLedger(r, config), round.latest.value)
  {
    hide Recovered, Collected, Expected, Complete;
    CompleteCollects(round, config.contracts, chain, FromLedger(Recovered(s, config, round), config),
        |config.contracts|);
    assert config.contracts[..|config.contracts|] == config.contracts;
  }

  // ---------- runs on an unforked chain ----------

  /** The last ledger indexed, or the one before the first when nothing is. */
  function Watermark(s: Snapshot, config: Config): int { FromLedger(s, config) - 1 }

  ghost predicate Indexed(s: Snapshot, config: Config, chain: seq<Event>) {
    && Watermark(s, config) >= config.startLedger - 1
    && multiset(s.events) == Expected(chain, config.contracts, config.startLedger, Watermark(s, config))
  }

  /** Stored hashes are the chain's. */
  predicate HashesOf(s: Snapshot, hashOf: int -> string) {
    forall l :: l in s.hashes ==> s.hashes[l] == hashOf(l)
  }

  /** Every hash the round reports is the chain's. */
  ghost predicate Unforked(round: Round, hashOf: int -> string) {
    && (forall l :: round.headers(l).Some? ==> round.headers(l).value == hashOf(l))
    && (round.latest.Some? && round.latestHash.Some? ==> round.latestHash.value == hashOf(round.latest.value))
  }

  lemma UnforkedPoll(s: Snapshot, config: Config, round: Round)
    requires !Forked(s, round.headers)
    ensures Recovered(s, config, round) == s
    ensures AfterPoll(s, config, round)
            == if !Writes(s, config, round) then s
               else Inserted(s, Collected(round.answers, |config.contracts|), round.latest.value, round.latestHash)
  {
    hide Forked, Collected, Commits;
  }

  /** A poll on an unforked chain either leaves the store alone, or brings it up to the newest ledger. */
  lemma PollKeepsIndexed(s: Snapshot, config: Config, round: Round, chain: seq<Event>, hashOf: int -> string)
    requires Indexed(s, config, chain) && HashesOf(s, hashOf) && Unforked(round, hashOf)
    requires Writes(s, config, round) ==> Complete(round, config.contracts, chain, FromLedger(s, config))
    ensures var after := AfterPoll(s, config, round);
            && Indexed(after, config, chain) && HashesOf(after, hashOf)
            && (Writes(s, config, round) ==>
                  after.last == round.latest && Watermark(after, config) > Watermark(s, config))
            && (!Writes(s, config, round) ==> after == s)
  {
    UnforkedPoll(s, config, round);
    hide Indexed, HashesOf, Complete, Recovered, Unforked, Forked, Collected;
    if Writes(s, config, round) {
      WriteKeepsHashes(s, Collected(round.answers, |config.contracts|), round, hashOf);
      WriteKeepsIndexed(s, config, round, chain);
    }
  }

  lemma WriteKeepsIndexed(s: Snapshot, config: Config, round: Round, chain: seq<Event>)
    requires Indexed(s, config, chain) && Recovered(s, config, round) == s
    requires Writes(s, config, round) && Complete(round, config.contracts, chain, FromLedger(s, config))
    ensures Indexed(AfterPoll(s, config, round), config, chain)
  {
    WrittenSlice(s, config, round, chain);
    var ledger := Watermark(s, config);
    assert round.latest.Some? && ledger < round.latest.value && ledger + 1 == FromLedger(s, config);
    assert config.startLedger - 1 <= ledger && multiset(s.events)
           == Expected(chain, config.contracts, config.startLedger, ledger);
    hide *;
    IndexedIff(AfterPoll(s, config, round), config, chain, ledger, multiset(s.events));
  }

  lemma WriteKeepsHashes(s: Snapshot, batch: seq<Event>, round: Round, hashOf: int -> string)
    requires HashesOf(s, hashOf) && Unforked(round, hashOf) && round.latest.Some?
    ensures HashesOf(Inserted(s, batch, round.latest.value, round.latestHash), hashOf)
  {
  }

  function Run(s: Snapshot, config: Config, rounds: seq<Round>): Snapshot {
    if rounds == [] then s else AfterPoll(Run(s, config, rounds[..|rounds| - 1]), config, rounds[|rounds| - 1])
  }

  /** No round of the run sees a fork, and each that writes got complete answers. */
  ghost predicate Faithful(s: Snapshot, config: Config, rounds: seq<Round>, chain: seq<Event>, hashOf: int -> string) {
    rounds == [] ||
    (var before, round := Run(s, config, rounds[..|rounds| - 1]), rounds[|rounds| - 1];
     && Faithful(s, config, rounds[..|rounds| - 1], chain, hashOf)
     && Unforked(round, hashOf)
     && (Writes(before, config, round) ==> Complete(round, config.contracts, chain, FromLedger(before, config))))
  }

  lemma {:induction false} RunKeepsIndexed(config: Config, rounds: seq<Round>, chain: seq<Event>, hashOf: int -> string)
    requires Faithful(Snapshot([], None, map[]), config, rounds, chain, hashOf)
    ensures var after := Run(Snapshot([], None, map[]), config, rounds);
            Indexed(after, config, chain) && HashesOf(after, hashOf)
  {
    if rounds == [] {
      ExpectedEmpty(chain, config.contracts, config.startLedger, config.startLedger - 1);
    } else {
      hide Indexed, HashesOf, Writes, Unforked, Complete, AfterPoll;
      RunKeepsIndexed(config, rounds[..|rounds| - 1], chain, hashOf);
      PollKeepsIndexed(Run(Snapshot([], None, map[]), config, rounds[..|rounds| - 1]), config, rounds[|rounds| - 1],
          chain, hashOf);
    }
  }

  predicate IsWanted(e: Event, contracts: seq<string>, lo: int,
                     hi: int) { e.contract in contracts && lo <= e.ledger <= hi }

  /** The part of the chain the indexer is for. */
  function Wanted(chain: seq<Event>, contracts: seq<string>, lo: int, hi: int): seq<Event> {
    if chain == [] then []
    else
      var e := chain[|chain| - 1];
      Wanted(chain[..|chain| - 1], contracts, lo, hi) + (if IsWanted(e, contracts, lo, hi) then [e] else [])
  }

  lemma {:induction false} ExpectedSnoc(chain: seq<Event>, e: Event, contracts: seq<string>, lo: int, hi: int)
    requires Distinct(contracts)
    ensures Expected(chain + [e], contracts, lo, hi)
            == Expected(chain, contracts, lo, hi) + (if IsWanted(e, contracts, lo, hi) then multiset{e} else multiset{})
  {
    if contracts != [] {
      var n := |contracts| - 1;
      ExpectedSnoc(chain, e, contracts[..n], lo, hi);
      assert (chain + [e])[..|chain|] == chain;
      assert contracts == contracts[..n] + [contracts[n]];
      assert e.contract in contracts <==> e.contract in contracts[..n] || e.contract == contracts[n];
    }
  }

  lemma {:induction false} ExpectedIsWanted(chain: seq<Event>, contracts: seq<string>, lo: int, hi: int)
    requires Distinct(contracts)
    ensures Expected(chain, contracts, lo, hi) == multiset(Wanted(chain, contracts, lo, hi))
  {
    if chain == [] {
      NothingExpected(contracts, lo, hi);
    } else {
      var n := |chain| - 1;
      hide Expected, Distinct, IsWanted;
      ExpectedIsWanted(chain[..n], contracts, lo, hi);
      ExpectedSnoc(chain[..n], chain[n], contracts, lo, hi);
      assert chain[..n] + [chain[n]] == chain;
    }
  }

  lemma {:induction false} NothingExpected(contracts: seq<string>, lo: int, hi: int)
    ensures Expected([], contracts, lo, hi) == multiset{}
  {
    if contracts != [] { NothingExpected(contracts[..|contracts| - 1], lo, hi); }
  }

  /** After any run of polls the store holds the wanted events up to the watermark, each once. */
  lemma ExactlyOnce(config: Config, rounds: seq<Round>, chain: seq<Event>, hashOf: int -> string)
    requires Distinct(config.contracts)
    requires Faithful(Snapshot([], None, map[]), config, rounds, chain, hashOf)
    ensures var after := Run(Snapshot([], None, map[]), config, rounds);
            multiset(after.events) == multiset(Wanted(chain, config.contracts, config.startLedger,
                Watermark(after, config)))
  {
    hide Expected, Wanted, Distinct, Run, Faithful;
    RunKeepsIndexed(config, rounds, chain, hashOf);
    var after := Run(Snapshot([], None, map[]), config, rounds);
    ExpectedIsWanted(chain, config.contracts, config.startLedger, Watermark(after, config));
  }

  // ---------- after a fork ----------

  /** Two chains' events up to a ledger. */
  predicate AgreeUpTo(ledger: int, config: Config, before: seq<Event>, after: seq<Event>) {
    Expected(before, config.contracts, config.startLedger, ledger)
        == Expected(after, config.contracts, config.startLedger, ledger)
  }

  lemma RewindBounds(s: Snapshot, config: Config, headers: int -> Option<string>)
    requires s.last.Some? && s.last.value >= config.startLedger - 1
    ensures config.startLedger - 1 <= RewoundTo(s, config, headers) <= s.last.value
  {
    var met := WalkBack(s.last.value - 1, config.maxReorgDepth, config.startLedger, s.hashes, headers);
    if met.Some? { WalkBackMeets(s.last.value - 1, config.maxReorgDepth, config.startLedger, s.hashes, headers,
        met.value); }
  }

  lemma Cancel(a: multiset<Event>, b: multiset<Event>, c: multiset<Event>)
    ensures a + c == b + c <==> a == b
  {
    if a + c == b + c {
      forall e ensures a[e] == b[e] { assert (a + c)[e] == (b + c)[e]; }
    }
  }

  /** What recovery leaves of an indexed store. */
  lemma RecoveredStore(s: Snapshot, config: Config, round: Round, before: seq<Event>)
    requires Indexed(s, config, before) && Forked(s, round.headers) && round.fault != Reading
    ensures s.last.Some?
    ensures var r, ledger := Recovered(s, config, round), RewoundTo(s, config, round.headers);
            && multiset(r.events) == Expected(before, config.contracts, config.startLedger, ledger)
            && config.startLedger - 1 <= ledger <= s.last.value
            && FromLedger(r, config) == 1 + if round.fault == NoFault then ledger else s.last.value
  {
    assert s.last.Some?;
    var ledger := RewoundTo(s, config, round.headers);
    assert Recovered(s, config, round).events == UpTo(s.events, ledger);
    RewindBounds(s, config, round.headers);
    hide Forked, RewoundTo, UpTo, Expected;
    UpToExpected(s.events, before, config.contracts, config.startLedger, ledger, s.last.value);
  }

  /** A store with some events up to a ledger and the chain's after it. */
  lemma IndexedIff(w: Snapshot, config: Config, chain: seq<Event>, ledger: int, kept: multiset<Event>)
    requires w.last.Some? && config.startLedger - 1 <= ledger <= w.last.value
    requires multiset(w.events) == kept + Expected(chain, config.contracts, ledger + 1, w.last.value)
    ensures Indexed(w, config, chain) <==> kept == Expected(chain, config.contracts, config.startLedger, ledger)
  {
    hide Expected;
    ExpectedSplits(chain, config.contracts, config.startLedger, ledger, w.last.value);
    Cancel(kept, Expected(chain, config.contracts, config.startLedger, ledger),
        Expected(chain, config.contracts, ledger + 1, w.last.value));
  }

  /** A store indexed from one chain meets a fork, recovers undisturbed, and commits complete
      answers from the other chain. */
  ghost predicate CompleteRecovery(s: Snapshot, config: Config, round: Round, before: seq<Event>, after: seq<Event>) {
    && Indexed(s, config, before) && Forked(s, round.headers) && round.fault == NoFault
    && Writes(s, config, round)
    && Complete(round, config.contracts, after, FromLedger(Recovered(s, config, round), config))
  }

  lemma RecoveredThenWritten(s: Snapshot, config: Config, round: Round, before: seq<Event>, after: seq<Event>)
    requires CompleteRecovery(s, config, round, before, after)
    ensures s.last.Some?
    ensures var w, ledger := AfterPoll(s, config, round), RewoundTo(s, config, round.headers);
            && w.last.Some? && config.startLedger - 1 <= ledger <= w.last.value
            && multiset(w.events) == Expected(before, config.contracts, config.startLedger, ledger)
                                     + Expected(after, config.contracts, ledger + 1, w.last.value)
  {
    assert s.last.Some? && round.fault == NoFault && Writes(s, config, round);
    assert FromLedger(Recovered(s, config, round), config) <= round.latest.value;
    RecoveredStore(s, config, round, before);
    WrittenSlice(s, config, round, after);
    hide *;
    assert FromLedger(Recovered(s, config, round), config) == RewoundTo(s, config, round.headers) + 1;
    assert AfterPoll(s, config, round).last.value == round.latest.value;
  }

  /** Recovery followed by complete answers from the new chain gives exactly the new chain's
      events if and only if the two chains agree up to the ledger the store was rewound to. */
  lemma RecoveryIsExactIff(s: Snapshot, config: Config, round: Round, before: seq<Event>, after: seq<Event>)
    requires CompleteRecovery(s, config, round, before, after)
    ensures s.last.Some?
    ensures Indexed(AfterPoll(s, config, round), config, after)
            <==> AgreeUpTo(RewoundTo(s, config, round.headers), config, before, after)
  {
    hide *;
    RecoveredThenWritten(s, config, round, before, after);
    var ledger := RewoundTo(s, config, round.headers);
    IndexedIff(AfterPoll(s, config, round), config, after, ledger,
        Expected(before, config.contracts, config.startLedger, ledger));
    Agreement(ledger, config, before, after);
  }

  lemma Agreement(ledger: int, config: Config, before: seq<Event>, after: seq<Event>)
    ensures AgreeUpTo(ledger, config, before, after)
            <==> Expected(before, config.contracts, config.startLedger, ledger)
                 == Expected(after, config.contracts, config.startLedger, ledger)
  {
  }

  // ---------- what the hashes decide ----------

  /** Every header obtained is that of one chain. */
  ghost predicate HeadersOf(headers: int -> Option<string>, hashOf: int -> string) {
    forall l :: headers(l).Some? ==> headers(l).value == hashOf(l)
  }

  /** A ledger's hash commits to everything up to it: where two chains have the same hash they
      have the same events up to there. */
  ghost predicate HashesBind(config: Config, before: seq<Event>, oldHash: int -> string, after: seq<Event>,
                             newHash: int -> string) {
    forall l :: oldHash(l) == newHash(l) ==> AgreeUpTo(l, config, before, after)
  }

  ghost predicate SomeMet(s: Snapshot, config: Config, headers: int -> Option<string>)
    requires s.last.Some?
  {
    exists m :: Met(m, s, config, headers)
  }

  lemma RewoundToMet(s: Snapshot, config: Config, headers: int -> Option<string>)
    requires s.last.Some?
    ensures SomeMet(s, config, headers) ==> Met(RewoundTo(s, config, headers), s, config, headers)
    ensures !SomeMet(s, config, headers) ==> RewoundTo(s, config, headers) == s.last.value
  {
    hide Matches, StoredHash;
    var last := s.last.value;
    var met := WalkBack(last - 1, config.maxReorgDepth, config.startLedger, s.hashes, headers);
    if met.Some? {
      WalkBackMeets(last - 1, config.maxReorgDepth, config.startLedger, s.hashes, headers, met.value);
      assert Met(met.value, s, config, headers);
    } else if SomeMet(s, config, headers) {
      var m :| Met(m, s, config, headers);
      WalkBackMeets(last - 1, config.maxReorgDepth, config.startLedger, s.hashes, headers, m);
    }
  }

  /** A match means that the chains agree up to it. */
  lemma MetAgrees(m: int, s: Snapshot, config: Config, headers: int -> Option<string>,
                  before: seq<Event>, oldHash: int -> string, after: seq<Event>, newHash: int -> string)
    requires s.last.Some? && Met(m, s, config, headers)
    requires HashesOf(s, oldHash) && HeadersOf(headers, newHash) && HashesBind(config, before, oldHash, after, newHash)
    ensures AgreeUpTo(m, config, before, after)
  {
    hide AgreeUpTo;
    assert headers(m).Some? && s.hashes[m] == oldHash(m) == newHash(m);
  }

  lemma RightAlready(s: Snapshot, config: Config, before: seq<Event>, after: seq<Event>)
    requires Indexed(s, config, before) && s.last.Some?
    ensures Indexed(s, config, after) <==> AgreeUpTo(s.last.value, config, before, after)
  {
    hide Expected;
  }

  /** When the stored hashes are the old chain's and the headers the new chain's, recovery and
      complete answers leave the store right for the new chain if and only if the walk back meets
      a match, or the store was right for the new chain all along. */
  lemma RecoverySucceedsIff(s: Snapshot, config: Config, round: Round,
                            before: seq<Event>, oldHash: int -> string, after: seq<Event>, newHash: int -> string)
    requires CompleteRecovery(s, config, round, before, after)
    requires HashesOf(s, oldHash) && HeadersOf(round.headers, newHash)
             && HashesBind(config, before, oldHash, after, newHash)
    ensures s.last.Some?
    ensures Indexed(AfterPoll(s, config, round), config, after)
            <==> SomeMet(s, config, round.headers) || Indexed(s, config, after)
  {
    assert s.last.Some? && Indexed(s, config, before);
    hide *;
    RecoveryIsExactIff(s, config, round, before, after);
    RewoundToMet(s, config, round.headers);
    RightAlready(s, config, before, after);
    var ledger := RewoundTo(s, config, round.headers);
    if SomeMet(s, config, round.headers) {
      MetAgrees(ledger, s, config, round.headers, before, oldHash, after, newHash);
    }
  }

  /** No hash recorded one below the watermark: whatever matches further down, nothing is met. */
  lemma UnrecordedLedgerBlocks(s: Snapshot, config: Config, headers: int -> Option<string>)
    requires s.last.Some? && StoredHash(s.hashes, s.last.value - 1).None?
    ensures !SomeMet(s, config, headers) && RewoundTo(s, config, headers) == s.last.value
  {
    RewoundToMet(s, config, headers);
  }

  predicate HashesBelow(s: Snapshot, config: Config) { forall l :: l in s.hashes ==> l <= Watermark(s, config) }

  /** On an unforked run no hash is recorded above the watermark. */
  lemma {:induction false} RunKeepsHashesBelow(config: Config, rounds: seq<Round>, chain: seq<Event>,
                                               hashOf: int -> string)
    requires Faithful(Snapshot([], None, map[]), config, rounds, chain, hashOf)
    ensures HashesBelow(Run(Snapshot([], None, map[]), config, rounds), config)
  {
    if rounds != [] {
      var n := |rounds| - 1;
      var before := Run(Snapshot([], None, map[]), config, rounds[..n]);
      RunKeepsHashesBelow(config, rounds[..n], chain, hashOf);
      RunKeepsIndexed(config, rounds[..n], chain, hashOf);
      PollKeepsIndexed(before, config, rounds[n], chain, hashOf);
      UnforkedIsNotForked(before, rounds[n], hashOf);
      hide Run, Faithful;
      PollKeepsHashesBelow(before, config, rounds[n]);
    }
  }

  lemma UnforkedIsNotForked(s: Snapshot, round: Round, hashOf: int -> string)
    requires HashesOf(s, hashOf) && Unforked(round, hashOf)
    ensures !Forked(s, round.headers)
  {
  }

  lemma PollKeepsHashesBelow(s: Snapshot, config: Config, round: Round)
    requires HashesBelow(s, config) && !Forked(s, round.headers)
    ensures HashesBelow(AfterPoll(s, config, round), config)
  {
    UnforkedPoll(s, config, round);
    hide Forked, Recovered, Collected, Commits, AfterPoll;
    assert Writes(s, config, round) ==> round.latest.value > Watermark(s, config);
  }

  /** A poll records the newest ledger's hash only, so one that advances by two ledgers or more
      leaves a store from which no later fork can be walked back. */
  lemma JumpBlocksRecovery(s: Snapshot, config: Config, round: Round, headers: int -> Option<string>)
    requires !Forked(s, round.headers) && Writes(s, config, round)
    requires HashesBelow(s, config) && round.latest.value >= Watermark(s, config) + 2
    ensures AfterPoll(s, config, round).last.Some? && !SomeMet(AfterPoll(s, config, round), config, headers)
  {
    UnforkedPoll(s, config, round);
    hide Forked, Collected, Recovered, SomeMet;
    UnrecordedLedgerBlocks(AfterPoll(s, config, round), config, headers);
  }

  const ONE_CONTRACT := Config(["c"], 1, 64)
  const ORPHAN := Event(2, "c", "old")
  const SPARSE_STORE := Snapshot([ORPHAN], Some(3), map[1 := "h1", 3 := "h3"])

  /** Ledger 1 is as before, everything above it is new, and ledger 4 is the newest. */
  function SparseRound(): Round {
    Round(l => if l == 1 then Some("h1") else Some("new"), NoFault, Some(4), _ => Some([]), None, None)
  }

  /** Such a store: ledgers 1 and 3 were polled, and the fork is above ledger 1. Its hash still
      matches, yet the event of ledger 2 stays, although the new chain has none. */
  lemma OrphanStays()
    ensures Matches(SPARSE_STORE.hashes, SparseRound().headers, 1)
    ensures CompleteRecovery(SPARSE_STORE, ONE_CONTRACT, SparseRound(), [ORPHAN], [])
    ensures ORPHAN in AfterPoll(SPARSE_STORE, ONE_CONTRACT, SparseRound()).events
    ensures !Indexed(AfterPoll(SPARSE_STORE, ONE_CONTRACT, SparseRound()), ONE_CONTRACT, [])
  {
    SparseIsKept();
    hide Recovered, Forked, AfterPoll, Slice, Expected;
    OneEvent(ORPHAN, 1, 3);
    NothingExpected(["c"], 1, 4);
  }

  lemma SparseIsKept()
    ensures Forked(SPARSE_STORE, SparseRound().headers)
    ensures Recovered(SPARSE_STORE, ONE_CONTRACT, SparseRound()) == SPARSE_STORE
    ensures Writes(SPARSE_STORE, ONE_CONTRACT, SparseRound())
    ensures AfterPoll(SPARSE_STORE, ONE_CONTRACT, SparseRound()) == SPARSE_STORE.(last := Some(4))
    ensures Complete(SparseRound(), ["c"], [], 4)
  {
    UnrecordedLedgerBlocks(SPARSE_STORE, ONE_CONTRACT, SparseRound().headers);
    assert UpTo([ORPHAN][..0], 3) == [];
    assert UpTo([ORPHAN], 3) == [ORPHAN];
    hide RewoundTo;
    assert Collected(SparseRound().answers, 0) == [];
    assert Collected(SparseRound().answers, 1) == [];
  }

  // ---------- recovery interrupted ----------

  /** Detection fails between its two writes, and complete answers from the other chain follow. */
  ghost predicate InterruptedRecovery(s: Snapshot, config: Config, round: Round, before: seq<Event>,
          after: seq<Event>) {
    && Indexed(s, config, before) && Forked(s, round.headers) && round.fault == BetweenWrites
    && Writes(s, config, round)
    && Complete(round, config.contracts, after, FromLedger(Recovered(s, config, round), config))
  }

  /** Polling then resumes past the old watermark: the new chain's events between the ledger the
      events were cut at and the old watermark are not fetched. */
  lemma InterruptedRecoveryLeavesGap(s: Snapshot, config: Config, round: Round, before: seq<Event>, after: seq<Event>)
    requires InterruptedRecovery(s, config, round, before, after)
    ensures s.last.Some? && config.startLedger - 1 <= RewoundTo(s, config, round.headers) <= s.last.value
    ensures var w := AfterPoll(s, config, round);
            && w.last.Some? && s.last.value < w.last.value
            && multiset(w.events)
               == Expected(before, config.contracts, config.startLedger, RewoundTo(s, config, round.headers))
                  + Expected(after, config.contracts, s.last.value + 1, w.last.value)
  {
    assert s.last.Some? && round.fault == BetweenWrites && Writes(s, config, round);
    assert FromLedger(Recovered(s, config, round), config) <= round.latest.value;
    RecoveredStore(s, config, round, before);
    WrittenSlice(s, config, round, after);
    hide *;
    assert FromLedger(Recovered(s, config, round), config) == s.last.value + 1;
    assert AfterPoll(s, config, round).last.value == round.latest.value;
  }

  /** Events up to a ledger are never mistaken for later ones. */
  lemma PartsAreApart(kept: multiset<Event>, low: multiset<Event>, high: multiset<Event>, ledger: int)
    requires forall e :: e in kept ==> e.ledger <= ledger
    requires forall e :: e in low ==> e.ledger <= ledger
    requires forall e :: e in high ==> e.ledger > ledger
    ensures kept == low + high <==> kept == low && high == multiset{}
  {
    if kept == low + high {
      forall e ensures high[e] == 0 && kept[e] == low[e] {
        assert kept[e] == low[e] + high[e];
        assert e in high ==> e in kept;
      }
    }
  }

  lemma GapIff(w: Snapshot, config: Config, chain: seq<Event>, cut: int, resumed: int, kept: multiset<Event>)
    requires w.last.Some? && config.startLedger - 1 <= cut <= resumed <= w.last.value
    requires multiset(w.events) == kept + Expected(chain, config.contracts, resumed + 1, w.last.value)
    requires forall e :: e in kept ==> e.ledger <= cut
    ensures Indexed(w, config, chain)
            <==> kept == Expected(chain, config.contracts, config.startLedger, cut)
                 && Expected(chain, config.contracts, cut + 1, resumed) == multiset{}
  {
    hide *;
    IndexedIff(w, config, chain, resumed, kept);
    ExpectedSplits(chain, config.contracts, config.startLedger, cut, resumed);
    ExpectedWithin(chain, config.contracts, config.startLedger, cut);
    ExpectedWithin(chain, config.contracts, cut + 1, resumed);
    PartsAreApart(kept, Expected(chain, config.contracts, config.startLedger, cut),
        Expected(chain, config.contracts, cut + 1, resumed), cut);
  }

  /** The store is right for the new chain if and only if the chains agree up to the cut and the
      new chain has nothing to offer from there to the old watermark. */
  lemma InterruptedIsExactIff(s: Snapshot, config: Config, round: Round, before: seq<Event>, after: seq<Event>)
    requires InterruptedRecovery(s, config, round, before, after)
    ensures s.last.Some?
    ensures Indexed(AfterPoll(s, config, round), config, after)
            <==> AgreeUpTo(RewoundTo(s, config, round.headers), config, before, after)
                 && Expected(after, config.contracts, RewoundTo(s, config, round.headers) + 1, s.last.value)
                     == multiset{}
  {
    hide *;
    InterruptedRecoveryLeavesGap(s, config, round, before, after);
    var cut := RewoundTo(s, config, round.headers);
    ExpectedWithin(before, config.contracts, config.startLedger, cut);
    GapIff(AfterPoll(s, config, round), config, after, cut, s.last.value,
        Expected(before, config.contracts, config.startLedger, cut));
    Agreement(cut, config, before, after);
  }

  /** In terms of what is there before the call: with a match met, nothing is lost if and only if
      the new chain has no wanted event above the match up to the old watermark. */
  lemma InterruptedAtMatch(s: Snapshot, config: Config, round: Round, m: int,
                           before: seq<Event>, oldHash: int -> string, after: seq<Event>, newHash: int -> string)
    requires InterruptedRecovery(s, config, round, before, after)
    requires s.last.Some? && Met(m, s, config, round.headers)
    requires HashesOf(s, oldHash) && HeadersOf(round.headers, newHash)
             && HashesBind(config, before, oldHash, after, newHash)
    ensures Indexed(AfterPoll(s, config, round), config, after)
            <==> Expected(after, config.contracts, m + 1, s.last.value) == multiset{}
  {
    hide *;
    InterruptedIsExactIff(s, config, round, before, after);
    OneMet(m, s, config, round.headers);
    MetAgrees(m, s, config, round.headers, before, oldHash, after, newHash);
  }

  lemma InterruptedStart(s: Snapshot, config: Config, round: Round, before: seq<Event>, after: seq<Event>)
    requires InterruptedRecovery(s, config, round, before, after)
    ensures Indexed(s, config, before)
  {
  }

  /** With none met, if and only if the store was right for the new chain all along. */
  lemma InterruptedWithoutMatch(s: Snapshot, config: Config, round: Round, before: seq<Event>, after: seq<Event>)
    requires InterruptedRecovery(s, config, round, before, after)
    requires s.last.Some? && !SomeMet(s, config, round.headers)
    ensures Indexed(AfterPoll(s, config, round), config, after) <==> Indexed(s, config, after)
  {
    hide *;
    InterruptedStart(s, config, round, before, after);
    InterruptedIsExactIff(s, config, round, before, after);
    RewoundToMet(s, config, round.headers);
    var cut := RewoundTo(s, config, round.headers);
    RightAlready(s, config, before, after);
    ExpectedEmpty(after, config.contracts, cut + 1, s.last.value);
  }

  lemma OneMet(m: int, s: Snapshot, config: Config, headers: int -> Option<string>)
    requires s.last.Some? && Met(m, s, config, headers)
    ensures RewoundTo(s, config, headers) == m && SomeMet(s, config, headers)
  {
    hide Matches, StoredHash;
    WalkBackMeets(s.last.value - 1, config.maxReorgDepth, config.startLedger, s.hashes, headers, m);
  }

  const REPLACED := Event(3, "c", "old")
  const REPLACEMENT := Event(3, "c", "new")
  const LOSS_STORE := Snapshot([REPLACED], Some(3), map[2 := "h2", 3 := "h3"])

  function LossRound(): Round {
    Round(l => if l == 2 then Some("h2") else Some("new"), BetweenWrites, Some(4), _ => Some([]), None, None)
  }

  lemma LossIsCut()
    ensures Forked(LOSS_STORE, LossRound().headers) && RewoundTo(LOSS_STORE, ONE_CONTRACT, LossRound().headers) == 2
    ensures Recovered(LOSS_STORE, ONE_CONTRACT, LossRound()) == LOSS_STORE.(events := [])
  {
    OneMet(2, LOSS_STORE, ONE_CONTRACT, LossRound().headers);
    assert UpTo([REPLACED][..0], 2) == [];
    assert UpTo([REPLACED], 2) == [];
    hide RewoundTo;
  }

  lemma LossIsWritten()
    ensures Writes(LOSS_STORE, ONE_CONTRACT, LossRound())
    ensures AfterPoll(LOSS_STORE, ONE_CONTRACT, LossRound()) == Snapshot([], Some(4), LOSS_STORE.hashes)
  {
    LossIsCut();
    hide Recovered, Forked;
    assert Collected(LossRound().answers, 0) == [];
    assert Collected(LossRound().answers, 1) == [];
  }

  /** Such a loss: ledger 2 is met, and the new chain's event of ledger 3 never arrives. */
  lemma EventIsLost()
    ensures InterruptedRecovery(LOSS_STORE, ONE_CONTRACT, LossRound(), [REPLACED], [REPLACEMENT])
    ensures !Indexed(AfterPoll(LOSS_STORE, ONE_CONTRACT, LossRound()), ONE_CONTRACT, [REPLACEMENT])
  {
    LossIsCut();
    LossIsWritten();
    hide Recovered, Forked, Writes, AfterPoll, Slice, Expected;
    OneEvent(REPLACED, 1, 3);
    OneEvent(REPLACEMENT, 1, 4);
    OneEvent(REPLACEMENT, 4, 4);
  }

  lemma OneEvent(e: Event, lo: int, hi: int)
    ensures Slice([e], e.contract, lo, hi) == if lo <= e.ledger <= hi then [e] else []
    ensures Expected([e], [e.contract], lo, hi) == if lo <= e.ledger <= hi then multiset{e} else multiset{}
  {
    assert Slice([e][..0], e.contract, lo, hi) == [];
    assert Expected([e], [e.contract][..0], lo, hi) == multiset{};
    assert multiset([e]) == multiset{e};
  }
}
