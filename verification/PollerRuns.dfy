/**
 indexer/src/poller.ts from the empty store: which hashes a run of polls leaves, and what becomes
 of the store when the chain then forks, and when it forks back.
 */
module PollerRuns {
  import opened Poller
  import opened Wrappers

  const EMPTY := Snapshot([], None, map[])

  // ---------- which hashes are recorded ----------

  /** A poll that writes records the reported hash of the newest ledger; every other recorded hash
      stays as it is, through recovery too, and a poll that does not write changes none. */
  lemma PollRecordsHash(s: Snapshot, config: Config, round: Round)
    ensures var after := AfterPoll(s, config, round);
            && (forall l :: !(Writes(s, config, round) && round.latest == Some(l)) ==>
                  (l in after.hashes <==> l in s.hashes) && (l in s.hashes ==> after.hashes[l] == s.hashes[l]))
            && (Writes(s, config, round) ==>
                  && after.last == round.latest
                  && (round.latestHash.Some? ==>
                        round.latest.value in after.hashes
                        && after.hashes[round.latest.value] == round.latestHash.value)
                  && (round.latestHash.None? ==> after.hashes == s.hashes))
  {
    hide Collected, Commits, Forked;
    assert Recovered(s, config, round).hashes == s.hashes;
  }

  /** No write fails and there is a newer ledger: whatever reorg detection met, the poll ends at the
      newest ledger, with every answer it got added to the events that recovery kept. */
  lemma PollAdvances(s: Snapshot, config: Config, round: Round)
    requires round.failsAt.None? && round.latest.Some?
    requires if s.last.Some? then round.latest.value > s.last.value else round.latest.value >= config.startLedger
    ensures AfterPoll(s, config, round).last == round.latest
    ensures exists kept: seq<Event> ::
              && multiset(kept) <= multiset(s.events)
              && (!Forked(s, round.headers) ==> kept == s.events)
              && AfterPoll(s, config, round).events == kept + Collected(round.answers, |config.contracts|)
  {
    if s.last.Some? { NoHigher(s, config, round.headers); }
    var kept := Recovered(s, config, round).events;
    if Forked(s, round.headers) { UpToSplits(s.events, RewoundTo(s, config, round.headers)); }
    assert multiset(kept) <= multiset(s.events);
    hide Forked, Recovered, Collected;
  }

  lemma NoHigher(s: Snapshot, config: Config, headers: int -> Option<string>)
    requires s.last.Some?
    ensures RewoundTo(s, config, headers) <= s.last.value
  {
    var last := s.last.value;
    var met := WalkBack(last - 1, config.maxReorgDepth, config.startLedger, s.hashes, headers);
    if met.Some? { WalkBackMeets(last - 1, config.maxReorgDepth, config.startLedger, s.hashes, headers, met.value); }
  }

  /** Every round that writes goes one ledger further and reports a hash for it. */
  ghost predicate Steady(config: Config, rounds: seq<Round>) {
    rounds == [] ||
    (var before, round := Run(EMPTY, config, rounds[..|rounds| - 1]), rounds[|rounds| - 1];
     && Steady(config, rounds[..|rounds| - 1])
     && (Writes(before, config, round) ==>
           round.latest == Some(FromLedger(before, config)) && Usable(round.latestHash).Some?))
  }

  /** The chain's hashes are recorded for exactly the ledgers indexed. */
  ghost predicate Recorded(s: Snapshot, config: Config, hashOf: int -> string) {
    forall l :: && (l in s.hashes <==> config.startLedger <= l <= Watermark(s, config))
                && (l in s.hashes ==> s.hashes[l] == hashOf(l) && s.hashes[l] != "")
  }

  lemma PollKeepsRecorded(s: Snapshot, config: Config, round: Round, hashOf: int -> string)
    requires Recorded(s, config, hashOf) && Watermark(s, config) >= config.startLedger - 1
    requires HashesOf(AfterPoll(s, config, round), hashOf) && !Forked(s, round.headers)
    requires Writes(s, config, round) ==>
               round.latest == Some(FromLedger(s, config)) && Usable(round.latestHash).Some?
    ensures Recorded(AfterPoll(s, config, round), config, hashOf)
  {
    PollRecordsHash(s, config, round);
    UnforkedPoll(s, config, round);
    hide AfterPoll, Writes, Recovered, Forked;
  }

  /** A steady run on one chain, from the empty store: whatever else failed on the way. */
  lemma {:induction false} RunRecords(config: Config, rounds: seq<Round>, chain: seq<Event>, hashOf: int -> string)
    requires Faithful(EMPTY, config, rounds, chain, hashOf) && Steady(config, rounds)
    ensures Recorded(Run(EMPTY, config, rounds), config, hashOf)
  {
    if rounds != [] {
      var n := |rounds| - 1;
      var before := Run(EMPTY, config, rounds[..n]);
      RunRecords(config, rounds[..n], chain, hashOf);
      RunKeepsIndexed(config, rounds[..n], chain, hashOf);
      RunKeepsIndexed(config, rounds, chain, hashOf);
      assert Watermark(before, config) >= config.startLedger - 1;
      hide Indexed, HashesOf, Recorded, Forked, Writes, Unforked, Complete, AfterPoll;
      UnforkedIsNotForked(before, rounds[n], hashOf);
      PollKeepsRecorded(before, config, rounds[n], hashOf);
    }
  }

  /** Rounds in which the newest ledger moves up by one and no write fails: whatever else happens,
      the watermark moves with it. */
  lemma {:induction false} RunReaches(config: Config, rounds: seq<Round>)
    requires forall k :: 0 <= k < |rounds| ==>
               rounds[k].failsAt.None? && rounds[k].latest == Some(config.startLedger + k)
    ensures Run(EMPTY, config, rounds).last
            == if rounds == [] then None else Some(config.startLedger + |rounds| - 1)
  {
    if rounds != [] {
      hide AfterPoll, Forked;
      RunReaches(config, rounds[..|rounds| - 1]);
      PollAdvances(Run(EMPTY, config, rounds[..|rounds| - 1]), config, rounds[|rounds| - 1]);
    }
  }

  // ---------- a contract whose events could not be fetched ----------

  /** A poll that writes keeps the store exact if and only if the answers together are exactly the
      events from where it resumed to the newest ledger. */
  lemma PollIsExactIff(s: Snapshot, config: Config, round: Round, chain: seq<Event>)
    requires Indexed(s, config, chain) && !Forked(s, round.headers) && Writes(s, config, round)
    ensures round.latest.Some?
    ensures Indexed(AfterPoll(s, config, round), config, chain)
            <==> multiset(Collected(round.answers, |config.contracts|))
                 == Expected(chain, config.contracts, FromLedger(s, config), round.latest.value)
  {
    assert round.latest.Some?;
    WrittenEvents(s, config, round);
    assert multiset(s.events) == Expected(chain, config.contracts, config.startLedger, Watermark(s, config));
    assert Watermark(s, config) + 1 == FromLedger(s, config) >= config.startLedger;
    hide *;
    UpperPartDecides(AfterPoll(s, config, round), config, chain, Watermark(s, config), multiset(s.events),
        multiset(Collected(round.answers, |config.contracts|)));
  }

  /** A store with the chain's events up to a ledger and some events after it. */
  lemma UpperPartDecides(w: Snapshot, config: Config, chain: seq<Event>, mid: int, low: multiset<Event>,
                         high: multiset<Event>)
    requires w.last.Some? && config.startLedger - 1 <= mid <= w.last.value
    requires low == Expected(chain, config.contracts, config.startLedger, mid) && multiset(w.events) == low + high
    ensures Indexed(w, config, chain) <==> high == Expected(chain, config.contracts, mid + 1, w.last.value)
  {
    hide Expected;
    var upper := Expected(chain, config.contracts, mid + 1, w.last.value);
    ExpectedSplits(chain, config.contracts, config.startLedger, mid, w.last.value);
    Cancel(high, upper, low);
    assert low + high == high + low && low + upper == upper + low;
  }

  lemma WrittenEvents(s: Snapshot, config: Config, round: Round)
    requires !Forked(s, round.headers) && Writes(s, config, round)
    ensures AfterPoll(s, config, round).last == round.latest && round.latest.value >= FromLedger(s, config)
    ensures multiset(AfterPoll(s, config, round).events)
            == multiset(s.events) + multiset(Collected(round.answers, |config.contracts|))
  {
    UnforkedPoll(s, config, round);
    hide Forked, Recovered, Collected, Commits;
  }

  lemma {:induction false} InSlice(chain: seq<Event>, e: Event, lo: int, hi: int)
    requires e in chain && lo <= e.ledger <= hi
    ensures e in Slice(chain, e.contract, lo, hi)
  {
    if chain[|chain| - 1] != e { InSlice(chain[..|chain| - 1], e, lo, hi); }
  }

  lemma {:induction false} InExpected(chain: seq<Event>, contracts: seq<string>, e: Event, lo: int, hi: int)
    requires e in chain && e.contract in contracts && lo <= e.ledger <= hi
    ensures e in Expected(chain, contracts, lo, hi)
  {
    hide Slice;
    if contracts[|contracts| - 1] == e.contract {
      InSlice(chain, e, lo, hi);
    } else {
      InExpected(chain, contracts[..|contracts| - 1], e, lo, hi);
    }
  }

  lemma {:induction false} NotCollected(answers: nat -> Option<seq<Event>>, e: Event, n: nat)
    requires forall j: nat :: j < n && answers(j).Some? ==> e !in answers(j).value
    ensures e !in Collected(answers, n)
  {
    if n > 0 { NotCollected(answers, e, n - 1); }
  }

  /** When a contract's events cannot be fetched, the watermark passes them all the same: an event
      of it in the ledgers asked for is not stored, and the next poll resumes above it. */
  lemma FailedFetchSkips(s: Snapshot, config: Config, round: Round, chain: seq<Event>, e: Event)
    requires Indexed(s, config, chain) && !Forked(s, round.headers) && Writes(s, config, round)
    requires forall j: nat :: j < |config.contracts| && round.answers(j).Some? ==>
               config.contracts[j] != e.contract
               && forall f :: f in round.answers(j).value ==> f.contract == config.contracts[j]
    requires round.latest.Some? && FromLedger(s, config) <= e.ledger <= round.latest.value
    requires e in chain && e.contract in config.contracts
    ensures !Indexed(AfterPoll(s, config, round), config, chain)
    ensures e !in AfterPoll(s, config, round).events && e.ledger < FromLedger(AfterPoll(s, config, round), config)
  {
    PollIsExactIff(s, config, round, chain);
    UnforkedPoll(s, config, round);
    NotCollected(round.answers, e, |config.contracts|);
    InExpected(chain, config.contracts, e, FromLedger(s, config), round.latest.value);
    ExpectedWithin(chain, config.contracts, config.startLedger, Watermark(s, config));
    assert e in s.events ==> e in multiset(s.events);
    assert e in Collected(round.answers, |config.contracts|)
           <==> e in multiset(Collected(round.answers, |config.contracts|));
  }

  // ---------- a fork after such a run ----------

  /** The new chain leaves the old one above m: same hash there, other hashes from there to `last`. */
  ghost predicate LeavesAbove(m: int, last: int, oldHash: int -> string, newHash: int -> string) {
    oldHash(m) == newHash(m) && forall k :: m < k <= last ==> oldHash(k) != newHash(k)
  }

  /** The headers from lo to hi are obtained, and are one chain's. */
  ghost predicate Obtained(headers: int -> Option<string>, lo: int, hi: int, hashOf: int -> string) {
    && HeadersOf(headers, hashOf)
    && (forall k :: lo <= k <= hi ==> headers(k) == Some(hashOf(k)) && hashOf(k) != "")
  }

  lemma ForkIsMet(s: Snapshot, config: Config, headers: int -> Option<string>, m: int,
                  oldHash: int -> string, newHash: int -> string)
    requires Recorded(s, config, oldHash) && s.last.Some?
    requires config.startLedger <= m < s.last.value && s.last.value - m <= config.maxReorgDepth
    requires LeavesAbove(m, s.last.value, oldHash, newHash) && Obtained(headers, m, s.last.value, newHash)
    ensures Forked(s, headers) && Met(m, s, config, headers)
  {
    var last := s.last.value;
    assert Watermark(s, config) == last;
    forall k | m <= k <= last
      ensures StoredHash(s.hashes, k) == Some(oldHash(k)) && headers(k) == Some(newHash(k)) == Usable(headers(k))
    {
      assert k in s.hashes;
    }
  }

  /** What the new chain's poll must get: no failure on the way, and everything from past m on. */
  ghost predicate GetsFrom(m: int, config: Config, round: Round, chain: seq<Event>) {
    && round.fault == NoFault && round.latest.Some? && round.latest.value > m
    && Commits(Collected(round.answers, |config.contracts|), round.failsAt)
    && Complete(round, config.contracts, chain, m + 1)
  }

  lemma MetIsRewound(s: Snapshot, config: Config, round: Round, m: int, chain: seq<Event>)
    requires Forked(s, round.headers) && Met(m, s, config, round.headers) && GetsFrom(m, config, round, chain)
    ensures Recovered(s, config, round).last == Some(m) && Writes(s, config, round)
    ensures FromLedger(Recovered(s, config, round), config) == m + 1
  {
    OneMet(m, s, config, round.headers);
    hide RewoundTo, Met, Commits, Complete, Collected, Forked;
  }

  /** From the empty store: after any steady run on the old chain, a fork above m within reach is
      detected, the store is rewound to m, and one complete poll leaves exactly the new chain's
      events. */
  lemma ForkIsRecovered(config: Config, rounds: seq<Round>, before: seq<Event>, oldHash: int -> string,
                        round: Round, m: int, after: seq<Event>, newHash: int -> string)
    requires Faithful(EMPTY, config, rounds, before, oldHash) && Steady(config, rounds)
    requires var s := Run(EMPTY, config, rounds);
             && s.last.Some? && config.startLedger <= m < s.last.value && s.last.value - m <= config.maxReorgDepth
             && LeavesAbove(m, s.last.value, oldHash, newHash) && Obtained(round.headers, m, s.last.value, newHash)
    requires HashesBind(config, before, oldHash, after, newHash) && GetsFrom(m, config, round, after)
    ensures var s := Run(EMPTY, config, rounds);
            && Forked(s, round.headers) && Met(m, s, config, round.headers)
            && Recovered(s, config, round).last == Some(m)
            && Indexed(AfterPoll(s, config, round), config, after)
            && AfterPoll(s, config, round).last == round.latest
  {
    var s := Run(EMPTY, config, rounds);
    RunRecords(config, rounds, before, oldHash);
    RunKeepsIndexed(config, rounds, before, oldHash);
    assert HeadersOf(round.headers, newHash) && round.fault == NoFault && round.latest.Some?;
    hide Recorded, Indexed, HashesOf, Forked, Writes, AfterPoll, Recovered, Run, Faithful, Steady, LeavesAbove,
      Obtained, HashesBind, HeadersOf, Met, Complete, Collected;
    ForkIsMet(s, config, round.headers, m, oldHash, newHash);
    MetIsRewound(s, config, round, m, after);
    MeetingIsExact(s, config, round, m, before, oldHash, after, newHash);
    PollRecordsHash(s, config, round);
  }

  lemma MeetingIsExact(s: Snapshot, config: Config, round: Round, m: int,
                       before: seq<Event>, oldHash: int -> string, after: seq<Event>, newHash: int -> string)
    requires Indexed(s, config, before) && Forked(s, round.headers) && Met(m, s, config, round.headers)
    requires HashesOf(s, oldHash) && HeadersOf(round.headers, newHash)
    requires HashesBind(config, before, oldHash, after, newHash) && GetsFrom(m, config, round, after)
    ensures Indexed(AfterPoll(s, config, round), config, after)
  {
    assert s.last.Some?;
    hide HashesOf, HeadersOf, HashesBind, Indexed, Forked, Met, Writes, Complete, Recovered, Collected, AfterPoll,
      RewoundTo;
    assert round.fault == NoFault && round.latest.Some?;
    MetIsRewound(s, config, round, m, after);
    assert CompleteRecovery(s, config, round, before, after);
    OneMet(m, s, config, round.headers);
    RecoverySucceedsIff(s, config, round, before, oldHash, after, newHash);
  }
}
