/**
 indexer/src/reputation.ts: agents' scores and percentiles, with exact real arithmetic in place of
 floating point.
 */
module Reputation {
  import opened Strings
  import opened Wrappers

  /** A completion time that is missing or not finite is None. */
  datatype Event = Event(agent: string, kind: string, secs: Option<real>)

  datatype Metrics = Metrics(agent: string, totalJobs: nat, completedJobs: nat, cancelledJobs: nat, disputedJobs: nat,
                             avgCompletionTimeSecs: real)

  datatype Breakdown = Breakdown(bayesianScore: real, penalty: real, completionRate: real, disputeRate: real,
                                 cancellationRate: real, avgCompletionTimeSecs: real, sampleSize: nat)

  datatype Result = Result(agent: string, score: real, percentile: real, breakdown: Breakdown, metrics: Metrics)

  const PRIOR_WEIGHT := 10
  const PRIOR_MEAN := 70.0
  const DISPUTE_PENALTY := 15
  const CANCELLATION_PENALTY := 5
  const MAX_PENALTY := 100.0
  const REFERENCE_COMPLETION_SECS := 3600.0

  function Clamp(value: real, low: real, high: real): real {
    var atLeast := if value < low then low else value;
    if atLeast > high then high else atLeast
  }

  function RatingForCompletion(secs: Option<real>): (rating: real)
    ensures 35.0 <= rating <= 100.0
  {
    if secs.None? || secs.value <= 0.0 then PRIOR_MEAN
    else Clamp(PRIOR_MEAN * Clamp(REFERENCE_COMPLETION_SECS / secs.value, 0.5, 1.5), 0.0, 100.0)
  }

  function Sum(values: seq<real>): real {
    if values == [] then 0.0 else Sum(values[..|values| - 1]) + values[|values| - 1]
  }

  function BayesianAverage(ratings: seq<real>): real {
    Clamp((PRIOR_WEIGHT as real * PRIOR_MEAN + Sum(ratings)) / (PRIOR_WEIGHT + |ratings|) as real, 0.0, 100.0)
  }

  function ComputePenalty(metrics: Metrics): real {
    Clamp((metrics.disputedJobs * DISPUTE_PENALTY + metrics.cancelledJobs * CANCELLATION_PENALTY) as real, 0.0,
        MAX_PENALTY)
  }

  function Rate(part: nat, total: nat): real { if total > 0 then part as real / total as real else 0.0 }

  function ScoreFromMetrics(metrics: Metrics, ratings: seq<real>): Result {
    var bayesianScore := BayesianAverage(ratings);
    var penalty := ComputePenalty(metrics);
    Result(metrics.agent, Clamp(bayesianScore - penalty, 0.0, 100.0), 0.0,
           Breakdown(bayesianScore, penalty, Rate(metrics.completedJobs, metrics.totalJobs),
                     Rate(metrics.disputedJobs, metrics.totalJobs), Rate(metrics.cancelledJobs, metrics.totalJobs),
                     metrics.avgCompletionTimeSecs, |ratings|),
           metrics)
  }

  // ---------- an agent's history, as totals ----------

  datatype Tally = Tally(completed: nat, cancelled: nat, disputed: nat, secs: real, samples: nat, ratings: real)

  function Timed(e: Event): bool { e.secs.Some? && e.secs.value > 0.0 }

  function Add(t: Tally, e: Event): Tally {
    if e.kind == "JobCompleted" then
      t.(completed := t.completed + 1, ratings := t.ratings + RatingForCompletion(e.secs),
         secs := if Timed(e) then t.secs + e.secs.value else t.secs,
         samples := if Timed(e) then t.samples + 1 else t.samples)
    else if e.kind == "JobDisputed" then t.(disputed := t.disputed + 1)
    else if e.kind == "JobCancelled" then t.(cancelled := t.cancelled + 1)
    else t
  }

  function TallyOf(agent: string, events: seq<Event>): Tally {
    if events == [] then Tally(0, 0, 0, 0.0, 0, 0.0)
    else
      var before := TallyOf(agent, events[..|events| - 1]);
      if events[|events| - 1].agent == agent then Add(before, events[|events| - 1]) else before
  }

  function MetricsFrom(agent: string, t: Tally): Metrics {
    Metrics(agent, t.completed + t.cancelled + t.disputed, t.completed, t.cancelled, t.disputed,
            if t.samples > 0 then t.secs / t.samples as real else 0.0)
  }

  method AggregateMetrics(agent: string, events: seq<Event>) returns (metrics: Metrics)
    ensures metrics == MetricsFrom(agent, TallyOf(agent, events))
  {
    var completedJobs, cancelledJobs, disputedJobs: nat := 0, 0, 0;
    var totalCompletionSecs := 0.0;
    var completionSamples: nat := 0;
    for i := 0 to |events|
      invariant var t := TallyOf(agent, events[..i]);
                && t.completed == completedJobs && t.cancelled == cancelledJobs && t.disputed == disputedJobs
                && t.secs == totalCompletionSecs && t.samples == completionSamples
    {
      assert events[..i + 1][..i] == events[..i];
      var event := events[i];
      if event.agent != agent { continue; }
      if event.kind == "JobCompleted" {
        completedJobs := completedJobs + 1;
        if event.secs.Some? && event.secs.value > 0.0 {
          totalCompletionSecs := totalCompletionSecs + event.secs.value;
          completionSamples := completionSamples + 1;
        }
      } else if event.kind == "JobDisputed" {
        disputedJobs := disputedJobs + 1;
      } else if event.kind == "JobCancelled" {
        cancelledJobs := cancelledJobs + 1;
      }
    }
    assert events[..|events|] == events;
    metrics := Metrics(agent, completedJobs + cancelledJobs + disputedJobs, completedJobs, cancelledJobs, disputedJobs,
                       if completionSamples > 0 then totalCompletionSecs / completionSamples as real else 0.0);
  }

  method RatingsForAgent(agent: string, events: seq<Event>) returns (ratings: seq<real>)
    ensures |ratings| == TallyOf(agent, events).completed && Sum(ratings) == TallyOf(agent, events).ratings
    ensures forall k :: 0 <= k < |ratings| ==> 35.0 <= ratings[k] <= 100.0
  {
    ratings := [];
    for i := 0 to |events|
      invariant |ratings| == TallyOf(agent, events[..i]).completed
                && Sum(ratings) == TallyOf(agent, events[..i]).ratings
      invariant forall k :: 0 <= k < |ratings| ==> 35.0 <= ratings[k] <= 100.0
    {
      assert events[..i + 1][..i] == events[..i];
      if events[i].agent != agent { continue; }
      if events[i].kind == "JobCompleted" {
        ratings := ratings + [RatingForCompletion(events[i].secs)];
        assert ratings[..|ratings| - 1] + [ratings[|ratings| - 1]] == ratings;
      }
    }
    assert events[..|events|] == events;
  }

  /** A score from totals; how many ratings there are and what they add up to is all that counts. */
  function Scored(agent: string, t: Tally): Result {
    var bayesianScore := Clamp((700.0 + t.ratings) / (10 + t.completed) as real, 0.0, 100.0);
    var metrics := MetricsFrom(agent, t);
    var penalty := ComputePenalty(metrics);
    Result(agent, Clamp(bayesianScore - penalty, 0.0, 100.0), 0.0,
           Breakdown(bayesianScore, penalty, Rate(t.completed, metrics.totalJobs), Rate(t.disputed, metrics.totalJobs),
                     Rate(t.cancelled, metrics.totalJobs), metrics.avgCompletionTimeSecs, t.completed),
           metrics)
  }

  method ScoreAgent(agent: string, events: seq<Event>) returns (result: Result)
    ensures result == Scored(agent, TallyOf(agent, events))
  {
    var metrics := AggregateMetrics(agent, events);
    var ratings := RatingsForAgent(agent, events);
    result := ScoreFromMetrics(metrics, ratings);
  }

  // ---------- percentiles ----------

  function CountBelow(score: real, scores: seq<real>): (n: nat)
    ensures n <= |scores|
  {
    if scores == [] then 0
    else CountBelow(score, scores[..|scores| - 1]) + if scores[|scores| - 1] < score then 1 else 0
  }

  method PercentileRank(score: real, allScores: seq<real>) returns (rank: real)
    ensures rank == Share(CountBelow(score, allScores), |allScores|)
  {
    if |allScores| == 0 { return 0.0; }
    var below: nat := 0;
    for i := 0 to |allScores|
      invariant below == CountBelow(score, allScores[..i])
    {
      assert allScores[..i + 1][..i] == allScores[..i];
      if allScores[i] < score { below := below + 1; }
    }
    assert allScores[..|allScores|] == allScores;
    ShareIsWithin(below, |allScores|);
    rank := Clamp(below as real / |allScores| as real * 100.0, 0.0, 100.0);
  }

  function Share(part: nat, total: nat): real { if total == 0 then 0.0 else part as real / total as real * 100.0 }

  lemma ShareIsWithin(part: nat, total: nat)
    requires part <= total
    ensures 0.0 <= Share(part, total) <= 100.0
  {
    if total > 0 { assert 0.0 <= part as real / total as real <= 1.0; }
  }

  function Filter(events: seq<Event>, agent: string): seq<Event> {
    if events == [] then []
    else
      var last := events[|events| - 1];
      Filter(events[..|events| - 1], agent) + (if last.agent == agent then [last] else [])
  }

  lemma {:induction false} FilterKeepsTally(agent: string, events: seq<Event>)
    ensures TallyOf(agent, Filter(events, agent)) == TallyOf(agent, events)
  {
    hide Add;
    if events != [] {
      FilterKeepsTally(agent, events[..|events| - 1]);
      var front := Filter(events[..|events| - 1], agent);
      assert (front + [events[|events| - 1]])[..|front|] == front;
      assert front + [] == front;
    }
  }

  function Population(events: seq<Event>): set<string> { set e | e in events :: e.agent }

  function ScoreOf(agent: string, events: seq<Event>): real { Scored(agent, TallyOf(agent, events)).score }

  /** The other agents that score strictly lower. */
  function Below(agent: string, score: real, ids: set<string>, events: seq<Event>): set<string> {
    set id | id in ids && id != agent && ScoreOf(id, events) < score
  }

  /** An agent's result: its own events give the score, the whole population the percentile. */
  function ReputationOf(agent: string, agentEvents: seq<Event>, allEvents: seq<Event>): Result {
    var result := Scored(agent, TallyOf(agent, agentEvents));
    var ids := Population(allEvents) + {agent};
    result.(percentile := Share(|Below(agent, result.score, ids, allEvents)|, |ids|))
  }

  function SetOf(ids: seq<string>): set<string> { set id | id in ids }

  /** A JavaScript Set of the events' agents, in insertion order. */
  method AgentIds(events: seq<Event>) returns (ids: seq<string>)
    ensures Distinct(ids) && forall id :: id in ids <==> id in Population(events)
  {
    ids := [];
    for i := 0 to |events|
      invariant Distinct(ids) && forall id :: id in ids <==> id in Population(events[..i])
    {
      assert events[..i + 1] == events[..i] + [events[i]];
      if events[i].agent !in ids { ids := ids + [events[i].agent]; }
    }
    assert events[..|events|] == events;
  }

  lemma SetOfPrefix(ids: seq<string>, n: nat)
    requires n < |ids| && Distinct(ids)
    ensures SetOf(ids[..n + 1]) == SetOf(ids[..n]) + {ids[n]} && ids[n] !in SetOf(ids[..n])
  {
    assert ids[..n + 1] == ids[..n] + [ids[n]];
  }

  /** The set holds exactly those of the first n agents whose score is lower. */
  predicate Marks(score: real, ids: seq<string>, scores: seq<real>, lower: set<string>, n: nat)
    requires n <= |ids| == |scores|
  {
    lower <= SetOf(ids[..n]) && forall i :: 0 <= i < n ==> (scores[i] < score <==> ids[i] in lower)
  }

  lemma MarksStep(score: real, ids: seq<string>, scores: seq<real>, lower: set<string>, n: nat)
    requires n < |ids| == |scores| && Distinct(ids) && Marks(score, ids, scores, lower, n + 1)
    ensures Marks(score, ids, scores, lower - {ids[n]}, n) && (ids[n] in lower <==> scores[n] < score)
  {
    SetOfPrefix(ids, n);
    hide SetOf;
    assert forall i :: 0 <= i < n ==> ids[i] != ids[n];
  }

  /** Counting lower scores in a list without repeated agents counts the agents. */
  lemma {:induction false} CountMembers(score: real, ids: seq<string>, scores: seq<real>, lower: set<string>, n: nat)
    requires n <= |ids| == |scores| && Distinct(ids) && Marks(score, ids, scores, lower, n)
    ensures CountBelow(score, scores[..n]) == |lower| && |SetOf(ids[..n])| == n
  {
    if n == 0 {
      assert SetOf(ids[..0]) == {};
    } else {
      var x := ids[n - 1];
      assert scores[..n][..n - 1] == scores[..n - 1];
      MarksStep(score, ids, scores, lower, n - 1);
      SetOfPrefix(ids, n - 1);
      hide SetOf, Distinct, Marks;
      assert SetOf(ids[..n]) - {x} == SetOf(ids[..n - 1]);
      CountMembers(score, ids, scores, lower - {x}, n - 1);
    }
  }

  predicate ScoresOf(agent: string, score: real, ids: seq<string>, scores: seq<real>, events: seq<Event>) {
    |scores| == |ids| && forall i :: 0 <= i < |ids| ==>
       scores[i] == if ids[i] == agent then score else ScoreOf(ids[i], events)
  }

  lemma CountIsCardinality(agent: string, score: real, ids: seq<string>, scores: seq<real>, events: seq<Event>)
    requires Distinct(ids) && ScoresOf(agent, score, ids, scores, events)
    ensures CountBelow(score, scores) == |Below(agent, score, SetOf(ids), events)|
    ensures |SetOf(ids)| == |ids| == |scores|
  {
    assert ids[..|ids|] == ids && scores[..|scores|] == scores;
    var lower := Below(agent, score, SetOf(ids), events);
    forall i | 0 <= i < |ids| ensures scores[i] < score <==> ids[i] in lower {
      assert ids[i] in SetOf(ids);
    }
    CountMembers(score, ids, scores, lower, |ids|);
  }

  method ComputeReputation(agent: string, agentEvents: seq<Event>, allEvents: seq<Event>) returns (result: Result)
    ensures result == ReputationOf(agent, agentEvents, allEvents)
  {
    hide Scored, Below, Population;
    result := ScoreAgent(agent, agentEvents);
    var agentIds := AgentIds(allEvents);
    if agent !in agentIds { agentIds := agentIds + [agent]; }
    var allScores: seq<real> := [];
    for i := 0 to |agentIds|
      invariant |allScores| == i
      invariant forall k :: 0 <= k < i ==> allScores[k] == if agentIds[k] == agent then result.score
                else ScoreOf(agentIds[k], allEvents)
    {
      var id := agentIds[i];
      if id == agent {
        allScores := allScores + [result.score];
        continue;
      }
      var other := ScoreAgent(id, Filter(allEvents, id));
      FilterKeepsTally(id, allEvents);
      allScores := allScores + [other.score];
    }
    CountIsCardinality(agent, result.score, agentIds, allScores, allEvents);
    assert SetOf(agentIds) == Population(allEvents) + {agent};
    var percentile := PercentileRank(result.score, allScores);
    result := result.(percentile := percentile);
  }

  /** The first loop: every agent's score, in the results and in a list. */
  method ScoreAll(agentIds: seq<string>, allEvents: seq<Event>)
    returns (results: map<string, Result>, scores: seq<real>)
    requires Distinct(agentIds)
    ensures results.Keys == SetOf(agentIds) && |scores| == |agentIds|
    ensures forall k :: 0 <= k < |agentIds| ==> scores[k] == ScoreOf(agentIds[k], allEvents)
    ensures forall id :: id in results ==> results[id] == Scored(id, TallyOf(id, allEvents))
  {
    hide Scored, TallyOf, Distinct;
    results, scores := map[], [];
    assert SetOf(agentIds[..0]) == {};
    for i := 0 to |agentIds|
      invariant |scores| == i && forall k :: 0 <= k < i ==> scores[k] == ScoreOf(agentIds[k], allEvents)
      invariant results.Keys == SetOf(agentIds[..i])
      invariant forall id :: id in results ==> results[id] == Scored(id, TallyOf(id, allEvents))
    {
      var id := agentIds[i];
      var result := ScoreAgent(id, Filter(allEvents, id));
      FilterKeepsTally(id, allEvents);
      SetOfPrefix(agentIds, i);
      results := results[id := result];
      scores := scores + [result.score];
    }
    assert agentIds[..|agentIds|] == agentIds;
  }

  /** Every agent's result when its own events are picked out of all of them. */
  method RecalculateAllReputations(allEvents: seq<Event>) returns (results: map<string, Result>)
    ensures results.Keys == Population(allEvents)
    ensures forall id :: id in results ==> results[id] == ReputationOf(id, Filter(allEvents, id), allEvents)
  {
    hide Scored, Population, TallyOf, ReputationOf, Below, Filter;
    var agentIds := AgentIds(allEvents);
    assert SetOf(agentIds) == Population(allEvents);
    var scored, scores := ScoreAll(agentIds, allEvents);
    results := scored;
    for i := 0 to |agentIds|
      invariant results.Keys == scored.Keys
      invariant forall k :: 0 <= k < i ==>
                   results[agentIds[k]] == ReputationOf(agentIds[k], Filter(allEvents, agentIds[k]), allEvents)
      invariant forall k :: i <= k < |agentIds| ==> results[agentIds[k]] == scored[agentIds[k]]
    {
      var id := agentIds[i];
      var percentile := PercentileRank(results[id].score, scores);
      RanksAgree(id, agentIds, scores, allEvents);
      results := results[id := results[id].(percentile := percentile)];
    }
    forall id | id in results ensures results[id] == ReputationOf(id, Filter(allEvents, id), allEvents) {
      assert id in agentIds;
    }
  }

  lemma RanksAgree(id: string, ids: seq<string>, scores: seq<real>, events: seq<Event>)
    requires Distinct(ids) && id in ids && |scores| == |ids| && forall k :: 0 <= k < |ids| ==>
                scores[k] == ScoreOf(ids[k], events)
    requires SetOf(ids) == Population(events)
    ensures var r := Scored(id, TallyOf(id, events));
            r.(percentile := Share(CountBelow(r.score, scores), |scores|))
                == ReputationOf(id, Filter(events, id), events)
  {
    hide Scored, Population, Below, Filter, TallyOf;
    FilterKeepsTally(id, events);
    var r := Scored(id, TallyOf(id, events));
    assert ScoreOf(id, events) == r.score;
    CountIsCardinality(id, r.score, ids, scores, events);
    assert SetOf(ids) == Population(events) + {id};
  }

  // ---------- the order of events does not matter ----------

  lemma AddCommutes(t: Tally, x: Event, y: Event)
    ensures Add(Add(t, x), y) == Add(Add(t, y), x)
  {
  }

  function AddOwn(agent: string, t: Tally, e: Event): Tally { if e.agent == agent then Add(t, e) else t }

  /** An event counts the same wherever it stands. */
  lemma {:induction false} EventMoves(agent: string, p: seq<Event>, x: Event, q: seq<Event>)
    ensures TallyOf(agent, p + [x] + q) == AddOwn(agent, TallyOf(agent, p + q), x)
  {
    hide Add;
    if q == [] {
      assert p + [x] + q == p + [x] && p + q == p && (p + [x])[..|p|] == p;
    } else {
      var n := |q| - 1;
      EventMoves(agent, p, x, q[..n]);
      assert (p + [x] + q)[..|p| + 1 + n] == p + [x] + q[..n];
      assert (p + q)[..|p| + n] == p + q[..n];
      AddCommutes(TallyOf(agent, p + q[..n]), x, q[n]);
    }
  }

  lemma WithoutOne(a: multiset<Event>, b: multiset<Event>, x: Event)
    requires a + multiset{x} == b + multiset{x}
    ensures a == b
  {
    forall e ensures a[e] == b[e] { assert (a + multiset{x})[e] == (b + multiset{x})[e]; }
  }

  lemma {:induction false} TallyIgnoresOrder(agent: string, a: seq<Event>, b: seq<Event>)
    requires multiset(a) == multiset(b)
    ensures TallyOf(agent, a) == TallyOf(agent, b)
  {
    if a == [] {
      assert |multiset(a)| == |multiset(b)|;
      assert b == [];
    } else {
      var n := |a| - 1;
      var x := a[n];
      assert a == a[..n] + [x];
      assert x in multiset(b);
      var i :| 0 <= i < |b| && b[i] == x;
      assert b == b[..i] + [x] + b[i + 1..];
      assert multiset(a) == multiset(a[..n]) + multiset{x};
      assert multiset(b) == multiset(b[..i] + b[i + 1..]) + multiset{x};
      var others := b[..i] + b[i + 1..];
      WithoutOne(multiset(a[..n]), multiset(others), x);
      hide Add;
      TallyIgnoresOrder(agent, a[..n], others);
      EventMoves(agent, b[..i], x, b[i + 1..]);
    }
  }

  /** Results depend on which events there are, not on their order. */
  lemma OrderDoesNotMatter(agent: string, own1: seq<Event>, all1: seq<Event>, own2: seq<Event>, all2: seq<Event>)
    requires multiset(own1) == multiset(own2) && multiset(all1) == multiset(all2)
    ensures ReputationOf(agent, own1, all1) == ReputationOf(agent, own2, all2)
  {
    hide Scored, TallyOf;
    TallyIgnoresOrder(agent, own1, own2);
    forall id ensures TallyOf(id, all1) == TallyOf(id, all2) { TallyIgnoresOrder(id, all1, all2); }
    assert Population(all1) == Population(all2) by {
      assert forall e :: e in all1 <==> e in multiset(all1);
      assert forall e :: e in all2 <==> e in multiset(all2);
    }
    var score, ids := Scored(agent, TallyOf(agent, own1)).score, Population(all1) + {agent};
    hide Population;
    assert Below(agent, score, ids, all1) == Below(agent, score, ids, all2);
  }

  /** Computing one agent's reputation and recalculating everybody's agree, when the query for the
      agent returns its events of all of them, in whatever order. */
  lemma ComputeAgreesWithRecalculate(agent: string, agentEvents: seq<Event>, allEvents: seq<Event>)
    requires multiset(agentEvents) == multiset(Filter(allEvents, agent))
    ensures ReputationOf(agent, agentEvents, allEvents) == ReputationOf(agent, Filter(allEvents, agent), allEvents)
  {
    OrderDoesNotMatter(agent, agentEvents, allEvents, Filter(allEvents, agent), allEvents);
  }

  // ---------- what the numbers mean ----------

  lemma ShareIsMonotone(a: nat, b: nat, total: nat)
    requires total > 0
    ensures a < b <==> Share(a, total) < Share(b, total)
  {
    if a < b {
      assert a as real / total as real < b as real / total as real;
    } else {
      assert a as real / total as real >= b as real / total as real;
    }
  }

  /** Among agents with events, percentiles order exactly as scores do. */
  lemma HigherScoreHigherPercentile(a: string, b: string, allEvents: seq<Event>)
    requires a in Population(allEvents) && b in Population(allEvents)
    ensures var ra, rb := ReputationOf(a, Filter(allEvents, a), allEvents),
            ReputationOf(b, Filter(allEvents, b), allEvents);
            ra.score < rb.score <==> ra.percentile < rb.percentile
  {
    FilterKeepsTally(a, allEvents);
    FilterKeepsTally(b, allEvents);
    var ids := Population(allEvents);
    assert ids + {a} == ids && ids + {b} == ids;
    var sa, sb := ScoreOf(a, allEvents), ScoreOf(b, allEvents);
    hide Scored, TallyOf, Population, Filter;
    var below_a, below_b := Below(a, sa, ids, allEvents), Below(b, sb, ids, allEvents);
    if sa < sb {
      assert a in below_b && a !in below_a;
      ProperSubset(below_a, below_b, a);
    } else {
      assert below_b <= below_a;
      SubsetSize(below_b, below_a);
    }
    assert ids != {};
    ShareIsMonotone(|below_a|, |below_b|, |ids|);
  }

  lemma {:induction false} SubsetSize(s: set<string>, t: set<string>)
    requires s <= t
    ensures |s| <= |t|
  {
    assert t == s + (t - s);
    assert |t| == |s| + |t - s|;
  }

  lemma ProperSubset(s: set<string>, t: set<string>, x: string)
    requires s <= t && x in t && x !in s
    ensures |s| < |t|
  {
    SubsetSize(s + {x}, t);
  }

  lemma {:induction false} TallyBounds(agent: string, events: seq<Event>)
    ensures var t := TallyOf(agent, events);
            35.0 * t.completed as real <= t.ratings <= 100.0 * t.completed as real
  {
    if events != [] { TallyBounds(agent, events[..|events| - 1]); }
  }

  /** The Bayesian score stays within the scale without clamping, and with n completed jobs it can
      leave the prior mean by no more than n ratings' worth: a newcomer cannot outrank an
      established agent beyond that. */
  lemma FewJobsStayNearPrior(agent: string, events: seq<Event>)
    ensures var b := Scored(agent, TallyOf(agent, events)).breakdown; var n := b.sampleSize as real;
            && 35.0 <= b.bayesianScore <= 100.0
            && -35.0 * n <= (b.bayesianScore - 70.0) * (10.0 + n) <= 30.0 * n
  {
    TallyBounds(agent, events);
    var t := TallyOf(agent, events);
    hide TallyOf, ComputePenalty, Rate, MetricsFrom;
    Quotient(700.0 + t.ratings, 10.0 + t.completed as real);
  }

  lemma Quotient(sum: real, weight: real)
    requires weight >= 10.0 && 35.0 * weight <= sum <= 100.0 * weight
    ensures 35.0 <= sum / weight <= 100.0 && sum / weight * weight == sum
  {
    var q := sum / weight;
    assert q * weight == sum;
    NonNegative(q - 35.0, weight);
    NonNegative(100.0 - q, weight);
  }

  lemma NonNegative(x: real, weight: real)
    requires weight > 0.0 && x * weight >= 0.0
    ensures x >= 0.0
  {
  }

  /** Scores lie on the 0-100 scale, and percentiles below 100: nobody ranks above themselves. */
  lemma ResultsAreOnScale(agent: string, agentEvents: seq<Event>, allEvents: seq<Event>)
    ensures var r := ReputationOf(agent, agentEvents, allEvents);
            0.0 <= r.score <= 100.0 && 0.0 <= r.percentile < 100.0
  {
    hide Scored, TallyOf, Population;
    var score := Scored(agent, TallyOf(agent, agentEvents)).score;
    ScoreIsOnScale(agent, TallyOf(agent, agentEvents));
    var ids := Population(allEvents) + {agent};
    ProperSubset(Below(agent, score, ids, allEvents), ids, agent);
    ShareIsMonotone(|Below(agent, score, ids, allEvents)|, |ids|, |ids|);
    ShareIsWithin(|Below(agent, score, ids, allEvents)|, |ids|);
    ShareIsWithin(|ids|, |ids|);
  }

  lemma ScoreIsOnScale(agent: string, t: Tally)
    ensures 0.0 <= Scored(agent, t).score <= 100.0
  {
  }

  // ---------- what the numbers come to ----------

  /** The rating of a job that took so many seconds: 70 at an hour and when no time is known, 100
      up to 42 minutes, 35 from two hours on, and in proportion to the speed between. */
  lemma RatingCurve(secs: real)
    ensures RatingForCompletion(None) == 70.0 && RatingForCompletion(Some(3600.0)) == 70.0
    ensures secs <= 0.0 ==> RatingForCompletion(Some(secs)) == 70.0
    ensures 0.0 < secs <= 2520.0 ==> RatingForCompletion(Some(secs)) == 100.0
    ensures 2520.0 <= secs <= 7200.0 ==> RatingForCompletion(Some(secs)) * secs == 252000.0
    ensures secs >= 7200.0 ==> RatingForCompletion(Some(secs)) == 35.0
  {
    assert 3600.0 / 3600.0 == 1.0;
    if secs > 0.0 {
      var ratio := 3600.0 / secs;
      assert ratio * secs == 3600.0;
      if secs <= 2520.0 { AtLeast(ratio, secs, 3600.0, 2520.0); }
      if secs >= 2520.0 { AtLeast(3600.0 / 2520.0, 2520.0, 3600.0, secs); }
      if secs <= 7200.0 { AtLeast(ratio, secs, 3600.0, 7200.0); }
      if secs >= 7200.0 { AtLeast(0.5, 7200.0, 3600.0, secs); }
    }
  }

  /** The longer it takes, the smaller the ratio. */
  lemma AtLeast(ratio: real, secs: real, reference: real, bound: real)
    requires 0.0 < secs <= bound && ratio * secs == reference && reference > 0.0
    ensures ratio >= reference / bound
  {
    var least := reference / bound;
    assert least * bound == reference;
    if ratio < least { Products(ratio, least, secs, bound); }
  }

  lemma Products(x: real, y: real, a: real, b: real)
    requires x < y && 0.0 < a <= b && y > 0.0
    ensures x * a < y * b
  {
    assert (y - x) * a > 0.0 && y * (b - a) >= 0.0;
  }

  /** A faster completion never rates lower. */
  lemma FasterNeverRatesLower(quick: real, slow: real)
    requires 0.0 < quick <= slow
    ensures RatingForCompletion(Some(quick)) >= RatingForCompletion(Some(slow))
  {
    var ratio := 3600.0 / quick;
    assert ratio * quick == 3600.0;
    AtLeast(ratio, quick, 3600.0, slow);
  }

  /** What one more event of the agent does to its totals. */
  lemma TallyNext(agent: string, events: seq<Event>, e: Event)
    ensures TallyOf(agent, events + [e])
            == if e.agent == agent then Add(TallyOf(agent, events), e) else TallyOf(agent, events)
  {
    assert (events + [e])[..|events|] == events;
  }

  function Least(a: real, b: real): real { if a < b then a else b }

  /** One more dispute costs 15 points, and one more cancellation 5, until the penalty is 100 or
      nothing is left of the score; neither changes the Bayesian score. */
  lemma OneMoreCosts(agent: string, events: seq<Event>, e: Event)
    requires e.agent == agent && (e.kind == "JobDisputed" || e.kind == "JobCancelled")
    ensures var was := Scored(agent, TallyOf(agent, events)).breakdown;
            var now, score := Scored(agent, TallyOf(agent, events + [e])).breakdown,
                              Scored(agent, TallyOf(agent, events + [e])).score;
            && now.bayesianScore == was.bayesianScore
            && now.penalty == Least(100.0, was.penalty + if e.kind == "JobDisputed" then 15.0 else 5.0)
            && score == if now.bayesianScore > now.penalty then now.bayesianScore - now.penalty else 0.0
  {
    TallyNext(agent, events, e);
    FewJobsStayNearPrior(agent, events);
    hide TallyOf, Rate;
  }

  /** Without events the penalty is 0 and the score the prior mean. */
  lemma NewcomerScoresPrior(agent: string)
    ensures Scored(agent, TallyOf(agent, [])).score == 70.0
    ensures Scored(agent, TallyOf(agent, [])).breakdown.penalty == 0.0
  {
    assert 700.0 / 10.0 == 70.0;
  }

  /** What a mean of ten ratings of 70 and so many more adds up to. */
  function Weighted(score: real, samples: nat): real { score * (10 + samples) as real }

  /** The Bayesian score is the mean of ten ratings of 70 and all the agent's ratings. */
  lemma BayesianIsMean(agent: string, events: seq<Event>)
    ensures var t := TallyOf(agent, events); var b := Scored(agent, t).breakdown;
            b.sampleSize == t.completed && Weighted(b.bayesianScore, t.completed) == 700.0 + t.ratings
  {
    TallyBounds(agent, events);
    var t := TallyOf(agent, events);
    hide TallyOf, Rate, ComputePenalty, MetricsFrom;
    Quotient(700.0 + t.ratings, 10.0 + t.completed as real);
  }

  /** One more completed job takes the Bayesian score to the mean of ten ratings of 70 and all its
      ratings, this one included, and leaves the penalty alone. */
  lemma OneMoreCompletion(agent: string, events: seq<Event>, e: Event)
    requires e.agent == agent && e.kind == "JobCompleted"
    ensures var was := Scored(agent, TallyOf(agent, events)).breakdown;
            var now := Scored(agent, TallyOf(agent, events + [e])).breakdown;
            && now.sampleSize == was.sampleSize + 1 && now.penalty == was.penalty
            && Weighted(now.bayesianScore, now.sampleSize)
               == Weighted(was.bayesianScore, was.sampleSize) + RatingForCompletion(e.secs)
  {
    TallyNext(agent, events, e);
    BayesianIsMean(agent, events);
    BayesianIsMean(agent, events + [e]);
    SamePenalty(agent, TallyOf(agent, events), e);
    var t, u := TallyOf(agent, events), TallyOf(agent, events + [e]);
    assert u.completed == 1 + t.completed && u.ratings == t.ratings + RatingForCompletion(e.secs);
    hide *;
  }

  /** The penalty is 15 for each dispute and 5 for each cancellation, at most 100, and the score is
      what it leaves of the Bayesian score. */
  lemma ScoreIsRest(agent: string, events: seq<Event>)
    ensures var t, r := TallyOf(agent, events), Scored(agent, TallyOf(agent, events));
            && r.breakdown.penalty == Least(100.0, 15.0 * t.disputed as real + 5.0 * t.cancelled as real)
            && r.score == if r.breakdown.bayesianScore > r.breakdown.penalty
                          then r.breakdown.bayesianScore - r.breakdown.penalty else 0.0
  {
    FewJobsStayNearPrior(agent, events);
    hide TallyOf, Rate;
  }

  lemma SamePenalty(agent: string, t: Tally, e: Event)
    requires e.kind == "JobCompleted"
    ensures Scored(agent, Add(t, e)).breakdown.penalty == Scored(agent, t).breakdown.penalty
  {
    hide RatingForCompletion, Rate;
  }

  /** The three rates are the shares of an agent's finished jobs. */
  lemma RatesAreShares(agent: string, events: seq<Event>)
    ensures var t, b := TallyOf(agent, events), Scored(agent, TallyOf(agent, events)).breakdown;
            var total := (t.completed + t.disputed + t.cancelled) as real;
            && b.completionRate * total == t.completed as real && b.disputeRate * total == t.disputed as real
            && b.cancellationRate * total == t.cancelled as real
  {
    hide TallyOf, ComputePenalty;
  }

  /** The known completion times of an agent's completed jobs. */
  function TimesOf(agent: string, events: seq<Event>): seq<real> {
    if events == [] then []
    else
      var e := events[|events| - 1];
      TimesOf(agent, events[..|events| - 1])
      + if e.agent == agent && e.kind == "JobCompleted" && e.secs.Some? && e.secs.value > 0.0
        then [e.secs.value] else []
  }

  lemma SumSnoc(values: seq<real>, x: real)
    ensures Sum(values + [x]) == Sum(values) + x
  {
    assert (values + [x])[..|values|] == values;
  }

  lemma {:induction false} TallyTimes(agent: string, events: seq<Event>)
    ensures TallyOf(agent, events).samples == |TimesOf(agent, events)|
    ensures TallyOf(agent, events).secs == Sum(TimesOf(agent, events))
  {
    if events != [] {
      var front := TimesOf(agent, events[..|events| - 1]);
      TallyTimes(agent, events[..|events| - 1]);
      var last := events[|events| - 1];
      hide RatingForCompletion, Sum;
      assert front + [] == front;
      if last.secs.Some? { SumSnoc(front, last.secs.value); }
    }
  }

  /** The average completion time is their mean. */
  lemma AverageIsMean(agent: string, events: seq<Event>)
    ensures MetricsFrom(agent, TallyOf(agent, events)).avgCompletionTimeSecs * |TimesOf(agent, events)| as real
            == Sum(TimesOf(agent, events))
  {
    TallyTimes(agent, events);
    hide TallyOf, TimesOf;
  }
}
