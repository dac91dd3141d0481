/**
 dashboard/lib/rateLimiter.ts: the pruned sliding-window limiter, against the limiter that
 keeps every accepted request forever.
 */
module RateLimiter {
  datatype Decision = Decision(allowed: bool, limit: nat, remaining: nat, retryAfterSeconds: nat)

  // ---------- timestamps ----------

  ghost predicate Ascending(ts: seq<int>) { forall i, j :: 0 <= i < j < |ts| ==> ts[i] <= ts[j] }

  /** How many timestamps are later than `start`. */
  function CountAfter(ts: seq<int>, start: int): (n: nat)
    ensures n <= |ts|
  {
    if ts == [] then 0 else CountAfter(ts[..|ts| - 1], start) + if ts[|ts| - 1] > start then 1 else 0
  }

  /** The timestamps later than `start`, in order. */
  function KeepAfter(ts: seq<int>, start: int): seq<int> {
    if ts == [] then []
    else KeepAfter(ts[..|ts| - 1], start) + if ts[|ts| - 1] > start then [ts[|ts| - 1]] else []
  }

  lemma {:induction false} KeptElements(ts: seq<int>, start: int)
    ensures |KeepAfter(ts, start)| == CountAfter(ts, start)
    ensures forall i :: 0 <= i < |KeepAfter(ts, start)| ==>
               KeepAfter(ts, start)[i] in ts && KeepAfter(ts, start)[i] > start
  {
    if ts != [] {
      var front := ts[..|ts| - 1];
      KeptElements(front, start);
      forall t | t in front ensures t in ts {}
      assert ts[|ts| - 1] in ts;
    }
  }

  /** On ascending timestamps, keeping the later ones drops a prefix. */
  lemma {:induction false} KeepAfterDropsPrefix(ts: seq<int>, start: int, n: nat)
    requires n <= |ts|
    requires forall i :: 0 <= i < n ==> ts[i] <= start
    requires forall i :: n <= i < |ts| ==> ts[i] > start
    ensures KeepAfter(ts, start) == ts[n..]
  {
    if ts != [] {
      var front := ts[..|ts| - 1];
      if n == |ts| {
        KeepAfterDropsPrefix(front, start, n - 1);
      } else {
        KeepAfterDropsPrefix(front, start, n);
        assert ts[n..] == front[n..] + [ts[|ts| - 1]];
      }
    }
  }

  lemma {:induction false} KeepAfterAscending(ts: seq<int>, start: int)
    requires Ascending(ts)
    ensures Ascending(KeepAfter(ts, start))
  {
    if ts != [] {
      KeepAfterAscending(ts[..|ts| - 1], start);
      var front, last := ts[..|ts| - 1], ts[|ts| - 1];
      KeptElements(front, start);
      forall i | 0 <= i < |KeepAfter(front, start)| ensures KeepAfter(front, start)[i] <= last {
        assert KeepAfter(front, start)[i] in front;
      }
    }
  }

  /** Dropping what is already too old loses nothing a later window would count. */
  lemma {:induction false} KeepAfterTwice(ts: seq<int>, early: int, late: int)
    requires early <= late
    ensures KeepAfter(KeepAfter(ts, early), late) == KeepAfter(ts, late)
  {
    if ts != [] {
      KeepAfterTwice(ts[..|ts| - 1], early, late);
      KeepAfterSnoc(KeepAfter(ts[..|ts| - 1], early), ts[|ts| - 1], late);
      var kept := KeepAfter(ts[..|ts| - 1], early);
      assert kept + [] == kept;
    }
  }

  lemma KeepAfterSnoc(ts: seq<int>, t: int, start: int)
    ensures KeepAfter(ts + [t], start) == KeepAfter(ts, start) + if t > start then [t] else []
    ensures CountAfter(ts + [t], start) == CountAfter(ts, start) + if t > start then 1 else 0
  {
    assert (ts + [t])[..|ts + [t]| - 1] == ts;
  }

  // ---------- the naive limiter ----------

  /** Every accepted request of each key, oldest first. */
  type History = map<string, seq<int>>

  function Past(h: History, key: string): seq<int> { if key in h then h[key] else [] }

  function CeilDiv1000(ms: nat): nat { (ms + 999) / 1000 }

  function Max(a: int, b: int): int { if a > b then a else b }

  /** The answer to a request at `now` when `inWindow` lists the accepted requests it competes with. */
  function Decide(inWindow: seq<int>, now: int, limit: nat, windowMs: nat): Decision
    requires limit >= 1
  {
    if |inWindow| >= limit then
      Decision(false, limit, 0, Max(1, CeilDiv1000(Max(0, inWindow[0] + windowMs - now))))
    else
      Decision(true, limit, limit - |inWindow| - 1, 0)
  }

  /** The limiter that forgets nothing: it looks at the whole history at every request. */
  function NaiveDecide(h: History, key: string, now: int, limit: nat, windowMs: nat): Decision
    requires limit >= 1
  {
    Decide(KeepAfter(Past(h, key), now - windowMs), now, limit, windowMs)
  }

  function Record(h: History, key: string, now: int, d: Decision): History {
    if d.allowed then h[key := Past(h, key) + [now]] else h
  }

  // ---------- no window overflows ----------

  /** Accepted requests in the half-open window [x, x + windowMs). */
  function CountIn(ts: seq<int>, x: int, windowMs: nat): nat {
    if ts == [] then 0
    else CountIn(ts[..|ts| - 1], x, windowMs) + if x <= ts[|ts| - 1] < x + windowMs then 1 else 0
  }

  ghost predicate NoWindowOverflows(ts: seq<int>, limit: nat, windowMs: nat) {
    forall x :: CountIn(ts, x, windowMs) <= limit
  }

  lemma {:induction false} CountInAtMostAfter(ts: seq<int>, x: int, windowMs: nat, start: int)
    requires start < x
    ensures CountIn(ts, x, windowMs) <= CountAfter(ts, start)
  {
    if ts != [] { CountInAtMostAfter(ts[..|ts| - 1], x, windowMs, start); }
  }

  /** Accepting only when the trailing window has room keeps EVERY window within the limit. */
  lemma AcceptKeepsWindows(ts: seq<int>, now: int, limit: nat, windowMs: nat)
    requires NoWindowOverflows(ts, limit, windowMs) && CountAfter(ts, now - windowMs) < limit
    ensures NoWindowOverflows(ts + [now], limit, windowMs)
  {
    forall x ensures CountIn(ts + [now], x, windowMs) <= limit {
      assert (ts + [now])[..|ts + [now]| - 1] == ts;
      if x <= now < x + windowMs {
        CountInAtMostAfter(ts, x, windowMs, now - windowMs);
      }
    }
  }

  ghost predicate NoFuture(ts: seq<int>, clock: int) { forall i :: 0 <= i < |ts| ==> ts[i] <= clock }

  /** After the advertised wait the denied key is let in, if nothing else was accepted meanwhile. */
  lemma RetryAfterIsHonest(h: History, key: string, now: int, later: int, limit: nat, windowMs: nat)
    requires limit >= 1 && NoWindowOverflows(Past(h, key), limit, windowMs) && NoFuture(Past(h, key), now)
    requires !NaiveDecide(h, key, now, limit, windowMs).allowed
    requires later >= now + 1000 * NaiveDecide(h, key, now, limit, windowMs).retryAfterSeconds
    ensures NaiveDecide(h, key, later, limit, windowMs).allowed
  {
    var inWindow := KeepAfter(Past(h, key), now - windowMs);
    RoomAfterExpiry(Past(h, key), now, later, limit, windowMs);
    KeptElements(Past(h, key), later - windowMs);
    assert inWindow[0] + windowMs - now <= 1000 * CeilDiv1000(Max(0, inWindow[0] + windowMs - now));
  }

  lemma RoomAfterExpiry(ts: seq<int>, now: int, later: int, limit: nat, windowMs: nat)
    requires NoWindowOverflows(ts, limit, windowMs) && NoFuture(ts, now) && now <= later
    requires KeepAfter(ts, now - windowMs) != []
    ensures KeepAfter(ts, now - windowMs)[0] + windowMs <= later ==> CountAfter(ts, later - windowMs) < limit
  {
    hide KeepAfter, CountAfter, CountIn;
    var inWindow := KeepAfter(ts, now - windowMs);
    TrailingWindow(ts, now, windowMs);
    assert CountIn(ts, now - windowMs + 1, windowMs) <= limit;
    KeepAfterTwice(ts, now - windowMs, later - windowMs);
    if inWindow[0] <= later - windowMs { FirstExpires(inWindow, later - windowMs); }
    KeptElements(inWindow, later - windowMs);
    KeptElements(ts, later - windowMs);
    KeptElements(ts, now - windowMs);
  }

  lemma {:induction false} TrailingWindow(ts: seq<int>, now: int, windowMs: nat)
    requires NoFuture(ts, now)
    ensures CountIn(ts, now - windowMs + 1, windowMs) == CountAfter(ts, now - windowMs)
  {
    if ts != [] { TrailingWindow(ts[..|ts| - 1], now, windowMs); }
  }

  lemma {:induction false} FirstExpires(ts: seq<int>, start: int)
    requires ts != [] && ts[0] <= start
    ensures CountAfter(ts, start) < |ts|
  {
    if |ts| > 1 { FirstExpires(ts[..|ts| - 1], start); }
  }

  // ---------- what an answer promises ----------

  /** Fewer than the limit were accepted in the window of length windowMs that ends at `now`. */
  predicate HasRoom(past: seq<int>, now: int, limit: nat, windowMs: nat) {
    CountIn(past, now - windowMs + 1, windowMs) < limit
  }

  function Copies(n: nat, now: int): (ts: seq<int>)
    ensures |ts| == n && forall i :: 0 <= i < n ==> ts[i] == now
  {
    if n == 0 then [] else Copies(n - 1, now) + [now]
  }

  /** The answer to a request at `now` after the accepted requests `past`: it is let in exactly if
      there is room; `remaining` is how many further requests at this moment would be let in;
      `retryAfterSeconds` is the first whole second from now at which a denied one would be. */
  ghost predicate Answers(d: Decision, past: seq<int>, now: int, limit: nat, windowMs: nat) {
    && d.limit == limit
    && (d.allowed <==> HasRoom(past, now, limit, windowMs))
    && (forall n: nat ::
          HasRoom(past + (if d.allowed then [now] else []) + Copies(n, now), now, limit, windowMs)
          <==> n < d.remaining)
    && if d.allowed then d.retryAfterSeconds == 0
       else && d.retryAfterSeconds >= 1
            && HasRoom(past, now + 1000 * d.retryAfterSeconds, limit, windowMs)
            && forall q :: 1 <= q < d.retryAfterSeconds ==> !HasRoom(past, now + 1000 * q, limit, windowMs)
  }

  lemma CountInSnoc(ts: seq<int>, t: int, x: int, windowMs: nat)
    ensures CountIn(ts + [t], x, windowMs) == CountIn(ts, x, windowMs) + if x <= t < x + windowMs then 1 else 0
  {
    assert (ts + [t])[..|ts + [t]| - 1] == ts;
  }

  lemma {:induction false} CountInAppended(past: seq<int>, more: seq<int>, x: int, windowMs: nat)
    ensures CountIn(past + more, x, windowMs) == CountIn(past, x, windowMs) + CountIn(more, x, windowMs)
  {
    if more == [] {
      assert past + more == past;
    } else {
      var n := |more| - 1;
      CountInAppended(past, more[..n], x, windowMs);
      assert (past + more)[..|past + more| - 1] == past + more[..n];
    }
  }

  lemma {:induction false} CountInCopies(n: nat, now: int, windowMs: nat)
    requires windowMs >= 1
    ensures CountIn(Copies(n, now), now - windowMs + 1, windowMs) == n
  {
    if n == 0 {
      CountInNone(now - windowMs + 1, windowMs);
    } else {
      hide CountIn;
      CountInCopies(n - 1, now, windowMs);
      CountInSnoc(Copies(n - 1, now), now, now - windowMs + 1, windowMs);
    }
  }

  lemma RoomAfterCopies(past: seq<int>, allowed: bool, n: nat, now: int, limit: nat, windowMs: nat)
    requires windowMs >= 1
    ensures HasRoom(past + (if allowed then [now] else []) + Copies(n, now), now, limit, windowMs)
            <==> CountIn(past, now - windowMs + 1, windowMs) + (if allowed then 1 else 0) + n < limit
  {
    var x, own := now - windowMs + 1, if allowed then [now] else [];
    hide CountIn, Copies;
    CountInAppended(past + own, Copies(n, now), x, windowMs);
    CountInAppended(past, own, x, windowMs);
    CountInCopies(n, now, windowMs);
    CountInCopies(1, now, windowMs);
    assert Copies(1, now) == [now];
    CountInNone(x, windowMs);
  }

  lemma CountInNone(x: int, windowMs: nat)
    ensures CountIn([], x, windowMs) == 0
  {
  }

  /** While the oldest of the window has not expired, none has. */
  lemma NoneExpired(past: seq<int>, now: int, later: int, limit: nat, windowMs: nat)
    requires PastOk(past, now, limit, windowMs) && now <= later
    requires KeepAfter(past, now - windowMs) != [] && KeepAfter(past, now - windowMs)[0] > later - windowMs
    ensures CountIn(past, later - windowMs + 1, windowMs) == CountIn(past, now - windowMs + 1, windowMs)
  {
    hide KeepAfter, CountIn, CountAfter, NoWindowOverflows;
    var inWindow := KeepAfter(past, now - windowMs);
    KeepAfterAscending(past, now - windowMs);
    KeepAfterTwice(past, now - windowMs, later - windowMs);
    assert forall i :: 0 <= i < |inWindow| ==> inWindow[i] > later - windowMs;
    KeepAfterDropsPrefix(inWindow, later - windowMs, 0);
    TrailingWindow(past, now, windowMs);
    TrailingWindow(past, later, windowMs);
    KeptElements(past, now - windowMs);
    KeptElements(past, later - windowMs);
  }

  lemma WaitIsLeast(past: seq<int>, now: int, limit: nat, windowMs: nat)
    requires PastOk(past, now, limit, windowMs) && |KeepAfter(past, now - windowMs)| >= limit >= 1
    ensures var wait := KeepAfter(past, now - windowMs)[0] + windowMs - now;
            forall later :: now <= later ==> (HasRoom(past, later, limit, windowMs) <==> later >= now + wait)
  {
    hide KeepAfter, CountIn, CountAfter;
    KeptElements(past, now - windowMs);
    TrailingWindow(past, now, windowMs);
    var wait := KeepAfter(past, now - windowMs)[0] + windowMs - now;
    forall later | now <= later ensures HasRoom(past, later, limit, windowMs) <==> later >= now + wait {
      if later >= now + wait {
        RoomAfterExpiry(past, now, later, limit, windowMs);
        TrailingWindow(past, later, windowMs);
      } else {
        NoneExpired(past, now, later, limit, windowMs);
      }
    }
  }

  /** Whole seconds, rounded up and at least one, are the least that suffice. */
  lemma LeastSeconds(wait: int)
    ensures var r := Max(1, CeilDiv1000(Max(0, wait)));
            r >= 1 && 1000 * r >= wait && forall q :: 1 <= q < r ==> 1000 * q < wait
  {
  }

  /** The naive limiter's answer is what it promises. */
  lemma NaiveAnswers(h: History, key: string, now: int, limit: nat, windowMs: nat)
    requires limit >= 1 && windowMs >= 1 && PastOk(Past(h, key), now, limit, windowMs)
    ensures Answers(NaiveDecide(h, key, now, limit, windowMs), Past(h, key), now, limit, windowMs)
  {
    hide KeepAfter, CountIn, CountAfter, Copies, CeilDiv1000, Max, PastOk, HasRoom;
    var past := Past(h, key);
    var inWindow, d := KeepAfter(past, now - windowMs), NaiveDecide(h, key, now, limit, windowMs);
    RoomIsInWindow(past, now, limit, windowMs);
    forall n: nat
      ensures HasRoom(past + (if d.allowed then [now] else []) + Copies(n, now), now, limit, windowMs)
              <==> n < d.remaining
    {
      RoomAfterCopies(past, d.allowed, n, now, limit, windowMs);
    }
    if !d.allowed {
      WaitIsLeast(past, now, limit, windowMs);
      LeastSeconds(inWindow[0] + windowMs - now);
    }
  }

  lemma RoomIsInWindow(past: seq<int>, now: int, limit: nat, windowMs: nat)
    requires PastOk(past, now, limit, windowMs)
    ensures |KeepAfter(past, now - windowMs)| == CountIn(past, now - windowMs + 1, windowMs) <= limit
    ensures HasRoom(past, now, limit, windowMs) <==> |KeepAfter(past, now - windowMs)| < limit
  {
    TrailingWindow(past, now, windowMs);
    KeptElements(past, now - windowMs);
  }

  /** And it is the only answer that keeps the promise. */
  lemma OneAnswer(d: Decision, e: Decision, past: seq<int>, now: int, limit: nat, windowMs: nat)
    requires Answers(d, past, now, limit, windowMs) && Answers(e, past, now, limit, windowMs)
    ensures d == e
  {
    hide HasRoom, Copies;
    var own := if d.allowed then [now] else [];
    assert HasRoom(past + own + Copies(d.remaining, now), now, limit, windowMs) <==> d.remaining < e.remaining;
    assert HasRoom(past + own + Copies(e.remaining, now), now, limit, windowMs) <==> e.remaining < d.remaining;
  }

  // ---------- the buckets ----------

  /** From `cutoff` on, a bucket holds exactly what its key's history holds. */
  ghost predicate Faithful(bucket: seq<int>, past: seq<int>, cutoff: int) {
    Ascending(bucket) && KeepAfter(past, cutoff) == KeepAfter(bucket, cutoff)
  }

  /** A key's history is in order, nothing of it lies in the future, and no window of it overflows. */
  ghost predicate PastOk(past: seq<int>, clock: int, limit: nat, windowMs: nat) {
    NoWindowOverflows(past, limit, windowMs) && NoFuture(past, clock) && Ascending(past)
  }

  ghost predicate Represents(buckets: map<string, seq<int>>, h: History, cutoff: int) {
    forall k {:trigger Faithful(Past(buckets, k), Past(h, k), cutoff)} :: Faithful(Past(buckets, k), Past(h, k), cutoff)
  }

  ghost predicate HistoryOk(h: History, clock: int, limit: nat, windowMs: nat) {
    forall k {:trigger PastOk(Past(h, k), clock, limit, windowMs)} :: PastOk(Past(h, k), clock, limit, windowMs)
  }

  lemma FaithfulLater(bucket: seq<int>, past: seq<int>, early: int, late: int)
    requires Faithful(bucket, past, early) && early <= late
    ensures Faithful(bucket, past, late)
  {
    KeepAfterTwice(past, early, late);
    KeepAfterTwice(bucket, early, late);
  }

  /** A bucket from which the expired prefix was dropped. */
  lemma FaithfulKept(bucket: seq<int>, past: seq<int>, start: int)
    requires Faithful(bucket, past, start)
    ensures Faithful(KeepAfter(bucket, start), past, start) && KeepAfter(bucket, start) == KeepAfter(past, start)
  {
    KeepAfterAscending(bucket, start);
    KeepAfterTwice(bucket, start, start);
  }

  lemma FaithfulPush(bucket: seq<int>, past: seq<int>, start: int, clock: int, now: int)
    requires Faithful(bucket, past, start) && bucket == KeepAfter(past, start) && NoFuture(past, clock) && clock <= now
    ensures Faithful(bucket + [now], past + [now], start)
  {
    hide KeepAfter, CountAfter;
    KeepAfterSnoc(bucket, now, start);
    KeepAfterSnoc(past, now, start);
    KeptElements(past, start);
    forall i | 0 <= i < |bucket| ensures bucket[i] <= now { assert bucket[i] in past; }
  }

  /** What one accepted request does to its own key. */
  lemma AcceptKey(bucket: seq<int>, past: seq<int>, now: int, limit: nat, windowMs: nat)
    requires Faithful(bucket, past, now - windowMs) && bucket == KeepAfter(past, now - windowMs)
    requires PastOk(past, now, limit, windowMs) && |bucket| < limit
    ensures Faithful(bucket + [now], past + [now], now - windowMs)
    ensures PastOk(past + [now], now, limit, windowMs)
  {
    hide KeepAfter, CountAfter, CountIn, Faithful;
    assert Ascending(past + [now]);
    FaithfulPush(bucket, past, now - windowMs, now, now);
    KeptElements(past, now - windowMs);
    AcceptKeepsWindows(past, now, limit, windowMs);
  }

  lemma RepresentsLater(buckets: map<string, seq<int>>, h: History, early: int, late: int)
    requires Represents(buckets, h, early) && early <= late
    ensures Represents(buckets, h, late)
  {
    hide Faithful;
    forall k ensures Faithful(Past(buckets, k), Past(h, k), late) {
      assert Faithful(Past(buckets, k), Past(h, k), early);
      FaithfulLater(Past(buckets, k), Past(h, k), early, late);
    }
  }

  lemma PastOkLater(past: seq<int>, clock: int, now: int, limit: nat, windowMs: nat)
    requires PastOk(past, clock, limit, windowMs) && clock <= now
    ensures PastOk(past, now, limit, windowMs)
  {
  }

  lemma HistoryOkLater(h: History, clock: int, now: int, limit: nat, windowMs: nat)
    requires HistoryOk(h, clock, limit, windowMs) && clock <= now
    ensures HistoryOk(h, now, limit, windowMs)
  {
    hide PastOk;
    forall k ensures PastOk(Past(h, k), now, limit, windowMs) {
      assert PastOk(Past(h, k), clock, limit, windowMs);
      PastOkLater(Past(h, k), clock, now, limit, windowMs);
    }
  }

  lemma StoreBucket(buckets: map<string, seq<int>>, h: History, cutoff: int, key: string, bucket: seq<int>,
                    past: seq<int>)
    requires Represents(buckets, h, cutoff) && Faithful(bucket, past, cutoff)
    ensures Represents(buckets[key := bucket], h[key := past], cutoff)
  {
    hide Faithful;
    var b, g := buckets[key := bucket], h[key := past];
    forall k ensures Faithful(Past(b, k), Past(g, k), cutoff) {
      assert Faithful(Past(buckets, k), Past(h, k), cutoff);
    }
  }

  lemma StorePast(h: History, clock: int, key: string, past: seq<int>, limit: nat, windowMs: nat)
    requires HistoryOk(h, clock, limit, windowMs) && PastOk(past, clock, limit, windowMs)
    ensures HistoryOk(h[key := past], clock, limit, windowMs)
  {
    hide PastOk;
    var g := h[key := past];
    forall k ensures PastOk(Past(g, k), clock, limit, windowMs) {
      assert PastOk(Past(h, k), clock, limit, windowMs);
    }
  }

  /** What holds after every check and prune. */
  ghost predicate Sound(buckets: map<string, seq<int>>, h: History, clock: int, limit: nat, windowMs: nat) {
    Represents(buckets, h, clock - windowMs) && HistoryOk(h, clock, limit, windowMs)
  }

  lemma DenyStep(buckets: map<string, seq<int>>, h: History, clock: int, key: string, now: int, limit: nat,
                 windowMs: nat)
    requires Sound(buckets, h, clock, limit, windowMs) && clock <= now
    ensures KeepAfter(Past(buckets, key), now - windowMs) == KeepAfter(Past(h, key), now - windowMs)
    ensures Sound(buckets[key := KeepAfter(Past(buckets, key), now - windowMs)], h, now, limit, windowMs)
  {
    hide Faithful, PastOk;
    var start := now - windowMs;
    RepresentsLater(buckets, h, clock - windowMs, start);
    HistoryOkLater(h, clock, now, limit, windowMs);
    assert Faithful(Past(buckets, key), Past(h, key), start);
    FaithfulKept(Past(buckets, key), Past(h, key), start);
    var b := buckets[key := KeepAfter(Past(buckets, key), start)];
    forall k ensures Faithful(Past(b, k), Past(h, k), start) {
      assert Faithful(Past(buckets, k), Past(h, k), start);
    }
  }

  lemma HistoryAnswers(buckets: map<string, seq<int>>, h: History, clock: int, key: string, now: int, limit: nat,
                       windowMs: nat)
    requires Sound(buckets, h, clock, limit, windowMs) && clock <= now && limit >= 1 && windowMs >= 1
    ensures Answers(NaiveDecide(h, key, now, limit, windowMs), Past(h, key), now, limit, windowMs)
  {
    hide Faithful, PastOk, Answers;
    HistoryOkLater(h, clock, now, limit, windowMs);
    assert PastOk(Past(h, key), now, limit, windowMs);
    NaiveAnswers(h, key, now, limit, windowMs);
  }

  /** How much is in the window, before and after a request is let in. */
  lemma WindowCounts(buckets: map<string, seq<int>>, h: History, key: string, now: int, limit: nat, windowMs: nat)
    requires Sound(buckets, h, now, limit, windowMs) && windowMs >= 1
    ensures |KeepAfter(Past(h, key), now - windowMs)| == CountIn(Past(h, key), now - windowMs + 1, windowMs) <= limit
    ensures CountIn(Past(h, key) + [now], now - windowMs + 1, windowMs)
            == CountIn(Past(h, key), now - windowMs + 1, windowMs) + 1
  {
    hide KeepAfter, CountIn, PastOk, Represents;
    assert PastOk(Past(h, key), now, limit, windowMs);
    RoomIsInWindow(Past(h, key), now, limit, windowMs);
    CountInSnoc(Past(h, key), now, now - windowMs + 1, windowMs);
  }

  lemma AcceptStep(buckets: map<string, seq<int>>, h: History, now: int, key: string, limit: nat, windowMs: nat)
    requires Sound(buckets, h, now, limit, windowMs) && Past(buckets, key) == KeepAfter(Past(h, key), now - windowMs)
    requires |Past(buckets, key)| < limit
    ensures Sound(buckets[key := Past(buckets, key) + [now]], h[key := Past(h, key) + [now]], now, limit, windowMs)
  {
    hide Faithful, PastOk, KeepAfter;
    assert Faithful(Past(buckets, key), Past(h, key), now - windowMs) && PastOk(Past(h, key), now, limit, windowMs);
    AcceptKey(Past(buckets, key), Past(h, key), now, limit, windowMs);
    StoreBucket(buckets, h, now - windowMs, key, Past(buckets, key) + [now], Past(h, key) + [now]);
    StorePast(h, now, key, Past(h, key) + [now], limit, windowMs);
  }

  /** The buckets after the keys of `done` were pruned. */
  ghost function Pruned(buckets: map<string, seq<int>>, start: int, done: set<string>): map<string, seq<int>> {
    map k | k in buckets && !(k in done && KeepAfter(buckets[k], start) == []) ::
      if k in done then KeepAfter(buckets[k], start) else buckets[k]
  }

  lemma PruneStep(buckets: map<string, seq<int>>, h: History, clock: int, now: int, limit: nat, windowMs: nat)
    requires Sound(buckets, h, clock, limit, windowMs) && clock <= now
    ensures forall k :: k in buckets ==> Ascending(buckets[k])
    ensures Sound(Pruned(buckets, now - windowMs, buckets.Keys), h, now, limit, windowMs)
    ensures forall k ::
              Past(Pruned(buckets, now - windowMs, buckets.Keys), k) == KeepAfter(Past(h, k), now - windowMs)
  {
    hide Faithful, PastOk, KeepAfter;
    var start := now - windowMs;
    RepresentsLater(buckets, h, clock - windowMs, start);
    HistoryOkLater(h, clock, now, limit, windowMs);
    var b := Pruned(buckets, start, buckets.Keys);
    assert KeepAfter([], start) == [] by { NothingKept(start); }
    forall k
      ensures Faithful(Past(b, k), Past(h, k), start) && Past(b, k) == KeepAfter(Past(h, k), start)
    {
      assert Faithful(Past(buckets, k), Past(h, k), start);
      FaithfulKept(Past(buckets, k), Past(h, k), start);
      assert Past(b, k) == KeepAfter(Past(buckets, k), start);
    }
    forall k | k in buckets ensures Ascending(buckets[k]) {
      assert Faithful(Past(buckets, k), Past(h, k), start);
      FaithfulAscending(Past(buckets, k), Past(h, k), start);
    }
  }

  lemma NothingKept(start: int)
    ensures KeepAfter([], start) == []
  {
  }

  lemma FaithfulAscending(bucket: seq<int>, past: seq<int>, cutoff: int)
    requires Faithful(bucket, past, cutoff)
    ensures Ascending(bucket)
  {
  }

  // ---------- the class ----------

  class SlidingWindowRateLimiter {
    const limit: nat
    const windowMs: nat
    var buckets: map<string, seq<int>>
    ghost var history: History
    ghost var clock: int

    /** The options may be fractional or non-positive. */
    constructor (limit: real, windowMs: real, ghost now: int)
      ensures this.limit as int == Max(1, limit.Floor)
      ensures this.windowMs as int == Max(1, windowMs.Floor)
      ensures Valid() && history == map[] && clock == now
    {
      this.limit := Max(1, limit.Floor);
      this.windowMs := Max(1, windowMs.Floor);
      buckets := map[];
      history := map[];
      clock := now;
    }

    ghost predicate Valid()
      reads this
    {
      && limit >= 1 && windowMs >= 1
      && Sound(buckets, history, clock, limit, windowMs)
    }

    /** Counts the expired prefix and splices it off. */
    static method DropExpired(timestamps: seq<int>, windowStart: int) returns (kept: seq<int>)
      requires Ascending(timestamps)
      ensures kept == KeepAfter(timestamps, windowStart)
    {
      var expired := 0;
      while expired < |timestamps| && timestamps[expired] <= windowStart
        invariant 0 <= expired <= |timestamps|
        invariant forall i :: 0 <= i < expired ==> timestamps[i] <= windowStart
      {
        expired := expired + 1;
      }
      KeepAfterDropsPrefix(timestamps, windowStart, expired);
      kept := timestamps[expired..];
    }

    /** Answers exactly as the limiter that forgets nothing, which is what an answer promises; the
        request is recorded if and only if it is let in. */
    method Check(key: string, now: int) returns (d: Decision)
      requires Valid() && clock <= now
      modifies this
      ensures Valid() && clock == now
      ensures d == NaiveDecide(old(history), key, now, limit, windowMs)
      ensures Answers(d, Past(old(history), key), now, limit, windowMs)
      ensures history == if d.allowed then old(history)[key := Past(old(history), key) + [now]] else old(history)
      ensures key in buckets && |buckets[key]| == CountIn(Past(history, key), now - windowMs + 1, windowMs) <= limit
      ensures forall k :: k in buckets <==> k in old(buckets) || k == key
    {
      hide Sound, KeepAfter, Answers, CountIn;
      HistoryAnswers(buckets, history, clock, key, now, limit, windowMs);
      DenyStep(buckets, history, clock, key, now, limit, windowMs);
      var timestamps := BucketOf(key);
      timestamps := DropExpired(timestamps, now - windowMs);
      clock := now;
      buckets := buckets[key := timestamps];
      WindowCounts(buckets, history, key, now, limit, windowMs);
      if |timestamps| >= limit {
        var retryAfterMs := Max(0, timestamps[0] + windowMs - now);
        return Decision(false, limit, 0, Max(1, CeilDiv1000(retryAfterMs)));
      }
      AcceptStep(buckets, history, now, key, limit, windowMs);
      timestamps := timestamps + [now];
      buckets := buckets[key := timestamps];
      history := history[key := Past(history, key) + [now]];
      return Decision(true, limit, Max(0, limit - |timestamps|), 0);
    }

    method BucketOf(key: string) returns (timestamps: seq<int>)
      requires Valid()
      ensures timestamps == Past(buckets, key) && Ascending(timestamps)
    {
      timestamps := if key in buckets then buckets[key] else [];
      assert Faithful(Past(buckets, key), Past(history, key), clock - windowMs);
    }

    /** Drops expired timestamps and empty buckets; what `Check` will answer is unaffected. A key
        is kept exactly if some request of it was let in during the window that ends now. */
    method Prune(now: int)
      requires Valid() && clock <= now
      modifies this
      ensures Valid() && clock == now && history == old(history)
      ensures buckets == Pruned(old(buckets), now - windowMs, old(buckets).Keys)
      ensures forall k :: k in buckets <==> CountIn(Past(history, k), now - windowMs + 1, windowMs) > 0
      ensures forall k :: k in buckets ==> |buckets[k]| == CountIn(Past(history, k), now - windowMs + 1, windowMs)
    {
      hide Sound, Pruned, CountIn;
      PruneStep(buckets, history, clock, now, limit, windowMs);
      PrunedIsFilled(buckets, now - windowMs);
      buckets := PruneKeys(buckets, now - windowMs);
      clock := now;
      forall k
        ensures |Past(buckets, k)| == CountIn(Past(history, k), now - windowMs + 1, windowMs)
        ensures k in buckets ==> buckets[k] != []
      {
        WindowCounts(buckets, history, k, now, limit, windowMs);
      }
    }

    static method PruneKeys(buckets: map<string, seq<int>>, windowStart: int) returns (kept: map<string, seq<int>>)
      requires forall k :: k in buckets ==> Ascending(buckets[k])
      ensures kept == Pruned(buckets, windowStart, buckets.Keys)
    {
      kept := buckets;
      var rest := buckets.Keys;
      while rest != {}
        invariant rest <= buckets.Keys
        invariant kept == Pruned(buckets, windowStart, buckets.Keys - rest)
        decreases rest
      {
        var key :| key in rest;
        assert kept[key] == buckets[key];
        var timestamps := DropExpired(kept[key], windowStart);
        if |timestamps| == 0 {
          kept := kept - {key};
        } else {
          kept := kept[key := timestamps];
        }
        PruneOne(buckets, windowStart, buckets.Keys - rest, key);
        rest := rest - {key};
        assert buckets.Keys - rest == buckets.Keys - (rest + {key}) + {key};
      }
    }
  }

  lemma PruneOne(buckets: map<string, seq<int>>, start: int, done: set<string>, key: string)
    requires key in buckets && key !in done
    ensures var was := Pruned(buckets, start, done);
            Pruned(buckets, start, done + {key}) ==
            if KeepAfter(buckets[key], start) == [] then was - {key} else was[key := KeepAfter(buckets[key], start)]
  {
  }

  lemma PrunedIsFilled(buckets: map<string, seq<int>>, start: int)
    ensures var b := Pruned(buckets, start, buckets.Keys); forall k :: k in b ==> b[k] != []
  {
  }

  // ---------- whole runs ----------

  datatype Call = CheckCall(key: string, now: int) | PruneCall(now: int)

  /** The naive limiter's answers to a run; it has nothing to prune. */
  ghost function NaiveRun(h: History, calls: seq<Call>, limit: nat, windowMs: nat): (History, seq<Decision>)
    requires limit >= 1
  {
    if calls == [] then (h, [])
    else
      var (g, ds) := NaiveRun(h, calls[..|calls| - 1], limit, windowMs);
      match calls[|calls| - 1]
      case PruneCall(_) => (g, ds)
      case CheckCall(key, now) =>
        var d := NaiveDecide(g, key, now, limit, windowMs);
        (Record(g, key, now, d), ds + [d])
  }

  /** The moments at which requests of a key were let in, going by the answers given. */
  ghost function LetIn(calls: seq<Call>, decisions: seq<Decision>, key: string): seq<int> {
    if calls == [] then []
    else
      match calls[|calls| - 1]
      case PruneCall(_) => LetIn(calls[..|calls| - 1], decisions, key)
      case CheckCall(k, now) =>
        if decisions == [] then []
        else
          LetIn(calls[..|calls| - 1], decisions[..|decisions| - 1], key)
          + if k == key && decisions[|decisions| - 1].allowed then [now] else []
  }

  /** One answer for each check, each what an answer promises after those before it. */
  ghost predicate Honest(calls: seq<Call>, decisions: seq<Decision>, limit: nat, windowMs: nat) {
    if calls == [] then decisions == []
    else
      match calls[|calls| - 1]
      case PruneCall(_) => Honest(calls[..|calls| - 1], decisions, limit, windowMs)
      case CheckCall(key, now) =>
        && decisions != [] && Honest(calls[..|calls| - 1], decisions[..|decisions| - 1], limit, windowMs)
        && Answers(decisions[|decisions| - 1], LetIn(calls[..|calls| - 1], decisions[..|decisions| - 1], key), now,
            limit, windowMs)
  }

  lemma CheckContinues(calls: seq<Call>, decisions: seq<Decision>, key: string, now: int, d: Decision,
                       limit: nat, windowMs: nat)
    requires Honest(calls, decisions, limit, windowMs)
    requires Answers(d, LetIn(calls, decisions, key), now, limit, windowMs)
    ensures Honest(calls + [CheckCall(key, now)], decisions + [d], limit, windowMs)
    ensures forall k :: LetIn(calls + [CheckCall(key, now)], decisions + [d], k)
                        == LetIn(calls, decisions, k) + if k == key && d.allowed then [now] else []
  {
    var c, e := calls + [CheckCall(key, now)], decisions + [d];
    assert c[..|c| - 1] == calls && e[..|e| - 1] == decisions;
  }

  lemma PruneContinues(calls: seq<Call>, decisions: seq<Decision>, now: int, limit: nat, windowMs: nat)
    requires Honest(calls, decisions, limit, windowMs)
    ensures Honest(calls + [PruneCall(now)], decisions, limit, windowMs)
    ensures forall k :: LetIn(calls + [PruneCall(now)], decisions, k) == LetIn(calls, decisions, k)
  {
    var c := calls + [PruneCall(now)];
    assert c[..|c| - 1] == calls;
  }

  /** Any run of checks and prunes with a clock that never goes back: the answers are the naive
      limiter's, each is what an answer promises after what was let in so far, and in what was let
      in no window of length windowMs holds more than the limit. */
  method AnyRun(limit: real, windowMs: real, calls: seq<Call>) returns (decisions: seq<Decision>)
    requires forall i, j :: 0 <= i < j < |calls| ==> calls[i].now <= calls[j].now
    ensures var l, w := Max(1, limit.Floor), Max(1, windowMs.Floor);
            && decisions == NaiveRun(map[], calls, l, w).1
            && Honest(calls, decisions, l, w)
            && forall k :: NoWindowOverflows(LetIn(calls, decisions, k), l, w)
  {
    hide LetIn, Honest, Answers, CountIn, Sound, NaiveRun, NaiveDecide, NoWindowOverflows;
    NothingYet(Max(1, limit.Floor), Max(1, windowMs.Floor));
    var limiter := new SlidingWindowRateLimiter(limit, windowMs, if calls == [] then 0 else calls[0].now);
    decisions := [];
    for n := 0 to |calls|
      invariant limiter.Valid() && fresh(limiter)
      invariant n < |calls| ==> limiter.clock <= calls[n].now
      invariant (limiter.history, decisions) == NaiveRun(map[], calls[..n], limiter.limit, limiter.windowMs)
      invariant Honest(calls[..n], decisions, limiter.limit, limiter.windowMs)
      invariant forall k :: LetIn(calls[..n], decisions, k) == Past(limiter.history, k)
    {
      assert calls[..n + 1] == calls[..n] + [calls[n]];
      NaiveRunNext(calls[..n], calls[n], limiter.limit, limiter.windowMs);
      match calls[n]
      case CheckCall(key, now) =>
        var d := limiter.Check(key, now);
        CheckContinues(calls[..n], decisions, key, now, d, limiter.limit, limiter.windowMs);
        decisions := decisions + [d];
      case PruneCall(now) =>
        limiter.Prune(now);
        PruneContinues(calls[..n], decisions, now, limiter.limit, limiter.windowMs);
    }
    assert calls[..|calls|] == calls;
    SoundWindows(limiter.buckets, limiter.history, limiter.clock, limiter.limit, limiter.windowMs);
  }

  lemma SoundWindows(buckets: map<string, seq<int>>, h: History, clock: int, limit: nat, windowMs: nat)
    requires Sound(buckets, h, clock, limit, windowMs)
    ensures forall k :: NoWindowOverflows(Past(h, k), limit, windowMs)
  {
    forall k ensures NoWindowOverflows(Past(h, k), limit, windowMs) {
      assert PastOk(Past(h, k), clock, limit, windowMs);
    }
  }

  lemma NaiveRunNext(calls: seq<Call>, call: Call, limit: nat, windowMs: nat)
    requires limit >= 1
    ensures var (g, ds) := NaiveRun(map[], calls, limit, windowMs);
            NaiveRun(map[], calls + [call], limit, windowMs)
            == match call
               case PruneCall(_) => (g, ds)
               case CheckCall(key, now) =>
                 var d := NaiveDecide(g, key, now, limit, windowMs);
                 (Record(g, key, now, d), ds + [d])
  {
    assert (calls + [call])[..|calls|] == calls;
  }

  lemma NothingYet(limit: nat, windowMs: nat)
    ensures Honest([], [], limit, windowMs) && forall k :: LetIn([], [], k) == Past(map[], k)
    ensures limit >= 1 ==> NaiveRun(map[], [], limit, windowMs) == (map[], [])
  {
  }
}
