/**
 dashboard/lib/discovery.ts: `findMaxId`. A lookup tells whether an id exists; the limit is any
 whole number.
 */
module Discovery {
  import opened Division

  function Min(a: int, b: int): int { if a <= b then a else b }

  /** How often a number can be halved before it drops below two. */
  function Log2(n: int): nat {
    if n < 2 then 0 else 1 + Log2(n / 2)
  }

  lemma {:induction false} Log2Monotone(a: int, b: int)
    requires a <= b
    ensures Log2(a) <= Log2(b)
    decreases b
  {
    if a >= 2 { Log2Monotone(a / 2, b / 2); }
  }

  // ---------- the two searches ----------

  /** The exponential probe stops at the first missing id, or one past the limit. */
  function Probe(probe: int, max: int, live: int -> bool): int
    requires probe >= 1
    decreases max + 1 - probe
  {
    if probe > max || !live(probe) then probe else Probe(Min(probe * 2, max + 1), max, live)
  }

  /** The binary search for the last existing id, trusting that ids have no gaps. */
  function Search(lo: int, hi: int, live: int -> bool): int
    decreases hi - lo
  {
    if lo >= hi then lo
    else
      var mid := (lo + hi + 1) / 2;
      if live(mid) then Search(mid, hi, live) else Search(lo, mid - 1, live)
  }

  function FindMax(max: int, live: int -> bool): int {
    var probe := Probe(1, max, live);
    var lo := Search(probe / 2, Min(probe, max), live);
    if lo >= 1 && !live(lo) then 0 else lo
  }

  /** At most about twice the logarithm of the limit many lookups. */
  method FindMaxId(max: int, live: int -> bool) returns (id: int, lookups: nat)
    ensures id == FindMax(max, live)
    ensures lookups <= if max < 1 then 0 else 2 * Log2(max) + 3
  {
    lookups := 0;
    var probe := 1;
    while probe <= max
      invariant probe >= 1 && Probe(1, max, live) == Probe(probe, max, live)
      invariant probe <= max ==> lookups + Log2(max / probe) <= Log2(max)
      invariant probe == 1 || probe <= max + 1
      invariant probe > max ==> lookups <= if max < 1 then 0 else Log2(max) + 1
      decreases max + 1 - probe
    {
      lookups := lookups + 1;
      if !live(probe) { break; }
      HalvesOnce(max, probe);
      probe := Min(probe * 2, max + 1);
    }
    var lo := probe / 2;
    var hi := Min(probe, max);
    assert lookups <= if max < 1 then 0 else Log2(max) + 1;
    ghost var before := lookups;
    ghost var steps := if max < 1 then 0 else Log2(max) + 1;
    if lo < hi { Log2Monotone(hi - lo, max); }
    while lo < hi
      invariant Search(probe / 2, Min(probe, max), live) == Search(lo, hi, live)
      invariant lookups + (if lo < hi then Log2(hi - lo) + 1 else 0) <= before + steps
      decreases hi - lo
    {
      var mid := (lo + hi + 1) / 2;
      lookups := lookups + 1;
      if hi - lo >= 2 {
        Log2Monotone(hi - mid, (hi - lo) / 2);
        Log2Monotone(mid - 1 - lo, (hi - lo) / 2);
      }
      if live(mid) { lo := mid; } else { hi := mid - 1; }
    }
    id := lo;
    if lo >= 1 {
      lookups := lookups + 1;
      if !live(lo) { id := 0; }
    }
  }

  lemma HalvesOnce(max: int, probe: int)
    requires 1 <= probe <= max
    ensures probe * 2 <= max ==> Log2(max / (probe * 2)) + 1 == Log2(max / probe)
  {
    if probe * 2 <= max {
      DivTwice(max, probe, 2);
      DivMod(max, probe);
      assert Quotient(max, probe) >= 2 by {
        if Quotient(max, probe) < 2 { MulMonotone(Quotient(max, probe), 1, probe); }
      }
    }
  }

  // ---------- what is found ----------

  /** Whatever gaps there are, the result is 0 or an existing id within the limit. */
  lemma FoundExists(max: int, live: int -> bool)
    ensures var id := FindMax(max, live); id == 0 || (1 <= id <= max && live(id))
  {
    ProbeBounds(1, max, live);
    var probe := Probe(1, max, live);
    SearchBounds(probe / 2, Min(probe, max), live);
  }

  lemma {:induction false} ProbeBounds(probe: int, max: int, live: int -> bool)
    requires probe >= 1 && (probe == 1 || probe <= max + 1)
    ensures var p := Probe(probe, max, live); p >= 1 && (p == 1 || p <= max + 1)
    decreases max + 1 - probe
  {
    if probe <= max && live(probe) { ProbeBounds(Min(probe * 2, max + 1), max, live); }
  }

  lemma {:induction false} SearchBounds(lo: int, hi: int, live: int -> bool)
    ensures var r := Search(lo, hi, live); r >= lo && (r == lo || (r <= hi && live(r)))
    decreases hi - lo
  {
    if lo < hi {
      var mid := (lo + hi + 1) / 2;
      if live(mid) { SearchBounds(mid, hi, live); } else { SearchBounds(lo, mid - 1, live); }
    }
  }

  /** The existing ids are exactly 1 to n. */
  ghost predicate Contiguous(live: int -> bool, n: nat) { forall k :: k >= 1 ==> (live(k) <==> k <= n) }

  lemma {:induction false} ProbeOvershoots(probe: int, max: int, live: int -> bool, n: nat)
    requires Contiguous(live, n) && probe >= 1 && (probe == 1 || probe <= max + 1) && probe / 2 <= n
    ensures var p := Probe(probe, max, live); p / 2 <= n && (p > max || p > n)
    decreases max + 1 - probe
  {
    if probe <= max && live(probe) { ProbeOvershoots(Min(probe * 2, max + 1), max, live, n); }
  }

  lemma {:induction false} SearchFinds(lo: int, hi: int, live: int -> bool, n: nat)
    requires Contiguous(live, n) && 0 <= lo <= n && lo <= hi
    ensures Search(lo, hi, live) == Min(n, hi)
    decreases hi - lo
  {
    if lo < hi {
      var mid := (lo + hi + 1) / 2;
      if live(mid) { SearchFinds(mid, hi, live, n); } else { SearchFinds(lo, mid - 1, live, n); }
    }
  }

  /** When the ids are exactly 1 to n, the result is n or the limit, whichever is less; a limit
      below one finds nothing. */
  lemma ContiguousIsFound(max: int, live: int -> bool, n: nat)
    requires Contiguous(live, n)
    ensures FindMax(max, live) == if max < 1 then 0 else Min(n, max)
  {
    ProbeBounds(1, max, live);
    ProbeOvershoots(1, max, live, n);
    var probe := Probe(1, max, live);
    if max >= 1 {
      SearchFinds(probe / 2, Min(probe, max), live, n);
    }
  }

  /** Without an id 1 nothing is found, whatever else exists. */
  lemma NothingWithoutFirst(max: int, live: int -> bool)
    requires !live(1)
    ensures FindMax(max, live) == 0
  {
    assert Probe(1, max, live) == 1;
    if max >= 1 {
      assert Search(0, 1, live) == Search(0, 0, live);
    }
  }

  // ---------- exactly when gaps mislead ----------

  function Pow2(k: nat): (p: nat)
    ensures p >= 1
  {
    if k == 0 then 1 else 2 * Pow2(k - 1)
  }

  /** Every power of two within the limit, from the k-th on, exists. */
  ghost predicate PowersLive(k: nat, max: int, live: int -> bool) {
    forall j: nat :: j >= k && Pow2(j) <= max ==> live(Pow2(j))
  }

  lemma {:induction false} Pow2Grows(k: nat, j: nat)
    requires k <= j
    ensures Pow2(k) <= Pow2(j)
  {
    if k < j { Pow2Grows(k, j - 1); }
  }

  /** The probe passes the limit if all powers of two exist, and otherwise stops at a missing one,
      right above one that exists. */
  lemma {:induction false} ProbePowers(k: nat, max: int, live: int -> bool)
    requires Pow2(k) <= max
    ensures var p := Probe(Pow2(k), max, live);
            if PowersLive(k, max, live) then p == max + 1
            else p <= max && !live(p) && (p == Pow2(k) || (p % 2 == 0 && live(p / 2)))
    decreases max - Pow2(k)
  {
    if live(Pow2(k)) {
      if Pow2(k + 1) <= max {
        ProbePowers(k + 1, max, live);
        assert PowersLive(k, max, live) <==> PowersLive(k + 1, max, live) by { OneMorePower(k, max, live); }
        assert Pow2(k + 1) / 2 == Pow2(k);
      } else {
        forall j: nat | j >= k && Pow2(j) <= max ensures live(Pow2(j)) {
          if j > k { Pow2Grows(k + 1, j); }
        }
      }
    }
  }

  lemma OneMorePower(k: nat, max: int, live: int -> bool)
    requires live(Pow2(k))
    ensures PowersLive(k, max, live) <==> PowersLive(k + 1, max, live)
  {
    if PowersLive(k + 1, max, live) {
      forall j: nat | j >= k && Pow2(j) <= max ensures live(Pow2(j)) { }
    }
  }

  /** The midpoints the binary search looks at while none of them exists. */
  function LeftMidpoints(lo: int, hi: int): seq<int>
    decreases hi - lo
  {
    if lo >= hi then [] else [(lo + hi + 1) / 2] + LeftMidpoints(lo, (lo + hi + 1) / 2 - 1)
  }

  predicate NoneLive(ids: seq<int>, live: int -> bool) { forall i :: 0 <= i < |ids| ==> !live(ids[i]) }

  lemma {:induction false} SearchStaysLeft(lo: int, hi: int, live: int -> bool)
    requires !live(lo)
    ensures live(Search(lo, hi, live)) <==> !NoneLive(LeftMidpoints(lo, hi), live)
    ensures !live(Search(lo, hi, live)) ==> Search(lo, hi, live) == lo
    decreases hi - lo
  {
    if lo < hi {
      var mid := (lo + hi + 1) / 2;
      var mids := LeftMidpoints(lo, hi);
      assert mids[0] == mid && mids[1..] == LeftMidpoints(lo, mid - 1);
      if live(mid) {
        SearchBounds(mid, hi, live);
      } else {
        SearchStaysLeft(lo, mid - 1, live);
        assert NoneLive(mids, live) <==> NoneLive(mids[1..], live) by { NoneLiveTail(mids, live); }
      }
    }
  }

  lemma NoneLiveTail(ids: seq<int>, live: int -> bool)
    requires ids != [] && !live(ids[0])
    ensures NoneLive(ids, live) <==> NoneLive(ids[1..], live)
  {
    if NoneLive(ids[1..], live) {
      forall i | 0 <= i < |ids| ensures !live(ids[i]) { assert i > 0 ==> ids[i] == ids[1..][i - 1]; }
    }
  }

  /** Although id 1 exists the answer is 0 if and only if every power of two within the limit
      exists, the id halfway to the limit does not, and no midpoint from there leftwards does. */
  lemma HiddenIff(max: int, live: int -> bool)
    requires max >= 1 && live(1)
    ensures var half := (max + 1) / 2;
            FindMax(max, live) == 0
            <==> PowersLive(0, max, live) && !live(half) && NoneLive(LeftMidpoints(half, max), live)
  {
    var half := (max + 1) / 2;
    assert Pow2(0) == 1;
    ProbePowers(0, max, live);
    var probe := Probe(1, max, live);
    hide PowersLive, LeftMidpoints, NoneLive, Probe;
    SearchBounds(probe / 2, Min(probe, max), live);
    if PowersLive(0, max, live) && !live(half) { SearchStaysLeft(half, max, live); }
  }

  /** What a run on the ids 1 to m, without gaps, looks up in its exponential part. */
  function ProbedIds(probe: int, max: int, m: int): seq<int>
    requires probe >= 1
    decreases max + 1 - probe
  {
    if probe > max then []
    else [probe] + if probe > m then [] else ProbedIds(Min(probe * 2, max + 1), max, m)
  }

  /** And in its binary search. */
  function SearchedIds(lo: int, hi: int, m: int): seq<int>
    decreases hi - lo
  {
    if lo >= hi then []
    else
      var mid := (lo + hi + 1) / 2;
      [mid] + if mid <= m then SearchedIds(mid, hi, m) else SearchedIds(lo, mid - 1, m)
  }

  /** Those of the ids that are not above m exist. */
  predicate LiveUpTo(m: int, ids: seq<int>, live: int -> bool) {
    forall i :: 0 <= i < |ids| && ids[i] <= m ==> live(ids[i])
  }

  lemma LiveUpToCons(m: int, id: int, ids: seq<int>, live: int -> bool)
    ensures LiveUpTo(m, [id] + ids, live) <==> (id <= m ==> live(id)) && LiveUpTo(m, ids, live)
  {
    var all := [id] + ids;
    assert all[0] == id;
    if LiveUpTo(m, all, live) {
      forall i | 0 <= i < |ids| && ids[i] <= m ensures live(ids[i]) { assert all[i + 1] == ids[i]; }
    }
  }

  /** m is the greatest existing id within the limit. */
  ghost predicate Greatest(m: int, max: int, live: int -> bool) {
    1 <= m <= max && live(m) && forall k :: m < k <= max ==> !live(k)
  }

  function UpTo(m: int): int -> bool { k => k <= m }

  /** The probe ends where it would without gaps, unless an id it looks up is missing. */
  lemma {:induction false} ProbeWithGaps(probe: int, max: int, live: int -> bool, m: int)
    requires Greatest(m, max, live) && probe >= 1
    ensures if LiveUpTo(m, ProbedIds(probe, max, m), live) then Probe(probe, max, live) == Probe(probe, max, UpTo(m))
            else Probe(probe, max, live) < m
    decreases max + 1 - probe
  {
    if probe <= max {
      if probe <= m {
        var next := Min(probe * 2, max + 1);
        assert ProbedIds(probe, max, m) == [probe] + ProbedIds(next, max, m);
        LiveUpToCons(m, probe, ProbedIds(next, max, m), live);
        hide LiveUpTo;
        ProbeWithGaps(next, max, live, m);
      } else {
        assert ProbedIds(probe, max, m) == [probe];
      }
    }
  }

  lemma {:induction false} SearchWithGaps(lo: int, hi: int, live: int -> bool, max: int, m: int)
    requires Greatest(m, max, live) && lo <= m <= hi <= max
    ensures Search(lo, hi, live) == m <==> LiveUpTo(m, SearchedIds(lo, hi, m), live)
    decreases hi - lo
  {
    if lo < hi {
      var mid := (lo + hi + 1) / 2;
      var others := if mid <= m then SearchedIds(mid, hi, m) else SearchedIds(lo, mid - 1, m);
      assert lo < mid <= hi && SearchedIds(lo, hi, m) == [mid] + others;
      assert Search(lo, hi, live) == if live(mid) then Search(mid, hi, live) else Search(lo, mid - 1, live);
      LiveUpToCons(m, mid, others, live);
      hide LiveUpTo, SearchedIds, Search;
      if mid > m {
        SearchWithGaps(lo, mid - 1, live, max, m);
      } else if live(mid) {
        SearchWithGaps(mid, hi, live, max, m);
      } else {
        SearchBounds(lo, mid - 1, live);
      }
    }
  }

  /** The greatest existing id is found if and only if every id exists that the same search would
      look up, at or below it, if there were no gaps: fixed positions for each limit and id. */
  lemma GreatestIsFoundIff(max: int, live: int -> bool, m: int)
    requires Greatest(m, max, live)
    ensures var probe := Probe(1, max, UpTo(m));
            FindMax(max, live) == m
            <==> LiveUpTo(m, ProbedIds(1, max, m), live)
                 && LiveUpTo(m, SearchedIds(probe / 2, Min(probe, max), m), live)
  {
    ProbeWithGaps(1, max, live, m);
    assert Contiguous(UpTo(m), m);
    ProbeOvershoots(1, max, UpTo(m), m);
    ProbeBounds(1, max, UpTo(m));
    ProbeBounds(1, max, live);
    var probe := Probe(1, max, live);
    SearchBounds(probe / 2, Min(probe, max), live);
    hide LiveUpTo, ProbedIds, SearchedIds, Probe, Search, Contiguous;
    if LiveUpTo(m, ProbedIds(1, max, m), live) {
      SearchWithGaps(probe / 2, Min(probe, max), live, max, m);
    }
  }

  /** Gaps can hide everything: ids 1, 2, 4 and 8 exist, and the limit is 12. */
  lemma GapsCanHideAll()
    ensures FindMax(12, k => k in {1, 2, 4, 8}) == 0
  {
    var live := (k: int) => k in {1, 2, 4, 8};
    assert LeftMidpoints(6, 6) == [];
    assert LeftMidpoints(6, 8) == [7] + LeftMidpoints(6, 6);
    assert LeftMidpoints(6, 12) == [9] + LeftMidpoints(6, 8);
    assert Pow2(0) == 1 && Pow2(1) == 2 && Pow2(2) == 4 && Pow2(3) == 8 && Pow2(4) == 16;
    forall j: nat | Pow2(j) <= 12 ensures live(Pow2(j)) {
      if j > 4 { Pow2Grows(4, j); }
    }
    HiddenIff(12, live);
  }

  /** And gaps may do no harm: ids 1, 2 and 4 exist, and 4 is found. */
  lemma GapsMayDoNoHarm()
    ensures FindMax(12, k => k in {1, 2, 4}) == 4
  {
    var live := (k: int) => k in {1, 2, 4};
    assert Probe(4, 12, live) == 8;
    assert Probe(1, 12, live) == Probe(2, 12, live) == 8;
    assert Search(4, 4, live) == Search(4, 5, live) == Search(4, 8, live) == 4;
  }
}
