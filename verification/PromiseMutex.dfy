/**
 The promise-chain `Mutex` of sdk/src/baseClient.ts. Promise 0 is `Promise.resolve()`; the
 n-th call of `runExclusive` creates promise n and awaits the promise that was `tail`.
 */
module PromiseMutex {
  datatype Mutex = Mutex(tail: nat, created: nat, resolved: set<nat>)

  const Fresh := Mutex(0, 0, {0})

  /** Where one call of `runExclusive` stands: awaiting `previous`, or past it and not yet released. */
  datatype Standing = Absent | Awaits(previous: nat, own: nat) | Inside(own: nat)

  /** The segment of `runExclusive` before its first await. */
  function Enqueue(m: Mutex): Mutex { Mutex(m.created + 1, m.created + 1, m.resolved) }

  function Ticket(m: Mutex): Standing { Awaits(m.tail, m.created + 1) }

  /** The `finally` block, reached by a returning and by a throwing body alike. */
  function Release(m: Mutex, own: nat): Mutex { m.(resolved := m.resolved + {own}) }

  ghost predicate Holds(c: Standing, own: nat) { !c.Absent? && c.own == own }

  ghost predicate Held(cs: seq<Standing>, own: nat) { exists i :: 0 <= i < |cs| && Holds(cs[i], own) }

  /** Promises resolve in creation order. */
  ghost predicate ChainOk(m: Mutex) {
    && m.tail == m.created
    && 0 in m.resolved
    && (forall r, q: nat :: r in m.resolved && q <= r ==> q in m.resolved)
    && (forall r :: r in m.resolved ==> r <= m.created)
  }

  /** Each unresolved promise belongs to exactly one call, which awaits its predecessor. */
  ghost predicate PlacesOk(m: Mutex, cs: seq<Standing>) {
    && (forall i :: 0 <= i < |cs| && !cs[i].Absent? ==> 1 <= cs[i].own <= m.created && cs[i].own !in m.resolved)
    && (forall i :: 0 <= i < |cs| && cs[i].Awaits? ==> cs[i].previous == cs[i].own - 1)
    && (forall i :: 0 <= i < |cs| && cs[i].Inside? ==> cs[i].own - 1 in m.resolved)
    && (forall i, j :: 0 <= i < j < |cs| && !cs[i].Absent? && !cs[j].Absent? ==> cs[i].own != cs[j].own)
    && (forall p: nat {:trigger Held(cs, p)} :: 1 <= p <= m.created && p !in m.resolved ==> Held(cs, p))
  }

  ghost predicate Coherent(m: Mutex, cs: seq<Standing>) { ChainOk(m) && PlacesOk(m, cs) }

  lemma EnqueueKeepsOk(m: Mutex, cs: seq<Standing>, k: nat)
    requires Coherent(m, cs) && k < |cs| && cs[k].Absent?
    ensures Coherent(Enqueue(m), cs[k := Ticket(m)])
  {
    var ds := cs[k := Ticket(m)];
    forall p: nat | 1 <= p <= m.created + 1 && p !in m.resolved ensures Held(ds, p) {
      if p == m.created + 1 {
        assert Holds(ds[k], p);
      } else {
        assert Held(cs, p);
        var i :| 0 <= i < |cs| && Holds(cs[i], p);
        assert Holds(ds[i], p);
      }
    }
  }

  lemma EnterKeepsOk(m: Mutex, cs: seq<Standing>, k: nat)
    requires Coherent(m, cs) && k < |cs| && cs[k].Awaits? && cs[k].previous in m.resolved
    ensures Coherent(m, cs[k := Inside(cs[k].own)])
  {
    hide ChainOk;
    var ds := cs[k := Inside(cs[k].own)];
    forall p: nat | 1 <= p <= m.created && p !in m.resolved ensures Held(ds, p) {
      assert Held(cs, p);
      var i :| 0 <= i < |cs| && Holds(cs[i], p);
      assert Holds(ds[i], p);
    }
  }

  lemma ReleaseKeepsOk(m: Mutex, cs: seq<Standing>, k: nat)
    requires Coherent(m, cs) && k < |cs| && cs[k].Inside?
    ensures Coherent(Release(m, cs[k].own), cs[k := Absent])
  {
    var own, ds := cs[k].own, cs[k := Absent];
    forall p: nat | 1 <= p <= m.created && p !in m.resolved + {own} ensures Held(ds, p) {
      assert Held(cs, p);
      var i :| 0 <= i < |cs| && Holds(cs[i], p);
      assert Holds(ds[i], p);
    }
  }

  /** One more call that stands elsewhere. */
  lemma BystanderKeepsOk(m: Mutex, cs: seq<Standing>, ds: seq<Standing>)
    requires Coherent(m, cs)
    requires |ds| == |cs| + 1 && ds[|cs|].Absent? && forall i :: 0 <= i < |cs| ==> ds[i] == cs[i]
    ensures Coherent(m, ds)
  {
    hide ChainOk;
    forall p: nat | 1 <= p <= m.created && p !in m.resolved ensures Held(ds, p) {
      assert Held(cs, p);
      var i :| 0 <= i < |cs| && Holds(cs[i], p);
      assert Holds(ds[i], p);
    }
  }

  /** At most one body is active, and no call made before it is still waiting: bodies enter in
      call order. */
  lemma ExclusiveInCallOrder(m: Mutex, cs: seq<Standing>, i: nat, j: nat)
    requires Coherent(m, cs) && i < |cs| && j < |cs| && cs[i].Inside? && i != j && !cs[j].Absent?
    ensures cs[j].Awaits? && cs[j].own > cs[i].own
  {
    assert cs[j].own != cs[i].own;
    var before := cs[i].own - 1;
    assert before in m.resolved;
    assert !(cs[j].own <= before);
  }

  /** The chain never blocks: while some call has not released, one is inside or may enter now. */
  lemma {:induction false} SomeoneMayProceed(m: Mutex, cs: seq<Standing>, i: nat) returns (k: nat)
    requires Coherent(m, cs) && i < |cs| && !cs[i].Absent?
    ensures k < |cs| && (cs[k].Inside? || (cs[k].Awaits? && cs[k].previous in m.resolved))
    decreases cs[i].own
  {
    if cs[i].Awaits? && cs[i].previous !in m.resolved {
      assert Held(cs, cs[i].previous);
      var j :| 0 <= j < |cs| && Holds(cs[j], cs[i].previous);
      k := SomeoneMayProceed(m, cs, j);
    } else {
      k := i;
    }
  }
}
