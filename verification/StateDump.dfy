/**
 scripts/state-dump.ts: deduplication of fetched ledger entries, `sortEntries`, and the text
 `computeStateRoot` feeds to SHA-256.
 */
module StateDump {
  import opened Ordering
  import opened StringOrder
  import opened Json
  import opened JsonReader
  import opened Wrappers
  import JsonDecoding

  datatype Contract = Identity | Commerce {
    function Name(): string { if Identity? then "identity" else "commerce" }
  }

  /** A fetched entry; `details` stands for the decoded value and last-modified ledger, which
      are never hashed. */
  datatype StateEntry = StateEntry(contract: Contract, kind: string, key: string, rawValue: string, details: string)

  /** The four fields of an entry that reach the hash. */
  datatype Hashed = Hashed(contract: Contract, kind: string, key: string, rawValue: string)

  function Project(e: StateEntry): Hashed { Hashed(e.contract, e.kind, e.key, e.rawValue) }

  function ProjectAll(es: seq<StateEntry>): (hs: seq<Hashed>)
    ensures |hs| == |es| && forall i :: 0 <= i < |es| ==> hs[i] == Project(es[i])
  {
    seq(|es|, i requires 0 <= i < |es| => Project(es[i]))
  }

  ghost function HashedSet(es: seq<StateEntry>): set<Hashed> { set e | e in es :: Project(e) }

  // ---------- deduplication ----------

  function DedupKey(e: StateEntry): string { e.contract.Name() + ":" + e.key }

  lemma DedupKeyInjective(a: StateEntry, b: StateEntry)
    requires DedupKey(a) == DedupKey(b)
    ensures a.contract == b.contract && a.key == b.key
  {
    assert DedupKey(a)[0] == a.contract.Name()[0] && DedupKey(b)[0] == b.contract.Name()[0];
    assert a.key == DedupKey(a)[9..] && b.key == DedupKey(b)[9..];
  }

  /** What `dedup.values()` must be after all entries: one entry per (contract, key), the last
      one fetched. */
  ghost predicate Deduplicated(entries: seq<StateEntry>, values: seq<StateEntry>) {
    && (forall i, j :: 0 <= i < j < |values| ==> DedupKey(values[i]) != DedupKey(values[j]))
    && (forall e :: e in entries ==> HasKey(values, DedupKey(e)))
    && (forall v :: v in values ==> IsLast(entries, v))
  }

  ghost predicate HasKey(values: seq<StateEntry>, k: string) { exists v :: v in values && DedupKey(v) == k }

  ghost predicate IsLast(entries: seq<StateEntry>, v: StateEntry) { exists i :: LastWith(entries, i, v) }

  /** `v` is at position `i` and no later entry has its key. */
  ghost predicate LastWith(entries: seq<StateEntry>, i: int, v: StateEntry) {
    0 <= i < |entries| && entries[i] == v && forall j :: i < j < |entries| ==> DedupKey(entries[j]) != DedupKey(v)
  }

  lemma IsLastExtends(entries: seq<StateEntry>, e: StateEntry, v: StateEntry)
    requires IsLast(entries, v) && DedupKey(v) != DedupKey(e)
    ensures IsLast(entries + [e], v)
  {
    var i :| LastWith(entries, i, v);
    assert LastWith(entries + [e], i, v);
  }

  /** A JavaScript Map filled from `entries`: its keys in insertion order, and its contents. */
  ghost predicate Filled(entries: seq<StateEntry>, keys: seq<string>, byKey: map<string, StateEntry>) {
    && (forall i, j :: 0 <= i < j < |keys| ==> keys[i] != keys[j])
    && (forall k :: k in keys <==> k in byKey)
    && (forall k :: k in byKey ==> DedupKey(byKey[k]) == k && IsLast(entries, byKey[k]))
    && (forall e :: e in entries ==> DedupKey(e) in byKey)
  }

  lemma FilledStep(entries: seq<StateEntry>, e: StateEntry, keys: seq<string>, byKey: map<string, StateEntry>)
    requires Filled(entries, keys, byKey)
    ensures Filled(entries + [e], if DedupKey(e) in byKey then keys else keys + [DedupKey(e)], byKey[DedupKey(e) := e])
  {
    forall q | q in byKey && q != DedupKey(e) ensures IsLast(entries + [e], byKey[q]) {
      IsLastExtends(entries, e, byKey[q]);
    }
    assert LastWith(entries + [e], |entries|, e);
  }

  lemma FilledDedups(entries: seq<StateEntry>, keys: seq<string>, byKey: map<string, StateEntry>,
                     values: seq<StateEntry>)
    requires Filled(entries, keys, byKey)
    requires |values| == |keys| && forall i :: 0 <= i < |keys| ==> values[i] == byKey[keys[i]]
    ensures Deduplicated(entries, values)
  {
    forall e | e in entries ensures HasKey(values, DedupKey(e)) {
      var i :| 0 <= i < |keys| && keys[i] == DedupKey(e);
      assert values[i] in values;
    }
  }

  lemma NothingFilled(entries: seq<StateEntry>)
    ensures Filled(entries[..0], [], map[])
  {
  }

  lemma KeysAreFilled(entries: seq<StateEntry>, keys: seq<string>, byKey: map<string, StateEntry>)
    requires Filled(entries, keys, byKey)
    ensures forall i :: 0 <= i < |keys| ==> keys[i] in byKey
  {
  }

  /** The Map loop of `main`. */
  method Dedup(entries: seq<StateEntry>) returns (values: seq<StateEntry>)
    ensures Deduplicated(entries, values)
  {
    hide Filled, Deduplicated, DedupKey;
    var keys: seq<string> := [];
    var byKey: map<string, StateEntry> := map[];
    NothingFilled(entries);
    for n := 0 to |entries|
      invariant Filled(entries[..n], keys, byKey)
    {
      FilledStep(entries[..n], entries[n], keys, byKey);
      assert entries[..n] + [entries[n]] == entries[..n + 1];
      var k := DedupKey(entries[n]);
      if k !in byKey { keys := keys + [k]; }
      byKey := byKey[k := entries[n]];
    }
    assert entries[..|entries|] == entries;
    KeysAreFilled(entries, keys, byKey);
    values := seq(|keys|, i requires 0 <= i < |keys| && keys[i] in byKey => byKey[keys[i]]);
    FilledDedups(entries, keys, byKey, values);
  }

  // ---------- sorting ----------

  /** The comparator of `sortEntries`: contract, then kind, then key. */
  predicate Before(a: Hashed, b: Hashed) {
    if a.contract != b.contract then Less(a.contract.Name(), b.contract.Name())
    else if a.kind != b.kind then Less(a.kind, b.kind)
    else Less(a.key, b.key)
  }

  predicate EntryBefore(a: StateEntry, b: StateEntry) { Before(Project(a), Project(b)) }

  lemma BeforeIsStrictOrder()
    ensures StrictOrder(Before) && StrictOrder(EntryBefore)
  {
    LessIsStrictOrder();
    ContractNamesOrdered();
    forall x, y, z | Before(x, y) && Before(y, z) ensures Before(x, z) {}
    forall x, y, z | EntryBefore(x, y) && EntryBefore(y, z) ensures EntryBefore(x, z) {}
    forall x ensures !Before(x, x) {}
    forall x ensures !EntryBefore(x, x) {}
  }

  lemma ContractNamesOrdered()
    ensures Less(Commerce.Name(), Identity.Name()) && !Less(Identity.Name(), Commerce.Name())
  {
    assert "commerce"[0] == 'c' && "identity"[0] == 'i';
  }

  lemma DistinctKeysComparable(values: seq<StateEntry>)
    requires forall i, j :: 0 <= i < j < |values| ==> DedupKey(values[i]) != DedupKey(values[j])
    ensures ComparableOn(EntryBefore, values)
  {
    forall i, j | 0 <= i < j < |values|
      ensures EntryBefore(values[i], values[j]) || EntryBefore(values[j], values[i])
    {
      ContractNamesOrdered();
      LessTotal(values[i].kind, values[j].kind);
      LessTotal(values[i].key, values[j].key);
    }
  }

  function SortEntries(es: seq<StateEntry>): seq<StateEntry> { Sort(EntryBefore, es) }

  // ---------- the hashed text ----------

  function EntryJson(h: Hashed): (v: Json)
    ensures WellFormed(v)
  {
    Obj([Field("contract", Str(h.contract.Name())), Field("kind", Str(h.kind)),
         Field("key", Str(h.key)), Field("raw_value", Str(h.rawValue))])
  }

  function EntriesJson(hs: seq<Hashed>): (v: Json)
    ensures WellFormed(v)
  {
    Arr(seq(|hs|, i requires 0 <= i < |hs| => EntryJson(hs[i])))
  }

  /** The string `computeStateRoot` hashes. */
  function RootText(sorted: seq<StateEntry>): string { Canonicalize(EntriesJson(ProjectAll(sorted))) }

  lemma EntryJsonInjective(a: Hashed, b: Hashed)
    requires SameValue(EntryJson(a), EntryJson(b))
    ensures a == b
  {
    var fs, gs := EntryJson(a).fields, EntryJson(b).fields;
    assert Keys(fs)[0] == "contract" && Keys(fs)[1] == "kind" && Keys(fs)[2] == "key" && Keys(fs)[3] == "raw_value";
    assert Keys(gs)[0] == "contract" && Keys(gs)[1] == "kind" && Keys(gs)[2] == "key" && Keys(gs)[3] == "raw_value";
    assert SameValue(fs[IndexOf(fs, "contract")].value, gs[IndexOf(gs, "contract")].value);
    assert SameValue(fs[IndexOf(fs, "kind")].value, gs[IndexOf(gs, "kind")].value);
    assert SameValue(fs[IndexOf(fs, "key")].value, gs[IndexOf(gs, "key")].value);
    assert SameValue(fs[IndexOf(fs, "raw_value")].value, gs[IndexOf(gs, "raw_value")].value);
    assert a.contract.Name()[0] == b.contract.Name()[0];
  }

  lemma RootTextInjective(s: seq<StateEntry>, t: seq<StateEntry>)
    requires RootText(s) == RootText(t)
    ensures ProjectAll(s) == ProjectAll(t)
  {
    var a, b := EntriesJson(ProjectAll(s)), EntriesJson(ProjectAll(t));
    JsonDecoding.CanonicalIffSame(a, b);
    forall i | 0 <= i < |s| ensures ProjectAll(s)[i] == ProjectAll(t)[i] {
      assert SameValue(a.items[i], b.items[i]);
      EntryJsonInjective(ProjectAll(s)[i], ProjectAll(t)[i]);
    }
  }

  /** Entries fetched more than once agree on everything that is hashed. */
  ghost predicate DuplicatesAgree(entries: seq<StateEntry>) {
    forall a, b :: a in entries && b in entries && DedupKey(a) == DedupKey(b) ==> Project(a) == Project(b)
  }

  lemma DedupKeepsHashed(entries: seq<StateEntry>, values: seq<StateEntry>)
    requires Deduplicated(entries, values) && DuplicatesAgree(entries)
    ensures HashedSet(values) == HashedSet(entries)
  {
    forall v | v in values ensures v in entries {
      assert IsLast(entries, v);
      var i :| LastWith(entries, i, v);
    }
    forall e | e in entries ensures Project(e) in HashedSet(values) {
      assert HasKey(values, DedupKey(e));
      var v :| v in values && DedupKey(v) == DedupKey(e);
      assert v in entries;
    }
  }

  lemma SortedProjection(values: seq<StateEntry>)
    requires forall i, j :: 0 <= i < j < |values| ==> DedupKey(values[i]) != DedupKey(values[j])
    ensures StrictlySorted(Before, ProjectAll(SortEntries(values)))
    ensures forall h :: h in ProjectAll(SortEntries(values)) <==> h in HashedSet(values)
  {
    BeforeIsStrictOrder();
    DistinctKeysComparable(values);
    SortSorts(EntryBefore, values);
    SortElements(EntryBefore, values);
    var s := SortEntries(values);
    forall i, j | 0 <= i < j < |s| ensures Before(ProjectAll(s)[i], ProjectAll(s)[j]) {
      assert EntryBefore(s[i], s[j]);
    }
    forall h | h in HashedSet(values) ensures h in ProjectAll(s) {
      var e :| e in values && Project(e) == h;
      var i :| 0 <= i < |s| && s[i] == e;
      assert ProjectAll(s)[i] == h;
    }
  }

  /** Between any two dumps the hashed texts coincide exactly when the entries that survive
      deduplication agree on everything hashed. */
  lemma RootTextIffSameSurvivors(e1: seq<StateEntry>, v1: seq<StateEntry>, e2: seq<StateEntry>, v2: seq<StateEntry>)
    requires Deduplicated(e1, v1) && Deduplicated(e2, v2)
    ensures RootText(SortEntries(v1)) == RootText(SortEntries(v2)) <==> HashedSet(v1) == HashedSet(v2)
  {
    SortedProjection(v1);
    SortedProjection(v2);
    var p1, p2 := ProjectAll(SortEntries(v1)), ProjectAll(SortEntries(v2));
    if HashedSet(v1) == HashedSet(v2) {
      BeforeIsStrictOrder();
      SortedUnique(Before, p1, p2);
    }
    if RootText(SortEntries(v1)) == RootText(SortEntries(v2)) {
      RootTextInjective(SortEntries(v1), SortEntries(v2));
      forall h ensures h in HashedSet(v1) <==> h in HashedSet(v2) {
        assert h in p1 <==> h in p2;
      }
    }
  }

  /** Between any two dumps whose duplicates agree, the hashed texts coincide exactly when the
      same set of (contract, kind, key, raw value) was fetched: order, repetition and unhashed
      details never show, and different states never share a text. */
  lemma RootTextIffSameState(e1: seq<StateEntry>, v1: seq<StateEntry>, e2: seq<StateEntry>, v2: seq<StateEntry>)
    requires Deduplicated(e1, v1) && DuplicatesAgree(e1)
    requires Deduplicated(e2, v2) && DuplicatesAgree(e2)
    ensures RootText(SortEntries(v1)) == RootText(SortEntries(v2)) <==> HashedSet(e1) == HashedSet(e2)
  {
    DedupKeepsHashed(e1, v1);
    DedupKeepsHashed(e2, v2);
    RootTextIffSameSurvivors(e1, v1, e2, v2);
  }

  /** An entry as a value of the grammar: its four hashed fields, in the order of their names. */
  function Shown(e: StateEntry): (v: Json)
    ensures WellFormed(v)
  {
    Obj([Field("contract", Str(if e.contract.Identity? then "identity" else "commerce")), Field("key", Str(e.key)),
         Field("kind", Str(e.kind)), Field("raw_value", Str(e.rawValue))])
  }

  function AllShown(es: seq<StateEntry>): (v: Json)
    ensures v.Arr? && |v.items| == |es| && forall i :: 0 <= i < |es| ==> v.items[i] == Shown(es[i])
    ensures WellFormed(v)
  {
    Arr(seq(|es|, i requires 0 <= i < |es| => Shown(es[i])))
  }

  lemma HashedNamesAscend()
    ensures StrictlySorted(Less, HASHED_NAMES)
  {
    assert "contract"[0] == 'c' && "raw_value"[0] == 'r';
    assert "key"[1..][0] == 'e' && "kind"[1..][0] == 'i';
    assert Less("contract", "key") && Less("contract", "kind") && Less("contract", "raw_value");
    assert Less("key", "raw_value") && Less("kind", "raw_value");
    assert Less("key"[1..], "kind"[1..]);
  }

  const HASHED_NAMES := ["contract", "key", "kind", "raw_value"]

  lemma EntryKeys(e: StateEntry)
    ensures Keys(EntryJson(Project(e)).fields) == ["contract", "kind", "key", "raw_value"]
    ensures forall k :: k in Keys(EntryJson(Project(e)).fields) <==> k in HASHED_NAMES
  {
  }

  lemma EntryMember(e: StateEntry, i: nat)
    requires i < 4
    ensures var gs := EntryJson(Project(e)).fields;
            HASHED_NAMES[i] in Keys(gs) && gs[IndexOf(gs, HASHED_NAMES[i])].value == Shown(e).fields[i].value
  {
    EntryKeys(e);
    OneOfAKey(EntryJson(Project(e)).fields, if i == 1 then 2 else if i == 2 then 1 else i);
  }

  lemma EntryKeysRead(v: Json, e: StateEntry)
    requires InKeyOrder(v) && SameValue(v, EntryJson(Project(e)))
    ensures v.Obj? && Keys(v.fields) == HASHED_NAMES
  {
    EntryKeys(e);
    HashedNamesAscend();
    LessIsStrictOrder();
    assert v.Obj?;
    hide Less, EntryJson;
    SortedUnique(Less, Keys(v.fields), HASHED_NAMES);
  }

  lemma MemberReads(fs: seq<Field>, e: StateEntry, i: nat)
    requires i < 4 && Keys(fs) == HASHED_NAMES && SameValue(Obj(fs), EntryJson(Project(e)))
    ensures fs[i] == Shown(e).fields[i]
  {
    hide EntryJson;
    EntryMember(e, i);
    forall j, k | 0 <= j < k < 4 ensures fs[j].key != fs[k].key {
      assert fs[j].key == HASHED_NAMES[j] && fs[k].key == HASHED_NAMES[k];
    }
    assert fs[i].key == HASHED_NAMES[i];
    OneOfAKey(fs, i);
  }

  lemma EntryReads(v: Json, e: StateEntry)
    requires InKeyOrder(v) && SameValue(v, EntryJson(Project(e)))
    ensures v == Shown(e)
  {
    EntryKeysRead(v, e);
    hide InKeyOrder, SameValue, EntryJson;
    forall i | 0 <= i < 4 ensures v.fields[i] == Shown(e).fields[i] { MemberReads(v.fields, e, i); }
    assert v.fields == Shown(e).fields;
  }

  lemma OneOfAKey(fs: seq<Field>, i: nat)
    requires i < |fs| && forall j, k :: 0 <= j < k < |fs| ==> fs[j].key != fs[k].key
    ensures fs[i].key in Keys(fs) && IndexOf(fs, fs[i].key) == i
  {
    assert Keys(fs)[i] == fs[i].key;
  }

  /** The hashed text reads, by the grammar of RFC 8259, as the array of the entries in their order,
      each with exactly its contract, key, kind and raw value; and it is the shortest such text. */
  lemma RootTextReads(sorted: seq<StateEntry>)
    ensures ReadValue(RootText(sorted)) == Read(AllShown(sorted), "")
    ensures forall t :: IsTextOf(t, AllShown(sorted)) ==> |RootText(sorted)| <= |t|
  {
    var hashed := EntriesJson(ProjectAll(sorted));
    CanonicalIsShortest(hashed, "");
    var r := ReadValue(RootText(sorted));
    forall i | 0 <= i < |sorted| ensures r.value.items[i] == Shown(sorted[i]) {
      EntryReads(r.value.items[i], sorted[i]);
    }
    assert r.value == AllShown(sorted);
    hide ReadValue, Canonicalize, WellFormed, InKeyOrder;
    ShortestAlike(hashed, AllShown(sorted));
  }

  lemma ShortestAlike(v: Json, w: Json)
    requires WellFormed(v) && WellFormed(w) && SameValue(w, v)
    ensures forall t :: IsTextOf(t, w) ==> |Canonicalize(v)| <= |t|
  {
    hide *;
    JsonDecoding.SameValuePrintsSame(w, v);
    forall t | IsTextOf(t, w) ensures |Canonicalize(v)| <= |t| { CanonicalIsShortest(w, t); }
  }

  /** The order of the hashed entries: by contract, within a contract by kind, and within a kind by
      key, each compared as UTF-16. */
  ghost predicate InStateOrder(es: seq<StateEntry>) {
    forall i, j :: 0 <= i < j < |es| ==>
       && (es[j].contract.Commerce? ==> es[i].contract.Commerce?)
       && (es[i].contract == es[j].contract ==>
             es[i].kind == es[j].kind || LexicallyLess(Utf16(es[i].kind), Utf16(es[j].kind)))
       && (es[i].contract == es[j].contract && es[i].kind == es[j].kind ==>
             LexicallyLess(Utf16(es[i].key), Utf16(es[j].key)))
  }

  lemma SortedIsInStateOrder(es: seq<StateEntry>)
    requires StrictlySorted(EntryBefore, es)
    ensures InStateOrder(es)
  {
    hide Less, Utf16, LexicallyLess;
    ContractNamesOrdered();
    forall i, j | 0 <= i < j < |es|
      ensures EntryBefore(es[i], es[j])
      ensures Less(es[i].kind, es[j].kind) <==> LexicallyLess(Utf16(es[i].kind), Utf16(es[j].kind))
      ensures Less(es[i].key, es[j].key) <==> LexicallyLess(Utf16(es[i].key), Utf16(es[j].key))
    {
      LessIsUtf16(es[i].kind, es[j].kind);
      LessIsUtf16(es[i].key, es[j].key);
    }
  }

  /** The tail of `main`: deduplicate, sort, hash. SHA-256 is any function of the text, which is the
      shortest that reads as the array of the entries in their order. */
  method ComputeStateRoot(entries: seq<StateEntry>, sha256: string -> string)
    returns (root: string, sorted: seq<StateEntry>)
    ensures exists values :: Deduplicated(entries, values) && sorted == SortEntries(values)
    ensures root == sha256(RootText(sorted))
    ensures StrictlySorted(EntryBefore, sorted) && InStateOrder(sorted)
    ensures ReadValue(RootText(sorted)) == Read(AllShown(sorted), "")
    ensures forall t :: IsTextOf(t, AllShown(sorted)) ==> |RootText(sorted)| <= |t|
  {
    hide IsTextOf, ReadValue, InStateOrder;
    var values := Dedup(entries);
    sorted := SortEntries(values);
    RootTextReads(sorted);
    BeforeIsStrictOrder();
    DistinctKeysComparable(values);
    SortSorts(EntryBefore, values);
    SortedIsInStateOrder(sorted);
    root := sha256(RootText(sorted));
  }

  // ---------- when the fetch order shows ----------

  /** Fetching the same entries in any other order gives the same text. */
  ghost predicate OrderNeverShows(entries: seq<StateEntry>) {
    forall other, v, w {:trigger Deduplicated(entries, v), Deduplicated(other, w)} ::
      multiset(other) == multiset(entries) && Deduplicated(entries, v) && Deduplicated(other, w) ==>
        RootText(SortEntries(v)) == RootText(SortEntries(w))
  }

  lemma {:induction false} MapOf(entries: seq<StateEntry>) returns (keys: seq<string>, byKey: map<string, StateEntry>)
    ensures Filled(entries, keys, byKey)
  {
    if entries == [] {
      keys, byKey := [], map[];
    } else {
      var front, e := entries[..|entries| - 1], entries[|entries| - 1];
      assert front + [e] == entries;
      hide Filled;
      keys, byKey := MapOf(front);
      FilledStep(front, e, keys, byKey);
      keys, byKey := if DedupKey(e) in byKey then keys else keys + [DedupKey(e)], byKey[DedupKey(e) := e];
    }
  }

  lemma DedupExists(entries: seq<StateEntry>) returns (values: seq<StateEntry>)
    ensures Deduplicated(entries, values)
  {
    var keys, byKey := MapOf(entries);
    KeysAreFilled(entries, keys, byKey);
    values := seq(|keys|, i requires 0 <= i < |keys| && keys[i] in byKey => byKey[keys[i]]);
    FilledDedups(entries, keys, byKey, values);
  }

  lemma MoveLast(entries: seq<StateEntry>, a: StateEntry) returns (front: seq<StateEntry>)
    requires a in entries
    ensures multiset(front + [a]) == multiset(entries)
  {
    var i :| 0 <= i < |entries| && entries[i] == a;
    front := entries[..i] + entries[i + 1..];
    assert entries == entries[..i] + [a] + entries[i + 1..];
  }

  /** What is fetched last survives, and its key has no other survivor. */
  lemma LastSurvives(front: seq<StateEntry>, a: StateEntry, values: seq<StateEntry>)
    requires Deduplicated(front + [a], values)
    ensures Project(a) in HashedSet(values)
    ensures forall h :: h in HashedSet(values) && h.contract == a.contract && h.key == a.key ==> h == Project(a)
  {
    var entries := front + [a];
    assert entries[|front|] == a && HasKey(values, DedupKey(a)) by { assert a in entries; }
    forall v | v in values && DedupKey(v) == DedupKey(a) ensures v == a {
      assert IsLast(entries, v);
      var i :| LastWith(entries, i, v);
      assert i == |front|;
    }
  }

  /** A disagreeing pair shows: fetching one of the two last, or the other, gives different texts. */
  lemma DisagreementShows(entries: seq<StateEntry>, a: StateEntry, b: StateEntry)
    requires a in entries && b in entries && DedupKey(a) == DedupKey(b) && Project(a) != Project(b)
    ensures !OrderNeverShows(entries)
  {
    DedupKeyInjective(a, b);
    var fa := MoveLast(entries, a);
    var fb := MoveLast(entries, b);
    var v := DedupExists(entries);
    var va := DedupExists(fa + [a]);
    var vb := DedupExists(fb + [b]);
    LastSurvives(fa, a, va);
    LastSurvives(fb, b, vb);
    RootTextIffSameSurvivors(fa + [a], va, fb + [b], vb);
    assert HashedSet(va) != HashedSet(vb);
  }

  lemma SameDumpAgrees(entries: seq<StateEntry>, other: seq<StateEntry>)
    requires multiset(other) == multiset(entries) && DuplicatesAgree(entries)
    ensures DuplicatesAgree(other) && HashedSet(other) == HashedSet(entries)
  {
    assert forall e :: e in other <==> e in multiset(other);
    assert forall e :: e in entries <==> e in multiset(entries);
  }

  /** For every dump: the order of fetching never shows in the hashed text if and only if entries
      fetched more than once agree on everything hashed. */
  lemma OrderNeverShowsIff(entries: seq<StateEntry>)
    ensures OrderNeverShows(entries) <==> DuplicatesAgree(entries)
  {
    if DuplicatesAgree(entries) {
      forall other, v, w | multiset(other) == multiset(entries) && Deduplicated(entries, v) && Deduplicated(other, w)
        ensures RootText(SortEntries(v)) == RootText(SortEntries(w))
      {
        SameDumpAgrees(entries, other);
        RootTextIffSameState(entries, v, other, w);
      }
    } else {
      var a, b :| a in entries && b in entries && DedupKey(a) == DedupKey(b) && Project(a) != Project(b);
      DisagreementShows(entries, a, b);
    }
  }

  lemma LastOfPairWins(x: StateEntry, y: StateEntry)
    requires DedupKey(x) == DedupKey(y)
    ensures Deduplicated([x, y], [y])
  {
    assert LastWith([x, y], 1, y);
    assert y in [y];
    assert HasKey([y], DedupKey(y));
  }

  lemma SingleEntrySorted(x: StateEntry)
    ensures SortEntries([x]) == [x]
  {
    assert [x][1..] == [];
    assert Sort(EntryBefore, [x][1..]) == [];
  }

  lemma SingleEntryText(x: StateEntry, y: StateEntry)
    requires RootText(SortEntries([x])) == RootText(SortEntries([y]))
    ensures Project(x) == Project(y)
  {
    RootTextInjective(SortEntries([x]), SortEntries([y]));
    SingleEntrySorted(x);
    SingleEntrySorted(y);
    assert ProjectAll([x])[0] == ProjectAll([y])[0];
  }

  /** The smallest such dump: two fetches of one key that disagree on a hashed field. */
  lemma DisagreeingDuplicatesShow(a: StateEntry, b: StateEntry)
    requires DedupKey(a) == DedupKey(b) && Project(a) != Project(b)
    ensures Deduplicated([a, b], [b]) && Deduplicated([b, a], [a])
    ensures RootText(SortEntries([b])) != RootText(SortEntries([a]))
  {
    LastOfPairWins(a, b);
    LastOfPairWins(b, a);
    if RootText(SortEntries([b])) == RootText(SortEntries([a])) { SingleEntryText(b, a); }
  }
}
