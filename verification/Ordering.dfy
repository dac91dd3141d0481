// Strict orders, strictly sorted sequences, and the order JavaScript puts on strings.

/** Sorting by a strict order, and why the sorting algorithm never matters. */
module Ordering {
  /** Irreflexive and transitive: what the source's comparators provide on any input. */
  ghost predicate StrictOrder<T(!new)>(lt: (T, T) -> bool) {
    && (forall x :: !lt(x, x))
    && (forall x, y, z :: lt(x, y) && lt(y, z) ==> lt(x, z))
  }

  /** Any two positions of `s` hold comparable elements, so `s` has no repeated element. */
  ghost predicate ComparableOn<T(!new)>(lt: (T, T) -> bool, s: seq<T>) {
    forall i, j :: 0 <= i < j < |s| ==> lt(s[i], s[j]) || lt(s[j], s[i])
  }

  ghost predicate StrictlySorted<T(!new)>(lt: (T, T) -> bool, s: seq<T>) {
    forall i, j :: 0 <= i < j < |s| ==> lt(s[i], s[j])
  }

  function Insert<T>(lt: (T, T) -> bool, x: T, s: seq<T>): seq<T> {
    if s == [] || lt(x, s[0]) then [x] + s else [s[0]] + Insert(lt, x, s[1..])
  }

  /** The array sort of the source; `SortedUnique` shows the algorithm is irrelevant. */
  function Sort<T>(lt: (T, T) -> bool, s: seq<T>): seq<T> {
    if s == [] then [] else Insert(lt, s[0], Sort(lt, s[1..]))
  }

  lemma {:induction false} InsertElements<T(!new)>(lt: (T, T) -> bool, x: T, s: seq<T>)
    ensures multiset(Insert(lt, x, s)) == multiset(s) + multiset{x}
  {
    if s != [] && !lt(x, s[0]) {
      InsertElements(lt, x, s[1..]);
      assert s == [s[0]] + s[1..];
    }
  }

  lemma {:induction false} SortPermutes<T(!new)>(lt: (T, T) -> bool, s: seq<T>)
    ensures multiset(Sort(lt, s)) == multiset(s)
  {
    if s != [] {
      SortPermutes(lt, s[1..]);
      InsertElements(lt, s[0], Sort(lt, s[1..]));
      assert s == [s[0]] + s[1..];
    }
  }

  lemma SameElements<T(!new)>(s: seq<T>, t: seq<T>)
    requires multiset(s) == multiset(t)
    ensures forall x :: x in s <==> x in t
    ensures |s| == |t|
  {
    forall x ensures x in s <==> x in t {
      assert x in s <==> x in multiset(s);
      assert x in t <==> x in multiset(t);
    }
    assert |multiset(s)| == |multiset(t)|;
  }

  lemma SortElements<T(!new)>(lt: (T, T) -> bool, s: seq<T>)
    ensures multiset(Sort(lt, s)) == multiset(s)
    ensures forall x :: x in Sort(lt, s) <==> x in s
    ensures |Sort(lt, s)| == |s|
  {
    hide Sort;
    SortPermutes(lt, s);
    SameElements(Sort(lt, s), s);
  }

  lemma {:induction false} InsertSorted<T(!new)>(lt: (T, T) -> bool, x: T, s: seq<T>)
    requires StrictOrder(lt) && StrictlySorted(lt, s)
    requires forall y :: y in s ==> lt(x, y) || lt(y, x)
    ensures StrictlySorted(lt, Insert(lt, x, s))
  {
    if s != [] && !lt(x, s[0]) {
      InsertSorted(lt, x, s[1..]);
      var r := Insert(lt, x, s[1..]);
      InsertElements(lt, x, s[1..]);
      forall y | y in r ensures lt(s[0], y) {
        assert y in multiset(r);
      }
    }
  }

  lemma {:induction false} SortSorts<T(!new)>(lt: (T, T) -> bool, s: seq<T>)
    requires StrictOrder(lt) && ComparableOn(lt, s)
    ensures StrictlySorted(lt, Sort(lt, s))
  {
    if s != [] {
      SortSorts(lt, s[1..]);
      SortElements(lt, s[1..]);
      InsertSorted(lt, s[0], Sort(lt, s[1..]));
    }
  }

  /** A strictly sorted sequence is determined by which elements it holds. */
  lemma {:induction false} SortedUnique<T(!new)>(lt: (T, T) -> bool, s: seq<T>, t: seq<T>)
    requires StrictOrder(lt) && StrictlySorted(lt, s) && StrictlySorted(lt, t)
    requires forall x :: x in s <==> x in t
    ensures s == t
  {
    assert s == [] || s[0] in t;
    assert t == [] || t[0] in s;
    if s != [] && t != [] {
      var i :| 0 <= i < |s| && s[i] == t[0];
      var j :| 0 <= j < |t| && t[j] == s[0];
      assert i == 0;  // otherwise lt(s[0], t[0]) and lt(t[0], s[0])
      forall x ensures x in s[1..] <==> x in t[1..] {
        assert x in s[1..] ==> lt(s[0], x) && x in t;
        assert x in t[1..] ==> lt(t[0], x) && x in s;
      }
      SortedUnique(lt, s[1..], t[1..]);
    }
  }

  /** Sorting forgets the order it was given. */
  lemma SortCanonical<T(!new)>(lt: (T, T) -> bool, s: seq<T>, t: seq<T>)
    requires StrictOrder(lt) && ComparableOn(lt, s) && ComparableOn(lt, t)
    requires forall x :: x in s <==> x in t
    ensures Sort(lt, s) == Sort(lt, t)
  {
    SortSorts(lt, s);
    SortSorts(lt, t);
    SortElements(lt, s);
    SortElements(lt, t);
    SortedUnique(lt, Sort(lt, s), Sort(lt, t));
  }
}

/** JavaScript's `<` on strings: lexicographic by UTF-16 code unit. */
module StringOrder {
  import opened Ordering

  /** Orders Unicode scalar values as their UTF-16 encodings compare: code points above
      U+FFFF start with a surrogate (U+D800..U+DBFF), hence sort before U+E000..U+FFFF. */
  function UnitRank(c: char): int {
    var n := c as int;
    if n < 0xD800 then n
    else if n < 0x10000 then n + 0x100000
    else n - 0x10000 + 0xD800
  }

  predicate Less(a: string, b: string) {
    b != "" && (a == ""
                || UnitRank(a[0]) < UnitRank(b[0])
                || (a[0] == b[0] && Less(a[1..], b[1..])))
  }

  lemma UnitRankInjective(c: char, d: char)
    requires UnitRank(c) == UnitRank(d)
    ensures c == d
  {
    assert c as int == d as int;
  }

  lemma {:induction false} LessTransitive(a: string, b: string, c: string)
    requires Less(a, b) && Less(b, c)
    ensures Less(a, c)
  {
    if a != "" && a[0] == b[0] && b[0] == c[0] && Less(a[1..], b[1..]) && Less(b[1..], c[1..]) {
      LessTransitive(a[1..], b[1..], c[1..]);
    }
  }

  lemma {:induction false} LessIrreflexive(a: string)
    ensures !Less(a, a)
  {
    if a != "" { LessIrreflexive(a[1..]); }
  }

  lemma {:induction false} LessTotal(a: string, b: string)
    ensures a == b || Less(a, b) || Less(b, a)
  {
    if a != "" && b != "" {
      if UnitRank(a[0]) == UnitRank(b[0]) {
        UnitRankInjective(a[0], b[0]);
        LessTotal(a[1..], b[1..]);
        assert a == [a[0]] + a[1..] && b == [b[0]] + b[1..];
      }
    }
  }

  lemma LessIsStrictOrder()
    ensures StrictOrder(Less)
  {
    forall x: string ensures !Less(x, x) { LessIrreflexive(x); }
    forall x: string, y: string, z: string | Less(x, y) && Less(y, z) ensures Less(x, z) { LessTransitive(x, y, z); }
  }

  /** Distinct strings are always comparable. */
  lemma DistinctComparable(s: seq<string>)
    requires forall i, j :: 0 <= i < j < |s| ==> s[i] != s[j]
    ensures ComparableOn(Less, s)
  {
    forall i, j | 0 <= i < j < |s| ensures Less(s[i], s[j]) || Less(s[j], s[i]) {
      LessTotal(s[i], s[j]);
    }
  }

  // ---------- against UTF-16 itself ----------

  /** The UTF-16 code units of a character (section 3.9 of the Unicode Standard, table 3-5). */
  function Units(c: char): seq<int> {
    var n := c as int;
    if n < 0x10000 then [n] else [0xD800 + (n - 0x10000) / 0x400, 0xDC00 + (n - 0x10000) % 0x400]
  }

  function Utf16(s: string): seq<int> { if s == "" then [] else Units(s[0]) + Utf16(s[1..]) }

  predicate LexicallyLess(a: seq<int>, b: seq<int>) {
    b != [] && (a == [] || a[0] < b[0] || (a[0] == b[0] && LexicallyLess(a[1..], b[1..])))
  }

  lemma UnitsDecide(c: char, x: seq<int>, d: char, y: seq<int>)
    ensures LexicallyLess(Units(c) + x, Units(d) + y)
            <==> if c == d then LexicallyLess(x, y) else UnitRank(c) < UnitRank(d)
  {
    var a, b := Units(c) + x, Units(d) + y;
    assert a[|Units(c)|..] == x && b[|Units(d)|..] == y;
    if |Units(c)| == 2 && |Units(d)| == 2 {
      assert a[1..][0] == Units(c)[1] && b[1..][0] == Units(d)[1];
      assert a[1..][1..] == x && b[1..][1..] == y;
    }
  }

  /** The order on strings is the lexicographic one of their UTF-16 encodings. */
  lemma {:induction false} LessIsUtf16(a: string, b: string)
    ensures Less(a, b) <==> LexicallyLess(Utf16(a), Utf16(b))
  {
    if a != "" && b != "" {
      hide Units, UnitRank;
      UnitsDecide(a[0], Utf16(a[1..]), b[0], Utf16(b[1..]));
      LessIsUtf16(a[1..], b[1..]);
      if UnitRank(a[0]) == UnitRank(b[0]) { UnitRankInjective(a[0], b[0]); }
    }
  }
}
