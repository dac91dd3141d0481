/**
 scripts/generate-python-client.py: `normalize_type_name`, `split_generic_args` and
 `python_type_for`, the translation of Soroban type names to Python type hints.
 */
module PythonTypes {
  import opened Strings
  import opened Wrappers

  /** What `str.strip()` removes. */
  predicate IsSpace(c: char) {
    || 9 <= c as int <= 13 || 0x1C <= c as int <= 0x20 || 0x2000 <= c as int <= 0x200A
    || c as int in {0x85, 0xA0, 0x1680, 0x2028, 0x2029, 0x202F, 0x205F, 0x3000}
  }

  function Stripped(s: string): (r: string)
    ensures |r| <= |s|
  {
    Strip(s, IsSpace)
  }

  /** SCALAR_TYPE_MAP */
  function ScalarType(name: string): Option<string> {
    if name in {"Address", "AccountId", "ScAddress", "ScString", "String", "Symbol"} then Some("str")
    else if name in {"Bytes", "ScBytes", "Data"} then Some("bytes")
    else if name in {"U32", "U64", "U128", "U256", "I32", "I64", "I128", "I256", "Timepoint", "Duration"} then
        Some("int")
    else if name == "Bool" then Some("bool")
    else if name == "Void" then Some("None")
    else if name in {"ScVal", "Val", "ScError"} then Some("Any")
    else None
  }

  const PREFIXES := ["Scv", "Sc", "ScSpec"]

  predicate StartsWith(s: string, prefix: string) { |prefix| <= |s| && s[..|prefix|] == prefix }

  /** The first prefix from position i on that leaves a scalar's name is dropped. */
  function WithoutPrefix(name: string, i: nat): (r: string)
    requires i <= |PREFIXES|
    ensures |r| <= |name|
    decreases |PREFIXES| - i
  {
    if i == |PREFIXES| then name
    else if StartsWith(name, PREFIXES[i]) && ScalarType(name[|PREFIXES[i]|..]).Some? then name[|PREFIXES[i]|..]
    else WithoutPrefix(name, i + 1)
  }

  function Normalized(raw: string): (name: string)
    ensures |name| <= |raw|
  {
    WithoutPrefix(Stripped(raw), 0)
  }

  method NormalizeTypeName(raw: string) returns (name: string)
    ensures name == Normalized(raw)
  {
    name := Stripped(raw);
    for i := 0 to |PREFIXES|
      invariant name == Stripped(raw) && Normalized(raw) == WithoutPrefix(name, i)
    {
      var prefix := PREFIXES[i];
      if StartsWith(name, prefix) && ScalarType(name[|prefix|..]).Some? {
        name := name[|prefix|..];
        break;
      }
    }
  }

  // ---------- splitting ----------

  function Nesting(c: char): int {
    if c in {'<', '(', '['} then 1 else if c in {'>', ')', ']'} then -1 else 0
  }

  function Depth(s: string): int {
    if s == "" then 0 else Depth(s[..|s| - 1]) + Nesting(s[|s| - 1])
  }

  /** The pieces of a text between its commas at depth zero. */
  function Pieces(s: string): (r: seq<string>)
    ensures r != []
  {
    if s == "" then [""]
    else
      var before := Pieces(s[..|s| - 1]);
      var c := s[|s| - 1];
      var last := |before| - 1;
      if c == ',' && Depth(s) == 0 then before + [""] else before[..last] + [before[last] + [c]]
  }

  /** The stripped parts that are not empty. */
  function NonEmpty(parts: seq<string>): seq<string> {
    if parts == [] then []
    else
      var last := Stripped(parts[|parts| - 1]);
      NonEmpty(parts[..|parts| - 1]) + (if last == "" then [] else [last])
  }

  function SplitArgs(inner: string): seq<string> { NonEmpty(Pieces(inner)) }

  method SplitGenericArgs(inner: string) returns (result: seq<string>)
    ensures result == SplitArgs(inner)
  {
    hide Depth, Pieces, NonEmpty, Stripped;
    var parts: seq<string> := [];
    var depth := 0;
    var current := "";
    ghost var raw: seq<string> := [];
    Start();
    for i := 0 to |inner|
      invariant depth == Depth(inner[..i]) && raw + [current] == Pieces(inner[..i])
      invariant |parts| == |raw| && forall k :: 0 <= k < |raw| ==> parts[k] == Stripped(raw[k])
    {
      var c := inner[i];
      OneMore(inner, i);
      if c in {'<', '(', '['} {
        depth := depth + 1;
      } else if c in {'>', ')', ']'} {
        depth := depth - 1;
      }
      if c == ',' && depth == 0 {
        parts := parts + [Stripped(current)];
        raw := raw + [current];
        current := "";
      } else {
        current := current + [c];
      }
      assert raw + [current] == Pieces(inner[..i + 1]);
    }
    assert inner[..|inner|] == inner;
    if |current| > 0 { parts := parts + [Stripped(current)]; }
    result := Kept(parts);
    KeptIsNonEmpty(raw, current, parts);
  }

  /** The parts that are not empty. */
  function Kept(parts: seq<string>): seq<string> {
    if parts == [] then []
    else
      var last := parts[|parts| - 1];
      Kept(parts[..|parts| - 1]) + (if last == "" then [] else [last])
  }

  lemma Start()
    ensures Depth("") == 0 && Pieces("") == [""]
  {
  }

  lemma OneMore(s: string, i: nat)
    requires i < |s|
    ensures Depth(s[..i + 1]) == Depth(s[..i]) + Nesting(s[i])
    ensures var before := Pieces(s[..i]);
            Pieces(s[..i + 1])
            == if s[i] == ',' && Depth(s[..i + 1]) == 0 then before + [""]
               else before[..|before| - 1] + [before[|before| - 1] + [s[i]]]
  {
    assert s[..i + 1][..i] == s[..i];
  }

  lemma {:induction false} KeptStripped(raw: seq<string>, parts: seq<string>)
    requires |parts| == |raw| && forall k :: 0 <= k < |raw| ==> parts[k] == Stripped(raw[k])
    ensures Kept(parts) == NonEmpty(raw)
  {
    hide Stripped;
    if raw != [] { KeptStripped(raw[..|raw| - 1], parts[..|parts| - 1]); }
  }

  lemma KeptIsNonEmpty(raw: seq<string>, current: string, parts: seq<string>)
    requires |parts| == |raw| + (if |current| > 0 then 1 else 0)
    requires forall k :: 0 <= k < |raw| ==> parts[k] == Stripped(raw[k])
    requires |current| > 0 ==> parts[|raw|] == Stripped(current)
    ensures Kept(parts) == NonEmpty(raw + [current])
  {
    assert (raw + [current])[..|raw|] == raw;
    if |current| > 0 {
      KeptStripped(raw + [current], parts);
    } else {
      KeptStripped(raw, parts);
    }
  }

  // ---------- the translation ----------

  predicate Encloses(name: string, opening: string) {
    StartsWith(name, opening) && name != "" && name[|name| - 1] == '>'
  }

  function Inside(name: string, opening: string): (r: string)
    requires opening != "" && opening[|opening| - 1] == '<' && Encloses(name, opening)
    ensures |r| < |name| && name == opening + r + ">"
  {
    name[|opening|..|name| - 1]
  }

  function PythonTypeFor(typeName: string, known: set<string>): string
    decreases |typeName|
  {
    var name := Normalized(typeName);
    if ScalarType(name).Some? then ScalarType(name).value
    else if Encloses(name, "Option<") then "Optional[" + PythonTypeFor(Inside(name, "Option<"), known) + "]"
    else if Encloses(name, "Vec<") then "List[" + PythonTypeFor(Inside(name, "Vec<"), known) + "]"
    else if Encloses(name, "Map<") then
      var parts := SplitArgs(Inside(name, "Map<"));
      PartsAreShort(Inside(name, "Map<"));
      if |parts| == 2 then "Dict[" + PythonTypeFor(parts[0], known) + ", " + PythonTypeFor(parts[1], known) + "]"
      else "Dict[Any, Any]"
    else if Encloses(name, "Tuple<") then
      var parts := SplitArgs(Inside(name, "Tuple<"));
      PartsAreShort(Inside(name, "Tuple<"));
      "Tuple[" + Join(seq(|parts|, i requires 0 <= i < |parts| => PythonTypeFor(parts[i], known)), ", ") + "]"
    else if name in known then name
    else "Any"
  }

  lemma {:induction false} PiecesAreShort(s: string)
    ensures forall k :: 0 <= k < |Pieces(s)| ==> |Pieces(s)[k]| <= |s|
  {
    if s != "" { PiecesAreShort(s[..|s| - 1]); }
  }

  lemma {:induction false} NonEmptyAreShort(parts: seq<string>, n: nat)
    requires forall k :: 0 <= k < |parts| ==> |parts[k]| <= n
    ensures forall k :: 0 <= k < |NonEmpty(parts)| ==> |NonEmpty(parts)[k]| <= n
  {
    if parts != [] { NonEmptyAreShort(parts[..|parts| - 1], n); }
  }

  lemma PartsAreShort(inner: string)
    ensures forall k :: 0 <= k < |SplitArgs(inner)| ==> |SplitArgs(inner)[k]| <= |inner|
  {
    PiecesAreShort(inner);
    NonEmptyAreShort(Pieces(inner), |inner|);
  }

  // ---------- what splitting recovers ----------

  /** Brackets match: never more closed than opened, and all closed at the end. */
  predicate Balanced(s: string) {
    Depth(s) == 0 && forall i :: 0 <= i <= |s| ==> Depth(s[..i]) >= 0
  }

  predicate TopCommaFree(s: string) {
    forall i :: 0 <= i < |s| && s[i] == ',' ==> Depth(s[..i]) != 0
  }

  /** An argument the splitter keeps whole. */
  predicate Whole(s: string) { Depth(s) == 0 && TopCommaFree(s) }

  lemma {:induction false} DepthConcat(a: string, b: string)
    ensures Depth(a + b) == Depth(a) + Depth(b)
  {
    if b == "" {
      assert a + b == a;
    } else {
      assert (a + b)[..|a + b| - 1] == a + b[..|b| - 1];
      DepthConcat(a, b[..|b| - 1]);
    }
  }

  lemma {:induction false} PiecesAppend(a: string, p: string)
    requires Depth(a) == 0 && TopCommaFree(p)
    requires Pieces(a)[|Pieces(a)| - 1] == ""
    ensures Pieces(a + p) == Pieces(a)[..|Pieces(a)| - 1] + [p]
  {
    hide Depth, Pieces;
    if p == "" {
      assert a + p == a;
    } else {
      var n := |p| - 1;
      var q := p[..n];
      assert forall i :: 0 <= i < n ==> q[..i] == p[..i];
      PiecesAppend(a, q);
      DepthConcat(a, q);
      OneMore(a + p, |a| + n);
      assert (a + p)[..|a| + n] == a + q && (a + p)[..|a| + n + 1] == a + p;
      assert q + [p[n]] == p;
    }
  }

  /** Joining whole arguments with commas and splitting gives the same arguments. */
  lemma {:induction false} PiecesOfJoin(parts: seq<string>)
    requires parts != [] && forall k :: 0 <= k < |parts| ==> Whole(parts[k])
    ensures Depth(Join(parts, ",")) == 0 && Pieces(Join(parts, ",")) == parts
  {
    hide Depth, Pieces, TopCommaFree;
    var n := |parts| - 1;
    Start();
    if n == 0 {
      PiecesAppend("", parts[0]);
      assert "" + parts[0] == parts[0];
    } else {
      var front := Join(parts[..n], ",");
      PiecesOfJoin(parts[..n]);
      AppendComma(front);
      DepthConcat(front + ",", parts[n]);
      PiecesAppend(front + ",", parts[n]);
      assert parts[..n] + [parts[n]] == parts;
    }
  }

  lemma AppendComma(front: string)
    requires Depth(front) == 0
    ensures Depth(front + ",") == 0 && Pieces(front + ",") == Pieces(front) + [""]
  {
    assert (front + ",")[..|front|] == front;
  }

  lemma SplitRecovers(parts: seq<string>)
    requires forall k :: 0 <= k < |parts| ==> Whole(parts[k])
    ensures SplitArgs(Join(parts, ",")) == NonEmpty(parts)
  {
    if parts == [] {
      assert Stripped("") == "";
      assert NonEmpty([""]) == NonEmpty([""][..0]) + [] == [];
    } else {
      PiecesOfJoin(parts);
    }
  }

  /** No text is lost, whether its brackets match or not. */
  lemma {:induction false} PiecesKeepAll(s: string)
    ensures Join(Pieces(s), ",") == s
  {
    if s != "" {
      var before, c := Pieces(s[..|s| - 1]), s[|s| - 1];
      PiecesKeepAll(s[..|s| - 1]);
      assert s == s[..|s| - 1] + [c];
      if c == ',' && Depth(s) == 0 {
        assert (before + [""])[..|before|] == before;
        assert s[..|s| - 1] + "," + "" == s;
      } else {
        ExtendLast(before, c);
      }
    }
  }

  lemma JoinLast(front: seq<string>, last: string)
    ensures Join(front + [last], ",") == (if front == [] then last else Join(front, ",") + "," + last)
  {
    assert (front + [last])[..|front|] == front;
  }

  lemma PushBack(front: string, last: string, c: char)
    ensures front + (last + [c]) == front + last + [c]
  {
  }

  lemma ExtendLast(parts: seq<string>, c: char)
    requires parts != []
    ensures Join(parts[..|parts| - 1] + [parts[|parts| - 1] + [c]], ",") == Join(parts, ",") + [c]
  {
    hide Join;
    var front, last := parts[..|parts| - 1], parts[|parts| - 1];
    assert front + [last] == parts;
    JoinLast(front, last);
    JoinLast(front, last + [c]);
    PushBack(Join(front, ",") + ",", last, c);
  }

  // ---------- type trees and how they are written ----------

  datatype Type =
    | Scalar(prefix: string, name: string)
    | OptionOf(value: Type)
    | VecOf(element: Type)
    | MapOf(args: seq<Type>)
    | TupleOf(args: seq<Type>)
    | Named(name: string)

  predicate Letter(c: char) { !IsSpace(c) && Nesting(c) == 0 && c != ',' }

  predicate Word(s: string) { s != "" && forall i :: 0 <= i < |s| ==> Letter(s[i]) }

  predicate WellFormed(t: Type) {
    match t
    case Scalar(prefix, name) => (prefix == "" || prefix in PREFIXES) && ScalarType(name).Some?
    case OptionOf(value) => WellFormed(value)
    case VecOf(element) => WellFormed(element)
    case MapOf(args) => forall i :: 0 <= i < |args| ==> WellFormed(args[i])
    case TupleOf(args) => forall i :: 0 <= i < |args| ==> WellFormed(args[i])
    case Named(name) => Word(name) && ScalarType(name).None? && !Prefixed(name)
  }

  /** A prefix in front of a scalar's name. */
  predicate Prefixed(name: string) {
    exists i :: 0 <= i < |PREFIXES| && StartsWith(name, PREFIXES[i]) && ScalarType(name[|PREFIXES[i]|..]).Some?
  }

  /** s writes t, with any white space around any node. */
  ghost predicate Writes(s: string, t: Type)
    decreases t
  {
    var u := Stripped(s);
    match t
    case Scalar(prefix, name) => u == prefix + name
    case Named(name) => u == name
    case OptionOf(value) => exists inner :: u == "Option<" + inner + ">" && Writes(inner, value)
    case VecOf(element) => exists inner :: u == "Vec<" + inner + ">" && Writes(inner, element)
    case MapOf(args) => exists inner, parts: seq<string> ::
      && u == "Map<" + inner + ">" && |parts| == |args| && Lists(inner, parts)
      && forall i :: 0 <= i < |args| ==> Writes(parts[i], args[i])
    case TupleOf(args) => exists inner, parts: seq<string> ::
      && u == "Tuple<" + inner + ">" && |parts| == |args| && Lists(inner, parts)
      && forall i :: 0 <= i < |args| ==> Writes(parts[i], args[i])
  }

  /** inner is the parts separated by commas, or blank when there are none. */
  predicate Lists(inner: string, parts: seq<string>) {
    if parts == [] then Stripped(inner) == "" else inner == Join(parts, ",")
  }

  /** The Python type hint a tree stands for. */
  function Hint(t: Type, known: set<string>): string {
    match t
    case Scalar(_, name) => if ScalarType(name).Some? then ScalarType(name).value else "Any"
    case OptionOf(value) => "Optional[" + Hint(value, known) + "]"
    case VecOf(element) => "List[" + Hint(element, known) + "]"
    case MapOf(args) =>
      if |args| == 2 then "Dict[" + Hint(args[0], known) + ", " + Hint(args[1], known) + "]" else "Dict[Any, Any]"
    case TupleOf(args) => "Tuple[" + Join(seq(|args|, i requires 0 <= i < |args| => Hint(args[i], known)), ", ") + "]"
    case Named(name) => if name in known then name else "Any"
  }

  // ---------- white space and brackets ----------

  lemma {:induction false} StripStartParts(s: string, drop: char -> bool) returns (w: string)
    ensures s == w + StripStart(s, drop) && forall i :: 0 <= i < |w| ==> drop(w[i])
    ensures var r := StripStart(s, drop); r == "" || !drop(r[0])
  {
    if s != "" && drop(s[0]) {
      w := StripStartParts(s[1..], drop);
      w := s[..1] + w;
    } else {
      w := "";
    }
  }

  lemma {:induction false} StripEndParts(s: string, drop: char -> bool) returns (w: string)
    ensures s == StripEnd(s, drop) + w && forall i :: 0 <= i < |w| ==> drop(w[i])
    ensures var r := StripEnd(s, drop); r == "" || (r[0] == s[0] && !drop(r[|r| - 1]))
  {
    if s != "" && drop(s[|s| - 1]) {
      w := StripEndParts(s[..|s| - 1], drop);
      w := w + [s[|s| - 1]];
    } else {
      w := "";
    }
  }

  lemma StripParts(s: string) returns (left: string, right: string)
    ensures s == left + Stripped(s) + right
    ensures (forall i :: 0 <= i < |left| ==> IsSpace(left[i])) && (forall i :: 0 <= i < |right| ==> IsSpace(right[i]))
    ensures Stripped(Stripped(s)) == Stripped(s)
  {
    left := StripStartParts(s, IsSpace);
    right := StripEndParts(StripStart(s, IsSpace), IsSpace);
  }

  predicate Neat(s: string) { Balanced(s) && TopCommaFree(s) }

  lemma {:induction false} PlainDepth(s: string)
    requires forall i :: 0 <= i < |s| ==> Nesting(s[i]) == 0
    ensures Depth(s) == 0
  {
    if s != "" { PlainDepth(s[..|s| - 1]); }
  }

  lemma PlainIsBalanced(s: string)
    requires forall i :: 0 <= i < |s| ==> Nesting(s[i]) == 0
    ensures Balanced(s)
  {
    forall i | 0 <= i <= |s| ensures Depth(s[..i]) == 0 { PlainDepth(s[..i]); }
    assert s[..|s|] == s;
  }

  lemma BalancedConcat(a: string, b: string)
    requires Balanced(a) && Balanced(b)
    ensures Balanced(a + b)
  {
    DepthConcat(a, b);
    forall i | 0 <= i <= |a + b|
      ensures Depth((a + b)[..i]) >= 0
    {
      if i <= |a| {
        assert (a + b)[..i] == a[..i];
      } else {
        assert (a + b)[..i] == a + b[..i - |a|];
        DepthConcat(a, b[..i - |a|]);
      }
    }
  }

  lemma NeatConcat(a: string, b: string)
    requires Neat(a) && Neat(b)
    ensures Neat(a + b)
  {
    BalancedConcat(a, b);
    forall i | 0 <= i < |a + b| && (a + b)[i] == ','
      ensures Depth((a + b)[..i]) != 0
    {
      if i < |a| {
        assert (a + b)[..i] == a[..i];
      } else {
        assert (a + b)[..i] == a + b[..i - |a|];
        DepthConcat(a, b[..i - |a|]);
      }
    }
  }

  lemma NeatLayout(left: string, u: string, right: string)
    requires Neat(u)
    requires forall i :: 0 <= i < |left| ==> IsSpace(left[i])
    requires forall i :: 0 <= i < |right| ==> IsSpace(right[i])
    ensures Neat(left + u + right)
  {
    PlainIsBalanced(left);
    PlainIsBalanced(right);
    NeatConcat(left, u);
    NeatConcat(left + u, right);
  }

  lemma BracketsAreNeat(inner: string)
    requires Balanced(inner)
    ensures Neat("<" + inner + ">")
  {
    var s := "<" + inner + ">";
    assert Depth("<") == 1 by { assert "<"[..0] == ""; }
    assert Depth(">") == -1 by { assert ">"[..0] == ""; }
    forall i | 0 < i <= |inner| + 1
      ensures Depth(s[..i]) >= 1
    {
      assert s[..i] == "<" + inner[..i - 1];
      DepthConcat("<", inner[..i - 1]);
    }
    DepthConcat("<" + inner, ">");
    DepthConcat("<", inner);
    assert s[..|s|] == s;
  }

  lemma EnclosedIsNeat(word: string, inner: string)
    requires Word(word) && Balanced(inner)
    ensures Neat(word + "<" + inner + ">")
  {
    PlainIsBalanced(word);
    BracketsAreNeat(inner);
    NeatConcat(word, "<" + inner + ">");
    assert word + ("<" + inner + ">") == word + "<" + inner + ">";
  }

  lemma {:induction false} JoinIsBalanced(parts: seq<string>)
    requires forall i :: 0 <= i < |parts| ==> Balanced(parts[i])
    ensures Balanced(Join(parts, ","))
  {
    hide Balanced;
    PlainIsBalanced("");
    PlainIsBalanced(",");
    if |parts| > 1 {
      var n := |parts| - 1;
      JoinIsBalanced(parts[..n]);
      BalancedConcat(Join(parts[..n], ","), ",");
      BalancedConcat(Join(parts[..n], ",") + ",", parts[n]);
    }
  }

  predicate ScalarStart(name: string) {
    && |name| >= 3 && name[0] != 'v' && name[1] != 'p' && name[2] != 'v'
    && (|name| >= 4 ==> name[3] != 'p')
  }

  lemma ScalarStarts(name: string)
    ensures ScalarType(name).Some? ==> ScalarStart(name)
  {
  }

  predicate Alphanumeric(s: string) {
    s != "" && forall i :: 0 <= i < |s| ==> '0' <= s[i] <= '9' || 'A' <= s[i] <= 'Z' || 'a' <= s[i] <= 'z'
  }

  lemma TextNames(name: string)
    requires name in {"Address", "AccountId", "ScAddress", "ScString", "String", "Symbol"}
    ensures Alphanumeric(name)
  {
  }

  lemma NumberNames(name: string)
    requires name in {"U32", "U64", "U128", "U256", "I32", "I64", "I128", "I256", "Timepoint", "Duration"}
    ensures Alphanumeric(name)
  {
  }

  lemma OtherNames(name: string)
    requires name in {"Bytes", "ScBytes", "Data", "Bool", "Void", "ScVal", "Val", "ScError"}
    ensures Alphanumeric(name)
  {
  }

  lemma ScalarIsWord(name: string)
    requires ScalarType(name).Some?
    ensures Word(name)
  {
    hide Alphanumeric, Word;
    if ScalarType(name) == Some("str") {
      TextNames(name);
    } else if ScalarType(name) == Some("int") {
      NumberNames(name);
    } else {
      OtherNames(name);
    }
    AlphanumericIsWord(name);
  }

  lemma AlphanumericIsWord(s: string)
    requires Alphanumeric(s)
    ensures Word(s)
  {
  }

  /** The few scalars whose name starts like a prefix keep their type without it. */
  lemma WithoutSc(name: string)
    requires ScalarType(name).Some? && StartsWith(name, "Sc") && ScalarType(name[2..]).Some?
    ensures ScalarType(name[2..]) == ScalarType(name)
  {
    assert name[0] == name[..2][0] && name[1] == name[..2][1];
    assert name in {"ScAddress", "ScString", "ScBytes", "ScVal", "ScError"};
    assert "ScAddress"[2..] == "Address" && "ScString"[2..] == "String" && "ScBytes"[2..] == "Bytes";
    assert "ScVal"[2..] == "Val" && "ScError"[2..] == "Error";
  }

  /** How the three prefixes are tried in turn. */
  lemma PrefixesInTurn(s: string)
    ensures WithoutPrefix(s, 0)
            == if StartsWith(s, "Scv") && ScalarType(s[3..]).Some? then s[3..]
               else if StartsWith(s, "Sc") && ScalarType(s[2..]).Some? then s[2..]
               else if StartsWith(s, "ScSpec") && ScalarType(s[6..]).Some? then s[6..]
               else s
  {
    hide ScalarType, StartsWith;
    assert WithoutPrefix(s, 3) == s;
    assert PREFIXES[0] == "Scv" && PREFIXES[1] == "Sc" && PREFIXES[2] == "ScSpec";
  }

  lemma StartsAlike(s: string, prefix: string, k: nat)
    requires k < |prefix|
    ensures StartsWith(s, prefix) ==> k < |s| && s[k] == prefix[k]
  {
    if StartsWith(s, prefix) { assert s[..|prefix|][k] == s[k]; }
  }

  lemma BareScalar(name: string)
    requires ScalarType(name).Some?
    ensures ScalarType(WithoutPrefix(name, 0)) == ScalarType(name)
  {
    PrefixesInTurn(name);
    ScalarStarts(name);
    StartsAlike(name, "Scv", 2);
    StartsAlike(name, "ScSpec", 3);
    if StartsWith(name, "Sc") && ScalarType(name[2..]).Some? { WithoutSc(name); }
    hide ScalarType, StartsWith;
  }

  lemma PrefixedScalar(prefix: string, name: string)
    requires prefix in PREFIXES && ScalarType(name).Some?
    ensures WithoutPrefix(prefix + name, 0) == name
  {
    var s := prefix + name;
    PrefixesInTurn(s);
    ScalarStarts(name);
    if |s| >= 2 { ScalarStarts(s[2..]); }
    hide ScalarType;
    assert s[|prefix|..] == name && s[..|prefix|] == prefix;
    StartsAlike(s, "Scv", 2);
    assert s[|prefix|] == name[0];
    if prefix == "ScSpec" { assert s[2..][1] == 'p'; }
  }

  /** A scalar's name is recognised bare and behind any of the prefixes. */
  lemma ScalarIsRecognised(prefix: string, name: string)
    requires (prefix == "" || prefix in PREFIXES) && ScalarType(name).Some?
    ensures ScalarType(WithoutPrefix(prefix + name, 0)) == ScalarType(name)
  {
    hide ScalarType, WithoutPrefix;
    if prefix == "" {
      BareScalar(name);
      assert prefix + name == name;
    } else {
      PrefixedScalar(prefix, name);
    }
  }

  // ---------- every written type is whole ----------

  lemma WordIsNeat(s: string)
    requires forall i :: 0 <= i < |s| ==> Letter(s[i])
    ensures Neat(s)
  {
    PlainIsBalanced(s);
  }

  /** A stripped text is neat exactly as it stands. */
  lemma NeatUnstripped(s: string)
    requires Neat(Stripped(s))
    ensures Neat(s)
  {
    hide Neat;
    var left, right := StripParts(s);
    NeatLayout(left, Stripped(s), right);
  }

  lemma BlankIsBalanced(s: string)
    requires Stripped(s) == ""
    ensures Balanced(s)
  {
    hide Balanced;
    var left, right := StripParts(s);
    assert left + "" + right == s;
    PlainIsBalanced(s);
  }

  /** Brackets of a written type match, and its commas are all inside them. */
  lemma {:induction false} WrittenIsNeat(s: string, t: Type)
    requires WellFormed(t) && Writes(s, t)
    ensures Neat(s) && Stripped(s) != ""
    decreases t
  {
    hide Neat, Balanced, Lists, Word, Stripped, ScalarType, Prefixed, Generic;
    Openings();
    var u := Stripped(s);
    match t {
      case Scalar(prefix, name) =>
        ScalarIsWord(name);
        PrefixedIsNeat(prefix, name);
      case Named(name) =>
        NamedIsNeat(name);
      case OptionOf(value) =>
        var inner :| u == "Option<" + inner + ">" && Writes(inner, value);
        WrittenIsNeat(inner, value);
        BracketedIsNeat("Option", inner);
      case VecOf(element) =>
        var inner :| u == "Vec<" + inner + ">" && Writes(inner, element);
        WrittenIsNeat(inner, element);
        BracketedIsNeat("Vec", inner);
      case MapOf(args) =>
        var inner, parts: seq<string> :| u == "Map<" + inner + ">" && |parts| == |args| && Lists(inner, parts)
          && forall i :: 0 <= i < |args| ==> Writes(parts[i], args[i]);
        forall i | 0 <= i < |args| ensures Neat(parts[i]) { WrittenIsNeat(parts[i], args[i]); }
        ListIsBalanced(inner, parts);
        BracketedIsNeat("Map", inner);
      case TupleOf(args) =>
        var inner, parts: seq<string> :| u == "Tuple<" + inner + ">" && |parts| == |args| && Lists(inner, parts)
          && forall i :: 0 <= i < |args| ==> Writes(parts[i], args[i]);
        forall i | 0 <= i < |args| ensures Neat(parts[i]) { WrittenIsNeat(parts[i], args[i]); }
        ListIsBalanced(inner, parts);
        BracketedIsNeat("Tuple", inner);
    }
    NeatUnstripped(s);
  }

  lemma PrefixedIsNeat(prefix: string, name: string)
    requires (prefix == "" || prefix in PREFIXES) && Word(name)
    ensures Neat(prefix + name) && prefix + name != ""
  {
    hide Neat;
    WordIsNeat(prefix + name);
  }

  lemma NamedIsNeat(name: string)
    requires Word(name)
    ensures Neat(name) && name != ""
  {
    hide Neat;
    WordIsNeat(name);
  }

  predicate Generic(word: string) { word in {"Option", "Vec", "Map", "Tuple"} }

  lemma Openings()
    ensures "Option" + "<" == "Option<" && "Vec" + "<" == "Vec<" && "Map" + "<" == "Map<" && "Tuple" + "<" == "Tuple<"
    ensures Generic("Option") && Generic("Vec") && Generic("Map") && Generic("Tuple")
  {
  }

  lemma BracketedIsNeat(word: string, inner: string)
    requires Generic(word) && (Neat(inner) || Balanced(inner))
    ensures Neat(word + "<" + inner + ">")
  {
    assert Balanced(inner);
    hide Neat, Balanced;
    EnclosedIsNeat(word, inner);
  }

  lemma ListIsBalanced(inner: string, parts: seq<string>)
    requires Lists(inner, parts) && forall i :: 0 <= i < |parts| ==> Neat(parts[i])
    ensures Balanced(inner)
  {
    hide Balanced;
    if parts == [] {
      BlankIsBalanced(inner);
    } else {
      forall i | 0 <= i < |parts| ensures Balanced(parts[i]) { assert Neat(parts[i]); }
      JoinIsBalanced(parts);
    }
  }

  // ---------- the translation of written types ----------

  /** A bracketed type is no scalar, and is recognised by its own word only. */
  lemma BracketedIsRecognised(s: string, word: string, inner: string)
    requires Generic(word) && Stripped(s) == word + "<" + inner + ">"
    ensures var name := Normalized(s);
            && name == Stripped(s) && ScalarType(name).None?
            && (forall w :: Generic(w) ==> (Encloses(name, w + "<") <==> w == word))
            && Encloses(name, word + "<") && Inside(name, word + "<") == inner
  {
    var u := Stripped(s);
    assert u[0] == word[0] != 'S' && u[|u| - 1] == '>';
    BracketedIsNoScalar(u);
    assert u == (word + "<") + inner + ">";
    hide ScalarType, Stripped;
    assert u[..|word| + 1] == word + "<" && u[|word| + 1..|u| - 1] == inner;
    forall w | Generic(w) ensures Encloses(u, w + "<") <==> w == word {
      StartsAlike(u, w + "<", 0);
    }
  }

  lemma BracketedIsNoScalar(u: string)
    requires u != "" && u[0] != 'S' && u[|u| - 1] == '>'
    ensures ScalarType(u).None? && WithoutPrefix(u, 0) == u
  {
    PrefixesInTurn(u);
    StartsAlike(u, "Scv", 0);
    StartsAlike(u, "Sc", 0);
    StartsAlike(u, "ScSpec", 0);
    hide StartsWith;
    if ScalarType(u).Some? { ScalarIsWord(u); }
    hide ScalarType;
  }

  lemma NamedIsRecognised(s: string, name: string)
    requires Stripped(s) == name && Word(name) && ScalarType(name).None? && !Prefixed(name)
    ensures Normalized(s) == name
    ensures forall w :: Generic(w) ==> !Encloses(name, w + "<")
  {
    hide ScalarType, Stripped;
    assert forall i :: 0 <= i < |PREFIXES| ==>
              !(StartsWith(name, PREFIXES[i]) && ScalarType(name[|PREFIXES[i]|..]).Some?);
    PrefixesInTurn(name);
    assert PREFIXES[0] == "Scv" && PREFIXES[1] == "Sc" && PREFIXES[2] == "ScSpec";
    assert Letter(name[|name| - 1]);
  }

  /** The arguments split off are the ones listed. */
  lemma ArgumentsAreSplit(inner: string, parts: seq<string>)
    requires Lists(inner, parts)
    requires forall i :: 0 <= i < |parts| ==> Neat(parts[i]) && Stripped(parts[i]) != ""
    ensures |SplitArgs(inner)| == |parts| && forall i :: 0 <= i < |parts| ==> SplitArgs(inner)[i] == Stripped(parts[i])
  {
    hide Stripped, Balanced, TopCommaFree;
    if parts == [] {
      BlankSplitsIntoNothing(inner);
    } else {
      forall i | 0 <= i < |parts| ensures Whole(parts[i]) { NeatIsWhole(parts[i]); }
      SplitRecovers(parts);
      AllAreKept(parts);
    }
  }

  lemma NeatIsWhole(s: string)
    requires Neat(s)
    ensures Whole(s)
  {
  }

  lemma {:induction false} AllAreKept(parts: seq<string>)
    requires forall i :: 0 <= i < |parts| ==> Stripped(parts[i]) != ""
    ensures |NonEmpty(parts)| == |parts| && forall i :: 0 <= i < |parts| ==> NonEmpty(parts)[i] == Stripped(parts[i])
  {
    hide Stripped;
    if parts != [] { AllAreKept(parts[..|parts| - 1]); }
  }

  lemma BlankSplitsIntoNothing(inner: string)
    requires Stripped(inner) == ""
    ensures SplitArgs(inner) == []
  {
    var left, right := StripParts(inner);
    assert left + "" + right == inner;
    assert forall i :: 0 <= i < |inner| ==> inner[i] != ',';
    assert "" + inner == inner && Pieces("") == [""];
    PiecesAppend("", inner);
    hide Stripped;
    assert NonEmpty([inner]) == NonEmpty([inner][..0]) + [] == [];
  }

  lemma WrittenArgumentsAreSplit(inner: string, parts: seq<string>, args: seq<Type>)
    requires |parts| == |args| && Lists(inner, parts)
    requires forall i :: 0 <= i < |args| ==> WellFormed(args[i]) && Writes(parts[i], args[i])
    ensures |SplitArgs(inner)| == |args| && forall i :: 0 <= i < |args| ==> SplitArgs(inner)[i] == Stripped(parts[i])
  {
    hide Stripped, Neat, Lists, SplitArgs, WellFormed, Writes;
    forall i | 0 <= i < |parts| ensures Neat(parts[i]) && Stripped(parts[i]) != "" { WrittenIsNeat(parts[i], args[i]); }
    ArgumentsAreSplit(inner, parts);
  }

  /** Stripping what writes a type leaves what writes it. */
  lemma StrippedWrites(s: string, t: Type)
    requires Writes(s, t)
    ensures Writes(Stripped(s), t)
  {
    var left, right := StripParts(s);
    hide Stripped, Lists;
    assert Stripped(Stripped(s)) == Stripped(s);
  }

  /** `python_type_for` of any text that writes a well-formed type is that type's hint. */
  lemma {:induction false} TranslatesWritten(s: string, t: Type, known: set<string>)
    requires WellFormed(t) && Writes(s, t)
    ensures PythonTypeFor(s, known) == Hint(t, known)
    decreases t
  {
    hide Stripped, ScalarType, Lists, Prefixed, Word, SplitArgs, PythonTypeFor;
    var u := Stripped(s);
    match t {
      case Scalar(prefix, name) =>
        ScalarStep(s, prefix, name, known);
      case Named(name) =>
        NamedStep(s, name, known);
      case OptionOf(value) =>
        var inner :| u == "Option<" + inner + ">" && Writes(inner, value);
        TranslatesWritten(inner, value, known);
        OptionStep(s, inner, known);
      case VecOf(element) =>
        var inner :| u == "Vec<" + inner + ">" && Writes(inner, element);
        TranslatesWritten(inner, element, known);
        VecStep(s, inner, known);
      case MapOf(args) =>
        var inner, parts: seq<string> :| u == "Map<" + inner + ">" && |parts| == |args| && Lists(inner, parts)
          && forall i :: 0 <= i < |args| ==> Writes(parts[i], args[i]);
        forall i | 0 <= i < |args| ensures PythonTypeFor(Stripped(parts[i]), known) == Hint(args[i], known) {
          StrippedWrites(parts[i], args[i]);
          TranslatesWritten(Stripped(parts[i]), args[i], known);
        }
        WrittenArgumentsAreSplit(inner, parts, args);
        MapStep(s, inner, known);
      case TupleOf(args) =>
        var inner, parts: seq<string> :| u == "Tuple<" + inner + ">" && |parts| == |args| && Lists(inner, parts)
          && forall i :: 0 <= i < |args| ==> Writes(parts[i], args[i]);
        forall i | 0 <= i < |args| ensures PythonTypeFor(Stripped(parts[i]), known) == Hint(args[i], known) {
          StrippedWrites(parts[i], args[i]);
          TranslatesWritten(Stripped(parts[i]), args[i], known);
        }
        WrittenArgumentsAreSplit(inner, parts, args);
        TupleStep(s, inner, args, known);
    }
  }

  lemma ScalarStep(s: string, prefix: string, name: string, known: set<string>)
    requires (prefix == "" || prefix in PREFIXES) && ScalarType(name).Some? && Stripped(s) == prefix + name
    ensures PythonTypeFor(s, known) == ScalarType(name).value
  {
    hide Stripped, ScalarType, WithoutPrefix;
    ScalarIsRecognised(prefix, name);
  }

  lemma NamedStep(s: string, name: string, known: set<string>)
    requires Stripped(s) == name && Word(name) && ScalarType(name).None? && !Prefixed(name)
    ensures PythonTypeFor(s, known) == if name in known then name else "Any"
  {
    hide Stripped, ScalarType, Encloses, Normalized, Generic;
    NamedIsRecognised(s, name);
    Openings();
  }

  lemma OptionStep(s: string, inner: string, known: set<string>)
    requires Stripped(s) == "Option<" + inner + ">"
    ensures PythonTypeFor(s, known) == "Optional[" + PythonTypeFor(inner, known) + "]"
  {
    hide Stripped, ScalarType, Encloses, Normalized, Generic;
    Openings();
    assert Stripped(s) == "Option" + "<" + inner + ">";
    BracketedIsRecognised(s, "Option", inner);
    assert Encloses(Normalized(s), "Option<");
  }

  lemma VecStep(s: string, inner: string, known: set<string>)
    requires Stripped(s) == "Vec<" + inner + ">"
    ensures PythonTypeFor(s, known) == "List[" + PythonTypeFor(inner, known) + "]"
  {
    hide Stripped, ScalarType, Encloses, Normalized, Generic;
    Openings();
    assert Stripped(s) == "Vec" + "<" + inner + ">";
    BracketedIsRecognised(s, "Vec", inner);
    assert Encloses(Normalized(s), "Vec" + "<") && !Encloses(Normalized(s), "Option" + "<");
  }

  lemma MapStep(s: string, inner: string, known: set<string>)
    requires Stripped(s) == "Map<" + inner + ">"
    ensures var parts := SplitArgs(inner);
            PythonTypeFor(s, known)
            == if |parts| == 2 then "Dict[" + PythonTypeFor(parts[0], known) + ", " + PythonTypeFor(parts[1], known)
                + "]"
               else "Dict[Any, Any]"
  {
    hide Stripped, ScalarType, Encloses, Normalized, Generic, SplitArgs;
    Openings();
    assert Stripped(s) == "Map" + "<" + inner + ">";
    BracketedIsRecognised(s, "Map", inner);
    assert Encloses(Normalized(s), "Map" + "<");
    assert !Encloses(Normalized(s), "Option" + "<") && !Encloses(Normalized(s), "Vec" + "<");
  }

  lemma TupleStep(s: string, inner: string, args: seq<Type>, known: set<string>)
    requires Stripped(s) == "Tuple<" + inner + ">"
    requires |SplitArgs(inner)| == |args|
    requires forall i :: 0 <= i < |args| ==> PythonTypeFor(SplitArgs(inner)[i], known) == Hint(args[i], known)
    ensures PythonTypeFor(s, known) == Hint(TupleOf(args), known)
  {
    hide Stripped, ScalarType, Encloses, Normalized, Generic, SplitArgs;
    Openings();
    assert Stripped(s) == "Tuple" + "<" + inner + ">";
    BracketedIsRecognised(s, "Tuple", inner);
    assert Encloses(Normalized(s), "Tuple" + "<") && !Encloses(Normalized(s), "Map" + "<");
    assert !Encloses(Normalized(s), "Option" + "<") && !Encloses(Normalized(s), "Vec" + "<");
    var parts := SplitArgs(inner);
    assert seq(|parts|, i requires 0 <= i < |parts| => PythonTypeFor(parts[i], known))
        == seq(|args|, i requires 0 <= i < |args| => Hint(args[i], known));
  }

  // ---------- the plain way of writing a type ----------

  function Show(t: Type): string {
    match t
    case Scalar(prefix, name) => prefix + name
    case OptionOf(value) => "Option<" + Show(value) + ">"
    case VecOf(element) => "Vec<" + Show(element) + ">"
    case MapOf(args) => "Map<" + Join(seq(|args|, i requires 0 <= i < |args| => Show(args[i])), ",") + ">"
    case TupleOf(args) => "Tuple<" + Join(seq(|args|, i requires 0 <= i < |args| => Show(args[i])), ",") + ">"
    case Named(name) => name
  }

  lemma StrippedKeeps(s: string)
    requires s != "" && !IsSpace(s[0]) && !IsSpace(s[|s| - 1])
    ensures Stripped(s) == s
  {
  }

  lemma {:induction false} ShowWrites(t: Type)
    requires WellFormed(t)
    ensures Writes(Show(t), t)
  {
    ShowIsStripped(t);
    hide Stripped, ScalarType, Prefixed, Word;
    match t {
      case Scalar(_, _) =>
      case Named(_) =>
      case OptionOf(value) =>
        ShowWrites(value);
      case VecOf(element) =>
        ShowWrites(element);
      case MapOf(args) =>
        var parts := seq(|args|, i requires 0 <= i < |args| => Show(args[i]));
        forall i | 0 <= i < |args| ensures Writes(parts[i], args[i]) { ShowWrites(args[i]); }
        JoinedLists(parts);
      case TupleOf(args) =>
        var parts := seq(|args|, i requires 0 <= i < |args| => Show(args[i]));
        forall i | 0 <= i < |args| ensures Writes(parts[i], args[i]) { ShowWrites(args[i]); }
        JoinedLists(parts);
    }
  }

  lemma JoinedLists(parts: seq<string>)
    ensures Lists(Join(parts, ","), parts)
  {
  }

  lemma WordKeeps(prefix: string, name: string)
    requires (prefix == "" || prefix in PREFIXES) && Word(name)
    ensures Stripped(prefix + name) == prefix + name
  {
    hide Stripped;
    StrippedKeeps(prefix + name);
  }

  lemma BracketsKeep(opening: string, inner: string)
    requires opening != "" && !IsSpace(opening[0])
    ensures Stripped(opening + inner + ">") == opening + inner + ">"
  {
    hide Stripped;
    StrippedKeeps(opening + inner + ">");
  }

  lemma ShowIsStripped(t: Type)
    requires WellFormed(t)
    ensures Stripped(Show(t)) == Show(t)
  {
    hide Stripped, Word, ScalarType, Prefixed;
    match t {
      case Scalar(prefix, name) =>
        ScalarIsWord(name);
        WordKeeps(prefix, name);
      case OptionOf(value) => BracketsKeep("Option<", Show(value));
      case VecOf(element) => BracketsKeep("Vec<", Show(element));
      case MapOf(args) => BracketsKeep("Map<", Join(seq(|args|, i requires 0 <= i < |args| => Show(args[i])), ","));
      case TupleOf(args) => BracketsKeep("Tuple<", Join(seq(|args|, i requires 0 <= i < |args| => Show(args[i])), ","));
      case Named(name) =>
        assert "" + name == name;
        WordKeeps("", name);
    }
  }

  /** Printing a type and translating the text gives the type's own hint. */
  lemma PrintedTypeTranslates(t: Type, known: set<string>)
    requires WellFormed(t)
    ensures PythonTypeFor(Show(t), known) == Hint(t, known)
  {
    ShowWrites(t);
    TranslatesWritten(Show(t), t, known);
  }

  /** The hints, spelled out: what each way of combining two printed types translates to. */
  lemma HintsSpelledOut(x: Type, y: Type, known: set<string>)
    requires WellFormed(x) && WellFormed(y)
    ensures PythonTypeFor("Option<" + Show(x) + ">", known) == "Optional[" + PythonTypeFor(Show(x), known) + "]"
    ensures PythonTypeFor("Vec<" + Show(x) + ">", known) == "List[" + PythonTypeFor(Show(x), known) + "]"
    ensures PythonTypeFor("Map<" + Show(x) + "," + Show(y) + ">", known)
            == "Dict[" + PythonTypeFor(Show(x), known) + ", " + PythonTypeFor(Show(y), known) + "]"
    ensures PythonTypeFor("Map<" + Show(x) + ">", known) == "Dict[Any, Any]"
    ensures PythonTypeFor("Tuple<" + Show(x) + "," + Show(y) + ">", known)
            == "Tuple[" + PythonTypeFor(Show(x), known) + ", " + PythonTypeFor(Show(y), known) + "]"
  {
    hide PythonTypeFor;
    assert WellFormed(OptionOf(x)) && WellFormed(VecOf(x));
    assert WellFormed(MapOf([x, y])) && WellFormed(TupleOf([x, y])) && WellFormed(MapOf([x]));
    PrintedTypeTranslates(x, known);
    PrintedTypeTranslates(y, known);
    PrintedTypeTranslates(OptionOf(x), known);
    PrintedTypeTranslates(VecOf(x), known);
    PairsShown(x, y);
    PairHinted(x, y, known);
    PrintedTypeTranslates(MapOf([x, y]), known);
    PrintedTypeTranslates(MapOf([x]), known);
    PrintedTypeTranslates(TupleOf([x, y]), known);
  }

  lemma PairsShown(x: Type, y: Type)
    ensures Show(MapOf([x, y])) == "Map<" + Show(x) + "," + Show(y) + ">"
    ensures Show(TupleOf([x, y])) == "Tuple<" + Show(x) + "," + Show(y) + ">"
    ensures Show(MapOf([x])) == "Map<" + Show(x) + ">"
  {
    ShownParts([x, y]);
    ShownParts([x]);
    hide Join;
    JoinPair(Show(x), Show(y), ",");
  }

  lemma PairHinted(x: Type, y: Type, known: set<string>)
    ensures Hint(TupleOf([x, y]), known) == "Tuple[" + Hint(x, known) + ", " + Hint(y, known) + "]"
  {
    HintedParts([x, y], known);
    hide Join;
    JoinPair(Hint(x, known), Hint(y, known), ", ");
  }

  lemma ShownParts(args: seq<Type>)
    ensures |args| == 1 ==> seq(|args|, i requires 0 <= i < |args| => Show(args[i])) == [Show(args[0])]
    ensures |args| == 2 ==>
              seq(|args|, i requires 0 <= i < |args| => Show(args[i])) == [Show(args[0]), Show(args[1])]
  {
    hide Show;
  }

  lemma HintedParts(args: seq<Type>, known: set<string>)
    requires |args| == 2
    ensures seq(|args|, i requires 0 <= i < |args| => Hint(args[i], known))
            == [Hint(args[0], known), Hint(args[1], known)]
  {
    hide Hint;
  }

  lemma JoinPair(a: string, b: string, separator: string)
    ensures Join([a, b], separator) == a + separator + b && Join([a], separator) == a
  {
    assert [a, b][..1] == [a];
  }

  /** And the scalars: text, bytes and integers of every width, bare or behind a prefix; what is
      neither a scalar, nor generic, nor a known struct is Any. */
  lemma ScalarsSpelledOut(known: set<string>)
    ensures forall name :: name in {"U32", "U64", "U128", "U256", "I32", "I64", "I128", "I256"} ==>
              PythonTypeFor(name, known) == "int" && PythonTypeFor("Scv" + name, known) == "int"
    ensures PythonTypeFor("Address", known) == PythonTypeFor("Symbol", known) == PythonTypeFor("ScvString", known)
            == "str"
    ensures PythonTypeFor("Bytes", known) == "bytes" && PythonTypeFor("Bool", known) == "bool"
    ensures PythonTypeFor("Void", known) == "None" && PythonTypeFor("Val", known) == "Any"
    ensures PythonTypeFor("Timepoint", known) == PythonTypeFor("Duration", known) == "int"
  {
    hide PythonTypeFor;
    forall name | name in {"U32", "U64", "U128", "U256", "I32", "I64", "I128", "I256"}
      ensures PythonTypeFor(name, known) == "int" && PythonTypeFor("Scv" + name, known) == "int"
    {
      ScalarTranslates("", name, known);
      ScalarTranslates("Scv", name, known);
    }
    ScalarTranslates("", "Address", known);
    ScalarTranslates("", "Symbol", known);
    ScalarTranslates("Scv", "String", known);
    assert "Scv" + "String" == "ScvString";
    ScalarTranslates("", "Bytes", known);
    ScalarTranslates("", "Bool", known);
    ScalarTranslates("", "Void", known);
    ScalarTranslates("", "Val", known);
    ScalarTranslates("", "Timepoint", known);
    ScalarTranslates("", "Duration", known);
  }

  lemma ScalarTranslates(prefix: string, name: string, known: set<string>)
    requires (prefix == "" || prefix in PREFIXES) && ScalarType(name).Some?
    ensures PythonTypeFor(prefix + name, known) == ScalarType(name).value
    ensures prefix == "" ==> prefix + name == name
  {
    hide PythonTypeFor, ScalarType;
    PrintedTypeTranslates(Scalar(prefix, name), known);
  }

  /** Stripping takes white space at both ends, all of it and nothing else. */
  lemma StrippingTakes(s: string) returns (left: string, right: string)
    ensures s == left + Stripped(s) + right
    ensures (forall i :: 0 <= i < |left| ==> IsSpace(left[i])) && (forall i :: 0 <= i < |right| ==> IsSpace(right[i]))
    ensures Stripped(s) != "" ==> !IsSpace(Stripped(s)[0]) && !IsSpace(Stripped(s)[|Stripped(s)| - 1])
  {
    hide IsSpace, StripStart, StripEnd;
    left := StripStartParts(s, IsSpace);
    right := StripEndParts(StripStart(s, IsSpace), IsSpace);
  }
}
