/**
 A reader of the grammar of RFC 8259, written without the printer. Canonical texts read back as
 their values with the keys in order, and no shorter text reads as the same value.
 */
module JsonReader {
  import opened Decimal
  import opened Json
  import opened JsonDecoding
  import opened Ordering
  import opened StringOrder
  import Strings
  import opened Wrappers

  // ---------- the grammar ----------

  /** ws, in section 2. */
  predicate IsSpace(c: char) { c in {' ', '\t', '\n', '\r'} }

  function SkipSpace(t: string): (r: string)
    ensures |r| <= |t|
  {
    Strings.StripStart(t, IsSpace)
  }

  function HexValue(c: char): (d: Option<nat>)
    ensures d.Some? ==> d.value < 16
  {
    if '0' <= c <= '9' then Some(c as int - '0' as int)
    else if 'a' <= c <= 'f' then Some(10 + c as int - 'a' as int)
    else if 'A' <= c <= 'F' then Some(10 + c as int - 'A' as int)
    else None
  }

  /** 4HEXDIG. */
  function ReadHex(t: string): (r: Reading<nat>)
    ensures r.Read? ==> |t| >= 4 && r.value < 0x10000 && r.rest == t[4..]
  {
    if |t| < 4 || HexValue(t[0]).None? || HexValue(t[1]).None? || HexValue(t[2]).None? || HexValue(t[3]).None?
    then Malformed
    else
      Read(0x1000 * HexValue(t[0]).value + 0x100 * HexValue(t[1]).value + 0x10 * HexValue(t[2]).value
           + HexValue(t[3]).value, t[4..])
  }

  /** After `\u`: a code unit, or the first of a surrogate pair. A lone surrogate is no character. */
  function ReadUnicode(t: string): (r: Reading<char>)
    ensures r.Read? ==> |r.rest| + 4 <= |t|
  {
    var high := ReadHex(t);
    if high.Malformed? then Malformed
    else if high.value < 0xD800 || 0xE000 <= high.value then Read(high.value as char, high.rest)
    else if high.value >= 0xDC00 || !("\\u" <= high.rest) then Malformed
    else
      var low := ReadHex(high.rest[2..]);
      if low.Malformed? || !(0xDC00 <= low.value < 0xE000) then Malformed
      else Read((0x10000 + 0x400 * (high.value - 0xD800) + (low.value - 0xDC00)) as char, low.rest)
  }

  /** char, in section 7, after its reverse solidus. */
  function ReadEscape(t: string): (r: Reading<char>)
    ensures r.Read? ==> |r.rest| < |t|
  {
    if t == "" then Malformed
    else
      match t[0]
      case '"' => Read('"', t[1..])
      case '\\' => Read('\\', t[1..])
      case '/' => Read('/', t[1..])
      case 'b' => Read(8 as char, t[1..])
      case 'f' => Read(12 as char, t[1..])
      case 'n' => Read(10 as char, t[1..])
      case 'r' => Read(13 as char, t[1..])
      case 't' => Read(9 as char, t[1..])
      case 'u' => ReadUnicode(t[1..])
      case _ => Malformed
  }

  function ReadChar(t: string): (r: Reading<char>)
    ensures r.Read? ==> |r.rest| < |t|
  {
    if t == "" || t[0] as int < 0x20 then Malformed
    else if t[0] == '\\' then ReadEscape(t[1..])
    else Read(t[0], t[1..])
  }

  /** *char quotation-mark. */
  function ReadChars(t: string): (r: Reading<string>)
    ensures r.Read? ==> |r.rest| < |t|
    decreases |t|
  {
    if t != "" && t[0] == '"' then Read("", t[1..])
    else
      match ReadChar(t)
      case Malformed => Malformed
      case Read(c, rest) =>
        match ReadChars(rest)
        case Malformed => Malformed
        case Read(s, end) => Read([c] + s, end)
  }

  /** string, in section 7. */
  function ReadString(t: string): (r: Reading<string>)
    ensures r.Read? ==> |r.rest| < |t|
  {
    if t != "" && t[0] == '"' then ReadChars(t[1..]) else Malformed
  }

  function DigitRun(t: string): (n: nat)
    ensures n <= |t| && AllDigits(t[..n]) && (n < |t| ==> !IsDigit(t[n]))
  {
    if t != "" && IsDigit(t[0]) then 1 + DigitRun(t[1..]) else 0
  }

  /** A number ends before another digit, a fraction or an exponent. */
  predicate EndsNumber(t: string) { t == "" || !(IsDigit(t[0]) || t[0] in {'.', 'e', 'E'}) }

  predicate IsSafe(n: int) { -0x1F_FFFF_FFFF_FFFF <= n <= 0x1F_FFFF_FFFF_FFFF }

  /** [ minus ] int, in section 6; fractions, exponents and larger integers are no value here. */
  function ReadNumber(t: string): (r: Reading<Json>)
    ensures r.Read? ==> |r.rest| < |t|
  {
    var u := if t != "" && t[0] == '-' then t[1..] else t;
    var digits, rest := u[..DigitRun(u)], u[DigitRun(u)..];
    if !CanonicalNumeral(digits) || !EndsNumber(rest) then Malformed
    else
      var m: int := ParseNat(digits);
      var n := if t[0] == '-' then -m else m;
      if IsSafe(n) then Read(Number(n), rest) else Malformed
  }

  function ReadLiteral(t: string, word: string, v: Json): (r: Reading<Json>)
    requires word != ""
    ensures r.Read? ==> |r.rest| < |t|
  {
    if word <= t then Read(v, t[|word|..]) else Malformed
  }

  /** value, in section 3, with the white space before it. */
  function ReadValue(t: string): (r: Reading<Json>)
    ensures r.Read? ==> |r.rest| < |t|
    decreases |t|, 0
  {
    var u := SkipSpace(t);
    if u == "" then Malformed
    else
      match u[0]
      case 'n' => ReadLiteral(u, "null", Null)
      case 't' => ReadLiteral(u, "true", Bool(true))
      case 'f' => ReadLiteral(u, "false", Bool(false))
      case '"' =>
        (match ReadString(u)
         case Malformed => Malformed
         case Read(s, rest) => Read(Str(s), rest))
      case '[' => ReadArray(u[1..])
      case '{' => ReadObject(u[1..])
      case _ => ReadNumber(u)
  }

  /** array, in section 5, after its bracket. */
  function ReadArray(t: string): (r: Reading<Json>)
    ensures r.Read? ==> |r.rest| < |t|
    decreases |t|, 2
  {
    if "]" <= SkipSpace(t) then Read(Arr([]), SkipSpace(t)[1..])
    else
      match ReadItems(t)
      case Malformed => Malformed
      case Read(items, rest) => Read(Arr(items), rest)
  }

  function ReadItems(t: string): (r: Reading<seq<Json>>)
    ensures r.Read? ==> |r.rest| < |t|
    decreases |t|, 1
  {
    match ReadValue(t)
    case Malformed => Malformed
    case Read(v, after) =>
      var u := SkipSpace(after);
      if "]" <= u then Read([v], u[1..])
      else if "," <= u then
        match ReadItems(u[1..])
        case Malformed => Malformed
        case Read(items, rest) => Read([v] + items, rest)
      else Malformed
  }

  /** object, in section 4, after its brace; members stay in the order written. */
  function ReadObject(t: string): (r: Reading<Json>)
    ensures r.Read? ==> |r.rest| < |t|
    decreases |t|, 3
  {
    if "}" <= SkipSpace(t) then Read(Obj([]), SkipSpace(t)[1..])
    else
      match ReadMembers(t)
      case Malformed => Malformed
      case Read(fields, rest) => Read(Obj(fields), rest)
  }

  function ReadMember(t: string): (r: Reading<Field>)
    ensures r.Read? ==> |r.rest| < |t|
    decreases |t|, 1
  {
    match ReadString(SkipSpace(t))
    case Malformed => Malformed
    case Read(key, after) =>
      if !(":" <= SkipSpace(after)) then Malformed
      else
        match ReadValue(SkipSpace(after)[1..])
        case Malformed => Malformed
        case Read(v, rest) => Read(Field(key, v), rest)
  }

  function ReadMembers(t: string): (r: Reading<seq<Field>>)
    ensures r.Read? ==> |r.rest| < |t|
    decreases |t|, 2
  {
    match ReadMember(t)
    case Malformed => Malformed
    case Read(f, after) =>
      var u := SkipSpace(after);
      if "}" <= u then Read([f], u[1..])
      else if "," <= u then
        match ReadMembers(u[1..])
        case Malformed => Malformed
        case Read(fields, rest) => Read([f] + fields, rest)
      else Malformed
  }

  // ---------- canonical texts read back ----------

  /** The keys of every object ascend. */
  ghost predicate InKeyOrder(v: Json) {
    match v
    case Arr(items) => forall i :: 0 <= i < |items| ==> InKeyOrder(items[i])
    case Obj(fields) =>
      && StrictlySorted(Less, Keys(fields))
      && (forall i :: 0 <= i < |fields| ==> InKeyOrder(fields[i].value))
    case _ => true
  }

  lemma HexReads(d: nat)
    requires d < 16
    ensures HexValue(HexDigit(d)) == Some(d)
  {
  }

  lemma CharReads(c: char, x: string)
    ensures ReadChar(Escape(c) + x) == Read(c, x)
  {
    var t := Escape(c) + x;
    if t[0] == '\\' && t[1] == 'u' {
      HexReads(0);
      HexReads(c as int / 16);
      HexReads(c as int % 16);
      assert t[1..][1..] == t[2..] && t[2..][4..] == x;
      assert ReadHex(t[2..]) == Read(c as int, x);
    } else if t[0] == '\\' {
      assert t[1..][1..] == x;
    }
  }

  lemma {:induction false} CharsRead(s: string, x: string)
    ensures ReadChars(EscapeAll(s) + "\"" + x) == Read(s, x)
  {
    var t := EscapeAll(s) + "\"" + x;
    QuotedHead(s, x);
    if s == "" {
      assert t == "\"" + x;
    } else {
      hide Escape, EscapeAll, ReadChar;
      CharsRead(s[1..], x);
      CharReads(s[0], EscapeAll(s[1..]) + "\"" + x);
      assert s == [s[0]] + s[1..];
    }
  }

  lemma StringReads(s: string, x: string)
    ensures ReadString(Quote(s) + x) == Read(s, x) && Quote(s) + x != "" && (Quote(s) + x)[0] == '"'
  {
    QuoteOpens(s, x);
    CharsRead(s, x);
    assert (Quote(s) + x)[1..] == EscapeAll(s) + "\"" + x;
  }

  lemma {:induction false} DigitRunStops(digits: string, x: string)
    requires AllDigits(digits) && Stops(x)
    ensures DigitRun(digits + x) == |digits|
  {
    DigitsHead(digits, x);
    if digits != "" { DigitRunStops(digits[1..], x); }
  }

  lemma NumberReads(n: SafeInt, x: string)
    requires EndsNumber(x)
    ensures ReadNumber(IntToString(n) + x) == Read(Number(n), x)
  {
    var digits := NatToString(if n < 0 then -n else n);
    var t := IntToString(n) + x;
    IntHead(n, x);
    NatToStringCanonical(if n < 0 then -n else n);
    ParseNatToString(if n < 0 then -n else n);
    DigitRunStops(digits, x);
    var u := if t[0] == '-' then t[1..] else t;
    assert u == digits + x;
    assert u[..|digits|] == digits && u[|digits|..] == x;
  }

  /** The text starts as `v` is written, up to the order of keys, and reads in key order. */
  ghost predicate ReadsAs(r: Reading<Json>, v: Json, rest: string) {
    r.Read? && r.rest == rest && SameValue(r.value, v) && InKeyOrder(r.value)
  }

  lemma SkipsNothing(t: string)
    requires t != "" && !IsSpace(t[0])
    ensures SkipSpace(t) == t
  {
  }

  lemma ScalarReads(v: Json, x: string)
    requires !v.Arr? && !v.Obj? && EndsNumber(x)
    ensures ReadsAs(ReadValue(Canonicalize(v) + x), v, x)
  {
    hide SkipSpace, ReadLiteral, ReadNumber, ReadString, EndsNumber;
    var t := Canonicalize(v) + x;
    FirstChar(v);
    assert t[0] == Canonicalize(v)[0];
    SkipsNothing(t);
    match v
    case Null => LiteralReads("null", Null, x);
    case Bool(b) => LiteralReads(if b then "true" else "false", v, x);
    case Number(n) => NumberReads(n, x);
    case Str(s) => StringReads(s, x);
  }

  lemma LiteralReads(word: string, v: Json, x: string)
    requires word != ""
    ensures ReadLiteral(word + x, word, v) == Read(v, x)
  {
    assert (word + x)[|word|..] == x;
  }

  lemma {:induction false} ValueReads(v: Json, x: string)
    requires WellFormed(v) && EndsNumber(x)
    ensures ReadsAs(ReadValue(Canonicalize(v) + x), v, x)
    decreases v, 0
  {
    match v
    case Arr(items) =>
      hide *;
      ArrayReads(items, x);
    case Obj(fields) =>
      hide *;
      ObjectReads(fields, x);
    case _ => ScalarReads(v, x);
  }

  /** An opening bracket and what follows it. */
  lemma Opens(open: string, body: string, close: string, x: string)
    requires open == "[" || open == "{"
    ensures var t := open + body + close + x;
            ReadValue(t) == if open == "[" then ReadArray(body + close + x) else ReadObject(body + close + x)
  {
    SkipsNothing(open + body + close + x);
    assert (open + body + close + x)[1..] == body + close + x;
  }

  /** Nothing between the brackets, or something that is neither the closing one nor a space. */
  lemma Begins(t: string, close: string)
    requires close == "]" || close == "}"
    requires t != "" && !IsSpace(t[0])
    ensures SkipSpace(t) == t && (close <= t <==> t[0] == close[0])
  {
    SkipsNothing(t);
  }

  lemma Closes(close: string, x: string)
    requires close == "]" || close == "}"
    ensures SkipSpace(close + x) == close + x && close <= close + x && (close + x)[1..] == x
  {
    assert (close + x)[0] == close[0] && !IsSpace(close[0]);
    SkipsNothing(close + x);
  }

  lemma ArrayReads(items: seq<Json>, x: string)
    requires WellFormed(Arr(items)) && EndsNumber(x)
    ensures ReadsAs(ReadValue(Canonicalize(Arr(items)) + x), Arr(items), x)
    decreases items, 1
  {
    var body := JoinCommas(CanonicalItems(items));
    assert Canonicalize(Arr(items)) == "[" + body + "]";
    if items != [] { ItemsRead(items, x); }
    hide JoinCommas, CanonicalItems, Canonicalize, ReadItems, SkipSpace, ReadValue, ReadArray, ReadObject,
      WellFormed, EndsNumber, SameValue, InKeyOrder;
    Opens("[", body, "]", x);
    ItemsHead(items, x);
    JoinHead(CanonicalItems(items), "]", x);
    ArrayHolds(body + "]" + x);
    if items == [] {
      assert CanonicalItems(items) == [];
      Closes("]", x);
      ArrayAlike([], items);
    } else {
      FirstItem(items, x);
      Begins(body + "]" + x, "]");
      ArrayAlike(ReadItems(body + "]" + x).value, items);
    }
  }

  lemma ArrayAlike(ys: seq<Json>, xs: seq<Json>)
    requires ReadAlike(ys, xs)
    ensures SameValue(Arr(ys), Arr(xs)) && InKeyOrder(Arr(ys))
  {
  }

  lemma ArrayHolds(t: string)
    ensures ReadArray(t)
            == if "]" <= SkipSpace(t) then Read(Arr([]), SkipSpace(t)[1..])
               else if ReadItems(t).Read? then Read(Arr(ReadItems(t).value), ReadItems(t).rest) else Malformed
  {
    hide ReadItems, SkipSpace;
  }

  lemma FirstItem(items: seq<Json>, x: string)
    requires items != []
    ensures var t := JoinCommas(CanonicalItems(items)) + "]" + x; t != "" && !IsSpace(t[0])
  {
    FirstChar(items[0]);
    JoinHead(CanonicalItems(items), "]", x);
  }

  /** Where a list goes on. */
  lemma Continues(parts: seq<string>, close: string, x: string)
    requires parts != [] && (close == "]" || close == "}")
    ensures var t := After(parts, close, x);
            && EndsNumber(t) && SkipSpace(t) == t
            && (|parts| == 1 ==> close <= t && t[1..] == x)
            && (|parts| > 1 ==> !(close <= t) && "," <= t && t[1..] == JoinCommas(parts[1..]) + close + x)
  {
    SkipsNothing(After(parts, close, x));
  }

  ghost predicate ReadAlike(ys: seq<Json>, xs: seq<Json>) {
    |ys| == |xs| && forall i :: 0 <= i < |xs| ==> SameValue(ys[i], xs[i]) && InKeyOrder(ys[i])
  }

  lemma {:induction false} ItemsRead(xs: seq<Json>, x: string)
    requires xs != [] && forall i :: 0 <= i < |xs| ==> WellFormed(xs[i])
    ensures var r := ReadItems(JoinCommas(CanonicalItems(xs)) + "]" + x);
            r.Read? && r.rest == x && ReadAlike(r.value, xs)
    decreases xs, 0
  {
    var ps := CanonicalItems(xs);
    assert ps[0] == Canonicalize(xs[0]) && ps[1..] == CanonicalItems(xs[1..]);
    JoinHead(ps, "]", x);
    Continues(ps, "]", x);
    ValueReads(xs[0], After(ps, "]", x));
    if |xs| > 1 { ItemsRead(xs[1..], x); }
    hide JoinCommas, Canonicalize, CanonicalItems, SkipSpace, SameValue, InKeyOrder, ReadValue, WellFormed, EndsNumber;
    var y := ReadValue(ps[0] + After(ps, "]", x)).value;
    if |xs| > 1 {
      ReadAlikeCons(y, ReadItems(JoinCommas(ps[1..]) + "]" + x).value, xs);
    }
  }

  lemma ReadAlikeCons(y: Json, ys: seq<Json>, xs: seq<Json>)
    requires xs != [] && SameValue(y, xs[0]) && InKeyOrder(y) && ReadAlike(ys, xs[1..])
    ensures ReadAlike([y] + ys, xs)
  {
    hide SameValue, InKeyOrder;
    forall i | 0 <= i < |xs| ensures SameValue(([y] + ys)[i], xs[i]) && InKeyOrder(([y] + ys)[i]) {
      if i > 0 { assert SameValue(ys[i - 1], xs[1..][i - 1]); }
    }
  }

  /** The member of that key. */
  function ValueOf(fs: seq<Field>, k: string): Json
    requires k in Keys(fs)
  {
    fs[IndexOf(fs, k)].value
  }

  /** Members read for the given keys, in their order. */
  ghost predicate MembersAlike(gs: seq<Field>, fs: seq<Field>, ks: seq<string>)
    requires forall k :: k in ks ==> k in Keys(fs)
  {
    && |gs| == |ks|
    && forall i :: 0 <= i < |gs| ==>
         gs[i].key == ks[i] && SameValue(gs[i].value, ValueOf(fs, ks[i])) && InKeyOrder(gs[i].value)
  }

  lemma ObjectReads(fs: seq<Field>, x: string)
    requires WellFormed(Obj(fs)) && EndsNumber(x)
    ensures ReadsAs(ReadValue(Canonicalize(Obj(fs)) + x), Obj(fs), x)
    decreases fs, 1, 0
  {
    SortElements(Less, Keys(fs));
    var ks := Sort(Less, Keys(fs));
    var body := JoinCommas(CanonicalFields(fs, ks));
    assert Canonicalize(Obj(fs)) == "{" + body + "}";
    if ks != [] { MembersRead(fs, ks, x); }
    hide JoinCommas, CanonicalFields, Canonicalize, ReadMembers, SkipSpace, ReadValue, WellFormed, EndsNumber, Sort,
      SameValue, InKeyOrder, MembersAlike, Less;
    Opens("{", body, "}", x);
    FieldsHead(fs, ks, x);
    JoinHead(CanonicalFields(fs, ks), "}", x);
    if ks == [] {
      assert CanonicalFields(fs, ks) == [] && fs == [];
      Closes("}", x);
      NoMembers();
    } else {
      FirstMember(fs, ks, x);
      Begins(body + "}" + x, "}");
      MembersAreObject(ReadMembers(body + "}" + x).value, fs, ks);
    }
  }

  lemma NoMembers()
    ensures SameValue(Obj([]), Obj([])) && InKeyOrder(Obj([]))
  {
  }

  lemma FirstMember(fs: seq<Field>, ks: seq<string>, x: string)
    requires ks != [] && forall k :: k in ks ==> k in Keys(fs)
    ensures var t := JoinCommas(CanonicalFields(fs, ks)) + "}" + x; t != "" && !IsSpace(t[0])
  {
    JoinHead(CanonicalFields(fs, ks), "}", x);
  }

  lemma MembersAreObject(gs: seq<Field>, fs: seq<Field>, ks: seq<string>)
    requires WellFormed(Obj(fs)) && ks == Sort(Less, Keys(fs)) && forall k :: k in ks <==> k in Keys(fs)
    requires MembersAlike(gs, fs, ks)
    ensures SameValue(Obj(gs), Obj(fs)) && InKeyOrder(Obj(gs))
  {
    LessIsStrictOrder();
    DistinctComparable(Keys(fs));
    SortSorts(Less, Keys(fs));
    hide Sort, Less, WellFormed;
    assert Keys(gs) == ks;
    forall k | k in Keys(gs) ensures SameValue(gs[IndexOf(gs, k)].value, fs[IndexOf(fs, k)].value) {
      assert ks[IndexOf(gs, k)] == k;
    }
  }

  lemma {:induction false} MembersRead(fs: seq<Field>, ks: seq<string>, x: string)
    requires WellFormed(Obj(fs)) && ks != [] && forall k :: k in ks ==> k in Keys(fs)
    ensures var r := ReadMembers(JoinCommas(CanonicalFields(fs, ks)) + "}" + x);
            r.Read? && r.rest == x && MembersAlike(r.value, fs, ks)
    decreases fs, 0, |ks|
  {
    var ps := CanonicalFields(fs, ks);
    var v := ValueOf(fs, ks[0]);
    assert ps[0] == Quote(ks[0]) + ":" + Canonicalize(v) && ps[1..] == CanonicalFields(fs, ks[1..]);
    JoinHead(ps, "}", x);
    Continues(ps, "}", x);
    MemberReads(ks[0], v, After(ps, "}", x));
    if |ks| > 1 { MembersRead(fs, ks[1..], x); }
    hide JoinCommas, Canonicalize, CanonicalFields, SkipSpace, SameValue, InKeyOrder, ReadMember, ReadMembers,
      WellFormed, EndsNumber, Quote, ValueOf;
    MembersGoOn(ps[0] + After(ps, "}", x));
    var g := ReadMember(ps[0] + After(ps, "}", x)).value;
    if |ks| > 1 {
      MembersAlikeCons(g, ReadMembers(JoinCommas(ps[1..]) + "}" + x).value, fs, ks);
    }
  }

  lemma MembersGoOn(t: string)
    ensures ReadMember(t).Read? ==>
              var u := SkipSpace(ReadMember(t).rest);
              && ("}" <= u ==> ReadMembers(t) == Read([ReadMember(t).value], u[1..]))
              && ("," <= u && ReadMembers(u[1..]).Read? ==>
                    ReadMembers(t)
                    == Read([ReadMember(t).value] + ReadMembers(u[1..]).value, ReadMembers(u[1..]).rest))
  {
    hide ReadMember, SkipSpace;
    if ReadMember(t).Read? {
      var u := SkipSpace(ReadMember(t).rest);
      assert "," <= u ==> u[0] == ","[0] == ',';
      assert "}" <= u ==> u[0] == "}"[0] == '}';
    }
  }

  lemma MembersAlikeCons(g: Field, gs: seq<Field>, fs: seq<Field>, ks: seq<string>)
    requires ks != [] && forall k :: k in ks ==> k in Keys(fs)
    requires g.key == ks[0] && SameValue(g.value, ValueOf(fs, ks[0])) && InKeyOrder(g.value)
    requires MembersAlike(gs, fs, ks[1..])
    ensures MembersAlike([g] + gs, fs, ks)
  {
    hide SameValue, InKeyOrder, ValueOf;
    forall i | 0 < i < |ks|
      ensures gs[i - 1].key == ks[i] && SameValue(gs[i - 1].value, ValueOf(fs, ks[i])) && InKeyOrder(gs[i - 1].value)
    {
      assert ks[1..][i - 1] == ks[i];
    }
  }

  lemma MemberReads(k: string, v: Json, x: string)
    requires WellFormed(v) && EndsNumber(x)
    ensures var r := ReadMember(Quote(k) + ":" + Canonicalize(v) + x);
            r.Read? && r.rest == x && r.value.key == k && SameValue(r.value.value, v) && InKeyOrder(r.value.value)
    decreases v, 1
  {
    var t := Quote(k) + ":" + Canonicalize(v) + x;
    Regroup(Quote(k), ":", Canonicalize(v), x);
    StringReads(k, ":" + (Canonicalize(v) + x));
    SkipsNothing(t);
    SkipsNothing(":" + (Canonicalize(v) + x));
    assert (":" + (Canonicalize(v) + x))[1..] == Canonicalize(v) + x;
    ValueReads(v, x);
  }

  // ---------- no shorter text reads as the same value ----------

  lemma CharTakes(t: string)
    requires ReadChar(t).Read? && t[0] != '"'
    ensures |t| >= |ReadChar(t).rest| + |Escape(ReadChar(t).value)|
  {
  }

  lemma {:induction false} CharsTake(t: string)
    requires ReadChars(t).Read?
    ensures |t| >= |ReadChars(t).rest| + |EscapeAll(ReadChars(t).value)| + 1
    decreases |t|
  {
    if t[0] != '"' {
      hide Escape, ReadChar;
      CharTakes(t);
      var rest := ReadChar(t).rest;
      CharsTake(rest);
      assert ReadChars(t).value[1..] == ReadChars(rest).value;
    }
  }

  lemma StringTakes(t: string)
    requires ReadString(t).Read?
    ensures |t| >= |ReadString(t).rest| + |Quote(ReadString(t).value)|
  {
    CharsTake(t[1..]);
  }

  lemma NumberTakes(t: string)
    requires ReadNumber(t).Read?
    ensures |t| >= |ReadNumber(t).rest| + |Canonicalize(ReadNumber(t).value)|
  {
    var u := if t[0] == '-' then t[1..] else t;
    CanonicalNumeralPrints(u[..DigitRun(u)]);
  }

  /** The length of a list written with a comma after each part. */
  function Size(parts: seq<string>): nat { if parts == [] then 0 else |parts[0]| + 1 + Size(parts[1..]) }

  lemma {:induction false} JoinedSize(parts: seq<string>)
    ensures |JoinCommas(parts)| == if parts == [] then 0 else Size(parts) - 1
  {
    if |parts| > 1 { JoinedSize(parts[1..]); }
    if |parts| == 1 { assert parts[1..] == []; }
  }

  lemma {:induction false} InsertKeepsSize(fs: seq<Field>, k: string, ks: seq<string>)
    requires k in Keys(fs) && forall l :: l in ks ==> l in Keys(fs)
    ensures forall l :: l in Insert(Less, k, ks) ==> l in Keys(fs)
    ensures Size(CanonicalFields(fs, Insert(Less, k, ks))) == Size(CanonicalFields(fs, [k] + ks))
  {
    hide Less, Canonicalize, Quote;
    assert ([k] + ks)[1..] == ks;
    if ks != [] && !Less(k, ks[0]) {
      InsertKeepsSize(fs, k, ks[1..]);
      var inserted := Insert(Less, k, ks[1..]);
      assert Insert(Less, k, ks) == [ks[0]] + inserted && ([ks[0]] + inserted)[1..] == inserted;
      assert ([k] + ks[1..])[1..] == ks[1..];
    }
  }

  lemma {:induction false} SortKeepsSize(fs: seq<Field>, ks: seq<string>)
    requires forall l :: l in ks ==> l in Keys(fs)
    ensures forall l :: l in Sort(Less, ks) ==> l in Keys(fs)
    ensures Size(CanonicalFields(fs, Sort(Less, ks))) == Size(CanonicalFields(fs, ks))
  {
    if ks != [] {
      hide Less, Insert, Canonicalize, Quote;
      SortKeepsSize(fs, ks[1..]);
      InsertKeepsSize(fs, ks[0], Sort(Less, ks[1..]));
      assert ([ks[0]] + Sort(Less, ks[1..]))[1..] == Sort(Less, ks[1..]);
    }
  }

  lemma OtherMember(f: Field, fs: seq<Field>, k: string)
    requires k in Keys(fs) && k != f.key
    ensures k in Keys([f] + fs) && ([f] + fs)[IndexOf([f] + fs, k)] == fs[IndexOf(fs, k)]
  {
    assert Keys([f] + fs) == [f.key] + Keys(fs) && ([f] + fs)[1..] == fs;
  }

  /** Further members do not change what earlier keys stand for. */
  lemma {:induction false} OtherMembers(f: Field, fs: seq<Field>, ks: seq<string>)
    requires f.key !in ks && forall l :: l in ks ==> l in Keys(fs)
    ensures forall l :: l in ks ==> l in Keys([f] + fs)
    ensures CanonicalFields([f] + fs, ks) == CanonicalFields(fs, ks)
  {
    hide Canonicalize, Quote, Keys, IndexOf;
    forall l | l in ks ensures l in Keys([f] + fs) { OtherMember(f, fs, l); }
    if ks != [] {
      OtherMembers(f, fs, ks[1..]);
      OtherMember(f, fs, ks[0]);
    }
  }

  /** The parts of an object in the order its members are in. */
  lemma FieldsCons(f: Field, fs: seq<Field>)
    requires f.key !in Keys(fs)
    ensures CanonicalFields([f] + fs, Keys([f] + fs))
            == [Quote(f.key) + ":" + Canonicalize(f.value)] + CanonicalFields(fs, Keys(fs))
  {
    hide Canonicalize, Quote;
    OtherMembers(f, fs, Keys(fs));
    assert Keys([f] + fs)[1..] == Keys(fs);
  }

  lemma ObjectSize(fs: seq<Field>)
    ensures |Canonicalize(Obj(fs))| == 2 + if fs == [] then 0 else Size(CanonicalFields(fs, Keys(fs))) - 1
  {
    SortElements(Less, Keys(fs));
    var body := JoinCommas(CanonicalFields(fs, Sort(Less, Keys(fs))));
    assert Canonicalize(Obj(fs)) == "{" + body + "}";
    SortKeepsSize(fs, Keys(fs));
    JoinedSize(CanonicalFields(fs, Sort(Less, Keys(fs))));
    hide Canonicalize, CanonicalFields, JoinCommas, Sort, Size, Less;
    assert |body| == if fs == [] then 0 else Size(CanonicalFields(fs, Keys(fs))) - 1;
  }

  lemma {:induction false} ValueTakes(t: string)
    requires ReadValue(t).Read? && WellFormed(ReadValue(t).value)
    ensures |t| >= |ReadValue(t).rest| + |Canonicalize(ReadValue(t).value)|
    decreases |t|, 0
  {
    var u := SkipSpace(t);
    if u[0] == '"' {
      StringTakes(u);
    } else if u[0] == '[' {
      ArrayTakes(u[1..]);
    } else if u[0] == '{' {
      ObjectTakes(u[1..]);
    } else if u[0] !in {'n', 't', 'f'} {
      NumberTakes(u);
    }
  }

  lemma ArrayTakes(t: string)
    requires ReadArray(t).Read? && WellFormed(ReadArray(t).value)
    ensures |t| + 1 >= |ReadArray(t).rest| + |Canonicalize(ReadArray(t).value)|
    decreases |t|, 2
  {
    var items := ReadArray(t).value.items;
    JoinedSize(CanonicalItems(items));
    if !("]" <= SkipSpace(t)) { ItemsTake(t); }
  }

  lemma {:induction false} ItemsTake(t: string)
    requires ReadItems(t).Read?
    requires forall i :: 0 <= i < |ReadItems(t).value| ==> WellFormed(ReadItems(t).value[i])
    ensures ReadItems(t).value != []
    ensures |t| >= |ReadItems(t).rest| + Size(CanonicalItems(ReadItems(t).value))
    decreases |t|, 1
  {
    var Read(v, after) := ReadValue(t);
    var u := SkipSpace(after);
    var items := ReadItems(t).value;
    assert items[0] == v;
    ValueTakes(t);
    hide Canonicalize, SkipSpace, ReadValue, WellFormed;
    if "]" <= u {
      assert items[1..] == [];
    } else {
      assert items[1..] == ReadItems(u[1..]).value;
      ItemsTake(u[1..]);
    }
  }

  lemma ObjectTakes(t: string)
    requires ReadObject(t).Read? && WellFormed(ReadObject(t).value)
    ensures |t| + 1 >= |ReadObject(t).rest| + |Canonicalize(ReadObject(t).value)|
    decreases |t|, 3
  {
    ObjectSize(ReadObject(t).value.fields);
    if !("}" <= SkipSpace(t)) { MembersTake(t); }
  }

  lemma MemberTakes(t: string)
    requires ReadMember(t).Read? && WellFormed(ReadMember(t).value.value)
    ensures |t| >= |ReadMember(t).rest| + |Quote(ReadMember(t).value.key)| + 1
                   + |Canonicalize(ReadMember(t).value.value)|
    decreases |t|, 1
  {
    StringTakes(SkipSpace(t));
    ValueTakes(SkipSpace(ReadString(SkipSpace(t)).rest)[1..]);
  }

  lemma {:induction false} MembersTake(t: string)
    requires ReadMembers(t).Read? && WellFormed(Obj(ReadMembers(t).value))
    ensures ReadMembers(t).value != []
    ensures |t| >= |ReadMembers(t).rest| + Size(CanonicalFields(ReadMembers(t).value, Keys(ReadMembers(t).value)))
    decreases |t|, 2
  {
    var Read(f, after) := ReadMember(t);
    var u := SkipSpace(after);
    var tail := if "}" <= u then [] else ReadMembers(u[1..]).value;
    assert ReadMembers(t).value == [f] + tail;
    WellFormedParts(f, tail);
    MemberTakes(t);
    FieldsCons(f, tail);
    if !("}" <= u) { MembersTake(u[1..]); }
    assert "}" <= u ==> ReadMembers(t).rest == u[1..];
    assert !("}" <= u) ==> ReadMembers(t).rest == ReadMembers(u[1..]).rest;
    hide Canonicalize, CanonicalFields, Quote, SkipSpace, ReadMember, ReadMembers, WellFormed, Size;
    SizeCons(Quote(f.key) + ":" + Canonicalize(f.value), CanonicalFields(tail, Keys(tail)));
    NoFields();
  }

  lemma SizeCons(part: string, parts: seq<string>)
    ensures Size([part] + parts) == |part| + 1 + Size(parts)
  {
    assert ([part] + parts)[1..] == parts;
  }

  lemma NoFields()
    ensures Size(CanonicalFields([], Keys([]))) == 0
  {
    assert Keys([]) == [];
  }

  lemma WellFormedParts(f: Field, tail: seq<Field>)
    requires WellFormed(Obj([f] + tail))
    ensures WellFormed(f.value) && f.key !in Keys(tail) && WellFormed(Obj(tail))
  {
    var fs := [f] + tail;
    assert fs[0] == f && forall i :: 0 <= i < |tail| ==> tail[i] == fs[i + 1];
    forall i | 0 <= i < |tail| ensures Keys(tail)[i] != f.key && WellFormed(tail[i].value) {
      assert fs[0].key != fs[i + 1].key;
    }
  }

  /** A whole text: a value with white space around it. */
  ghost predicate IsTextOf(t: string, v: Json) {
    ReadValue(t).Read? && SkipSpace(ReadValue(t).rest) == "" && WellFormed(ReadValue(t).value)
    && SameValue(ReadValue(t).value, v)
  }

  /** The canonical text of a value is a text of it whose keys ascend, and no text of it is shorter:
      it has no white space, and no escape it could do without. */
  lemma CanonicalIsShortest(v: Json, t: string)
    requires WellFormed(v)
    ensures ReadsAs(ReadValue(Canonicalize(v)), v, "")
    ensures IsTextOf(t, v) ==> |Canonicalize(v)| <= |t|
  {
    ValueReads(v, "");
    assert Canonicalize(v) + "" == Canonicalize(v);
    if IsTextOf(t, v) {
      ValueTakes(t);
      SameValuePrintsSame(ReadValue(t).value, v);
    }
  }
}
