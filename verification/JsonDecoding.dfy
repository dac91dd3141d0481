/** `Canonicalize` forgets key order and nothing else. */
module JsonDecoding {
  import opened Ordering
  import opened StringOrder
  import opened Decimal
  import opened Json

  /** What may follow a printed value inside a larger text: never another digit. */
  predicate Stops(rest: string) { rest == "" || !IsDigit(rest[0]) }

  lemma Cancel(p: string, x: string, y: string)
    requires p + x == p + y
    ensures x == y
  {
    assert x == (p + x)[|p|..];
    assert y == (p + y)[|p|..];
  }

  /** Equal texts with equal heads have equal heads and tails. */
  lemma CancelAfter(a: string, x: string, b: string, y: string)
    requires a + x == b + y && a == b
    ensures x == y
  {
    Cancel(a, x, y);
  }

  // ---------- strings ----------

  lemma EscapeDecodes(c: char, x: string, d: char, y: string)
    requires Escape(c) + x == Escape(d) + y
    ensures c == d && x == y
  {
    var e, f := Escape(c) + x, Escape(d) + y;
    assert e[0] == Escape(c)[0] && f[0] == Escape(d)[0];
    if Escape(c)[0] == '\\' {
      assert e[1] == Escape(c)[1] && f[1] == Escape(d)[1];
      if Escape(c)[1] == 'u' {
        assert e[4] == HexDigit(c as int / 16) && f[4] == HexDigit(d as int / 16);
        assert e[5] == HexDigit(c as int % 16) && f[5] == HexDigit(d as int % 16);
        HexDigitInjective(c as int / 16, d as int / 16);
        HexDigitInjective(c as int % 16, d as int % 16);
        assert c as int == d as int;
      }
    }
    CancelAfter(Escape(c), x, Escape(d), y);
  }

  lemma HexDigitInjective(a: nat, b: nat)
    requires a < 16 && b < 16 && HexDigit(a) == HexDigit(b)
    ensures a == b
  {
  }

  lemma QuotedHead(s: string, x: string)
    ensures var text := EscapeAll(s) + "\"" + x;
            text != "" && (text[0] == '"' <==> s == "")
    ensures s != "" ==> EscapeAll(s) + "\"" + x == Escape(s[0]) + (EscapeAll(s[1..]) + "\"" + x)
  {
    if s == "" { assert EscapeAll(s) + "\"" + x == "\"" + x; }
  }

  lemma {:induction false} QuotedDecodes(s: string, x: string, t: string, y: string)
    requires EscapeAll(s) + "\"" + x == EscapeAll(t) + "\"" + y
    ensures s == t && x == y
  {
    QuotedHead(s, x);
    QuotedHead(t, y);
    if s == "" {
      CancelAfter(EscapeAll(s) + "\"", x, EscapeAll(t) + "\"", y);
    } else {
      EscapeDecodes(s[0], EscapeAll(s[1..]) + "\"" + x, t[0], EscapeAll(t[1..]) + "\"" + y);
      QuotedDecodes(s[1..], x, t[1..], y);
      assert s == [s[0]] + s[1..] && t == [t[0]] + t[1..];
    }
  }

  lemma QuoteOpens(s: string, x: string)
    ensures Quote(s) + x == "\"" + (EscapeAll(s) + "\"" + x)
  {
  }

  lemma QuoteDecodes(s: string, x: string, t: string, y: string)
    requires Quote(s) + x == Quote(t) + y
    ensures s == t && x == y
  {
    QuoteOpens(s, x);
    QuoteOpens(t, y);
    Cancel("\"", EscapeAll(s) + "\"" + x, EscapeAll(t) + "\"" + y);
    QuotedDecodes(s, x, t, y);
  }

  // ---------- numbers ----------

  lemma DigitsHead(a: string, x: string)
    requires AllDigits(a) && Stops(x)
    ensures a != "" <==> a + x != "" && IsDigit((a + x)[0])
    ensures a != "" ==> (a + x)[0] == a[0] && (a + x)[1..] == a[1..] + x
    ensures a == "" ==> a + x == x
  {
  }

  lemma {:induction false} DigitsDecode(a: string, x: string, b: string, y: string)
    requires AllDigits(a) && AllDigits(b) && Stops(x) && Stops(y) && a + x == b + y
    ensures a == b && x == y
  {
    DigitsHead(a, x);
    DigitsHead(b, y);
    if a != "" {
      DigitsDecode(a[1..], x, b[1..], y);
      assert a == [a[0]] + a[1..] && b == [b[0]] + b[1..];
    }
  }

  lemma NatDecodes(m: nat, x: string, n: nat, y: string)
    requires Stops(x) && Stops(y) && NatToString(m) + x == NatToString(n) + y
    ensures m == n && x == y
  {
    DigitsDecode(NatToString(m), x, NatToString(n), y);
    ParseNatToString(m);
    ParseNatToString(n);
  }

  lemma IntHead(n: int, x: string)
    ensures var text := IntToString(n) + x;
            text != "" && (text[0] == '-' <==> n < 0) && (text[0] == '-' || IsDigit(text[0]))
    ensures n < 0 ==> IntToString(n) + x == "-" + (NatToString(-n) + x)
  {
  }

  lemma IntDecodes(m: int, x: string, n: int, y: string)
    requires Stops(x) && Stops(y) && IntToString(m) + x == IntToString(n) + y
    ensures m == n && x == y
  {
    IntHead(m, x);
    IntHead(n, y);
    if m < 0 {
      Cancel("-", NatToString(-m) + x, NatToString(-n) + y);
      NatDecodes(-m, x, -n, y);
    } else {
      NatDecodes(m, x, n, y);
    }
  }

  // ---------- values ----------

  /** The first character of a printed value tells its constructor. */
  lemma FirstChar(v: Json)
    ensures Canonicalize(v) != ""
    ensures match v
            case Null => Canonicalize(v)[0] == 'n'
            case Bool(b) => Canonicalize(v)[0] == if b then 't' else 'f'
            case Number(n) => Canonicalize(v)[0] == '-' || IsDigit(Canonicalize(v)[0])
            case Str(_) => Canonicalize(v)[0] == '"'
            case Arr(_) => Canonicalize(v)[0] == '['
            case Obj(_) => Canonicalize(v)[0] == '{'
  {
  }

  /** Printed values are self-delimiting: from equal texts the values come back, up to key order. */
  lemma {:induction false} ValueDecodes(a: Json, x: string, b: Json, y: string)
    requires WellFormed(a) && WellFormed(b) && Stops(x) && Stops(y)
    requires Canonicalize(a) + x == Canonicalize(b) + y
    ensures SameValue(a, b) && Canonicalize(a) == Canonicalize(b) && x == y
    decreases a, 0
  {
    FirstChar(a);
    FirstChar(b);
    assert (Canonicalize(a) + x)[0] == Canonicalize(a)[0];
    assert (Canonicalize(b) + y)[0] == Canonicalize(b)[0];
    match a
    case Null => CancelAfter("null", x, "null", y);
    case Bool(p) => CancelAfter(Canonicalize(a), x, Canonicalize(b), y);
    case Number(m) => IntDecodes(m, x, b.n, y);
    case Str(s) => QuoteDecodes(s, x, b.s, y);
    case Arr(items) =>
      Bracketed("[", JoinCommas(CanonicalItems(items)), "]", x, JoinCommas(CanonicalItems(b.items)), y);
      ItemsDecode(items, x, b.items, y);
    case Obj(fields) =>
      ObjectDecodes(fields, x, b.fields, y);
  }

  lemma ObjectDecodes(fs: seq<Field>, x: string, gs: seq<Field>, y: string)
    requires WellFormed(Obj(fs)) && WellFormed(Obj(gs))
    requires Canonicalize(Obj(fs)) + x == Canonicalize(Obj(gs)) + y
    ensures SameValue(Obj(fs), Obj(gs)) && Canonicalize(Obj(fs)) == Canonicalize(Obj(gs)) && x == y
    decreases fs, 1, 0
  {
    SortElements(Less, Keys(fs));
    SortElements(Less, Keys(gs));
    var ks, ls := Sort(Less, Keys(fs)), Sort(Less, Keys(gs));
    Bracketed("{", JoinCommas(CanonicalFields(fs, ks)), "}", x, JoinCommas(CanonicalFields(gs, ls)), y);
    FieldsDecode(fs, ks, x, gs, ls, y);
    KeysDecideObject(fs, gs, ks);
  }

  lemma KeysDecideObject(fs: seq<Field>, gs: seq<Field>, ks: seq<string>)
    requires forall k :: k in ks <==> k in Keys(fs)
    requires forall k :: k in ks <==> k in Keys(gs)
    requires forall k :: k in ks ==>
                k in Keys(fs) && k in Keys(gs) && SameValue(fs[IndexOf(fs, k)].value, gs[IndexOf(gs, k)].value)
    ensures SameValue(Obj(fs), Obj(gs))
  {
  }

  lemma Bracketed(open: string, p: string, close: string, x: string, q: string, y: string)
    requires open + p + close + x == open + q + close + y
    ensures p + close + x == q + close + y
  {
    assert open + p + close + x == open + (p + close + x);
    assert open + q + close + y == open + (q + close + y);
    Cancel(open, p + close + x, q + close + y);
  }

  /** What follows a part inside a joined list starts with ',' or the closing bracket. */
  lemma JoinHead(parts: seq<string>, close: string, x: string)
    requires |close| == 1
    ensures parts == [] ==> JoinCommas(parts) + close + x == close + x
    ensures parts != [] ==> JoinCommas(parts) + close + x == parts[0] + After(parts, close, x)
    ensures parts != [] ==> After(parts, close, x)[0] == if |parts| == 1 then close[0] else ','
  {
    if |parts| > 1 { CommaPart(parts[0], JoinCommas(parts[1..]), close, x); }
    if |parts| == 1 { CommaLess(parts[0], close, x); }
  }

  lemma CommaLess(p: string, close: string, x: string)
    ensures p + close + x == p + (close + x)
  {
  }

  lemma CommaPart(p: string, rest: string, close: string, x: string)
    ensures p + "," + rest + close + x == p + ("," + (rest + close + x))
  {
    CommaLess(p + "," + rest, close, x);
    CommaLess(p + ",", rest, close + x);
    CommaLess(p, ",", rest + (close + x));
    CommaLess(rest, close, x);
  }

  /** The text after the first part of a joined list. */
  function After(parts: seq<string>, close: string, x: string): (t: string)
    requires parts != [] && |close| == 1
    ensures t != ""
  {
    if |parts| == 1 then close + x else "," + (JoinCommas(parts[1..]) + close + x)
  }

  lemma ItemsHead(xs: seq<Json>, x: string)
    ensures var text := JoinCommas(CanonicalItems(xs)) + "]" + x;
            text != "" && (text[0] == ']' <==> xs == [])
  {
    JoinHead(CanonicalItems(xs), "]", x);
    if xs != [] { FirstChar(xs[0]); }
  }

  lemma {:induction false} ItemsDecode(xs: seq<Json>, x: string, ys: seq<Json>, y: string)
    requires forall i :: 0 <= i < |xs| ==> WellFormed(xs[i])
    requires forall i :: 0 <= i < |ys| ==> WellFormed(ys[i])
    requires JoinCommas(CanonicalItems(xs)) + "]" + x == JoinCommas(CanonicalItems(ys)) + "]" + y
    ensures |xs| == |ys| && CanonicalItems(xs) == CanonicalItems(ys) && x == y
    ensures forall i :: 0 <= i < |xs| ==> SameValue(xs[i], ys[i])
    decreases xs, 0
  {
    var ps, qs := CanonicalItems(xs), CanonicalItems(ys);
    ItemsHead(xs, x);
    ItemsHead(ys, y);
    JoinHead(ps, "]", x);
    JoinHead(qs, "]", y);
    if xs == [] {
      Cancel("]", x, y);
    } else {
      ValueDecodes(xs[0], After(ps, "]", x), ys[0], After(qs, "]", y));
      if |xs| == 1 {
        Cancel("]", x, y);
      } else {
        Cancel(",", JoinCommas(ps[1..]) + "]" + x, JoinCommas(qs[1..]) + "]" + y);
        ItemsDecode(xs[1..], x, ys[1..], y);
        forall i | 0 <= i < |xs| ensures SameValue(xs[i], ys[i]) {
          if i > 0 { assert SameValue(xs[1..][i - 1], ys[1..][i - 1]); }
        }
      }
    }
  }

  lemma FieldsHead(fs: seq<Field>, ks: seq<string>, x: string)
    requires forall k :: k in ks ==> k in Keys(fs)
    ensures var text := JoinCommas(CanonicalFields(fs, ks)) + "}" + x;
            text != "" && (text[0] == '}' <==> ks == [])
  {
    JoinHead(CanonicalFields(fs, ks), "}", x);
  }

  lemma Regroup(a: string, b: string, c: string, d: string)
    ensures (a + b + c) + d == a + (b + (c + d))
  {
  }

  lemma PartDecodes(k: string, v: Json, r: string, l: string, w: Json, t: string)
    requires WellFormed(v) && WellFormed(w) && Stops(r) && Stops(t)
    requires (Quote(k) + ":" + Canonicalize(v)) + r == (Quote(l) + ":" + Canonicalize(w)) + t
    ensures k == l && SameValue(v, w) && Canonicalize(v) == Canonicalize(w) && r == t
    decreases v, 1
  {
    Regroup(Quote(k), ":", Canonicalize(v), r);
    Regroup(Quote(l), ":", Canonicalize(w), t);
    QuoteDecodes(k, ":" + (Canonicalize(v) + r), l, ":" + (Canonicalize(w) + t));
    Cancel(":", Canonicalize(v) + r, Canonicalize(w) + t);
    ValueDecodes(v, r, w, t);
  }

  lemma SameHeadAndTail(s: seq<string>, t: seq<string>)
    requires s != [] && t != [] && s[0] == t[0] && s[1..] == t[1..]
    ensures s == t
    ensures forall k :: k in s <==> k == s[0] || k in s[1..]
  {
    assert s == [s[0]] + s[1..] && t == [t[0]] + t[1..];
  }

  lemma {:induction false} FieldsDecode(fs: seq<Field>, ks: seq<string>, x: string, gs: seq<Field>, ls: seq<string>,
          y: string)
    requires WellFormed(Obj(fs)) && WellFormed(Obj(gs))
    requires forall k :: k in ks ==> k in Keys(fs)
    requires forall k :: k in ls ==> k in Keys(gs)
    requires JoinCommas(CanonicalFields(fs, ks)) + "}" + x == JoinCommas(CanonicalFields(gs, ls)) + "}" + y
    ensures ks == ls && CanonicalFields(fs, ks) == CanonicalFields(gs, ls) && x == y
    ensures forall k :: k in ks ==> k in ls && SameValue(fs[IndexOf(fs, k)].value, gs[IndexOf(gs, k)].value)
    decreases fs, 0, |ks|
  {
    var ps, qs := CanonicalFields(fs, ks), CanonicalFields(gs, ls);
    FieldsHead(fs, ks, x);
    FieldsHead(gs, ls, y);
    JoinHead(ps, "}", x);
    JoinHead(qs, "}", y);
    if ks == [] {
      Cancel("}", x, y);
    } else {
      PartDecodes(ks[0], fs[IndexOf(fs, ks[0])].value, After(ps, "}", x),
                  ls[0], gs[IndexOf(gs, ls[0])].value, After(qs, "}", y));
      if |ks| == 1 {
        Cancel("}", x, y);
      } else {
        Cancel(",", JoinCommas(ps[1..]) + "}" + x, JoinCommas(qs[1..]) + "}" + y);
        FieldsDecode(fs, ks[1..], x, gs, ls[1..], y);
      }
      SameHeadAndTail(ks, ls);
    }
  }

  // ---------- the converse ----------

  lemma {:induction false} SameValuePrintsSame(a: Json, b: Json)
    requires WellFormed(a) && WellFormed(b) && SameValue(a, b)
    ensures Canonicalize(a) == Canonicalize(b)
    decreases a, 0
  {
    match a
    case Arr(items) => SameItems(items, b.items);
    case Obj(fields) =>
      var gs := b.fields;
      LessIsStrictOrder();
      DistinctComparable(Keys(fields));
      DistinctComparable(Keys(gs));
      SortCanonical(Less, Keys(fields), Keys(gs));
      SortElements(Less, Keys(fields));
      SameFields(fields, gs, Sort(Less, Keys(fields)));
    case _ =>
  }

  lemma {:induction false} SameItems(xs: seq<Json>, ys: seq<Json>)
    requires |xs| == |ys| && forall i :: 0 <= i < |xs| ==>
                WellFormed(xs[i]) && WellFormed(ys[i]) && SameValue(xs[i], ys[i])
    ensures CanonicalItems(xs) == CanonicalItems(ys)
    decreases xs, 0
  {
    if xs != [] {
      SameValuePrintsSame(xs[0], ys[0]);
      SameItems(xs[1..], ys[1..]);
    }
  }

  lemma {:induction false} SameFields(fs: seq<Field>, gs: seq<Field>, ks: seq<string>)
    requires WellFormed(Obj(fs)) && WellFormed(Obj(gs)) && SameValue(Obj(fs), Obj(gs))
    requires forall k :: k in ks ==> k in Keys(fs)
    ensures CanonicalFields(fs, ks) == CanonicalFields(gs, ks)
    decreases fs, |ks|
  {
    if ks != [] {
      SameValuePrintsSame(fs[IndexOf(fs, ks[0])].value, gs[IndexOf(gs, ks[0])].value);
      SameFields(fs, gs, ks[1..]);
    }
  }

  /** Two JSON values print alike exactly when they are the same value: key order never shows,
      and nothing else is ever confused. */
  lemma CanonicalIffSame(a: Json, b: Json)
    requires WellFormed(a) && WellFormed(b)
    ensures Canonicalize(a) == Canonicalize(b) <==> SameValue(a, b)
  {
    if Canonicalize(a) == Canonicalize(b) {
      ValueDecodes(a, "", b, "");
    }
    if SameValue(a, b) { SameValuePrintsSame(a, b); }
  }
}
