/**
 sdk/src/format.ts: `formatAmount` and `parseAmount`. Amounts are `bigint`s, hence unbounded.
 */
module Amount {
  import opened Decimal
  import opened Division
  import opened Strings
  import opened Wrappers

  datatype Error = NegativeDecimals | Empty | Negative | BadCharacters | TooPrecise

  // ---------- string helpers of the runtime ----------

  /** Zeros in front up to the given length. */
  function PadStart(s: string, length: nat): (r: string)
    ensures |r| >= length
  {
    if |s| >= length then s else Zeros(length - |s|) + s
  }

  /** Zeros behind up to the given length. */
  function PadEnd(s: string, length: nat): string {
    if |s| >= length then s else s + Zeros(length - |s|)
  }

  /** Without the zeros at the end. */
  function StripZeros(s: string): string {
    if s != "" && s[|s| - 1] == '0' then StripZeros(s[..|s| - 1]) else s
  }

  /** The grouping regular expression: a comma before every block of three digits counted from
      the right, except at the very start. */
  function Group(s: string): string {
    if |s| <= 3 then s else Group(s[..|s| - 3]) + "," + s[|s| - 3..]
  }

  /** White space and line terminators, as JavaScript trims them. */
  predicate IsTrimmed(c: char) {
    c as int in {9, 10, 11, 12, 13, 32, 0xA0, 0x1680, 0x2028, 0x2029, 0x202F, 0x205F, 0x3000, 0xFEFF}
    || 0x2000 <= c as int <= 0x200A
  }

  function Trim(s: string): string { Strip(s, IsTrimmed) }

  // ---------- formatAmount ----------

  datatype Options = Options(decimals: Option<int>, precision: Option<int>, group: bool)

  const Defaults := Options(None, None, false)

  function FormatAmount(amount: int, options: Options): Result<string, Error> {
    var decimals := if options.decimals.Some? then options.decimals.value else 7;
    var precision := if options.precision.Some? then options.precision.value else decimals;
    if decimals < 0 || precision < 0 then Err(NegativeDecimals)
    else
      var factor := Pow10(decimals);
      var sign := if amount < 0 then "-" else "";
      var abs := if amount < 0 then -amount else amount;
      var fraction := PadStart(NatToString(Remainder(abs, factor)), decimals);
      var fracStr := StripZeros(if precision < decimals then fraction[..precision] else fraction);
      var wholeStr := NatToString(Quotient(abs, factor));
      var grouped := if options.group then Group(wholeStr) else wholeStr;
      Ok(if |fracStr| > 0 then sign + grouped + "." + fracStr else sign + grouped)
  }

  // ---------- parseAmount ----------

  /** One or more digits, then possibly a point and one or more digits. */
  predicate IsDecimalText(s: string) {
    var dot := IndexOf(s, '.');
    && dot > 0 && AllDigits(s[..dot])
    && (dot < |s| ==> dot + 1 < |s| && AllDigits(s[dot + 1..]))
  }

  function ParseAmount(input: string, decimals: int): Result<nat, Error> {
    if decimals < 0 then Err(NegativeDecimals)
    else
      var trimmed := Trim(input);
      if |trimmed| == 0 then Err(Empty)
      else if trimmed[0] == '-' then Err(Negative)
      else if !IsDecimalText(trimmed) then Err(BadCharacters)
      else
        var dot := IndexOf(trimmed, '.');
        var intPart := trimmed[..dot];
        var fracPart := if dot == |trimmed| then "" else trimmed[dot + 1..];
        if |fracPart| > decimals then Err(TooPrecise)
        else
          PadEndDigits(fracPart, decimals);
          Ok(ParseNat(intPart) * Pow10(decimals) + ParseNat(PadEnd(fracPart, decimals)))
  }

  lemma PadEndDigits(s: string, length: nat)
    requires AllDigits(s)
    ensures AllDigits(PadEnd(s, length)) && (|s| <= length ==> |PadEnd(s, length)| == length)
  {
  }

  // ---------- fractions ----------

  /** Dropping trailing zeros and padding them back restores the text. */
  lemma {:induction false} StripThenPad(s: string)
    ensures |StripZeros(s)| <= |s| && PadEnd(StripZeros(s), |s|) == s
    ensures AllDigits(s) ==> AllDigits(StripZeros(s))
    ensures StripZeros(s) != "" ==> StripZeros(s)[|StripZeros(s)| - 1] != '0'
  {
    if s != "" && s[|s| - 1] == '0' {
      StripThenPad(s[..|s| - 1]);
      assert s == s[..|s| - 1] + "0";
      var t := StripZeros(s);
      assert Zeros(|s| - |t|) == Zeros(|s| - 1 - |t|) + "0";
      assert PadEnd(t, |s|) == t + Zeros(|s| - |t|);
    } else {
      assert s + Zeros(0) == s;
    }
  }

  lemma PadStartParses(n: nat, length: nat)
    requires n < Pow10(length) && length > 0
    ensures var s := PadStart(NatToString(n), length);
            |s| == length && AllDigits(s) && ParseNat(s) == n
  {
    hide NatToString, ParseNat, Pow10;
    NumeralLength(n, length);
    ParseNatToString(n);
    LeadingZeros(NatToString(n), length - |NatToString(n)|);
  }

  lemma LeadingZeros(s: string, k: nat)
    requires AllDigits(s)
    ensures AllDigits(Zeros(k) + s) && ParseNat(Zeros(k) + s) == ParseNat(s)
  {
    hide ParseNat, Pow10;
    ParseNatConcat(Zeros(k), s);
    ParseZeros(k);
  }

  lemma {:induction false} PadEndParses(s: string, length: nat)
    requires AllDigits(s) && |s| <= length
    ensures AllDigits(PadEnd(s, length)) && ParseNat(PadEnd(s, length)) == ParseNat(s) * Pow10(length - |s|)
  {
    ParseNatConcat(s, Zeros(length - |s|));
    ParseZeros(length - |s|);
    assert s + Zeros(0) == s;
  }

  /** A prefix of a numeral is the number without its low digits. */
  lemma PrefixIsQuotient(s: string, p: nat)
    requires AllDigits(s) && p <= |s|
    ensures ParseNat(s[..p]) * Pow10(|s| - p) == ParseNat(s) - Remainder(ParseNat(s), Pow10(|s| - p))
  {
    hide ParseNat, Pow10;
    var hi, lo := s[..p], s[p..];
    assert s == hi + lo;
    ParseNatConcat(hi, lo);
    ParseNatBound(lo);
    RemainderOfSum(ParseNat(hi), Pow10(|lo|), ParseNat(lo));
  }

  /** The fraction digits `FormatAmount` shows, as digits and as a number. */
  function FractionDigits(f: nat, decimals: nat, precision: nat): string {
    var fraction := PadStart(NatToString(f), decimals);
    StripZeros(if precision < decimals then fraction[..precision] else fraction)
  }

  lemma NoFraction(f: nat, precision: nat)
    requires f < Pow10(0)
    ensures f == 0 && FractionDigits(f, 0, precision) == "" && PadEnd("", 0) == "" && ParseNat("") == 0
  {
    assert NatToString(0) == "0" && "0"[..0] == "";
    assert StripZeros("0") == StripZeros("0"[..0]) == "";
  }

  lemma FractionReadsBack(f: nat, decimals: nat, precision: nat)
    requires f < Pow10(decimals)
    ensures var t := FractionDigits(f, decimals, precision);
            var kept := if precision < decimals then decimals - precision else 0;
            && AllDigits(t) && |t| <= decimals && (precision < decimals ==> |t| <= precision)
            && (t != "" ==> t[|t| - 1] != '0')
            && AllDigits(PadEnd(t, decimals)) && ParseNat(PadEnd(t, decimals)) == f - Remainder(f, Pow10(kept))
  {
    hide ParseNat, Pow10, NatToString, StripZeros, PadStart, PadEnd;
    if decimals == 0 {
      NoFraction(f, precision);
      assert Remainder(f, Pow10(0)) == 0;
    } else {
      PadStartParses(f, decimals);
      var full := PadStart(NatToString(f), decimals);
      ShownReadsBack(full, if precision < decimals then precision else decimals);
      assert full[..decimals] == full;
    }
  }

  /** Cutting a fraction to m digits, stripping zeros and padding back clears the digits past m. */
  lemma ShownReadsBack(full: string, m: nat)
    requires AllDigits(full) && m <= |full|
    ensures var t := StripZeros(full[..m]);
            && AllDigits(t) && |t| <= m && (t != "" ==> t[|t| - 1] != '0')
            && AllDigits(PadEnd(t, |full|))
            && ParseNat(PadEnd(t, |full|)) == ParseNat(full) - Remainder(ParseNat(full), Pow10(|full| - m))
  {
    hide ParseNat, Pow10, StripZeros, PadEnd, Remainder;
    var shown := full[..m];
    var t := StripZeros(shown);
    StripThenPad(shown);
    PadEndParses(t, m);
    PadEndParses(t, |full|);
    PrefixIsQuotient(full, m);
    Pow10Add(m - |t|, |full| - m);
    MulAssoc(ParseNat(t), Pow10(m - |t|), Pow10(|full| - m));
  }

  lemma Distribute(a: int, b: int, c: int)
    ensures (a + b) * c == a * c + b * c
  {
  }

  lemma MulAssoc(a: int, b: int, c: int)
    ensures a * b * c == a * (b * c)
  {
  }

  // ---------- reading a formatted text ----------

  lemma {:induction false} TrimKeeps(s: string)
    requires s != "" && !IsTrimmed(s[0]) && !IsTrimmed(s[|s| - 1])
    ensures Trim(s) == s
  {
  }

  lemma DotAt(w: string, t: string)
    requires AllDigits(w)
    ensures IndexOf(w + "." + t, '.') == |w|
    ensures IndexOf(w, '.') == |w|
  {
    var s := w + "." + t;
    assert s[|w|] == '.';
    assert forall j :: 0 <= j < |w| ==> s[j] == w[j];
  }

  /** The text with digits `w` before the point and `t` after it, without a point when `t` is empty. */
  function Plain(w: string, t: string): string {
    if |t| > 0 then w + "." + t else w
  }

  lemma PlainShape(w: string, t: string)
    requires w != "" && AllDigits(w) && AllDigits(t)
    ensures var s := Plain(w, t);
            && s != "" && s[0] == w[0] != '-' && Trim(s) == s && IndexOf(s, '.') == |w| && s[..|w|] == w
            && |s| == |w| + (if t == "" then 0 else 1 + |t|) && (t != "" ==> s[|w| + 1..] == t)
  {
    hide Trim;
    var s := Plain(w, t);
    DotAt(w, t);
    assert s[0] == w[0] && IsDigit(s[|s| - 1]);
    TrimKeeps(s);
    assert s[..|w|] == w;
  }

  /** How such a text is read. */
  lemma ParsePlain(w: string, t: string, decimals: nat)
    requires w != "" && AllDigits(w) && AllDigits(t) && |t| <= decimals
    ensures AllDigits(PadEnd(t, decimals))
    ensures ParseAmount(Plain(w, t), decimals)
            == Ok(ParseNat(w) * Pow10(decimals) + ParseNat(PadEnd(t, decimals)))
  {
    hide Trim, IndexOf, ParseNat, Pow10, Plain, AllDigits, IsDigit;
    PadEndDigits(t, decimals);
    PlainShape(w, t);
  }

  /** Reading a formatted non-negative amount gives the amount rounded down to the shown precision. */
  lemma PrecisionTruncates(a: nat, decimals: nat, precision: nat)
    ensures FormatAmount(a, Options(Some(decimals), Some(precision), false)).Ok?
    ensures ParseAmount(FormatAmount(a, Options(Some(decimals), Some(precision), false)).value, decimals)
            == Ok(a - Remainder(a, Pow10(if precision < decimals then decimals - precision else 0)))
  {
    hide FormatAmount, ParseAmount, FractionDigits, Plain, ParseNat, Pow10, Quotient, Remainder, PadEnd;
    var q, f := Quotient(a, Pow10(decimals)), Remainder(a, Pow10(decimals));
    var t := FractionDigits(f, decimals, precision);
    FormatIsPlain(a, decimals, precision);
    FractionReadsBack(f, decimals, precision);
    ParsePlain(NatToString(q), t, decimals);
    ParseNatToString(q);
    KeptDigits(a, decimals, precision);
  }

  lemma FormatIsPlain(a: nat, decimals: nat, precision: nat)
    ensures FormatAmount(a, Options(Some(decimals), Some(precision), false))
            == Ok(Plain(NatToString(Quotient(a, Pow10(decimals))),
                        FractionDigits(Remainder(a, Pow10(decimals)), decimals, precision)))
  {
    hide NatToString, StripZeros, Pow10, PadStart, Quotient, Remainder;
    var w := NatToString(Quotient(a, Pow10(decimals)));
    assert "" + w == w;
  }

  lemma FormatIsGrouped(a: nat, decimals: nat, precision: nat)
    ensures FormatAmount(a, Options(Some(decimals), Some(precision), true))
            == Ok(Plain(Group(NatToString(Quotient(a, Pow10(decimals)))),
                        FractionDigits(Remainder(a, Pow10(decimals)), decimals, precision)))
  {
    hide NatToString, StripZeros, Pow10, PadStart, Quotient, Remainder, Group;
    var w := Group(NatToString(Quotient(a, Pow10(decimals))));
    assert "" + w == w;
  }

  lemma KeptDigits(a: nat, decimals: nat, precision: nat)
    ensures var k := if precision < decimals then decimals - precision else 0;
            var q, f := Quotient(a, Pow10(decimals)), Remainder(a, Pow10(decimals));
            q * Pow10(decimals) + (f - Remainder(f, Pow10(k))) == a - Remainder(a, Pow10(k))
  {
    var k := if precision < decimals then decimals - precision else 0;
    Pow10Add(decimals - k, k);
    hide Pow10;
    LowDigits(a, Pow10(decimals - k), Pow10(k));
    DivMod(a, Pow10(decimals));
  }

  /** The last k digits of a are those of a mod 10^d when k <= d. */
  lemma LowDigits(a: nat, p: nat, q: nat)
    requires p > 0 && q > 0 && p * q > 0
    ensures Remainder(Remainder(a, p * q), q) == Remainder(a, q)
  {
    var r, m := Remainder(a, p * q), Quotient(a, p * q);
    var s, t := Quotient(r, q), Remainder(r, q);
    DivMod(a, p * q);
    DivMod(r, q);
    hide Quotient, Remainder;
    MulAssoc(m, p, q);
    Distribute(m * p, s, q);
    RemainderOfSum(m * p + s, q, t);
  }

  /** Formatting with the defaults and parsing back is exact, for every amount and every scale. */
  lemma FormatThenParse(a: nat, decimals: nat)
    ensures FormatAmount(a, Options(Some(decimals), None, false)).Ok?
    ensures ParseAmount(FormatAmount(a, Options(Some(decimals), None, false)).value, decimals) == Ok(a)
  {
    hide ParseAmount, FormatAmount;
    PrecisionTruncates(a, decimals, decimals);
    DefaultPrecision(a, decimals);
    assert Pow10(0) == 1;
  }

  lemma DefaultPrecision(a: int, decimals: nat)
    ensures FormatAmount(a, Options(Some(decimals), None, false))
         == FormatAmount(a, Options(Some(decimals), Some(decimals), false))
  {
    hide ParseAmount, Pow10, NatToString, StripZeros, PadStart, Quotient, Remainder;
  }

  // ---------- the canonical form ----------

  /** Digits without superfluous zeros: none in front of the integer part, none ending the fraction. */
  predicate Canonical(s: string) {
    var dot := IndexOf(s, '.');
    && Trim(s) == s
    && CanonicalNumeral(s[..dot])
    && (dot < |s| ==> s[|s| - 1] != '0')
  }

  /** Fixed-width numerals are determined by their value. */
  lemma {:induction false} SameWidthSameValue(s: string, t: string)
    requires AllDigits(s) && AllDigits(t) && |s| == |t| && ParseNat(s) == ParseNat(t)
    ensures s == t
  {
    if s == "" {
      assert t == "";
    } else {
      var n := |s| - 1;
      assert ParseNat(s) == 10 * ParseNat(s[..n]) + DigitValue(s[n]);
      assert ParseNat(t) == 10 * ParseNat(t[..n]) + DigitValue(t[n]);
      hide ParseNat;
      LastDigit(ParseNat(s[..n]), DigitValue(s[n]), ParseNat(t[..n]), DigitValue(t[n]));
      SameWidthSameValue(s[..n], t[..n]);
      assert s == s[..n] + [s[n]] && t == t[..n] + [t[n]];
    }
  }

  lemma LastDigit(a: nat, x: nat, b: nat, y: nat)
    requires x < 10 && y < 10 && 10 * a + x == 10 * b + y
    ensures a == b && x == y
  {
  }

  lemma {:induction false} PadThenStrip(t: string, k: nat)
    requires t != "" ==> t[|t| - 1] != '0'
    ensures StripZeros(t + Zeros(k)) == t
  {
    if k == 0 {
      assert t + Zeros(0) == t;
      assert t != "" || StripZeros(t) == "";
    } else {
      PadThenStrip(t, k - 1);
      assert (t + Zeros(k))[..|t| + k - 1] == t + Zeros(k - 1);
    }
  }

  /** The fraction of a canonical text is printed as it was read. */
  lemma FractionPrintsBack(t: string, decimals: nat)
    requires AllDigits(t) && |t| <= decimals && (t != "" ==> t[|t| - 1] != '0')
    ensures AllDigits(PadEnd(t, decimals)) && ParseNat(PadEnd(t, decimals)) < Pow10(decimals)
    ensures FractionDigits(ParseNat(PadEnd(t, decimals)), decimals, decimals) == t
  {
    hide ParseNat, Pow10, NatToString, StripZeros, PadStart, PadEnd;
    var u := PadEnd(t, decimals);
    PadEndDigits(t, decimals);
    ParseNatBound(u);
    if decimals == 0 {
      NoFraction(ParseNat(u), 0);
    } else {
      PadStartParses(ParseNat(u), decimals);
      SameWidthSameValue(PadStart(NatToString(ParseNat(u)), decimals), u);
      PaddedIsZeros(t, decimals);
      PadThenStrip(t, decimals - |t|);
    }
  }

  lemma PaddedIsZeros(t: string, decimals: nat)
    requires |t| <= decimals
    ensures PadEnd(t, decimals) == t + Zeros(decimals - |t|)
  {
    assert t + Zeros(0) == t;
  }

  /** What an accepted text consists of. */
  lemma AcceptedShape(s: string, decimals: nat) returns (w: string, t: string)
    requires ParseAmount(s, decimals).Ok?
    ensures w != "" && AllDigits(w) && AllDigits(t) && |t| <= decimals && Trim(s) == Plain(w, t)
    ensures AllDigits(PadEnd(t, decimals))
    ensures ParseAmount(s, decimals) == Ok(ParseNat(w) * Pow10(decimals) + ParseNat(PadEnd(t, decimals)))
  {
    hide Trim, ParseNat, Pow10, PadEnd, IsDigit;
    var u := Trim(s);
    w, t := u[..IndexOf(u, '.')], FractionOf(u);
    DecimalParts(u);
    PadEndDigits(t, decimals);
  }

  function FractionOf(u: string): string {
    var dot := IndexOf(u, '.');
    if dot == |u| then "" else u[dot + 1..]
  }

  /** The two parts of a decimal text. */
  lemma DecimalParts(u: string)
    requires IsDecimalText(u)
    ensures var w, t := u[..IndexOf(u, '.')], FractionOf(u);
            w != "" && AllDigits(w) && AllDigits(t) && u == Plain(w, t)
  {
    hide IsDigit;
    var dot := IndexOf(u, '.');
    if dot < |u| {
      assert u == u[..dot] + "." + u[dot + 1..];
    } else {
      assert u[..dot] == u;
    }
  }

  /** What `FormatAmount` writes at the default precision is canonical. */
  lemma FormatIsCanonical(a: nat, decimals: nat)
    ensures FormatAmount(a, Options(Some(decimals), None, false)).Ok?
    ensures Canonical(FormatAmount(a, Options(Some(decimals), None, false)).value)
  {
    hide ParseNat, Pow10, NatToString, FractionDigits, FormatAmount, Trim, IndexOf, Quotient, Remainder;
    var q, f := Quotient(a, Pow10(decimals)), Remainder(a, Pow10(decimals));
    var t := FractionDigits(f, decimals, decimals);
    DefaultPrecision(a, decimals);
    FormatIsPlain(a, decimals, decimals);
    FractionReadsBack(f, decimals, decimals);
    NatToStringCanonical(q);
    PlainShape(NatToString(q), t);
  }

  /** Of the texts `ParseAmount` accepts, exactly the canonical ones are what `FormatAmount`
      writes for the value read. */
  lemma PrintsBackIffCanonical(s: string, decimals: nat)
    requires ParseAmount(s, decimals).Ok?
    ensures FormatAmount(ParseAmount(s, decimals).value, Options(Some(decimals), None, false)) == Ok(s)
            <==> Canonical(s)
  {
    hide FormatAmount, ParseAmount, Canonical;
    var a := ParseAmount(s, decimals).value;
    FormatIsCanonical(a, decimals);
    if Canonical(s) { CanonicalPrintsBack(s, decimals); }
  }

  lemma CanonicalPrintsBack(s: string, decimals: nat)
    requires ParseAmount(s, decimals).Ok? && Canonical(s)
    ensures FormatAmount(ParseAmount(s, decimals).value, Options(Some(decimals), None, false)) == Ok(s)
  {
    hide ParseNat, Pow10, NatToString, FractionDigits, FormatAmount, ParseAmount, Trim, IndexOf, Quotient, Remainder,
        PadEnd, Plain;
    var a := ParseAmount(s, decimals).value;
    var w, t := AcceptedShape(s, decimals);
    PlainShape(w, t);
    assert t != "" ==> t[|t| - 1] == s[|s| - 1];
    FractionPrintsBack(t, decimals);
    RemainderOfSum(ParseNat(w), Pow10(decimals), ParseNat(PadEnd(t, decimals)));
    CanonicalNumeralPrints(w);
    DefaultPrecision(a, decimals);
    FormatIsPlain(a, decimals, decimals);
  }

  /** Formatting what was read gives a canonical text with the same value, which formatting and
      parsing leave alone. */
  lemma CanonicalForm(s: string, decimals: nat)
    requires ParseAmount(s, decimals).Ok?
    ensures var c := FormatAmount(ParseAmount(s, decimals).value, Options(Some(decimals), None, false));
            && c.Ok? && Canonical(c.value)
            && ParseAmount(c.value, decimals) == ParseAmount(s, decimals)
            && FormatAmount(ParseAmount(c.value, decimals).value, Options(Some(decimals), None, false)) == c
  {
    hide FormatAmount, ParseAmount, Canonical;
    FormatIsCanonical(ParseAmount(s, decimals).value, decimals);
    FormatThenParse(ParseAmount(s, decimals).value, decimals);
  }

  // ---------- when formatting can be read back ----------

  lemma {:induction false} GroupShape(w: string)
    requires w != "" && AllDigits(w)
    ensures Group(w) != "" && Group(w)[0] == w[0] && Group(w)[|Group(w)| - 1] == w[|w| - 1]
    ensures forall i :: 0 <= i < |Group(w)| ==> IsDigit(Group(w)[i]) || Group(w)[i] == ','
    ensures ',' in Group(w) <==> |w| > 3
  {
    if |w| > 3 {
      GroupShape(w[..|w| - 3]);
      var head := Group(w[..|w| - 3]);
      assert Group(w)[|head|] == ',';
      assert Group(w)[|Group(w)| - 1] == w[|w| - 3..][2];
    }
  }

  /** Taking the commas out undoes the grouping. */
  function WithoutCommas(s: string): string {
    if s == "" then "" else WithoutCommas(s[..|s| - 1]) + (if s[|s| - 1] == ',' then "" else [s[|s| - 1]])
  }

  lemma {:induction false} WithoutCommasConcat(s: string, t: string)
    ensures WithoutCommas(s + t) == WithoutCommas(s) + WithoutCommas(t)
  {
    if t == "" {
      assert s + t == s;
    } else {
      assert (s + t)[..|s + t| - 1] == s + t[..|t| - 1];
      WithoutCommasConcat(s, t[..|t| - 1]);
    }
  }

  lemma {:induction false} DigitsHaveNoCommas(s: string)
    requires AllDigits(s)
    ensures WithoutCommas(s) == s
  {
    if s != "" {
      DigitsHaveNoCommas(s[..|s| - 1]);
      assert s == s[..|s| - 1] + [s[|s| - 1]];
    }
  }

  lemma CommaDisappears(head: string, tail: string)
    ensures WithoutCommas(head + "," + tail) == WithoutCommas(head) + WithoutCommas(tail)
  {
    WithoutCommasConcat(head + ",", tail);
    WithoutCommasConcat(head, ",");
    assert WithoutCommas(",") == "" by { assert ","[..0] == ""; }
    hide WithoutCommas;
    assert WithoutCommas(head) + "" == WithoutCommas(head);
  }

  lemma {:induction false} GroupOnlyInsertsCommas(w: string)
    requires AllDigits(w)
    ensures WithoutCommas(Group(w)) == w
  {
    hide WithoutCommas;
    if |w| <= 3 {
      DigitsHaveNoCommas(w);
    } else {
      var head, tail := w[..|w| - 3], w[|w| - 3..];
      assert Group(w) == Group(head) + "," + tail;
      hide Group;
      GroupOnlyInsertsCommas(head);
      DigitsHaveNoCommas(tail);
      CommaDisappears(Group(head), tail);
      assert head + tail == w;
    }
  }

  /** A whole part has more than three digits exactly when it is at least a thousand. */
  lemma ThousandsNeedFourDigits(n: nat)
    ensures |NatToString(n)| > 3 <==> n >= 1000
  {
    assert Pow10(3) == 1000 && Pow10(2) == 100 && Pow10(1) == 10 && Pow10(0) == 1;
    ParseNatToString(n);
    ParseNatBound(NatToString(n));
    hide NatToString, ParseNat;
    if n < 1000 { NumeralLength(n, 3); }
  }

  lemma CommaIsNoDecimal(g: string, t: string, i: nat)
    requires i < |g| && g[i] == ',' && forall j :: 0 <= j < |g| ==> g[j] != '.'
    ensures !IsDecimalText(Plain(g, t))
  {
    var s := Plain(g, t);
    assert forall j :: 0 <= j < |g| ==> s[j] == g[j];
    var dot := IndexOf(s, '.');
    assert s[..dot][i] == ',';
  }

  /** A text with a comma in its integer part is refused. */
  lemma GroupedIsRefused(w: string, t: string, decimals: nat)
    requires AllDigits(w) && |w| > 3 && AllDigits(t)
    ensures ParseAmount(Plain(Group(w), t), decimals) == Err(BadCharacters)
  {
    GroupShape(w);
    hide Group, Trim, ParseNat, Pow10, IsDecimalText;
    var g := Group(w);
    var i :| 0 <= i < |g| && g[i] == ',';
    CommaIsNoDecimal(g, t, i);
    EndsInDigits(g, t);
  }

  lemma EndsInDigits(g: string, t: string)
    requires g != "" && IsDigit(g[0]) && IsDigit(g[|g| - 1]) && AllDigits(t)
    ensures var s := Plain(g, t); s != "" && s[0] != '-' && Trim(s) == s
  {
    hide Trim;
    var s := Plain(g, t);
    assert s[0] == g[0] && IsDigit(s[|s| - 1]);
    TrimKeeps(s);
  }

  /** Grouping keeps every digit in place, and reading back needs a whole part below a thousand. */
  lemma GroupedReadsBack(a: nat, decimals: nat, precision: nat)
    ensures var plain, grouped := FormatAmount(a, Options(Some(decimals), Some(precision), false)),
                                  FormatAmount(a, Options(Some(decimals), Some(precision), true));
            && plain.Ok? && grouped.Ok?
            && WithoutCommas(grouped.value) == plain.value
            && ParseAmount(grouped.value, decimals)
               == if a < 1000 * Pow10(decimals) then ParseAmount(plain.value, decimals) else Err(BadCharacters)
  {
    hide FormatAmount, ParseAmount, FractionDigits, ParseNat, Pow10, Quotient, Remainder, NatToString;
    var q, f := Quotient(a, Pow10(decimals)), Remainder(a, Pow10(decimals));
    var w, t := NatToString(q), FractionDigits(f, decimals, precision);
    FormatIsPlain(a, decimals, precision);
    FormatIsGrouped(a, decimals, precision);
    FractionReadsBack(f, decimals, precision);
    ThousandsNeedFourDigits(q);
    GroupShape(w);
    BelowThousand(a, Pow10(decimals));
    if q >= 1000 { GroupedIsRefused(w, t, decimals); }
    CommasOut(w, t);
  }

  lemma CommasOut(w: string, t: string)
    requires AllDigits(w) && AllDigits(t)
    ensures WithoutCommas(Plain(Group(w), t)) == Plain(w, t)
  {
    GroupOnlyInsertsCommas(w);
    DigitsHaveNoCommas(t);
    WithoutCommasConcat(Group(w) + ".", t);
    WithoutCommasConcat(Group(w), ".");
    assert WithoutCommas(".") == "." by { assert "."[..0] == ""; }
  }

  lemma BelowThousand(a: nat, p: nat)
    requires p > 0
    ensures Quotient(a, p) < 1000 <==> a < 1000 * p
  {
    DivMod(a, p);
    var q := Quotient(a, p);
    hide Quotient, Remainder;
    if q < 1000 { MulMonotone(q, 999, p); } else { MulMonotone(1000, q, p); }
  }

  /** A formatted negative amount is always refused, whatever the options. */
  lemma NegativeIsRefused(a: int, decimals: nat, precision: nat, group: bool)
    requires a < 0
    ensures var text := FormatAmount(a, Options(Some(decimals), Some(precision), group));
            text.Ok? && text.value[..1] == "-" && ParseAmount(text.value, decimals) == Err(Negative)
  {
    hide NatToString, Pow10, Quotient, Remainder, FractionDigits, FormatAmount, ParseAmount, AllDigits;
    var q, f := Quotient(-a, Pow10(decimals)), Remainder(-a, Pow10(decimals));
    var w, t := NatToString(q), FractionDigits(f, decimals, precision);
    FractionReadsBack(f, decimals, precision);
    NegativeText(a, decimals, precision, group);
    MinusIsRefused(w, t, group, decimals);
  }

  lemma MinusIsRefused(w: string, t: string, group: bool, decimals: nat)
    requires w != "" && AllDigits(w) && AllDigits(t)
    ensures var g := if group then Group(w) else w;
            var text := if |t| > 0 then "-" + g + "." + t else "-" + g;
            text[..1] == "-" && ParseAmount(text, decimals) == Err(Negative)
  {
    hide Trim, ParseNat, Pow10, IsDecimalText;
    GroupShape(w);
    hide Group;
    var g := if group then Group(w) else w;
    var text := if |t| > 0 then "-" + g + "." + t else "-" + g;
    assert text[0] == '-' && IsDigit(text[|text| - 1]);
    TrimKeeps(text);
  }

  lemma NegativeText(a: int, decimals: nat, precision: nat, group: bool)
    requires a < 0
    ensures var w := NatToString(Quotient(-a, Pow10(decimals)));
            var g := if group then Group(w) else w;
            var t := FractionDigits(Remainder(-a, Pow10(decimals)), decimals, precision);
            FormatAmount(a, Options(Some(decimals), Some(precision), group))
            == Ok(if |t| > 0 then "-" + g + "." + t else "-" + g)
  {
    hide NatToString, PadStart, StripZeros, Pow10, Quotient, Remainder, Group;
  }

  /** `ParseAmount` inverts `FormatAmount` exactly on the amounts that are not negative, lose no
      digit to the precision, and are not given a comma. */
  lemma ReadsBackIff(a: int, decimals: nat, precision: nat, group: bool)
    ensures var text := FormatAmount(a, Options(Some(decimals), Some(precision), group));
            && text.Ok?
            && (var back := ParseAmount(text.value, decimals); back.Ok? && back.value == a <==>
                && a >= 0
                && Remainder(a, Pow10(if precision < decimals then decimals - precision else 0)) == 0
                && (group ==> a < 1000 * Pow10(decimals)))
  {
    hide FormatAmount, ParseAmount, Pow10;
    if a < 0 {
      NegativeIsRefused(a, decimals, precision, group);
    } else {
      GroupedReadsBack(a, decimals, precision);
      PrecisionTruncates(a, decimals, precision);
    }
  }

  // ---------- where the commas are, and which texts are accepted ----------

  /** The character `k` places from the right is a comma. */
  predicate CommaAt(g: string, k: nat)
    requires k < |g|
  {
    g[|g| - 1 - k] == ','
  }

  /** Counted from the right, every fourth character of a grouped numeral is a comma and no other. */
  lemma {:induction false} CommaPlaces(w: string)
    requires w != "" && AllDigits(w)
    ensures forall k: nat :: k < |Group(w)| ==> (CommaAt(Group(w), k) <==> k % 4 == 3)
  {
    if |w| > 3 {
      var head, tail := Group(w[..|w| - 3]), w[|w| - 3..];
      CommaPlaces(w[..|w| - 3]);
      assert Group(w) == head + "," + tail;
      forall k: nat | k < |Group(w)| ensures CommaAt(Group(w), k) <==> k % 4 == 3 {
        if k > 3 {
          assert CommaAt(head, k - 4) <==> (k - 4) % 4 == 3;
        } else if k < 3 {
          assert IsDigit(tail[2 - k]);
        }
      }
    }
  }

  lemma {:induction false} StripStartTakes(s: string) returns (dropped: string)
    ensures s == dropped + StripStart(s, IsTrimmed)
    ensures forall i :: 0 <= i < |dropped| ==> IsTrimmed(dropped[i])
    ensures var kept := StripStart(s, IsTrimmed); kept != "" ==> !IsTrimmed(kept[0])
  {
    hide IsTrimmed;
    if s != "" && IsTrimmed(s[0]) {
      dropped := StripStartTakes(s[1..]);
      dropped := [s[0]] + dropped;
    } else {
      dropped := "";
    }
  }

  lemma {:induction false} StripEndTakes(s: string) returns (dropped: string)
    ensures s == StripEnd(s, IsTrimmed) + dropped
    ensures forall i :: 0 <= i < |dropped| ==> IsTrimmed(dropped[i])
    ensures var kept := StripEnd(s, IsTrimmed);
            kept != "" ==> kept[0] == s[0] && !IsTrimmed(kept[|kept| - 1])
  {
    hide IsTrimmed;
    if s != "" && IsTrimmed(s[|s| - 1]) {
      dropped := StripEndTakes(s[..|s| - 1]);
      dropped := dropped + [s[|s| - 1]];
      assert s == s[..|s| - 1] + [s[|s| - 1]];
    } else {
      dropped := "";
    }
  }

  /** What is trimmed is white space at both ends, all of it. */
  lemma TrimTakes(s: string) returns (front: string, back: string)
    ensures s == front + Trim(s) + back
    ensures forall i :: 0 <= i < |front| ==> IsTrimmed(front[i])
    ensures forall i :: 0 <= i < |back| ==> IsTrimmed(back[i])
    ensures Trim(s) != "" ==> !IsTrimmed(Trim(s)[0]) && !IsTrimmed(Trim(s)[|Trim(s)| - 1])
  {
    hide IsTrimmed, StripStart, StripEnd;
    front := StripStartTakes(s);
    back := StripEndTakes(StripStart(s, IsTrimmed));
  }

  /** The trimmed text is digits, or digits on both sides of one point. */
  predicate Shaped(u: string, w: string, t: string) {
    w != "" && AllDigits(w) && AllDigits(t) && u == Plain(w, t)
  }

  lemma ShapedIsDecimal(u: string, w: string, t: string)
    requires Shaped(u, w, t)
    ensures IsDecimalText(u) && u[..IndexOf(u, '.')] == w && FractionOf(u) == t && u != "" && u[0] != '-'
  {
    hide Trim, IsDigit;
    PlainShape(w, t);
  }

  /** Which texts are refused, and why: nothing is accepted but digits, or digits on both sides of
      one point with no more behind it than the token has decimals. */
  lemma AcceptedIff(s: string, decimals: int)
    ensures var r, u := ParseAmount(s, decimals), Trim(s);
            && (r == Err(NegativeDecimals) <==> decimals < 0)
            && (decimals >= 0 ==>
                  && (r == Err(Empty) <==> u == "")
                  && (r == Err(Negative) <==> u != "" && u[0] == '-')
                  && (r.Ok? <==> exists w, t :: Shaped(u, w, t) && |t| <= decimals)
                  && (r == Err(TooPrecise) <==> exists w, t :: Shaped(u, w, t) && |t| > decimals))
  {
    hide Trim, ParseNat, Pow10, PadEnd, AllDigits, Plain;
    var u := Trim(s);
    if IsDecimalText(u) {
      DecimalParts(u);
      assert Shaped(u, u[..IndexOf(u, '.')], FractionOf(u));
    }
    forall w, t | Shaped(u, w, t)
      ensures IsDecimalText(u) && w == u[..IndexOf(u, '.')] && t == FractionOf(u) && u != "" && u[0] != '-'
    {
      ShapedIsDecimal(u, w, t);
    }
  }

  /** Formatting fails exactly for negative options, and counts seven decimals by default. */
  lemma FormatOptions(a: int, options: Options)
    ensures FormatAmount(a, options).Ok?
            <==> (options.decimals.Some? ==> options.decimals.value >= 0)
                 && (options.precision.Some? ==> options.precision.value >= 0)
    ensures options.decimals.None? ==> FormatAmount(a, options) == FormatAmount(a, options.(decimals := Some(7)))
    ensures options.precision.None? && options.decimals.Some? ==>
              FormatAmount(a, options) == FormatAmount(a, options.(precision := options.decimals))
  {
    hide Pow10, NatToString, StripZeros, PadStart, Quotient, Remainder, Group;
  }
}
