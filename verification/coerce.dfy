/** Normalising extracted values toward their declared type. */
module Coerce {
  import opened Common
  import opened Lineage

  /** A JSON value: null, a string, or anything else by what `str()` prints for it. */
  datatype Value = Null | Str(text: string) | Other(repr: string)

  /** An exact decimal: `whole` without leading zeros, `fraction` with all its digits. */
  datatype Dec = Dec(negative: bool, whole: string, fraction: string)

  predicate IsDigit(c: char) { '0' <= c <= '9' }

  predicate AllDigits(s: string) {
    forall i :: 0 <= i < |s| ==> IsDigit(s[i])
  }

  predicate IsNumeric(c: char) {
    IsDigit(c) || c == '.' || c == ',' || c == '-' || c == '+'
  }

  function KeepNumeric(s: string): string {
    if s == "" then "" else (if IsNumeric(s[0]) then [s[0]] else "") + KeepNumeric(s[1..])
  }

  function RemoveCommas(s: string): string {
    if s == "" then "" else (if s[0] == ',' then "" else [s[0]]) + RemoveCommas(s[1..])
  }

  function CommasToDots(s: string): (r: string)
    ensures |r| == |s|
  {
    seq(|s|, i requires 0 <= i < |s| => if s[i] == ',' then '.' else s[i])
  }

  /** Up to three digits, then any number of groups of a comma and three digits. */
  predicate Groups(s: string) {
    if |s| <= 3 then s != "" && AllDigits(s)
    else s[|s| - 4] == ',' && AllDigits(s[|s| - 3..]) && Groups(s[..|s| - 4])
  }

  /** `^\d{1,3}(,\d{3})+$` */
  predicate IsThousands(s: string) {
    |s| > 3 && Groups(s)
  }

  function StripPlus(s: string): string {
    if s != "" && s[0] == '+' then StripPlus(s[1..]) else s
  }

  function StripZeros(s: string): string {
    if s != "" && s[0] == '0' then StripZeros(s[1..]) else s
  }

  /** Position of the first dot, or the length. */
  function DotAt(s: string): (i: nat)
    ensures i <= |s|
    ensures forall k :: 0 <= k < i ==> s[k] != '.'
    ensures i < |s| ==> s[i] == '.'
  {
    if s == "" || s[0] == '.' then 0 else 1 + DotAt(s[1..])
  }

  /** An unsigned decimal: digits around at most one dot, not all missing. */
  function ParseBody(negative: bool, body: string): Option<Dec> {
    var i := DotAt(body);
    var whole := body[..i];
    var fraction := if i < |body| then body[i + 1..] else "";
    if AllDigits(whole) && AllDigits(fraction) && whole + fraction != "" then
      Some(Dec(negative, StripZeros(whole), fraction))
    else None
  }

  /** `Decimal(text)` on a text of digits, dots and signs that does not start with '+'. */
  function ParseDecimal(text: string): Option<Dec> {
    if text != "" && text[0] == '-' then ParseBody(true, text[1..]) else ParseBody(false, text)
  }

  predicate Positive(d: Dec) {
    !d.negative && StripZeros(d.whole + d.fraction) != ""
  }

  /** Unary minus rounds to the context's 28 significant digits; how is left open. */
  function Negated(d: Dec, rounding: Dec -> Dec): Dec {
    if |StripZeros(d.whole + d.fraction)| <= 28 then d.(negative := true) else rounding(d)
  }

  /** With a dot, commas group thousands; alone they do so only in the grouped
      pattern, and are decimal commas otherwise. */
  function Unpunctuated(text: string): string {
    if ',' in text && '.' in text then RemoveCommas(text)
    else if ',' in text then (if IsThousands(text) then RemoveCommas(text) else CommasToDots(text))
    else text
  }

  function ToDecimal(raw: string, rounding: Dec -> Dec): Option<Dec> {
    var text := KeepNumeric(Strip(raw));
    if text == "" then None
    else
      var stripped := Strip(raw);
      var negative := stripped != "" && stripped[0] == '(' && stripped[|stripped| - 1] == ')';
      match ParseDecimal(StripPlus(Unpunctuated(text)))
      case None => None
      case Some(d) => Some(if negative && Positive(d) then Negated(d, rounding) else d)
  }

  /** `format(value, "f")` */
  function Format(d: Dec): string {
    (if d.negative then "-" else "") + (if d.whole == "" then "0" else d.whole)
      + (if d.fraction == "" then "" else "." + d.fraction)
  }

  /** `str(int(value))` */
  function IntText(d: Dec): string {
    if d.whole == "" then "0" else (if d.negative then "-" else "") + d.whole
  }

  predicate IsIntegral(d: Dec) {
    StripZeros(d.fraction) == ""
  }

  function CoerceNumber(raw: string, rounding: Dec -> Dec): Option<string> {
    match ToDecimal(raw, rounding)
    case None => None
    case Some(d) => Some(Format(d))
  }

  function CoerceInteger(raw: string, rounding: Dec -> Dec): Option<string> {
    match ToDecimal(raw, rounding)
    case None => None
    case Some(d) => if IsIntegral(d) then Some(IntText(d)) else None
  }

  const TRUE_WORDS := {"true", "t", "yes", "y", "1", "paid", "on"}
  const FALSE_WORDS := {"false", "f", "no", "n", "0", "unpaid", "off"}

  function CoerceBoolean(raw: string): Option<string> {
    var text := Lower(Strip(raw));
    if text in TRUE_WORDS then Some("true") else if text in FALSE_WORDS then Some("false") else None
  }

  function Coercer(raw: string, typ: string, rounding: Dec -> Dec): Option<string> {
    if typ == "number" then CoerceNumber(raw, rounding)
    else if typ == "integer" then CoerceInteger(raw, rounding)
    else CoerceBoolean(raw)
  }

  function CoerceValue(value: Value, typ: string, rounding: Dec -> Dec): Value {
    if typ !in {"number", "integer", "boolean"} || value.Null? then value
    else
      var raw := if value.Str? then value.text else value.repr;
      if Strip(raw) == "" then Null
      else
        var coerced := Coercer(raw, typ, rounding);
        if coerced.Some? && coerced.value != "" then Str(coerced.value) else value
  }

  function TypesByName(fields: seq<Field>): map<string, string> {
    if fields == [] then map[]
    else TypesByName(fields[..|fields| - 1])[fields[|fields| - 1].name := fields[|fields| - 1].typ]
  }

  function TypeOf(fields: seq<Field>, name: string): string {
    if name in TypesByName(fields) then TypesByName(fields)[name] else "string"
  }

  function CoerceExtracted(fields: seq<Field>, values: map<string, Value>, rounding: Dec -> Dec): map<string, Value> {
    map name | name in values :: CoerceValue(values[name], TypeOf(fields, name), rounding)
  }

  /* ---- Printed decimals parse back to themselves ---- */

  predicate Canonical(d: Dec) {
    AllDigits(d.whole) && AllDigits(d.fraction) && StripZeros(d.whole) == d.whole
  }

  lemma {:induction false} StripZerosDigits(s: string)
    requires AllDigits(s)
    ensures AllDigits(StripZeros(s)) && StripZeros(StripZeros(s)) == StripZeros(s)
  {
    if s != "" && s[0] == '0' {
      assert forall i :: 0 <= i < |s| - 1 ==> s[1..][i] == s[i + 1];
      StripZerosDigits(s[1..]);
    }
  }

  lemma DotAtUnique(s: string, i: nat)
    requires i <= |s| && (forall k :: 0 <= k < i ==> s[k] != '.') && (i < |s| ==> s[i] == '.')
    ensures DotAt(s) == i
  {
  }

  lemma {:induction false} KeepAll(s: string)
    requires forall i :: 0 <= i < |s| ==> IsNumeric(s[i])
    ensures KeepNumeric(s) == s
  {
    if s != "" {
      var rest := s[1..];
      assert IsNumeric(s[0]);
      hide IsNumeric;
      forall i | 0 <= i < |rest| ensures IsNumeric(rest[i]) { assert rest[i] == s[i + 1]; }
      KeepAll(rest);
      assert [s[0]] + rest == s;
    }
  }

  function Tail(fraction: string): string {
    if fraction == "" then "" else "." + fraction
  }

  lemma DotSplits(whole: string, fraction: string)
    requires AllDigits(whole)
    ensures var body := whole + Tail(fraction); var i := DotAt(body);
            i == |whole| && body[..i] == whole && (if i < |body| then body[i + 1..] else "") == fraction
  {
    var body := whole + Tail(fraction);
    assert forall k :: 0 <= k < |whole| ==> body[k] == whole[k];
    DotAtUnique(body, |whole|);
    if fraction != "" { assert body[|whole| + 1..] == fraction; }
  }

  lemma ParseBodyParts(negative: bool, whole: string, fraction: string)
    requires AllDigits(whole) && AllDigits(fraction) && whole != ""
    ensures ParseBody(negative, whole + Tail(fraction)) == Some(Dec(negative, StripZeros(whole), fraction))
  {
    hide StripZeros, DotAt, AllDigits, Tail;
    DotSplits(whole, fraction);
  }

  lemma ParseSigned(negative: bool, body: string)
    requires body != "" && body[0] != '-'
    ensures ParseDecimal((if negative then "-" else "") + body) == ParseBody(negative, body)
  {
    hide ParseBody;
    if negative {
      assert ("-" + body)[1..] == body;
    } else {
      assert "" + body == body;
    }
  }

  lemma SignFirst(sign: string, whole: string, tail: string)
    ensures sign + whole + tail == sign + (whole + tail)
  {
  }

  lemma DigitFirst(whole: string, tail: string)
    requires AllDigits(whole) && whole != ""
    ensures whole + tail != "" && (whole + tail)[0] != '-'
  {
    assert IsDigit(whole[0]) && (whole + tail)[0] == whole[0];
  }

  lemma ParseParts(negative: bool, whole: string, fraction: string)
    requires AllDigits(whole) && AllDigits(fraction) && whole != ""
    ensures ParseDecimal((if negative then "-" else "") + whole + Tail(fraction))
         == Some(Dec(negative, StripZeros(whole), fraction))
  {
    hide *;
    DigitFirst(whole, Tail(fraction));
    ParseBodyParts(negative, whole, fraction);
    ParseSigned(negative, whole + Tail(fraction));
    SignFirst(if negative then "-" else "", whole, Tail(fraction));
  }

  lemma ParseFormat(d: Dec)
    requires Canonical(d)
    ensures ParseDecimal(Format(d)) == Some(d)
  {
    hide ParseDecimal, DotAt;
    ParseParts(d.negative, if d.whole == "" then "0" else d.whole, d.fraction);
    assert "0"[1..] == "" && StripZeros("0") == "";
  }

  lemma NumericIsVisible(s: string)
    requires s != "" && forall i :: 0 <= i < |s| ==> IsNumeric(s[i])
    ensures Strip(s) == s && s[0] != '('
  {
    VisibleIsNotSpace(s[0]);
    VisibleIsNotSpace(s[|s| - 1]);
    StripTrims(s);
  }

  lemma FormatChars(d: Dec)
    requires Canonical(d)
    ensures Format(d) != ""
    ensures forall c :: c in Format(d) ==> IsNumeric(c) && c != ',' && c != '+'
    ensures forall i :: 0 <= i < |Format(d)| ==> IsNumeric(Format(d)[i])
  {
  }

  lemma ToDecimalOfFormat(d: Dec, rounding: Dec -> Dec)
    requires Canonical(d)
    ensures ToDecimal(Format(d), rounding) == Some(d)
  {
    hide Format, Canonical, Strip, KeepNumeric, ParseDecimal;
    FormatChars(d);
    var text := Format(d);
    NumericIsVisible(text);
    KeepAll(text);
    assert ',' !in text && text[0] != '+';
    assert StripPlus(text) == text;
    ParseFormat(d);
  }

  lemma IntTextIsFormat(d: Dec)
    requires Canonical(d)
    ensures var i := Dec(d.negative && d.whole != "", d.whole, "");
            Canonical(i) && IntText(d) == Format(i) && IntText(i) == IntText(d) && IsIntegral(i)
  {
  }

  lemma ParseBodyCanonical(negative: bool, body: string)
    requires ParseBody(negative, body).Some?
    ensures Canonical(ParseBody(negative, body).value)
  {
    StripZerosDigits(body[..DotAt(body)]);
  }

  ghost predicate RoundsToDecimals(rounding: Dec -> Dec) {
    forall d :: Canonical(d) ==> Canonical(rounding(d))
  }

  lemma ToDecimalCanonical(raw: string, rounding: Dec -> Dec)
    requires RoundsToDecimals(rounding) && ToDecimal(raw, rounding).Some?
    ensures Canonical(ToDecimal(raw, rounding).value)
  {
    hide ParseBody, Canonical, StripPlus, Strip, KeepNumeric, Unpunctuated;
    var text := StripPlus(Unpunctuated(KeepNumeric(Strip(raw))));
    if text != "" && text[0] == '-' { ParseBodyCanonical(true, text[1..]); } else { ParseBodyCanonical(false, text); }
    NegatedCanonical(ParseDecimal(text).value, rounding);
  }

  lemma NegatedCanonical(d: Dec, rounding: Dec -> Dec)
    requires RoundsToDecimals(rounding) && Canonical(d)
    ensures Canonical(Negated(d, rounding))
  {
  }

  /** Coercion is a normal form: a second pass, at confirm, changes nothing that the
      first, at extraction, left behind. For every value, type and rounding. */
  lemma CoerceIdempotent(value: Value, typ: string, rounding: Dec -> Dec)
    requires RoundsToDecimals(rounding)
    ensures CoerceValue(CoerceValue(value, typ, rounding), typ, rounding) == CoerceValue(value, typ, rounding)
  {
    var once := CoerceValue(value, typ, rounding);
    if once != value && once != Null {
      var raw := if value.Str? then value.text else value.repr;
      CoercerIdempotent(raw, typ, rounding);
    }
  }

  lemma CoercerIdempotent(raw: string, typ: string, rounding: Dec -> Dec)
    requires RoundsToDecimals(rounding) && Coercer(raw, typ, rounding).Some?
    requires typ in {"number", "integer", "boolean"}
    ensures var out := Coercer(raw, typ, rounding).value;
            Strip(out) != "" && Coercer(out, typ, rounding) == Some(out)
  {
    hide ToDecimal, Strip;
    var out := Coercer(raw, typ, rounding).value;
    if typ == "boolean" {
      WordsAreNormal();
    } else {
      ToDecimalCanonical(raw, rounding);
      var d := ToDecimal(raw, rounding).value;
      if typ == "number" {
        ToDecimalOfFormat(d, rounding);
        FormatChars(d);
        NumericIsVisible(out);
      } else {
        IntTextIsFormat(d);
        var i := Dec(d.negative && d.whole != "", d.whole, "");
        ToDecimalOfFormat(i, rounding);
        FormatChars(i);
        NumericIsVisible(out);
      }
    }
  }

  lemma WordsAreNormal()
    ensures Strip("true") == "true" && Lower("true") == "true"
    ensures Strip("false") == "false" && Lower("false") == "false"
  {
    VisibleIsNotSpace('t'); VisibleIsNotSpace('e'); VisibleIsNotSpace('f');
    StripTrims("true"); StripTrims("false");
  }

  lemma CoerceExtractedIdempotent(fields: seq<Field>, values: map<string, Value>, rounding: Dec -> Dec)
    requires RoundsToDecimals(rounding)
    ensures CoerceExtracted(fields, CoerceExtracted(fields, values, rounding), rounding)
              == CoerceExtracted(fields, values, rounding)
  {
    forall name | name in values
      ensures CoerceValue(CoerceValue(values[name], TypeOf(fields, name), rounding), TypeOf(fields, name), rounding)
           == CoerceValue(values[name], TypeOf(fields, name), rounding)
    {
      CoerceIdempotent(values[name], TypeOf(fields, name), rounding);
    }
  }

  /* ---- Comma-grouped printing ---- */

  /** Plain decimal printing of a natural number. */
  function Digits(n: nat): string {
    if n < 10 then [n as char + '0'] else Digits(n / 10) + [(n % 10) as char + '0']
  }

  lemma {:induction false} DigitsShape(n: nat)
    ensures AllDigits(Digits(n)) && Digits(n) != ""
    ensures n > 0 ==> Digits(n)[0] != '0'
    ensures |Digits(n)| > 3 <==> n >= 1000
  {
    if n >= 10 {
      DigitsShape(n / 10);
      if n >= 100 { DigitsShape(n / 100); assert n / 10 / 10 == n / 100; }
      if n >= 1000 { DigitsShape(n / 1000); assert n / 100 / 10 == n / 1000; }
    }
  }

  /** A comma before every third digit from the right. */
  function Grouped(digits: string): string {
    if |digits| <= 3 then digits else Grouped(digits[..|digits| - 3]) + "," + digits[|digits| - 3..]
  }

  lemma {:induction false} GroupedDigits(digits: string)
    requires AllDigits(digits) && digits != ""
    ensures forall i :: 0 <= i < |Grouped(digits)| ==> IsDigit(Grouped(digits)[i]) || Grouped(digits)[i] == ','
    ensures Grouped(digits) != "" && IsDigit(Grouped(digits)[0]) && IsDigit(Grouped(digits)[|Grouped(digits)| - 1])
  {
    if |digits| > 3 {
      assert forall i :: 0 <= i < |digits| - 3 ==> digits[..|digits| - 3][i] == digits[i];
      GroupedDigits(digits[..|digits| - 3]);
    }
  }

  lemma {:induction false} GroupedGroups(digits: string)
    requires AllDigits(digits) && digits != ""
    ensures Groups(Grouped(digits)) && (|digits| > 3 ==> |Grouped(digits)| > 3)
  {
    if |digits| > 3 {
      var rest, tail, g := digits[..|digits| - 3], digits[|digits| - 3..], Grouped(digits);
      assert AllDigits(rest) && AllDigits(tail);
      GroupedGroups(rest);
      assert g == Grouped(rest) + "," + tail;
      assert Grouped(rest) != "";
      hide Grouped, AllDigits;
      assert g[|g| - 3..] == tail && g[..|g| - 4] == Grouped(rest) && g[|g| - 4] == ',';
    }
  }

  lemma GroupedShape(digits: string)
    requires AllDigits(digits) && digits != ""
    ensures Groups(Grouped(digits))
    ensures forall i :: 0 <= i < |Grouped(digits)| ==> IsDigit(Grouped(digits)[i]) || Grouped(digits)[i] == ','
    ensures Grouped(digits) != "" && IsDigit(Grouped(digits)[0]) && IsDigit(Grouped(digits)[|Grouped(digits)| - 1])
    ensures ',' in Grouped(digits) <==> |digits| > 3
    ensures |digits| > 3 ==> |Grouped(digits)| > 3
  {
    GroupedDigits(digits);
    GroupedGroups(digits);
    if |digits| > 3 {
      assert Grouped(digits) == Grouped(digits[..|digits| - 3]) + "," + digits[|digits| - 3..];
      hide Groups, Grouped;
    }
  }

  lemma {:induction false} RemoveCommasAppend(a: string, b: string)
    ensures RemoveCommas(a + b) == RemoveCommas(a) + RemoveCommas(b)
  {
    if a == "" {
      assert a + b == b;
    } else {
      assert (a + b)[1..] == a[1..] + b && (a + b)[0] == a[0];
      RemoveCommasAppend(a[1..], b);
      var first := if a[0] == ',' then "" else [a[0]];
      assert RemoveCommas(a) == first + RemoveCommas(a[1..]);
      assert RemoveCommas(a + b) == first + RemoveCommas(a[1..] + b);
    }
  }

  lemma {:induction false} RemoveNoCommas(s: string)
    requires ',' !in s
    ensures RemoveCommas(s) == s
  {
    if s != "" { RemoveNoCommas(s[1..]); }
  }

  lemma {:induction false} Ungroup(digits: string)
    requires AllDigits(digits)
    ensures RemoveCommas(Grouped(digits)) == digits
  {
    if |digits| <= 3 {
      RemoveNoCommas(digits);
    } else {
      var rest, tail := digits[..|digits| - 3], digits[|digits| - 3..];
      assert forall i :: 0 <= i < |rest| ==> rest[i] == digits[i];
      assert forall i :: 0 <= i < |tail| ==> tail[i] == digits[|digits| - 3 + i];
      Ungroup(rest);
      RemoveCommasAppend(Grouped(rest) + ",", tail);
      RemoveCommasAppend(Grouped(rest), ",");
      LoneComma();
      RemoveNoCommas(tail);
      assert rest + tail == digits;
      assert rest + "" == rest;
    }
  }

  lemma LoneComma()
    ensures RemoveCommas(",") == ""
  {
    assert ","[1..] == "";
  }

  lemma StripZerosNone(s: string)
    requires s == "" || s[0] != '0'
    ensures StripZeros(s) == s
  {
  }

  /** The decimal a natural number's printing denotes, sign and fraction included. */
  function Number(negative: bool, n: nat, fraction: Option<string>): Dec {
    Dec(negative, if n == 0 then "" else Digits(n), fraction.GetOr(""))
  }

  lemma NumberFormats(negative: bool, n: nat, fraction: Option<string>)
    requires FractionFine(fraction)
    ensures Canonical(Number(negative, n, fraction))
    ensures Format(Number(negative, n, fraction)) == PrintedPlain(if negative then "-" else "", n, fraction)
  {
    DigitsShape(n);
    StripZerosNone(if n == 0 then "" else Digits(n));
  }

  /** A text put together from a sign, a grouped number and a fraction. */
  lemma PiecesNumeric(sign: string, g: string, tail: string)
    requires sign == "" || sign == "-"
    requires g != "" && forall i :: 0 <= i < |g| ==> IsDigit(g[i]) || g[i] == ','
    requires tail == "" || (tail[0] == '.' && AllDigits(tail[1..]))
    ensures var text := sign + g + tail;
            && text != "" && Strip(text) == text && KeepNumeric(text) == text && text[0] != '(' && text[0] != '+'
            && (',' in text <==> ',' in g) && ('.' in text <==> tail != "")
  {
    hide Strip, KeepNumeric;
    var text := sign + g + tail;
    assert forall i :: 1 <= i < |tail| ==> tail[i] == tail[1..][i - 1];
    assert forall i :: 0 <= i < |text| ==>
      text[i] == if i < |sign| then sign[i] else if i < |sign| + |g| then g[i - |sign|] else tail[i - |sign| - |g|];
    assert forall i :: 0 <= i < |text| ==> IsNumeric(text[i]);
    NumericIsVisible(text);
    KeepAll(text);
    if ',' in g { var i :| 0 <= i < |g| && g[i] == ','; assert text[|sign| + i] == ','; }
    if tail != "" { assert text[|sign| + |g|] == '.'; }
  }

  lemma PiecesUngrouped(sign: string, digits: string, tail: string)
    requires AllDigits(digits) && ',' !in sign && ',' !in tail
    ensures RemoveCommas(sign + Grouped(digits) + tail) == sign + digits + tail
  {
    hide Grouped;
    RemoveCommasAppend(sign + Grouped(digits), tail);
    RemoveCommasAppend(sign, Grouped(digits));
    RemoveNoCommas(sign); RemoveNoCommas(tail);
    Ungroup(digits);
  }

  /** The printing of a signed, grouped number, as one text. */
  function Printed(sign: string, n: nat, fraction: Option<string>): string {
    sign + Grouped(Digits(n)) + Tail(fraction.GetOr(""))
  }

  function PrintedPlain(sign: string, n: nat, fraction: Option<string>): string {
    sign + Digits(n) + Tail(fraction.GetOr(""))
  }

  predicate FractionFine(fraction: Option<string>) {
    fraction.Some? ==> fraction.value != "" && AllDigits(fraction.value)
  }

  lemma GroupedChars(n: nat, fraction: Option<string>, sign: string)
    requires FractionFine(fraction)
    requires sign == "" || sign == "-"
    ensures var text := Printed(sign, n, fraction);
            && text != "" && Strip(text) == text && KeepNumeric(text) == text && text[0] != '(' && text[0] != '+'
            && (',' in text <==> n >= 1000) && ('.' in text <==> fraction.Some?)
            && RemoveCommas(text) == PrintedPlain(sign, n, fraction)
            && (n < 1000 ==> text == PrintedPlain(sign, n, fraction))
  {
    hide Digits, Strip, KeepNumeric, RemoveCommas, Groups;
    DigitsShape(n);
    GroupedShape(Digits(n));
    var tail := Tail(fraction.GetOr(""));
    if tail != "" { assert tail[1..] == fraction.value; }
    PiecesNumeric(sign, Grouped(Digits(n)), tail);
    PiecesUngrouped(sign, Digits(n), tail);
  }

  lemma ParsesPrinted(negative: bool, n: nat, fraction: Option<string>)
    requires FractionFine(fraction)
    ensures var text := PrintedPlain(if negative then "-" else "", n, fraction);
            StripPlus(text) == text && ParseDecimal(text) == Some(Number(negative, n, fraction))
            && Format(Number(negative, n, fraction)) == text
  {
    NumberFormats(negative, n, fraction);
    FormatChars(Number(negative, n, fraction));
    ParseFormat(Number(negative, n, fraction));
  }

  lemma UnpunctuatedPrinted(negative: bool, n: nat, fraction: Option<string>)
    requires FractionFine(fraction)
    requires !negative || n < 1000 || fraction.Some?
    ensures var sign := if negative then "-" else "";
            Unpunctuated(Printed(sign, n, fraction)) == PrintedPlain(sign, n, fraction)
  {
    hide Strip, KeepNumeric, RemoveCommas, Printed, PrintedPlain, CommasToDots, IsThousands;
    GroupedChars(n, fraction, if negative then "-" else "");
    if n >= 1000 && fraction.None? { GroupedThousands(n); }
  }

  lemma GroupedThousands(n: nat)
    requires n >= 1000
    ensures IsThousands(Printed("", n, None))
  {
    DigitsShape(n);
    GroupedShape(Digits(n));
    assert Printed("", n, None) == Grouped(Digits(n));
  }

  /** `_to_decimal` on a text without blanks or parentheses around it. */
  lemma ToDecimalBare(text: string, rounding: Dec -> Dec)
    requires text != "" && Strip(text) == text && KeepNumeric(text) == text && text[0] != '('
    ensures ToDecimal(text, rounding) == ParseDecimal(StripPlus(Unpunctuated(text)))
  {
    hide Strip, KeepNumeric, Unpunctuated, StripPlus, ParseDecimal;
  }

  lemma CoerceRead(raw: string, d: Dec, rounding: Dec -> Dec)
    requires Strip(raw) != "" && ToDecimal(raw, rounding) == Some(d)
    ensures CoerceValue(Str(raw), "number", rounding) == Str(Format(d))
  {
    hide Strip, ToDecimal;
    assert Format(d) != "";
  }

  lemma CoerceUnread(raw: string, rounding: Dec -> Dec)
    requires Strip(raw) != "" && ToDecimal(raw, rounding) == None
    ensures CoerceValue(Str(raw), "number", rounding) == Str(raw)
  {
    hide Strip, ToDecimal;
  }

  /** What `_to_decimal` makes of a grouped number that it can read. */
  lemma ReadsPrinted(negative: bool, n: nat, fraction: Option<string>, rounding: Dec -> Dec)
    requires FractionFine(fraction)
    requires !negative || n < 1000 || fraction.Some?
    ensures var text := Printed(if negative then "-" else "", n, fraction);
            ToDecimal(text, rounding) == Some(Number(negative, n, fraction)) && Strip(text) == text != ""
  {
    hide *;
    GroupedChars(n, fraction, if negative then "-" else "");
    UnpunctuatedPrinted(negative, n, fraction);
    ParsesPrinted(negative, n, fraction);
    ToDecimalBare(Printed(if negative then "-" else "", n, fraction), rounding);
  }

  lemma CoercesPrinted(negative: bool, n: nat, fraction: Option<string>, rounding: Dec -> Dec)
    requires FractionFine(fraction)
    requires !negative || n < 1000 || fraction.Some?
    ensures var sign := if negative then "-" else "";
            CoerceValue(Str(Printed(sign, n, fraction)), "number", rounding) == Str(PrintedPlain(sign, n, fraction))
  {
    hide *;
    ReadsPrinted(negative, n, fraction, rounding);
    ParsesPrinted(negative, n, fraction);
    CoerceRead(Printed(if negative then "-" else "", n, fraction), Number(negative, n, fraction), rounding);
  }

  /** The comma-grouped printing of every natural number, with or without a fraction,
      coerces to its plain printing. */
  lemma UnsignedGrouping(n: nat, fraction: Option<string>, rounding: Dec -> Dec)
    requires FractionFine(fraction)
    ensures CoerceValue(Str(Printed("", n, fraction)), "number", rounding) == Str(PrintedPlain("", n, fraction))
    ensures CoerceValue(Str(Printed("", n, None)), "integer", rounding) == Str(Digits(n))
  {
    hide CoerceValue, Printed, PrintedPlain, Digits;
    CoercesPrinted(false, n, fraction, rounding);
    IntegerExactly(n, None, rounding);
    assert AllZeros(None.GetOr(""));
  }

  /* ---- A sign in front of a grouped number ---- */

  lemma {:induction false} GroupsStartWithDigit(s: string)
    requires Groups(s)
    ensures s != "" && IsDigit(s[0])
  {
    if |s| > 3 { GroupsStartWithDigit(s[..|s| - 4]); }
  }

  lemma SignHidesGroups(g: string)
    ensures !IsThousands("-" + g)
  {
    if Groups("-" + g) { GroupsStartWithDigit("-" + g); }
  }

  /** What a comma turned into a dot leaves: no parse at all, or a fraction. */
  lemma DottedFraction(g: string)
    requires g != "" && ',' in g && IsDigit(g[|g| - 1])
    ensures var plain := CommasToDots("-" + g);
            StripPlus(plain) == plain
            && (ParseDecimal(plain).Some? ==> ParseDecimal(plain).value.fraction != "")
  {
    var plain := CommasToDots("-" + g);
    var body := plain[1..];
    assert plain[0] == '-';
    var k :| 0 <= k < |g| && g[k] == ',';
    assert ("-" + g)[k + 1] == g[k] && body[k] == '.';
    assert ("-" + g)[|g|] == g[|g| - 1] && body[|g| - 1] != '.';
    assert DotAt(body) <= k;
  }

  lemma FractionShows(d: Dec)
    requires d.fraction != ""
    ensures '.' in Format(d)
  {
    assert Format(d)[|Format(d)| - |d.fraction| - 1] == '.';
  }

  lemma SignedText(n: nat)
    requires n >= 1000
    ensures var g, text := Grouped(Digits(n)), Printed("-", n, None);
            && text == "-" + g && g != "" && ',' in g && IsDigit(g[|g| - 1]) && Unpunctuated(text) == CommasToDots(text)
            && '.' !in PrintedPlain("-", n, None) && ',' !in PrintedPlain("-", n, None)
  {
    DigitsShape(n);
    GroupedShape(Digits(n));
    GroupedChars(n, None, "-");
    var g := Grouped(Digits(n));
    assert Printed("-", n, None) == "-" + g && PrintedPlain("-", n, None) == "-" + Digits(n);
    SignHidesGroups(g);
    assert forall c :: c in "-" + Digits(n) ==> c == '-' || c in Digits(n);
  }

  /** `-1,234`: the sign keeps the grouping from being recognised, and the comma is
      read as a decimal comma. */
  lemma SignedWholeMisread(n: nat, rounding: Dec -> Dec)
    requires n >= 1000
    ensures CoerceValue(Str(Printed("-", n, None)), "number", rounding) != Str(PrintedPlain("-", n, None))
  {
    assert FractionFine(None);
    hide *;
    GroupedChars(n, None, "-");
    SignedText(n);
    DottedFraction(Grouped(Digits(n)));
    var text := Printed("-", n, None);
    ToDecimalBare(text, rounding);
    var parsed := ParseDecimal(CommasToDots(text));
    if parsed.Some? {
      FractionShows(parsed.value);
      CoerceRead(text, parsed.value, rounding);
    } else {
      CoerceUnread(text, rounding);
    }
  }

  /** The signed law, exactly: a negative grouped number coerces to its plain printing
      if and only if it needs no comma or carries a fraction after a dot. */
  lemma SignedGroupingExact(n: nat, fraction: Option<string>, rounding: Dec -> Dec)
    requires FractionFine(fraction)
    ensures CoerceValue(Str(Printed("-", n, fraction)), "number", rounding) == Str(PrintedPlain("-", n, fraction))
       <==> n < 1000 || fraction.Some?
  {
    hide CoerceValue, Printed, PrintedPlain;
    if n < 1000 || fraction.Some? {
      CoercesPrinted(true, n, fraction, rounding);
    } else {
      SignedWholeMisread(n, rounding);
    }
  }

  /* ---- Accounting negatives ---- */

  lemma {:induction false} KeepNumericAppend(a: string, b: string)
    ensures KeepNumeric(a + b) == KeepNumeric(a) + KeepNumeric(b)
  {
    if a == "" {
      assert a + b == b;
    } else {
      assert (a + b)[1..] == a[1..] + b && (a + b)[0] == a[0];
      KeepNumericAppend(a[1..], b);
      var first := if IsNumeric(a[0]) then [a[0]] else "";
      assert KeepNumeric(a) == first + KeepNumeric(a[1..]);
      assert KeepNumeric(a + b) == first + KeepNumeric(a[1..] + b);
    }
  }

  lemma Parenthesised(inner: string)
    requires KeepNumeric(inner) == inner
    ensures var s := "(" + inner + ")"; Strip(s) == s && KeepNumeric(s) == inner && s[0] == '(' && s[|s| - 1] == ')'
  {
    VisibleIsNotSpace('('); VisibleIsNotSpace(')');
    StripTrims("(" + inner + ")");
    KeepNumericAppend("(" + inner, ")");
    KeepNumericAppend("(", inner);
    assert "("[1..] == "" && ")"[1..] == "";
    assert KeepNumeric("(") == "" && KeepNumeric(")") == "";
  }

  lemma FewDigits(n: nat, fraction: Option<string>, rounding: Dec -> Dec)
    requires n > 0 && |Digits(n)| + |fraction.GetOr("")| <= 28
    ensures var d := Number(false, n, fraction); Positive(d) && Negated(d, rounding) == Number(true, n, fraction)
  {
    DigitsShape(n);
    var d := Number(false, n, fraction);
    StripZerosNone(d.whole + d.fraction);
  }

  lemma ToDecimalParenthesised(inner: string, d: Dec, rounding: Dec -> Dec)
    requires inner != "" && KeepNumeric(inner) == inner && ParseDecimal(StripPlus(Unpunctuated(inner))) == Some(d)
             && Positive(d)
    ensures ToDecimal("(" + inner + ")", rounding) == Some(Negated(d, rounding))
    ensures Strip("(" + inner + ")") != ""
  {
    hide Strip, KeepNumeric, Unpunctuated, StripPlus, ParseDecimal, Positive, Negated;
    Parenthesised(inner);
  }

  /** `(1,200.00)` is minus 1200.00, as long as the value fits the context's precision. */
  lemma AccountingNegative(n: nat, fraction: Option<string>, rounding: Dec -> Dec)
    requires FractionFine(fraction) && n > 0 && |Digits(n)| + |fraction.GetOr("")| <= 28
    ensures CoerceValue(Str("(" + Printed("", n, fraction) + ")"), "number", rounding)
              == Str(PrintedPlain("-", n, fraction))
  {
    hide *;
    var inner := Printed("", n, fraction);
    GroupedChars(n, fraction, "");
    UnpunctuatedPrinted(false, n, fraction);
    FewDigits(n, fraction, rounding);
    ParsesPrinted(false, n, fraction);
    ParsesPrinted(true, n, fraction);
    ToDecimalParenthesised(inner, Number(false, n, fraction), rounding);
    CoerceRead("(" + inner + ")", Number(true, n, fraction), rounding);
  }

  /* ---- What counts as a number ---- */

  predicate AllZeros(s: string) {
    forall i :: 0 <= i < |s| ==> s[i] == '0'
  }

  lemma {:induction false} StripZerosAll(s: string)
    ensures StripZeros(s) == "" <==> AllZeros(s)
  {
    if s != "" && s[0] == '0' {
      StripZerosAll(s[1..]);
      assert forall i :: 1 <= i < |s| ==> s[1..][i - 1] == s[i];
    }
  }

  /** An integer column takes a grouped number exactly when its fraction is zero, and
      then as the plain whole number; any other stays as the document had it. */
  lemma IntegerExactly(n: nat, fraction: Option<string>, rounding: Dec -> Dec)
    requires FractionFine(fraction)
    ensures CoerceValue(Str(Printed("", n, fraction)), "integer", rounding)
         == Str(if AllZeros(fraction.GetOr("")) then Digits(n) else Printed("", n, fraction))
  {
    hide Strip, ToDecimal, Printed, Digits, StripZeros, Number, IntText;
    ReadsPrinted(false, n, fraction, rounding);
    StripZerosAll(fraction.GetOr(""));
    NumberIntText(n, fraction);
  }

  lemma NumberIntText(n: nat, fraction: Option<string>)
    ensures Digits(n) != "" && IntText(Number(false, n, fraction)) == Digits(n)
    ensures Number(false, n, fraction).fraction == fraction.GetOr("")
  {
    DigitsShape(n);
  }

  lemma {:induction false} KeepNone(s: string)
    requires forall i :: 0 <= i < |s| ==> !IsNumeric(s[i])
    ensures KeepNumeric(s) == ""
  {
    if s != "" {
      assert forall i :: 0 <= i < |s| - 1 ==> s[1..][i] == s[i + 1];
      KeepNone(s[1..]);
    }
  }

  lemma NumericIsNotSpace(c: char)
    requires IsNumeric(c)
    ensures !IsSpace(c)
  {
    VisibleIsNotSpace(c);
  }

  /** Stripping never takes a digit, so what is left to read is the same. */
  lemma KeepStripped(s: string)
    ensures KeepNumeric(Strip(s)) == KeepNumeric(s)
  {
    hide Strip, IsSpace, IsNumeric, KeepNumeric;
    var left, right := StripIsTheMiddle(s);
    forall i | 0 <= i < |s| && !(left <= i < right) ensures !IsNumeric(s[i]) {
      if IsNumeric(s[i]) { NumericIsNotSpace(s[i]); }
    }
    KeepNone(s[..left]);
    KeepNone(s[right..]);
    assert s == s[..left] + s[left..right] + s[right..];
    KeepNumericAppend(s[..left] + s[left..right], s[right..]);
    KeepNumericAppend(s[..left], s[left..right]);
  }

  /** Text around a number that is no part of one: no digit, no punctuation of numbers,
      and no parenthesis in front. */
  predicate Noise(s: string) {
    forall i :: 0 <= i < |s| ==> !IsNumeric(s[i]) && s[i] != '('
  }

  /** A currency in front and a unit behind do not change what is read. */
  lemma NoiseIsIgnored(before: string, n: nat, fraction: Option<string>, after: string, rounding: Dec -> Dec)
    requires FractionFine(fraction) && Noise(before) && Noise(after)
    ensures var raw := before + Printed("", n, fraction) + after;
            CoerceValue(Str(raw), "number", rounding) == Str(PrintedPlain("", n, fraction))
  {
    hide *;
    var text := Printed("", n, fraction);
    var raw := before + text + after;
    GroupedChars(n, fraction, "");
    UnpunctuatedPrinted(false, n, fraction);
    ParsesPrinted(false, n, fraction);
    NumberFirst(n, fraction);
    NoiseKept(before, text, after);
    NoiseStripped(before, text, after);
    ToDecimalNoisy(raw, text, rounding);
    CoerceRead(raw, Number(false, n, fraction), rounding);
  }

  lemma NumberFirst(n: nat, fraction: Option<string>)
    requires FractionFine(fraction)
    ensures Printed("", n, fraction) != "" && IsDigit(Printed("", n, fraction)[0])
  {
    hide Digits;
    DigitsShape(n);
    GroupedDigits(Digits(n));
    assert Printed("", n, fraction)[0] == Grouped(Digits(n))[0];
  }

  lemma NoiseKept(before: string, text: string, after: string)
    requires Noise(before) && Noise(after) && KeepNumeric(text) == text
    ensures KeepNumeric(Strip(before + text + after)) == text
  {
    hide Strip, KeepNumeric;
    KeepStripped(before + text + after);
    KeepNumericAppend(before + text, after);
    KeepNumericAppend(before, text);
    KeepNone(before);
    KeepNone(after);
    assert "" + text + "" == text;
  }

  lemma NoiseStripped(before: string, text: string, after: string)
    requires Noise(before) && text != "" && IsDigit(text[0])
    ensures var s := Strip(before + text + after); s != "" && s[0] != '('
  {
    hide Strip, IsSpace;
    var raw := before + text + after;
    var left, right := StripIsTheMiddle(raw);
    assert raw[|before|] == text[0];
    NumericIsNotSpace(raw[|before|]);
    assert left <= |before| < right;
    assert Strip(raw)[0] == raw[left];
    if left < |before| { assert raw[left] == before[left]; }
  }

  lemma ToDecimalNoisy(raw: string, text: string, rounding: Dec -> Dec)
    requires Strip(raw) != "" && Strip(raw)[0] != '(' && KeepNumeric(Strip(raw)) == text != ""
    ensures ToDecimal(raw, rounding) == ParseDecimal(StripPlus(Unpunctuated(text)))
  {
    hide Strip, KeepNumeric, Unpunctuated, StripPlus, ParseDecimal;
  }

  /* ---- The decimal comma ---- */

  /** A plain number with a comma before its last digits. */
  function WithComma(n: nat, fraction: string): string {
    Digits(n) + "," + fraction
  }

  lemma CommaChars(n: nat, fraction: string)
    requires fraction != "" && AllDigits(fraction)
    ensures var text := WithComma(n, fraction);
            && text != "" && Strip(text) == text && KeepNumeric(text) == text && text[0] != '(' && text[0] != '+'
            && ',' in text && '.' !in text && text[|Digits(n)|] == ','
            && forall i :: 0 <= i < |text| && i != |Digits(n)| ==> IsDigit(text[i])
  {
    hide Digits, Strip, KeepNumeric, IsSpace;
    var text := WithComma(n, fraction);
    DigitsShape(n);
    var d := |Digits(n)|;
    assert forall i :: 0 <= i < |text| ==>
      text[i] == if i < d then Digits(n)[i] else if i == d then ',' else fraction[i - d - 1];
    assert forall i :: 0 <= i < |text| ==> IsNumeric(text[i]) && text[i] != '.';
    NumericIsVisible(text);
    KeepAll(text);
  }

  lemma OneGroup(s: string, comma: nat)
    requires comma < |s| && s[comma] == ',' && forall i :: 0 <= i < |s| && i != comma ==> IsDigit(s[i])
    ensures IsThousands(s) <==> 1 <= comma <= 3 && |s| - comma == 4
  {
    if |s| > 3 && s[|s| - 4] == ',' {
      assert comma == |s| - 4;
      var rest := s[..comma];
      assert AllDigits(rest) && AllDigits(s[|s| - 3..]);
      if |rest| > 3 { assert IsDigit(rest[|rest| - 4]) && !Groups(rest); }
      assert Groups(s) <==> Groups(rest);
    } else if |s| <= 3 {
      assert !AllDigits(s);
    }
  }

  lemma CommaToDot(n: nat, fraction: string)
    requires fraction != "" && AllDigits(fraction)
    ensures CommasToDots(WithComma(n, fraction)) == PrintedPlain("", n, Some(fraction))
  {
    hide Digits, Strip, KeepNumeric;
    CommaChars(n, fraction);
    var text, plain := WithComma(n, fraction), PrintedPlain("", n, Some(fraction));
    assert plain == Digits(n) + "." + fraction;
    assert forall i :: 0 <= i < |text| ==> CommasToDots(text)[i] == plain[i];
  }

  lemma CommaRemoved(n: nat, fraction: string)
    requires AllDigits(fraction)
    ensures RemoveCommas(WithComma(n, fraction)) == Digits(n) + fraction
  {
    hide Digits, RemoveCommas;
    DigitsShape(n);
    RemoveCommasAppend(Digits(n) + ",", fraction);
    RemoveCommasAppend(Digits(n), ",");
    LoneComma();
    RemoveNoCommas(Digits(n));
    RemoveNoCommas(fraction);
    assert Digits(n) + "" == Digits(n);
  }

  /** A lone comma is a decimal comma if and only if it does not look like grouping: one
      to three digits before it and exactly three behind. */
  lemma DecimalCommaExactly(n: nat, fraction: string, rounding: Dec -> Dec)
    requires fraction != "" && AllDigits(fraction)
    ensures CoerceValue(Str(WithComma(n, fraction)), "number", rounding) == Str(PrintedPlain("", n, Some(fraction)))
       <==> !(n < 1000 && |fraction| == 3)
  {
    hide *;
    var text := WithComma(n, fraction);
    assert FractionFine(Some(fraction)) by { FractionIsFine(fraction); }
    CommaChars(n, fraction);
    CommaToDot(n, fraction);
    CommaRemoved(n, fraction);
    CommaGroups(n, fraction);
    ToDecimalBare(text, rounding);
    ParsesPrinted(false, n, Some(fraction));
    UnpunctuatedComma(text);
    if n < 1000 && |fraction| == 3 {
      DigitsJoined(n, fraction);
      var d := Dec(false, StripZeros(Digits(n) + fraction), "");
      CoerceRead(text, d, rounding);
      DotInPlain(n, fraction, d);
    } else {
      CoerceRead(text, Number(false, n, Some(fraction)), rounding);
    }
  }

  lemma FractionIsFine(fraction: string)
    requires fraction != "" && AllDigits(fraction)
    ensures FractionFine(Some(fraction))
  {
  }

  lemma UnpunctuatedComma(text: string)
    requires ',' in text && '.' !in text
    ensures Unpunctuated(text) == if IsThousands(text) then RemoveCommas(text) else CommasToDots(text)
  {
  }

  lemma CommaGroups(n: nat, fraction: string)
    requires fraction != "" && AllDigits(fraction)
    ensures IsThousands(WithComma(n, fraction)) <==> n < 1000 && |fraction| == 3
  {
    hide Digits, IsThousands, Strip, KeepNumeric;
    CommaChars(n, fraction);
    DigitsShape(n);
    OneGroup(WithComma(n, fraction), |Digits(n)|);
  }

  lemma DigitsJoined(n: nat, fraction: string)
    requires AllDigits(fraction)
    ensures var s := Digits(n) + fraction;
            StripPlus(s) == s && ParseDecimal(s) == Some(Dec(false, StripZeros(s), ""))
  {
    hide Digits, StripZeros, ParseBody;
    DigitsShape(n);
    var s := Digits(n) + fraction;
    assert forall i :: 0 <= i < |s| ==> s[i] == if i < |Digits(n)| then Digits(n)[i] else fraction[i - |Digits(n)|];
    assert AllDigits(s) && s + Tail("") == s && s[0] != '+' && s[0] != '-';
    ParseBodyParts(false, s, "");
  }

  lemma DotInPlain(n: nat, fraction: string, d: Dec)
    requires AllDigits(fraction) && fraction != "" && d == Dec(false, StripZeros(Digits(n) + fraction), "")
    ensures Format(d) != PrintedPlain("", n, Some(fraction))
  {
    hide Digits, StripZeros;
    DigitsShape(n);
    StripZerosDigits(Digits(n) + fraction);
    assert PrintedPlain("", n, Some(fraction))[|Digits(n)|] == '.';
    assert '.' !in Format(d);
  }

  /* ---- Words, blanks, and what is left alone ---- */

  /** A boolean column takes exactly these words, whatever their case and the blanks
      around them. */
  lemma BooleanExactly(raw: string, rounding: Dec -> Dec)
    requires Strip(raw) != ""
    ensures var word, read := Lower(Strip(raw)), CoerceValue(Str(raw), "boolean", rounding);
            && (word in ["true", "t", "yes", "y", "1", "paid", "on"] ==> read == Str("true"))
            && (word in ["false", "f", "no", "n", "0", "unpaid", "off"] ==> read == Str("false"))
            && (word !in ["true", "t", "yes", "y", "1", "paid", "on", "false", "f", "no", "n", "0", "unpaid", "off"]
                ==> read == Str(raw))
  {
    hide Strip, Lower;
  }

  /** A null, a value of any other type, and a text that cannot be read stay as they are;
      a blank in a typed column becomes null, whether or not it was a string. */
  lemma OthersPassThrough(value: Value, typ: string, rounding: Dec -> Dec)
    ensures value == Null || typ !in ["number", "integer", "boolean"] ==> CoerceValue(value, typ, rounding) == value
    ensures value != Null && typ in ["number", "integer", "boolean"]
            && Strip(if value.Str? then value.text else value.repr) == ""
            ==> CoerceValue(value, typ, rounding) == Null
    ensures value.Other? ==> CoerceValue(value, typ, rounding) in [value, CoerceValue(Str(value.repr), typ, rounding)]
  {
    hide Strip, Coercer;
  }
}
