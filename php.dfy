/** The PHP built-ins the exception handler relies on: `trim`, `empty`, the
    decimal rendering of an integer in a string template, and the string
    conversion `implode` applies to each element it joins. */
module Php {
  import opened Json

  /** PHP runtime functions whose code is not part of this model, passed in as
      values: `json_encode` of a decoded value, and the decimal text PHP gives a float. */
  datatype Runtime = Runtime(jsonEncode: Json -> string, floatToString: real -> string)

  // ---------------------------------------------------------------- trim

  /** The characters `trim` strips by default: space, tab, newline, carriage
      return, NUL and vertical tab. */
  predicate IsTrimChar(c: char) {
    c == ' ' || c == '\t' || c == '\n' || c == '\r' || c == '\0' || c == '\U{000B}'
  }

  predicate AllTrimChars(s: string) {
    forall k :: 0 <= k < |s| ==> IsTrimChar(s[k])
  }

  /** Neither end of `s` is a character `trim` would strip. */
  predicate Unpadded(s: string) {
    s == [] || (!IsTrimChar(s[0]) && !IsTrimChar(s[|s| - 1]))
  }

  /** How many trim characters `s` starts with: where `ltrim` cuts. */
  function LeadingTrimCount(s: string): (n: nat)
    ensures n <= |s|
    ensures forall k :: 0 <= k < n ==> IsTrimChar(s[k])
    ensures n < |s| ==> !IsTrimChar(s[n])
  {
    if |s| > 0 && IsTrimChar(s[0]) then 1 + LeadingTrimCount(s[1..]) else 0
  }

  /** How many trim characters `s` ends with: where `rtrim` cuts. */
  function TrailingTrimCount(s: string): (n: nat)
    ensures n <= |s|
    ensures forall k :: |s| - n <= k < |s| ==> IsTrimChar(s[k])
    ensures n < |s| ==> !IsTrimChar(s[|s| - 1 - n])
  {
    if |s| > 0 && IsTrimChar(s[|s| - 1]) then 1 + TrailingTrimCount(s[..|s| - 1]) else 0
  }

  /** `trim`: the trim characters at both ends stripped. */
  function Trim(s: string): (r: string)
    ensures Unpadded(r)
    ensures |r| <= |s|
  {
    var lead := LeadingTrimCount(s);
    if lead == |s| then [] else s[lead..|s| - TrailingTrimCount(s)]
  }

  /** `trim` only removes trim characters: `s` is `Trim(s)` with such characters around it. */
  lemma TrimDecompose(s: string) returns (before: string, after: string)
    ensures s == before + Trim(s) + after
    ensures AllTrimChars(before) && AllTrimChars(after)
  {
    var lead := LeadingTrimCount(s);
    LeadIsTrim(s);
    if lead == |s| {
      before, after := s, [];
      assert s[..lead] == s;
      assert Trim(s) == [];
      assert s == before + [] + after;
    } else {
      var end := |s| - TrailingTrimCount(s);
      assert !IsTrimChar(s[lead]);
      assert lead < end;
      TrailIsTrim(s);
      before, after := s[..lead], s[end..];
      assert Trim(s) == s[lead..end];
      assert s == before + s[lead..end] + after;
    }
  }

  /** The characters `LeadingTrimCount` counts are all trim characters. */
  lemma LeadIsTrim(s: string)
    ensures AllTrimChars(s[..LeadingTrimCount(s)])
  {
    var lead := LeadingTrimCount(s);
    assert forall k :: 0 <= k < lead ==> s[..lead][k] == s[k];
  }

  /** The characters `TrailingTrimCount` counts are all trim characters. */
  lemma TrailIsTrim(s: string)
    ensures AllTrimChars(s[|s| - TrailingTrimCount(s)..])
  {
    var end := |s| - TrailingTrimCount(s);
    assert forall k :: 0 <= k < |s| - end ==> s[end..][k] == s[end + k];
  }

  /** `trim` gives back exactly the unpadded core of a padded string; together with
      TrimDecompose this pins `Trim(s)` down as the unique such core of `s`. */
  lemma TrimOfPadded(before: string, core: string, after: string)
    requires AllTrimChars(before) && AllTrimChars(after) && Unpadded(core)
    ensures Trim(before + core + after) == core
  {
    var s := before + core + after;
    var lead, trail := LeadingTrimCount(s), TrailingTrimCount(s);
    if core != [] {
      assert s[|before|] == core[0];
      assert lead == |before|;
      assert s[|s| - 1 - |after|] == core[|core| - 1];
      assert trail == |after|;
      assert s[lead..|s| - trail] == core;
    }
  }

  /** Trimming a trimmed string changes nothing. */
  lemma TrimIdempotent(s: string)
    ensures Trim(Trim(s)) == Trim(s)
  {
    var t := Trim(s);
    assert [] + t + [] == t;
    TrimOfPadded([], t, []);
  }

  /** A string with no trim character at either end is left alone. */
  lemma TrimUnpadded(s: string)
    requires Unpadded(s)
    ensures Trim(s) == s
  {
    assert [] + s + [] == s;
    TrimOfPadded([], s, []);
  }

  // ---------------------------------------------------------------- empty

  /** `empty` on a string: true exactly for "" and "0". */
  predicate IsEmptyString(s: string) {
    s == "" || s == "0"
  }

  /** `empty` on a decoded value: null, false, 0, 0.0, "", "0" and the empty array. */
  predicate IsEmpty(v: Json) {
    match v
    case JNull => true
    case JBool(b) => !b
    case JInt(i) => i == 0
    case JFloat(f) => f == 0.0
    case JString(s) => IsEmptyString(s)
    case JArray(items) => items == []
    case JObject(fields) => fields == map[]
  }

  /** `empty` holds of exactly eight decoded values. */
  lemma EmptyValues(v: Json)
    ensures IsEmpty(v) <==> v in {JNull, JBool(false), JInt(0), JFloat(0.0), JString(""),
                                   JString("0"), JArray([]), JObject(map[])}
  {
  }

  /** `empty` on the raw body agrees with `empty` on a decoded string, and an
      empty-in-PHP's-sense body is at most one character long. */
  lemma EmptyContent(s: string)
    ensures IsEmptyString(s) <==> IsEmpty(JString(s))
    ensures IsEmptyString(s) ==> |s| <= 1
    ensures !IsEmptyString(s) ==> s != []
  {
  }

  // ---------------------------------------------------------------- integers as text

  function DigitChar(d: nat): (c: char)
    requires d < 10
    ensures '0' <= c <= '9' && c as int - '0' as int == d
  {
    ('0' as int + d) as char
  }

  predicate AllDigits(s: string) {
    forall k :: 0 <= k < |s| ==> '0' <= s[k] <= '9'
  }

  /** The number a string of decimal digits denotes. */
  function DigitsValue(s: string): nat
    requires AllDigits(s)
  {
    if s == [] then 0 else DigitsValue(s[..|s| - 1]) * 10 + (s[|s| - 1] as int - '0' as int)
  }

  /** A natural number in decimal, without leading zeros. */
  function NatToDecimal(n: nat): (r: string)
    ensures |r| >= 1 && AllDigits(r)
    ensures r[0] == '0' ==> n == 0
    decreases n
  {
    if n < 10 then [DigitChar(n)] else NatToDecimal(n / 10) + [DigitChar(n % 10)]
  }

  lemma {:induction false} NatToDecimalValue(n: nat)
    ensures DigitsValue(NatToDecimal(n)) == n
    decreases n
  {
    if n >= 10 {
      var r := NatToDecimal(n);
      assert r[..|r| - 1] == NatToDecimal(n / 10);
      NatToDecimalValue(n / 10);
    }
  }

  /** An integer as PHP writes it inside a double-quoted string: optional '-', then digits. */
  function Decimal(i: int): (r: string)
    ensures |r| >= 1 && Unpadded(r)
    ensures r[0] == '-' <==> i < 0
    ensures i < 0 ==> AllDigits(r[1..]) && DigitsValue(r[1..]) == -i
    ensures i >= 0 ==> AllDigits(r) && DigitsValue(r) == i
    // no leading zeros
    ensures i >= 0 && r[0] == '0' ==> i == 0
    ensures i < 0 ==> |r| >= 2 && r[1] != '0'
  {
    NatToDecimalValue(if i < 0 then -i else i);
    if i < 0 then
      var digits := NatToDecimal(-i);
      assert ("-" + digits)[1..] == digits;
      "-" + digits
    else
      NatToDecimal(i)
  }

  // ---------------------------------------------------------------- array access

  /** The list position a string key stands for: PHP turns a key written as a
      canonical decimal integer (no sign, no leading zero) into that integer. */
  function ListIndex(key: string): (n: Option<nat>)
    ensures n.Some? ==> AllDigits(key) && NatToDecimal(n.value) == key
    ensures key != [] && !('0' <= key[0] <= '9') ==> n.None?
  {
    if key != [] && AllDigits(key) && (key[0] != '0' || key == "0") then
      var n := DigitsValue(key);
      DecimalOfDigits(key);
      Some(n)
    else None
  }

  /** Reading a canonical digit string back and writing it out again gives it back. */
  lemma {:induction false} DecimalOfDigits(key: string)
    requires key != [] && AllDigits(key) && (key[0] != '0' || key == "0")
    ensures NatToDecimal(DigitsValue(key)) == key
    decreases |key|
  {
    if |key| > 1 {
      var init := key[..|key| - 1];
      assert init[0] == key[0];
      DecimalOfDigits(init);
      var n := DigitsValue(key);
      var d := key[|key| - 1] as int - '0' as int;
      assert n == DigitsValue(init) * 10 + d;
      assert DigitsValue(init) >= 1;
      assert n / 10 == DigitsValue(init) && n % 10 == d;
      assert DigitChar(d) == key[|key| - 1];
      assert key == init + [key[|key| - 1]];
    }
  }

  /** `$json[$key]` on a decoded PHP array. A JSON object holds its own keys; a JSON
      list holds element i under the key i, written as a canonical decimal. */
  function Get(json: Json, key: string): (r: Option<Json>)
    requires json.IsPhpArray()
    ensures json.JObject? ==> (r.Some? <==> key in json.fields)
    ensures json.JObject? && r.Some? ==> r.value == json.fields[key]
    ensures json.JArray? ==> (r.Some? <==> exists i :: 0 <= i < |json.items| && NatToDecimal(i) == key)
    ensures json.JArray? ==> forall i :: 0 <= i < |json.items| && NatToDecimal(i) == key ==> r == Some(json.items[i])
  {
    match json
    case JObject(fields) => if key in fields then Some(fields[key]) else None
    case JArray(items) =>
      var idx := ListIndex(key);
      assert forall i :: 0 <= i < |items| && NatToDecimal(i) == key ==> idx == Some(i) by {
        forall i | 0 <= i < |items| && NatToDecimal(i) == key ensures idx == Some(i) {
          NatToDecimalValue(i);
        }
      }
      if idx.Some? && idx.value < |items| then
        assert NatToDecimal(idx.value) == key;
        Some(items[idx.value])
      else None
  }

  /** A key that does not start with a digit, such as the ones the handler reads,
      is never found in a JSON list. */
  lemma ListHasNoWordKey(items: seq<Json>, key: string)
    requires key != [] && !('0' <= key[0] <= '9')
    ensures Get(JArray(items), key) == None
  {
    assert ListIndex(key).None?;
  }

  /** `$json[$key] ?? $default`: the stored value unless the key is absent or holds null. */
  function Coalesce(json: Json, key: string, default: Json): (r: Json)
    requires json.IsPhpArray()
    ensures Get(json, key).Some? && Get(json, key).value != JNull ==> r == Get(json, key).value
    ensures Get(json, key).None? || Get(json, key) == Some(JNull) ==> r == default
  {
    match Get(json, key)
    case Some(v) => if v == JNull then default else v
    case None => default
  }

  /** `isset($json[$key])`: the key is present and does not hold null. */
  predicate IsSet(json: Json, key: string)
    requires json.IsPhpArray()
  {
    Get(json, key).Some? && Get(json, key).value != JNull
  }

  /** `isset` and `??` agree: `??` keeps the stored value exactly when `isset` holds. */
  lemma IsSetCoalesce(json: Json, key: string, default: Json)
    requires json.IsPhpArray()
    ensures IsSet(json, key) ==> Coalesce(json, key, default) == Get(json, key).value
    ensures !IsSet(json, key) ==> Coalesce(json, key, default) == default
  {
  }

  // ---------------------------------------------------------------- implode

  /** The string `implode` makes of one element: PHP's string conversion. */
  function ToPhpString(v: Json, rt: Runtime): (r: string)
    ensures v.JString? ==> r == v.s
    ensures v.IsPhpArray() ==> r == "Array"
  {
    match v
    case JNull => ""
    case JBool(b) => if b then "1" else ""
    case JInt(i) => Decimal(i)
    case JFloat(f) => rt.floatToString(f)
    case JString(s) => s
    case JArray(_) => "Array"
    case JObject(_) => "Array"
  }

  /** `implode($sep, $parts)`: the elements' strings with `sep` between neighbours. */
  function Implode(sep: string, parts: seq<Json>, rt: Runtime): (r: string)
    ensures |parts| == 1 ==> r == ToPhpString(parts[0], rt)
    ensures |parts| == 2 ==> r == ToPhpString(parts[0], rt) + sep + ToPhpString(parts[1], rt)
    decreases |parts|
  {
    if parts == [] then ""
    else if |parts| == 1 then ToPhpString(parts[0], rt)
    else ToPhpString(parts[0], rt) + sep + Implode(sep, parts[1..], rt)
  }

  /** Appending a part to a non-empty list appends the separator and that part's string. */
  lemma {:induction false} ImplodeAppend(sep: string, parts: seq<Json>, p: Json, rt: Runtime)
    requires parts != []
    ensures Implode(sep, parts + [p], rt) == Implode(sep, parts, rt) + sep + ToPhpString(p, rt)
    decreases |parts|
  {
    if |parts| > 1 {
      assert (parts + [p])[1..] == parts[1..] + [p];
      ImplodeAppend(sep, parts[1..], p, rt);
    }
  }
}
