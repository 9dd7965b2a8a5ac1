/** Option and Result, used for JavaScript's `undefined` and for thrown errors. */
module Outcome {
  datatype Option<+T> = None | Some(value: T)

  datatype Result<+T, +E> = Ok(value: T) | Err(error: E)
}

/**
 * Character classes, case mapping, searching and decimal text as JavaScript
 * strings and regular expressions see them.  Strings are sequences of
 * Unicode scalar values.
 */
module JsText {
  import opened Outcome

  /** The characters the regular-expression class `\s` matches (also what `trim` strips). */
  predicate IsSpace(c: char) {
    || c == ' ' || c == '\t' || c == '\n' || c == '\r' || c == '\U{B}' || c == '\U{C}'
    || c == '\U{A0}' || c == '\U{1680}' || ('\U{2000}' <= c <= '\U{200A}')
    || c == '\U{2028}' || c == '\U{2029}' || c == '\U{202F}' || c == '\U{205F}'
    || c == '\U{3000}' || c == '\U{FEFF}'
  }

  /** The characters the regular-expression wildcard `.` does not match. */
  predicate IsLineTerminator(c: char) {
    c == '\n' || c == '\r' || c == '\U{2028}' || c == '\U{2029}'
  }

  predicate IsDigit(c: char) {
    '0' <= c <= '9'
  }

  predicate IsAsciiLetter(c: char) {
    'a' <= c <= 'z' || 'A' <= c <= 'Z'
  }

  predicate AllDigits(s: string) {
    forall i | 0 <= i < |s| :: IsDigit(s[i])
  }

  /** Case folding of an ASCII letter; what a case-insensitive (`/i`) regular expression compares. */
  function AsciiFold(c: char): (r: char)
    ensures IsAsciiLetter(c) ==> 'a' <= r <= 'z'
    ensures !IsAsciiLetter(c) ==> r == c
  {
    if 'A' <= c <= 'Z' then (c as int + 32) as char else c
  }

  predicate SameIgnoringAsciiCase(a: string, b: string) {
    |a| == |b| && forall i | 0 <= i < |a| :: AsciiFold(a[i]) == AsciiFold(b[i])
  }

  /** `pat` occurs in `s` at index `i`, ignoring the case of ASCII letters. */
  predicate MatchesAtCI(s: string, i: nat, pat: string) {
    i + |pat| <= |s| && SameIgnoringAsciiCase(s[i..i + |pat|], pat)
  }

  /** `/pat/i.test(s)` for a pattern that is a literal of ASCII characters. */
  predicate ContainsCI(s: string, pat: string) {
    exists i: nat | i + |pat| <= |s| :: MatchesAtCI(s, i, pat)
  }

  /** `s[i..]` starts with `pat`, case-sensitively. */
  predicate MatchesAt(s: string, i: nat, pat: string) {
    i + |pat| <= |s| && s[i..i + |pat|] == pat
  }

  predicate Contains(s: string, pat: string) {
    exists i: nat | i + |pat| <= |s| :: MatchesAt(s, i, pat)
  }

  /** The first index at or after `from` whose character satisfies `p`, or `|s|` if none does. */
  function FirstWhere(s: string, from: nat, p: char -> bool): (r: nat)
    requires from <= |s|
    ensures from <= r <= |s|
    ensures r < |s| ==> p(s[r])
    ensures forall k | from <= k < r :: !p(s[k])
    decreases |s| - from
  {
    if from == |s| then from
    else if p(s[from]) then from
    else FirstWhere(s, from + 1, p)
  }

  /** The largest index in `[lo, hi)` whose character satisfies `p`. */
  function LastWhere(s: string, lo: nat, hi: nat, p: char -> bool): (r: Option<nat>)
    requires lo <= hi <= |s|
    ensures r.Some? ==> lo <= r.value < hi && p(s[r.value])
    ensures r.Some? ==> forall k | r.value < k < hi :: !p(s[k])
    ensures r.None? ==> forall k | lo <= k < hi :: !p(s[k])
    decreases hi - lo
  {
    if lo == hi then None
    else if p(s[hi - 1]) then Some(hi - 1)
    else LastWhere(s, lo, hi - 1, p)
  }

  /** End of the run of `\s` characters that starts at `from`. */
  function SpaceRunEnd(s: string, from: nat): (r: nat)
    requires from <= |s|
    ensures from <= r <= |s|
    ensures r < |s| ==> !IsSpace(s[r])
    ensures forall k | from <= k < r :: IsSpace(s[k])
  {
    FirstWhere(s, from, c => !IsSpace(c))
  }

  /** Index of the first line terminator at or after `from` (or `|s|`): where a `.*` must stop. */
  function LineEnd(s: string, from: nat): (r: nat)
    requires from <= |s|
    ensures from <= r <= |s|
    ensures r < |s| ==> IsLineTerminator(s[r])
    ensures forall k | from <= k < r :: !IsLineTerminator(s[k])
  {
    FirstWhere(s, from, IsLineTerminator)
  }

  /** The first index at or after `from` where `pat` occurs, case-sensitively. */
  function IndexOf(s: string, pat: string, from: nat): (r: Option<nat>)
    requires from <= |s|
    ensures r.Some? ==> from <= r.value && MatchesAt(s, r.value, pat)
    ensures r.Some? ==> forall k: nat | from <= k < r.value :: !MatchesAt(s, k, pat)
    ensures r.None? ==> forall k: nat | from <= k :: !MatchesAt(s, k, pat)
    decreases |s| - from
  {
    if MatchesAt(s, from, pat) then Some(from)
    else if from == |s| then None
    else IndexOf(s, pat, from + 1)
  }

  /** The first index at or after `from` where `pat` occurs, ignoring ASCII case. */
  function IndexOfCI(s: string, pat: string, from: nat): (r: Option<nat>)
    requires from <= |s|
    ensures r.Some? ==> from <= r.value && MatchesAtCI(s, r.value, pat)
    ensures r.Some? ==> forall k: nat | from <= k < r.value :: !MatchesAtCI(s, k, pat)
    ensures r.None? ==> forall k: nat | from <= k :: !MatchesAtCI(s, k, pat)
    decreases |s| - from
  {
    if MatchesAtCI(s, from, pat) then Some(from)
    else if from == |s| then None
    else IndexOfCI(s, pat, from + 1)
  }

  /** `toUpperCase` of one character, modelled for Latin-1 (other characters are kept). */
  function UpperChar(c: char): string {
    if 'a' <= c <= 'z' || ('\U{E0}' <= c <= '\U{FE}' && c != '\U{F7}') then [(c as int - 32) as char]
    else if c == '\U{B5}' then ['\U{39C}']
    else if c == '\U{DF}' then "SS"
    else if c == '\U{FF}' then ['\U{178}']
    else [c]
  }

  /** `toLowerCase` of one character, modelled for Latin-1 and the upper-case images of `UpperChar`. */
  function LowerChar(c: char): char {
    if 'A' <= c <= 'Z' || ('\U{C0}' <= c <= '\U{DE}' && c != '\U{D7}') then (c as int + 32) as char
    else if c == '\U{39C}' then '\U{3BC}'
    else if c == '\U{178}' then '\U{FF}'
    else c
  }

  function Upper(s: string): string
    decreases |s|
  {
    if s == [] then [] else UpperChar(s[0]) + Upper(s[1..])
  }

  function Lower(s: string): (r: string)
    ensures |r| == |s|
    ensures forall i | 0 <= i < |s| :: r[i] == LowerChar(s[i])
  {
    seq(|s|, i requires 0 <= i < |s| => LowerChar(s[i]))
  }

  function DigitChar(d: nat): (c: char)
    requires d < 10
    ensures IsDigit(c)
  {
    ('0' as int + d) as char
  }

  function DigitValue(c: char): (d: nat)
    requires IsDigit(c)
    ensures d < 10 && DigitChar(d) == c
  {
    c as int - '0' as int
  }

  /** Decimal text of a natural number, as `String(n)` writes it. */
  function NatToDecimal(n: nat): (r: string)
    ensures |r| >= 1 && AllDigits(r)
    decreases n
  {
    if n < 10 then [DigitChar(n)] else NatToDecimal(n / 10) + [DigitChar(n % 10)]
  }

  /** The number a non-empty run of decimal digits denotes. */
  function DecimalValue(s: string): nat
    requires AllDigits(s)
    decreases |s|
  {
    if s == [] then 0 else DecimalValue(s[..|s| - 1]) * 10 + DigitValue(s[|s| - 1])
  }

  lemma {:induction false} DecimalRoundTrip(n: nat)
    ensures DecimalValue(NatToDecimal(n)) == n
    decreases n
  {
    if n >= 10 {
      var t := NatToDecimal(n);
      assert t[..|t| - 1] == NatToDecimal(n / 10);
      DecimalRoundTrip(n / 10);
    }
  }

  /** Decimal text of an integer, as `String(i)` writes it for |i| < 1e21; larger numbers, which JavaScript writes in exponent form, are not modelled. */
  function IntToDecimal(i: int): (r: string)
    ensures |r| >= 1
    ensures i >= 0 ==> AllDigits(r)
    ensures i < 0 ==> r[0] == '-' && AllDigits(r[1..])
  {
    if i < 0 then "-" + NatToDecimal(-i) else NatToDecimal(i)
  }
}

/** JavaScript values as far as the modelled code inspects them, with the conversions it relies on. */
module JsValue {
  import opened Outcome
  import opened JsText

  /** A JavaScript primitive; numbers are limited to integers and `NaN`. */
  datatype Value = Undefined | Null | NaN | Bool(b: bool) | Int(i: int) | Str(s: string)

  /** Reading a property of a plain object: a missing property reads as `undefined`. */
  function PropertyOf(obj: map<string, Value>, key: string): (v: Value)
    ensures key !in obj ==> v == Undefined
    ensures key in obj ==> v == obj[key]
  {
    if key in obj then obj[key] else Undefined
  }

  /** `!!v` */
  predicate Truthy(v: Value) {
    match v
    case Undefined => false
    case Null => false
    case NaN => false
    case Bool(b) => b
    case Int(i) => i != 0
    case Str(s) => s != ""
  }

  /** `String(v)` */
  function ToString(v: Value): string {
    match v
    case Undefined => "undefined"
    case Null => "null"
    case NaN => "NaN"
    case Bool(b) => if b then "true" else "false"
    case Int(i) => IntToDecimal(i)
    case Str(s) => s
  }

  /** `s` with leading `\s` characters removed. */
  function TrimStart(s: string): (r: string)
    ensures |r| <= |s| && r == s[|s| - |r|..]
    ensures r != [] ==> !IsSpace(r[0])
  {
    s[SpaceRunEnd(s, 0)..]
  }

  /** `s.trim()` */
  function Trim(s: string): (r: string)
    ensures r != [] ==> !IsSpace(r[0]) && !IsSpace(r[|r| - 1])
  {
    var t := TrimStart(s);
    var k := LastWhere(t, 0, |t|, c => !IsSpace(c));
    if k.None? then [] else t[..k.value + 1]
  }

  predicate IsHexDigit(c: char) {
    IsDigit(c) || 'a' <= c <= 'f' || 'A' <= c <= 'F'
  }

  function HexDigitValue(c: char): (d: nat)
    requires IsHexDigit(c)
    ensures d < 16
  {
    if IsDigit(c) then DigitValue(c)
    else if 'a' <= c <= 'f' then c as int - 'a' as int + 10
    else c as int - 'A' as int + 10
  }

  function HexValue(s: string): nat
    requires forall i | 0 <= i < |s| :: IsHexDigit(s[i])
    decreases |s|
  {
    if s == [] then 0 else HexValue(s[..|s| - 1]) * 16 + HexDigitValue(s[|s| - 1])
  }

  /** Length of the longest prefix of `s` made of characters satisfying `p`. */
  function PrefixLen(s: string, p: char -> bool): (n: nat)
    ensures n <= |s|
    ensures forall i | 0 <= i < n :: p(s[i])
    ensures n < |s| ==> !p(s[n])
  {
    FirstWhere(s, 0, c => !p(c))
  }

  /** The magnitude `parseInt` reads from unsigned text: hex after `0x`/`0X`, decimal otherwise. */
  function UnsignedPrefixValue(u: string): Option<nat> {
    if |u| >= 2 && u[0] == '0' && (u[1] == 'x' || u[1] == 'X') then
      var n := PrefixLen(u[2..], IsHexDigit);
      if n == 0 then None else Some(HexValue(u[2..][..n]))
    else
      var n := PrefixLen(u, IsDigit);
      if n == 0 then None else Some(DecimalValue(u[..n]))
  }

  /** `parseInt(s)` with no radix; `None` stands for `NaN`. */
  function ParseInt(s: string): (r: Option<int>) {
    var t := TrimStart(s);
    if t != [] && t[0] == '-' then
      match UnsignedPrefixValue(t[1..])
      case None => None
      case Some(n) => Some(0 - n as int)
    else if t != [] && t[0] == '+' then
      match UnsignedPrefixValue(t[1..])
      case None => None
      case Some(n) => Some(n)
    else
      match UnsignedPrefixValue(t)
      case None => None
      case Some(n) => Some(n)
  }

  /** The unsigned reading of a natural number's decimal text is that number. */
  lemma UnsignedOfDecimal(m: nat)
    ensures UnsignedPrefixValue(NatToDecimal(m)) == Some(m)
  {
    var u := NatToDecimal(m);
    assert PrefixLen(u, IsDigit) == |u|;
    assert u[..|u|] == u;
    DecimalRoundTrip(m);
  }

  /** Text that does not start with whitespace is its own `trimStart`. */
  lemma TrimStartOfUnspaced(s: string)
    requires s != [] && !IsSpace(s[0])
    ensures TrimStart(s) == s
  {
    assert SpaceRunEnd(s, 0) == 0;
  }

  /** `parseInt(String(i))` gives back `i`. */
  lemma ParseIntOfDecimal(i: int)
    ensures ParseInt(IntToDecimal(i)) == Some(i)
  {
    var t := IntToDecimal(i);
    var m: nat := if i < 0 then -i else i;
    UnsignedOfDecimal(m);
    if i < 0 {
      assert t == "-" + NatToDecimal(m);
      assert t[1..] == NatToDecimal(m);
      TrimStartOfUnspaced(t);
    } else {
      assert t == NatToDecimal(m);
      assert IsDigit(t[0]);
      TrimStartOfUnspaced(t);
    }
  }

  /** `parseInt("")`, or of text that is all whitespace, is `NaN`. */
  lemma ParseIntOfBlank(s: string)
    requires forall i | 0 <= i < |s| :: IsSpace(s[i])
    ensures ParseInt(s) == None
  {
    assert TrimStart(s) == [];
  }

  /** Whether `t` (already trimmed) is a `StrUnsignedDecimalLiteral` of `Number(...)`. */
  predicate IsUnsignedDecimal(u: string) {
    var a := PrefixLen(u, IsDigit);
    var rest := u[a..];
    var b := if rest != [] && rest[0] == '.' then PrefixLen(rest[1..], IsDigit) else 0;
    var after := if rest != [] && rest[0] == '.' then rest[1 + b..] else rest;
    && a + b > 0
    && (after == [] || IsExponent(after))
  }

  /** `e` or `E`, an optional sign, then one or more digits, and nothing else. */
  predicate IsExponent(e: string) {
    && |e| >= 2 && (e[0] == 'e' || e[0] == 'E')
    && var d := if e[1] == '+' || e[1] == '-' then e[2..] else e[1..];
       d != [] && AllDigits(d)
  }

  /** `0b…`, `0o…` or `0x…` with at least one digit of that base and nothing else. */
  predicate IsNonDecimalInteger(t: string) {
    && |t| > 2 && t[0] == '0'
    && var ds := t[2..];
       if t[1] == 'x' || t[1] == 'X' then forall i | 0 <= i < |ds| :: IsHexDigit(ds[i])
       else if t[1] == 'o' || t[1] == 'O' then forall i | 0 <= i < |ds| :: '0' <= ds[i] <= '7'
       else if t[1] == 'b' || t[1] == 'B' then forall i | 0 <= i < |ds| :: ds[i] == '0' || ds[i] == '1'
       else false
  }

  /** `Number(s)` is `NaN`: the trimmed text is neither empty nor a numeric literal. */
  predicate NumberIsNaN(s: string) {
    var t := Trim(s);
    var u := if t != [] && (t[0] == '+' || t[0] == '-') then t[1..] else t;
    !(t == [] || u == "Infinity" || IsUnsignedDecimal(u) || IsNonDecimalInteger(t))
  }

  /** The global `isNaN(v)`, which converts `v` with `Number` first. */
  predicate IsNaN(v: Value) {
    match v
    case Undefined => true
    case Null => false
    case NaN => true
    case Bool(_) => false
    case Int(_) => false
    case Str(s) => NumberIsNaN(s)
  }
}
