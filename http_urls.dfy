/**
 * How the HTTP helpers build a request URL from optional query data. The
 * server's `_get` and `_delete` and the browser's `http.get` carry the same
 * code, modelled here once.
 */
module HttpUrls {
  import opened Outcome
  import opened JsText
  import opened JsValue

  /**
   * The `data` argument as the URL builders inspect it: a string, an
   * object (its own enumerable properties in order), or anything else
   * (`undefined`, `null`, a number, a boolean).
   */
  datatype QueryData = Text(s: string) | Fields(pairs: seq<(string, Value)>) | Other

  /** `[key, value].join('=')`: `join` writes `null` and `undefined` as empty text. */
  function PairText(key: string, value: Value): (r: string)
    ensures value == Undefined || value == Null ==> r == key + "="
    ensures value != Undefined && value != Null ==> r == key + "=" + ToString(value)
  {
    key + "=" + (if value == Undefined || value == Null then "" else ToString(value))
  }

  /** `parts.join(sep)` */
  function JoinWith(parts: seq<string>, sep: char): string
    decreases |parts|
  {
    if parts == [] then ""
    else if |parts| == 1 then parts[0]
    else parts[0] + [sep] + JoinWith(parts[1..], sep)
  }

  /** The test for the separator character. */
  function IsSep(sep: char): char -> bool {
    c => c == sep
  }

  /** The first separator in `s` is at `i` (or there is none and `i` is `|s|`). */
  lemma FirstSepAt(s: string, sep: char, i: nat)
    requires i <= |s| && (i < |s| ==> s[i] == sep)
    requires forall k | 0 <= k < i :: s[k] != sep
    ensures FirstWhere(s, 0, IsSep(sep)) == i
  {
    assert forall k | 0 <= k < i :: !IsSep(sep)(s[k]);
    assert i < |s| ==> IsSep(sep)(s[i]);
  }

  /** `s.split(sep)` */
  function SplitOn(s: string, sep: char): (r: seq<string>)
    ensures |r| >= 1
    decreases |s|
  {
    var i := FirstWhere(s, 0, IsSep(sep));
    if i == |s| then [s] else [s[..i]] + SplitOn(s[i + 1..], sep)
  }

  /** Each property as `key=value`, passed through `encodeURI`, in property order. */
  function EncodedPairs(pairs: seq<(string, Value)>, encode: string -> string): (r: seq<string>)
    ensures |r| == |pairs|
    ensures forall i | 0 <= i < |pairs| :: r[i] == encode(PairText(pairs[i].0, pairs[i].1))
  {
    seq(|pairs|, i requires 0 <= i < |pairs| => encode(PairText(pairs[i].0, pairs[i].1)))
  }

  /**
   * The parameter text: a string as is (it is taken to be encoded already),
   * an object's `key=value` pairs, each passed through `encodeURI`, joined
   * by `&`; nothing for any other value.
   */
  function QueryParams(data: QueryData, encode: string -> string): (r: Option<string>)
    ensures data.Text? ==> r == Some(data.s)
    ensures data.Other? ==> r.None?
    ensures data.Fields? ==> r == Some(JoinWith(EncodedPairs(data.pairs, encode), '&'))
    ensures data.Fields? && data.pairs == [] ==> r == Some("")
  {
    match data
    case Text(s) => Some(s)
    case Fields(pairs) => Some(JoinWith(EncodedPairs(pairs, encode), '&'))
    case Other => None
  }

  /**
   * The URL requested: the parameters, when there are any, follow `&` if
   * the URL already has a `?` and `?` otherwise; without parameters the
   * URL is unchanged.
   */
  function RequestUrl(url: string, data: QueryData, encode: string -> string): (r: string)
    ensures QueryParams(data, encode).None? ==> r == url
    ensures QueryParams(data, encode).Some? ==>
      |r| == |url| + 1 + |QueryParams(data, encode).value|
      && r[..|url|] == url
      && r[|url|] == (if Contains(url, "?") then '&' else '?')
      && r[|url| + 1..] == QueryParams(data, encode).value
  {
    match QueryParams(data, encode)
    case None => url
    case Some(params) => url + [if Contains(url, "?") then '&' else '?'] + params
  }

  /** Whenever parameters are appended, the URL ends up with a query part. */
  lemma RequestUrlHasQuery(url: string, data: QueryData, encode: string -> string)
    requires !data.Other?
    ensures Contains(RequestUrl(url, data, encode), "?")
  {
    var r := RequestUrl(url, data, encode);
    if Contains(url, "?") {
      var i: nat :| i + 1 <= |url| && MatchesAt(url, i, "?");
      assert url[i] == url[i..i + 1][0] == '?';
      assert r[i] == r[..|url|][i] == '?';
      assert r[i..i + 1] == "?";
      assert MatchesAt(r, i, "?");
    } else {
      assert r[|url|..|url| + 1] == "?";
      assert MatchesAt(r, |url|, "?");
    }
  }

  /** A part free of the separator, then the separator: the split takes that part off first. */
  lemma SplitAtFirst(p: string, rest: string, sep: char)
    requires forall k | 0 <= k < |p| :: p[k] != sep
    ensures SplitOn(p + [sep] + rest, sep) == [p] + SplitOn(rest, sep)
  {
    var s := p + [sep] + rest;
    assert forall k | 0 <= k < |p| :: s[k] == p[k];
    FirstSepAt(s, sep, |p|);
    assert s[..|p|] == p;
    assert s[|p| + 1..] == rest;
  }

  /** Splitting a `&`-joined list gives the parts back when none contains `&`. */
  lemma {:induction false} SplitJoin(parts: seq<string>, sep: char)
    requires parts != []
    requires forall i, k | 0 <= i < |parts| && 0 <= k < |parts[i]| :: parts[i][k] != sep
    ensures SplitOn(JoinWith(parts, sep), sep) == parts
    decreases |parts|
  {
    if |parts| == 1 {
      FirstSepAt(parts[0], sep, |parts[0]|);
    } else {
      var tail := parts[1..];
      assert forall i, k | 0 <= i < |tail| && 0 <= k < |tail[i]| :: tail[i][k] != sep by {
        forall i, k | 0 <= i < |tail| && 0 <= k < |tail[i]| ensures tail[i][k] != sep {
          assert tail[i] == parts[i + 1];
        }
      }
      SplitJoin(tail, sep);
      SplitAtFirst(parts[0], JoinWith(tail, sep), sep);
      assert [parts[0]] + tail == parts;
    }
  }

  /**
   * The parameter text of an object splits back at `&` into the encoded
   * pairs, in property order, provided no encoded pair contains `&`.
   */
  lemma FieldsRoundTrip(pairs: seq<(string, Value)>, encode: string -> string)
    requires pairs != []
    requires forall i, k | 0 <= i < |pairs| && 0 <= k < |encode(PairText(pairs[i].0, pairs[i].1))| ::
      encode(PairText(pairs[i].0, pairs[i].1))[k] != '&'
    ensures SplitOn(QueryParams(Fields(pairs), encode).value, '&') == EncodedPairs(pairs, encode)
  {
    SplitJoin(EncodedPairs(pairs, encode), '&');
  }
}
