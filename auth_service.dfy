/**
 * The authentication service's token handling: where `findToken` looks
 * for a token and how it adds or strips the `Bearer ` prefix, which token
 * `decodeToken` decodes, and the shape of `guid`'s identifiers.
 */
module AuthService {
  import opened Outcome
  import opened JsText
  import opened JsValue

  // ---------------------------------------------------------------------------
  // findToken

  /** The parts of an Express request the service reads; an absent entry reads as `undefined`. */
  datatype Request = Request(query: map<string, Value>, headers: map<string, Value>, cookies: map<string, Value>)

  /** The token sources, in the order `findToken` lists them. */
  function Sources(req: Request): (r: seq<Value>)
    ensures |r| == 9
  {
    [ PropertyOf(req.query, "token"), PropertyOf(req.query, "access_token"),
      PropertyOf(req.headers, "token"), PropertyOf(req.headers, "authorization"), PropertyOf(req.headers, "Authorization"),
      PropertyOf(req.cookies, "token"), PropertyOf(req.cookies, "access_token"),
      PropertyOf(req.cookies, "authorization"), PropertyOf(req.cookies, "Authorization") ]
  }

  /** `_.find(values, token => !!token)`, as the index of the value found. */
  function FirstTruthy(values: seq<Value>): (r: Option<nat>)
    ensures r.Some? ==> r.value < |values| && Truthy(values[r.value])
    ensures r.Some? ==> forall j | 0 <= j < r.value :: !Truthy(values[j])
    ensures r.None? ==> forall j | 0 <= j < |values| :: !Truthy(values[j])
    decreases |values|
  {
    if values == [] then None
    else if Truthy(values[0]) then Some(0)
    else match FirstTruthy(values[1..])
      case None => None
      case Some(i) => Some(i + 1)
  }

  /** The token `_.find` picks: the first truthy source, or `undefined`. */
  function Found(req: Request): Value {
    match FirstTruthy(Sources(req))
    case None => Undefined
    case Some(i) => Sources(req)[i]
  }

  /** `/^Bearer /.test(token)`, which tests the token's string form. */
  predicate HasBearer(v: Value) {
    MatchesAt(ToString(v), 0, "Bearer ")
  }

  /** Only a string can carry the prefix: no other value's string form starts with `B`. */
  lemma BearerOnlyOnStrings(v: Value)
    ensures HasBearer(v) ==> v.Str?
  {
    if HasBearer(v) {
      var t := ToString(v);
      assert t[0] == t[..7][0] == 'B';
    }
  }

  /** `token.split(' ')[1]`: the text between the first and second space. */
  function SecondWord(s: string): (r: string)
    requires MatchesAt(s, 0, "Bearer ")
    ensures forall k | 0 <= k < |r| :: r[k] != ' '
    ensures |r| + 7 <= |s| && s[7..7 + |r|] == r
    ensures 7 + |r| < |s| ==> s[7 + |r|] == ' '
  {
    var t := s[7..];
    t[..FirstWhere(t, 0, c => c == ' ')]
  }

  /**
   * `findToken(req, tokenOnly)`: the first truthy source; without
   * `tokenOnly` it gets a `Bearer ` prefix unless it has one, with
   * `tokenOnly` a prefixed token is cut down to the word after the prefix.
   */
  function FindToken(req: Request, tokenOnly: bool): (r: Value)
    ensures FirstTruthy(Sources(req)).None? ==> r == Undefined
    ensures !tokenOnly && Truthy(Found(req)) && !HasBearer(Found(req)) ==>
      r == Str("Bearer " + ToString(Found(req)))
    ensures !tokenOnly && HasBearer(Found(req)) ==> r == Found(req)
    ensures tokenOnly && HasBearer(Found(req)) ==> r == Str(SecondWord(ToString(Found(req))))
    ensures tokenOnly && !HasBearer(Found(req)) ==> r == Found(req)
  {
    var token := Found(req);
    BearerOnlyOnStrings(token);
    if !tokenOnly && Truthy(token) && !HasBearer(token) then Str("Bearer " + ToString(token))
    else if tokenOnly && HasBearer(token) then Str(SecondWord(ToString(token)))
    else token
  }

  /**
   * The first truthy source wins: when source `i` is truthy and every
   * earlier one is falsy, the token is built from source `i`, whatever
   * the later sources hold.
   */
  lemma {:induction false} FoundIsFirstTruthy(req: Request, i: nat)
    requires i < 9 && Truthy(Sources(req)[i])
    requires forall j | 0 <= j < i :: !Truthy(Sources(req)[j])
    ensures Found(req) == Sources(req)[i]
  {
    var r := FirstTruthy(Sources(req));
    assert r.Some?;
    assert !(r.value < i);
    assert !(i < r.value);
  }

  /** With no truthy source there is no token, prefixed or not. */
  lemma NoSourceNoToken(req: Request, tokenOnly: bool)
    requires forall j | 0 <= j < 9 :: !Truthy(Sources(req)[j])
    ensures FindToken(req, tokenOnly) == Undefined
  {
    assert FirstTruthy(Sources(req)).None?;
  }

  /** Without `tokenOnly` every token found comes back as a string with the prefix. */
  lemma FullTokenHasBearer(req: Request)
    requires Truthy(Found(req))
    ensures FindToken(req, false).Str? && HasBearer(FindToken(req, false))
  {
    BearerOnlyOnStrings(Found(req));
  }

  /**
   * For a bare token without spaces, `tokenOnly` gives back exactly what
   * the prefixed form wraps: the two modes are inverse to each other.
   */
  lemma BearerRoundTrip(req: Request, t: string)
    requires Found(req) == Str(t) && t != "" && !MatchesAt(t, 0, "Bearer ")
    requires forall k | 0 <= k < |t| :: t[k] != ' '
    ensures FindToken(req, false) == Str("Bearer " + t)
    ensures FindToken(req, true) == Str(t)
    ensures SecondWord("Bearer " + t) == t
  {
    assert ("Bearer " + t)[7..] == t;
  }

  /** A source already holding `Bearer <token>` is stripped to the token in `tokenOnly` mode. */
  lemma PrefixedTokenStripped(req: Request, t: string)
    requires Found(req) == Str("Bearer " + t)
    requires forall k | 0 <= k < |t| :: t[k] != ' '
    ensures FindToken(req, false) == Str("Bearer " + t)
    ensures FindToken(req, true) == Str(t)
  {
    SecondWordOfPrefixed(t);
  }

  /** The word after the prefix of `Bearer <t>` is `t` when `t` has no space. */
  lemma SecondWordOfPrefixed(t: string)
    requires forall k | 0 <= k < |t| :: t[k] != ' '
    ensures MatchesAt("Bearer " + t, 0, "Bearer ")
    ensures SecondWord("Bearer " + t) == t
  {
    var s := "Bearer " + t;
    assert s[..7] == "Bearer ";
    var r := SecondWord(s);
    assert s[7..] == t;
    assert r == s[7..7 + |r|] == t[..|r|];
  }

  // ---------------------------------------------------------------------------
  // decodeToken

  /** `decodeToken`'s argument: a token string, or a request to search. */
  datatype TokenSource = Raw(token: string) | FromRequest(req: Request)

  /** The token handed to `jwt.decode`: a string argument as is, otherwise `findToken(req)`. */
  function TokenToDecode(arg: TokenSource): (r: Value)
    ensures arg.Raw? ==> r == Str(arg.token)
    ensures arg.FromRequest? ==> r == FindToken(arg.req, false)
  {
    match arg
    case Raw(t) => Str(t)
    case FromRequest(req) => FindToken(req, false)
  }

  /**
   * Given a request whose token is a bare word, `decodeToken(req)` would
   * decode the prefixed text, while the middleware's own path
   * (`findToken(req, true)` then `decodeToken` of that string) decodes the
   * bare token.
   */
  lemma DecodeFromRequestKeepsPrefix(req: Request, t: string)
    requires Found(req) == Str(t) && t != "" && !MatchesAt(t, 0, "Bearer ")
    requires forall k | 0 <= k < |t| :: t[k] != ' '
    ensures TokenToDecode(FromRequest(req)) == Str("Bearer " + t)
    ensures FindToken(req, true).Str? && TokenToDecode(Raw(FindToken(req, true).s)) == Str(t)
  {
    BearerRoundTrip(req, t);
  }

  // ---------------------------------------------------------------------------
  // guid

  function HexDigitChar(d: nat): (c: char)
    requires d < 16
    ensures IsHexDigit(c) && HexDigitValue(c) == d
  {
    if d < 10 then DigitChar(d) else ('a' as int + d - 10) as char
  }

  /** `n.toString(16)`: lower-case hexadecimal without leading zeros. */
  function NatToHex(n: nat): (r: string)
    ensures |r| >= 1 && forall k | 0 <= k < |r| :: IsHexDigit(r[k])
    decreases n
  {
    if n < 16 then [HexDigitChar(n)] else NatToHex(n / 16) + [HexDigitChar(n % 16)]
  }

  /** Reading the hexadecimal text back gives the number. */
  lemma {:induction false} HexRoundTrip(n: nat)
    ensures HexValue(NatToHex(n)) == n
    decreases n
  {
    if n >= 16 {
      var t := NatToHex(n);
      assert t[..|t| - 1] == NatToHex(n / 16);
      HexRoundTrip(n / 16);
    }
  }

  /** `Math.floor((1 + Math.random()) * 0x10000)` lies in this range. */
  predicate IsChunk(n: int) {
    0x10000 <= n <= 0x1FFFF
  }

  /** A chunk is written with exactly five hexadecimal digits, the first being `1`. */
  lemma ChunkHexShape(n: nat)
    requires IsChunk(n)
    ensures |NatToHex(n)| == 5 && NatToHex(n)[0] == '1'
  {
    var n1 := n / 16;
    var n2 := n1 / 16;
    var n3 := n2 / 16;
    var n4 := n3 / 16;
    assert n4 == 1;
    assert NatToHex(n4) == "1";
    assert |NatToHex(n3)| == 2;
    assert |NatToHex(n2)| == 3;
    assert |NatToHex(n1)| == 4;
    assert NatToHex(n) == NatToHex(n4) + [HexDigitChar(n3 % 16)] + [HexDigitChar(n2 % 16)]
      + [HexDigitChar(n1 % 16)] + [HexDigitChar(n % 16)];
  }

  /** `_.times(n, chunk).join('')` for the given chunks. */
  function HexRun(chunks: seq<nat>): (r: string)
    decreases |chunks|
  {
    if chunks == [] then "" else NatToHex(chunks[0]) + HexRun(chunks[1..])
  }

  /** How many chunks each of the five groups takes: `[2, 1, 1, 1, 3][i]`. */
  const GroupSizes: seq<nat> := [2, 1, 1, 1, 3]

  /** Where each group's chunks start among the eight. */
  const GroupStarts: seq<nat> := [0, 2, 3, 4, 5]

  /** `groups.join(sep)` */
  function Join(groups: seq<string>, sep: string): string
    decreases |groups|
  {
    if groups == [] then ""
    else if |groups| == 1 then groups[0]
    else groups[0] + sep + Join(groups[1..], sep)
  }

  /** The five groups: group `i` joins the next `GroupSizes[i]` chunks. */
  function Groups(chunks: seq<nat>): (r: seq<string>)
    requires |chunks| == 8
    ensures |r| == 5
  {
    seq(5, i requires 0 <= i < 5 => HexRun(chunks[GroupStarts[i]..GroupStarts[i] + GroupSizes[i]]))
  }

  /** `guid()`, with the eight random chunks given in the order they are drawn. */
  function Guid(chunks: seq<nat>): string
    requires |chunks| == 8
  {
    Join(Groups(chunks), "-")
  }

  /** Where chunk `k` starts: five characters per chunk before it, plus the dashes before it. */
  function ChunkOffset(k: nat): nat {
    5 * k + (if k < 2 then 0 else if k < 5 then k - 1 else 4)
  }

  lemma HexRunOfThree(a: nat, b: nat, c: nat)
    ensures HexRun([a, b, c]) == NatToHex(a) + NatToHex(b) + NatToHex(c)
  {
    assert [a, b, c][1..] == [b, c];
    assert [b, c][1..] == [c];
    assert [c][1..] == [];
    assert HexRun([c]) == NatToHex(c) + HexRun([]);
    assert HexRun([b, c]) == NatToHex(b) + HexRun([c]);
    assert HexRun([a, b, c]) == NatToHex(a) + HexRun([b, c]);
  }

  lemma HexRunOfTwo(a: nat, b: nat)
    ensures HexRun([a, b]) == NatToHex(a) + NatToHex(b)
  {
    assert [a, b][1..] == [b];
    assert [b][1..] == [];
    assert HexRun([b]) == NatToHex(b) + HexRun([]);
    assert HexRun([a, b]) == NatToHex(a) + HexRun([b]);
  }

  lemma HexRunOfOne(a: nat)
    ensures HexRun([a]) == NatToHex(a)
  {
    assert [a][1..] == [];
  }

  /** The five groups: two chunks, one, one, one, three. */
  lemma GroupsOfEight(chunks: seq<nat>)
    requires |chunks| == 8
    ensures Groups(chunks) == [
      NatToHex(chunks[0]) + NatToHex(chunks[1]), NatToHex(chunks[2]), NatToHex(chunks[3]),
      NatToHex(chunks[4]), NatToHex(chunks[5]) + NatToHex(chunks[6]) + NatToHex(chunks[7])]
  {
    var g := Groups(chunks);
    assert chunks[0..2] == [chunks[0], chunks[1]];
    HexRunOfTwo(chunks[0], chunks[1]);
    assert chunks[2..3] == [chunks[2]];
    HexRunOfOne(chunks[2]);
    assert chunks[3..4] == [chunks[3]];
    HexRunOfOne(chunks[3]);
    assert chunks[4..5] == [chunks[4]];
    HexRunOfOne(chunks[4]);
    assert chunks[5..8] == [chunks[5], chunks[6], chunks[7]];
    HexRunOfThree(chunks[5], chunks[6], chunks[7]);
  }

  lemma JoinOfFive(g: seq<string>, sep: string)
    requires |g| == 5
    ensures Join(g, sep) == g[0] + sep + g[1] + sep + g[2] + sep + g[3] + sep + g[4]
  {
    var g1 := g[1..];
    var g2 := g1[1..];
    var g3 := g2[1..];
    assert g3[1..] == [g[4]];
    assert Join(g3, sep) == g[3] + sep + g[4];
    assert Join(g2, sep) == g[2] + sep + Join(g3, sep);
    assert Join(g1, sep) == g[1] + sep + Join(g2, sep);
    assert Join(g, sep) == g[0] + sep + Join(g1, sep);
  }

  /** The identifier written out chunk by chunk. */
  lemma GuidLayout(chunks: seq<nat>)
    requires |chunks| == 8
    ensures Guid(chunks) ==
      NatToHex(chunks[0]) + NatToHex(chunks[1]) + "-" + NatToHex(chunks[2]) + "-" + NatToHex(chunks[3])
      + "-" + NatToHex(chunks[4]) + "-" + NatToHex(chunks[5]) + NatToHex(chunks[6]) + NatToHex(chunks[7])
  {
    GroupsOfEight(chunks);
    JoinOfFive(Groups(chunks), "-");
  }

  /** The chunks' texts sit at their offsets, separated by dashes at 10, 16, 22 and 28. */
  lemma GuidChunks(chunks: seq<nat>)
    requires |chunks| == 8 && forall k | 0 <= k < 8 :: IsChunk(chunks[k])
    ensures var g := Guid(chunks);
      && |g| == 44
      && g[10] == '-' && g[16] == '-' && g[22] == '-' && g[28] == '-'
      && forall k | 0 <= k < 8 :: g[ChunkOffset(k)..ChunkOffset(k) + 5] == NatToHex(chunks[k])
  {
    GuidLayout(chunks);
    var h0, h1, h2, h3 := NatToHex(chunks[0]), NatToHex(chunks[1]), NatToHex(chunks[2]), NatToHex(chunks[3]);
    var h4, h5, h6, h7 := NatToHex(chunks[4]), NatToHex(chunks[5]), NatToHex(chunks[6]), NatToHex(chunks[7]);
    ChunkHexShape(chunks[0]); ChunkHexShape(chunks[1]); ChunkHexShape(chunks[2]); ChunkHexShape(chunks[3]);
    ChunkHexShape(chunks[4]); ChunkHexShape(chunks[5]); ChunkHexShape(chunks[6]); ChunkHexShape(chunks[7]);
    GuidSlices(h0, h1, h2, h3, h4, h5, h6, h7);
    var g := Guid(chunks);
    forall k | 0 <= k < 8 ensures g[ChunkOffset(k)..ChunkOffset(k) + 5] == NatToHex(chunks[k]) {
      if k == 0 { assert ChunkOffset(k) == 0; }
      else if k == 1 { assert ChunkOffset(k) == 5; }
      else if k == 2 { assert ChunkOffset(k) == 11; }
      else if k == 3 { assert ChunkOffset(k) == 17; }
      else if k == 4 { assert ChunkOffset(k) == 23; }
      else if k == 5 { assert ChunkOffset(k) == 29; }
      else if k == 6 { assert ChunkOffset(k) == 34; }
      else { assert ChunkOffset(k) == 39; }
    }
  }

  /** Eight five-character texts laid out as a guid sit at 0, 5, 11, 17, 23, 29, 34 and 39. */
  lemma GuidSlices(h0: string, h1: string, h2: string, h3: string, h4: string, h5: string, h6: string, h7: string)
    requires |h0| == 5 && |h1| == 5 && |h2| == 5 && |h3| == 5
    requires |h4| == 5 && |h5| == 5 && |h6| == 5 && |h7| == 5
    ensures var g := h0 + h1 + "-" + h2 + "-" + h3 + "-" + h4 + "-" + h5 + h6 + h7;
      && |g| == 44 && g[10] == '-' && g[16] == '-' && g[22] == '-' && g[28] == '-'
      && g[0..5] == h0 && g[5..10] == h1 && g[11..16] == h2 && g[17..22] == h3
      && g[23..28] == h4 && g[29..34] == h5 && g[34..39] == h6 && g[39..44] == h7
  {
    var g := h0 + h1 + "-" + h2 + "-" + h3 + "-" + h4 + "-" + h5 + h6 + h7;
    assert g[0..5] == h0;
    assert g[5..10] == h1;
    assert g[11..16] == h2;
    assert g[17..22] == h3;
    assert g[23..28] == h4;
    assert g[29..34] == h5;
    assert g[34..39] == h6;
    assert g[39..44] == h7;
  }

  /** Every non-dash position lies inside some chunk's text. */
  lemma DigitsBetweenDashes(g: string)
    requires |g| == 44
    requires forall c, i | 0 <= c < 8 && ChunkOffset(c) <= i < ChunkOffset(c) + 5 :: IsHexDigit(g[i])
    ensures forall k | 0 <= k < 44 && k != 10 && k != 16 && k != 22 && k != 28 :: IsHexDigit(g[k])
  {
    forall k | 0 <= k < 44 && k != 10 && k != 16 && k != 22 && k != 28 ensures IsHexDigit(g[k]) {
      var c := if k < 10 then k / 5 else if k < 16 then 2 else if k < 22 then 3 else if k < 28 then 4 else 5 + (k - 29) / 5;
      assert ChunkOffset(c) <= k < ChunkOffset(c) + 5;
    }
  }

  /**
   * A guid is 44 characters: dashes at 10, 16, 22 and 28, hexadecimal
   * digits everywhere else, and each chunk readable back at its offset.
   */
  lemma GuidShape(chunks: seq<nat>)
    requires |chunks| == 8 && forall k | 0 <= k < 8 :: IsChunk(chunks[k])
    ensures var g := Guid(chunks);
      && |g| == 44
      && g[10] == '-' && g[16] == '-' && g[22] == '-' && g[28] == '-'
      && (forall k | 0 <= k < 44 && k != 10 && k != 16 && k != 22 && k != 28 :: IsHexDigit(g[k]))
      && (forall k | 0 <= k < 8 :: HexValue(g[ChunkOffset(k)..ChunkOffset(k) + 5]) == chunks[k])
  {
    GuidChunks(chunks);
    var g := Guid(chunks);
    forall k | 0 <= k < 8 ensures HexValue(g[ChunkOffset(k)..ChunkOffset(k) + 5]) == chunks[k] {
      HexRoundTrip(chunks[k]);
    }
    forall c, i | 0 <= c < 8 && ChunkOffset(c) <= i < ChunkOffset(c) + 5 ensures IsHexDigit(g[i]) {
      assert g[i] == g[ChunkOffset(c)..ChunkOffset(c) + 5][i - ChunkOffset(c)];
    }
    DigitsBetweenDashes(g);
  }
}
