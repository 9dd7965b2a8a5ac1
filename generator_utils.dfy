/**
 * The generator's name and path helpers: git URL cleanup, PascalCase and
 * camelCase names, regular-expression escaping, the text of the injection
 * pattern, and file path joining.
 */
module GeneratorUtils {
  import opened Outcome
  import opened JsText
  import opened JsValue

  // ---------------------------------------------------------------------------
  // normalizeGit

  /** What `normalize-git-url` returns: the URL and the branch. */
  datatype GitUrl = GitUrl(url: string, branch: string)

  /** `normalizeGit`'s result: the cleaned URL, the branch, and the input as given. */
  datatype NormalizedGit = NormalizedGit(url: string, branch: string, rawUrl: Value)

  predicate EndsWith(s: string, suffix: string) {
    |suffix| <= |s| && s[|s| - |suffix|..] == suffix
  }

  /** `.replace(/\.git$/, '')` */
  function StripGitSuffix(u: string): (r: string)
    ensures EndsWith(u, ".git") ==> r + ".git" == u
    ensures !EndsWith(u, ".git") ==> r == u
  {
    if EndsWith(u, ".git") then u[..|u| - 4] else u
  }

  /** Length of the run of ASCII letters (either case) starting at `from`. */
  function LetterRunEnd(s: string, from: nat): (e: nat)
    requires from <= |s|
    ensures from <= e <= |s|
    ensures forall k | from <= k < e :: IsAsciiLetter(s[k])
    ensures e < |s| ==> !IsAsciiLetter(s[e])
  {
    FirstWhere(s, from, c => !IsAsciiLetter(c))
  }

  /**
   * The end of the match of `/^[a-z]+@|^https:\/\/[a-z]+@/i` at the start
   * of `u`, if there is one: letters then `@`, or `https://` (any case),
   * letters, then `@`.
   */
  function UserPrefixEnd(u: string): (r: Option<nat>)
    ensures r.Some? ==> UserPrefixAt(u, r.value)
    ensures r.Some? ==> forall e | 0 <= e <= |u| && UserPrefixAt(u, e) :: e == r.value
    ensures r.None? <==> forall e | 0 <= e <= |u| :: !UserPrefixAt(u, e)
  {
    var e1 := LetterRunEnd(u, 0);
    if e1 > 0 && e1 < |u| && u[e1] == '@' then
      assert UserPrefixAt(u, e1 + 1);
      Some(e1 + 1)
    else if MatchesAtCI(u, 0, "https://") then
      var e2 := LetterRunEnd(u, 8);
      if e2 > 8 && e2 < |u| && u[e2] == '@' then
        assert UserPrefixAt(u, e2 + 1);
        Some(e2 + 1)
      else None
    else None
  }

  /**
   * `/^[a-z]+@|^https:\/\/[a-z]+@/i` matches `u[..e]`: letters then `@`, or
   * `https://` (any case), letters, then `@`.
   */
  predicate UserPrefixAt(u: string, e: nat) {
    && 0 < e <= |u| && u[e - 1] == '@'
    && (|| (e >= 2 && forall k | 0 <= k < e - 1 :: IsAsciiLetter(u[k]))
        || (e >= 10 && MatchesAtCI(u, 0, "https://") && forall k | 8 <= k < e - 1 :: IsAsciiLetter(u[k])))
  }

  /** The `https://user@` form of the prefix is rewritable, up to its `@`. */
  lemma UserPrefixOfHttps(user: string, rest: string)
    requires user != "" && forall k | 0 <= k < |user| :: IsAsciiLetter(user[k])
    ensures UserPrefixEnd("https://" + user + "@" + rest) == Some(9 + |user|)
  {
    var u := "https://" + user + "@" + rest;
    assert u[..8] == "https://";
    assert MatchesAtCI(u, 0, "https://");
    assert forall k | 8 <= k < 8 + |user| :: u[k] == user[k - 8];
    assert u[8 + |user|] == '@';
    assert UserPrefixAt(u, 9 + |user|);
  }

  /** `.replace(/^[a-z]+@|^https:\/\/[a-z]+@/gi, 'https://')`: the pattern is anchored, so at most one match. */
  function RewriteUserPrefix(u: string): (r: string)
    ensures UserPrefixEnd(u).None? ==> r == u
    ensures UserPrefixEnd(u).Some? ==> r == "https://" + u[UserPrefixEnd(u).value..]
  {
    match UserPrefixEnd(u)
    case None => u
    case Some(e) => "https://" + u[e..]
  }

  predicate IsLowerAscii(c: char) {
    'a' <= c <= 'z'
  }

  /** `(\.[a-z]+):` matches from `p`, its `:` being at `e`. */
  predicate TldColonAt(u: string, p: nat, e: nat) {
    p + 1 < e < |u| && u[p] == '.' && u[e] == ':' && forall k | p < k < e :: IsLowerAscii(u[k])
  }

  /** The `:` of the leftmost match of `(\.[a-z]+):` starting at or after `from`. */
  function TldColonFrom(u: string, from: nat): (r: Option<nat>)
    requires from <= |u|
    ensures r.Some? ==> exists p: nat | from <= p :: TldColonAt(u, p, r.value)
    ensures r.Some? ==> forall p: nat, e: nat | from <= p && e < r.value :: !TldColonAt(u, p, e)
    ensures r.None? ==> forall p: nat, e: nat | from <= p :: !TldColonAt(u, p, e)
    decreases |u| - from
  {
    var p := FirstWhere(u, from, c => c == '.');
    if p == |u| then None
    else
      var e := FirstWhere(u, p + 1, c => !IsLowerAscii(c));
      if e > p + 1 && e < |u| && u[e] == ':' then
        assert TldColonAt(u, p, e);
        Some(e)
      else TldColonFrom(u, p + 1)
  }

  /** `.replace(/(\.[a-z]+):/, '$1/')`: the first `:` after a lower-case `.tld` becomes `/`. */
  function TldColonToSlash(u: string): (r: string)
    ensures |r| == |u|
    ensures TldColonFrom(u, 0).None? ==> r == u
    ensures TldColonFrom(u, 0).Some? ==>
      var e := TldColonFrom(u, 0).value;
      r[e] == '/' && forall k | 0 <= k < |u| && k != e :: r[k] == u[k]
  {
    match TldColonFrom(u, 0)
    case None => u
    case Some(e) => u[..e] + "/" + u[e + 1..]
  }

  /** The three cleanup steps, in order. */
  function CleanGitUrl(u: string): string
  {
    TldColonToSlash(RewriteUserPrefix(StripGitSuffix(u)))
  }

  /** `normalizeGit(rawUrl)`, with `normalize-git-url` as the parameter `ngu`. */
  function NormalizeGit(rawUrl: Value, ngu: string -> GitUrl): (r: NormalizedGit)
    ensures r.rawUrl == rawUrl
    ensures !(rawUrl.Str? && rawUrl.s != "") ==> r == NormalizedGit("", "", rawUrl)
    ensures rawUrl.Str? && rawUrl.s != "" ==>
      r.branch == ngu(rawUrl.s).branch && r.url == CleanGitUrl(ngu(rawUrl.s).url)
  {
    if !Truthy(rawUrl) || !rawUrl.Str? then NormalizedGit("", "", rawUrl)
    else
      var git := ngu(rawUrl.s);
      NormalizedGit(CleanGitUrl(git.url), git.branch, rawUrl)
  }

  /** A `user@` prefix of letters is rewritten to `https://`. */
  lemma RewriteUserAt(user: string, rest: string)
    requires |user| >= 1 && forall k | 0 <= k < |user| :: IsAsciiLetter(user[k])
    ensures RewriteUserPrefix(user + "@" + rest) == "https://" + rest
  {
    var u := user + "@" + rest;
    assert u[|user|] == '@';
    assert forall k | 0 <= k < |user| :: u[k] == user[k];
    assert LetterRunEnd(u, 0) == |user|;
    assert u[|user| + 1..] == rest;
  }

  /** In `https://host.tld:path`, with no dot in the host, the colon after the lower-case `tld` is the first match. */
  lemma TldColonOfHost(host: string, tld: string, path: string)
    requires forall k | 0 <= k < |host| :: host[k] != '.'
    requires |tld| >= 1 && forall k | 0 <= k < |tld| :: IsLowerAscii(tld[k])
    ensures var u := "https://" + host + "." + tld + ":" + path;
      TldColonFrom(u, 0) == Some(8 + |host| + 1 + |tld|)
  {
    var u := "https://" + host + "." + tld + ":" + path;
    var p := 8 + |host|;
    var e := p + 1 + |tld|;
    assert u[p] == '.' && u[e] == ':';
    assert forall k | p < k < e :: u[k] == tld[k - p - 1];
    assert TldColonAt(u, p, e);
    assert forall k | 0 <= k < p :: u[k] != '.' by {
      assert forall k | 0 <= k < 8 :: u[k] == "https://"[k];
      assert forall k | 8 <= k < p :: u[k] == host[k - 8];
    }
    assert forall p': nat, e': nat | e' < e :: !TldColonAt(u, p', e');
  }

  /** The `:` after the top-level domain becomes `/`. */
  lemma TldColonToSlashOfHost(host: string, tld: string, path: string)
    requires forall k | 0 <= k < |host| :: host[k] != '.'
    requires |tld| >= 1 && forall k | 0 <= k < |tld| :: IsLowerAscii(tld[k])
    ensures TldColonToSlash("https://" + host + "." + tld + ":" + path) == "https://" + host + "." + tld + "/" + path
  {
    var a := "https://" + host + "." + tld;
    TldColonOfHost(host, tld, path);
    assert |a| == 8 + |host| + 1 + |tld|;
    ColonBecomesSlash(a, path);
  }

  /** When the matched colon is the one right after `a`, `a:b` becomes `a/b`. */
  lemma ColonBecomesSlash(a: string, b: string)
    requires TldColonFrom(a + ":" + b, 0) == Some(|a|)
    ensures TldColonToSlash(a + ":" + b) == a + "/" + b
  {
    var u := a + ":" + b;
    assert u[..|a|] == a;
    assert u[|a| + 1..] == b;
  }

  lemma StripGitOf(x: string)
    ensures StripGitSuffix(x + ".git") == x
  {
    assert EndsWith(x + ".git", ".git");
  }

  /** An SSH address of a lower-case host becomes its HTTPS address. */
  lemma CleanSshUrl(user: string, host: string, tld: string, path: string)
    requires |user| >= 1 && forall k | 0 <= k < |user| :: IsAsciiLetter(user[k])
    requires forall k | 0 <= k < |host| :: host[k] != '.'
    requires |tld| >= 1 && forall k | 0 <= k < |tld| :: IsLowerAscii(tld[k])
    ensures CleanGitUrl(user + "@" + host + "." + tld + ":" + path + ".git") == "https://" + host + "." + tld + "/" + path
  {
    var rest := host + "." + tld + ":" + path;
    var u := user + "@" + rest + ".git";
    assert u == user + "@" + host + "." + tld + ":" + path + ".git";
    StripGitOf(user + "@" + rest);
    RewriteUserAt(user, rest);
    assert "https://" + rest == "https://" + host + "." + tld + ":" + path;
    TldColonToSlashOfHost(host, tld, path);
  }

  // ---------------------------------------------------------------------------
  // pascalCase and camelCase

  /** `[a-öA-Ö0-9]`: digits and the code points from `A` to `ö`. */
  predicate IsWordChar(c: char) {
    IsDigit(c) || ('A' <= c <= '\U{F6}')
  }

  predicate AllWordChars(w: string) {
    forall i | 0 <= i < |w| :: IsWordChar(w[i])
  }

  /** `s.split(/[^a-öA-Ö0-9]/)` from `from`: the pieces between separators, empty ones included. */
  function SegmentsFrom(s: string, from: nat): (r: seq<string>)
    requires from <= |s|
    ensures |r| >= 1
    ensures forall k | 0 <= k < |r| :: AllWordChars(r[k])
    decreases |s| - from
  {
    var i := FirstWhere(s, from, c => !IsWordChar(c));
    if i == |s| then [s[from..]]
    else [s[from..i]] + SegmentsFrom(s, i + 1)
  }

  function Segments(s: string): (r: seq<string>)
    ensures |r| >= 1
    ensures forall k | 0 <= k < |r| :: AllWordChars(r[k])
  {
    SegmentsFrom(s, 0)
  }

  predicate HasEmpty(ws: seq<string>) {
    exists k | 0 <= k < |ws| :: ws[k] == ""
  }

  /** Some piece after `from` is empty: `from` is the end, or a separator starts the rest, ends it, or follows another. */
  predicate EmptyPieceFrom(s: string, from: nat)
    requires from <= |s|
  {
    || from == |s|
    || !IsWordChar(s[from])
    || !IsWordChar(s[|s| - 1])
    || exists j | from <= j < |s| - 1 :: !IsWordChar(s[j]) && !IsWordChar(s[j + 1])
  }

  /** A list with a head piece has an empty piece when the head or some later piece is empty. */
  lemma HasEmptyCons(w: string, rest: seq<string>)
    ensures HasEmpty([w] + rest) <==> w == "" || HasEmpty(rest)
  {
    var ws := [w] + rest;
    if w == "" {
      assert ws[0] == "";
    }
    if HasEmpty(rest) {
      var k :| 0 <= k < |rest| && rest[k] == "";
      assert ws[k + 1] == "";
    }
    if HasEmpty(ws) && w != "" {
      var k :| 0 <= k < |ws| && ws[k] == "";
      assert k > 0 && rest[k - 1] == "";
    }
  }

  /**
   * With `i` the first separator at or after `from`, an empty piece lies
   * after `from` exactly when the separator is at `from` or an empty piece
   * lies after it.
   */
  lemma EmptyPieceStep(s: string, from: nat, i: nat)
    requires from <= i < |s| && !IsWordChar(s[i])
    requires forall k | from <= k < i :: IsWordChar(s[k])
    ensures EmptyPieceFrom(s, from) <==> i == from || EmptyPieceFrom(s, i + 1)
  {
    if EmptyPieceFrom(s, from) && i != from {
      assert IsWordChar(s[from]);
      if exists j | from <= j < |s| - 1 :: !IsWordChar(s[j]) && !IsWordChar(s[j + 1]) {
        var j :| from <= j < |s| - 1 && !IsWordChar(s[j]) && !IsWordChar(s[j + 1]);
        assert j >= i;
        if j == i {
          assert !IsWordChar(s[i + 1]);
        } else {
          assert i + 1 <= j;
        }
      }
    }
    if i + 1 < |s| && !IsWordChar(s[i + 1]) {
      assert !IsWordChar(s[i]);
    }
  }

  lemma {:induction false} EmptySegmentIff(s: string, from: nat)
    requires from <= |s|
    ensures HasEmpty(SegmentsFrom(s, from)) <==> EmptyPieceFrom(s, from)
    decreases |s| - from
  {
    var i := FirstWhere(s, from, c => !IsWordChar(c));
    var ws := SegmentsFrom(s, from);
    if i == |s| {
      assert ws == [s[from..]];
      if from < |s| {
        assert IsWordChar(s[from]) && IsWordChar(s[|s| - 1]);
        assert !HasEmpty(ws);
      } else {
        assert ws[0] == "";
      }
    } else {
      var rest := SegmentsFrom(s, i + 1);
      assert ws == [s[from..i]] + rest;
      assert s[from..i] == "" <==> i == from;
      HasEmptyCons(s[from..i], rest);
      EmptySegmentIff(s, i + 1);
      EmptyPieceStep(s, from, i);
    }
  }

  /** The pieces put back together, `seps[k]` between piece `k` and piece `k + 1`. */
  function Rejoin(ws: seq<string>, seps: string): string
    requires |ws| == |seps| + 1
    decreases |seps|
  {
    if seps == [] then ws[0] else ws[0] + [seps[0]] + Rejoin(ws[1..], seps[1..])
  }

  /** The separator characters `SegmentsFrom` splits at, in order. */
  ghost function SeparatorsFrom(s: string, from: nat): string
    requires from <= |s|
    decreases |s| - from
  {
    var i := FirstWhere(s, from, c => !IsWordChar(c));
    if i == |s| then [] else [s[i]] + SeparatorsFrom(s, i + 1)
  }

  /** No character of `seps` is a word character. */
  predicate NoWordChars(seps: string) {
    forall k | 0 <= k < |seps| :: !IsWordChar(seps[k])
  }

  lemma RejoinCons(w: string, c: char, ws: seq<string>, cs: string, t: string)
    requires |ws| == |cs| + 1 && Rejoin(ws, cs) == t
    ensures Rejoin([w] + ws, [c] + cs) == w + [c] + t
  {
    assert ([w] + ws)[1..] == ws && ([c] + cs)[1..] == cs;
  }

  lemma {:induction false} SegmentsFromRejoin(s: string, from: nat)
    requires from <= |s|
    ensures |SeparatorsFrom(s, from)| + 1 == |SegmentsFrom(s, from)|
    ensures NoWordChars(SeparatorsFrom(s, from))
    ensures Rejoin(SegmentsFrom(s, from), SeparatorsFrom(s, from)) == s[from..]
    decreases |s| - from
  {
    var i := FirstWhere(s, from, c => !IsWordChar(c));
    if i < |s| {
      SegmentsFromRejoin(s, i + 1);
      var ws, seps := SegmentsFrom(s, i + 1), SeparatorsFrom(s, i + 1);
      assert SegmentsFrom(s, from) == [s[from..i]] + ws;
      assert SeparatorsFrom(s, from) == [s[i]] + seps;
      RejoinCons(s[from..i], s[i], ws, seps, s[i + 1..]);
      assert s[from..] == s[from..i] + [s[i]] + s[i + 1..];
    }
  }

  /**
   * The split loses nothing: the pieces, with one non-word character put
   * back between each two, give the input again. As every piece is made of
   * word characters, the pieces are exactly the maximal runs of them.
   */
  lemma SegmentsRejoin(s: string)
    ensures exists seps: string ::
      && |seps| + 1 == |Segments(s)|
      && NoWordChars(seps)
      && Rejoin(Segments(s), seps) == s
  {
    SegmentsFromRejoin(s, 0);
    assert s[0..] == s;
    var seps := SeparatorsFrom(s, 0);
    assert Rejoin(Segments(s), seps) == s;
  }

  /** `subStr[0].toUpperCase() + subStr.slice(1)` */
  function Capitalize(w: string): (r: string)
    requires w != ""
    ensures |r| >= 1
    ensures |r| == |UpperChar(w[0])| + |w| - 1
    ensures r[..|UpperChar(w[0])|] == UpperChar(w[0]) && r[|UpperChar(w[0])|..] == w[1..]
  {
    UpperChar(w[0]) + w[1..]
  }

  /** Every piece capitalised, in order. */
  function Capitalized(ws: seq<string>): (r: seq<string>)
    requires !HasEmpty(ws)
    ensures |r| == |ws|
    ensures forall k | 0 <= k < |ws| :: r[k] == Capitalize(ws[k])
  {
    seq(|ws|, k requires 0 <= k < |ws| => Capitalize(ws[k]))
  }

  function Concat(ws: seq<string>): string
    decreases |ws|
  {
    if ws == [] then "" else ws[0] + Concat(ws[1..])
  }

  /** Why `pascalCase` throws: `subStr[0]` is `undefined` for an empty piece. */
  datatype CaseError = EmptySegment

  /**
   * `pascalCase(input)`: `""` for `""`; otherwise every piece capitalised
   * and joined, or a throw when some piece is empty.
   */
  function PascalCase(s: string): (r: Result<string, CaseError>)
    ensures s == "" ==> r == Ok("")
    ensures s != "" ==> (r.Err? <==> HasEmpty(Segments(s)))
    ensures s != "" && r.Ok? ==> r.value != ""
    ensures s != "" && r.Ok? ==>
      r.value == Concat(Capitalized(Segments(s)))
  {
    if s == "" then Ok("")
    else
      var ws := Segments(s);
      if HasEmpty(ws) then Err(EmptySegment)
      else
        var caps := Capitalized(ws);
        assert Concat(caps) == caps[0] + Concat(caps[1..]);
        Ok(Concat(caps))
  }

  /** `pascalCase` throws exactly on a leading, trailing or doubled separator. */
  lemma PascalCaseThrowsIff(s: string)
    requires s != ""
    ensures PascalCase(s).Err? <==>
      || !IsWordChar(s[0]) || !IsWordChar(s[|s| - 1])
      || exists i | 0 <= i < |s| - 1 :: !IsWordChar(s[i]) && !IsWordChar(s[i + 1])
  {
    EmptySegmentIff(s, 0);
  }

  /**
   * Reference definition of `pascalCase` read character by character:
   * separators are dropped, and a word character is upper-cased when it
   * opens the input or follows a separator.
   */
  function PascalByChars(s: string, atStart: bool): string
    decreases |s|
  {
    if s == "" then ""
    else if !IsWordChar(s[0]) then PascalByChars(s[1..], true)
    else (if atStart then UpperChar(s[0]) else [s[0]]) + PascalByChars(s[1..], false)
  }

  lemma {:induction false} PascalByCharsInWord(w: string, t: string)
    requires AllWordChars(w)
    ensures PascalByChars(w + t, false) == w + PascalByChars(t, false)
    decreases |w|
  {
    if w != "" {
      assert (w + t)[0] == w[0] && IsWordChar(w[0]);
      assert (w + t)[1..] == w[1..] + t;
      PascalByCharsInWord(w[1..], t);
      assert w + PascalByChars(t, false) == [w[0]] + (w[1..] + PascalByChars(t, false));
    } else {
      assert w + t == t;
    }
  }

  /** One non-empty piece followed by the rest: the piece comes out capitalised. */
  lemma PascalByCharsPiece(w: string, t: string)
    requires w != "" && AllWordChars(w)
    ensures PascalByChars(w + t, true) == Capitalize(w) + PascalByChars(t, false)
  {
    assert (w + t)[0] == w[0] && IsWordChar(w[0]);
    assert (w + t)[1..] == w[1..] + t;
    PascalByCharsInWord(w[1..], t);
  }

  /** A separator ends the piece before it and makes the next character open a piece. */
  lemma PascalByCharsSeparator(s: string, from: nat, i: nat)
    requires from < i < |s| && !IsWordChar(s[i])
    requires AllWordChars(s[from..i])
    ensures PascalByChars(s[from..], true) == Capitalize(s[from..i]) + PascalByChars(s[i + 1..], true)
  {
    var tail := s[i..];
    assert s[from..] == s[from..i] + tail;
    PascalByCharsPiece(s[from..i], tail);
    assert tail[0] == s[i] && tail[1..] == s[i + 1..];
  }

  lemma ConcatCapitalizedCons(w: string, rest: seq<string>)
    requires w != "" && !HasEmpty(rest)
    ensures !HasEmpty([w] + rest)
    ensures Concat(Capitalized([w] + rest)) == Capitalize(w) + Concat(Capitalized(rest))
  {
    HasEmptyCons(w, rest);
    var caps := Capitalized([w] + rest);
    assert caps[1..] == Capitalized(rest);
  }

  lemma LastPiece(w: string)
    requires w != "" && AllWordChars(w)
    ensures !HasEmpty([w])
    ensures Concat(Capitalized([w])) == PascalByChars(w, true)
  {
    assert [w] == [w] + [];
    ConcatCapitalizedCons(w, []);
    assert Concat(Capitalized([])) == "";
    PascalByCharsPiece(w, "");
    assert w + "" == w;
    assert PascalByChars("", false) == "";
  }

  /** The pieces agree with the reading of `t` after a separator, so one more piece in front agrees too. */
  lemma PascalPiecesStep(w: string, rest: seq<string>, t: string)
    requires w != "" && AllWordChars(w) && !HasEmpty(rest)
    requires Concat(Capitalized(rest)) == PascalByChars(t, true)
    ensures !HasEmpty([w] + rest)
    ensures Concat(Capitalized([w] + rest)) == Capitalize(w) + PascalByChars(t, true)
  {
    ConcatCapitalizedCons(w, rest);
  }

  lemma {:induction false} PascalByCharsOfSegments(s: string, from: nat)
    requires from <= |s|
    requires !HasEmpty(SegmentsFrom(s, from))
    ensures Concat(Capitalized(SegmentsFrom(s, from))) == PascalByChars(s[from..], true)
    decreases |s| - from
  {
    var ws := SegmentsFrom(s, from);
    var i := FirstWhere(s, from, c => !IsWordChar(c));
    if i == |s| {
      assert ws == [s[from..]];
      assert ws[0] != "";
      LastPiece(s[from..]);
    } else {
      var rest := SegmentsFrom(s, i + 1);
      assert ws == [s[from..i]] + rest;
      HasEmptyCons(s[from..i], rest);
      PascalByCharsOfSegments(s, i + 1);
      PascalPiecesStep(s[from..i], rest, s[i + 1..]);
      PascalByCharsSeparator(s, from, i);
    }
  }

  /**
   * `pascalCase` agrees with the character-by-character reading whenever
   * it does not throw.
   */
  lemma PascalCaseByChars(s: string)
    ensures PascalCase(s).Ok? ==> PascalCase(s).value == PascalByChars(s, true)
  {
    if s != "" && PascalCase(s).Ok? {
      PascalByCharsOfSegments(s, 0);
      assert s[0..] == s;
    }
  }

  /** Upper-casing a word character keeps it a word character, except for the micro sign. */
  lemma UpperWordChar(c: char)
    requires IsWordChar(c) && c != '\U{B5}'
    ensures AllWordChars(UpperChar(c))
  {
  }

  lemma {:induction false} ConcatOfWords(ws: seq<string>)
    requires forall k | 0 <= k < |ws| :: AllWordChars(ws[k])
    ensures AllWordChars(Concat(ws))
    decreases |ws|
  {
    if ws != [] {
      ConcatOfWords(ws[1..]);
      var rest := Concat(ws[1..]);
      assert Concat(ws) == ws[0] + rest;
      assert AllWordChars(ws[0]);
    }
  }

  /**
   * The result has no separator characters, as long as no piece starts
   * with the micro sign (whose upper case, U+039C, lies outside the class).
   */
  lemma PascalCaseHasNoSeparators(s: string)
    requires PascalCase(s).Ok?
    requires forall k | 0 <= k < |Segments(s)| && Segments(s)[k] != "" :: Segments(s)[k][0] != '\U{B5}'
    ensures AllWordChars(PascalCase(s).value)
  {
    if s != "" {
      var ws := Segments(s);
      var caps := seq(|ws|, i requires 0 <= i < |ws| => Capitalize(ws[i]));
      forall k | 0 <= k < |caps| ensures AllWordChars(caps[k]) {
        var w := ws[k];
        assert w != "" && AllWordChars(w);
        UpperWordChar(w[0]);
        assert caps[k] == UpperChar(w[0]) + w[1..];
      }
      ConcatOfWords(caps);
    }
  }

  /** `camelCase(input)`: `pascalCase(input)` with its first character lower-cased. */
  function CamelCase(s: string): (r: Result<string, CaseError>)
    ensures r.Err? <==> PascalCase(s).Err?
    ensures s == "" ==> r == Ok("")
    ensures s != "" && r.Ok? ==>
      var p := PascalCase(s).value;
      |r.value| == |p| && r.value[0] == LowerChar(p[0]) && r.value[1..] == p[1..]
  {
    match PascalCase(s)
    case Err(e) => Err(e)
    case Ok(p) => if s == "" then Ok("") else Ok([LowerChar(p[0])] + p[1..])
  }

  // ---------------------------------------------------------------------------
  // escapeRegex

  /** `[-[\]{}()*+?.,\\^$|#\s\/]`: the characters `escapeRegex` prefixes with a backslash. */
  predicate IsRegexSpecial(c: char) {
    || c == '-' || c == '[' || c == ']' || c == '{' || c == '}' || c == '(' || c == ')'
    || c == '*' || c == '+' || c == '?' || c == '.' || c == ',' || c == '\\' || c == '^'
    || c == '$' || c == '|' || c == '#' || c == '/' || IsSpace(c)
  }

  /** `text.replace(/[…]/g, "\\$&")`: a backslash before every special character. */
  function EscapeRegex(s: string): (r: string)
    ensures |r| >= |s|
    ensures s != [] && !IsRegexSpecial(s[0]) ==> r[0] == s[0]
    ensures s != [] && IsRegexSpecial(s[0]) ==> |r| >= 2 && r[0] == '\\' && r[1] == s[0]
    decreases |s|
  {
    if s == [] then []
    else (if IsRegexSpecial(s[0]) then ['\\', s[0]] else [s[0]]) + EscapeRegex(s[1..])
  }

  /** Drops the backslash before each escaped character. */
  function UnescapeRegex(s: string): string
    decreases |s|
  {
    if s == [] then []
    else if s[0] == '\\' && |s| >= 2 then [s[1]] + UnescapeRegex(s[2..])
    else [s[0]] + UnescapeRegex(s[1..])
  }

  /** Dropping the inserted backslashes gives back the input. */
  lemma {:induction false} UnescapeEscape(s: string)
    ensures UnescapeRegex(EscapeRegex(s)) == s
    decreases |s|
  {
    if s != [] {
      UnescapeEscape(s[1..]);
      var r := EscapeRegex(s);
      if IsRegexSpecial(s[0]) {
        assert r[2..] == EscapeRegex(s[1..]);
      } else {
        assert r[1..] == EscapeRegex(s[1..]);
      }
    }
  }

  /** Escaping works character by character. */
  lemma {:induction false} EscapeRegexAppend(a: string, b: string)
    ensures EscapeRegex(a + b) == EscapeRegex(a) + EscapeRegex(b)
    decreases |a|
  {
    if a != [] {
      assert (a + b)[0] == a[0] && (a + b)[1..] == a[1..] + b;
      EscapeRegexAppend(a[1..], b);
      var head := if IsRegexSpecial(a[0]) then ['\\', a[0]] else [a[0]];
      assert EscapeRegex(a + b) == head + EscapeRegex(a[1..] + b);
      assert EscapeRegex(a) == head + EscapeRegex(a[1..]);
    } else {
      assert a + b == b;
    }
  }

  /** A character is escaped exactly when special: the escape of one character. */
  lemma EscapeOneChar(c: char)
    ensures EscapeRegex([c]) == if IsRegexSpecial(c) then ['\\', c] else [c]
  {
    assert [c][1..] == [];
  }

  // ---------------------------------------------------------------------------
  // injectRegex

  /**
   * `String.prototype.replace`'s substitution of a replacement text for a
   * string pattern: `$$` is `$`, `$&` the match, `` $` `` the text before
   * it, `$'` the text after it; every other character stands for itself.
   */
  function Substitute(rep: string, matched: string, before: string, after: string): (r: string)
    ensures NoDollar(rep) ==> r == rep
    decreases |rep|
  {
    if rep == [] then []
    else if rep[0] == '$' && |rep| >= 2 && rep[1] == '$' then "$" + Substitute(rep[2..], matched, before, after)
    else if rep[0] == '$' && |rep| >= 2 && rep[1] == '&' then matched + Substitute(rep[2..], matched, before, after)
    else if rep[0] == '$' && |rep| >= 2 && rep[1] == '`' then before + Substitute(rep[2..], matched, before, after)
    else if rep[0] == '$' && |rep| >= 2 && rep[1] == '\'' then after + Substitute(rep[2..], matched, before, after)
    else [rep[0]] + Substitute(rep[1..], matched, before, after)
  }

  /** The body of the pattern between start and stop. */
  const AnyText := "([\\s\\S]*)"

  /** `(` first `)([\s\S]*)(?=` second `)` */
  function Enclose(first: string, second: string): (r: string)
    ensures |r| == |first| + |second| + 15
    ensures r[..1] == "(" && r[|r| - 1..] == ")"
    ensures r[1..1 + |first|] == first
    ensures r[1 + |first|..|r| - 1 - |second|] == ")" + AnyText + "(?="
    ensures r[|r| - 1 - |second|..|r| - 1] == second
  {
    var mid := ")" + AnyText + "(?=";
    assert |mid| == 13;
    var r := "(" + first + mid + second + ")";
    assert r[1..1 + |first|] == first;
    assert r[1 + |first|..1 + |first| + 13] == mid;
    assert r[1 + |first| + 13..|r| - 1] == second;
    r
  }

  /**
   * `injectRegex(start, stop)`'s pattern text as written:
   * `'({start})'.replace('{start}', escapeRegex(start))` and likewise for
   * `stop`, so `$` sequences in the escaped text are substituted.
   */
  function InjectPatternAsWritten(start: string, stop: string): (r: string)
    ensures |r| >= 2
    ensures r[..1] == "(" && r[|r| - 1..] == ")"
    ensures NoDollar(start) && NoDollar(stop) ==> r == InjectPattern(start, stop)
  {
    EscapedWithoutDollar(start, "{start}", "(", ")");
    EscapedWithoutDollar(stop, "{stop}", "(?=", ")");
    Enclose(Substitute(EscapeRegex(start), "{start}", "(", ")"), Substitute(EscapeRegex(stop), "{stop}", "(?=", ")"))
  }

  predicate NoDollar(s: string) {
    forall i | 0 <= i < |s| :: s[i] != '$'
  }

  /** Without `$`, a text escaped and used as a replacement comes out as the escaped text. */
  lemma EscapedWithoutDollar(s: string, matched: string, before: string, after: string)
    ensures NoDollar(s) ==> Substitute(EscapeRegex(s), matched, before, after) == EscapeRegex(s)
  {
    if NoDollar(s) {
      EscapeHasNoNewDollar(s);
    }
  }

  /** `start = "$&"` gives the pattern `(\{start})` rather than `(\$&)`. */
  lemma InjectPatternAsWrittenLosesDollar()
    ensures EscapeRegex("$&") == "\\$&"
    ensures InjectPattern("$&", "") == Enclose("\\$&", "")
    ensures InjectPatternAsWritten("$&", "") == Enclose("\\{start}", "")
    ensures InjectPatternAsWritten("$&", "") != InjectPattern("$&", "")
  {
    EscapeOfDollarAmp();
    SubstituteOfEscapedDollarAmp();
    assert EscapeRegex("") == "" && Substitute("", "{stop}", "(?=", ")") == "";
    EncloseDiffers("\\{start}", "\\$&", "");
  }

  /** Two patterns whose first texts differ at their second character differ. */
  lemma EncloseDiffers(a: string, b: string, second: string)
    requires |a| >= 2 && |b| >= 2 && a[1] != b[1]
    ensures Enclose(a, second) != Enclose(b, second)
  {
    var ea, eb := Enclose(a, second), Enclose(b, second);
    assert ea[1..1 + |a|] == a && ea[2] == a[1];
    assert eb[1..1 + |b|] == b && eb[2] == b[1];
  }

  /** `escapeRegex('$&')` puts a backslash before the dollar and keeps the ampersand. */
  lemma EscapeOfDollarAmp()
    ensures EscapeRegex("$&") == "\\$&"
  {
    assert EscapeRegex("&") == "&";
    assert EscapeRegex("$&") == "\\$" + EscapeRegex("&");
  }

  /** Used as a replacement, the escaped text's `$&` turns into the matched text `{start}`. */
  lemma SubstituteOfEscapedDollarAmp()
    ensures Substitute("\\$&", "{start}", "(", ")") == "\\{start}"
  {
    assert Substitute("&", "{start}", "(", ")") == "&";
    assert Substitute("$&", "{start}", "(", ")") == "{start}" + Substitute("", "{start}", "(", ")");
  }

  /** The pattern as intended: `(` escaped start `)([\s\S]*)(?=` escaped stop `)`. */
  function InjectPattern(start: string, stop: string): (r: string)
    ensures |r| == |EscapeRegex(start)| + |EscapeRegex(stop)| + 15
    ensures r[..1] == "(" && r[|r| - 1..] == ")"
    ensures r[1..1 + |EscapeRegex(start)|] == EscapeRegex(start)
    ensures r[1 + |EscapeRegex(start)|..|r| - 1 - |EscapeRegex(stop)|] == ")" + AnyText + "(?="
    ensures r[|r| - 1 - |EscapeRegex(stop)|..|r| - 1] == EscapeRegex(stop)
  {
    Enclose(EscapeRegex(start), EscapeRegex(stop))
  }

  lemma {:induction false} EscapeHasNoNewDollar(s: string)
    requires NoDollar(s)
    ensures NoDollar(EscapeRegex(s))
    decreases |s|
  {
    if s != [] {
      EscapeHasNoNewDollar(s[1..]);
      var head := if IsRegexSpecial(s[0]) then ['\\', s[0]] else [s[0]];
      assert EscapeRegex(s) == head + EscapeRegex(s[1..]);
    }
  }

  /** The start and stop texts are recovered from the pattern by unescaping. */
  lemma InjectPatternRecovers(start: string, stop: string)
    ensures var r := InjectPattern(start, stop);
      && UnescapeRegex(r[1..1 + |EscapeRegex(start)|]) == start
      && UnescapeRegex(r[|r| - 1 - |EscapeRegex(stop)|..|r| - 1]) == stop
  {
    UnescapeEscape(start);
    UnescapeEscape(stop);
  }

  // ---------------------------------------------------------------------------
  // createPathName

  /** `_.filter([a, b]).join(sep)`, the empty string being falsy. */
  function JoinNonEmpty(a: string, b: string, sep: string): (r: string)
    ensures a == "" ==> r == b
    ensures a != "" && b == "" ==> r == a
    ensures a != "" && b != "" ==> r == a + sep + b
  {
    if a == "" then b else if b == "" then a else a + sep + b
  }

  /**
   * `createPathName(basePath, typeName, filename, skipName)`: the file name
   * is `typeName` under an `api/services` path (any case), `filename` alone
   * for `index.js` or with `skipName`, and `typeName.filename` otherwise;
   * it is joined to the base path with `/`, empty parts dropped.
   */
  function CreatePathName(basePath: string, typeName: string, filename: string, skipName: bool): (r: string)
    ensures ContainsCI(basePath, "api/services") ==> r == JoinNonEmpty(basePath, typeName, "/")
    ensures !ContainsCI(basePath, "api/services") && (filename == "index.js" || skipName) ==>
      r == JoinNonEmpty(basePath, filename, "/")
    ensures !ContainsCI(basePath, "api/services") && filename != "index.js" && !skipName ==>
      r == JoinNonEmpty(basePath, JoinNonEmpty(typeName, filename, "."), "/")
  {
    var name :=
      if ContainsCI(basePath, "api/services") then typeName
      else JoinNonEmpty(if filename == "index.js" || skipName then "" else typeName, filename, ".");
    JoinNonEmpty(basePath, name, "/")
  }
}
