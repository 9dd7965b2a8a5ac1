/**
 * `parseInitTable`: the column schema of a `CREATE TABLE` text, as the
 * server's SQL helper reads it.  Every regular expression of the source is
 * written out as a scanner whose contract states which match it finds
 * (leftmost start, greedy repetition, `.` stopping at line terminators).
 */
module SqlSchema {
  import opened Outcome
  import opened JsText

  /** A type constructor of the database driver: its own name, and whether it takes a size. */
  datatype TypeEntry = TypeEntry(driverName: string, sized: bool)

  /** The driver's type constructors by the (upper-case) name `_.get` looks up. */
  type TypeTable = map<string, TypeEntry>

  /** A size argument: a number of characters, or the driver's `MAX`. */
  datatype Size = Length(n: nat) | Max

  /** The value stored as a column's `type`. */
  datatype SqlType =
    | Missing                                          // the lookup found nothing: `undefined`
    | Bare(entry: TypeEntry)                           // the constructor itself, not called
    | Applied(entry: TypeEntry, param: Option<Size>)   // the constructor called with a size; an unsized one keeps none

  datatype Column = Column(name: string, nullable: bool, sqlType: SqlType, default: Option<string>)

  /** Why the parse threw; `parseInitTable` turns every one of them into `[]`. */
  datatype ParseError =
    | NoTableBody
    | NoColumnName(fragment: string)
    | NoTypeToken(fragment: string)
    | UnknownSizedType(key: string)

  const CreateTable := "CREATE TABLE"

  // ---------------------------------------------------------------------------
  // Step 1: /(CREATE TABLE.*\()([\S\s]*)(?=\)\s)/i, group 2

  predicate CloseParenSpaceAt(s: string, k: nat) {
    k + 1 < |s| && s[k] == ')' && IsSpace(s[k + 1])
  }

  predicate NoLineTerminator(s: string, lo: nat, hi: nat)
    requires lo <= hi <= |s|
  {
    forall k | lo <= k < hi :: !IsLineTerminator(s[k])
  }

  /** A position reached from `from` without crossing a line terminator lies on that line. */
  lemma WithinLine(s: string, from: nat)
    requires from <= |s|
    ensures forall k: nat | from <= k < |s| && NoLineTerminator(s, from, k) :: k <= LineEnd(s, from)
  {
  }

  /** A match of the body pattern: `CREATE TABLE` at `p`, the `(` of group 1 at `q` on the same line, the lookahead at `k`. */
  predicate BodyMatch(s: string, p: nat, q: nat, k: nat) {
    && MatchesAtCI(s, p, CreateTable)
    && p + |CreateTable| <= q < k < |s|
    && s[q] == '('
    && NoLineTerminator(s, p + |CreateTable|, q)
    && CloseParenSpaceAt(s, k)
  }

  /**
   * The match the expression returns: the leftmost start `p` that has one;
   * from there the greedy `.*` backs off only as far as the last `(` that
   * still matches, and the greedy body runs to the last `)` followed by
   * whitespace in the whole text.
   */
  ghost predicate FirstBodyMatch(s: string, p: nat, q: nat, k: nat) {
    && BodyMatch(s, p, q, k)
    && (forall p': nat, q': nat, k': nat | p' < p :: !BodyMatch(s, p', q', k'))
    && (forall q': nat | q < q' :: !BodyMatch(s, p, q', k))
    && (forall k': nat | k < k' :: !CloseParenSpaceAt(s, k'))
  }

  /** The largest `k < hi` where `)` is followed by whitespace. */
  function LastCloseParenSpace(s: string, hi: nat): (r: Option<nat>)
    ensures r.Some? ==> r.value < hi && CloseParenSpaceAt(s, r.value)
    ensures r.Some? ==> forall k: nat | r.value < k < hi :: !CloseParenSpaceAt(s, k)
    ensures r.None? ==> forall k: nat | k < hi :: !CloseParenSpaceAt(s, k)
    decreases hi
  {
    if hi == 0 then None
    else if CloseParenSpaceAt(s, hi - 1) then Some(hi - 1)
    else LastCloseParenSpace(s, hi - 1)
  }

  /** Group 1's `(` for a match starting at `p` and ending at `k`: the last `(` on that line before `k`. */
  function OpenParen(s: string, p: nat, k: nat): (r: Option<nat>)
    requires MatchesAtCI(s, p, CreateTable) && CloseParenSpaceAt(s, k)
    ensures r.Some? ==> BodyMatch(s, p, r.value, k)
    ensures r.Some? ==> forall q: nat | r.value < q :: !BodyMatch(s, p, q, k)
    ensures r.None? ==> forall q: nat :: !BodyMatch(s, p, q, k)
  {
    var from := p + |CreateTable|;
    var lineEnd := LineEnd(s, from);
    var hi := if k < lineEnd then k else lineEnd;
    WithinLine(s, from);
    if hi < from then None
    else LastWhere(s, from, hi, c => c == '(')
  }

  /** The leftmost start at or after `p` where the body pattern matches with its end at `k`, and group 1's `(` for it. */
  function BodyStartFrom(s: string, p: nat, k: nat): (r: Option<(nat, nat)>)
    requires p <= |s| && CloseParenSpaceAt(s, k)
    ensures r.Some? ==> p <= r.value.0 && BodyMatch(s, r.value.0, r.value.1, k)
    ensures r.Some? ==> forall p': nat, q': nat | p <= p' < r.value.0 :: !BodyMatch(s, p', q', k)
    ensures r.Some? ==> forall q': nat | r.value.1 < q' :: !BodyMatch(s, r.value.0, q', k)
    ensures r.None? ==> forall p': nat, q': nat | p <= p' :: !BodyMatch(s, p', q', k)
    decreases |s| - p
  {
    if MatchesAtCI(s, p, CreateTable) && OpenParen(s, p, k).Some? then Some((p, OpenParen(s, p, k).value))
    else
      NoBodyMatchAt(s, p, k);
      if p == |s| then None
      else BodyStartFrom(s, p + 1, k)
  }

  lemma NoBodyMatchAt(s: string, p: nat, k: nat)
    requires CloseParenSpaceAt(s, k)
    requires !(MatchesAtCI(s, p, CreateTable) && OpenParen(s, p, k).Some?)
    ensures forall q: nat :: !BodyMatch(s, p, q, k)
  {
  }

  /** The column-definition block: group 2 of the match the body pattern returns; none when it does not match. */
  function ExtractBody(s: string): (r: Option<string>)
    ensures r.Some? ==> exists p: nat, q: nat, k: nat :: FirstBodyMatch(s, p, q, k) && r.value == s[q + 1..k]
    ensures r.None? <==> forall p: nat, q: nat, k: nat :: !BodyMatch(s, p, q, k)
  {
    match LastCloseParenSpace(s, |s|)
    case None => None
    case Some(k) =>
      NoMatchBeyondLastClose(s, k);
      match BodyStartFrom(s, 0, k)
      case None => None
      case Some(pq) =>
        assert FirstBodyMatch(s, pq.0, pq.1, k);
        Some(s[pq.1 + 1..k])
  }

  /** Every match can be moved to the last lookahead position: the greedy body reaches it. */
  lemma NoMatchBeyondLastClose(s: string, k: nat)
    requires CloseParenSpaceAt(s, k)
    requires forall k': nat | k < k' < |s| :: !CloseParenSpaceAt(s, k')
    ensures forall p: nat, q: nat, k': nat | BodyMatch(s, p, q, k') :: BodyMatch(s, p, q, k)
  {
  }

  // ---------------------------------------------------------------------------
  // Step 2: split(/\,\s*(?=\[)/)

  /** A separator starts at `q`: a comma, whitespace, and then (not consumed) a `[`. */
  predicate SeparatorAt(s: string, q: nat) {
    q < |s| && s[q] == ',' && SpaceRunEnd(s, q + 1) < |s| && s[SpaceRunEnd(s, q + 1)] == '['
  }

  /** The text one separator consumes: a comma and then only whitespace. */
  predicate IsSeparatorText(t: string) {
    |t| >= 1 && t[0] == ',' && forall k | 1 <= k < |t| :: IsSpace(t[k])
  }

  /** Pieces with the separators that stood between them put back. */
  function Interleave(pieces: seq<string>, seps: seq<string>): string
    requires |pieces| == |seps| + 1
    decreases |seps|
  {
    if seps == [] then pieces[0] else pieces[0] + seps[0] + Interleave(pieces[1..], seps[1..])
  }

  /** `String.prototype.split` from piece start `p`, scanning at `q`. */
  function SplitFrom(s: string, p: nat, q: nat): (r: seq<string>)
    requires p <= q <= |s|
    requires p < |s| && p > 0 ==> s[p] == '['
    ensures |r| >= 1
    ensures forall i | 0 < i < |r| :: r[i] != [] && r[i][0] == '['
    ensures p > 0 && p < |s| ==> r[0] != [] && r[0][0] == '['
    decreases |s| - q
  {
    if q == |s| then [s[p..]]
    else if SeparatorAt(s, q) then
      var e := SpaceRunEnd(s, q + 1);
      [s[p..q]] + SplitFrom(s, e, e)
    else SplitFrom(s, p, q + 1)
  }

  /** The separators `SplitFrom` cuts out, in order. */
  ghost function SeparatorsFrom(s: string, p: nat, q: nat): (r: seq<string>)
    requires p <= q <= |s|
    decreases |s| - q
  {
    if q == |s| then []
    else if SeparatorAt(s, q) then
      var e := SpaceRunEnd(s, q + 1);
      [s[q..e]] + SeparatorsFrom(s, e, e)
    else SeparatorsFrom(s, p, q + 1)
  }

  /** Where the whitespace after `from` ends, when the run is all whitespace and stops at a non-blank. */
  lemma SpaceRunEndIs(s: string, from: nat, m: nat)
    requires from <= m < |s| && !IsSpace(s[m])
    requires forall k | from <= k < m :: IsSpace(s[k])
    ensures SpaceRunEnd(s, from) == m
  {
  }

  /** A separator inside a slice is a separator of the whole text. */
  lemma SeparatorOfSlice(s: string, p: nat, e: nat, j: nat)
    requires p <= e <= |s| && SeparatorAt(s[p..e], j)
    ensures SeparatorAt(s, p + j)
  {
    var t := s[p..e];
    var m := SpaceRunEnd(t, j + 1);
    SpaceRunEndIs(s, p + j + 1, p + m);
  }

  /** No piece from `p` to `e` holds a separator when none starts in between. */
  lemma NoSeparatorInPiece(s: string, p: nat, e: nat)
    requires p <= e <= |s|
    requires forall j | p <= j < e :: !SeparatorAt(s, j)
    ensures forall j: nat :: !SeparatorAt(s[p..e], j)
  {
    forall j: nat | SeparatorAt(s[p..e], j)
      ensures false
    {
      SeparatorOfSlice(s, p, e, j);
    }
  }

  lemma SlicesJoin(s: string, p: nat, q: nat, e: nat)
    requires p <= q <= e <= |s|
    ensures s[p..] == s[p..q] + s[q..e] + s[e..]
  {
    assert s[p..] == s[p..q] + s[q..];
    assert s[q..] == s[q..e] + s[e..];
  }

  lemma {:induction false} SplitFromRejoins(s: string, p: nat, q: nat)
    requires p <= q <= |s|
    requires p < |s| && p > 0 ==> s[p] == '['
    ensures |SeparatorsFrom(s, p, q)| + 1 == |SplitFrom(s, p, q)|
    ensures Interleave(SplitFrom(s, p, q), SeparatorsFrom(s, p, q)) == s[p..]
    ensures forall i | 0 <= i < |SeparatorsFrom(s, p, q)| :: IsSeparatorText(SeparatorsFrom(s, p, q)[i])
    decreases |s| - q
  {
    if q < |s| && SeparatorAt(s, q) {
      var e := SpaceRunEnd(s, q + 1);
      SplitFromRejoins(s, e, e);
      var rest, seps := SplitFrom(s, e, e), SeparatorsFrom(s, e, e);
      assert ([s[p..q]] + rest)[1..] == rest;
      assert ([s[q..e]] + seps)[1..] == seps;
      SlicesJoin(s, p, q, e);
    } else if q < |s| {
      SplitFromRejoins(s, p, q + 1);
    }
  }

  lemma {:induction false} SplitFromPiecesClean(s: string, p: nat, q: nat)
    requires p <= q <= |s|
    requires p < |s| && p > 0 ==> s[p] == '['
    requires forall j | p <= j < q :: !SeparatorAt(s, j)
    ensures forall i, j: nat | 0 <= i < |SplitFrom(s, p, q)| :: !SeparatorAt(SplitFrom(s, p, q)[i], j)
    decreases |s| - q
  {
    if q == |s| {
      NoSeparatorInPiece(s, p, |s|);
      assert s[p..|s|] == s[p..];
    } else if SeparatorAt(s, q) {
      var e := SpaceRunEnd(s, q + 1);
      SplitFromPiecesClean(s, e, e);
      NoSeparatorInPiece(s, p, q);
    } else {
      SplitFromPiecesClean(s, p, q + 1);
    }
  }

  /** The fragments of a column block: one per column definition, every one after the first starting with `[`. */
  function SplitColumns(body: string): (r: seq<string>)
    ensures |r| >= 1
    ensures forall i | 0 < i < |r| :: r[i] != [] && r[i][0] == '['
  {
    SplitFrom(body, 0, 0)
  }

  /**
   * The fragments are the text between the separators: put back in order,
   * separators rejoin them to the block, and no fragment holds a separator.
   */
  lemma SplitColumnsSpec(body: string)
    ensures exists seps: seq<string> ::
      (&& |seps| + 1 == |SplitColumns(body)|
       && (forall i | 0 <= i < |seps| :: IsSeparatorText(seps[i]))
       && Interleave(SplitColumns(body), seps) == body)
    ensures forall i, j: nat | 0 <= i < |SplitColumns(body)| :: !SeparatorAt(SplitColumns(body)[i], j)
  {
    SplitFromRejoins(body, 0, 0);
    SplitFromPiecesClean(body, 0, 0);
    assert body[0..] == body;
    var seps := SeparatorsFrom(body, 0, 0);
    assert Interleave(SplitColumns(body), seps) == body;
  }

  // ---------------------------------------------------------------------------
  // Step 3: replace(/\s{2,}/g, '')

  predicate NoAdjacentSpaces(s: string) {
    forall i | 0 <= i < |s| - 1 :: !(IsSpace(s[i]) && IsSpace(s[i + 1]))
  }

  /** The non-whitespace characters of `s`, in order. */
  function NonSpace(s: string): string
    decreases |s|
  {
    if s == [] then [] else (if IsSpace(s[0]) then [] else [s[0]]) + NonSpace(s[1..])
  }

  lemma {:induction false} NonSpaceSkipsSpaces(s: string, e: nat)
    requires e <= |s| && forall k | 0 <= k < e :: IsSpace(s[k])
    ensures NonSpace(s) == NonSpace(s[e..])
    decreases e
  {
    if e > 0 {
      assert s[1..][e - 1..] == s[e..];
      NonSpaceSkipsSpaces(s[1..], e - 1);
    }
  }

  /** Deletes every run of two or more whitespace characters; single ones stay. */
  function DropSpaceRuns(s: string): (r: string)
    ensures NoAdjacentSpaces(r)
    ensures NonSpace(r) == NonSpace(s)
    ensures s != [] && !IsSpace(s[0]) ==> r != [] && r[0] == s[0]
    decreases |s|
  {
    if s == [] then []
    else if |s| >= 2 && IsSpace(s[0]) && IsSpace(s[1]) then
      var e := SpaceRunEnd(s, 0);
      NonSpaceSkipsSpaces(s, e);
      DropSpaceRuns(s[e..])
    else
      var rest := DropSpaceRuns(s[1..]);
      assert NonSpace(s) == (if IsSpace(s[0]) then [] else [s[0]]) + NonSpace(s[1..]);
      [s[0]] + rest
  }

  /** The character at `k` is whitespace with whitespace next to it: part of a run of two or more. */
  predicate InSpaceRun(s: string, k: nat)
    requires k < |s|
  {
    IsSpace(s[k]) && ((k > 0 && IsSpace(s[k - 1])) || (k + 1 < |s| && IsSpace(s[k + 1])))
  }

  /** Reference: the characters from `from` on that are not in a whitespace run, in order. */
  function KeptOutsideRuns(s: string, from: nat): string
    requires from <= |s|
    decreases |s| - from
  {
    if from == |s| then []
    else (if InSpaceRun(s, from) then [] else [s[from]]) + KeptOutsideRuns(s, from + 1)
  }

  lemma {:induction false} SkipRun(s: string, from: nat, m: nat)
    requires from <= m <= |s|
    requires forall k | from <= k < m :: InSpaceRun(s, k)
    ensures KeptOutsideRuns(s, from) == KeptOutsideRuns(s, m)
    decreases m - from
  {
    if from < m {
      SkipRun(s, from + 1, m);
    }
  }

  /** Every character of a run of two or more whitespace characters has a whitespace neighbour. */
  lemma RunIsInSpaceRun(s: string, from: nat, e: nat)
    requires RunStartsAt(s, from) && e == SpaceRunEnd(s[from..], 0)
    ensures from + e <= |s|
    ensures forall k | from <= k < from + e :: InSpaceRun(s, k)
  {
    var t := s[from..];
    forall k | from <= k < from + e
      ensures InSpaceRun(s, k)
    {
      assert s[k] == t[k - from];
      if k == from {
        assert IsSpace(s[from + 1]);
      } else {
        assert s[k - 1] == t[k - from - 1];
      }
    }
  }

  /** A run of two or more whitespace characters starting at `from` contributes nothing. */
  lemma RunContributesNothing(s: string, from: nat, e: nat)
    requires RunStartsAt(s, from) && e == SpaceRunEnd(s[from..], 0)
    ensures from + e <= |s|
    ensures KeptOutsideRuns(s, from) == KeptOutsideRuns(s, from + e)
  {
    RunIsInSpaceRun(s, from, e);
    SkipRun(s, from, from + e);
  }

  /** The scan resumes after the run at a boundary. */
  lemma RunEndsAtBoundary(s: string, from: nat, e: nat)
    requires from <= |s| && e == SpaceRunEnd(s[from..], 0)
    ensures from + e <= |s| && RunBoundary(s, from + e)
  {
    if from + e < |s| {
      assert s[from + e] == s[from..][e];
      assert !IsSpace(s[from + e]);
    }
  }

  lemma DropSpaceRunsOfRun(t: string)
    requires |t| >= 2 && IsSpace(t[0]) && IsSpace(t[1])
    ensures DropSpaceRuns(t) == DropSpaceRuns(t[SpaceRunEnd(t, 0)..])
  {
  }

  lemma DropSpaceRunsOfKept(t: string)
    requires t != [] && !(|t| >= 2 && IsSpace(t[0]) && IsSpace(t[1]))
    ensures DropSpaceRuns(t) == [t[0]] + DropSpaceRuns(t[1..])
  {
  }

  /** Two whitespace characters start at `from`: a run `DropSpaceRuns` deletes. */
  predicate RunStartsAt(s: string, from: nat) {
    from + 2 <= |s| && IsSpace(s[from]) && IsSpace(s[from + 1])
  }

  /** `from` is not inside a whitespace run: a suffix from there is treated as the whole text. */
  predicate RunBoundary(s: string, from: nat) {
    from == 0 || from >= |s| || !IsSpace(s[from - 1]) || !IsSpace(s[from])
  }

  /** A run of two or more whitespace characters at `from` is skipped on both sides. */
  lemma DropRunsSkip(s: string, from: nat, e: nat)
    requires RunStartsAt(s, from) && e == SpaceRunEnd(s[from..], 0)
    requires from + e <= |s| && DropAgrees(s, from + e)
    ensures DropAgrees(s, from)
  {
    var t := s[from..];
    RunContributesNothing(s, from, e);
    DropSpaceRunsOfRun(t);
    assert t[e..] == s[from + e..];
  }

  /** Any other character at `from` is kept on both sides. */
  lemma DropRunsKeep(s: string, from: nat)
    requires from < |s| && RunBoundary(s, from) && !RunStartsAt(s, from)
    requires DropAgrees(s, from + 1)
    ensures DropAgrees(s, from)
  {
    var t := s[from..];
    assert !InSpaceRun(s, from);
    DropSpaceRunsOfKept(t);
    assert t[1..] == s[from + 1..];
  }

  /** Where the scan goes next: past the run, or past one kept character; either way a boundary. */
  lemma NextBoundary(s: string, from: nat)
    requires from < |s|
    ensures RunStartsAt(s, from) ==> from + SpaceRunEnd(s[from..], 0) <= |s| && RunBoundary(s, from + SpaceRunEnd(s[from..], 0))
    ensures !RunStartsAt(s, from) ==> RunBoundary(s, from + 1)
  {
    if RunStartsAt(s, from) {
      RunEndsAtBoundary(s, from, SpaceRunEnd(s[from..], 0));
    }
  }

  /** `DropSpaceRuns` on the suffix at `from` keeps what the reference keeps from there. */
  predicate DropAgrees(s: string, from: nat)
    requires from <= |s|
  {
    DropSpaceRuns(s[from..]) == KeptOutsideRuns(s, from)
  }

  lemma DropAgreesAtEnd(s: string)
    ensures DropAgrees(s, |s|)
  {
    assert s[|s|..] == [];
  }

  lemma {:induction false} DropRunsFrom(s: string, from: nat)
    requires from <= |s| && RunBoundary(s, from)
    ensures DropAgrees(s, from)
    decreases |s| - from
  {
    if from == |s| {
      DropAgreesAtEnd(s);
    } else {
      NextBoundary(s, from);
      if RunStartsAt(s, from) {
        var e := SpaceRunEnd(s[from..], 0);
        DropRunsFrom(s, from + e);
        DropRunsSkip(s, from, e);
      } else {
        DropRunsFrom(s, from + 1);
        DropRunsKeep(s, from);
      }
    }
  }

  /** Exactly the whitespace characters that have a whitespace neighbour are deleted; every other character stays, in order. */
  lemma DropSpaceRunsSpec(s: string)
    ensures DropSpaceRuns(s) == KeptOutsideRuns(s, 0)
  {
    assert s[0..] == s;
    DropRunsFrom(s, 0);
  }

  // ---------------------------------------------------------------------------
  // Step 4: replace(/\s*\-\-.*/, '')

  /** Start of the whitespace run that ends at `m`. */
  function SpaceRunStart(s: string, m: nat): (q: nat)
    requires m <= |s|
    ensures q <= m
    ensures forall k | q <= k < m :: IsSpace(s[k])
    ensures q > 0 ==> !IsSpace(s[q - 1])
  {
    match LastWhere(s, 0, m, c => !IsSpace(c))
    case None => 0
    case Some(k) => k + 1
  }

  /**
   * `\s*\-\-.*` matches `line[q..e]`: the first `--` is at `m`, `q` starts
   * the whitespace run right before it, and `e` ends its line.
   */
  predicate CommentMatch(line: string, q: nat, m: nat, e: nat) {
    && q <= m && m + 2 <= e <= |line|
    && MatchesAt(line, m, "--") && (forall k: nat | k < m :: !MatchesAt(line, k, "--"))
    && (forall k | q <= k < m :: IsSpace(line[k])) && (q == 0 || !IsSpace(line[q - 1]))
    && (e < |line| ==> IsLineTerminator(line[e]))
    && NoLineTerminator(line, m + 2, e)
  }

  /** Removes the first `--` comment: the whole whitespace run before it and the rest of its line. */
  function StripComment(line: string): (r: string)
    ensures !Contains(line, "--") ==> r == line
    ensures Contains(line, "--") ==> exists q: nat, m: nat, e: nat :: CommentMatch(line, q, m, e) && r == line[..q] + line[e..]
  {
    match IndexOf(line, "--", 0)
    case None => line
    case Some(m) =>
      var q := SpaceRunStart(line, m);
      var e := LineEnd(line, m + 2);
      assert CommentMatch(line, q, m, e);
      line[..q] + line[e..]
  }

  // ---------------------------------------------------------------------------
  // Step 5: the identity filter

  const IdentityMarker := "identity("

  /** With `skipIdentity` (the default), a fragment mentioning `identity(` in any case is dropped. */
  predicate KeepFragment(line: string, skipIdentity: bool) {
    !skipIdentity || !ContainsCI(line, IdentityMarker)
  }

  function KeptFragments(lines: seq<string>, skipIdentity: bool): (r: seq<string>)
    ensures forall f | f in r :: f in lines && KeepFragment(f, skipIdentity)
    ensures forall f | f in lines && KeepFragment(f, skipIdentity) :: f in r
    ensures IsSubsequence(r, lines)
    decreases |lines|
  {
    if lines == [] then []
    else
      var rest := KeptFragments(lines[1..], skipIdentity);
      if KeepFragment(lines[0], skipIdentity) then
        assert ([lines[0]] + rest)[1..] == rest;
        [lines[0]] + rest
      else rest
  }

  /** Without `skipIdentity` no fragment is dropped. */
  lemma {:induction false} AllKeptWithoutSkipIdentity(lines: seq<string>)
    ensures KeptFragments(lines, false) == lines
    decreases |lines|
  {
    if lines != [] {
      AllKeptWithoutSkipIdentity(lines[1..]);
    }
  }

  // ---------------------------------------------------------------------------
  // Step 6: one column from one fragment

  /** `/\[(.+)\]/` matches with the `[` at `q` and the `]` at `k`. */
  predicate NameMatch(s: string, q: nat, k: nat) {
    q + 2 <= k < |s| && s[q] == '[' && s[k] == ']' && NoLineTerminator(s, q + 1, k)
  }

  /** The match it returns: the leftmost `[` that has one, closed by the last `]` that still matches. */
  ghost predicate FirstNameMatch(s: string, q: nat, k: nat) {
    && NameMatch(s, q, k)
    && (forall q': nat, k': nat | q' < q :: !NameMatch(s, q', k'))
    && (forall k': nat | k < k' :: !NameMatch(s, q, k'))
  }

  /** For the `[` at `q`: the last `]` at least two further on and on the same line. */
  function NameEnd(s: string, q: nat): (r: Option<nat>)
    requires q < |s| && s[q] == '['
    ensures r.Some? ==> NameMatch(s, q, r.value) && forall k: nat | r.value < k :: !NameMatch(s, q, k)
    ensures r.None? ==> forall k: nat :: !NameMatch(s, q, k)
  {
    var e := LineEnd(s, q + 1);
    WithinLine(s, q + 1);
    if e < q + 2 then None
    else LastWhere(s, q + 2, e, c => c == ']')
  }

  /** The leftmost `[` at or after `from` that starts a name match, and the `]` that ends it. */
  function NamePos(s: string, from: nat): (r: Option<(nat, nat)>)
    requires from <= |s|
    ensures r.Some? ==> from <= r.value.0 && NameMatch(s, r.value.0, r.value.1)
    ensures r.Some? ==> forall q: nat, k: nat | from <= q < r.value.0 :: !NameMatch(s, q, k)
    ensures r.Some? ==> forall k: nat | r.value.1 < k :: !NameMatch(s, r.value.0, k)
    ensures r.None? ==> forall q: nat, k: nat | from <= q :: !NameMatch(s, q, k)
    decreases |s| - from
  {
    var q := FirstWhere(s, from, c => c == '[');
    NoNameMatchBefore(s, from, q);
    if q == |s| then None
    else match NameEnd(s, q)
      case Some(k) => Some((q, k))
      case None => NamePos(s, q + 1)
  }

  lemma NoNameMatchBefore(s: string, from: nat, q: nat)
    requires from <= q <= |s| && forall k | from <= k < q :: s[k] != '['
    ensures forall q': nat, k: nat | from <= q' < q :: !NameMatch(s, q', k)
  {
  }

  /** The column name: group 1 of `/\[(.+)\]/`; none when the expression does not match (the source throws). */
  function ColumnName(line: string): (r: Option<string>)
    ensures r.Some? ==> exists q: nat, k: nat :: FirstNameMatch(line, q, k) && r.value == line[q + 1..k]
    ensures r.Some? ==> |r.value| >= 1
    ensures r.None? <==> forall q: nat, k: nat :: !NameMatch(line, q, k)
  {
    match NamePos(line, 0)
    case None => None
    case Some(qk) =>
      assert FirstNameMatch(line, qk.0, qk.1);
      Some(line[qk.0 + 1..qk.1])
  }

  /** `\]\s*([^\s]+)\s*` matches at the `]` at `q`: the whitespace after it stops before the text does. */
  predicate TypeTokenAt(s: string, q: nat) {
    q < |s| && s[q] == ']' && SpaceRunEnd(s, q + 1) < |s|
  }

  /** The match it returns: the leftmost such `]`. */
  ghost predicate FirstTypeTokenAt(s: string, q: nat) {
    TypeTokenAt(s, q) && forall q': nat | q' < q :: !TypeTokenAt(s, q')
  }

  /** What that match captures: the whole run of non-whitespace after the whitespace. */
  function TokenAfter(s: string, q: nat): (r: string)
    requires TypeTokenAt(s, q)
    ensures |r| >= 1 && forall c | c in r :: !IsSpace(c)
  {
    var j := SpaceRunEnd(s, q + 1);
    s[j..FirstWhere(s, j, IsSpace)]
  }

  /** The leftmost `]` at or after `from` where the type-token pattern matches. */
  function TypeTokenPos(s: string, from: nat): (r: Option<nat>)
    requires from <= |s|
    ensures r.Some? ==> from <= r.value && TypeTokenAt(s, r.value)
    ensures r.Some? ==> forall q: nat | from <= q < r.value :: !TypeTokenAt(s, q)
    ensures r.None? ==> forall q: nat | from <= q :: !TypeTokenAt(s, q)
    decreases |s| - from
  {
    var q := FirstWhere(s, from, c => c == ']');
    if q == |s| then None
    else if SpaceRunEnd(s, q + 1) < |s| then Some(q)
    else TypeTokenPos(s, q + 1)
  }

  /** The type token: group 1 of the first match; none when there is none (the source throws). */
  function TypeToken(line: string): (r: Option<string>)
    ensures r.Some? ==> exists q: nat :: FirstTypeTokenAt(line, q) && r.value == TokenAfter(line, q)
    ensures r.Some? ==> |r.value| >= 1 && forall c | c in r.value :: !IsSpace(c)
    ensures r.None? <==> forall q: nat :: !TypeTokenAt(line, q)
  {
    match TypeTokenPos(line, 0)
    case None => None
    case Some(q) =>
      assert FirstTypeTokenAt(line, q);
      Some(TokenAfter(line, q))
  }

  /** `/\((.*)\)/` matches with the `(` at `q` and the `)` at `k`. */
  predicate ParenMatch(s: string, q: nat, k: nat) {
    q < k < |s| && s[q] == '(' && s[k] == ')' && NoLineTerminator(s, q + 1, k)
  }

  /** The match it returns: the leftmost `(` closed on its line, and the last `)` of that line. */
  ghost predicate FirstParenMatch(s: string, q: nat, k: nat) {
    && ParenMatch(s, q, k)
    && (forall q': nat, k': nat | q' < q :: !ParenMatch(s, q', k'))
    && (forall k': nat | k < k' :: !ParenMatch(s, q, k'))
  }

  /** For the `(` at `q`: the last `)` after it on the same line. */
  function ParenEnd(s: string, q: nat): (r: Option<nat>)
    requires q < |s| && s[q] == '('
    ensures r.Some? ==> ParenMatch(s, q, r.value) && forall k: nat | r.value < k :: !ParenMatch(s, q, k)
    ensures r.None? ==> forall k: nat :: !ParenMatch(s, q, k)
  {
    WithinLine(s, q + 1);
    LastWhere(s, q + 1, LineEnd(s, q + 1), c => c == ')')
  }

  /** The leftmost `(` at or after `from` that starts a match, and the `)` that ends it. */
  function ParenPos(s: string, from: nat): (r: Option<(nat, nat)>)
    requires from <= |s|
    ensures r.Some? ==> from <= r.value.0 && ParenMatch(s, r.value.0, r.value.1)
    ensures r.Some? ==> forall q: nat, k: nat | from <= q < r.value.0 :: !ParenMatch(s, q, k)
    ensures r.Some? ==> forall k: nat | r.value.1 < k :: !ParenMatch(s, r.value.0, k)
    ensures r.None? ==> forall q: nat, k: nat | from <= q :: !ParenMatch(s, q, k)
    decreases |s| - from
  {
    var q := FirstWhere(s, from, c => c == '(');
    NoParenMatchBefore(s, from, q);
    if q == |s| then None
    else match ParenEnd(s, q)
      case Some(k) => Some((q, k))
      case None => ParenPos(s, q + 1)
  }

  lemma NoParenMatchBefore(s: string, from: nat, q: nat)
    requires from <= q <= |s| && forall k | from <= k < q :: s[k] != '('
    ensures forall q': nat, k: nat | from <= q' < q :: !ParenMatch(s, q', k)
  {
  }

  /** The parenthesised text: group 1 of `/\((.*)\)/`; none when it does not match. */
  function ParenArg(line: string): (r: Option<string>)
    ensures r.Some? ==> exists q: nat, k: nat :: FirstParenMatch(line, q, k) && r.value == line[q + 1..k]
    ensures r.None? <==> forall q: nat, k: nat :: !ParenMatch(line, q, k)
  {
    match ParenPos(line, 0)
    case None => None
    case Some(qk) =>
      assert FirstParenMatch(line, qk.0, qk.1);
      Some(line[qk.0 + 1..qk.1])
  }

  /** `/default\s(.*)\s/i` matches with `default` at `q` and the closing whitespace at `k`. */
  predicate DefaultMatch(s: string, q: nat, k: nat) {
    && MatchesAtCI(s, q, "default")
    && q + 8 <= k < |s|
    && IsSpace(s[q + 7]) && IsSpace(s[k])
    && NoLineTerminator(s, q + 8, k)
  }

  /** The match it returns: the leftmost `default` that has one, up to the last whitespace that still matches. */
  ghost predicate FirstDefaultMatch(s: string, q: nat, k: nat) {
    && DefaultMatch(s, q, k)
    && (forall q': nat, k': nat | q' < q :: !DefaultMatch(s, q', k'))
    && (forall k': nat | k < k' :: !DefaultMatch(s, q, k'))
  }

  /** For the `default` at `q`: the last whitespace on that line, or the line terminator ending it. */
  function DefaultEnd(s: string, q: nat): (r: Option<nat>)
    requires MatchesAtCI(s, q, "default")
    ensures r.Some? ==> DefaultMatch(s, q, r.value) && forall k: nat | r.value < k :: !DefaultMatch(s, q, k)
    ensures r.None? ==> forall k: nat :: !DefaultMatch(s, q, k)
  {
    if q + 7 < |s| && IsSpace(s[q + 7]) then
      var lineEnd := LineEnd(s, q + 8);
      var hi := if lineEnd < |s| then lineEnd + 1 else |s|;
      WithinLine(s, q + 8);
      LastWhere(s, q + 8, hi, IsSpace)
    else None
  }

  /** The leftmost `default` at or after `from` that starts a match, and the whitespace that ends it. */
  function DefaultPos(s: string, from: nat): (r: Option<(nat, nat)>)
    requires from <= |s|
    ensures r.Some? ==> from <= r.value.0 && DefaultMatch(s, r.value.0, r.value.1)
    ensures r.Some? ==> forall q: nat, k: nat | from <= q < r.value.0 :: !DefaultMatch(s, q, k)
    ensures r.Some? ==> forall k: nat | r.value.1 < k :: !DefaultMatch(s, r.value.0, k)
    ensures r.None? ==> forall q: nat, k: nat | from <= q :: !DefaultMatch(s, q, k)
    decreases |s| - from
  {
    match IndexOfCI(s, "default", from)
    case None => None
    case Some(q) =>
      match DefaultEnd(s, q)
      case Some(k) => (NoDefaultMatchBefore(s, from, q); Some((q, k)))
      case None => (NoDefaultMatchThrough(s, from, q); DefaultPos(s, q + 1))
  }

  lemma NoDefaultMatchBefore(s: string, from: nat, q: nat)
    requires from <= |s| && IndexOfCI(s, "default", from) == Some(q)
    ensures forall q': nat, k: nat | from <= q' < q :: !DefaultMatch(s, q', k)
  {
  }

  lemma NoDefaultMatchThrough(s: string, from: nat, q: nat)
    requires from <= |s| && IndexOfCI(s, "default", from) == Some(q) && DefaultEnd(s, q).None?
    ensures forall q': nat, k: nat | from <= q' < q + 1 :: !DefaultMatch(s, q', k)
  {
    NoDefaultMatchBefore(s, from, q);
  }

  /** The default: group 1 of `/default\s(.*)\s/i`; none when it does not match. */
  function DefaultClause(line: string): (r: Option<string>)
    ensures r.Some? ==> exists q: nat, k: nat :: FirstDefaultMatch(line, q, k) && r.value == line[q + 8..k]
    ensures r.None? <==> forall q: nat, k: nat :: !DefaultMatch(line, q, k)
  {
    match DefaultPos(line, 0)
    case None => None
    case Some(qk) =>
      assert FirstDefaultMatch(line, qk.0, qk.1);
      Some(line[qk.0 + 8..qk.1])
  }

  /** The size argument `parseInitTable` accepts: all digits, or `max` in any case. */
  predicate IsSizeArg(a: string) {
    (|a| >= 1 && AllDigits(a)) || SameIgnoringAsciiCase(a, "max")
  }

  lemma MaxArgContainsMax(a: string)
    ensures SameIgnoringAsciiCase(a, "max") ==> ContainsCI(a, "max")
  {
    if SameIgnoringAsciiCase(a, "max") {
      assert a[0..|a|] == a;
      assert MatchesAtCI(a, 0, "max");
    }
  }

  /** The type token up to its first `(`, all of it when it has none. */
  function CutAtParen(t: string): (r: string)
    ensures |r| <= |t| && r == t[..|r|] && '(' !in r
    ensures |r| == |t| || t[|r|] == '('
  {
    t[..FirstWhere(t, 0, c => c == '(')]
  }

  /** `_.get(__sql, key)`: the constructor, or `undefined`. */
  function Lookup(types: TypeTable, key: string): (r: SqlType)
    ensures key in types <==> r.Bare?
    ensures r.Bare? ==> r.entry == types[key]
    ensures r.Missing? || r.Bare?
  {
    if key in types then Bare(types[key]) else Missing
  }

  /**
   * The column type from the type token and the parenthesised text:
   * only a size argument (digits or `max`) is used, and then the constructor
   * must exist, since it is called; anything else is looked up uncalled.
   */
  function ResolveType(token: string, paren: Option<string>, types: TypeTable): (r: Result<SqlType, ParseError>)
    ensures (paren.None? || (paren.value != "" && !IsSizeArg(paren.value))) ==> r == Ok(Lookup(types, Upper(token)))
    ensures paren == Some("") ==> r == Ok(Lookup(types, CutAtParen(Upper(token))))
    ensures paren.Some? && IsSizeArg(paren.value) ==>
      var key := CutAtParen(Upper(token));
      && (key !in types <==> r.Err?)
      && (key in types ==> r.Ok? && r.value.Applied? && r.value.entry == types[key]
                           && (r.value.param.Some? <==> types[key].sized))
    ensures r.Err? ==> r.error.UnknownSizedType?
  {
    var upper := Upper(token);
    var arg := if paren.Some? && paren.value != "" && !IsSizeArg(paren.value) then None else paren;
    var key := if arg.None? then upper else CutAtParen(upper);
    if arg.None? || arg.value == "" then
      Ok(Lookup(types, key))
    else if key !in types then
      Err(UnknownSizedType(key))
    else
      var entry := types[key];
      MaxArgContainsMax(arg.value);
      var size := if ContainsCI(arg.value, "max") then Max else Length(DecimalValue(arg.value));
      Ok(Applied(entry, if entry.sized then Some(size) else None))
  }

  /** One column from one cleaned fragment, or the error the source would throw. */
  function ParseColumn(line: string, types: TypeTable): (r: Result<Column, ParseError>)
    ensures r.Ok? ==> |r.value.name| >= 1
  {
    match ColumnName(line)
    case None => Err(NoColumnName(line))
    case Some(name) =>
      match TypeToken(line)
      case None => Err(NoTypeToken(line))
      case Some(token) =>
        match ResolveType(token, ParenArg(line), types)
        case Err(e) => Err(e)
        case Ok(t) => Ok(Column(name, !ContainsCI(line, "not null"), t, DefaultClause(line)))
  }

  /**
   * What one fragment yields, in terms of the matches the expressions
   * return: no name match or no type-token match is an error; otherwise the
   * name is the first name match's text, the type is resolved from the first
   * type token (a failed lookup of a sized type is an error), the column is
   * nullable exactly when `not null` (any case) does not occur, and the
   * default is the first `default` match's text, none when there is none.
   */
  lemma ParseColumnSpec(line: string, types: TypeTable)
    ensures ParseColumn(line, types).Ok? ==> exists qn: nat, kn: nat, qt: nat ::
      && FirstNameMatch(line, qn, kn) && FirstTypeTokenAt(line, qt)
      && ResolveType(TokenAfter(line, qt), ParenArg(line), types).Ok?
      && ParseColumn(line, types).value
         == Column(line[qn + 1..kn], !ContainsCI(line, "not null"),
                   ResolveType(TokenAfter(line, qt), ParenArg(line), types).value, DefaultClause(line))
  {
    if ParseColumn(line, types).Ok? {
      var name, token := ColumnName(line).value, TypeToken(line).value;
      var qn: nat, kn: nat :| FirstNameMatch(line, qn, kn) && name == line[qn + 1..kn];
      var qt: nat :| FirstTypeTokenAt(line, qt) && token == TokenAfter(line, qt);
      assert ParseColumn(line, types).value
         == Column(name, !ContainsCI(line, "not null"), ResolveType(token, ParenArg(line), types).value, DefaultClause(line));
    }
  }

  /** A fragment without a name match is refused for that, and only such a fragment. */
  lemma ParseColumnNeedsName(line: string, types: TypeTable)
    ensures ParseColumn(line, types) == Err(NoColumnName(line)) <==> forall q: nat, k: nat :: !NameMatch(line, q, k)
  {
    if ColumnName(line).Some? {
      match TypeToken(line)
      case None =>
      case Some(token) =>
        var t := ResolveType(token, ParenArg(line), types);
        assert t.Err? ==> ParseColumn(line, types) == Err(t.error);
    }
  }

  /** A named fragment without a type-token match is refused for that. */
  lemma ParseColumnNeedsTypeToken(line: string, types: TypeTable)
    ensures (exists q: nat, k: nat :: NameMatch(line, q, k)) && (forall q: nat :: !TypeTokenAt(line, q)) ==>
      ParseColumn(line, types) == Err(NoTypeToken(line))
  {
  }

  /** A named fragment whose first type token names no sized constructor, while a size is given, is refused. */
  lemma ParseColumnNeedsKnownSizedType(line: string, types: TypeTable, q: nat)
    requires FirstTypeTokenAt(line, q)
    ensures (exists q: nat, k: nat :: NameMatch(line, q, k)) ==>
      var t := ResolveType(TokenAfter(line, q), ParenArg(line), types);
      t.Err? ==> ParseColumn(line, types) == Err(t.error)
  {
    if ColumnName(line).Some? {
      var token := TypeToken(line).value;
      var q0: nat :| FirstTypeTokenAt(line, q0) && token == TokenAfter(line, q0);
      assert q0 == q;
      var t := ResolveType(token, ParenArg(line), types);
      if t.Err? {
        assert ParseColumn(line, types) == Err(t.error);
      }
    }
  }

  /** `xs.map(f)` where `f` may throw: the first throw aborts the whole map. */
  function MapAll<A, B, E>(xs: seq<A>, f: A -> Result<B, E>): (r: Result<seq<B>, E>)
    ensures r.Ok? ==> |r.value| == |xs|
    decreases |xs|
  {
    if xs == [] then Ok([])
    else match f(xs[0])
      case Err(e) => Err(e)
      case Ok(y) =>
        match MapAll(xs[1..], f)
        case Err(e) => Err(e)
        case Ok(ys) => Ok([y] + ys)
  }

  /** The map succeeds exactly when every call does, and then holds the calls' results in order. */
  lemma {:induction false} MapAllSpec<A, B, E>(xs: seq<A>, f: A -> Result<B, E>)
    ensures MapAll(xs, f).Ok? <==> forall i | 0 <= i < |xs| :: f(xs[i]).Ok?
    ensures MapAll(xs, f).Ok? ==> forall i | 0 <= i < |xs| :: f(xs[i]) == Ok(MapAll(xs, f).value[i])
    decreases |xs|
  {
    if xs != [] {
      var tail := xs[1..];
      MapAllSpec(tail, f);
      assert forall i | 1 <= i < |xs| :: xs[i] == tail[i - 1];
      if f(xs[0]).Ok? && MapAll(tail, f).Ok? {
        var r := MapAll(xs, f).value;
        var ys := MapAll(tail, f).value;
        assert r == [f(xs[0]).value] + ys;
        forall i | 0 <= i < |xs|
          ensures f(xs[i]) == Ok(r[i])
        {
          if i > 0 {
            assert r[i] == ys[i - 1];
          }
        }
      } else if f(xs[0]).Ok? {
        var j :| 0 <= j < |tail| && !f(tail[j]).Ok?;
        assert xs[j + 1] == tail[j];
      }
    }
  }

  /** Any two elements of `r`, in order, are what `f` gives for two elements of `xs` in the same order. */
  ghost predicate InOrderUnder<A, B, E>(xs: seq<A>, f: A -> Result<B, E>, r: seq<B>) {
    forall i, j | 0 <= i < j < |r| :: exists a, b :: 0 <= a < b < |xs| && f(xs[a]) == Ok(r[i]) && f(xs[b]) == Ok(r[j])
  }

  /**
   * Mapping a subsequence of `xs` and keeping a subsequence of the results
   * preserves order: any two kept results come from calls on elements of
   * `xs` in the same order.
   */
  lemma MapAllOrder<A, B, E>(xs: seq<A>, kept: seq<A>, f: A -> Result<B, E>, r: seq<B>)
    requires IsSubsequence(kept, xs) && MapAll(kept, f).Ok? && IsSubsequence(r, MapAll(kept, f).value)
    ensures InOrderUnder(xs, f, r)
  {
    var ys := MapAll(kept, f).value;
    MapAllSpec(kept, f);
    SubsequenceOrder(r, ys);
    SubsequenceOrder(kept, xs);
    forall i, j | 0 <= i < j < |r|
      ensures exists a, b :: 0 <= a < b < |xs| && f(xs[a]) == Ok(r[i]) && f(xs[b]) == Ok(r[j])
    {
      assert PairInOrder(r[i], r[j], ys);
      var a, b :| 0 <= a < b < |ys| && r[i] == ys[a] && r[j] == ys[b];
      assert f(kept[a]) == Ok(r[i]) && f(kept[b]) == Ok(r[j]);
      assert PairInOrder(kept[a], kept[b], xs);
      var a', b' :| 0 <= a' < b' < |xs| && kept[a] == xs[a'] && kept[b] == xs[b'];
      assert f(xs[a']) == Ok(r[i]) && f(xs[b']) == Ok(r[j]);
    }
  }

  /** The callback of the `.map`. */
  function ColumnParser(types: TypeTable): string -> Result<Column, ParseError> {
    line => ParseColumn(line, types)
  }

  /** `.map(...)` over the kept fragments. */
  function ParseColumns(lines: seq<string>, types: TypeTable): (r: Result<seq<Column>, ParseError>)
    ensures r.Ok? ==> |r.value| == |lines|
  {
    MapAll(lines, ColumnParser(types))
  }

  /**
   * The mapping succeeds exactly when every fragment parses, and then the
   * i-th column is what the i-th fragment parses to.
   */
  lemma ParseColumnsSpec(lines: seq<string>, types: TypeTable)
    ensures ParseColumns(lines, types).Ok? <==> forall i | 0 <= i < |lines| :: ParseColumn(lines[i], types).Ok?
    ensures ParseColumns(lines, types).Ok? ==>
      forall i | 0 <= i < |lines| :: ParseColumn(lines[i], types) == Ok(ParseColumns(lines, types).value[i])
  {
    MapAllSpec(lines, ColumnParser(types));
  }

  // ---------------------------------------------------------------------------
  // Step 7: the skipNames filter

  /** `_.find(skipNames, (name = '') => name.toLowerCase() === column.toLowerCase())` */
  function FindSkipName(skipNames: seq<string>, name: string): (r: Option<string>)
    ensures r.Some? ==> r.value in skipNames && Lower(r.value) == Lower(name)
    ensures r.None? <==> forall n | n in skipNames :: Lower(n) != Lower(name)
    decreases |skipNames|
  {
    if skipNames == [] then None
    else if Lower(skipNames[0]) == Lower(name) then Some(skipNames[0])
    else FindSkipName(skipNames[1..], name)
  }

  /** The filter drops a column when `_.find` returns a truthy (non-empty) name. */
  predicate IsSkipped(c: Column, skipNames: seq<string>) {
    var found := FindSkipName(skipNames, c.name);
    found.Some? && found.value != ""
  }

  /** A column with a non-empty name is skipped exactly when some entry equals it ignoring case. */
  lemma SkippedIffNamed(c: Column, skipNames: seq<string>)
    requires c.name != ""
    ensures IsSkipped(c, skipNames) <==> exists n | n in skipNames :: Lower(n) == Lower(c.name)
  {
    var found := FindSkipName(skipNames, c.name);
    if found.Some? {
      assert |Lower(found.value)| == |c.name| > 0;
    }
  }

  /** `xs` occurs in `ys` in the same order, possibly with gaps. */
  predicate IsSubsequence<T(==)>(xs: seq<T>, ys: seq<T>)
    decreases |ys|
  {
    if xs == [] then true
    else if ys == [] then false
    else (xs[0] == ys[0] && IsSubsequence(xs[1..], ys[1..])) || IsSubsequence(xs, ys[1..])
  }

  /** `x` and `y` occur in `ys` in this order. */
  ghost predicate PairInOrder<T>(x: T, y: T, ys: seq<T>) {
    exists a, b :: 0 <= a < b < |ys| && x == ys[a] && y == ys[b]
  }

  /** A subsequence's elements occur in the longer sequence, and any two of them in the same order. */
  lemma {:induction false} SubsequenceOrder<T>(xs: seq<T>, ys: seq<T>)
    requires IsSubsequence(xs, ys)
    ensures forall x | x in xs :: x in ys
    ensures forall i, j | 0 <= i < j < |xs| :: PairInOrder(xs[i], xs[j], ys)
    decreases |ys|
  {
    if xs != [] {
      var ys' := ys[1..];
      if xs[0] == ys[0] && IsSubsequence(xs[1..], ys') {
        var xs' := xs[1..];
        SubsequenceOrder(xs', ys');
        forall x | x in xs ensures x in ys {
          var k :| 0 <= k < |xs| && xs[k] == x;
          if k > 0 {
            assert xs'[k - 1] == x;
            assert x in xs';
            var m :| 0 <= m < |ys'| && ys'[m] == x;
            assert ys[m + 1] == x;
          }
        }
        forall i, j | 0 <= i < j < |xs|
          ensures PairInOrder(xs[i], xs[j], ys)
        {
          assert xs[j] == xs'[j - 1];
          if i == 0 {
            assert xs'[j - 1] in xs';
            var b :| 0 <= b < |ys'| && ys'[b] == xs[j];
            assert ys[b + 1] == xs[j];
            assert 0 < b + 1 < |ys| && xs[0] == ys[0];
          } else {
            assert xs[i] == xs'[i - 1];
            assert PairInOrder(xs'[i - 1], xs'[j - 1], ys');
            var a, b :| 0 <= a < b < |ys'| && xs'[i - 1] == ys'[a] && xs'[j - 1] == ys'[b];
            assert ys[a + 1] == ys'[a] && ys[b + 1] == ys'[b];
          }
        }
      } else {
        SubsequenceOrder(xs, ys');
        SubsequenceOrderOfTail(xs, ys);
      }
    }
  }

  /** What holds against the tail of `ys` holds against `ys`. */
  lemma SubsequenceOrderOfTail<T>(xs: seq<T>, ys: seq<T>)
    requires ys != []
    requires forall x | x in xs :: x in ys[1..]
    requires forall i, j | 0 <= i < j < |xs| :: PairInOrder(xs[i], xs[j], ys[1..])
    ensures forall x | x in xs :: x in ys
    ensures forall i, j | 0 <= i < j < |xs| :: PairInOrder(xs[i], xs[j], ys)
  {
    var ys' := ys[1..];
    forall x | x in xs ensures x in ys {
      var m :| 0 <= m < |ys'| && ys'[m] == x;
      assert ys[m + 1] == x;
    }
    forall i, j | 0 <= i < j < |xs|
      ensures PairInOrder(xs[i], xs[j], ys)
    {
      assert PairInOrder(xs[i], xs[j], ys');
      var a, b :| 0 <= a < b < |ys'| && xs[i] == ys'[a] && xs[j] == ys'[b];
      assert ys[a + 1] == ys'[a] && ys[b + 1] == ys'[b];
    }
  }

  function SkipNamed(cols: seq<Column>, skipNames: seq<string>): (r: seq<Column>)
    ensures forall c | c in r :: c in cols && !IsSkipped(c, skipNames)
    ensures forall c | c in cols && !IsSkipped(c, skipNames) :: c in r
    ensures IsSubsequence(r, cols)
    decreases |cols|
  {
    if cols == [] then []
    else if IsSkipped(cols[0], skipNames) then SkipNamed(cols[1..], skipNames)
    else [cols[0]] + SkipNamed(cols[1..], skipNames)
  }

  // ---------------------------------------------------------------------------
  // The whole parse

  /** Steps 1 to 4: the cleaned column fragments, or `None` when there is no table body. */
  function Fragments(text: string): (r: Option<seq<string>>)
    ensures r.None? <==> ExtractBody(text).None?
  {
    match ExtractBody(text)
    case None => None
    case Some(body) =>
      var pieces := SplitColumns(body);
      Some(seq(|pieces|, i requires 0 <= i < |pieces| => StripComment(DropSpaceRuns(pieces[i]))))
  }

  /** Every column parsed from a list of fragments has a name. */
  lemma ParsedColumnsNamed(lines: seq<string>, types: TypeTable)
    requires ParseColumns(lines, types).Ok?
    ensures forall c | c in ParseColumns(lines, types).value :: |c.name| >= 1
  {
    var cols := ParseColumns(lines, types).value;
    ParseColumnsSpec(lines, types);
    forall c | c in cols ensures |c.name| >= 1 {
      var i :| 0 <= i < |cols| && cols[i] == c;
      assert ParseColumn(lines[i], types) == Ok(c);
    }
  }

  /** `parseInitTable` with its failure made explicit. */
  function ParseTable(text: string, skipNames: seq<string>, skipIdentity: bool, types: TypeTable): (r: Result<seq<Column>, ParseError>)
    ensures r.Ok? ==> forall c | c in r.value :: |c.name| >= 1 && !IsSkipped(c, skipNames)
  {
    match Fragments(text)
    case None => Err(NoTableBody)
    case Some(frags) =>
      var kept := KeptFragments(frags, skipIdentity);
      match ParseColumns(kept, types)
      case Err(e) => Err(e)
      case Ok(cols) =>
        ParsedColumnsNamed(kept, types);
        Ok(SkipNamed(cols, skipNames))
  }

  /**
   * `parseInitTable(fileContents, skipNames, skipIdentity, __sql)`: the
   * columns in declaration order, or `[]` when any step throws.
   */
  function ParseInitTable(text: string, skipNames: seq<string>, skipIdentity: bool, types: TypeTable): (r: seq<Column>)
    ensures ParseTable(text, skipNames, skipIdentity, types).Err? ==> r == []
    ensures forall c | c in r :: |c.name| >= 1
    ensures forall c, n | c in r && n in skipNames :: Lower(n) != Lower(c.name)
  {
    match ParseTable(text, skipNames, skipIdentity, types)
    case Err(_) => []
    case Ok(cols) =>
      forall c, n | c in cols && n in skipNames ensures Lower(n) != Lower(c.name) {
        assert c in cols && !IsSkipped(c, skipNames);
        SkippedIffNamed(c, skipNames);
      }
      cols
  }

  /**
   * Every way the parse throws gives `[]`: no table body, or a kept
   * fragment without a bracketed name, without a type token, or with a
   * size argument on a type the table does not have.
   */
  lemma EmptyOnThrow(text: string, skipNames: seq<string>, skipIdentity: bool, types: TypeTable)
    ensures (forall p: nat, q: nat, k: nat :: !BodyMatch(text, p, q, k)) ==> ParseInitTable(text, skipNames, skipIdentity, types) == []
    ensures Fragments(text).Some? && (exists f | f in Fragments(text).value :: KeepFragment(f, skipIdentity) && ParseColumn(f, types).Err?)
            ==> ParseInitTable(text, skipNames, skipIdentity, types) == []
  {
    if Fragments(text).Some? {
      var kept := KeptFragments(Fragments(text).value, skipIdentity);
      ParseInitTableOfFragments(text, skipNames, skipIdentity, types);
      if f :| f in Fragments(text).value && KeepFragment(f, skipIdentity) && ParseColumn(f, types).Err? {
        OneBadLineFails(kept, types, f);
      }
    }
  }

  /** One line that fails to parse makes the whole column list fail. */
  lemma OneBadLineFails(lines: seq<string>, types: TypeTable, f: string)
    requires f in lines && ParseColumn(f, types).Err?
    ensures ParseColumns(lines, types).Err?
  {
    ParseColumnsSpec(lines, types);
    var i :| 0 <= i < |lines| && lines[i] == f;
  }

  /**
   * Each output column is what some kept fragment parses to (so, with
   * `skipIdentity`, never one mentioning `identity(`), and its name matches
   * no `skipNames` entry.  When the parse succeeds, conversely, every kept
   * fragment's column is in the output unless `skipNames` names it.
   */
  lemma ColumnsComeFromFragments(text: string, skipNames: seq<string>, skipIdentity: bool, types: TypeTable)
    requires Fragments(text).Some?
    ensures forall c | c in ParseInitTable(text, skipNames, skipIdentity, types) ::
      exists f | f in Fragments(text).value :: KeepFragment(f, skipIdentity) && ParseColumn(f, types) == Ok(c) && !IsSkipped(c, skipNames)
    ensures ParseTable(text, skipNames, skipIdentity, types).Ok? ==>
      forall f | f in Fragments(text).value && KeepFragment(f, skipIdentity) ::
        ParseColumn(f, types).Ok?
        && (ParseColumn(f, types).value in ParseInitTable(text, skipNames, skipIdentity, types) || IsSkipped(ParseColumn(f, types).value, skipNames))
  {
    var frags := Fragments(text).value;
    var kept := KeptFragments(frags, skipIdentity);
    ParseInitTableOfFragments(text, skipNames, skipIdentity, types);
    if ParseColumns(kept, types).Ok? {
      var r := ParseInitTable(text, skipNames, skipIdentity, types);
      SurvivorsTrace(kept, types, skipNames);
      forall c | c in r
        ensures exists f | f in frags :: KeepFragment(f, skipIdentity) && ParseColumn(f, types) == Ok(c) && !IsSkipped(c, skipNames)
      {
        var f :| f in kept && ParseColumn(f, types) == Ok(c) && !IsSkipped(c, skipNames);
        assert f in frags && KeepFragment(f, skipIdentity);
      }
    }
  }

  /** Each surviving column comes from some line, and every line's column survives unless skipped. */
  lemma SurvivorsTrace(lines: seq<string>, types: TypeTable, skipNames: seq<string>)
    requires ParseColumns(lines, types).Ok?
    ensures forall c | c in SkipNamed(ParseColumns(lines, types).value, skipNames) ::
      exists f | f in lines :: ParseColumn(f, types) == Ok(c) && !IsSkipped(c, skipNames)
    ensures forall f | f in lines ::
      ParseColumn(f, types).Ok?
      && (ParseColumn(f, types).value in SkipNamed(ParseColumns(lines, types).value, skipNames) || IsSkipped(ParseColumn(f, types).value, skipNames))
  {
    var cols := ParseColumns(lines, types).value;
    var r := SkipNamed(cols, skipNames);
    ParseColumnsSpec(lines, types);
    forall c | c in r
      ensures exists f | f in lines :: ParseColumn(f, types) == Ok(c) && !IsSkipped(c, skipNames)
    {
      var i :| 0 <= i < |cols| && cols[i] == c;
      assert ParseColumn(lines[i], types) == Ok(c) && lines[i] in lines;
    }
    forall f | f in lines
      ensures ParseColumn(f, types).Ok? && (ParseColumn(f, types).value in r || IsSkipped(ParseColumn(f, types).value, skipNames))
    {
      var i :| 0 <= i < |lines| && lines[i] == f;
      assert cols[i] in cols;
    }
  }

  /** Once the body is found, the result is the surviving parsed fragments, or `[]` when one throws. */
  lemma ParseInitTableOfFragments(text: string, skipNames: seq<string>, skipIdentity: bool, types: TypeTable)
    requires Fragments(text).Some?
    ensures var cols := ParseColumns(KeptFragments(Fragments(text).value, skipIdentity), types);
      ParseInitTable(text, skipNames, skipIdentity, types) == if cols.Ok? then SkipNamed(cols.value, skipNames) else []
  {
  }

  /** Output columns keep the order of the fragments they come from. */
  lemma ColumnsKeepDeclarationOrder(text: string, skipNames: seq<string>, skipIdentity: bool, types: TypeTable)
    requires Fragments(text).Some?
    ensures InOrderUnder(Fragments(text).value, ColumnParser(types), ParseInitTable(text, skipNames, skipIdentity, types))
  {
    var frags := Fragments(text).value;
    var kept := KeptFragments(frags, skipIdentity);
    ParseInitTableOfFragments(text, skipNames, skipIdentity, types);
    if ParseColumns(kept, types).Ok? {
      MapAllOrder(frags, kept, ColumnParser(types), SkipNamed(ParseColumns(kept, types).value, skipNames));
    }
  }
}
