/** The parts of `package.json` the lock and tsd generators read and rewrite. */
module PackageJson {
  import opened Outcome

  /** A dependency: package name and version text. */
  type Entry = (string, string)

  /**
   * A parsed `package.json`: its two dependency sections, in file order
   * (absent when the file has none), and every other top-level field as
   * raw JSON text.
   */
  datatype Package = Package(dependencies: Option<seq<Entry>>, devDependencies: Option<seq<Entry>>, others: map<string, string>)

  /** A section's entries; an absent section reads as empty, as `_.map(undefined)` does. */
  function EntriesOf(section: Option<seq<Entry>>): seq<Entry> {
    if section.Some? then section.value else []
  }

  /** The package names of a section, in order (`_.keys`). */
  function Names(entries: seq<Entry>): (r: seq<string>)
    ensures |r| == |entries|
    ensures forall i | 0 <= i < |entries| :: r[i] == entries[i].0
  {
    seq(|entries|, i requires 0 <= i < |entries| => entries[i].0)
  }

  /** No name appears twice, as in a section `JSON.parse` produced. */
  predicate DistinctNames(entries: seq<Entry>) {
    forall i, j | 0 <= i < j < |entries| :: entries[i].0 != entries[j].0
  }
}

/** The `lock` generator: version texts stripped to plain characters, the indentation kept. */
module LockGenerator {
  import opened Outcome
  import opened JsText
  import opened PackageJson

  // ---------------------------------------------------------------------------
  // Version stripping

  /** `[a-z0-9.:\/]` under `/i`: the characters a dependency version keeps. */
  predicate IsDependencyChar(c: char) {
    IsAsciiLetter(c) || IsDigit(c) || c == '.' || c == ':' || c == '/'
  }

  /** `[a-z0-9.]` under `/i`: the characters a dev-dependency version keeps. */
  predicate IsDevDependencyChar(c: char) {
    IsAsciiLetter(c) || IsDigit(c) || c == '.'
  }

  /** `s.replace(/[^…]/ig, '')`: every character outside the class removed. */
  function KeepOnly(s: string, keep: char -> bool): (r: string)
    ensures |r| <= |s|
    ensures forall k | 0 <= k < |r| :: keep(r[k])
    decreases |s|
  {
    if s == [] then []
    else (if keep(s[0]) then [s[0]] else []) + KeepOnly(s[1..], keep)
  }

  /** One character is kept exactly when it is in the class. */
  lemma KeepOnlyOne(c: char, keep: char -> bool)
    ensures KeepOnly([c], keep) == if keep(c) then [c] else []
  {
    assert [c][1..] == [];
  }

  /** Stripping works piece by piece, so it keeps the kept characters in their order. */
  lemma {:induction false} KeepOnlyAppend(a: string, b: string, keep: char -> bool)
    ensures KeepOnly(a + b, keep) == KeepOnly(a, keep) + KeepOnly(b, keep)
    decreases |a|
  {
    if a == [] {
      assert a + b == b;
    } else {
      assert (a + b)[0] == a[0] && (a + b)[1..] == a[1..] + b;
      KeepOnlyAppend(a[1..], b, keep);
    }
  }

  /** A text made only of kept characters is unchanged. */
  lemma {:induction false} KeepOnlyClean(s: string, keep: char -> bool)
    requires forall k | 0 <= k < |s| :: keep(s[k])
    ensures KeepOnly(s, keep) == s
    decreases |s|
  {
    if s != [] {
      KeepOnlyClean(s[1..], keep);
    }
  }

  /** Stripping twice is stripping once. */
  lemma KeepOnlyIdempotent(s: string, keep: char -> bool)
    ensures KeepOnly(KeepOnly(s, keep), keep) == KeepOnly(s, keep)
  {
    KeepOnlyClean(KeepOnly(s, keep), keep);
  }

  // ---------------------------------------------------------------------------
  // Sections

  /** `_.assign({}, obj, {[key]: val})` on an object kept as its entries in order. */
  function Assign(obj: seq<Entry>, key: string, val: string): (r: seq<Entry>)
    ensures Names(r) == if key in Names(obj) then Names(obj) else Names(obj) + [key]
    decreases |obj|
  {
    if obj == [] then [(key, val)]
    else if obj[0].0 == key then [(key, val)] + obj[1..]
    else [obj[0]] + Assign(obj[1..], key, val)
  }

  /** `.reduce((obj, item) => _.assign({}, obj, {[item.key]: item.val}), {})` from `acc`. */
  function Collect(acc: seq<Entry>, items: seq<Entry>): seq<Entry>
    decreases |items|
  {
    if items == [] then acc else Collect(Assign(acc, items[0].0, items[0].1), items[1..])
  }

  /** Each entry with its version stripped. */
  function StripVersions(entries: seq<Entry>, keep: char -> bool): (r: seq<Entry>)
    ensures |r| == |entries|
    ensures forall i | 0 <= i < |r| :: r[i] == (entries[i].0, KeepOnly(entries[i].1, keep))
  {
    seq(|entries|, i requires 0 <= i < |entries| => (entries[i].0, KeepOnly(entries[i].1, keep)))
  }

  /** A section rewritten: versions stripped, then collected into a fresh object. */
  function LockSection(section: Option<seq<Entry>>, keep: char -> bool): seq<Entry> {
    Collect([], StripVersions(EntriesOf(section), keep))
  }

  /** No entry of `items` shares a name with an entry of `acc`. */
  predicate NewNames(acc: seq<Entry>, items: seq<Entry>) {
    forall j, k | 0 <= j < |items| && 0 <= k < |acc| :: items[j].0 != acc[k].0
  }

  /** After moving the first new entry onto the object, the rest are still new. */
  lemma FreshAfterFirst(acc: seq<Entry>, items: seq<Entry>)
    requires items != [] && DistinctNames(items) && NewNames(acc, items)
    ensures DistinctNames(items[1..])
    ensures NewNames(acc + [items[0]], items[1..])
  {
    var rest := items[1..];
    var acc' := acc + [items[0]];
    forall j, k | 0 <= j < |rest| && 0 <= k < |acc'| ensures rest[j].0 != acc'[k].0 {
      assert rest[j] == items[j + 1];
      if k < |acc| {
        assert acc'[k] == acc[k];
      } else {
        assert acc'[k] == items[0];
      }
    }
    forall i, j | 0 <= i < j < |rest| ensures rest[i].0 != rest[j].0 {
      assert rest[i] == items[i + 1] && rest[j] == items[j + 1];
    }
  }

  /** Collecting entries with new, distinct names onto an object appends them. */
  lemma {:induction false} CollectFresh(acc: seq<Entry>, items: seq<Entry>)
    requires DistinctNames(items) && NewNames(acc, items)
    ensures Collect(acc, items) == acc + items
    decreases |items|
  {
    if items != [] {
      var x := items[0];
      var rest := items[1..];
      assert Collect(acc, items) == Collect(acc + [x], rest) by {
        assert forall k | 0 <= k < |acc| :: acc[k].0 != x.0;
        AssignAppends(acc, x.0, x.1);
      }
      assert Collect(acc + [x], rest) == acc + [x] + rest by {
        FreshAfterFirst(acc, items);
        CollectFresh(acc + [x], rest);
      }
      assert acc + [x] + rest == acc + items;
    }
  }

  /** Assigning a new name appends it. */
  lemma {:induction false} AssignAppends(obj: seq<Entry>, key: string, val: string)
    requires forall k | 0 <= k < |obj| :: obj[k].0 != key
    ensures Assign(obj, key, val) == obj + [(key, val)]
    decreases |obj|
  {
    if obj != [] {
      assert forall k | 0 <= k < |obj| - 1 :: obj[1..][k] == obj[k + 1];
      AssignAppends(obj[1..], key, val);
      assert [obj[0]] + (obj[1..] + [(key, val)]) == obj + [(key, val)];
    }
  }

  /** Collecting never loses or invents a name. */
  lemma {:induction false} CollectNames(acc: seq<Entry>, items: seq<Entry>)
    ensures forall n :: n in Names(Collect(acc, items)) <==> n in Names(acc) || n in Names(items)
    decreases |items|
  {
    if items != [] {
      var x := items[0];
      CollectNames(Assign(acc, x.0, x.1), items[1..]);
      assert Names(items) == [x.0] + Names(items[1..]);
    }
  }

  /**
   * A section with distinct names (as `JSON.parse` gives) comes back entry
   * for entry, in order, each version stripped; any section keeps exactly
   * its set of names.
   */
  lemma LockSectionSpec(section: Option<seq<Entry>>, keep: char -> bool)
    ensures forall n :: n in Names(LockSection(section, keep)) <==> n in Names(EntriesOf(section))
    ensures DistinctNames(EntriesOf(section)) ==>
      LockSection(section, keep) == StripVersions(EntriesOf(section), keep)
  {
    var items := StripVersions(EntriesOf(section), keep);
    CollectNames([], items);
    assert Names(items) == Names(EntriesOf(section));
    if DistinctNames(EntriesOf(section)) {
      CollectFresh([], items);
    }
  }

  /**
   * The package as written back: both sections rewritten (an absent one
   * becomes empty), every other field as it was.
   */
  function Lock(p: Package): (r: Package)
    ensures r.others == p.others
    ensures r.dependencies == Some(LockSection(p.dependencies, IsDependencyChar))
    ensures r.devDependencies == Some(LockSection(p.devDependencies, IsDevDependencyChar))
  {
    Package(
      Some(LockSection(p.dependencies, IsDependencyChar)),
      Some(LockSection(p.devDependencies, IsDevDependencyChar)),
      p.others)
  }

  /** Locking a locked package changes nothing. */
  lemma LockIdempotent(p: Package)
    requires DistinctNames(EntriesOf(p.dependencies)) && DistinctNames(EntriesOf(p.devDependencies))
    ensures Lock(Lock(p)) == Lock(p)
  {
    LockSectionSpec(p.dependencies, IsDependencyChar);
    LockSectionSpec(p.devDependencies, IsDevDependencyChar);
    LockedSectionStable(p.dependencies, IsDependencyChar);
    LockedSectionStable(p.devDependencies, IsDevDependencyChar);
  }

  lemma LockedSectionStable(section: Option<seq<Entry>>, keep: char -> bool)
    requires DistinctNames(EntriesOf(section))
    ensures var once := LockSection(section, keep);
      DistinctNames(once) && LockSection(Some(once), keep) == once
  {
    LockSectionSpec(section, keep);
    var once := LockSection(section, keep);
    assert DistinctNames(once);
    LockSectionSpec(Some(once), keep);
    var twice := StripVersions(once, keep);
    forall i | 0 <= i < |once| ensures twice[i] == once[i] {
      KeepOnlyIdempotent(EntriesOf(section)[i].1, keep);
    }
  }

  // ---------------------------------------------------------------------------
  // Indentation

  /**
   * `/\{\n(\s+)(?=\")/` at `p`: `{`, a line feed, then a run of white space
   * followed by `"`. The greedy run can only be taken whole, since any
   * shorter run is followed by more white space; the result is its length.
   */
  function IndentAt(text: string, p: nat): (r: Option<nat>)
    ensures r.Some? ==> r.value >= 1
  {
    if p + 2 <= |text| && text[p] == '{' && text[p + 1] == '\n' then
      var e := SpaceRunEnd(text, p + 2);
      if e > p + 2 && e < |text| && text[e] == '"' then Some(e - (p + 2)) else None
    else None
  }

  /** The leftmost match at or after `from`. */
  function FirstIndent(text: string, from: nat): (r: Option<nat>)
    requires from <= |text|
    ensures r.None? ==> forall p | from <= p < |text| :: IndentAt(text, p).None?
    ensures r.Some? ==> exists p | from <= p < |text| ::
      IndentAt(text, p) == r && forall q | from <= q < p :: IndentAt(text, q).None?
    decreases |text| - from
  {
    if from == |text| then None
    else if IndentAt(text, from).Some? then IndentAt(text, from)
    else FirstIndent(text, from + 1)
  }

  /**
   * The indentation width used to write the file back: the length of the
   * first indented key's white space, or 4 when the file cannot be read or
   * the pattern does not match (`[1]` of `null` throws).
   */
  function IndentWidth(text: Option<string>): (r: nat)
    ensures r >= 1
    ensures text.None? ==> r == 4
    ensures text.Some? && FirstIndent(text.value, 0).None? ==> r == 4
    ensures text.Some? && FirstIndent(text.value, 0).Some? ==> r == FirstIndent(text.value, 0).value
  {
    if text.None? then 4
    else match FirstIndent(text.value, 0)
      case None => 4
      case Some(w) => w
  }

  /** A file that opens with `{`, a line feed, `n` spaces and a quote is indented by `n`. */
  lemma IndentOfStandardFile(n: nat, rest: string)
    requires n >= 1
    ensures IndentWidth(Some("{\n" + seq(n, _ => ' ') + "\"" + rest)) == n
  {
    var text := "{\n" + seq(n, _ => ' ') + "\"" + rest;
    assert text[0] == '{' && text[1] == '\n';
    assert forall k | 2 <= k < n + 2 :: text[k] == ' ';
    assert text[n + 2] == '"';
    assert SpaceRunEnd(text, 2) == n + 2;
    assert IndentAt(text, 0) == Some(n);
  }

  /** `writing`: nothing is written for a file that does not parse; otherwise the locked package and its indentation. */
  function Writing(text: Option<string>, parsed: Option<Package>): (r: Option<(Package, nat)>)
    ensures parsed.None? ==> r.None?
    ensures parsed.Some? ==> r == Some((Lock(parsed.value), IndentWidth(text)))
  {
    if parsed.None? then None else Some((Lock(parsed.value), IndentWidth(text)))
  }
}

/** The `tsd` generator: one install command naming every dependency once, in order. */
module TsdGenerator {
  import opened Outcome
  import opened PackageJson

  // ---------------------------------------------------------------------------
  // String order

  /** `a <= b` in the default `sort` order: character by character, a prefix first. */
  predicate StrLeq(a: string, b: string)
    decreases |a|
  {
    if a == [] then true
    else if b == [] then false
    else if a[0] != b[0] then a[0] < b[0]
    else StrLeq(a[1..], b[1..])
  }

  lemma {:induction false} StrLeqTotal(a: string, b: string)
    ensures StrLeq(a, b) || StrLeq(b, a)
    decreases |a|
  {
    if a != [] && b != [] && a[0] == b[0] {
      StrLeqTotal(a[1..], b[1..]);
    }
  }

  lemma {:induction false} StrLeqAntisymmetric(a: string, b: string)
    requires StrLeq(a, b) && StrLeq(b, a)
    ensures a == b
    decreases |a|
  {
    if a != [] && b != [] {
      StrLeqAntisymmetric(a[1..], b[1..]);
      assert a == [a[0]] + a[1..] && b == [b[0]] + b[1..];
    }
  }

  /** Each name is strictly before the next. */
  predicate StrictlySorted(s: seq<string>) {
    forall i | 0 <= i < |s| - 1 :: StrLeq(s[i], s[i + 1]) && s[i] != s[i + 1]
  }

  predicate Sorted(s: seq<string>) {
    forall i | 0 <= i < |s| - 1 :: StrLeq(s[i], s[i + 1])
  }

  predicate Distinct(s: seq<string>) {
    forall i, j | 0 <= i < j < |s| :: s[i] != s[j]
  }

  // ---------------------------------------------------------------------------
  // uniq and sort

  /** `_.uniq(xs)`: the first occurrence of each name, in order. */
  function Uniq(xs: seq<string>): (r: seq<string>)
    ensures Distinct(r)
    ensures forall x :: x in r <==> x in xs
    decreases |xs|
  {
    if xs == [] then []
    else
      var init := xs[..|xs| - 1];
      var last := xs[|xs| - 1];
      assert xs == init + [last];
      var r := Uniq(init);
      if last in r then r else r + [last]
  }

  /** Inserting `x` before the first name it does not follow. */
  function Insert(x: string, s: seq<string>): (r: seq<string>)
    ensures multiset(r) == multiset(s) + multiset{x}
    ensures s == [] ==> r == [x]
    ensures s != [] ==> r[0] == x || r[0] == s[0]
    decreases |s|
  {
    if s == [] then [x]
    else if StrLeq(x, s[0]) then [x] + s
    else
      assert s == [s[0]] + s[1..];
      [s[0]] + Insert(x, s[1..])
  }

  lemma {:induction false} InsertSorted(x: string, s: seq<string>)
    requires Sorted(s)
    ensures Sorted(Insert(x, s))
    decreases |s|
  {
    if s != [] && !StrLeq(x, s[0]) {
      StrLeqTotal(x, s[0]);
      InsertSorted(x, s[1..]);
    }
  }

  /** `xs.sort()` */
  function Sort(xs: seq<string>): (r: seq<string>)
    ensures multiset(r) == multiset(xs)
    decreases |xs|
  {
    if xs == [] then []
    else
      assert xs == [xs[0]] + xs[1..];
      Insert(xs[0], Sort(xs[1..]))
  }

  lemma {:induction false} SortSorted(xs: seq<string>)
    ensures Sorted(Sort(xs))
    decreases |xs|
  {
    if xs != [] {
      SortSorted(xs[1..]);
      InsertSorted(xs[0], Sort(xs[1..]));
    }
  }

  /** A sequence is without repeats exactly when no element occurs twice in its multiset. */
  lemma {:induction false} DistinctCounts(s: seq<string>)
    ensures Distinct(s) <==> forall x | x in s :: multiset(s)[x] == 1
    decreases |s|
  {
    if s != [] {
      var init := s[..|s| - 1];
      var last := s[|s| - 1];
      assert s == init + [last];
      DistinctCounts(init);
      if Distinct(s) {
        assert last !in init;
        forall x | x in s ensures multiset(s)[x] == 1 {
          if x != last {
            assert x in init;
          }
        }
      } else {
        var i, j :| 0 <= i < j < |s| && s[i] == s[j];
        if j < |s| - 1 {
          assert init[i] == init[j];
          assert !Distinct(init);
          var y :| y in init && multiset(init)[y] != 1;
          assert y in s && multiset(s)[y] != 1;
        } else {
          assert s[i] in init;
          assert multiset(s)[last] == multiset(init)[last] + 1;
          assert multiset(s)[last] != 1;
        }
      }
    }
  }

  // ---------------------------------------------------------------------------
  // install

  /**
   * `_.chain(pkg).pick(['dependencies', 'devDependencies']).map(_.keys)
   * .flatten().uniq().value().sort()`
   */
  function DependencyNames(p: Package): seq<string> {
    Sort(Uniq(Names(EntriesOf(p.dependencies)) + Names(EntriesOf(p.devDependencies))))
  }

  /**
   * The names are exactly those of the two sections, each once, in
   * ascending order.
   */
  lemma DependencyNamesSpec(p: Package)
    ensures var names := DependencyNames(p);
      && StrictlySorted(names)
      && Distinct(names)
      && forall n :: n in names <==> n in Names(EntriesOf(p.dependencies)) || n in Names(EntriesOf(p.devDependencies))
  {
    var all := Names(EntriesOf(p.dependencies)) + Names(EntriesOf(p.devDependencies));
    var u := Uniq(all);
    var names := Sort(u);
    SortSorted(u);
    DistinctCounts(u);
    assert forall x :: x in names <==> x in multiset(names);
    assert forall x :: x in u <==> x in multiset(u);
    DistinctCounts(names);
    forall n ensures n in names <==> n in all {
      assert n in all <==> n in u;
    }
  }

  /** `['tsd install'].concat(deps.concat(['--save'])).join(' ')` */
  function JoinSpaced(words: seq<string>): string
    decreases |words|
  {
    if words == [] then ""
    else if |words| == 1 then words[0]
    else words[0] + " " + JoinSpaced(words[1..])
  }

  function Command(names: seq<string>): string {
    JoinSpaced(["tsd install"] + names + ["--save"])
  }

  lemma {:induction false} JoinSpacedAppend(words: seq<string>, last: string)
    requires words != []
    ensures JoinSpaced(words + [last]) == JoinSpaced(words) + " " + last
    decreases |words|
  {
    if |words| > 1 {
      assert (words + [last])[1..] == words[1..] + [last];
      JoinSpacedAppend(words[1..], last);
    } else {
      assert (words + [last])[1..] == [last];
    }
  }

  /** Joining a first word, some words and a last word puts single spaces between them. */
  lemma JoinAround(first: string, words: seq<string>, last: string)
    ensures words == [] ==> JoinSpaced([first] + words + [last]) == first + " " + last
    ensures words != [] ==> JoinSpaced([first] + words + [last]) == first + " " + JoinSpaced(words) + " " + last
  {
    var w := [first] + words;
    assert [first] + words + [last] == w + [last];
    JoinSpacedAppend(w, last);
    if words != [] {
      assert w[1..] == words;
    }
  }

  lemma CommandOfNoNames()
    ensures Command([]) == "tsd install --save"
  {
    JoinAround("tsd install", [], "--save");
    assert "tsd install" + " " + "--save" == "tsd install --save";
  }

  lemma CommandOfNames(names: seq<string>)
    requires names != []
    ensures Command(names) == "tsd install " + JoinSpaced(names) + " --save"
  {
    JoinAround("tsd install", names, "--save");
    assert "tsd install" + " " == "tsd install ";
    assert " " + "--save" == " --save";
  }

  /** The command is `tsd install`, the names separated by single spaces, then `--save`. */
  lemma CommandShape(names: seq<string>)
    ensures names == [] ==> Command(names) == "tsd install --save"
    ensures names != [] ==> Command(names) == "tsd install " + JoinSpaced(names) + " --save"
  {
    if names == [] {
      CommandOfNoNames();
    } else {
      CommandOfNames(names);
    }
  }

  /**
   * `install`: no command when `tsd` is missing or `package.json` does not
   * parse; otherwise the install command for every dependency name.
   */
  function Install(tsdMissing: bool, parsed: Option<Package>): (r: Option<string>)
    ensures tsdMissing || parsed.None? ==> r.None?
    ensures !tsdMissing && parsed.Some? ==> r == Some(Command(DependencyNames(parsed.value)))
  {
    if tsdMissing || parsed.None? then None else Some(Command(DependencyNames(parsed.value)))
  }
}
