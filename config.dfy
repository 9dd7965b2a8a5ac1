/** The server configuration's two coercions of environment values. */
module Config {
  import opened JsText
  import opened JsValue

  // ---------------------------------------------------------------------------
  // fixBackslashes

  /** The end of the run of backslashes starting at `from`. */
  function BackslashRunEnd(s: string, from: nat): (e: nat)
    requires from <= |s|
    ensures from <= e <= |s|
    ensures forall k | from <= k < e :: s[k] == '\\'
    ensures e < |s| ==> s[e] != '\\'
  {
    FirstWhere(s, from, c => c != '\\')
  }

  /**
   * `str.replace(/\\{2,}/g, '\\')`: scanning left to right, a run of two
   * or more backslashes (taken whole, the quantifier being greedy) becomes
   * one backslash; every other character is copied.
   */
  function CollapseBackslashes(s: string): (r: string)
    ensures |r| <= |s|
    decreases |s|
  {
    if s == [] then []
    else
      var e := BackslashRunEnd(s, 0);
      if e >= 2 then "\\" + CollapseBackslashes(s[e..])
      else [s[0]] + CollapseBackslashes(s[1..])
  }

  /**
   * Reference reading of the same rule: copy each character except a
   * backslash that directly follows a backslash; `afterBackslash` says
   * whether the character before `s` was one.
   */
  function DropRepeatedBackslashes(s: string, afterBackslash: bool): string
    decreases |s|
  {
    if s == [] then []
    else if s[0] == '\\' && afterBackslash then DropRepeatedBackslashes(s[1..], true)
    else [s[0]] + DropRepeatedBackslashes(s[1..], s[0] == '\\')
  }

  /** After a backslash, the rest of a run of backslashes is dropped. */
  lemma {:induction false} DropRun(s: string, e: nat)
    requires e <= |s| && forall k | 0 <= k < e :: s[k] == '\\'
    ensures DropRepeatedBackslashes(s, true) == DropRepeatedBackslashes(s[e..], true)
    decreases e
  {
    if e > 0 {
      assert s[1..][e - 1..] == s[e..];
      DropRun(s[1..], e - 1);
    }
  }

  /** The scanner and the reference agree. */
  lemma {:induction false} CollapseIsDropRepeated(s: string)
    ensures CollapseBackslashes(s) == DropRepeatedBackslashes(s, false)
    decreases |s|
  {
    if s != [] {
      var e := BackslashRunEnd(s, 0);
      if e >= 2 {
        CollapseIsDropRepeated(s[e..]);
        DropRun(s[1..], e - 1);
        assert s[1..][e - 1..] == s[e..];
        if e < |s| {
          assert DropRepeatedBackslashes(s[e..], true) == DropRepeatedBackslashes(s[e..], false);
        }
      } else {
        CollapseIsDropRepeated(s[1..]);
        if s[0] == '\\' && |s| > 1 {
          assert s[1] != '\\';
          assert DropRepeatedBackslashes(s[1..], true) == DropRepeatedBackslashes(s[1..], false);
        }
      }
    }
  }

  predicate NoDoubleBackslash(s: string) {
    forall k | 0 <= k < |s| - 1 :: !(s[k] == '\\' && s[k + 1] == '\\')
  }

  /** The characters that are not backslashes, in order. */
  function WithoutBackslashes(s: string): string
    decreases |s|
  {
    if s == [] then [] else (if s[0] == '\\' then [] else [s[0]]) + WithoutBackslashes(s[1..])
  }

  /** Dropping the backslashes of `c` followed by `rest`. */
  lemma WithoutBackslashesCons(c: char, rest: string)
    ensures WithoutBackslashes([c] + rest) == (if c == '\\' then [] else [c]) + WithoutBackslashes(rest)
  {
    assert ([c] + rest)[1..] == rest;
  }

  /**
   * The reference keeps every other character, has no two backslashes in
   * a row, does not start with one after a backslash, and otherwise starts
   * with one when the input does.
   */
  lemma {:induction false} DropRepeatedProperties(s: string, afterBackslash: bool)
    ensures var r := DropRepeatedBackslashes(s, afterBackslash);
      && WithoutBackslashes(r) == WithoutBackslashes(s)
      && NoDoubleBackslash(r)
      && (afterBackslash && r != [] ==> r[0] != '\\')
      && (!afterBackslash && s != [] && s[0] == '\\' ==> r != [] && r[0] == '\\')
    decreases |s|
  {
    if s != [] {
      DropRepeatedProperties(s[1..], s[0] == '\\');
      DropRepeatedProperties(s[1..], true);
      var r := DropRepeatedBackslashes(s, afterBackslash);
      if !(s[0] == '\\' && afterBackslash) {
        var rest := DropRepeatedBackslashes(s[1..], s[0] == '\\');
        assert r == [s[0]] + rest;
        WithoutBackslashesCons(s[0], rest);
      }
    }
  }

  /** A string with no two backslashes in a row is its own reference reading. */
  lemma {:induction false} DropRepeatedOfClean(s: string, afterBackslash: bool)
    requires NoDoubleBackslash(s)
    requires afterBackslash ==> s == [] || s[0] != '\\'
    ensures DropRepeatedBackslashes(s, afterBackslash) == s
    decreases |s|
  {
    if s != [] {
      assert NoDoubleBackslash(s[1..]) by {
        forall k | 0 <= k < |s[1..]| - 1 ensures !(s[1..][k] == '\\' && s[1..][k + 1] == '\\') {
          assert s[1..][k] == s[k + 1] && s[1..][k + 1] == s[k + 2];
        }
      }
      DropRepeatedOfClean(s[1..], s[0] == '\\');
    }
  }

  /** `fixBackslashes(str)`: strings get their backslash runs collapsed, anything else is returned as is. */
  function FixBackslashes(v: Value): (r: Value)
    ensures !v.Str? ==> r == v
    ensures v.Str? ==> r.Str? && r.s == CollapseBackslashes(v.s)
  {
    if !v.Str? then v else Str(CollapseBackslashes(v.s))
  }

  /**
   * The clean-up is the reference reading: a backslash is kept exactly when
   * the character before it is not one. So characters other than backslashes
   * are kept in order, and no two backslashes remain adjacent.
   */
  lemma FixBackslashesSpec(s: string)
    ensures var r := FixBackslashes(Str(s)).s;
      && r == DropRepeatedBackslashes(s, false)
      && WithoutBackslashes(r) == WithoutBackslashes(s)
      && NoDoubleBackslash(r)
      && (s != [] && s[0] == '\\' ==> r != [] && r[0] == '\\')
  {
    CollapseIsDropRepeated(s);
    DropRepeatedProperties(s, false);
  }

  /** Collapsing twice is collapsing once. */
  lemma FixBackslashesIdempotent(v: Value)
    ensures FixBackslashes(FixBackslashes(v)) == FixBackslashes(v)
  {
    if v.Str? {
      var r := CollapseBackslashes(v.s);
      FixBackslashesSpec(v.s);
      CollapseIsDropRepeated(r);
      DropRepeatedOfClean(r, false);
    }
  }

  // ---------------------------------------------------------------------------
  // parseBool

  /**
   * `parseBool(input)`: `undefined` stays `undefined`, a boolean is returned
   * as is, a string is false only when it is exactly `'false'`, and
   * anything else is its truthiness.
   */
  function ParseBool(v: Value): (r: Value)
    ensures v == Undefined ==> r == Undefined
    ensures v.Bool? ==> r == v
    ensures v.Str? ==> r == Bool(v.s != "false")
    ensures !v.Undefined? && !v.Bool? && !v.Str? ==> r == Bool(Truthy(v))
  {
    match v
    case Undefined => Undefined
    case Bool(_) => v
    case Str(s) => Bool(s != "false")
    case _ => Bool(Truthy(v))
  }

  /** The result is a boolean for every defined input, and parsing it again changes nothing. */
  lemma ParseBoolSettles(v: Value)
    ensures v != Undefined ==> ParseBool(v).Bool?
    ensures ParseBool(ParseBool(v)) == ParseBool(v)
  {
  }

  /** For strings the result differs from plain truthiness exactly on `''` (true) and `'false'` (false). */
  lemma ParseBoolOfString(s: string)
    ensures ParseBool(Str(s)) != Bool(Truthy(Str(s))) <==> s == "" || s == "false"
  {
  }
}
