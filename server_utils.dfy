/**
 * The generated server's small helpers: its own `escapeRegex`, the
 * copy-and-set `replace`, and `headBy`, the first value of a property
 * after ordering a collection by it.
 */
module ServerUtils {
  import opened Outcome
  import opened JsText
  import opened JsValue
  import GeneratorUtils

  // ---------------------------------------------------------------------------
  // escapeRegex

  /** The punctuation listed in the class `[-[\]{}()*+?.,\\^$|#\s\/]`. */
  const Punctuation := "-[]{}()*+?.,\\^$|#/"

  /** A member of the class: listed punctuation or `\s`. */
  predicate NeedsEscape(c: char) {
    c in Punctuation || IsSpace(c)
  }

  /** `text.replace(/[-[\]{}()*+?.,\\^$|#\s\/]/g, "\\$&")` */
  function EscapeRegex(text: string): (r: string)
    ensures |r| >= |text|
    decreases |text|
  {
    if text == [] then []
    else (if NeedsEscape(text[0]) then ['\\', text[0]] else [text[0]]) + EscapeRegex(text[1..])
  }

  /** The server's character class is the generator's. */
  lemma SameClass(c: char)
    ensures NeedsEscape(c) <==> GeneratorUtils.IsRegexSpecial(c)
  {
  }

  /** The server's `escapeRegex` and the generator's agree on every input. */
  lemma {:induction false} EscapeRegexAgrees(text: string)
    ensures EscapeRegex(text) == GeneratorUtils.EscapeRegex(text)
    decreases |text|
  {
    if text != [] {
      SameClass(text[0]);
      EscapeRegexAgrees(text[1..]);
    }
  }

  /** Removing the inserted backslashes gives back the text. */
  lemma EscapeRegexReversible(text: string)
    ensures GeneratorUtils.UnescapeRegex(EscapeRegex(text)) == text
  {
    EscapeRegexAgrees(text);
    GeneratorUtils.UnescapeEscape(text);
  }

  // ---------------------------------------------------------------------------
  // replace

  /**
   * `replace(coll, index, value)` on an array: a clone with `value` at
   * `index`. Setting past the end grows the array, the gap reading as
   * `undefined`.
   */
  function Replace(coll: seq<Value>, index: nat, value: Value): (r: seq<Value>)
    ensures |r| == if index < |coll| then |coll| else index + 1
    ensures r[index] == value
    ensures forall k | 0 <= k < |coll| && k != index :: r[k] == coll[k]
    ensures forall k | |coll| <= k < |r| && k != index :: r[k] == Undefined
  {
    if index < |coll| then coll[index := value]
    else coll + seq(index - |coll|, _ => Undefined) + [value]
  }

  /** Putting the old element back undoes a replacement inside the array. */
  lemma ReplaceUndo(coll: seq<Value>, index: nat, value: Value)
    requires index < |coll|
    ensures Replace(Replace(coll, index, value), index, coll[index]) == coll
  {
  }

  /** Replacing twice at one index keeps only the second value. */
  lemma ReplaceTwice(coll: seq<Value>, index: nat, v1: Value, v2: Value)
    ensures Replace(Replace(coll, index, v1), index, v2) == Replace(coll, index, v2)
  {
    var once := Replace(coll, index, v1);
    var a := Replace(once, index, v2);
    var b := Replace(coll, index, v2);
    assert |a| == |b|;
    forall k | 0 <= k < |a| ensures a[k] == b[k] {
    }
  }

  /** `replace(coll, key, value)` on a plain object: a clone with `key` set. */
  function ReplaceKey(coll: map<string, Value>, key: string, value: Value): (r: map<string, Value>)
    ensures r.Keys == coll.Keys + {key}
    ensures r[key] == value
    ensures forall k | k in coll && k != key :: r[k] == coll[k]
  {
    coll[key := value]
  }

  /** Putting the old property back undoes a replacement of an existing property. */
  lemma ReplaceKeyUndo(coll: map<string, Value>, key: string, value: Value)
    requires key in coll
    ensures ReplaceKey(ReplaceKey(coll, key, value), key, coll[key]) == coll
  {
  }

  // ---------------------------------------------------------------------------
  // headBy

  /**
   * `orders`: `"desc"` orders descending, anything else ascending, as
   * lodash's `orderBy` reads its order argument.
   */
  predicate IsDescending(orders: string) {
    orders == "desc"
  }

  /**
   * `a` sorts strictly before `b` under lodash's `orderBy` comparison of
   * integer property values: ascending puts `undefined` after every number,
   * descending reverses the whole comparison, so `undefined` comes first.
   */
  predicate Before(a: Option<int>, b: Option<int>, descending: bool) {
    if !descending then a.Some? && (b.None? || a.value < b.value)
    else b.Some? && (a.None? || a.value > b.value)
  }

  /**
   * `headBy(collection, propName, orders)`, given the property's value in
   * each element (`None` when the element lacks it): the property of the
   * first element of the stable ordering, `undefined` for an empty
   * collection.
   */
  function HeadBy(values: seq<Option<int>>, orders: string): (r: Option<int>)
    ensures values == [] ==> r.None?
    ensures values != [] ==> r in values
    ensures !IsDescending(orders) ==> (r.None? <==> forall k | 0 <= k < |values| :: values[k].None?)
    ensures !IsDescending(orders) && r.Some? ==>
      forall k | 0 <= k < |values| && values[k].Some? :: r.value <= values[k].value
    ensures IsDescending(orders) ==>
      (r.None? <==> values == [] || exists k | 0 <= k < |values| :: values[k].None?)
    ensures IsDescending(orders) && r.Some? ==>
      forall k | 0 <= k < |values| :: values[k].Some? && values[k].value <= r.value
    decreases |values|
  {
    if values == [] then None
    else if |values| == 1 then values[0]
    else
      var init := values[..|values| - 1];
      var last := values[|values| - 1];
      assert values == init + [last];
      var head := HeadBy(init, orders);
      if Before(last, head, IsDescending(orders)) then last else head
  }

  /** No element sorts strictly before the head: it is first in the ordering. */
  lemma {:induction false} HeadByIsFirst(values: seq<Option<int>>, orders: string)
    ensures forall k | 0 <= k < |values| :: !Before(values[k], HeadBy(values, orders), IsDescending(orders))
    decreases |values|
  {
    if |values| > 1 {
      var init := values[..|values| - 1];
      var last := values[|values| - 1];
      assert values == init + [last];
      HeadByIsFirst(init, orders);
      forall k | 0 <= k < |values| - 1 ensures values[k] == init[k] { }
    }
  }
}
