/**
 * The dynamically typed values that encoding/json produces when it unmarshals into `any`:
 * map[string]any, []any, string, float64, bool and nil.
 */
module JsonValue {
  import opened Prelude

  /**
   * A JSON value. JObj's keys are unique and unordered, as in a Go map. The float64 of a
   * number is kept as a real: the engine only passes numbers through.
   */
  datatype Json =
    | JObj(fields: map<string, Json>)
    | JArr(elems: seq<Json>)
    | JStr(str: string)
    | JNum(num: real)
    | JBool(b: bool)
    | JNull

  /** The largest element of a finite set of naturals, 0 for the empty set. */
  ghost function SetMax(s: set<nat>): (r: nat)
    ensures forall x :: x in s ==> x <= r
    ensures s != {} ==> r in s
  {
    if s == {} then 0
    else
      var x :| x in s;
      var m := SetMax(s - {x});
      assert forall y :: y in s ==> y == x || y in s - {x};
      if x >= m then x else m
  }

  /**
   * The length of the longest string leaf of v (0 when there is none). Object keys are not
   * leaves: the engine never rewrites them.
   */
  ghost function MaxLen(v: Json): nat
  {
    match v
    case JObj(m) => SetMax(set k | k in m :: MaxLen(m[k]))
    case JArr(a) => SetMax(set i | 0 <= i < |a| :: MaxLen(a[i]))
    case JStr(s) => |s|
    case _ => 0
  }

  /** No member of an object is longer, in the MaxLen sense, than the object. */
  lemma MaxLenField(m: map<string, Json>, k: string)
    requires k in m
    ensures MaxLen(m[k]) <= MaxLen(JObj(m))
  {
    var lens := set k' | k' in m :: MaxLen(m[k']);
    assert MaxLen(m[k]) in lens;
    assert MaxLen(JObj(m)) == SetMax(lens);
  }

  /** No element of an array is longer, in the MaxLen sense, than the array. */
  lemma MaxLenElem(a: seq<Json>, i: nat)
    requires i < |a|
    ensures MaxLen(a[i]) <= MaxLen(JArr(a))
  {
    var lens := set j | 0 <= j < |a| :: MaxLen(a[j]);
    assert MaxLen(a[i]) in lens;
    assert MaxLen(JArr(a)) == SetMax(lens);
  }

  /** A set of naturals that are all at most b has its maximum at most b. */
  lemma SetMaxAtMost(s: set<nat>, b: nat)
    requires forall x :: x in s ==> x <= b
    ensures SetMax(s) <= b
  {
  }

  /**
   * w has the shape of v: the same keys at every object, the same length at every array,
   * the same scalars; only the string leaves of v may stand for any value in w.
   */
  ghost predicate SameShape(v: Json, w: Json)
  {
    match v
    case JObj(m) =>
      w.JObj? && w.fields.Keys == m.Keys && forall k :: k in m ==> SameShape(m[k], w.fields[k])
    case JArr(a) =>
      w.JArr? && |w.elems| == |a| && forall i :: 0 <= i < |a| ==> SameShape(a[i], w.elems[i])
    case JStr(_) => true
    case _ => w == v
  }

  /**
   * What the engine needs of the JSON parser (json.Unmarshal into `any`): every string leaf
   * of what it parses is strictly shorter than the text. A JSON string needs its two quotes,
   * and every decoded character comes from at least one character of the text.
   */
  ghost predicate Shrinks(parse: string -> Option<Json>)
  {
    forall t :: parse(t).Some? ==> MaxLen(parse(t).value) < |t|
  }

  /** json.Unmarshal into `any`, as a function from text to the parsed value, None on error. */
  type Parser = parse: string -> Option<Json> | Shrinks(parse) witness (t: string) => None

  /** The empty text is never JSON. */
  lemma EmptyIsNotJson(parse: Parser)
    ensures parse([]).None?
  {
  }
}
