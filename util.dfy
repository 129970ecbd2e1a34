/** The small helpers of `src/util.js`. */
module Util {
  import opened JsValues

  /** True when `k` is the first component of some pair. */
  predicate Names<V>(pairs: seq<(string, V)>, k: string) {
    exists i :: 0 <= i < |pairs| && pairs[i].0 == k
  }

  /** True when no pair after position `i` has the same name as pair `i`. */
  predicate LastWithName<V>(pairs: seq<(string, V)>, i: int)
    requires 0 <= i < |pairs|
  {
    forall j :: i < j < |pairs| ==> pairs[j].0 != pairs[i].0
  }

  /**
   * `zipObj`: build an object from `[key, value]` pairs, one assignment per
   * pair in order, so a later pair overwrites an earlier one with the same key.
   */
  method ZipObj<V>(pairs: seq<(string, V)>) returns (o: map<string, V>)
    ensures forall k :: k in o <==> Names(pairs, k)
    ensures forall i :: 0 <= i < |pairs| && LastWithName(pairs, i) ==> pairs[i].0 in o && o[pairs[i].0] == pairs[i].1
  {
    o := map[];
    var n := 0;
    while n < |pairs|
      invariant 0 <= n <= |pairs|
      invariant forall k :: k in o <==> Names(pairs[..n], k)
      invariant forall i :: 0 <= i < n && LastWithName(pairs[..n], i) ==> pairs[i].0 in o && o[pairs[i].0] == pairs[i].1
    {
      var (k, v) := pairs[n];
      o := o[k := v];
      forall i | 0 <= i < n && LastWithName(pairs[..n + 1], i)
        ensures LastWithName(pairs[..n], i)
      {
        assert pairs[..n + 1][n] == pairs[n];
      }
      assert forall m :: 0 <= m < n ==> pairs[..n + 1][m] == pairs[..n][m];
      n := n + 1;
    }
    assert pairs[..n] == pairs;
  }

  /** `isArray`: the value itself when falsy, otherwise `Array.isArray`. */
  function IsArray(x: JsValue): (r: JsValue)
    ensures Truthy(r) <==> x.Arr?
    ensures !Truthy(x) ==> r == x
  {
    if !Truthy(x) then x else Bool(x.Arr?)
  }

  /** `isStr`: the value itself when falsy, otherwise whether it is a string. */
  function IsStr(x: JsValue): (r: JsValue)
    ensures Truthy(r) <==> x.Str? && x.s != ""
    ensures !Truthy(x) ==> r == x
  {
    if !Truthy(x) then x else Bool(x.Str?)
  }

  /** `isStr` is the `typeof x === "string"` test on truthy values. */
  lemma IsStrTypeOf(x: JsValue)
    requires Truthy(x)
    ensures Truthy(IsStr(x)) <==> TypeOf(x) == "string"
  {
  }

  /** Whether `x.constructor === Object` for a non-nullish `x`. */
  predicate ConstructedByObject(x: JsValue) {
    (x.Obj? && x.plain) || x.Ref?
  }

  /** `isPlainObj`: the value itself when falsy, otherwise whether its constructor is `Object`. */
  function IsPlainObj(x: JsValue): (r: JsValue)
    ensures Truthy(r) <==> (x.Obj? && x.plain) || x.Ref?
    ensures !Truthy(x) ==> r == x
  {
    if !Truthy(x) then x else Bool(ConstructedByObject(x))
  }

  /** `isPrimitive`: `typeof` is "string" or "number"; booleans are not primitive here. */
  predicate IsPrimitive(x: JsValue) {
    x.Str? || x.Num?
  }

  /** `isPrimitive` is the `typeof` test of the source: booleans, objects and `undefined` are not primitive. */
  lemma IsPrimitiveTypeOf(x: JsValue)
    ensures IsPrimitive(x) <==> TypeOf(x) == "string" || TypeOf(x) == "number"
    ensures x.Bool? || x.Undefined? ==> !IsPrimitive(x)
  {
  }

  /** `keys`: no keys for a falsy value, otherwise `Object.keys`. */
  function Keys(x: JsValue): (r: set<string>)
    ensures !Truthy(x) ==> r == {}
    ensures x.Obj? ==> r == x.fields.Keys
  {
    if Truthy(x) then OwnKeys(x) else {}
  }
}
