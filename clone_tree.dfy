/**
 * `cloneTree` of `src/index.js`: the executor copies every node tree it is
 * given before patching, so that the patch engine writes `elm` into the copy
 * and never into the caller's nodes.
 */
module Cloning {
  import opened JsValues
  import opened VNodes

  /** The fields a clone has; `elm` is not among them. */
  const CloneFields: set<string> := {"sel", "data", "children", "text", "key", "ID", "_id"}

  /** `node.children`. */
  function ChildrenOf(v: JsValue): (c: JsValue)
    requires !Nullish(v)
    ensures c == Get(v, "children")
  {
    if v.Obj? && "children" in v.fields then v.fields["children"] else Undefined
  }

  /**
   * The trees `cloneTree` returns for instead of throwing: every node is
   * readable, and children are falsy or an array of such trees.
   */
  predicate Cloneable(v: JsValue) {
    && !Nullish(v)
    && (v.Obj? && "children" in v.fields && Truthy(v.fields["children"]) ==>
          && v.fields["children"].Arr?
          && forall i :: 0 <= i < |v.fields["children"].elems| ==> Cloneable(v.fields["children"].elems[i]))
  }

  /**
   * `cloneTree(vnode)`: a new plain object with the node's `sel`, `data`,
   * `text`, `key`, `ID` and `_id`, and its children (when truthy) cloned in
   * order.
   */
  function CloneTree(v: JsValue): (r: JsValue)
    requires Cloneable(v)
    ensures r.Obj? && r.plain && r.fields.Keys == CloneFields
    ensures Get(r, "elm") == Undefined
    ensures Get(r, "sel") == Get(v, "sel") && Get(r, "data") == Get(v, "data") && Get(r, "text") == Get(v, "text")
    ensures Get(r, "key") == Get(v, "key") && Get(r, "ID") == Get(v, "ID") && Get(r, "_id") == Get(v, "_id")
    ensures IsVNode(v) ==> IsVNode(r)
    ensures !Truthy(Get(v, "children")) ==> Get(r, "children") == Get(v, "children")
    ensures Truthy(Get(v, "children")) ==>
              && Get(v, "children").Arr? && Get(r, "children").Arr?
              && |Get(r, "children").elems| == |Get(v, "children").elems|
              && forall i :: 0 <= i < |Get(v, "children").elems| ==>
                   Cloneable(Get(v, "children").elems[i]) &&
                   Get(r, "children").elems[i] == CloneTree(Get(v, "children").elems[i])
  {
    var ch := ChildrenOf(v);
    var children :=
      if Truthy(ch) then Arr(seq(|ch.elems|, i requires 0 <= i < |ch.elems| => CloneTree(ch.elems[i])))
      else ch;
    Obj(map["sel" := Get(v, "sel"), "data" := Get(v, "data"), "children" := children, "text" := Get(v, "text"),
            "key" := Get(v, "key"), "ID" := Get(v, "ID"), "_id" := Get(v, "_id")], true)
  }

  /** A clone can be cloned again. */
  lemma {:induction false} CloneIsCloneable(v: JsValue)
    requires Cloneable(v)
    ensures Cloneable(CloneTree(v))
  {
    var r := CloneTree(v);
    if Truthy(Get(v, "children")) {
      var cs, rs := Get(v, "children").elems, Get(r, "children").elems;
      forall i | 0 <= i < |rs|
        ensures Cloneable(rs[i])
      {
        CloneIsCloneable(cs[i]);
      }
    }
  }

  /** Cloning a clone gives the same tree: a clone already has exactly the fields a clone copies. */
  lemma {:induction false} CloneIdempotent(v: JsValue)
    requires Cloneable(v)
    ensures Cloneable(CloneTree(v)) && CloneTree(CloneTree(v)) == CloneTree(v)
  {
    CloneIsCloneable(v);
    var r := CloneTree(v);
    var rr := CloneTree(r);
    if Truthy(Get(v, "children")) {
      var rs, rrs := Get(r, "children").elems, Get(rr, "children").elems;
      forall i | 0 <= i < |rs|
        ensures rrs[i] == rs[i]
      {
        CloneIdempotent(Get(v, "children").elems[i]);
      }
      assert Get(rr, "children") == Get(r, "children");
    }
    assert rr.fields == r.fields;
  }
}
