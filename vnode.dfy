/**
 * Virtual nodes (`src/vnode.js`).  A node is a plain object with the eight
 * fields `sel`, `data`, `children`, `text`, `elm`, `key`, `ID` and `_id`.
 * `ID` holds the one shared marker object; `_id` holds an object allocated
 * afresh for every construction.
 */
module VNodes {
  import opened JsValues

  /** The shared marker `VNODEID`: the first identity object allocated. */
  const VNODEID: Ident := Ident(0)

  const NodeFieldNames: set<string> := {"sel", "data", "children", "text", "elm", "key", "ID", "_id"}

  /** `isVNode`: a truthy value whose `ID` property is the shared marker. */
  predicate IsVNode(x: JsValue) {
    Truthy(x) && Get(x, "ID") == Ref(VNODEID)
  }

  /** The key a node takes from its data: `data.key`, or nothing without data. */
  function KeyOf(data: JsValue): (k: JsValue)
    requires data != Null
    ensures data == Undefined ==> k == Undefined
    ensures data != Undefined ==> k == Get(data, "key")
    ensures data.Obj? && "key" in data.fields ==> k == data.fields["key"]
  {
    if data == Undefined then Undefined else Get(data, "key")
  }

  /**
   * `VNode(sel, data, children, text, elm)` with `inst` as the freshly
   * allocated instance object.  `data` may not be `null`: reading `null.key`
   * throws.
   */
  function VNode(sel: JsValue, data: JsValue, children: JsValue, text: JsValue, elm: JsValue, inst: Ident): (v: JsValue)
    requires data != Null
    ensures IsVNode(v)
    ensures v.Obj? && v.plain && v.fields.Keys == NodeFieldNames
    ensures Get(v, "sel") == sel && Get(v, "data") == data && Get(v, "children") == children
    ensures Get(v, "text") == text && Get(v, "elm") == elm
    ensures data == Undefined ==> Get(v, "key") == Undefined
    ensures data != Undefined ==> Get(v, "key") == Get(data, "key")
    ensures Get(v, "_id") == Ref(inst)
  {
    Obj(map["sel" := sel, "data" := data, "children" := children, "text" := text, "elm" := elm,
            "key" := KeyOf(data), "ID" := Ref(VNODEID), "_id" := Ref(inst)], true)
  }

  /** Values that are not nodes: falsy ones, and those whose `ID` is not the marker. */
  lemma NotVNode(x: JsValue)
    requires !Truthy(x) || Get(x, "ID") != Ref(VNODEID)
    ensures !IsVNode(x)
  {
  }

  /** Two constructions with different instance objects give different nodes that share the marker. */
  lemma DistinctInstances(sel: JsValue, data: JsValue, children: JsValue, text: JsValue, elm: JsValue,
                          sel': JsValue, data': JsValue, children': JsValue, text': JsValue, elm': JsValue,
                          i: Ident, i': Ident)
    requires data != Null && data' != Null && i != i'
    ensures Get(VNode(sel, data, children, text, elm, i), "_id") != Get(VNode(sel', data', children', text', elm', i'), "_id")
    ensures Get(VNode(sel, data, children, text, elm, i), "ID") == Get(VNode(sel', data', children', text', elm', i'), "ID")
    ensures VNode(sel, data, children, text, elm, i) != VNode(sel', data', children', text', elm', i')
  {
  }

  /** The JavaScript heap's supply of fresh `{}` objects. */
  class IdentAllocator {
    /** The identity the next allocation returns. */
    var next: nat

    /** The marker has been allocated already, and every later object is newer. */
    ghost predicate Valid()
      reads this
    {
      next > VNODEID.n
    }

    constructor ()
      ensures Valid() && next == VNODEID.n + 1
    {
      next := VNODEID.n + 1;
    }

    /** Allocate `{}`: an identity never handed out before, and never the marker. */
    method Fresh() returns (id: Ident)
      requires Valid()
      modifies this
      ensures Valid()
      ensures id == Ident(old(next)) && next == old(next) + 1
      ensures id != VNODEID
    {
      id := Ident(next);
      next := next + 1;
    }
  }

  /** `VNode(...)` as the program runs it: allocate the instance object, build the node. */
  method NewVNode(ids: IdentAllocator, sel: JsValue, data: JsValue, children: JsValue, text: JsValue, elm: JsValue)
    returns (v: JsValue)
    requires ids.Valid() && data != Null
    modifies ids
    ensures ids.Valid() && ids.next == old(ids.next) + 1
    ensures v == VNode(sel, data, children, text, elm, Ident(old(ids.next)))
  {
    var inst := ids.Fresh();
    v := VNode(sel, data, children, text, elm, inst);
  }
}
