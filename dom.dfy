/**
 * The part of a DOM element the driver touches: its event listener list
 * (the "add an event listener" and "remove an event listener" algorithms of
 * section 2.7, Interface EventTarget, of the WHATWG DOM Standard), its
 * attributes, the allow-listed properties, its class list and its inline
 * style.  These are abstract maps and sets, not a browser's behaviour.
 */
module Dom {
  import opened JsValues

  /** One entry of an element's event listener list: type, callback and capture flag. */
  datatype Registration = Registration(eventType: string, callback: object, capture: bool)

  /** Add an event listener: append, unless an entry with the same type, callback and capture is present. */
  function WithListener(hs: seq<Registration>, r: Registration): (hs': seq<Registration>)
    ensures r in hs'
    ensures forall x :: x in hs' ==> x in hs || x == r
    ensures forall x :: x in hs ==> x in hs'
    ensures r in hs ==> hs' == hs
    ensures r !in hs ==> hs' == hs + [r]
  {
    if r in hs then hs else hs + [r]
  }

  /** Remove an event listener: drop the entry with the same type, callback and capture, keeping the order of the rest. */
  function WithoutListener(hs: seq<Registration>, r: Registration): (hs': seq<Registration>)
    ensures forall x :: x in hs' ==> x in hs && x != r
    ensures forall x :: x in hs && x != r ==> x in hs'
    ensures |hs'| <= |hs|
    ensures r !in hs ==> hs' == hs
  {
    if hs == [] then []
    else if hs[0] == r then WithoutListener(hs[1..], r)
    else [hs[0]] + WithoutListener(hs[1..], r)
  }

  /** The listener list after adding the entries of `rs`, one after another. */
  function AddAll(hs: seq<Registration>, rs: seq<Registration>): (hs': seq<Registration>)
    ensures forall x :: x in hs' ==> x in hs || x in rs
    ensures forall x :: x in hs ==> x in hs'
    ensures forall x :: x in rs ==> x in hs'
  {
    if rs == [] then hs else WithListener(AddAll(hs, rs[..|rs| - 1]), rs[|rs| - 1])
  }

  /** The listener list after removing the entries of `rs`, one after another. */
  function RemoveAll(hs: seq<Registration>, rs: seq<Registration>): (hs': seq<Registration>)
    ensures forall x :: x in hs' ==> x in hs && x !in rs
    ensures forall x :: x in hs && x !in rs ==> x in hs'
  {
    if rs == [] then hs else WithoutListener(RemoveAll(hs, rs[..|rs| - 1]), rs[|rs| - 1])
  }

  /** No entry occurs twice. */
  predicate Distinct(rs: seq<Registration>) {
    forall i, j :: 0 <= i < j < |rs| ==> rs[i] != rs[j]
  }

  /** Dropping the last entry keeps the rest distinct, and the last entry is not among them. */
  lemma DistinctInit(rs: seq<Registration>)
    requires Distinct(rs) && rs != []
    ensures Distinct(rs[..|rs| - 1]) && rs[|rs| - 1] !in rs[..|rs| - 1]
  {
    var init := rs[..|rs| - 1];
    forall i | 0 <= i < |init| ensures init[i] == rs[i] {}
  }

  /** Entries that are new to the list and pairwise distinct are appended in order. */
  lemma {:induction false} AddAllFresh(hs: seq<Registration>, rs: seq<Registration>)
    requires Distinct(rs)
    requires forall r :: r in rs ==> r !in hs
    ensures AddAll(hs, rs) == hs + rs
  {
    if rs != [] {
      var init, last := rs[..|rs| - 1], rs[|rs| - 1];
      assert init + [last] == rs;
      DistinctInit(rs);
      assert forall r :: r in init ==> r in rs;
      AddAllFresh(hs, init);
      assert last !in hs + init by {
        assert last in rs;
      }
      assert AddAll(hs, rs) == WithListener(hs + init, last);
      assert (hs + init) + [last] == hs + rs;
    }
  }

  /** Removing entries none of which is present changes nothing. */
  lemma {:induction false} RemoveAllAbsent(hs: seq<Registration>, rs: seq<Registration>)
    requires forall r :: r in rs ==> r !in hs
    ensures RemoveAll(hs, rs) == hs
  {
    if rs != [] {
      RemoveAllAbsent(hs, rs[..|rs| - 1]);
    }
  }

  /** The element itself when there is one: lets a frame name a field of an optional element. */
  function Present(e: Element?): (s: set<Element>)
    ensures e != null <==> e in s
    ensures |s| <= 1
  {
    if e == null then {} else {e}
  }

  class Element {
    /** The event listener list. */
    var listeners: seq<Registration>
    /** Attribute values, as last passed to `setAttribute` (string conversion is not modelled). */
    var attributes: map<string, JsValue>
    /** Own properties assigned by the driver (`elm[key] = value`). */
    var properties: map<string, JsValue>
    var classList: set<string>
    /** Inline style declarations; the empty string marks a reset declaration. */
    var style: map<string, JsValue>

    constructor ()
      ensures listeners == [] && attributes == map[] && properties == map[]
      ensures classList == {} && style == map[]
    {
      listeners, attributes, properties, classList, style := [], map[], map[], {}, map[];
    }

    method AddEventListener(eventType: string, callback: object, capture: bool)
      modifies this`listeners
      ensures listeners == WithListener(old(listeners), Registration(eventType, callback, capture))
    {
      listeners := WithListener(listeners, Registration(eventType, callback, capture));
    }

    method RemoveEventListener(eventType: string, callback: object, capture: bool)
      modifies this`listeners
      ensures listeners == WithoutListener(old(listeners), Registration(eventType, callback, capture))
    {
      listeners := WithoutListener(listeners, Registration(eventType, callback, capture));
    }

    method SetAttribute(name: string, value: JsValue)
      modifies this`attributes
      ensures attributes == old(attributes)[name := value]
    {
      attributes := attributes[name := value];
    }

    method RemoveAttribute(name: string)
      modifies this`attributes
      ensures attributes == old(attributes) - {name}
    {
      attributes := attributes - {name};
    }

    method SetProperty(name: string, value: JsValue)
      modifies this`properties
      ensures properties == old(properties)[name := value]
    {
      properties := properties[name := value];
    }

    method DeleteProperty(name: string)
      modifies this`properties
      ensures properties == old(properties) - {name}
    {
      properties := properties - {name};
    }

    method AddClass(name: string)
      modifies this`classList
      ensures classList == old(classList) + {name}
    {
      classList := classList + {name};
    }

    method RemoveClass(name: string)
      modifies this`classList
      ensures classList == old(classList) - {name}
    {
      classList := classList - {name};
    }

    method SetStyle(name: string, value: JsValue)
      modifies this`style
      ensures style == old(style)[name := value]
    {
      style := style[name := value];
    }
  }
}
