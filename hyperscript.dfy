/**
 * The hyperscript constructor `h` of `src/index.js`: argument
 * normalisation, child parsing and the data record of a new node.
 */
module Hyperscript {
  import opened JsValues
  import opened Util
  import opened VNodes
  import opened Names
  import opened ClassStrings

  // ----- children -----

  /** The errors `h` throws. */
  datatype HError =
    | TagNotString            // "Tag selector must be a string"
    | InvalidChild(child: JsValue)  // "Invalid virtual node: ..."
    | NullProps               // reading `key` of undefined or null props
    | ClassNotString          // `split` of a truthy non-string class value

  datatype Result<T> = Ok(value: T) | Err(error: HError)

  /** Children skipped by `h`: `undefined`, `null` and `false`. */
  predicate Dropped(c: JsValue) {
    c == Undefined || c == Null || c == Bool(false)
  }

  /** Children `h` accepts: skipped ones, nodes, strings and numbers. */
  predicate ValidChild(c: JsValue) {
    Dropped(c) || IsVNode(c) || IsPrimitive(c)
  }

  /** `${c}` for a string or number. */
  function TextOf(c: JsValue): string
    requires IsPrimitive(c)
  {
    if c.Str? then c.s else IntToString(c.n)
  }

  /** The text node `VNode(undefined, undefined, undefined, text)`. */
  function TextNode(text: string, inst: Ident): JsValue {
    VNode(Undefined, Undefined, Undefined, Str(text), Undefined, inst)
  }

  /** The children that are not skipped, in order. */
  function Kept(cs: seq<JsValue>): seq<JsValue> {
    if cs == [] then []
    else if Dropped(cs[|cs| - 1]) then Kept(cs[..|cs| - 1])
    else Kept(cs[..|cs| - 1]) + [cs[|cs| - 1]]
  }

  /** How a kept child appears among the node's children. */
  predicate ChildBecomes(c: JsValue, k: JsValue) {
    if IsVNode(c) then k == c
    else IsPrimitive(c) && IsVNode(k) && Get(k, "sel") == Undefined && Get(k, "text") == Str(TextOf(c))
  }

  datatype Parsed = Parsed(kids: seq<JsValue>, next: nat)

  /**
   * The children loop of `h` over `cs`, with `next` the next fresh identity:
   * skip, keep or wrap each child in order, and stop at the first invalid one.
   */
  function ParseChildren(cs: seq<JsValue>, next: nat): (r: Result<Parsed>)
    ensures r.Ok? ==> next <= r.value.next
    ensures r.Err? ==> r.error.InvalidChild?
  {
    if cs == [] then Ok(Parsed([], next))
    else
      match ParseChildren(cs[..|cs| - 1], next)
      case Err(e) => Err(e)
      case Ok(p) => ParseChild(p, cs[|cs| - 1])
  }

  /** One turn of the children loop on child `c`, after the children so far gave `p`. */
  function ParseChild(p: Parsed, c: JsValue): (r: Result<Parsed>)
    ensures r.Ok? ==> p.next <= r.value.next
    ensures r.Err? ==> r == Err(InvalidChild(c)) && !ValidChild(c)
  {
    if Dropped(c) then Ok(p)
    else if IsVNode(c) then Ok(Parsed(p.kids + [c], p.next))
    else if IsPrimitive(c) then Ok(Parsed(p.kids + [TextNode(TextOf(c), Ident(p.next))], p.next + 1))
    else Err(InvalidChild(c))
  }

  /** One more child: the children loop on `cs[..i + 1]` is one turn more than on `cs[..i]`. */
  lemma ParseChildrenStep(cs: seq<JsValue>, i: nat, next: nat)
    requires i < |cs| && ParseChildren(cs[..i], next).Ok?
    ensures ParseChildren(cs[..i + 1], next) == ParseChild(ParseChildren(cs[..i], next).value, cs[i])
  {
    assert cs[..i + 1][..i] == cs[..i];
    assert cs[..i + 1][i] == cs[i];
  }

  /**
   * The children loop throws exactly when some child is invalid, and then
   * for the first invalid child.
   */
  lemma {:induction false} ParseChildrenFails(cs: seq<JsValue>, next: nat)
    ensures ParseChildren(cs, next).Err? <==> exists i :: 0 <= i < |cs| && !ValidChild(cs[i])
    ensures ParseChildren(cs, next).Err? ==>
              exists i :: 0 <= i < |cs| && cs[i] == ParseChildren(cs, next).error.child && !ValidChild(cs[i]) &&
                          forall j :: 0 <= j < i ==> ValidChild(cs[j])
  {
    if cs != [] {
      var init, c := cs[..|cs| - 1], cs[|cs| - 1];
      assert forall i :: 0 <= i < |init| ==> init[i] == cs[i];
      ParseChildrenFails(init, next);
      if ParseChildren(init, next).Ok? && !ValidChild(c) {
        assert forall j :: 0 <= j < |init| ==> ValidChild(cs[j]);
      }
    }
  }

  /**
   * A successful children loop yields, in order, one node per child that is
   * not skipped: the child itself when it is a node, a text node otherwise.
   */
  lemma {:induction false} ParseChildrenKids(cs: seq<JsValue>, next: nat)
    requires ParseChildren(cs, next).Ok?
    ensures var kids := ParseChildren(cs, next).value.kids;
            && |kids| == |Kept(cs)|
            && (forall j :: 0 <= j < |kids| ==> ChildBecomes(Kept(cs)[j], kids[j]))
            && forall k :: k in kids ==> IsVNode(k)
  {
    if cs != [] {
      var init, c := cs[..|cs| - 1], cs[|cs| - 1];
      ParseChildrenKids(init, next);
      var p := ParseChildren(init, next).value;
      if !Dropped(c) {
        assert Kept(cs) == Kept(init) + [c];
        if !IsVNode(c) {
          var t := TextNode(TextOf(c), Ident(p.next));
          assert ChildBecomes(c, t);
        }
      }
    }
  }

  /** The child list of `h`: the array itself, or the lone value wrapped in one. */
  function ChildList(children: JsValue): (cs: seq<JsValue>)
    ensures children.Arr? ==> cs == children.elems
    ensures !children.Arr? ==> cs == [children]
  {
    if !Truthy(IsArray(children)) then [children] else children.elems
  }

  // ----- arguments and data -----

  /** The `i`-th argument, `undefined` when not passed. */
  function Arg(args: seq<JsValue>, i: nat): JsValue {
    if i < |args| then args[i] else Undefined
  }

  const EmptyObj: JsValue := Obj(map[], true)

  /** Arity normalisation: the effective `(tag, props, children)`. */
  function Normalise(args: seq<JsValue>): (n: (JsValue, JsValue, JsValue))
    ensures n.0 == Arg(args, 0)
    ensures |args| == 1 ==> n.1 == EmptyObj && n.2 == Arr([])
    ensures |args| == 2 && ((args[1].Obj? && args[1].plain) || args[1].Ref?) ==> n.1 == args[1] && n.2 == Arr([])
    ensures |args| == 2 && !((args[1].Obj? && args[1].plain) || args[1].Ref?) ==> n.1 == EmptyObj && n.2 == args[1]
    ensures |args| != 1 && |args| != 2 ==> n.1 == Arg(args, 1) && n.2 == Arg(args, 2)
  {
    if |args| == 1 then (args[0], EmptyObj, Arr([]))
    else if |args| == 2 then
      if Truthy(IsPlainObj(args[1])) then (args[0], args[1], Arr([])) else (args[0], EmptyObj, args[1])
    else (Arg(args, 0), Arg(args, 1), Arg(args, 2))
  }

  /** `props.class || props.className`. */
  function ClassValue(props: JsValue): (v: JsValue)
    requires !Nullish(props)
    ensures v == Get(props, "class") || v == Get(props, "className")
    ensures Truthy(v) <==> Truthy(Get(props, "class")) || Truthy(Get(props, "className"))
  {
    if Truthy(Get(props, "class")) then Get(props, "class") else Get(props, "className")
  }

  /** The keys of `props` that `keep` accepts, with their values. */
  function Pick(props: JsValue, keep: string -> bool): (m: map<string, JsValue>)
    requires !Nullish(props)
    ensures forall k :: k in m <==> k in Keys(props) && keep(k)
    ensures forall k :: k in m ==> m[k] == Get(props, k)
  {
    map k | k in Keys(props) && keep(k) :: Get(props, k)
  }

  /** The keys among `done` that `keep` accepts, with their values in `props`. */
  function PickAmong(props: JsValue, done: set<string>, keep: string -> bool): map<string, JsValue>
    requires !Nullish(props)
  {
    map k | k in done && keep(k) :: Get(props, k)
  }

  /** Visiting one more key adds it exactly when `keep` accepts it. */
  lemma PickAmongAdd(props: JsValue, done: set<string>, k: string, keep: string -> bool)
    requires !Nullish(props)
    ensures PickAmong(props, done + {k}, keep) ==
              if keep(k) then PickAmong(props, done, keep)[k := Get(props, k)] else PickAmong(props, done, keep)
  {
    var a, b := PickAmong(props, done + {k}, keep), PickAmong(props, done, keep);
    if keep(k) {
      assert a.Keys == b.Keys + {k};
    } else {
      assert a.Keys == b.Keys;
    }
  }

  /** `Pick` is the only map with its keys and values. */
  lemma PickUnique(props: JsValue, keep: string -> bool, m: map<string, JsValue>)
    requires !Nullish(props)
    requires forall k :: k in m <==> k in Keys(props) && keep(k)
    requires forall k :: k in m ==> m[k] == Get(props, k)
    ensures m == Pick(props, keep)
  {
    assert m.Keys == Pick(props, keep).Keys;
  }

  /** The copied attributes: the keys of `props` that `isAttr` accepts. */
  function AttrsOf(props: JsValue): (m: map<string, JsValue>)
    requires !Nullish(props)
    ensures forall k :: k in m <==> k in Keys(props) && IsAttr(k)
    ensures forall k :: k in m ==> m[k] == Get(props, k)
  {
    Pick(props, IsAttr)
  }

  /** The copied properties: the keys of `props` that `isHtmlProp` accepts. */
  function HtmlPropsOf(props: JsValue): (m: map<string, JsValue>)
    requires !Nullish(props)
    ensures m.Keys <= HtmlProps
    ensures forall k :: k in m <==> k in Keys(props) && IsHtmlProp(k)
    ensures forall k :: k in m ==> m[k] == Get(props, k)
  {
    Pick(props, IsHtmlProp)
  }

  /** `props.style || {}`. */
  function StyleOf(props: JsValue): (st: JsValue)
    requires !Nullish(props)
    ensures Truthy(st)
    ensures Truthy(Get(props, "style")) ==> st == Get(props, "style")
  {
    if Truthy(Get(props, "style")) then Get(props, "style") else EmptyObj
  }

  /** The data record `{key, attrs, style, klass, props}` of a new node. */
  function DataOf(props: JsValue, attrs: map<string, JsValue>, htmlProps: map<string, JsValue>, klass: set<string>): (d: JsValue)
    requires !Nullish(props)
    ensures d.Obj? && Get(d, "key") == Get(props, "key") && Get(d, "style") == StyleOf(props)
    ensures Get(d, "attrs") == Obj(attrs, true) && Get(d, "props") == Obj(htmlProps, true) && Get(d, "klass") == ClassObj(klass)
  {
    Obj(map["key" := Get(props, "key"), "attrs" := Obj(attrs, true), "style" := StyleOf(props),
            "klass" := ClassObj(klass), "props" := Obj(htmlProps, true)], true)
  }

  /** The data record `h` builds from the props and the class names `klass`. */
  function HData(props: JsValue, klass: set<string>): JsValue
    requires !Nullish(props)
  {
    DataOf(props, AttrsOf(props), HtmlPropsOf(props), klass)
  }

  /** The data record holds the props' `key` and their `style`, or `{}` when that is falsy. */
  lemma HDataKeyStyle(props: JsValue, klass: set<string>)
    requires !Nullish(props)
    ensures HData(props, klass).Obj?
    ensures Get(HData(props, klass), "key") == Get(props, "key")
    ensures Get(HData(props, klass), "style") == (if Truthy(Get(props, "style")) then Get(props, "style") else EmptyObj)
  {
  }

  /** The data record's `attrs` holds exactly the keys of the props that `isAttr` accepts, with their values. */
  lemma HDataAttrs(props: JsValue, klass: set<string>)
    requires !Nullish(props)
    ensures var a := Get(HData(props, klass), "attrs");
            && a.Obj?
            && (forall k :: k in a.fields <==> k in Keys(props) && IsAttr(k))
            && (forall k :: k in a.fields ==> a.fields[k] == Get(props, k))
  {
  }

  /** The data record's `props` holds `value` when the props have it, and nothing else. */
  lemma HDataProps(props: JsValue, klass: set<string>)
    requires !Nullish(props)
    ensures var p := Get(HData(props, klass), "props");
            && p.Obj?
            && (forall k :: k in p.fields <==> k in Keys(props) && k == "value")
            && (forall k :: k in p.fields ==> p.fields[k] == Get(props, k))
  {
  }

  /** The data record's `klass` has exactly the class names as keys, each mapped to `true`. */
  lemma HDataKlass(props: JsValue, klass: set<string>)
    requires !Nullish(props)
    ensures var c := Get(HData(props, klass), "klass");
            && c.Obj? && c.fields.Keys == klass
            && forall n :: n in c.fields ==> c.fields[n] == Bool(true)
  {
  }

  /** The class names `h` reads from the props: those of `class`, or of `className` when `class` is falsy. */
  function KlassOf(props: JsValue): set<string>
    requires !Nullish(props) && (!Truthy(ClassValue(props)) || ClassValue(props).Str?)
  {
    ClassNames(ClassString(ClassValue(props)))
  }

  datatype Built = Built(node: JsValue, next: nat)

  /**
   * The body of `h` after arity normalisation: check the tag, parse the
   * children, read the props and build the node.
   */
  function Build(tag: JsValue, props: JsValue, children: JsValue, next: nat): (r: Result<Built>)
    ensures !Truthy(IsStr(tag)) ==> r == Err(TagNotString)
    ensures r.Ok? ==> IsVNode(r.value.node) && Get(r.value.node, "sel") == tag && tag.Str? && tag.s != ""
    ensures r.Ok? ==> next < r.value.next
  {
    if !Truthy(IsStr(tag)) then Err(TagNotString)
    else
      match ParseChildren(ChildList(children), next)
      case Err(e) => Err(e)
      case Ok(p) =>
        if Nullish(props) then Err(NullProps)
        else if Truthy(ClassValue(props)) && !ClassValue(props).Str? then Err(ClassNotString)
        else
          Ok(Built(VNode(tag, HData(props, KlassOf(props)), Arr(p.kids), Undefined, Undefined, Ident(p.next)), p.next + 1))
  }

  /** What `h` returns (or throws) for `args`, with `next` the next fresh identity. */
  function HSpec(args: seq<JsValue>, next: nat): (r: Result<Built>)
    ensures !Truthy(IsStr(Arg(args, 0))) ==> r == Err(TagNotString)
    ensures r.Ok? ==> IsVNode(r.value.node) && Get(r.value.node, "sel") == Arg(args, 0)
    ensures r.Ok? ==> Arg(args, 0).Str? && Arg(args, 0).s != ""
    ensures r.Ok? ==> next < r.value.next
  {
    var n := Normalise(args);
    Build(n.0, n.1, n.2, next)
  }

  /**
   * What a successful `h` builds: the data record of the props, the props'
   * key, and the children in order (skipped ones dropped, text wrapped).
   */
  lemma BuildContents(tag: JsValue, props: JsValue, children: JsValue, next: nat)
    requires Build(tag, props, children, next).Ok?
    ensures !Nullish(props) && (!Truthy(ClassValue(props)) || ClassValue(props).Str?)
    ensures var node := Build(tag, props, children, next).value.node;
            Get(node, "data") == HData(props, KlassOf(props)) && Get(node, "key") == Get(props, "key")
    ensures var kids := Get(Build(tag, props, children, next).value.node, "children");
            && kids.Arr? && |kids.elems| == |Kept(ChildList(children))|
            && forall j :: 0 <= j < |kids.elems| ==> ChildBecomes(Kept(ChildList(children))[j], kids.elems[j])
  {
    var pr := ParseChildren(ChildList(children), next);
    assert Truthy(IsStr(tag)) && pr.Ok?;
    assert !Nullish(props) && (!Truthy(ClassValue(props)) || ClassValue(props).Str?);
    var node := VNode(tag, HData(props, KlassOf(props)), Arr(pr.value.kids), Undefined, Undefined, Ident(pr.value.next));
    assert Build(tag, props, children, next).value.node == node;
    ParseChildrenKids(ChildList(children), next);
  }

  /**
   * Why `h` throws, checked in order: a tag that is not a non-empty string;
   * else the first child that is not skipped, a node, a string or a number;
   * else missing props; else a truthy class value that is not a string.
   */
  lemma BuildFails(tag: JsValue, props: JsValue, children: JsValue, next: nat)
    ensures Build(tag, props, children, next) == Err(TagNotString) <==> !Truthy(IsStr(tag))
    ensures Build(tag, props, children, next).Err? && Build(tag, props, children, next).error.InvalidChild? ==>
              && Truthy(IsStr(tag))
              && Build(tag, props, children, next).error.child in ChildList(children)
              && !ValidChild(Build(tag, props, children, next).error.child)
    ensures Truthy(IsStr(tag)) && (exists i :: 0 <= i < |ChildList(children)| && !ValidChild(ChildList(children)[i])) ==>
              Build(tag, props, children, next).Err? && Build(tag, props, children, next).error.InvalidChild?
    ensures Build(tag, props, children, next) == Err(NullProps) <==>
              Truthy(IsStr(tag)) && ParseChildren(ChildList(children), next).Ok? && Nullish(props)
    ensures Build(tag, props, children, next) == Err(ClassNotString) <==>
              && Truthy(IsStr(tag)) && ParseChildren(ChildList(children), next).Ok? && !Nullish(props)
              && Truthy(ClassValue(props)) && !ClassValue(props).Str?
  {
    ParseChildrenFails(ChildList(children), next);
  }

  /** Once a prefix of the children throws, the whole list throws the same error. */
  lemma {:induction false} ParseErrorPersists(cs: seq<JsValue>, n: nat, next: nat)
    requires n <= |cs| && ParseChildren(cs[..n], next).Err?
    ensures ParseChildren(cs, next) == ParseChildren(cs[..n], next)
    decreases |cs| - n
  {
    if n < |cs| {
      assert cs[..n + 1][..n] == cs[..n];
      ParseErrorPersists(cs, n + 1, next);
    } else {
      assert cs[..n] == cs;
    }
  }

  /** `VNode(undefined, undefined, undefined, text)`: a text node with a fresh instance object. */
  method NewTextNode(ids: IdentAllocator, text: string) returns (node: JsValue)
    requires ids.Valid()
    modifies ids
    ensures ids.Valid() && ids.next == old(ids.next) + 1
    ensures node == TextNode(text, Ident(old(ids.next)))
  {
    node := NewVNode(ids, Undefined, Undefined, Undefined, Str(text), Undefined);
  }

  /** One turn of the children loop: `kids` so far, and the child `c`. */
  method ParseOne(ids: IdentAllocator, kids: seq<JsValue>, c: JsValue) returns (r: Result<seq<JsValue>>)
    requires ids.Valid()
    modifies ids
    ensures ids.Valid() && old(ids.next) <= ids.next
    ensures r.Err? ==> ParseChild(Parsed(kids, old(ids.next)), c) == Err(r.error)
    ensures r.Ok? ==> ParseChild(Parsed(kids, old(ids.next)), c) == Ok(Parsed(r.value, ids.next))
  {
    ghost var p := Parsed(kids, ids.next);
    if Dropped(c) {
      r := Ok(kids);
    } else if IsVNode(c) {
      r := Ok(kids + [c]);
    } else if IsPrimitive(c) {
      var text := NewTextNode(ids, TextOf(c));
      r := Ok(kids + [text]);
    } else {
      r := Err(InvalidChild(c));
    }
    assert ParseChild(p, c) == if r.Ok? then Ok(Parsed(r.value, ids.next)) else Err(r.error);
  }

  /**
   * The children loop of `h`: skip `undefined`, `null` and `false`, keep
   * nodes, wrap strings and numbers in freshly allocated text nodes, and
   * throw at the first other value.
   */
  method ParseChildList(ids: IdentAllocator, cs: seq<JsValue>) returns (r: Result<seq<JsValue>>)
    requires ids.Valid()
    modifies ids
    ensures ids.Valid() && old(ids.next) <= ids.next
    ensures r.Err? <==> ParseChildren(cs, old(ids.next)).Err?
    ensures r.Err? ==> r.error == ParseChildren(cs, old(ids.next)).error
    ensures r.Ok? ==> ParseChildren(cs, old(ids.next)) == Ok(Parsed(r.value, ids.next))
  {
    ghost var start := ids.next;
    var temp := [];
    var i := 0;
    while i < |cs|
      invariant 0 <= i <= |cs|
      invariant ids.Valid() && start <= ids.next
      invariant ParseChildren(cs[..i], start) == Ok(Parsed(temp, ids.next))
    {
      ParseChildrenStep(cs, i, start);
      var step := ParseOne(ids, temp, cs[i]);
      if step.Err? {
        ParseErrorPersists(cs, i + 1, start);
        return step;
      }
      temp := step.value;
      i := i + 1;
    }
    assert cs[..i] == cs;
    r := Ok(temp);
  }

  /** The `keys(props).forEach` loop of `h`: copy attribute keys into `attrs` and property keys into `htmlProps`. */
  method ClassifyProps(props: JsValue) returns (attrs: map<string, JsValue>, htmlProps: map<string, JsValue>)
    requires !Nullish(props)
    ensures attrs == AttrsOf(props) && htmlProps == HtmlPropsOf(props)
  {
    attrs, htmlProps := map[], map[];
    var todo := Keys(props);
    while todo != {}
      invariant todo <= Keys(props)
      invariant attrs == PickAmong(props, Keys(props) - todo, IsAttr)
      invariant htmlProps == PickAmong(props, Keys(props) - todo, IsHtmlProp)
      decreases todo
    {
      var k :| k in todo;
      PickAmongAdd(props, Keys(props) - todo, k, IsAttr);
      PickAmongAdd(props, Keys(props) - todo, k, IsHtmlProp);
      if IsAttr(k) {
        attrs := attrs[k := Get(props, k)];
      }
      if IsHtmlProp(k) {
        htmlProps := htmlProps[k := Get(props, k)];
      }
      assert Keys(props) - (todo - {k}) == (Keys(props) - todo) + {k};
      todo := todo - {k};
    }
    assert Keys(props) - todo == Keys(props);
  }

  /** When every check passes, `h` builds the node from the parsed children and the data record. */
  lemma BuildSucceeds(tag: JsValue, props: JsValue, children: JsValue, next: nat)
    requires Truthy(IsStr(tag)) && ParseChildren(ChildList(children), next).Ok?
    requires !Nullish(props) && (!Truthy(ClassValue(props)) || ClassValue(props).Str?)
    ensures Build(tag, props, children, next).Ok?
    ensures var p := ParseChildren(ChildList(children), next).value;
            && Build(tag, props, children, next).value.node == VNode(tag, HData(props, KlassOf(props)), Arr(p.kids), Undefined, Undefined, Ident(p.next))
            && Build(tag, props, children, next).value.next == p.next + 1
  {
  }

  /** The node the last step of `h` builds is what `Build` promises. */
  lemma BuildAgrees(tag: JsValue, props: JsValue, children: JsValue, next: nat, node: JsValue)
    requires Truthy(IsStr(tag)) && ParseChildren(ChildList(children), next).Ok?
    requires !Nullish(props) && (!Truthy(ClassValue(props)) || ClassValue(props).Str?)
    requires var p := ParseChildren(ChildList(children), next).value;
             node == VNode(tag, HData(props, KlassOf(props)), Arr(p.kids), Undefined, Undefined, Ident(p.next))
    ensures Agrees(Ok(node), Build(tag, props, children, next), ParseChildren(ChildList(children), next).value.next + 1)
  {
    BuildSucceeds(tag, props, children, next);
  }

  /** A run of `h` that returned `r` and left `next` as the next fresh identity behaves as `spec` says. */
  predicate Agrees(r: Result<JsValue>, spec: Result<Built>, next: nat) {
    && (r.Err? <==> spec.Err?)
    && (r.Err? ==> r.error == spec.error)
    && (r.Ok? ==> r.value == spec.value.node && next == spec.value.next)
  }

  /**
   * The body of `h` after normalisation: check the tag, parse the children,
   * then classify the props into the data record and build the node.
   */
  method BuildNode(ids: IdentAllocator, tag: JsValue, props: JsValue, children: JsValue) returns (r: Result<JsValue>)
    requires ids.Valid()
    modifies ids
    ensures ids.Valid() && old(ids.next) <= ids.next
    ensures Agrees(r, Build(tag, props, children, old(ids.next)), ids.next)
  {
    ghost var spec := Build(tag, props, children, ids.next);
    if !Truthy(IsStr(tag)) {
      return Err(TagNotString);
    }
    ghost var parsed := ParseChildren(ChildList(children), ids.next);
    var kids := ParseChildList(ids, ChildList(children));
    if kids.Err? {
      assert spec == Err(parsed.error);
      return Err(kids.error);
    }
    r := FinishNode(ids, tag, props, children, kids.value, old(ids.next));
  }

  /**
   * The rest of `h` once the children are parsed (from the identity
   * `start` on): check the props and the class value, then build the node.
   */
  method FinishNode(ids: IdentAllocator, tag: JsValue, props: JsValue, children: JsValue, kids: seq<JsValue>, ghost start: nat)
    returns (r: Result<JsValue>)
    requires ids.Valid() && Truthy(IsStr(tag))
    requires ParseChildren(ChildList(children), start) == Ok(Parsed(kids, ids.next))
    modifies ids
    ensures ids.Valid() && old(ids.next) <= ids.next
    ensures Agrees(r, Build(tag, props, children, start), ids.next)
  {
    if Nullish(props) {
      return Err(NullProps);
    }
    var klassValue := ClassValue(props);
    if Truthy(klassValue) && !klassValue.Str? {
      return Err(ClassNotString);
    }
    var node := NewElementNode(ids, tag, props, kids);
    BuildAgrees(tag, props, children, start, node);
    r := Ok(node);
  }

  /** The last step of `h`: parse the class names, classify the props, build the data record and the node. */
  method NewElementNode(ids: IdentAllocator, tag: JsValue, props: JsValue, kids: seq<JsValue>) returns (node: JsValue)
    requires ids.Valid() && !Nullish(props) && (!Truthy(ClassValue(props)) || ClassValue(props).Str?)
    modifies ids
    ensures ids.Valid() && ids.next == old(ids.next) + 1
    ensures node == VNode(tag, HData(props, KlassOf(props)), Arr(kids), Undefined, Undefined, Ident(old(ids.next)))
  {
    var klass := ToClassObj(ClassValue(props));
    var attrs, htmlProps := ClassifyProps(props);
    var data := DataOf(props, attrs, htmlProps, klass);
    node := NewVNode(ids, tag, data, Arr(kids), Undefined, Undefined);
  }

  /** `h(...args)`: normalise the arguments, then build the node. */
  method H(ids: IdentAllocator, args: seq<JsValue>) returns (r: Result<JsValue>)
    requires ids.Valid()
    modifies ids
    ensures ids.Valid() && old(ids.next) <= ids.next
    ensures Agrees(r, HSpec(args, old(ids.next)), ids.next)
  {
    var (tag, props, children) := Normalise(args);
    r := BuildNode(ids, tag, props, children);
  }
}
