/**
 * The module hooks of `src/index.js` that the patch engine calls around its
 * diff: the four map diffs that bring an element's attributes, properties,
 * classes and inline style from an old node's data to a new node's data,
 * the event-source hooks and the hook object itself.
 *
 * A node's `elm` holds its element as a host value; its `data` holds the
 * tables `attrs`, `props`, `klass` and `style`, each a plain object or a
 * falsy value read as `{}`, and possibly an `eventSource`.
 */
module PatchHooks {
  import opened JsValues
  import opened Dom
  import opened Events
  import opened Names

  // ----- reading nodes -----

  /** A node whose `elm` is an element. */
  predicate HasElement(node: JsValue) {
    !Nullish(node) && Get(node, "elm").Host? && Get(node, "elm").ref is Element
  }

  /** `const {elm} = cur`. */
  function ElmOf(node: JsValue): (e: Element)
    requires HasElement(node)
    ensures Get(node, "elm") == Host(e)
  {
    Get(node, "elm").ref as Element
  }

  /** `node.data.<name> || {}` can be read and enumerated: the data is an object and the table is falsy or an object. */
  predicate HasTable(node: JsValue, name: string) {
    && !Nullish(node)
    && !Nullish(Get(node, "data"))
    && (!Truthy(Get(Get(node, "data"), name)) || Get(Get(node, "data"), name).Obj?)
  }

  /** The map `node.data.<name> || {}`. */
  function Table(node: JsValue, name: string): (m: map<string, JsValue>)
    requires HasTable(node, name)
    ensures !Truthy(Get(Get(node, "data"), name)) ==> m == map[]
    ensures Truthy(Get(Get(node, "data"), name)) ==> m == Get(Get(node, "data"), name).fields
  {
    var t := Get(Get(node, "data"), name);
    if Truthy(t) then t.fields else map[]
  }

  /** `m[k]`: `undefined` for a missing key. */
  function Lookup(m: map<string, JsValue>, k: string): (v: JsValue)
    ensures k in m ==> v == m[k]
    ensures k !in m ==> v == Undefined
  {
    if k in m then m[k] else Undefined
  }

  // ----- attributes -----

  /** A key of the new table whose value differs from the old one (`o !== c`). */
  predicate Changed(oldT: map<string, JsValue>, newT: map<string, JsValue>, k: string) {
    k in newT && Lookup(oldT, k) != newT[k]
  }

  /** A boolean attribute with a falsy value is absent rather than set. */
  predicate Absent(k: string, v: JsValue) {
    !Truthy(v) && k in BoolAttrs
  }

  /** The attributes an element shows for an `attrs` table. */
  function RenderedAttrs(attrs: map<string, JsValue>): (m: map<string, JsValue>)
    ensures forall k :: k in m <==> k in attrs && !Absent(k, attrs[k])
    ensures forall k :: k in m ==> m[k] == attrs[k]
  {
    map k | k in attrs && !Absent(k, attrs[k]) :: attrs[k]
  }

  /**
   * The attribute map after `updateAttrs`: a changed key is removed when its
   * new value is falsy and it is a boolean attribute, and set otherwise; a
   * key only the old table has is removed; every other attribute is kept.
   */
  function AttrsAfter(before: map<string, JsValue>, oldT: map<string, JsValue>, newT: map<string, JsValue>): (m: map<string, JsValue>)
    ensures forall k :: Changed(oldT, newT, k) && !Absent(k, newT[k]) ==> k in m && m[k] == newT[k]
    ensures forall k :: Changed(oldT, newT, k) && Absent(k, newT[k]) ==> k !in m
    ensures forall k :: k in oldT && k !in newT ==> k !in m
    ensures forall k :: !Changed(oldT, newT, k) && !(k in oldT && k !in newT) ==>
              (k in m <==> k in before) && (k in before ==> m[k] == before[k])
  {
    map k | && k in before.Keys + newT.Keys
            && (k in before || (Changed(oldT, newT, k) && !Absent(k, newT[k])))
            && !(Changed(oldT, newT, k) && Absent(k, newT[k]))
            && !(k in oldT && k !in newT)
      :: if Changed(oldT, newT, k) then newT[k] else before[k]
  }

  /** A new key whose value reads like a missing one (`undefined`) and that the old table lacks: `o !== c` is false, so it is never written. */
  predicate Unwritten(oldT: map<string, JsValue>, newT: map<string, JsValue>, k: string) {
    k in newT && k !in oldT && newT[k] == Undefined
  }

  /**
   * An element showing the old table shows the new one after `updateAttrs`,
   * except that a new `undefined`-valued key the old table lacks stays absent.
   */
  lemma AttrsSync(oldT: map<string, JsValue>, newT: map<string, JsValue>)
    ensures forall k :: !Unwritten(oldT, newT, k) ==>
              (k in AttrsAfter(RenderedAttrs(oldT), oldT, newT) <==> k in RenderedAttrs(newT))
    ensures forall k :: k in AttrsAfter(RenderedAttrs(oldT), oldT, newT) ==>
              k in RenderedAttrs(newT) && AttrsAfter(RenderedAttrs(oldT), oldT, newT)[k] == RenderedAttrs(newT)[k]
    ensures forall k :: Unwritten(oldT, newT, k) ==> k !in AttrsAfter(RenderedAttrs(oldT), oldT, newT)
  {
    var after, want := AttrsAfter(RenderedAttrs(oldT), oldT, newT), RenderedAttrs(newT);
    forall k | k in newT && k in oldT && !Changed(oldT, newT, k)
      ensures (k in after <==> k in want) && (k in after ==> after[k] == want[k])
    {
      assert oldT[k] == newT[k];
    }
  }

  /** A map that agrees with `AttrsAfter` key by key is `AttrsAfter`. */
  lemma AttrsAfterUnique(before: map<string, JsValue>, oldT: map<string, JsValue>, newT: map<string, JsValue>, m: map<string, JsValue>)
    requires forall k :: Changed(oldT, newT, k) && !Absent(k, newT[k]) ==> k in m && m[k] == newT[k]
    requires forall k :: Changed(oldT, newT, k) && Absent(k, newT[k]) ==> k !in m
    requires forall k :: k in oldT && k !in newT ==> k !in m
    requires forall k :: !Changed(oldT, newT, k) && !(k in oldT && k !in newT) ==>
               (k in m <==> k in before) && (k in before ==> m[k] == before[k])
    ensures m == AttrsAfter(before, oldT, newT)
  {
    var a := AttrsAfter(before, oldT, newT);
    assert forall k :: k in m <==> k in a;
    assert forall k :: k in m ==> m[k] == a[k];
  }

  /** The two loops of `updateAttrs` on the element and the two tables. */
  method DiffAttrs(elm: Element, oldAttrs: map<string, JsValue>, attrs: map<string, JsValue>)
    modifies elm`attributes
    ensures elm.attributes == AttrsAfter(old(elm.attributes), oldAttrs, attrs)
  {
    ghost var before := elm.attributes;
    var todo := attrs.Keys;
    while todo != {}
      invariant todo <= attrs.Keys
      invariant forall k :: !(k in attrs.Keys - todo && Changed(oldAttrs, attrs, k)) ==>
                  (k in elm.attributes <==> k in before) && (k in before ==> elm.attributes[k] == before[k])
      invariant forall k :: k in attrs.Keys - todo && Changed(oldAttrs, attrs, k) && !Absent(k, attrs[k]) ==>
                  k in elm.attributes && elm.attributes[k] == attrs[k]
      invariant forall k :: k in attrs.Keys - todo && Changed(oldAttrs, attrs, k) && Absent(k, attrs[k]) ==> k !in elm.attributes
      decreases todo
    {
      var key :| key in todo;
      var c, o := attrs[key], Lookup(oldAttrs, key);
      if o != c {
        if !Truthy(c) && key in BoolAttrs {
          elm.RemoveAttribute(key);
        } else {
          elm.SetAttribute(key, c);
        }
      }
      todo := todo - {key};
    }
    ghost var mid := elm.attributes;
    var stale := oldAttrs.Keys;
    while stale != {}
      invariant stale <= oldAttrs.Keys
      invariant forall k :: k in oldAttrs.Keys - stale && k !in attrs ==> k !in elm.attributes
      invariant forall k :: !(k in oldAttrs.Keys - stale && k !in attrs) ==>
                  (k in elm.attributes <==> k in mid) && (k in mid ==> elm.attributes[k] == mid[k])
      decreases stale
    {
      var key :| key in stale;
      if key !in attrs {
        elm.RemoveAttribute(key);
      }
      stale := stale - {key};
    }
    AttrsAfterUnique(before, oldAttrs, attrs, elm.attributes);
  }

  /**
   * `updateAttrs(old, cur)`: for each key of the new table whose value
   * changed, remove it (falsy boolean attribute) or set it; then remove each
   * key only the old table has.
   */
  method UpdateAttrs(oldNode: JsValue, cur: JsValue)
    requires HasElement(cur) && HasTable(oldNode, "attrs") && HasTable(cur, "attrs")
    modifies ElmOf(cur)`attributes
    ensures ElmOf(cur).attributes == AttrsAfter(old(ElmOf(cur).attributes), Table(oldNode, "attrs"), Table(cur, "attrs"))
  {
    DiffAttrs(ElmOf(cur), Table(oldNode, "attrs"), Table(cur, "attrs"));
  }

  // ----- properties -----

  /**
   * The property map after `updateProps`: a changed key is assigned its new
   * value, a key only the old table has is deleted, every other property is
   * kept.
   */
  function PropsAfter(before: map<string, JsValue>, oldT: map<string, JsValue>, newT: map<string, JsValue>): (m: map<string, JsValue>)
    ensures forall k :: Changed(oldT, newT, k) ==> k in m && m[k] == newT[k]
    ensures forall k :: k in oldT && k !in newT ==> k !in m
    ensures forall k :: !Changed(oldT, newT, k) && !(k in oldT && k !in newT) ==>
              (k in m <==> k in before) && (k in before ==> m[k] == before[k])
  {
    map k | k in before.Keys + newT.Keys && (k in before || Changed(oldT, newT, k)) && !(k in oldT && k !in newT)
      :: if Changed(oldT, newT, k) then newT[k] else before[k]
  }

  /**
   * An element whose properties read like the old table reads like the new
   * one afterwards; the old-only keys are deleted and properties neither
   * table names are left alone.
   */
  lemma PropsSync(before: map<string, JsValue>, oldT: map<string, JsValue>, newT: map<string, JsValue>)
    requires forall k :: k in oldT.Keys + newT.Keys ==> Lookup(before, k) == Lookup(oldT, k)
    ensures forall k :: k in newT ==> Lookup(PropsAfter(before, oldT, newT), k) == newT[k]
    ensures forall k :: k in oldT && k !in newT ==> k !in PropsAfter(before, oldT, newT)
    ensures forall k :: k !in oldT && k !in newT ==> Lookup(PropsAfter(before, oldT, newT), k) == Lookup(before, k)
  {
    var after := PropsAfter(before, oldT, newT);
    forall k | k in newT
      ensures Lookup(after, k) == newT[k]
    {
      assert k in oldT.Keys + newT.Keys;
    }
  }

  /** A map that agrees with `PropsAfter` key by key is `PropsAfter`. */
  lemma PropsAfterUnique(before: map<string, JsValue>, oldT: map<string, JsValue>, newT: map<string, JsValue>, m: map<string, JsValue>)
    requires forall k :: Changed(oldT, newT, k) ==> k in m && m[k] == newT[k]
    requires forall k :: k in oldT && k !in newT ==> k !in m
    requires forall k :: !Changed(oldT, newT, k) && !(k in oldT && k !in newT) ==>
               (k in m <==> k in before) && (k in before ==> m[k] == before[k])
    ensures m == PropsAfter(before, oldT, newT)
  {
    var a := PropsAfter(before, oldT, newT);
    assert forall k :: k in m <==> k in a;
    assert forall k :: k in m ==> m[k] == a[k];
  }

  /** The two loops of `updateProps` on the element and the two tables. */
  method DiffProps(elm: Element, oldProps: map<string, JsValue>, props: map<string, JsValue>)
    modifies elm`properties
    ensures elm.properties == PropsAfter(old(elm.properties), oldProps, props)
  {
    ghost var before := elm.properties;
    var todo := props.Keys;
    while todo != {}
      invariant todo <= props.Keys
      invariant forall k :: k in props.Keys - todo && Changed(oldProps, props, k) ==> k in elm.properties && elm.properties[k] == props[k]
      invariant forall k :: !(k in props.Keys - todo && Changed(oldProps, props, k)) ==>
                  (k in elm.properties <==> k in before) && (k in before ==> elm.properties[k] == before[k])
      decreases todo
    {
      var key :| key in todo;
      var c, o := props[key], Lookup(oldProps, key);
      if o != c {
        elm.SetProperty(key, c);
      }
      todo := todo - {key};
    }
    ghost var mid := elm.properties;
    var stale := oldProps.Keys;
    while stale != {}
      invariant stale <= oldProps.Keys
      invariant forall k :: k in oldProps.Keys - stale && k !in props ==> k !in elm.properties
      invariant forall k :: !(k in oldProps.Keys - stale && k !in props) ==>
                  (k in elm.properties <==> k in mid) && (k in mid ==> elm.properties[k] == mid[k])
      decreases stale
    {
      var key :| key in stale;
      if key !in props {
        elm.DeleteProperty(key);
      }
      stale := stale - {key};
    }
    PropsAfterUnique(before, oldProps, props, elm.properties);
  }

  /** `updateProps(old, cur)`: assign each changed key of the new table, then delete each key only the old table has. */
  method UpdateProps(oldNode: JsValue, cur: JsValue)
    requires HasElement(cur) && HasTable(oldNode, "props") && HasTable(cur, "props")
    modifies ElmOf(cur)`properties
    ensures ElmOf(cur).properties == PropsAfter(old(ElmOf(cur).properties), Table(oldNode, "props"), Table(cur, "props"))
  {
    DiffProps(ElmOf(cur), Table(oldNode, "props"), Table(cur, "props"));
  }

  // ----- classes -----

  /** The class list after `updateKlass`: the old-only names removed, the new-only names added. */
  function KlassAfter(before: set<string>, oldK: set<string>, newK: set<string>): (s: set<string>)
    ensures forall c :: c in oldK && c !in newK ==> c !in s
    ensures forall c :: c in newK && c !in oldK ==> c in s
    ensures forall c :: (c in oldK <==> c in newK) ==> (c in s <==> c in before)
  {
    (before - (oldK - newK)) + (newK - oldK)
  }

  /** A class list equal to the old names equals the new names afterwards. */
  lemma KlassSync(oldK: set<string>, newK: set<string>)
    ensures KlassAfter(oldK, oldK, newK) == newK
  {
  }

  /** The two loops of `updateKlass` on the element and the two tables. */
  method DiffKlass(elm: Element, oldKlass: map<string, JsValue>, klass: map<string, JsValue>)
    modifies elm`classList
    ensures elm.classList == KlassAfter(old(elm.classList), oldKlass.Keys, klass.Keys)
  {
    ghost var before := elm.classList;
    var stale := oldKlass.Keys;
    while stale != {}
      invariant stale <= oldKlass.Keys
      invariant elm.classList == before - (oldKlass.Keys - stale - klass.Keys)
      decreases stale
    {
      var kl :| kl in stale;
      if kl !in klass {
        elm.RemoveClass(kl);
      }
      stale := stale - {kl};
    }
    var todo := klass.Keys;
    while todo != {}
      invariant todo <= klass.Keys
      invariant elm.classList == (before - (oldKlass.Keys - klass.Keys)) + (klass.Keys - todo - oldKlass.Keys)
      decreases todo
    {
      var kl :| kl in todo;
      if kl !in oldKlass {
        elm.AddClass(kl);
      }
      todo := todo - {kl};
    }
  }

  /** `updateKlass(old, cur)`: remove each name only the old table has, then add each name only the new table has. */
  method UpdateKlass(oldNode: JsValue, cur: JsValue)
    requires HasElement(cur) && HasTable(oldNode, "klass") && HasTable(cur, "klass")
    modifies ElmOf(cur)`classList
    ensures ElmOf(cur).classList == KlassAfter(old(ElmOf(cur).classList), Table(oldNode, "klass").Keys, Table(cur, "klass").Keys)
  {
    DiffKlass(ElmOf(cur), Table(oldNode, "klass"), Table(cur, "klass"));
  }

  // ----- style -----

  /**
   * The inline style after `updateStyle` as written: the value compared
   * against is read from the new table itself, so no new declaration is ever
   * assigned; names only the old table has are reset to `""`.
   */
  function StyleAfter(before: map<string, JsValue>, oldT: map<string, JsValue>, newT: map<string, JsValue>): (m: map<string, JsValue>)
    ensures m.Keys == before.Keys + (oldT.Keys - newT.Keys)
    ensures forall s :: s in oldT && s !in newT ==> m[s] == Str("")
    ensures forall s :: s in before && !(s in oldT && s !in newT) ==> m[s] == before[s]
  {
    map s | s in before.Keys + (oldT.Keys - newT.Keys)
      :: if s in oldT && s !in newT then Str("") else before[s]
  }

  /** A map that agrees with `StyleAfter` name by name is `StyleAfter`. */
  lemma StyleAfterUnique(before: map<string, JsValue>, oldT: map<string, JsValue>, newT: map<string, JsValue>, m: map<string, JsValue>)
    requires m.Keys == before.Keys + (oldT.Keys - newT.Keys)
    requires forall s :: s in oldT && s !in newT ==> m[s] == Str("")
    requires forall s :: s in before && !(s in oldT && s !in newT) ==> m[s] == before[s]
    ensures m == StyleAfter(before, oldT, newT)
  {
    var a := StyleAfter(before, oldT, newT);
    assert forall s :: s in m ==> m[s] == a[s];
  }

  /** The two loops of `updateStyle` as written on the element and the two tables. */
  method DiffStyle(elm: Element, oldStyle: map<string, JsValue>, style: map<string, JsValue>)
    modifies elm`style
    ensures elm.style == StyleAfter(old(elm.style), oldStyle, style)
  {
    ghost var before := elm.style;
    var todo := style.Keys;
    while todo != {}
      invariant todo <= style.Keys
      invariant elm.style == before
      decreases todo
    {
      var s :| s in todo;
      var c, o := style[s], style[s];
      if c != o {
        // `elm.style[s] = c` would run here; both sides read `style[s]`, so it never does
        assert false;
      }
      todo := todo - {s};
    }
    var stale := oldStyle.Keys;
    while stale != {}
      invariant stale <= oldStyle.Keys
      invariant elm.style.Keys == before.Keys + (oldStyle.Keys - stale - style.Keys)
      invariant forall s :: s in oldStyle.Keys - stale && s !in style ==> elm.style[s] == Str("")
      invariant forall s :: s in before && !(s in oldStyle.Keys - stale && s !in style) ==> elm.style[s] == before[s]
      decreases stale
    {
      var s :| s in stale;
      if s !in style {
        elm.SetStyle(s, Str(""));
      }
      stale := stale - {s};
    }
    StyleAfterUnique(before, oldStyle, style, elm.style);
  }

  /** `updateStyle(old, cur)` as written: `o` is read from `style`, so the first loop never assigns. */
  method UpdateStyle(oldNode: JsValue, cur: JsValue)
    requires HasElement(cur) && HasTable(oldNode, "style") && HasTable(cur, "style")
    modifies ElmOf(cur)`style
    ensures ElmOf(cur).style == StyleAfter(old(ElmOf(cur).style), Table(oldNode, "style"), Table(cur, "style"))
  {
    DiffStyle(ElmOf(cur), Table(oldNode, "style"), Table(cur, "style"));
  }


  /** A declaration present only in the new style is never applied by `updateStyle` as written. */
  lemma StyleNotApplied()
    ensures var after := StyleAfter(map[], map[], map["color" := Str("red")]);
            "color" !in after
  {
  }

  /** The style after the intended `updateStyle`, with `o = oldStyle[s]`: changed names assigned, old-only names reset. */
  function StyleAfterIntended(before: map<string, JsValue>, oldT: map<string, JsValue>, newT: map<string, JsValue>): (m: map<string, JsValue>)
    ensures forall s :: Changed(oldT, newT, s) ==> s in m && m[s] == newT[s]
    ensures forall s :: s in oldT && s !in newT ==> s in m && m[s] == Str("")
    ensures forall s :: !Changed(oldT, newT, s) && !(s in oldT && s !in newT) ==>
              (s in m <==> s in before) && (s in before ==> m[s] == before[s])
  {
    map s | s in before.Keys + newT.Keys + oldT.Keys && (s in before || Changed(oldT, newT, s) || (s in oldT && s !in newT))
      :: if Changed(oldT, newT, s) then newT[s] else if s in oldT && s !in newT then Str("") else before[s]
  }

  /**
   * With the intended comparison, a style agreeing with the old table agrees
   * with the new one afterwards, and the old-only names are reset.
   */
  lemma StyleSyncIntended(before: map<string, JsValue>, oldT: map<string, JsValue>, newT: map<string, JsValue>)
    requires forall s :: s in oldT.Keys + newT.Keys ==> Lookup(before, s) == Lookup(oldT, s)
    ensures forall s :: s in newT ==> Lookup(StyleAfterIntended(before, oldT, newT), s) == newT[s]
    ensures forall s :: s in oldT && s !in newT ==> Lookup(StyleAfterIntended(before, oldT, newT), s) == Str("")
  {
    var after := StyleAfterIntended(before, oldT, newT);
    forall s | s in newT
      ensures Lookup(after, s) == newT[s]
    {
      assert s in oldT.Keys + newT.Keys;
    }
  }

  /** A map that agrees with `StyleAfterIntended` name by name is `StyleAfterIntended`. */
  lemma StyleAfterIntendedUnique(before: map<string, JsValue>, oldT: map<string, JsValue>, newT: map<string, JsValue>, m: map<string, JsValue>)
    requires forall s :: Changed(oldT, newT, s) ==> s in m && m[s] == newT[s]
    requires forall s :: s in oldT && s !in newT ==> s in m && m[s] == Str("")
    requires forall s :: !Changed(oldT, newT, s) && !(s in oldT && s !in newT) ==>
               (s in m <==> s in before) && (s in before ==> m[s] == before[s])
    ensures m == StyleAfterIntended(before, oldT, newT)
  {
    var a := StyleAfterIntended(before, oldT, newT);
    assert forall s :: s in m <==> s in a;
    assert forall s :: s in m ==> m[s] == a[s];
  }

  /** The two loops of the intended `updateStyle` on the element and the two tables. */
  method DiffStyleIntended(elm: Element, oldStyle: map<string, JsValue>, style: map<string, JsValue>)
    modifies elm`style
    ensures elm.style == StyleAfterIntended(old(elm.style), oldStyle, style)
  {
    ghost var before := elm.style;
    var todo := style.Keys;
    while todo != {}
      invariant todo <= style.Keys
      invariant forall k :: k in style.Keys - todo && Changed(oldStyle, style, k) ==> k in elm.style && elm.style[k] == style[k]
      invariant forall k :: !(k in style.Keys - todo && Changed(oldStyle, style, k)) ==>
                  (k in elm.style <==> k in before) && (k in before ==> elm.style[k] == before[k])
      decreases todo
    {
      var s :| s in todo;
      var c, o := style[s], Lookup(oldStyle, s);
      if c != o {
        elm.SetStyle(s, c);
      }
      todo := todo - {s};
    }
    ghost var mid := elm.style;
    var stale := oldStyle.Keys;
    while stale != {}
      invariant stale <= oldStyle.Keys
      invariant forall k :: k in oldStyle.Keys - stale && k !in style ==> k in elm.style && elm.style[k] == Str("")
      invariant forall k :: !(k in oldStyle.Keys - stale && k !in style) ==>
                  (k in elm.style <==> k in mid) && (k in mid ==> elm.style[k] == mid[k])
      decreases stale
    {
      var s :| s in stale;
      if s !in style {
        elm.SetStyle(s, Str(""));
      }
      stale := stale - {s};
    }
    StyleAfterIntendedUnique(before, oldStyle, style, elm.style);
  }

  /** `updateStyle` with the comparison against the old table that the code evidently intends. */
  method UpdateStyleIntended(oldNode: JsValue, cur: JsValue)
    requires HasElement(cur) && HasTable(oldNode, "style") && HasTable(cur, "style")
    modifies ElmOf(cur)`style
    ensures ElmOf(cur).style == StyleAfterIntended(old(ElmOf(cur).style), Table(oldNode, "style"), Table(cur, "style"))
  {
    DiffStyleIntended(ElmOf(cur), Table(oldNode, "style"), Table(cur, "style"));
  }

  // ----- event-source hooks -----

  /** `(node.data || {}).eventSource` is falsy or an event source. */
  predicate HasSourceSlot(node: JsValue) {
    && !Nullish(node)
    && var src := GetOr(Get(node, "data"), "eventSource");
       !Truthy(src) || (src.Host? && src.ref is EventSource)
  }

  /** The node's event source, or null when `data` or its `eventSource` is falsy. */
  function SourceOf(node: JsValue): (src: EventSource?)
    requires HasSourceSlot(node)
    ensures src != null <==> Truthy(GetOr(Get(node, "data"), "eventSource"))
    ensures src != null ==> GetOr(Get(node, "data"), "eventSource") == Host(src)
  {
    var v := GetOr(Get(node, "data"), "eventSource");
    if Truthy(v) then v.ref as EventSource else null
  }

  /** The element an optional event source is bound to, as a frame. */
  function BoundElement(src: EventSource?): (s: set<Element>)
    reads src
    ensures src != null && src.elm != null <==> s != {}
    ensures src != null ==> s == Present(src.elm)
  {
    if src == null then {} else Present(src.elm)
  }

  /** `attachEvents(vnode)`: attach the node's source, if any, to the node's element. */
  method AttachEvents(vnode: JsValue)
    requires HasElement(vnode) && HasSourceSlot(vnode)
    modifies SourceOf(vnode), ElmOf(vnode)`listeners
    ensures SourceOf(vnode) == null ==> ElmOf(vnode).listeners == old(ElmOf(vnode).listeners)
    ensures SourceOf(vnode) != null ==>
              var src, e := SourceOf(vnode), ElmOf(vnode);
              && src.elm == e && src.pending == [] && src.Valid()
              && src.listeners == old(src.listeners) + old(src.pending)
              && e.listeners == AddAll(old(e.listeners), old(src.pending))
  {
    var src := SourceOf(vnode);
    if src != null {
      src.Attach(ElmOf(vnode));
    }
  }

  /** `detachEvents(vnode)`: detach the node's source, if any, from the node's element. */
  method DetachEvents(vnode: JsValue)
    requires HasElement(vnode) && HasSourceSlot(vnode)
    modifies SourceOf(vnode), ElmOf(vnode)`listeners
    ensures SourceOf(vnode) == null ==> ElmOf(vnode).listeners == old(ElmOf(vnode).listeners)
    ensures SourceOf(vnode) != null && old(SourceOf(vnode).elm) != ElmOf(vnode) ==>
              unchanged(SourceOf(vnode)) && ElmOf(vnode).listeners == old(ElmOf(vnode).listeners)
    ensures SourceOf(vnode) != null && old(SourceOf(vnode).elm) == ElmOf(vnode) ==>
              var src, e := SourceOf(vnode), ElmOf(vnode);
              && e.listeners == RemoveAll(old(e.listeners), old(src.listeners))
              && src.elm == null && src.listeners == [] && src.pending == old(src.pending) + old(src.listeners)
  {
    var src := SourceOf(vnode);
    if src != null {
      src.Detach(ElmOf(vnode));
    }
  }

  /**
   * `reattachEvents(old, cur)`: nothing when both nodes carry the same
   * source; otherwise detach the old source from the new node's element and
   * reattach the new source to it.
   */
  method ReattachEvents(oldNode: JsValue, cur: JsValue)
    requires HasElement(cur) && HasSourceSlot(oldNode) && HasSourceSlot(cur)
    modifies SourceOf(oldNode), SourceOf(cur), ElmOf(cur)`listeners, BoundElement(SourceOf(cur))`listeners
    ensures SourceOf(cur) == SourceOf(oldNode) ==>
              && ElmOf(cur).listeners == old(ElmOf(cur).listeners)
              && (SourceOf(cur) != null ==> unchanged(SourceOf(cur)))
              && forall x :: x in old(BoundElement(SourceOf(cur))) ==> x.listeners == old(x.listeners)
    ensures SourceOf(cur) != SourceOf(oldNode) && SourceOf(oldNode) != null ==>
              var src := SourceOf(oldNode);
              if old(src.elm) == ElmOf(cur) then
                src.elm == null && src.listeners == [] && src.pending == old(src.pending) + old(src.listeners)
              else
                unchanged(src)
    ensures SourceOf(cur) != SourceOf(oldNode) && SourceOf(oldNode) != null && old(SourceOf(oldNode).elm) == ElmOf(cur) ==>
              forall r :: r in old(SourceOf(oldNode).listeners) &&
                          (SourceOf(cur) == null || r !in old(SourceOf(cur).pending) + old(SourceOf(cur).listeners)) ==>
                            r !in ElmOf(cur).listeners
    ensures SourceOf(cur) != SourceOf(oldNode) && SourceOf(cur) != null ==>
              var src, e := SourceOf(cur), ElmOf(cur);
              && src.elm == e && src.pending == [] && src.Valid()
              && (old(src.elm) == null ==> src.listeners == old(src.listeners) + old(src.pending))
              && (old(src.elm) != null ==> src.listeners == old(src.pending) + old(src.listeners))
              && (forall r :: r in old(src.pending) ==> r in e.listeners)
              && (old(src.elm) != null ==> forall r :: r in old(src.listeners) ==> r in e.listeners)
              && (old(src.elm) != null && old(src.elm) != e ==>
                    forall r :: r in old(src.listeners) ==> r !in old(src.elm).listeners)
    ensures SourceOf(cur) != SourceOf(oldNode) ==>
              forall r :: r in old(ElmOf(cur).listeners) &&
                          (SourceOf(oldNode) == null || old(SourceOf(oldNode).elm) != ElmOf(cur) || r !in old(SourceOf(oldNode).listeners)) ==>
                            r in ElmOf(cur).listeners
    ensures SourceOf(cur) != SourceOf(oldNode) ==>
              forall r :: r in ElmOf(cur).listeners ==>
                            r in old(ElmOf(cur).listeners) || (SourceOf(cur) != null && r in old(SourceOf(cur).pending) + old(SourceOf(cur).listeners))
    ensures SourceOf(cur) != SourceOf(oldNode) && SourceOf(cur) != null && old(SourceOf(cur).elm) != null && old(SourceOf(cur).elm) != ElmOf(cur) ==>
              old(SourceOf(cur).elm).listeners == RemoveAll(old(SourceOf(cur).elm.listeners), old(SourceOf(cur).listeners))
  {
    var curSrc, oldSrc := SourceOf(cur), SourceOf(oldNode);
    if curSrc != oldSrc {
      var e := ElmOf(cur);
      if oldSrc != null {
        oldSrc.Detach(e);
      }
      if curSrc != null {
        curSrc.Reattach(e);
      }
    }
  }

  // ----- the hook object -----

  /** Every table the map diffs read is readable on the node. */
  predicate HasTables(node: JsValue) {
    HasTable(node, "attrs") && HasTable(node, "props") && HasTable(node, "klass") && HasTable(node, "style")
  }

  /** `create(old, cur)`: the four map diffs, then attach the new node's source. */
  method Create(oldNode: JsValue, cur: JsValue)
    requires HasElement(cur) && HasTables(oldNode) && HasTables(cur) && HasSourceSlot(cur)
    modifies ElmOf(cur)`attributes, ElmOf(cur)`properties, ElmOf(cur)`classList, ElmOf(cur)`style
    modifies ElmOf(cur)`listeners, SourceOf(cur)
    ensures var e := ElmOf(cur);
            && e.attributes == AttrsAfter(old(e.attributes), Table(oldNode, "attrs"), Table(cur, "attrs"))
            && e.properties == PropsAfter(old(e.properties), Table(oldNode, "props"), Table(cur, "props"))
            && e.classList == KlassAfter(old(e.classList), Table(oldNode, "klass").Keys, Table(cur, "klass").Keys)
            && e.style == StyleAfter(old(e.style), Table(oldNode, "style"), Table(cur, "style"))
    ensures SourceOf(cur) == null ==> ElmOf(cur).listeners == old(ElmOf(cur).listeners)
    ensures SourceOf(cur) != null ==>
              var src, e := SourceOf(cur), ElmOf(cur);
              && src.elm == e && src.pending == [] && src.Valid()
              && src.listeners == old(src.listeners) + old(src.pending)
              && e.listeners == AddAll(old(e.listeners), old(src.pending))
  {
    UpdateAttrs(oldNode, cur);
    UpdateProps(oldNode, cur);
    UpdateKlass(oldNode, cur);
    UpdateStyle(oldNode, cur);
    AttachEvents(cur);
  }

  /** `update(old, cur)`: the four map diffs; listeners are left alone. */
  method Update(oldNode: JsValue, cur: JsValue)
    requires HasElement(cur) && HasTables(oldNode) && HasTables(cur)
    modifies ElmOf(cur)`attributes, ElmOf(cur)`properties, ElmOf(cur)`classList, ElmOf(cur)`style
    ensures var e := ElmOf(cur);
            && e.attributes == AttrsAfter(old(e.attributes), Table(oldNode, "attrs"), Table(cur, "attrs"))
            && e.properties == PropsAfter(old(e.properties), Table(oldNode, "props"), Table(cur, "props"))
            && e.classList == KlassAfter(old(e.classList), Table(oldNode, "klass").Keys, Table(cur, "klass").Keys)
            && e.style == StyleAfter(old(e.style), Table(oldNode, "style"), Table(cur, "style"))
  {
    UpdateAttrs(oldNode, cur);
    UpdateProps(oldNode, cur);
    UpdateKlass(oldNode, cur);
    UpdateStyle(oldNode, cur);
  }

  /** `postpatch(old, cur)`: move listening from the old node's source to the new one's. */
  method Postpatch(oldNode: JsValue, cur: JsValue)
    requires HasElement(cur) && HasSourceSlot(oldNode) && HasSourceSlot(cur)
    modifies SourceOf(oldNode), SourceOf(cur), ElmOf(cur)`listeners, BoundElement(SourceOf(cur))`listeners
    ensures SourceOf(cur) == SourceOf(oldNode) ==>
              && ElmOf(cur).listeners == old(ElmOf(cur).listeners)
              && (SourceOf(cur) != null ==> unchanged(SourceOf(cur)))
              && forall x :: x in old(BoundElement(SourceOf(cur))) ==> x.listeners == old(x.listeners)
    ensures SourceOf(cur) != SourceOf(oldNode) && SourceOf(oldNode) != null ==>
              var src := SourceOf(oldNode);
              if old(src.elm) == ElmOf(cur) then
                src.elm == null && src.listeners == [] && src.pending == old(src.pending) + old(src.listeners)
              else
                unchanged(src)
    ensures SourceOf(cur) != SourceOf(oldNode) && SourceOf(oldNode) != null && old(SourceOf(oldNode).elm) == ElmOf(cur) ==>
              forall r :: r in old(SourceOf(oldNode).listeners) &&
                          (SourceOf(cur) == null || r !in old(SourceOf(cur).pending) + old(SourceOf(cur).listeners)) ==>
                            r !in ElmOf(cur).listeners
    ensures SourceOf(cur) != SourceOf(oldNode) && SourceOf(cur) != null ==>
              var src, e := SourceOf(cur), ElmOf(cur);
              && src.elm == e && src.pending == [] && src.Valid()
              && (old(src.elm) == null ==> src.listeners == old(src.listeners) + old(src.pending))
              && (old(src.elm) != null ==> src.listeners == old(src.pending) + old(src.listeners))
              && (forall r :: r in old(src.pending) ==> r in e.listeners)
              && (old(src.elm) != null ==> forall r :: r in old(src.listeners) ==> r in e.listeners)
              && (old(src.elm) != null && old(src.elm) != e ==>
                    forall r :: r in old(src.listeners) ==> r !in old(src.elm).listeners)
    ensures SourceOf(cur) != SourceOf(oldNode) ==>
              forall r :: r in old(ElmOf(cur).listeners) &&
                          (SourceOf(oldNode) == null || old(SourceOf(oldNode).elm) != ElmOf(cur) || r !in old(SourceOf(oldNode).listeners)) ==>
                            r in ElmOf(cur).listeners
    ensures SourceOf(cur) != SourceOf(oldNode) ==>
              forall r :: r in ElmOf(cur).listeners ==>
                            r in old(ElmOf(cur).listeners) || (SourceOf(cur) != null && r in old(SourceOf(cur).pending) + old(SourceOf(cur).listeners))
    ensures SourceOf(cur) != SourceOf(oldNode) && SourceOf(cur) != null && old(SourceOf(cur).elm) != null && old(SourceOf(cur).elm) != ElmOf(cur) ==>
              old(SourceOf(cur).elm).listeners == RemoveAll(old(SourceOf(cur).elm.listeners), old(SourceOf(cur).listeners))
  {
    ReattachEvents(oldNode, cur);
  }

  /** `destroy(vnode)`: stop listening on the node's element. */
  method Destroy(vnode: JsValue)
    requires HasElement(vnode) && HasSourceSlot(vnode)
    modifies SourceOf(vnode), ElmOf(vnode)`listeners
    ensures SourceOf(vnode) == null ==> ElmOf(vnode).listeners == old(ElmOf(vnode).listeners)
    ensures SourceOf(vnode) != null && old(SourceOf(vnode).elm) != ElmOf(vnode) ==>
              unchanged(SourceOf(vnode)) && ElmOf(vnode).listeners == old(ElmOf(vnode).listeners)
    ensures SourceOf(vnode) != null && old(SourceOf(vnode).elm) == ElmOf(vnode) ==>
              var src, e := SourceOf(vnode), ElmOf(vnode);
              && e.listeners == RemoveAll(old(e.listeners), old(src.listeners))
              && src.elm == null && src.listeners == [] && src.pending == old(src.pending) + old(src.listeners)
  {
    DetachEvents(vnode);
  }
}
