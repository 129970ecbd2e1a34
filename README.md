# snabbdom driver core in Dafny

This project models the integration layer of the `snabbdom` driver for the
TSERS framework. That layer sits between an application's stream of virtual
trees and an external patch engine. It has four parts:

- **Event registry** (`src/events.js`). An `EventListener` owns a bus and hands
  out native callbacks. An `EventSource` keeps the registrations that are live
  on its bound element and those waiting for one. It moves them between the two
  as it is attached to, detached from and reattached to elements.
- **Module hooks** (`src/index.js`). `create`, `update`, `postpatch` and
  `destroy` bring an element's attributes, properties, classes, inline style
  and event bindings from an old node's data to a new node's data.
- **Tree construction** (`src/index.js`, `src/vnode.js`). The hyperscript
  constructor `h` normalises its arguments and filters and wraps its children.
  It classifies props into the `attrs`, `props`, `klass`, `style` and `key`
  fields of the data record. `VNode` stamps every node with the shared
  `VNODEID` marker and a fresh instance identity. `cloneTree` copies a tree
  without its `elm` fields.
- **Helpers** (`src/util.js`): `zipObj`, `keys` and the type tests that `h`
  uses.

Layout:

| file | module | contents |
|---|---|---|
| `js_value.dfy` | `JsValues` | the value model |
| `util.dfy` | `Util` | the helpers |
| `vnode.dfy` | `VNodes` | `VNode`, `isVNode`, the identity allocator |
| `names.dfy` | `Names` | the name tables, `isAttr`, `isHtmlProp`, `bubbles` |
| `class_strings.dfy` | `ClassStrings` | `split`, `trim`, `toClassObj` |
| `hyperscript.dfy` | `Hyperscript` | `h` |
| `dom.dfy` | `Dom` | the element as abstract state |
| `events.dfy` | `Events` | listeners, sources, callbacks, buses |
| `patch_hooks.dfy` | `PatchHooks` | the four map diffs, the event hooks, the hook object |
| `clone_tree.dfy` | `Cloning` | `cloneTree` |

A JavaScript value is the datatype `JsValues.JsValue`:

- plain and non-plain objects are finite maps;
- `Ref` is an empty object literal compared by identity (`VNODEID` and every `_id`);
- `Host` wraps an object of the model's own classes (a DOM element, an event
  source), compared by reference.

Objects whose fields the source updates in place are Dafny classes with
`modifies` frames: `Dom.Element`, `Events.EventListener`, `Events.EventSource`
and the stream bus `Events.Bus`. A loop in the source is a `method` with a loop
and invariants, proved against a function of its inputs. Among them are the
children loop and the props `forEach` of `h`, the `toClassObj` loop, the map
diffs, the `forEach` loops of `attach` and `detach`, and `zipObj`. Each of
those functions has its own properties proved as lemmas.

Where the evident intent and the code differ, the model follows the code:

- **Style sync.** Changed style declarations are meant to be assigned to the
  element. As written, `updateStyle` never assigns one. See "## Findings".
- **Attaching a bound source.** An event source is meant to have every active
  registration live on its bound element. `attach` on an already-bound source
  keeps the old element's registrations as active without removing them. So
  `EventSource.Attach` promises `Live()` only for a source that was unbound.

## Model

| member | source | states |
|---|---|---|
| JsValues.TypeOf | src/util.js:10-14 | `typeof` is `"string"` exactly for strings, `"number"` exactly for numbers, `"undefined"` exactly for `undefined` |
| JsValues.Get | src/index.js:99-102 | a property read gives the object's own value for a present key and `undefined` for a missing one |
| JsValues.GetOr | src/index.js:171-172 | `(x \|\| {}).k`: `undefined` for a falsy `x`, otherwise the read of `k` |
| JsValues.IntToString | src/index.js:91 | `${n}` for an integer starts with `-` exactly when it is negative; the rest is decimal digits whose value is the magnitude, with no leading zero |
| JsValues.NatToString | src/index.js:91 | a non-empty string of decimal digits whose value is the number, with no leading zero |
| JsValues.NatToStringInjective | src/util.js:16 | different numbers have different decimal notations |
| JsValues.OwnKeys | src/util.js:16 | `Object.keys` of an object is its key set, and of a number, boolean or identity object is empty |
| JsValues.IndexNamesSnoc | src/util.js:16 | the index names of an array of length n + 1 are those of length n plus the new name of n, which is not among them |
| JsValues.IndexNamesCount | src/util.js:16 | an array of length n has exactly n distinct index names |
| Util.ZipObj | src/util.js:3-7 | the keys are exactly the pairs' first components; each key maps to the value of its last pair |
| Util.IsArray | src/util.js:8 | truthy exactly for arrays; a falsy argument is returned unchanged |
| Util.IsStr | src/util.js:10 | truthy exactly for non-empty strings; a falsy argument is returned unchanged |
| Util.IsStrTypeOf | src/util.js:10 | for a truthy argument, `isStr` agrees with `typeof x === "string"` |
| Util.IsPlainObj | src/util.js:12 | truthy exactly for objects whose constructor is `Object`; a falsy argument is returned unchanged |
| Util.IsPrimitiveTypeOf | src/util.js:14 | `isPrimitive` holds exactly when `typeof` is `"string"` or `"number"`; booleans and `undefined` are excluded |
| Util.IsPrimitive | src/util.js:14 | strings and numbers; `IsPrimitiveTypeOf` ties it to `typeof` |
| Util.Keys | src/util.js:16 | empty for a falsy argument, the own keys of an object otherwise |
| VNodes.IsVNode | src/vnode.js:5 | a truthy value whose `ID` is the shared marker; `VNode`'s ensures show every constructed node passes, and `NotVNode` that no other value does |
| VNodes.KeyOf | src/vnode.js:8 | the key is `undefined` when `data` is undefined, and `data.key` otherwise |
| VNodes.VNode | src/vnode.js:7-16 | the result passes `isVNode`; it has exactly the eight node fields; `sel`, `data`, `children`, `text` and `elm` are stored unchanged; `key` comes from `data`; `_id` is the given instance |
| VNodes.NotVNode | src/vnode.js:3-5 | `isVNode` is false for a falsy value and for any value whose `ID` is not the shared marker |
| VNodes.DistinctInstances | src/vnode.js:3-16 | two constructions with different instances have different `_id` values but the same `ID`, so they are different nodes |
| VNodes.IdentAllocator.Fresh | src/vnode.js:12 | each `{}` gets an identity that was never handed out before and is not the marker's |
| VNodes.NewVNode | src/vnode.js:7-16 | the node built with the next fresh instance, which the allocator then retires |
| Names.IndexOfFrom | src/index.js:48 | `indexOf` from a position, clamped to the length, gives -1 exactly when the substring does not occur at or after it, and otherwise the first occurrence at or after it |
| Names.IndexOfPastEnd | src/index.js:48 | from a position past the end, only the empty string is found, at the end |
| Names.IndexOfZero | src/index.js:48 | `indexOf(sub) === 0` exactly when the string starts with `sub` |
| Names.IsAttr | src/index.js:47-49 | a key is an attribute exactly when it is in the attribute table, or starts with `data-` and is longer than five characters |
| Names.IsHtmlProp | src/index.js:45 | membership in the property table, which holds only `value`; `HtmlPropsOf` and `HDataProps` state what it selects |
| Names.Bubbles | src/index.js:51-53 | an event bubbles exactly when it is outside the no-bubble table; `DefaultUseCapture` states its use |
| Names.DefaultUseCapture | src/index.js:240 | with `useCapture` undefined, capture exactly for events that do not bubble; otherwise the truthiness of the argument |
| ClassStrings.Split | src/index.js:57 | `split(" ")` gives at least one part, and no part contains the separator |
| ClassStrings.JoinSplit | src/index.js:57 | joining the parts of a split with the separator gives back the string |
| ClassStrings.TrimStart | src/index.js:58 | the result is empty or starts with a non-whitespace character, is no longer than the input and only uses its characters |
| ClassStrings.TrimStartRemovesSpace | src/index.js:58 | the result is a suffix of the input, and everything removed before it is whitespace |
| ClassStrings.TrimEnd | src/index.js:58 | the result is a prefix of the input that is empty or ends with a non-whitespace character |
| ClassStrings.TrimEndRemovesSpace | src/index.js:58 | everything removed after the result is whitespace |
| ClassStrings.Trim | src/index.js:58 | `trim()` neither starts nor ends with whitespace and only uses the input's characters |
| ClassStrings.TrimRemovesSpace | src/index.js:58 | `trim()` is a contiguous slice of the input with only whitespace before and after it |
| ClassStrings.TrimIdempotent | src/index.js:58 | trimming twice is trimming once |
| ClassStrings.ClassTokensComplete | src/index.js:57-59 | every part whose trim is non-empty contributes its trim as a class name |
| ClassStrings.ClassTokensClean | src/index.js:57-59 | every class name is non-empty, trimmed, and free of the separator |
| ClassStrings.ClassTokensSound | src/index.js:57-59 | every class name is the trim of some part |
| ClassStrings.ClassTokensExact | src/index.js:57-59 | the class names are exactly the non-empty trims of the parts |
| ClassStrings.ClassNamesAreTokens | src/index.js:55-61 | every class name of a string is non-empty, trimmed, free of spaces and the trim of some part of its split on spaces; every part with a non-empty trim gives a class name |
| ClassStrings.ClassNamesExact | src/index.js:55-61 | the class names of a string are exactly the non-empty trims of the parts of its split on spaces |
| ClassStrings.ToClassObj | src/index.js:55-61 | the loop collects exactly the class names of `klass \|\| ""` |
| ClassStrings.ClassObj | src/index.js:55-61 | the returned object has exactly the class names as keys |
| Hyperscript.ParseChildren | src/index.js:84-95 | the children loop only moves the identity counter forward, and can fail only on an invalid child |
| Hyperscript.ParseChild | src/index.js:86-94 | one child step fails exactly with that child, which is then not skipped, a node, a string or a number |
| Hyperscript.ParseChildrenFails | src/index.js:84-95 | the loop throws exactly when some child is invalid, and then for the first invalid child |
| Hyperscript.ParseChildrenKids | src/index.js:84-96 | on success, one node per non-skipped child, in order: the child itself when it is a node, otherwise a text node carrying its string |
| Hyperscript.ChildList | src/index.js:81-83 | an array argument is the child list, and any other value becomes a one-element list |
| Hyperscript.Normalise | src/index.js:64-74 | one argument gives `{}` and `[]`; with two, a plain object is props with no children, and anything else is the children with props `{}`; otherwise the arguments are kept |
| Hyperscript.ClassValue | src/index.js:102 | `props.class \|\| props.className`: one of the two, truthy exactly when either is |
| Hyperscript.StyleOf | src/index.js:101 | `props.style \|\| {}` is always truthy, and is `props.style` when that is truthy |
| Hyperscript.KlassOf | src/index.js:102 | the class names of `class \|\| className`; `HDataKlass` and `ClassNamesExact` state what they are |
| Hyperscript.Pick | src/index.js:103-106 | the picked map holds exactly the prop keys the filter keeps, with their values |
| Hyperscript.AttrsOf | src/index.js:103-104 | `attrs` holds exactly the prop keys that are attributes, with their values |
| Hyperscript.HtmlPropsOf | src/index.js:105 | `props` holds exactly the prop keys in the property table, which is only `value`, with their values |
| Hyperscript.DataOf | src/index.js:99-110 | the data record carries the key, the style, `attrs`, `props` and the class object |
| Hyperscript.HDataKeyStyle | src/index.js:99-101 | `data.key` is `props.key`, and `data.style` is `props.style` when truthy and `{}` otherwise |
| Hyperscript.HDataAttrs | src/index.js:100-104 | `data.attrs` is a plain object whose keys are exactly the attribute prop keys, with the values of the props |
| Hyperscript.HDataProps | src/index.js:100-105 | `data.props` is a plain object whose only possible key is `value`, holding `props.value` |
| Hyperscript.HDataKlass | src/index.js:102 | `data.klass` has exactly the class names as keys, each mapped to `true` |
| Hyperscript.Build | src/index.js:76-112 | a tag that is not a non-empty string throws; a result is a node whose `sel` is the tag, and it takes a fresh identity |
| Hyperscript.HSpec | src/index.js:63-113 | `h` after normalisation: a non-string tag throws; a success is a node with the tag as `sel` and a fresh identity |
| Hyperscript.BuildContents | src/index.js:80-112 | a built node carries the data record and `props.key`, and its children are the kept children in order, with text wrapped |
| Hyperscript.BuildFails | src/index.js:76-106 | why `h` throws, in order: the tag; then the first invalid child; then null or undefined props; then a truthy class value that is not a string |
| Hyperscript.BuildSucceeds | src/index.js:98-112 | with a good tag, children and props, `h` returns exactly the node of the tag, data record and parsed children |
| Hyperscript.BuildAgrees | src/index.js:108-112 | the node built in the last step is the one `Build` promises, with the counter past it |
| Hyperscript.NewTextNode | src/index.js:91 | the text node for a string, with the next fresh instance |
| Hyperscript.ParseOne | src/index.js:86-94 | one iteration of the children loop does what `ParseChild` says, on the counter |
| Hyperscript.ParseChildList | src/index.js:84-96 | the children loop fails exactly when `ParseChildren` does, with the same error, and otherwise returns its children |
| Hyperscript.PickAmongAdd | src/index.js:103-106 | one more visited key is copied exactly when the test accepts it |
| Hyperscript.ClassifyProps | src/index.js:100-106 | the props `forEach` fills `attrs` and `htmlProps` with exactly `AttrsOf` and `HtmlPropsOf` |
| Hyperscript.FinishNode | src/index.js:98-112 | after the children, reading the props and building the node agrees with `Build`, errors included |
| Hyperscript.NewElementNode | src/index.js:108-112 | the element node of the tag, data record and children, with the next fresh instance |
| Hyperscript.BuildNode | src/index.js:76-112 | `h` after normalisation agrees with `Build`: same error, or same node and counter |
| Hyperscript.H | src/index.js:63-113 | `h` agrees with `HSpec` on every argument list |
| Dom.WithListener | src/events.js:38 | adding an event listener appends the entry unless an equal entry is present, in which case the list is unchanged |
| Dom.WithoutListener | src/events.js:59 | removing an event listener drops exactly the equal entry and keeps every other entry |
| Dom.AddAll | src/events.js:48 | after adding several entries, the list holds exactly the old entries and the added ones |
| Dom.RemoveAll | src/events.js:58-60 | after removing several entries, the list holds exactly the old entries not among them |
| Dom.AddAllFresh | src/events.js:46-50 | pairwise distinct entries that are new to the list are appended in order |
| Dom.RemoveAllAbsent | src/events.js:58-60 | removing entries none of which is present changes nothing |
| Dom.Element.AddEventListener | src/events.js:38 | `addEventListener` applies `WithListener` to the listener list |
| Dom.Element.RemoveEventListener | src/events.js:59 | `removeEventListener` applies `WithoutListener` to the listener list |
| Dom.Element.SetAttribute | src/index.js:121 | `setAttribute` updates one attribute |
| Dom.Element.RemoveAttribute | src/index.js:121-125 | `removeAttribute` drops one attribute |
| Dom.Element.SetProperty | src/index.js:134 | `elm[key] = c` updates one property |
| Dom.Element.DeleteProperty | src/index.js:137 | `delete elm[key]` drops one property |
| Dom.Element.AddClass | src/index.js:148 | `classList.add` adds one name |
| Dom.Element.RemoveClass | src/index.js:145 | `classList.remove` removes one name |
| Dom.Element.SetStyle | src/index.js:157-160 | `elm.style[s] = v` updates one declaration |
| Events.Matches | src/events.js:5-7 | a missing or empty selector matches every event; otherwise the event needs a target that the selector matcher accepts |
| Events.Callback.Delivers | src/events.js:18 | a closure delivers exactly when it belongs to a listener that still has a bus and the event matches; `Call`'s ensures state the effect |
| Events.Callback.Call | src/events.js:18 | a closure pushes the event exactly when its listener is alive and the event matches; otherwise the bus is unchanged; an inert closure does nothing |
| Events.EventListener.constructor | src/events.js:10-15 | a new listener has a new, empty, open bus, and keeps its selector, type and capture flag |
| Events.EventListener.Fn | src/events.js:17-19 | each call gives a new closure, bound to the listener while it has a bus and inert after dispose |
| Events.EventListener.Obs | src/events.js:20-22 | the observable is the listener's bus |
| Events.EventListener.Dispose | src/events.js:23-26 | completes the bus if there is one, keeping what it delivered, and clears it; a second dispose changes nothing |
| Events.EventSource.constructor | src/events.js:30-34 | a new source is unbound with nothing live or queued |
| Events.EventSource.Register | src/events.js:37-40 | `_listen` adds the entry to the bound element and appends it to the live list |
| Events.EventSource.Listen | src/events.js:41-45 | unbound, the new closure's entry is queued and nothing is registered; bound, it is registered and made live; the listener's observable is returned, or nothing when the listener is disposed, whose inert closure is registered or queued all the same; the invariants are kept |
| Events.EventSource.Attach | src/events.js:46-50 | every queued entry is registered on the element in order and made live, the queue is emptied and the element bound; with fresh distinct entries they are appended in order; an unbound source in its invariant ends with every live entry on its element |
| Events.EventSource.Detach | src/events.js:55-65 | a falsy or different element changes nothing; the bound element loses every live entry, which is queued again in order, and the source is unbound |
| Events.EventSource.RemoveLive | src/events.js:58-60 | the removal `forEach` removes every live entry from the bound element, in order |
| Events.EventSource.RequeueLive | src/events.js:62 | the push `forEach` appends every live entry to the queue, in order |
| Events.EventSource.Reattach | src/events.js:51-54 | after `reattach(e)` every previously live or queued entry is registered on `e`, none of the old live ones remains on a different old element, and the source is bound to `e` with nothing queued |
| Events.EventSource.Dispose | src/events.js:66-71 | the bound element, if any, loses every live entry, and the source ends unbound with nothing live or queued |
| PatchHooks.ElmOf | src/index.js:116 | `const {elm} = cur` is the node's element |
| PatchHooks.Table | src/index.js:117 | `data.<table> \|\| {}` is empty for a falsy table and the table's entries otherwise |
| PatchHooks.Lookup | src/index.js:119 | `m[k]` is the entry for a present key and `undefined` for a missing one |
| PatchHooks.RenderedAttrs | src/index.js:121 | an element shows every attribute of a table except falsy boolean attributes |
| PatchHooks.AttrsAfter | src/index.js:115-127 | a changed key is removed when its value is falsy and it is a boolean attribute, and set otherwise; an old-only key is removed; every other attribute is kept |
| PatchHooks.AttrsSync | src/index.js:115-127 | an element showing the old table shows the new one afterwards, except a new `undefined` the old table lacks |
| PatchHooks.DiffAttrs | src/index.js:118-126 | the two loops of `updateAttrs` produce exactly `AttrsAfter` |
| PatchHooks.UpdateAttrs | src/index.js:115-127 | the element's attributes become `AttrsAfter` of the two nodes' tables |
| PatchHooks.PropsAfter | src/index.js:129-139 | a changed key is assigned, an old-only key is deleted, every other property is kept |
| PatchHooks.PropsSync | src/index.js:129-139 | an element reading like the old table reads like the new one afterwards; old-only keys are gone and other properties are untouched |
| PatchHooks.DiffProps | src/index.js:132-138 | the two loops of `updateProps` produce exactly `PropsAfter` |
| PatchHooks.UpdateProps | src/index.js:129-139 | the element's properties become `PropsAfter` of the two nodes' tables |
| PatchHooks.KlassAfter | src/index.js:141-150 | removes exactly old∖new, adds exactly new∖old, leaves every other name as it was |
| PatchHooks.KlassSync | src/index.js:141-150 | a class list equal to the old names equals the new names afterwards |
| PatchHooks.DiffKlass | src/index.js:144-149 | the two loops of `updateKlass` produce exactly `KlassAfter` |
| PatchHooks.UpdateKlass | src/index.js:141-150 | the element's class list becomes `KlassAfter` of the two nodes' class tables |
| PatchHooks.StyleAfter | src/index.js:152-162 | as written: old-only names are reset to `""`, and every other declaration, new ones included, is left as it was |
| PatchHooks.DiffStyle | src/index.js:155-161 | the two loops of `updateStyle` as written produce exactly `StyleAfter` |
| PatchHooks.UpdateStyle | src/index.js:152-162 | the element's style becomes `StyleAfter` of the two nodes' style tables |
| PatchHooks.StyleNotApplied | src/index.js:155-157 | a declaration only the new style has (`color: "red"` over an empty style) is not applied |
| PatchHooks.StyleAfterIntended | src/index.js:152-162 | with `o = oldStyle[s]`: changed names are assigned, old-only names are reset to `""`, the rest is kept |
| PatchHooks.StyleSyncIntended | src/index.js:152-162 | with the intended comparison, a style agreeing with the old table agrees with the new one afterwards, and old-only names read `""` |
| PatchHooks.DiffStyleIntended | src/index.js:155-161 | the two loops with the intended comparison produce exactly `StyleAfterIntended` |
| PatchHooks.UpdateStyleIntended | src/index.js:152-162 | the element's style becomes `StyleAfterIntended` of the two tables |
| PatchHooks.SourceOf | src/index.js:171-172 | `(node.data \|\| {}).eventSource` is a source exactly when it is truthy |
| PatchHooks.BoundElement | src/index.js:174-175 | the element a source is bound to, if any |
| PatchHooks.AttachEvents | src/index.js:164-168 | with a source, it is bound to the node's element and its queue registered there; without one, no listener changes |
| PatchHooks.DetachEvents | src/index.js:178-182 | with a source bound to the node's element, that element loses the live entries and the source queues them and unbinds; otherwise nothing changes |
| PatchHooks.ReattachEvents | src/index.js:170-177 | the same source on both nodes changes nothing; otherwise the old source is detached from the new node's element, its live entries leave that element unless the new source holds them too, and the new source is reattached to it; every other entry on that element stays, no entry appears there except the new source's, and the new source's previous element loses exactly that source's live entries |
| PatchHooks.Create | src/index.js:189-195 | the four map diffs, then the new node's source attached to its element |
| PatchHooks.Update | src/index.js:196-201 | the four map diffs and nothing else |
| PatchHooks.Postpatch | src/index.js:202-204 | the event hand-over of `reattachEvents`, with all of its cases: same source, old source detached and its entries removed, new source attached, every foreign entry kept and no other entry added |
| PatchHooks.Destroy | src/index.js:205-207 | without a source, or with one bound elsewhere, nothing changes; a source bound to the node's element removes its live entries from it, queues them after the old queue and unbinds |
| Cloning.ChildrenOf | src/index.js:215 | `vnode.children` |
| Cloning.CloneTree | src/index.js:211-221 | the clone is a plain object with exactly the seven copied fields and no `elm`; `sel`, `data`, `text`, `key`, `ID` and `_id` are the same; falsy children are copied as they are, otherwise each child is the clone of the corresponding one; a node stays a node |
| Cloning.CloneIsCloneable | src/index.js:215 | a clone can be cloned again |
| Cloning.CloneIdempotent | src/index.js:211-221 | cloning a clone gives the same tree |

## Left out

- Stream plumbing: `prepare`, `events`, `using`, and the executor (`src/index.js:223-282`) are built from stream-library calls and subscriptions. Of these, only the `useCapture` default is modelled, as `Names.DefaultUseCapture`.
- Stream internals: the bus of a listener is a delivered-events sequence plus a completed flag. Its observable side, subscribers and scheduling are not modelled.
- The patch engine (`./dom`, `dom.init`) is not part of this model. The hooks are methods the environment calls with two nodes.
- CSS selector matching (`selmatch`) is a foreign library. It is a parameter `(NodeId, string) -> bool`, and an event's target is an optional node id.
- `console.warn` is a logging side effect and is not modelled.
- Real DOM behaviour is not modelled. Attributes, properties and inline style are maps, and the class list is a set. String conversion of attribute and style values, and the CSS parsing of the style object, are left out.
- Names inherited from `Object.prototype` are not modelled. For example, `constructor` would make `attrByName[k]`, `propsByName[k]` and `noBubblesByName[k]` truthy, and `key in obj` true. The name tables are exact sets.
- Key enumeration order of `for...in` and `Object.keys` is not kept. Objects are maps, and the loops over them visit keys in an unspecified order. Each loop's result does not depend on the order.
- Numbers are integers: no `NaN`, fractions or `-0`. Strict inequality `!==` on objects is structural, except for values whose identity the model carries (`Ref`, `Host`).
- Elements and event sources are only reached through `elm` and `data.eventSource`. These are `Host` references.
- Inputs on which the source throws are excluded by requires clauses, and the model does not follow the throw:
  - the hooks: a truthy `eventSource` that is not a source throws at `.attach`, `.reattach` or `.detach` (`src/index.js:166`, `src/index.js:175`, `src/index.js:180`), and `HasSourceSlot` demands a falsy slot or a source; a nullish `data` throws at `old.data.attrs` and its siblings (`src/index.js:117`, `src/index.js:131`, `src/index.js:143`, `src/index.js:154`), and `HasTable` demands an object `data` whose table is falsy or an object. A table that is some other truthy value is excluded too, although the source would read it without throwing;
  - `Cloning.CloneTree` (`Cloneable`): a nullish node throws at `vnode.sel`, and truthy children that are not an array throw at `.map` (`src/index.js:212`, `src/index.js:215`);
  - `Events.EventSource.Attach` and `Events.EventSource.Reattach`: with no element to attach to and entries queued, `this.elm.addEventListener` throws (`src/events.js:38`, `src/events.js:48`);
  - `Events.EventListener.Obs`: after `dispose`, `this.b.obs()` throws (`src/events.js:21`); `Events.EventSource.Listen` models that throw as `o == null`;
  - `VNodes.KeyOf` and `VNodes.VNode`: `data.key` throws for `null` data (`src/vnode.js:8`);
  - `ClassStrings.ToClassObj`: a truthy value that is not a string has no `split` (`src/index.js:57`); `h` itself reports it as an error, see below.
- The name tables (`src/index.js:6-43`) are the set literals `Names.HtmlAttrs`, `Names.BoolAttrs`, `Names.NoBubbleEvents` and `Names.HtmlProps`, holding the space-separated names of the source's strings. That these sets are what `zipObj(s.split(" ").map(...))` builds from the strings is not proved.
- PatchHooks.AttrsSync, PatchHooks.PropsSync, PatchHooks.StyleSyncIntended: a source key whose value is `undefined` is indistinguishable from a missing one in `o !== c`. These lemmas state the sync property except for such keys, and AttrsSync states that such a key stays absent.
- Hyperscript.HSpec, Hyperscript.BuildFails: a truthy non-string `class` value (or `className` when `class` is falsy) is reported as the error `ClassNotString`. The source throws a `TypeError` from `split` there.
- Events.EventListener.Fn: a closure is a `Callback` object whose `owner` is its listener, or null for the inert `() => undefined`. A disposed listener's earlier closures stop delivering because `Delivers` reads the listener's current bus.
- JsValues.IntToString: numbers are unbounded integers written out in full. JavaScript writes magnitudes of `1e21` and above in exponent form (`"1e+21"`), and doubles beyond 2^53 are inexact; neither is modelled.
- ClassStrings.TrimStart, ClassStrings.TrimEnd, ClassStrings.Trim: their own contracts state the shape of the result; that the result is the input's slice with only whitespace removed is stated by TrimStartRemovesSpace, TrimEndRemovesSpace and TrimRemovesSpace.
- VNodes.IdentAllocator.Fresh: object allocation for `{}` is a counter in a class. The marker `VNODEID` takes the first identity.

## Findings

| source | as written | input that shows it | evidently intended | confidence | as-written member | corrected member |
|---|---|---|---|---|---|---|
| src/index.js:156 | `var c = style[s], o = style[s]`: both values come from the new style, so `c !== o` is never true and line 157 never assigns | old node style `{}`, new node style `{color: "red"}`: the element's style stays without `color` | `o = oldStyle[s]`, so changed and new declarations are applied | high; not executed | PatchHooks.StyleNotApplied | PatchHooks.StyleSyncIntended |

The hook object (`PatchHooks.Create`, `PatchHooks.Update`) keeps the call of
`updateStyle` as written. `PatchHooks.UpdateStyleIntended` is the corrected
operation.
