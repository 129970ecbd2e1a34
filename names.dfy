/**
 * The name tables of `src/index.js` and the tests built on them: which
 * prop keys are attributes, which are element properties, and which
 * events bubble.
 */
module Names {
  import opened JsValues

  /** The names of the attribute table `htmlAttrs`. */
  const HtmlAttrs: set<string> := {
    "accept", "accept-charset", "accesskey", "action", "align", "alt", "async", "autocomplete", "autofocus",
    "autoplay", "autosave", "bgcolor", "buffered", "challenge", "charset", "checked", "cite", "code",
    "codebase", "color", "cols", "colspan", "content", "contenteditable", "contextmenu", "controls", "coords",
    "data", "datetime", "default", "defer", "dir", "dirname", "disabled", "download", "draggable", "dropzone",
    "enctype", "for", "form", "formaction", "headers", "height", "hidden", "high", "href", "hreflang", "http-equiv",
    "icon", "id", "ismap", "itemprop", "keytype", "kind", "label", "lang", "language", "list", "loop", "low", "manifest",
    "max", "maxlength", "media", "method", "min", "multiple", "muted", "name", "novalidate", "open", "optimum", "pattern",
    "ping", "placeholder", "poster", "preload", "radiogroup", "readonly", "rel", "required", "reversed", "rows",
    "rowspan", "sandbox", "scope", "scoped", "seamless", "selected", "shape", "size", "sizes", "span", "spellcheck",
    "src", "srcdoc", "srclang", "srcset", "start", "step", "summary", "tabindex", "target", "title", "type",
    "usemap", "width", "wrap"}

  /** The boolean attributes `boolAttrs`: removed rather than set when given a falsy value. */
  const BoolAttrs: set<string> := {
    "allowfullscreen", "async", "autofocus", "autoplay", "checked", "compact", "controls", "declare", "default",
    "defaultchecked", "defaultmuted", "defaultselected", "defer", "disabled", "draggable", "enabled",
    "formnovalidate", "hidden", "indeterminate", "inert", "ismap", "itemscope", "loop", "multiple", "muted",
    "nohref", "noresize", "noshade", "novalidate", "nowrap", "open", "pauseonexit", "readonly", "required", "reversed",
    "scoped", "seamless", "selected", "sortable", "spellcheck", "translate", "truespeed", "typemustmatch", "visible"}

  /** The events that do not bubble, `noBubbleEvents`. */
  const NoBubbleEvents: set<string> := {
    "load", "unload", "scroll", "focus", "blur", "DOMNodeRemovedFromDocument", "DOMNodeInsertedIntoDocument",
    "loadstart", "progress", "error", "abort", "loadend"}

  /** The properties set directly on the element, `htmlProps`. */
  const HtmlProps: set<string> := {"value"}

  /** `sub` occurs in `s` at position `j`. */
  predicate OccursAt(s: string, sub: string, j: int) {
    0 <= j && j + |sub| <= |s| && s[j..j + |sub|] == sub
  }

  /**
   * `s.indexOf(sub, from)`: the first position at or after `from` where `sub`
   * occurs, or -1.  A position past the end counts from the end, so the empty
   * string is found there.
   */
  function IndexOfFrom(s: string, sub: string, from: nat): (r: int)
    ensures var start := if from <= |s| then from else |s|;
            && (r == -1 || (start <= r && OccursAt(s, sub, r)))
            && (r == -1 <==> forall j :: start <= j ==> !OccursAt(s, sub, j))
            && (r != -1 ==> forall j :: start <= j < r ==> !OccursAt(s, sub, j))
    decreases if from <= |s| then |s| - from else |s| + 1
  {
    if from > |s| then IndexOfFrom(s, sub, |s|)
    else if from + |sub| > |s| then -1
    else if s[from..from + |sub|] == sub then from
    else IndexOfFrom(s, sub, from + 1)
  }

  /** Past the end, only the empty string is found, at the end. */
  lemma IndexOfPastEnd(s: string, sub: string, from: nat)
    requires from > |s|
    ensures IndexOfFrom(s, sub, from) == (if sub == "" then |s| else -1)
  {
  }

  /** `attr.indexOf("data-") === 0` holds exactly for names starting with `data-`. */
  lemma IndexOfZero(s: string, sub: string)
    ensures IndexOfFrom(s, sub, 0) == 0 <==> |sub| <= |s| && s[..|sub|] == sub
  {
  }

  /** `isAttr`: in the attribute table, or `data-` followed by at least one character. */
  function IsAttr(attr: string): (r: bool)
    ensures r <==> attr in HtmlAttrs || (|attr| > 5 && attr[..5] == "data-")
  {
    IndexOfZero(attr, "data-");
    attr in HtmlAttrs || (IndexOfFrom(attr, "data-", 0) == 0 && |attr| > 5)
  }

  /** `isHtmlProp`. */
  predicate IsHtmlProp(key: string) {
    key in HtmlProps
  }

  /** `bubbles`: every event outside the no-bubble table bubbles. */
  predicate Bubbles(event: string) {
    event !in NoBubbleEvents
  }

  /** The capture flag `events` uses: the caller's, made boolean, or else capture exactly the events that do not bubble. */
  function DefaultUseCapture(useCapture: JsValue, eventName: string): (c: bool)
    ensures useCapture == Undefined ==> (c <==> eventName in NoBubbleEvents)
    ensures useCapture != Undefined ==> c == Truthy(useCapture)
  {
    if useCapture == Undefined then !Bubbles(eventName) else Truthy(useCapture)
  }
}
