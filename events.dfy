/**
 * Event listeners and event sources (`src/events.js`).
 *
 * An `EventListener` owns a bus (the write side of a stream) and hands out
 * native callbacks; each call of `Fn` allocates a new `Callback` object, so
 * two callbacks are never the same listener-list entry.  An `EventSource`
 * keeps the registrations that are live on its bound element and those
 * waiting for an element, and moves them between when it is attached to or
 * detached from an element.
 */
module Events {
  import opened JsValues
  import opened Dom

  /** The identity of the DOM node an event was dispatched at. */
  type NodeId = nat

  /** A native event: where it was dispatched (if anywhere) and a stamp telling events apart. */
  datatype Event = Event(target: Option<NodeId>, stamp: nat)

  /**
   * `matches(ev, sel)`: no selector (or the empty one) matches every event;
   * otherwise the event needs a target that `selmatch` (CSS selector
   * matching, a foreign library) accepts.
   */
  function Matches(ev: Event, sel: Option<string>, selmatch: (NodeId, string) -> bool): (m: bool)
    ensures sel.None? || sel.value == "" ==> m
    ensures sel.Some? && sel.value != "" ==> (m <==> ev.target.Some? && selmatch(ev.target.value, sel.value))
  {
    sel.None? || sel.value == "" || (ev.target.Some? && selmatch(ev.target.value, sel.value))
  }

  /** The stream library's bus: what has been pushed into it and whether it was completed. */
  class Bus {
    var delivered: seq<Event>
    var completed: bool

    constructor ()
      ensures delivered == [] && !completed
    {
      delivered, completed := [], false;
    }

    method Next(ev: Event)
      modifies this
      ensures delivered == old(delivered) + [ev] && completed == old(completed)
    {
      delivered := delivered + [ev];
    }

    method Complete()
      modifies this
      ensures completed && delivered == old(delivered)
    {
      completed := true;
    }
  }

  /** A native callback closure; `owner` is null for the inert `() => undefined`. */
  class Callback {
    const owner: EventListener?

    constructor (owner: EventListener?)
      ensures this.owner == owner
    {
      this.owner := owner;
    }

    /** Whether calling this closure with `ev` pushes `ev`: the listener is alive and the event matches. */
    predicate Delivers(ev: Event, selmatch: (NodeId, string) -> bool)
      reads this, owner
    {
      owner != null && owner.b != null && Matches(ev, owner.sel, selmatch)
    }

    /** Invoke the closure: `this.b && matches(event, this.sel) && this.b.next(event)`. */
    method Call(ev: Event, selmatch: (NodeId, string) -> bool)
      modifies if owner != null && owner.b != null then {owner.b} else {}
      ensures old(Delivers(ev, selmatch)) ==>
                owner.b.delivered == old(owner.b.delivered) + [ev] && owner.b.completed == old(owner.b.completed)
      ensures !old(Delivers(ev, selmatch)) && owner != null && owner.b != null ==> unchanged(owner.b)
      ensures owner != null ==> owner.b == old(owner.b)
    {
      if owner != null && owner.b != null && Matches(ev, owner.sel, selmatch) {
        owner.b.Next(ev);
      }
    }
  }

  class EventListener {
    /** The bus; null once the listener is disposed. */
    var b: Bus?
    const sel: Option<string>
    const eventType: string
    const useCapture: bool

    constructor (selector: Option<string>, eventType: string, useCapture: bool)
      ensures b != null && fresh(b) && b.delivered == [] && !b.completed
      ensures sel == selector && this.eventType == eventType && this.useCapture == useCapture
    {
      b := new Bus();
      sel := selector;
      this.eventType := eventType;
      this.useCapture := useCapture;
    }

    /** `fn()`: a new closure bound to this listener, or an inert one once disposed. */
    method Fn() returns (c: Callback)
      ensures fresh(c)
      ensures b != null ==> c.owner == this
      ensures b == null ==> c.owner == null
    {
      if b != null {
        c := new Callback(this);
      } else {
        c := new Callback(null);
      }
    }

    /** `obs()`: the read side of the bus.  It throws once the listener is disposed. */
    method Obs() returns (o: Bus)
      requires b != null
      ensures o == b
    {
      o := b;
    }

    /** `dispose()`: complete the bus if there still is one, then drop it. */
    method Dispose()
      modifies this, b
      ensures b == null
      ensures old(b) != null ==> old(b).completed && old(b).delivered == old(b.delivered)
      ensures old(b) == null ==> unchanged(this)
    {
      if b != null {
        b.Complete();
      }
      b := null;
    }
  }

  class EventSource {
    /** The bound element, or null. */
    var elm: Element?
    /** Registrations live on `elm`. */
    var listeners: seq<Registration>
    /** Registrations waiting for an element. */
    var pending: seq<Registration>

    /** Nothing is live without an element, and nothing waits while there is one. */
    ghost predicate Valid()
      reads this
    {
      && (elm == null ==> listeners == [])
      && (pending != [] ==> elm == null)
    }

    /** Every live registration is in the bound element's listener list. */
    ghost predicate Live()
      reads this, elm
    {
      elm != null ==> forall r :: r in listeners ==> r in elm.listeners
    }

    constructor ()
      ensures Valid() && Live()
      ensures elm == null && listeners == [] && pending == []
    {
      listeners, pending, elm := [], [], null;
    }

    /** `_listen`: add the registration to the bound element and record it as live. */
    method Register(r: Registration)
      requires elm != null
      modifies this`listeners, elm`listeners
      ensures elm == old(elm) && pending == old(pending)
      ensures elm.listeners == WithListener(old(elm.listeners), r)
      ensures listeners == old(listeners) + [r]
    {
      elm.AddEventListener(r.eventType, r.callback, r.capture);
      listeners := listeners + [r];
    }

    /**
     * `listen(listener)`: take a new closure from the listener; register it
     * at once when bound, otherwise queue it.  Then return the listener's
     * observable: `obs()` throws for a disposed listener, after the inert
     * closure has already been registered or queued, which `o == null`
     * stands for.  `r` is the new registration.
     */
    method Listen(listener: EventListener) returns (o: Bus?, ghost r: Registration)
      modifies this, Present(elm)`listeners
      ensures o == listener.b
      ensures r.eventType == listener.eventType && r.capture == listener.useCapture
      ensures fresh(r.callback) && r.callback is Callback
      ensures listener.b != null ==> (r.callback as Callback).owner == listener
      ensures listener.b == null ==> (r.callback as Callback).owner == null
      ensures elm == old(elm)
      ensures old(elm) == null ==> pending == old(pending) + [r] && listeners == old(listeners)
      ensures old(elm) != null ==>
                && listeners == old(listeners) + [r] && pending == old(pending)
                && elm.listeners == old(elm.listeners) + [r]
      ensures old(Valid()) ==> Valid()
      ensures old(Live()) ==> Live()
    {
      var fn := listener.Fn();
      var entry := Registration(listener.eventType, fn, listener.useCapture);
      r := entry;
      if elm != null {
        Register(entry);
      } else {
        pending := pending + [entry];
      }
      if listener.b != null {
        o := listener.Obs();
      } else {
        o := null;
      }
    }

    /**
     * `attach(e)`: bind to `e` and register every queued entry on it, in
     * order.  Live entries are kept as they are, even when the source was
     * bound elsewhere.  With entries queued, a missing element throws.
     */
    method Attach(e: Element?)
      requires e != null || pending == []
      modifies this, Present(e)`listeners
      ensures elm == e && pending == []
      ensures listeners == old(listeners) + old(pending)
      ensures e != null ==> e.listeners == AddAll(old(e.listeners), old(pending))
      ensures e != null && Distinct(old(pending)) && (forall r :: r in old(pending) ==> r !in old(e.listeners)) ==>
                e.listeners == old(e.listeners) + old(pending)
      ensures e != null ==> Valid()
      ensures e != null && old(listeners) == [] ==> Live()
      ensures e != null && old(Valid()) && old(elm) == null ==> Live()
    {
      elm := e;
      var ps := pending;
      var i := 0;
      while i < |ps|
        invariant 0 <= i <= |ps|
        invariant elm == e && pending == ps
        invariant listeners == old(listeners) + ps[..i]
        invariant e != null ==> e.listeners == AddAll(old(e.listeners), ps[..i])
      {
        assert ps[..i + 1][..i] == ps[..i];
        Register(ps[i]);
        i := i + 1;
      }
      assert ps[..i] == ps;
      pending := [];
      if e != null && Distinct(ps) && (forall r :: r in ps ==> r !in old(e.listeners)) {
        AddAllFresh(old(e.listeners), ps);
      }
    }

    /**
     * `detach(x)`: only when `x` is the bound element, remove every live
     * registration from it, queue them again, and unbind.  Any other
     * argument, or none, changes nothing.
     */
    method Detach(x: Element?)
      modifies this, Present(x)`listeners
      ensures !(x != null && x == old(elm)) ==> unchanged(this)
      ensures x != null && x != old(elm) ==> unchanged(x)
      ensures x != null && x == old(elm) ==>
                && x.listeners == RemoveAll(old(x.listeners), old(listeners))
                && elm == null && listeners == []
                && pending == old(pending) + old(listeners)
      ensures x != null && x == old(elm) ==> Valid()
      ensures old(Valid()) ==> Valid()
      ensures old(Live()) ==> Live()
    {
      if x != null && x == elm {
        RemoveLive();
        elm := null;
        RequeueLive();
        listeners := [];
      }
    }

    /** The `forEach` removing every live registration from the bound element, in order. */
    method RemoveLive()
      requires elm != null
      modifies elm`listeners
      ensures elm.listeners == RemoveAll(old(elm.listeners), listeners)
    {
      var ll := listeners;
      var i := 0;
      while i < |ll|
        invariant 0 <= i <= |ll|
        invariant elm.listeners == RemoveAll(old(elm.listeners), ll[..i])
      {
        assert ll[..i + 1][..i] == ll[..i];
        elm.RemoveEventListener(ll[i].eventType, ll[i].callback, ll[i].capture);
        i := i + 1;
      }
      assert ll[..i] == ll;
    }

    /** The `forEach` pushing every live registration onto the queue, in order. */
    method RequeueLive()
      modifies this`pending
      ensures pending == old(pending) + listeners
    {
      var j := 0;
      while j < |listeners|
        invariant 0 <= j <= |listeners|
        invariant pending == old(pending) + listeners[..j]
      {
        assert listeners[..j + 1] == listeners[..j] + [listeners[j]];
        pending := pending + [listeners[j]];
        j := j + 1;
      }
      assert listeners[..j] == listeners;
    }

    /**
     * `reattach(e)`: detach from the bound element, then attach to `e`.
     * Attaching to no element throws unless nothing ends up queued.
     */
    method Reattach(e: Element?)
      requires e != null || (pending == [] && (elm == null || listeners == []))
      modifies this, Present(elm)`listeners, Present(e)`listeners
      ensures elm == e && pending == []
      ensures old(elm) != null ==> listeners == old(pending) + old(listeners)
      ensures old(elm) == null ==> listeners == old(listeners) + old(pending)
      ensures old(elm) != null && old(elm) != e ==>
                old(elm).listeners == RemoveAll(old(elm.listeners), old(listeners))
      ensures e != null && e == old(elm) ==>
                e.listeners == AddAll(RemoveAll(old(e.listeners), old(listeners)), old(pending) + old(listeners))
      ensures e != null && e != old(elm) && old(elm) != null ==>
                e.listeners == AddAll(old(e.listeners), old(pending) + old(listeners))
      ensures e != null && old(elm) == null ==> e.listeners == AddAll(old(e.listeners), old(pending))
      ensures e != null ==> forall r :: r in old(pending) ==> r in e.listeners
      ensures e != null && old(elm) != null ==> forall r :: r in old(listeners) ==> r in e.listeners
      ensures old(elm) != null && old(elm) != e ==> forall r :: r in old(listeners) ==> r !in old(elm).listeners
      ensures e != null ==> Valid()
    {
      Detach(elm);
      Attach(e);
    }

    /** `dispose()`: detach from the bound element, if any, and forget every registration. */
    method Dispose()
      modifies this, Present(elm)`listeners
      ensures elm == null && listeners == [] && pending == []
      ensures old(elm) != null ==> old(elm).listeners == RemoveAll(old(elm.listeners), old(listeners))
      ensures Valid() && Live()
    {
      Detach(elm);
      pending := [];
      listeners := [];
      elm := null;
    }
  }
}
