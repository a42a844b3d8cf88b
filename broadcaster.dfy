/** The broadcaster object: one mutable map from event type to listener list,
    with `on`, `off` and `emit` changing it in place. */
module Broadcasting {
  import opened Registry
  import opened Dispatch

  /** The closure `on` returns: calling it unregisters `handler` for
      `eventType` on the broadcaster that returned it. */
  datatype Unsubscriber = Unsubscriber(owner: Broadcaster, eventType: string, handler: Handler)

  /** Linear search for the first record carrying `handler`, -1 when there is
      none; both `some` and `findIndex` over a listener list are this search. */
  method FindIndex(materials: seq<Listener>, handler: Handler) returns (index: int)
    ensures -1 <= index < |materials|
    ensures index == -1 <==> !Registered(materials, handler)
    ensures 0 <= index ==> materials[index].handler == handler && !Registered(materials[..index], handler)
  {
    var i := 0;
    while i < |materials| && materials[i].handler != handler
      invariant 0 <= i <= |materials|
      invariant forall j :: 0 <= j < i ==> materials[j].handler != handler
    {
      i := i + 1;
    }
    index := if i < |materials| then i else -1;
    if index >= 0 {
      forall j | 0 <= j < index ensures materials[..index][j].handler != handler {
        assert materials[..index][j] == materials[j];
      }
    }
  }

  class Broadcaster {
    var listeners: Listeners

    /** The registry's invariant: no empty list, no handler twice in a list. */
    ghost predicate Valid()
      reads this
    {
      WellFormed(listeners)
    }

    constructor ()
      ensures Valid() && listeners == map[]
    {
      listeners := map[];
    }

    /** Registers `handler` for `eventType` unless it is already registered
        there, and returns the closure that unregisters it. */
    method On(eventType: string, handler: Handler, once: bool, excludeSelf: bool, uid: Option<int>)
      returns (unsubscribe: Unsubscriber)
      requires Valid()
      modifies this
      ensures Valid()
      ensures listeners == AfterOn(old(listeners), eventType, Listener(handler, once, excludeSelf, uid))
      ensures unsubscribe == Unsubscriber(this, eventType, handler)
    {
      OnKeepsInvariant(listeners, eventType, Listener(handler, once, excludeSelf, uid));
      var materials: seq<Listener>;
      var repeated := false;
      if eventType in listeners {
        materials := listeners[eventType];
        var index := FindIndex(materials, handler);
        repeated := index != -1;
      } else {
        materials := [];
        listeners := listeners[eventType := materials];
      }
      if !repeated {
        materials := materials + [Listener(handler, once, excludeSelf, uid)];
        listeners := listeners[eventType := materials];
      }
      unsubscribe := Unsubscriber(this, eventType, handler);
    }

    /** Unregisters `handler` for `eventType`; deletes the entry once its list
        is empty. */
    method Off(eventType: string, handler: Handler)
      requires Valid()
      modifies this
      ensures Valid()
      ensures listeners == AfterOff(old(listeners), eventType, handler)
    {
      OffKeepsInvariant(listeners, eventType, handler);
      if eventType !in listeners {
        return;
      }
      var materials := listeners[eventType];
      var index := FindIndex(materials, handler);
      if index != -1 {
        RemoveAt(materials[..index], materials[index], materials[index + 1..]);
        assert materials == materials[..index] + [materials[index]] + materials[index + 1..];
        materials := materials[..index] + materials[index + 1..];
        listeners := listeners[eventType := materials];
      } else {
        RemoveAbsent(materials, handler);
      }
      if |materials| == 0 {
        listeners := listeners - {eventType};
      }
    }

    /** Dispatches `eventType` from the component with `uid`. The handlers in
        `failing` throw when called; each such failure is caught and reported,
        and dispatch goes on. Returns the handlers called, in order, and those
        whose failure was reported. */
    method Emit(eventType: string, uid: Option<int>, failing: set<Handler>)
      returns (invoked: seq<Handler>, reported: seq<Handler>)
      requires Valid()
      modifies this
      ensures Valid()
      ensures invoked == Invoked(ListOf(old(listeners), eventType), uid)
      ensures reported == Reported(invoked, failing)
      ensures listeners == OffAll(old(listeners), eventType, Consumed(ListOf(old(listeners), eventType), uid))
      ensures eventType !in old(listeners) ==> invoked == [] && reported == [] && listeners == old(listeners)
    {
      invoked, reported := [], [];
      if eventType !in listeners {
        return;
      }
      var snapshot := listeners[eventType];
      var i := 0;
      while i < |snapshot|
        invariant 0 <= i <= |snapshot|
        invariant Valid()
        invariant invoked == Invoked(snapshot[..i], uid)
        invariant reported == Reported(invoked, failing)
        invariant listeners == OffAll(old(listeners), eventType, Consumed(snapshot[..i], uid))
      {
        var material := snapshot[i];
        ghost var done := Consumed(snapshot[..i], uid);
        PrefixStep(snapshot, uid, i);
        if !Skips(material, uid) {
          AppendStep(old(listeners), eventType, invoked, material.handler, failing);
          invoked := invoked + [material.handler];
          if material.handler in failing {
            reported := reported + [material.handler];
          }
          if material.once {
            AppendStep(old(listeners), eventType, done, material.handler, failing);
            Off(eventType, material.handler);
          }
        }
        assert !Consumes(material, uid) ==> done + [] == done;
        assert Skips(material, uid) ==> invoked + [] == invoked;
        i := i + 1;
      }
      assert snapshot[..i] == snapshot;
    }
  }

  /** Calls a closure that `On` returned: it unregisters its handler on the
      broadcaster that returned it, whichever broadcaster the caller holds. */
  method Unsubscribe(closure: Unsubscriber)
    requires closure.owner.Valid()
    modifies closure.owner
    ensures closure.owner.Valid()
    ensures closure.owner.listeners == AfterOff(old(closure.owner.listeners), closure.eventType, closure.handler)
  {
    closure.owner.Off(closure.eventType, closure.handler);
  }
}
