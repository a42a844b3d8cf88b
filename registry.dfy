/** The listener registry of a broadcaster as a value: a map from event type to
    the ordered list of listener records registered for it, and the meaning of
    registering (`on`) and unregistering (`off`) on that map. */
module Registry {

  /** An optional value; here the uid of a component instance, absent when the
      caller has no instance. */
  datatype Option<T> = None | Some(value: T)

  /** Handlers are compared by identity only, so a handler is its identity. */
  type Handler = nat

  /** One registration: the handler, its two flags and the uid of the
      component instance that registered it. */
  datatype Listener = Listener(handler: Handler, once: bool, excludeSelf: bool, uid: Option<int>)

  /** Event type to the listeners registered for it, in registration order. */
  type Listeners = map<string, seq<Listener>>

  /** Some record of `s` carries handler `h`. */
  predicate Registered(s: seq<Listener>, h: Handler) {
    exists i :: 0 <= i < |s| && s[i].handler == h
  }

  /** No two records of `s` carry the same handler. */
  predicate UniqueHandlers(s: seq<Listener>) {
    forall i, j :: 0 <= i < j < |s| ==> s[i].handler != s[j].handler
  }

  /** The registry's invariant: no type maps to an empty list, and no list
      holds a handler twice. */
  predicate WellFormed(m: Listeners) {
    forall t :: t in m ==> m[t] != [] && UniqueHandlers(m[t])
  }

  /** The list registered for `t`, empty when the type has no entry. */
  function ListOf(m: Listeners, t: string): seq<Listener> {
    if t in m then m[t] else []
  }

  /** Stores `s` as the list of `t`, deleting the entry when `s` is empty. */
  function Store(m: Listeners, t: string, s: seq<Listener>): (r: Listeners)
    ensures ListOf(r, t) == s
    ensures t in r <==> s != []
    ensures forall u :: u != t ==> (u in r <==> u in m) && (u in r ==> r[u] == m[u])
  {
    if s == [] then m - {t} else m[t := s]
  }

  /** The handlers of `s`, in order. */
  function Handlers(s: seq<Listener>): seq<Handler> {
    seq(|s|, i requires 0 <= i < |s| => s[i].handler)
  }

  /** The registry after `on(t, l.handler, l.once, l.excludeSelf, l.uid)`. */
  function AfterOn(m: Listeners, t: string, l: Listener): (r: Listeners)
    ensures t in r && Registered(r[t], l.handler)
    ensures forall u :: u != t ==> (u in r <==> u in m) && (u in r ==> r[u] == m[u])
    ensures Registered(ListOf(m, t), l.handler) ==> r == m
    ensures !Registered(ListOf(m, t), l.handler) ==> r[t] == ListOf(m, t) + [l]
  {
    var s := ListOf(m, t);
    if Registered(s, l.handler) then m
    else
      assert (s + [l])[|s|] == l;
      m[t := s + [l]]
  }

  /** `s` without its first record whose handler is `h` (`findIndex` and `splice`). */
  function RemoveFirst(s: seq<Listener>, h: Handler): (r: seq<Listener>)
    ensures |r| == if Registered(s, h) then |s| - 1 else |s|
    ensures forall x :: x in r ==> x in s
  {
    if s == [] then []
    else if s[0].handler == h then s[1..]
    else
      RegisteredTail(s, h);
      [s[0]] + RemoveFirst(s[1..], h)
  }

  /** Every record of `s` whose handler is not `h`, in their order in `s`. */
  function WithoutHandler(s: seq<Listener>, h: Handler): (r: seq<Listener>)
    ensures forall x :: x in r <==> x in s && x.handler != h
  {
    if s == [] then []
    else
      assert s == [s[0]] + s[1..];
      (if s[0].handler == h then [] else [s[0]]) + WithoutHandler(s[1..], h)
  }

  /** The registry after `off(t, h)`; other types are never touched. */
  function AfterOff(m: Listeners, t: string, h: Handler): (r: Listeners)
    ensures forall u :: u != t ==> (u in r <==> u in m) && (u in r ==> r[u] == m[u])
  {
    if t !in m then m else Store(m, t, RemoveFirst(m[t], h))
  }

  lemma RegisteredTail(s: seq<Listener>, h: Handler)
    requires s != [] && s[0].handler != h
    ensures Registered(s, h) <==> Registered(s[1..], h)
  {
  }

  /** Removing a handler that was never registered changes nothing. */
  lemma {:induction false} RemoveAbsent(s: seq<Listener>, h: Handler)
    requires !Registered(s, h)
    ensures RemoveFirst(s, h) == s
  {
    if s != [] {
      assert s[0].handler != h;
      RegisteredTail(s, h);
      RemoveAbsent(s[1..], h);
      assert s == [s[0]] + s[1..];
    }
  }

  /** Removing by handler takes out exactly the first record carrying it:
      what `findIndex` followed by `splice(index, 1)` does. */
  lemma {:induction false} RemoveAt(a: seq<Listener>, x: Listener, b: seq<Listener>)
    requires !Registered(a, x.handler)
    ensures RemoveFirst(a + [x] + b, x.handler) == a + b
  {
    if a == [] {
      assert a + [x] + b == [x] + b;
    } else {
      var s := a + [x] + b;
      assert s[0] == a[0];
      assert a[0].handler != x.handler;
      assert s[1..] == a[1..] + [x] + b;
      forall i | 0 <= i < |a[1..]| ensures a[1..][i].handler != x.handler {
        assert a[1..][i] == a[i + 1];
      }
      RemoveAt(a[1..], x, b);
      assert a == [a[0]] + a[1..];
    }
  }

  lemma {:induction false} WithoutAbsent(s: seq<Listener>, h: Handler)
    requires !Registered(s, h)
    ensures WithoutHandler(s, h) == s
  {
    if s != [] {
      assert s[0].handler != h;
      RegisteredTail(s, h);
      WithoutAbsent(s[1..], h);
      assert s == [s[0]] + s[1..];
    }
  }

  /** On a list without duplicate handlers, removing the first record with `h`
      is the same as dropping every record with `h`. */
  lemma {:induction false} RemoveFirstIsWithout(s: seq<Listener>, h: Handler)
    requires UniqueHandlers(s)
    ensures RemoveFirst(s, h) == WithoutHandler(s, h)
  {
    if s != [] {
      assert UniqueHandlers(s[1..]) by {
        forall i, j | 0 <= i < j < |s[1..]| ensures s[1..][i].handler != s[1..][j].handler {
          assert s[1..][i] == s[i + 1] && s[1..][j] == s[j + 1];
        }
      }
      if s[0].handler == h {
        forall i | 0 <= i < |s[1..]| ensures s[1..][i].handler != h {
          assert s[1..][i] == s[i + 1];
        }
        WithoutAbsent(s[1..], h);
      } else {
        RemoveFirstIsWithout(s[1..], h);
      }
    }
  }

  /** Removing records never creates a duplicate handler. */
  lemma {:induction false} UniqueWithout(s: seq<Listener>, h: Handler)
    requires UniqueHandlers(s)
    ensures UniqueHandlers(WithoutHandler(s, h))
  {
    if s != [] {
      assert UniqueHandlers(s[1..]) by {
        forall i, j | 0 <= i < j < |s[1..]| ensures s[1..][i].handler != s[1..][j].handler {
          assert s[1..][i] == s[i + 1] && s[1..][j] == s[j + 1];
        }
      }
      UniqueWithout(s[1..], h);
      var rest := WithoutHandler(s[1..], h);
      if s[0].handler != h {
        forall k | 0 <= k < |rest| ensures rest[k].handler != s[0].handler {
          assert rest[k] in s[1..];
          var j :| 0 <= j < |s[1..]| && s[1..][j] == rest[k];
          assert s[j + 1] == rest[k];
        }
        var r := [s[0]] + rest;
        forall i, j | 0 <= i < j < |r| ensures r[i].handler != r[j].handler {
          if i == 0 { assert r[j] == rest[j - 1]; } else { assert r[i] == rest[i - 1] && r[j] == rest[j - 1]; }
        }
      }
    }
  }

  /** `off` keeps the registry's invariant. */
  lemma OffKeepsInvariant(m: Listeners, t: string, h: Handler)
    requires WellFormed(m)
    ensures WellFormed(AfterOff(m, t, h))
  {
    if t in m {
      RemoveFirstIsWithout(m[t], h);
      UniqueWithout(m[t], h);
    }
  }

  /** `off(t, h)` leaves for `t` exactly the old list with `h`'s record taken
      out, the others in their old order. */
  lemma OffRemovesExactly(m: Listeners, t: string, h: Handler)
    requires WellFormed(m)
    ensures ListOf(AfterOff(m, t, h), t) == WithoutHandler(ListOf(m, t), h)
    ensures !Registered(ListOf(AfterOff(m, t, h), t), h)
  {
    if t in m {
      RemoveFirstIsWithout(m[t], h);
    }
    var r := ListOf(AfterOff(m, t, h), t);
    forall i | 0 <= i < |r| ensures r[i].handler != h {
      assert r[i] in r;
    }
  }

  /** `off` of a type without an entry, or of a handler not registered for
      it, changes nothing. */
  lemma OffAbsent(m: Listeners, t: string, h: Handler)
    requires WellFormed(m)
    requires !Registered(ListOf(m, t), h)
    ensures AfterOff(m, t, h) == m
  {
    if t in m {
      RemoveAbsent(m[t], h);
      assert m[t := m[t]] == m;
    }
  }

  /** `on` keeps the registry's invariant. */
  lemma OnKeepsInvariant(m: Listeners, t: string, l: Listener)
    requires WellFormed(m)
    ensures WellFormed(AfterOn(m, t, l))
  {
  }

  /** Registering a handler already registered for the type is a no-op,
      whatever flags and uid the second call passes. */
  lemma OnIdempotent(m: Listeners, t: string, l: Listener, l': Listener)
    requires l'.handler == l.handler
    ensures AfterOn(AfterOn(m, t, l), t, l') == AfterOn(m, t, l)
  {
  }

  /** Calling the closure returned by a fresh registration restores the
      registry as it was before. */
  lemma OnThenOff(m: Listeners, t: string, l: Listener)
    requires WellFormed(m)
    requires !Registered(ListOf(m, t), l.handler)
    ensures AfterOff(AfterOn(m, t, l), t, l.handler) == m
  {
    var s := ListOf(m, t);
    RemoveAt(s, l, []);
    assert s + [l] + [] == s + [l];
    assert s + [] == s;
    if t in m {
      assert m[t := s + [l]][t := s] == m;
    } else {
      assert m[t := [l]] - {t} == m;
    }
  }
}
