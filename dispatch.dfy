/** One `emit` pass over the list of an event type, described as functions of
    the snapshot of that list taken before dispatch starts. */
module Dispatch {
  import opened Registry

  /** The exclude-self rule: a record is skipped when it asked to exclude
      self-originated broadcasts and both the dispatch uid and its own uid are
      present and equal. */
  predicate Skips(l: Listener, uid: Option<int>)
    ensures Skips(l, uid) ==> l.excludeSelf && l.uid == uid
    ensures uid.None? || l.uid.None? || !l.excludeSelf ==> !Skips(l, uid)
  {
    l.excludeSelf && uid.Some? && l.uid.Some? && l.uid.value == uid.value
  }

  /** A record that is not skipped and is marked `once` is unregistered after
      its handler has run (or failed). */
  predicate Consumes(l: Listener, uid: Option<int>)
    ensures Consumes(l, uid) ==> l.once
  {
    l.once && !Skips(l, uid)
  }

  /** The handlers a pass over `s` invokes, in snapshot order. */
  function Invoked(s: seq<Listener>, uid: Option<int>): (r: seq<Handler>)
    ensures |r| <= |s|
  {
    if s == [] then []
    else
      var p, x := s[..|s| - 1], s[|s| - 1];
      Invoked(p, uid) + (if Skips(x, uid) then [] else [x.handler])
  }

  /** A handler is invoked exactly when some record of the snapshot carries
      it and is not skipped by the exclude-self rule. */
  lemma {:induction false} InvokedMembers(s: seq<Listener>, uid: Option<int>)
    ensures forall h :: h in Invoked(s, uid) <==> exists x :: x in s && x.handler == h && !Skips(x, uid)
  {
    if s != [] {
      var p, x := s[..|s| - 1], s[|s| - 1];
      assert s == p + [x];
      InvokedMembers(p, uid);
    }
  }

  /** The handlers a pass over `s` unregisters, in snapshot order. */
  function Consumed(s: seq<Listener>, uid: Option<int>): (r: seq<Handler>)
    ensures |r| <= |s|
  {
    if s == [] then []
    else
      var p, x := s[..|s| - 1], s[|s| - 1];
      Consumed(p, uid) + (if Consumes(x, uid) then [x.handler] else [])
  }

  /** The records of `s` that survive a pass, in snapshot order. */
  function Kept(s: seq<Listener>, uid: Option<int>): (r: seq<Listener>)
    ensures |r| <= |s|
  {
    if s == [] then []
    else
      var p, x := s[..|s| - 1], s[|s| - 1];
      Kept(p, uid) + (if Consumes(x, uid) then [] else [x])
  }

  /** A record survives a pass exactly when it was in the snapshot and was not
      consumed. */
  lemma {:induction false} KeptMembers(s: seq<Listener>, uid: Option<int>)
    ensures forall x :: x in Kept(s, uid) <==> x in s && !Consumes(x, uid)
  {
    if s != [] {
      var p, x := s[..|s| - 1], s[|s| - 1];
      assert s == p + [x];
      KeptMembers(p, uid);
    }
  }

  /** The counts of a pass add up: as many records are kept as the snapshot
      has records less those consumed, and no more handlers are consumed than
      invoked. */
  lemma {:induction false} PassPartition(s: seq<Listener>, uid: Option<int>)
    ensures |Kept(s, uid)| + |Consumed(s, uid)| == |s|
    ensures |Consumed(s, uid)| <= |Invoked(s, uid)|
  {
    if s != [] {
      PassPartition(s[..|s| - 1], uid);
    }
  }

  /** A handler is consumed exactly when some record of the snapshot carries
      it and is consumed. */
  lemma {:induction false} ConsumedMembers(s: seq<Listener>, uid: Option<int>)
    ensures forall h :: h in Consumed(s, uid) <==> exists x :: x in s && x.handler == h && Consumes(x, uid)
  {
    if s != [] {
      var p, x := s[..|s| - 1], s[|s| - 1];
      assert s == p + [x];
      ConsumedMembers(p, uid);
    }
  }

  /** Only invoked handlers are passed to `off`. */
  lemma ConsumedAreInvoked(s: seq<Listener>, uid: Option<int>)
    ensures forall h :: h in Consumed(s, uid) ==> h in Invoked(s, uid)
  {
    ConsumedMembers(s, uid);
    InvokedMembers(s, uid);
  }

  /** When no handler occurs twice, each record of the snapshot is either kept
      or has its handler consumed, never both. */
  lemma KeptIffNotConsumed(s: seq<Listener>, uid: Option<int>)
    requires UniqueHandlers(s)
    ensures forall x :: x in s ==> (x in Kept(s, uid) <==> x.handler !in Consumed(s, uid))
  {
    KeptMembers(s, uid);
    ConsumedMembers(s, uid);
    forall x, y | x in s && y in s && y.handler == x.handler ensures y == x {
      var i :| 0 <= i < |s| && s[i] == x;
      var j :| 0 <= j < |s| && s[j] == y;
      assert !(i < j) && !(j < i);
    }
  }

  /** The invoked handlers whose failure is caught and reported, in order. */
  function Reported(invoked: seq<Handler>, failing: set<Handler>): (r: seq<Handler>)
    ensures |r| <= |invoked|
  {
    if invoked == [] then []
    else
      var p, h := invoked[..|invoked| - 1], invoked[|invoked| - 1];
      Reported(p, failing) + (if h in failing then [h] else [])
  }

  /** Exactly the invoked handlers that failed are reported. */
  lemma {:induction false} ReportedMembers(invoked: seq<Handler>, failing: set<Handler>)
    ensures forall h :: h in Reported(invoked, failing) <==> h in invoked && h in failing
  {
    if invoked != [] {
      var p, h := invoked[..|invoked| - 1], invoked[|invoked| - 1];
      assert invoked == p + [h];
      ReportedMembers(p, failing);
    }
  }

  /** The registry after `off(t, h)` for each `h` of `hs` in turn. */
  function OffAll(m: Listeners, t: string, hs: seq<Handler>): (r: Listeners)
    ensures forall u :: u != t ==> (u in r <==> u in m) && (u in r ==> r[u] == m[u])
  {
    if hs == [] then m
    else AfterOff(OffAll(m, t, hs[..|hs| - 1]), t, hs[|hs| - 1])
  }

  lemma {:induction false} OffAllKeepsInvariant(m: Listeners, t: string, hs: seq<Handler>)
    requires WellFormed(m)
    ensures WellFormed(OffAll(m, t, hs))
  {
    if hs != [] {
      OffAllKeepsInvariant(m, t, hs[..|hs| - 1]);
      OffKeepsInvariant(OffAll(m, t, hs[..|hs| - 1]), t, hs[|hs| - 1]);
    }
  }

  /** Unregistering the handler of a record whose handler does not occur
      before it takes out just that record. */
  lemma OffOneStored(m: Listeners, t: string, before: seq<Listener>, x: Listener, after: seq<Listener>)
    requires !Registered(before, x.handler)
    ensures AfterOff(Store(m, t, before + [x] + after), t, x.handler) == Store(m, t, before + after)
  {
    var whole := before + [x] + after;
    assert whole != [] by { assert whole[|before|] == x; }
    RemoveAt(before, x, after);
    var rest := before + after;
    if rest == [] {
      assert m[t := whole] - {t} == m - {t};
    } else {
      assert m[t := whole][t := rest] == m[t := rest];
    }
  }

  /** Extending the visited prefix by one record. */
  lemma PrefixStep(s: seq<Listener>, uid: Option<int>, i: nat)
    requires i < |s|
    ensures Consumed(s[..i + 1], uid) == Consumed(s[..i], uid) + (if Consumes(s[i], uid) then [s[i].handler] else [])
    ensures Kept(s[..i + 1], uid) == Kept(s[..i], uid) + (if Consumes(s[i], uid) then [] else [s[i]])
    ensures Invoked(s[..i + 1], uid) == Invoked(s[..i], uid) + (if Skips(s[i], uid) then [] else [s[i].handler])
    ensures s[i..] == [s[i]] + s[i + 1..]
  {
    assert s[..i + 1][..i] == s[..i];
  }

  /** Appending one handler to the list of calls or of removals. */
  lemma AppendStep(m: Listeners, t: string, hs: seq<Handler>, h: Handler, failing: set<Handler>)
    ensures Reported(hs + [h], failing) == Reported(hs, failing) + (if h in failing then [h] else [])
    ensures OffAll(m, t, hs + [h]) == AfterOff(OffAll(m, t, hs), t, h)
  {
  }

  /** No record kept from the first `i` records carries the handler of record `i`. */
  lemma KeptBefore(s: seq<Listener>, uid: Option<int>, i: nat)
    requires UniqueHandlers(s) && i < |s|
    ensures !Registered(Kept(s[..i], uid), s[i].handler)
  {
    var kept := Kept(s[..i], uid);
    KeptMembers(s[..i], uid);
    forall j | 0 <= j < |kept| ensures kept[j].handler != s[i].handler {
      assert kept[j] in s[..i];
      var q :| 0 <= q < i && s[..i][q] == kept[j];
      assert s[q] == kept[j];
    }
  }

  /** The registry halfway through a pass over the list `s` of `t`: the
      records visited so far that survived, then those not yet visited. */
  function Halfway(m: Listeners, t: string, s: seq<Listener>, uid: Option<int>, i: nat): Listeners
    requires i <= |s|
  {
    Store(m, t, Kept(s[..i], uid) + s[i..])
  }

  /** Visiting a record whose handler runs and that is marked `once`. */
  lemma StepConsumed(m: Listeners, t: string, s: seq<Listener>, uid: Option<int>, k: nat)
    requires UniqueHandlers(s) && k < |s| && Consumes(s[k], uid)
    ensures AfterOff(Halfway(m, t, s, uid, k), t, s[k].handler) == Halfway(m, t, s, uid, k + 1)
  {
    var kept, x, after := Kept(s[..k], uid), s[k], s[k + 1..];
    calc {
      AfterOff(Halfway(m, t, s, uid, k), t, x.handler);
      == { PrefixStep(s, uid, k); assert kept + s[k..] == kept + [x] + after; }
      AfterOff(Store(m, t, kept + [x] + after), t, x.handler);
      == { KeptBefore(s, uid, k); OffOneStored(m, t, kept, x, after); }
      Store(m, t, kept + after);
      == { PrefixStep(s, uid, k); assert kept + [] == kept; }
      Halfway(m, t, s, uid, k + 1);
    }
  }

  /** Visiting a record that is skipped or not marked `once`. */
  lemma StepKept(m: Listeners, t: string, s: seq<Listener>, uid: Option<int>, k: nat)
    requires k < |s| && !Consumes(s[k], uid)
    ensures Halfway(m, t, s, uid, k) == Halfway(m, t, s, uid, k + 1)
  {
    PrefixStep(s, uid, k);
    assert Kept(s[..k + 1], uid) + s[k + 1..] == Kept(s[..k], uid) + s[k..];
  }

  /** One visit, from the registry before record `k` to the registry after it. */
  lemma OffAllStep(m: Listeners, t: string, s: seq<Listener>, uid: Option<int>, k: nat)
    requires UniqueHandlers(s) && k < |s|
    requires OffAll(m, t, Consumed(s[..k], uid)) == Halfway(m, t, s, uid, k)
    ensures OffAll(m, t, Consumed(s[..k + 1], uid)) == Halfway(m, t, s, uid, k + 1)
  {
    var c := Consumed(s[..k], uid);
    PrefixStep(s, uid, k);
    if Consumes(s[k], uid) {
      calc {
        OffAll(m, t, Consumed(s[..k + 1], uid));
        == { assert (c + [s[k].handler])[..|c|] == c; }
        AfterOff(OffAll(m, t, c), t, s[k].handler);
        == { StepConsumed(m, t, s, uid, k); }
        Halfway(m, t, s, uid, k + 1);
      }
    } else {
      assert c + [] == c;
      StepKept(m, t, s, uid, k);
    }
  }

  /** Before the first visit, nothing has been unregistered. */
  lemma HalfwayStart(m: Listeners, t: string, uid: Option<int>)
    requires t in m && m[t] != []
    ensures OffAll(m, t, Consumed(m[t][..0], uid)) == Halfway(m, t, m[t], uid, 0) == m
  {
    var s := m[t];
    assert s[..0] == [];
    assert [] + s[0..] == s;
    assert m[t := s] == m;
  }

  /** Halfway through a pass, the list of `t` is what survived of the records
      visited so far followed by the records not yet visited. */
  lemma {:induction false} OffAllPrefix(m: Listeners, t: string, uid: Option<int>, i: nat)
    requires t in m && m[t] != [] && UniqueHandlers(m[t]) && i <= |m[t]|
    ensures OffAll(m, t, Consumed(m[t][..i], uid)) == Halfway(m, t, m[t], uid, i)
  {
    if i == 0 {
      HalfwayStart(m, t, uid);
    } else {
      OffAllPrefix(m, t, uid, i - 1);
      OffAllStep(m, t, m[t], uid, i - 1);
    }
  }

  /** After a pass over the list of `t`, that list holds exactly the surviving
      records, in their order, the entry is gone if none survive, and the
      invariant still holds. */
  lemma EmitLeavesKept(m: Listeners, t: string, uid: Option<int>)
    requires WellFormed(m)
    ensures WellFormed(OffAll(m, t, Consumed(ListOf(m, t), uid)))
    ensures ListOf(OffAll(m, t, Consumed(ListOf(m, t), uid)), t) == Kept(ListOf(m, t), uid)
  {
    OffAllKeepsInvariant(m, t, Consumed(ListOf(m, t), uid));
    if t in m {
      var s := m[t];
      OffAllPrefix(m, t, uid, |s|);
      assert s[..|s|] == s;
      assert s[|s|..] == [];
      assert Kept(s, uid) + s[|s|..] == Kept(s, uid);
    }
  }

  /** The fate of one record of the snapshot: a `once` record whose handler
      ran is no longer registered; every other record (a skipped `once` record
      included) is still registered after the pass. */
  lemma EmitOnceRule(m: Listeners, t: string, uid: Option<int>, x: Listener)
    requires WellFormed(m)
    requires x in ListOf(m, t)
    ensures x.once && !Skips(x, uid) ==>
      !Registered(ListOf(OffAll(m, t, Consumed(ListOf(m, t), uid)), t), x.handler)
    ensures !(x.once && !Skips(x, uid)) ==>
      x in ListOf(OffAll(m, t, Consumed(ListOf(m, t), uid)), t)
  {
    EmitLeavesKept(m, t, uid);
    var s := ListOf(m, t);
    KeptMembers(s, uid);
    var kept := Kept(s, uid);
    if Consumes(x, uid) {
      var q' :| 0 <= q' < |s| && s[q'] == x;
      forall j | 0 <= j < |kept| ensures kept[j].handler != x.handler {
        assert kept[j] in s;
        var q :| 0 <= q < |s| && s[q] == kept[j];
        assert q != q';
      }
    }
  }

  /** A list without duplicate handlers is dispatched to each handler at most
      once per pass. */
  lemma {:induction false} InvokedDistinct(s: seq<Listener>, uid: Option<int>)
    requires UniqueHandlers(s)
    ensures forall i, j :: 0 <= i < j < |Invoked(s, uid)| ==> Invoked(s, uid)[i] != Invoked(s, uid)[j]
  {
    if s != [] {
      var p, x := s[..|s| - 1], s[|s| - 1];
      assert UniqueHandlers(p) by {
        forall i, j | 0 <= i < j < |p| ensures p[i].handler != p[j].handler {
          assert p[i] == s[i] && p[j] == s[j];
        }
      }
      InvokedDistinct(p, uid);
      if !Skips(x, uid) {
        var before := Invoked(p, uid);
        InvokedMembers(p, uid);
        forall k | 0 <= k < |before| ensures before[k] != x.handler {
          assert before[k] in before;
          var y :| y in p && y.handler == before[k] && !Skips(y, uid);
          var q :| 0 <= q < |p| && p[q] == y;
          assert s[q] == y;
        }
      }
    }
  }

  /** When no record of the snapshot is excluded, dispatch calls every handler
      in registration order. */
  lemma {:induction false} InvokedInOrder(s: seq<Listener>, uid: Option<int>)
    requires forall x :: x in s ==> !Skips(x, uid)
    ensures Invoked(s, uid) == Handlers(s)
  {
    if s != [] {
      var p, x := s[..|s| - 1], s[|s| - 1];
      assert forall y :: y in p ==> y in s;
      InvokedInOrder(p, uid);
      assert x in s;
      assert Handlers(s) == Handlers(p) + [x.handler];
    }
  }

  /** Reference definition of the records a pass calls: the records of `s`
      the exclude-self rule lets through, in registration order. */
  function NotSkipped(s: seq<Listener>, uid: Option<int>): (r: seq<Listener>)
    ensures forall x :: x in r <==> x in s && !Skips(x, uid)
  {
    if s == [] then []
    else
      assert s == [s[0]] + s[1..];
      (if Skips(s[0], uid) then [] else [s[0]]) + NotSkipped(s[1..], uid)
  }

  lemma {:induction false} NotSkippedSnoc(p: seq<Listener>, x: Listener, uid: Option<int>)
    ensures NotSkipped(p + [x], uid) == NotSkipped(p, uid) + (if Skips(x, uid) then [] else [x])
  {
    if p == [] {
      assert p + [x] == [x];
      assert [x][1..] == [];
    } else {
      assert (p + [x])[0] == p[0];
      assert (p + [x])[1..] == p[1..] + [x];
      NotSkippedSnoc(p[1..], x, uid);
    }
  }

  lemma HandlersAppend(a: seq<Listener>, b: seq<Listener>)
    ensures Handlers(a + b) == Handlers(a) + Handlers(b)
  {
  }

  /** Dispatch calls the handlers of exactly the records the exclude-self rule
      lets through, each once, in registration order. */
  lemma {:induction false} InvokedFollowsRegistration(s: seq<Listener>, uid: Option<int>)
    ensures Invoked(s, uid) == Handlers(NotSkipped(s, uid))
  {
    if s != [] {
      var p, x := s[..|s| - 1], s[|s| - 1];
      assert s == p + [x];
      InvokedFollowsRegistration(p, uid);
      NotSkippedSnoc(p, x, uid);
      HandlersAppend(NotSkipped(p, uid), if Skips(x, uid) then [] else [x]);
    }
  }
}
