/** Concrete runs of the registry: what two `emit` calls after some `on`
    calls invoke, computed from the functions that the methods of
    `Broadcaster` are proved to follow. */
module Scenarios {
  import opened Registry
  import opened Dispatch

  /** A pass over a list of one or two records, unfolded. */
  lemma TwoRecordPass(x: Listener, y: Listener, uid: Option<int>)
    ensures Invoked([x], uid) == (if Skips(x, uid) then [] else [x.handler])
    ensures Consumed([x], uid) == (if Consumes(x, uid) then [x.handler] else [])
    ensures Invoked([x, y], uid) == Invoked([x], uid) + (if Skips(y, uid) then [] else [y.handler])
    ensures Consumed([x, y], uid) == Consumed([x], uid) + (if Consumes(y, uid) then [y.handler] else [])
  {
  }

  /** Handler 1 is plain and handler 2 fires once: the first broadcast of "t"
      calls 1 then 2, the second only 1. */
  lemma OnceListenerFiresOnce()
    ensures
      var a, o := Listener(1, false, false, None), Listener(2, true, false, None);
      var m := AfterOn(AfterOn(map[], "t", a), "t", o);
      var m' := OffAll(m, "t", Consumed(ListOf(m, "t"), None));
      Invoked(ListOf(m, "t"), None) == [1, 2] && Invoked(ListOf(m', "t"), None) == [1]
  {
    var a, o := Listener(1, false, false, None), Listener(2, true, false, None);
    var m1 := AfterOn(map[], "t", a);
    assert !Registered(ListOf(map[], "t"), 1);
    assert m1["t"] == [a];
    assert !Registered([a], 2) by { assert [a][0].handler == 1; }
    var m := AfterOn(m1, "t", o);
    assert ListOf(m, "t") == [a, o];
    TwoRecordPass(a, o, None);
    assert Consumed([a, o], None) == [2];
    assert [2][..0] == [];
    assert RemoveFirst([a, o], 2) == [a];
    assert OffAll(m, "t", [2]) == AfterOff(OffAll(m, "t", []), "t", 2);
    assert AfterOff(m, "t", 2) == m["t" := [a]];
  }

  /** A listener of component 1 that excludes itself: a broadcast from
      component 1 does not reach it, one from component 2 or from outside any
      component does. */
  lemma ExcludeSelfListener()
    ensures
      var m := AfterOn(map[], "t", Listener(1, false, true, Some(1)));
      Invoked(ListOf(m, "t"), Some(1)) == [] &&
      Invoked(ListOf(m, "t"), Some(2)) == [1] &&
      Invoked(ListOf(m, "t"), None) == [1]
  {
    var a := Listener(1, false, true, Some(1));
    assert !Registered(ListOf(map[], "t"), 1);
    TwoRecordPass(a, a, Some(1));
    TwoRecordPass(a, a, Some(2));
    TwoRecordPass(a, a, None);
  }
}
