# vue-broadcaster listener registry in Dafny

This project models `Broadcaster`, the listener registry behind the
broadcast/receive composition functions of vue-broadcaster. A broadcaster
holds one map from event type to an ordered list of listener records. Each
record has a handler, a `once` flag, an `excludeSelf` flag and the uid of the
component instance that registered it. The broadcaster has three operations:

- `on` registers a handler unless the same handler is already registered for
  that type, and returns a closure that unregisters it;
- `off` removes the record carrying a handler and deletes the type's entry
  once its list is empty;
- `emit` walks a copy of the type's list in registration order. It skips
  records excluded by the exclude-self rule, calls every other handler, catches
  and reports a handler's failure, and unregisters `once` records after their
  handler has run.

Files:

- `registry.dfy` (module `Registry`): the `Listener` record, the map's
  invariant (`WellFormed`: no empty list, no handler twice in a list), and the
  effect of `on` and `off` on the map as functions (`AfterOn`, `AfterOff`),
  with the lemmas that relate them.
- `dispatch.dfy` (module `Dispatch`): the exclude-self rule (`Skips`) and one
  dispatch pass as functions of the pre-dispatch snapshot. `Invoked` gives the
  handlers called, `Reported` the failures logged, `Consumed` the `once`
  handlers removed and `Kept` the records that survive. The lemmas prove what
  a pass leaves in the registry.
- `broadcaster.dfy` (module `Broadcasting`): the class `Broadcaster`. Its
  `listeners` map field is updated in place by `On`, `Off` and `Emit`, the
  last a loop over the snapshot that calls `Off`. The closure `on` returns is
  a value that remembers its broadcaster; `Unsubscribe` calls it. Each
  method is proved to follow the functions above. The
  shared linear search `FindIndex` models both `some` and `findIndex`.
- `scenarios.dfy` (module `Scenarios`): two concrete runs, proved from those
  functions. In one, a `once` listener fires on the first broadcast only. In
  the other, an exclude-self listener is skipped for its own component's
  broadcast and called for any other.

Modelling choices:

- A handler is an identity (`nat`): JavaScript compares handlers with `===`.
- The optional uid (`number | undefined`) is `Option<int>`.
- The payload `data` is left out. The registry never looks at it and passes
  the same value to every handler.
- A handler throwing is an input to `Emit`: `failing` holds the handlers that
  throw. `Emit` returns the handlers it invoked and those whose failure it
  reported. Whether handlers fail does not change which handlers are invoked.
- The event type may be any string. The registry does not check that it is
  non-empty, and neither does the model.

## Model

| member | source | states |
|---|---|---|
| Registry.AfterOn | lib/broadcaster.ts:26-39 | after `on`, the handler is registered for the type; other types are unchanged; a handler already registered leaves the map unchanged; otherwise the new record is appended to the end of the type's list, and the list is created if absent |
| Registry.OnKeepsInvariant | lib/broadcaster.ts:29-39 | `on` keeps the invariant: no empty list, no handler twice in a list |
| Registry.OnIdempotent | lib/broadcaster.ts:29-39 | registering a handler that is already registered, with any flags and uid, is a no-op |
| Registry.RemoveFirst | lib/broadcaster.ts:49-52 | removing by handler shortens the list by one exactly when the handler is registered, and adds no record |
| Registry.RemoveAt | lib/broadcaster.ts:49-51 | with no earlier record carrying `h`, removing `h` from `a + [x] + b` gives `a + b`: the `splice` at the index `findIndex` returns |
| Registry.RemoveAbsent | lib/broadcaster.ts:49-52 | removing a handler that is not registered leaves the list as it was |
| Registry.WithoutHandler | lib/broadcaster.ts:45-57 | reference definition: a record is in the result iff it is in the list and does not carry the handler |
| Registry.RemoveFirstIsWithout | lib/broadcaster.ts:45-57 | when handlers are unique, removing the first record with `h` is the same as dropping every record with `h`, with the rest in order |
| Registry.UniqueWithout | lib/broadcaster.ts:49-52 | dropping records never creates a duplicate handler |
| Registry.Store | lib/broadcaster.ts:50-56 | definition: writes a list back for a type and deletes the entry when the list is empty; reading the type back gives the list, the entry exists iff the list is non-empty, other types are untouched |
| Registry.AfterOff | lib/broadcaster.ts:45-57 | `off` never touches the entries of other types |
| Registry.OffKeepsInvariant | lib/broadcaster.ts:45-57 | `off` keeps the invariant; the entry is deleted when the last record is removed |
| Registry.OffRemovesExactly | lib/broadcaster.ts:45-57 | after `off(t, h)`, the list of `t` is the old list with exactly `h`'s record taken out, the rest in their old order, and `h` is no longer registered for `t` |
| Registry.OffAbsent | lib/broadcaster.ts:46-57 | `off` of a type with no entry, or of a handler not registered for it, changes nothing |
| Registry.OnThenOff | lib/broadcaster.ts:41-42 | calling the closure of a fresh registration restores the map as it was before `on` |
| Dispatch.Skips | lib/broadcaster.ts:66-73 | definition of the exclude-self rule: a skipped record has `excludeSelf` set and the dispatch uid equal to its own; a dispatch without a uid, a record without a uid or without `excludeSelf` is never skipped |
| Dispatch.Consumes | lib/broadcaster.ts:72-81 | definition: a record is unregistered by a pass iff it is `once` and not skipped (the early `return` at line 73 also bypasses the `once` check); only `once` records are consumed |
| Dispatch.Invoked | lib/broadcaster.ts:64-75 | definition: the handlers a pass over the snapshot calls, in snapshot order; never more than one per record |
| Dispatch.Consumed | lib/broadcaster.ts:79-81 | definition: the handlers a pass passes to `off`, in snapshot order; at most one per record |
| Dispatch.Kept | lib/broadcaster.ts:64-82 | definition: the records of the snapshot a pass leaves registered, in snapshot order; at most one per record |
| Dispatch.Reported | lib/broadcaster.ts:76-77 | definition: the invoked handlers whose failure is logged, in invocation order; at most one per invocation |
| Dispatch.PassPartition | lib/broadcaster.ts:64-82 | counts: the kept records and the consumed handlers together number the snapshot's records, and no more handlers are consumed than invoked |
| Dispatch.ConsumedMembers | lib/broadcaster.ts:79-81 | a handler is passed to `off` iff some record of the snapshot carries it and is `once` and not skipped |
| Dispatch.ConsumedAreInvoked | lib/broadcaster.ts:66-81 | every handler a pass unregisters was invoked by that pass, because the early `return` of a skipped record also bypasses the `once` check |
| Dispatch.KeptIffNotConsumed | lib/broadcaster.ts:64-82 | with no handler twice in the list, each record of the snapshot either survives the pass or has its handler unregistered, never both |
| Dispatch.NotSkipped | lib/broadcaster.ts:64-74 | reference definition, by front recursion: a record is in the result iff it is in the snapshot and the exclude-self rule lets it through |
| Dispatch.InvokedFollowsRegistration | lib/broadcaster.ts:64-75 | in general, the handlers invoked are exactly the handlers of the non-skipped records, each once, in registration order |
| Dispatch.InvokedMembers | lib/broadcaster.ts:64-78 | a handler is invoked iff some record of the snapshot carries it and is not skipped; a record is skipped iff `excludeSelf` is set and both uids are present and equal |
| Dispatch.InvokedInOrder | lib/broadcaster.ts:64-75 | when no record is skipped, the handlers are invoked in registration order, each record once |
| Dispatch.InvokedDistinct | lib/broadcaster.ts:64-75 | a pass over a list without duplicate handlers calls each handler at most once; with the dedup of `on` at lines 29-39, a duplicate `on` never doubles a call |
| Dispatch.ReportedMembers | lib/broadcaster.ts:76-77 | exactly the invoked handlers that threw are reported |
| Dispatch.KeptMembers | lib/broadcaster.ts:72-81 | a record survives a pass iff it is in the snapshot and not (`once` and invoked) |
| Dispatch.OffAll | lib/broadcaster.ts:79-81 | the `off` calls a dispatch makes never touch other types |
| Dispatch.OffAllKeepsInvariant | lib/broadcaster.ts:79-81 | the sequence of `off` calls made during a dispatch keeps the invariant |
| Dispatch.OffAllPrefix | lib/broadcaster.ts:64-82 | after the first `i` records of the snapshot are visited, the type's list holds the surviving visited records followed by the unvisited ones |
| Dispatch.EmitLeavesKept | lib/broadcaster.ts:60-82 | after a dispatch, the type's list is exactly the surviving records in registration order, the entry is gone if none survive, and the invariant holds |
| Dispatch.EmitOnceRule | lib/broadcaster.ts:66-81 | after a dispatch, an invoked `once` record's handler is no longer registered; every other record, including a `once` record skipped by the exclude-self rule, is still registered |
| Broadcasting.FindIndex | lib/broadcaster.ts:49 | returns -1 iff no record carries the handler; otherwise the index of the first record carrying it (the same search decides `some` at line 30) |
| Broadcasting.Broadcaster.constructor | lib/broadcaster.ts:17 | a new broadcaster has an empty map and satisfies the invariant |
| Broadcasting.Broadcaster.On | lib/broadcaster.ts:19-43 | keeps the invariant; the new map is `AfterOn` of the old one; the returned closure names this broadcaster, the type and the handler, also after a duplicate registration |
| Broadcasting.Broadcaster.Off | lib/broadcaster.ts:45-57 | keeps the invariant; the new map is `AfterOff` of the old one |
| Broadcasting.Unsubscribe | lib/broadcaster.ts:42 | calling the returned closure has exactly the effect of `off(type, handler)` on the broadcaster that returned it, and changes no other object |
| Broadcasting.Broadcaster.Emit | lib/broadcaster.ts:59-83 | keeps the invariant; the handlers invoked are the non-skipped records of the pre-dispatch snapshot, in order, whatever fails; failures are reported; the map is the old one after `off` of each invoked `once` handler; a type with no entry invokes nothing and changes nothing |
| Scenarios.OnceListenerFiresOnce | lib/broadcaster.ts:59-83 | a plain handler and a `once` handler: the first dispatch calls both, the second only the plain one |
| Scenarios.ExcludeSelfListener | lib/broadcaster.ts:66-75 | an exclude-self listener of component 1 is skipped for component 1's broadcast and called for component 2's or for one without a uid |

## Left out

- Reentrant dispatch: handlers never call `on`, `off` or `emit` of the broadcaster. The model captures the snapshot: the records `Emit` visits are fixed before its loop starts.
- Arrays changed in place: the listener lists are `seq` values written back into the map field. JavaScript array aliasing is unobservable without reentrancy.
- The `console.error` message at lib/broadcaster.ts:77: modelled only as the list of handlers whose failure was reported.
- Handler bodies and the payload `data`: handlers are opaque identities, and whether each one throws is an input.
- JavaScript numbers: the uid is an unbounded integer.
- lib/create.ts is not part of this model: it is Vue plumbing (injection, unmount hooks, warnings) that only forwards calls to `Broadcaster`. Its cleanup on unmount is repeated `off` calls.
- lib/main.ts, lib/types.ts and src/components/custom-domain/custom-broadcaster.ts are not part of this model: they only hold instantiations and type declarations.
