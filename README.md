# php-event-emitter, modelled in Dafny

A model of a small in-process publish/subscribe library. Listeners register
against an event name with an integer priority. `dispatch` calls them in
ascending priority, and within one priority in registration order. It stops
right after the first listener that returns exactly `false`, and it returns
the event it was given.

Files:

- `PriorityBuckets.dfy` (module `PriorityBuckets`): the registry of one event
  name. This is the PHP array priority => listeners that `ksort` keeps in key
  order. It is a strictly priority-sorted `seq<Bucket<L>>`; `AsMap` gives the
  keyed view. The module also holds the pure functions that specify the
  dispatcher's methods: `Added` (append, then `ksort`), `RemoveFirst` and
  `RemovedFromEach` (`array_search` + `unset`), `Flatten` and `Schedule`
  (the nested `foreach`), and `UntilStop` (the `break 2`). The lemmas about
  them are here too.
- `EventDispatcher.dfy` (module `Dispatcher`): class `EventDispatcher`. Its
  `listeners` field is a `map<string, seq<Bucket<L>>>` that `AddListener` and
  `RemoveListener` update in place. `Dispatch` runs the nested loop with
  `break break`. The module also holds `ArraySearch` and client methods,
  verified against the class contracts alone, that exercise concrete
  registrations.
- `Event.dfy` (module `Events`): the immutable event value.
- `ListenerProvider.dfy` (module `Provider`): the flat, priority-free registry.
- `EventDispatcherAware.dfy` (module `DispatcherAware`): the lazily-created
  dispatcher holder, written as a class.

Listeners are identity tokens of a type parameter `L` with equality. `==` on
`L` stands for PHP's `===` on callables. The value a listener returns is
given by an oracle `stops: L -> bool`: `stops(l)` holds exactly when calling
`l` returns `false`. `Dispatch` returns the event and also `invoked`, the
listeners called, in call order.

Two behaviours of the code that a reader might not expect:

- `hasListeners` is `!empty($this->listeners[$eventName])`. It tests for a
  priority bucket, not for a listener. Buckets are never pruned, so after
  every listener of a name is removed, `hasListeners` stays true.
  `Dispatcher.EmptiedBucketsStay` shows this on the "add at priorities 0 and
  1, remove once" case.
- `removeListener` removes only the first identical occurrence in each
  bucket, because `array_search` returns a single key. A listener added twice
  at one priority keeps one copy (`Dispatcher.OneRemovalOneCopy`).

## Model

| member | source | states |
|---|---|---|
| Events.NewEvent | Event.php:10-24 | the constructed event's `getName()` is exactly the given name (the empty name included, with no validation) and `getData()` is exactly the given payload |
| Events.DefaultPayloadIsEmpty | Event.php:10 | without a payload argument, `getData()` is the empty array |
| Events.EventRebuiltFromGetters | Event.php:16-24 | an event is fully determined by what its getters return: rebuilding it from them gives the same event |
| PriorityBuckets.AsMap | EventDispatcher.php:54-57 | the keys of the priority => listeners view are exactly the priorities present, empty buckets included |
| PriorityBuckets.AddedPriorities | EventDispatcher.php:11-12 | after append-and-`ksort` the priority keys are the old keys plus the new priority, whether or not it was present |
| PriorityBuckets.AddedSorted | EventDispatcher.php:11-12 | after append-and-`ksort` the priority keys are strictly ascending, and they are the old keys plus the new priority |
| PriorityBuckets.AddedAsMap | EventDispatcher.php:11-12 | after `addListener(n, l, p)` bucket `p` is the old bucket (empty if absent) with `l` appended last, and every other bucket is unchanged |
| PriorityBuckets.SortedArrangementUnique | EventDispatcher.php:12 | two key-sorted registries with the same priority => listeners view are equal |
| PriorityBuckets.AddedIsKsort | EventDispatcher.php:11-12 | every key-sorted arrangement of the appended map equals `Added`, so `Added` is exactly "append, then ksort" |
| PriorityBuckets.AddedAt | EventDispatcher.php:11-12 | where the key scan stops: append to the equal-priority bucket, or insert a new bucket before the first larger key |
| PriorityBuckets.AddedFlatten | EventDispatcher.php:11-44 | a registration adds exactly one occurrence of the listener to the dispatch walk |
| PriorityBuckets.AddedTwiceKeepsBoth | EventDispatcher.php:11 | no de-duplication: two registrations at one priority leave two copies at the end of the bucket and two more occurrences in the walk |
| PriorityBuckets.RemoveFirstAt | EventDispatcher.php:22-24 | when the listener first occurs at position k, exactly position k is deleted and the rest keep their order |
| PriorityBuckets.RemoveFirstAbsent | EventDispatcher.php:22-23 | when the listener is not in the bucket, the bucket is unchanged |
| PriorityBuckets.RemoveFirstMultiset | EventDispatcher.php:22-24 | one removal takes away exactly one copy of a present listener, never more |
| PriorityBuckets.RemovedKeepsPriorities | EventDispatcher.php:21-26 | removal keeps every priority key (emptied buckets stay) and keeps them sorted |
| PriorityBuckets.RemovedFromEachAsMap | EventDispatcher.php:21-26 | in the priority => listeners view, each bucket under the name loses its first copy of the listener, and no key appears or disappears |
| PriorityBuckets.ScheduleListeners | EventDispatcher.php:42-44 | the priority-tagged schedule visits exactly the flattened listeners |
| PriorityBuckets.ScheduleAscending | EventDispatcher.php:12-44 | in a sorted registry the walk visits listeners in non-decreasing priority |
| PriorityBuckets.ScheduleWithinPriority | EventDispatcher.php:11-44 | the listeners the walk visits at priority p are exactly bucket p, in registration order |
| PriorityBuckets.UntilStop | EventDispatcher.php:42-49 | the invoked listeners are a prefix of the walk; none before the last returns false; either the whole walk is invoked or the last one returned false |
| PriorityBuckets.UntilStopUnique | EventDispatcher.php:42-49 | those three properties determine the invoked prefix uniquely |
| PriorityBuckets.UntilStopPastNonStopping | EventDispatcher.php:45-46 | listeners that return anything other than false never end the walk |
| PriorityBuckets.InvokedInPriorityOrder | EventDispatcher.php:42-49 | the invoked listeners are exactly the listeners of the first entries of the priority-tagged schedule, and along those entries the priority never decreases |
| Dispatcher.ArraySearch | EventDispatcher.php:22 | strict `array_search`: returns the first position holding the listener, or reports that it is absent |
| Dispatcher.AddingKeepsWellFormed | EventDispatcher.php:11-12 | registration keeps every name non-empty and key-sorted |
| Dispatcher.RemovingKeepsWellFormed | EventDispatcher.php:21-26 | removal keeps every name non-empty and key-sorted |
| Dispatcher.EventDispatcher.constructor | EventDispatcher.php:7 | a new dispatcher has an empty registry |
| Dispatcher.EventDispatcher.GetListeners | EventDispatcher.php:54-57 | an unregistered name gives no buckets; the buckets returned are in ascending priority order; reading changes nothing |
| Dispatcher.EventDispatcher.HasListeners | EventDispatcher.php:29-32 | true exactly when the name has at least one priority key, whether or not any listener is left; for a valid registry, exactly when the name is registered |
| Dispatcher.EventDispatcher.AddListener | EventDispatcher.php:9-13 | the name's buckets become `Added` of the old ones and every other name is unchanged; bucket `p` gets the listener appended last; the registry stays sorted; `hasListeners` becomes true |
| Dispatcher.EventDispatcher.RemoveListener | EventDispatcher.php:15-27 | an unregistered name leaves the registry unchanged and creates no key; otherwise every bucket of the name loses its first copy of the listener and nothing else changes; `hasListeners` keeps its value |
| Dispatcher.EventDispatcher.Dispatch | EventDispatcher.php:34-52 | returns the event given; the listeners invoked are the name's priority-ordered walk up to and including the first that returns false; none when `hasListeners` is false; the registry is not modified |
| Dispatcher.LowerPriorityFirst | EventDispatcher.php:9-13 | listener 1 at priority 0 and listener 2 at priority -5 are invoked as [2, 1] |
| Dispatcher.FalseStopsPropagation | EventDispatcher.php:42-49 | a listener returning false at priority 0 prevents the listener at priority 1 from being invoked |
| Dispatcher.UnheardEventReturned | EventDispatcher.php:36-40 | dispatching an unregistered name invokes nothing and returns the event |
| Dispatcher.EmptiedBucketsStay | EventDispatcher.php:21-32 | one listener at priorities 0 and 1, removed once: both buckets remain, empty, and `hasListeners` is still true |
| Dispatcher.DuplicateCalledTwice | EventDispatcher.php:11-44 | a listener added twice at one priority is invoked twice |
| Dispatcher.OneRemovalOneCopy | EventDispatcher.php:11-24 | a listener added twice at one priority keeps one copy after a single removal |
| Dispatcher.RemoveUnknownName | EventDispatcher.php:17-19 | removing from an unregistered name does not register it |
| Provider.ListenerProvider.constructor | ListenerProvider.php:7 | a new provider has no listeners |
| Provider.ListenerProvider.GetListenersForEvent | ListenerProvider.php:14-17 | the name's list as stored, or the empty list for an unregistered name; reading changes nothing |
| Provider.ListenerProvider.AddListener | ListenerProvider.php:9-12 | the listener is appended last to the name's list (created if absent), and every other name's list is unchanged |
| Provider.AtDefaultPriority | ListenerProvider.php:11 | a flat list seen as one priority-0 bucket has the same walk, and it is a sorted registry |
| Provider.FlatIsDefaultPriority | ListenerProvider.php:9-12 | appending to the flat list is the same as adding at the default priority 0 of the priority registry |
| Provider.KeepsOrderAndDuplicates | ListenerProvider.php:9-17 | adding 1, 2, 1 under one name gives [1, 2, 1], and an unregistered name gives [] |
| DispatcherAware.EventDispatcherAware.constructor | EventDispatcherAwareTrait.php:7 | a new holder holds no dispatcher |
| DispatcherAware.EventDispatcherAware.SetEventDispatcher | EventDispatcherAwareTrait.php:9-12 | the held dispatcher is replaced unconditionally by the given one |
| DispatcherAware.EventDispatcherAware.GetEventDispatcher | EventDispatcherAwareTrait.php:14-20 | returns the held dispatcher; with none held, creates a fresh one with an empty registry and keeps it |
| DispatcherAware.EventDispatcherAware.Dispatch | EventDispatcherAwareTrait.php:22-25 | forwards to the (lazily created) dispatcher: returns the event, and the listeners invoked are that dispatcher's walk up to the first false |
| DispatcherAware.LazyDispatcherIsKept | EventDispatcherAwareTrait.php:14-20 | two reads with no set in between return the same dispatcher |
| DispatcherAware.SetThenGet | EventDispatcherAwareTrait.php:9-25 | after `setEventDispatcher(d)`, `getEventDispatcher()` returns `d`, and `dispatch` reaches `d`'s listeners |
| DispatcherAware.FirstDispatchCreatesEmpty | EventDispatcherAwareTrait.php:16-25 | a holder without a dispatcher forwards to a fresh empty one: nothing is invoked and the event comes back |

## Left out

- Example.php is not part of this model: it is a demo script. It prints with `echo` and has no logic of its own.
- What listeners do when called is not modelled. A listener is an identity token, and its return value is the `stops` oracle.
- Dispatcher.EventDispatcher.Dispatch: the oracle gives each listener one fixed answer for the whole dispatch. A PHP listener registered twice could return `false` on one call and something else on the other.
- PHP callable identity (`===` on closures and `[$object, 'method']` arrays) is abstracted as equality of tokens.
- A listener that adds or removes listeners while `dispatch` is walking them is not guarded against in the source. The model's dispatch reads the registry once and has no way to change it.
- Exceptions thrown by listeners are not modelled. In the source they leave `dispatch` and skip the remaining listeners.
- Events.NewEvent: the payload is a `map<ArrayKey, V>`, so "getData() is exactly the given payload" holds up to key order. Nothing in the dispatcher inspects the payload; a listener iterating `getData()` would see the PHP insertion order, which the map does not keep.
- PHP arrays are ordered maps with integer keys. Inside a bucket the model keeps a `seq`, and `unset` deletes the position. Key gaps left by `unset`, and the keys that later appends pick, are not modelled. They do not change iteration order.
- `ksort` is modelled by its result, not as a general sort. Before the append the keys are already sorted, so the new key is inserted at its place. `AddedIsKsort` proves that this is the only key-sorted arrangement.
- Events are values, not objects. "Returns the same instance" becomes "returns an equal event".
- `getListeners` returns the sorted bucket sequence; `AsMap` gives its keyed view.
- The PHP trait is a class of its own. `setEventDispatcher` requires the given dispatcher to satisfy the class invariant, which every dispatcher built by the constructor does. The trait's `dispatch` is `protected`; the model makes it public.
