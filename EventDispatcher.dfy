/** The priority-ordered dispatcher: a registry event name => priority =>
    listeners, updated in place by `addListener`/`removeListener` and walked
    by `dispatch`.

    Listeners are identity tokens of type `L`; `==` on `L` is PHP's `===` on
    callables. What a listener returns when it is called is given by the
    oracle `stops`: `stops(l)` holds exactly when `l` returns `false`. */
module Dispatcher {
  import opened Events
  import opened PriorityBuckets

  /** `array_search($needle, $haystack, true)`: the first position holding
      `x`, or `found == false` when there is none. */
  method ArraySearch<L(==)>(s: seq<L>, x: L) returns (found: bool, key: nat)
    ensures found ==> key < |s| && s[key] == x && x !in s[..key]
    ensures !found <==> x !in s
  {
    key := 0;
    while key < |s|
      invariant key <= |s|
      invariant x !in s[..key]
    {
      if s[key] == x {
        return true, key;
      }
      assert s[..key + 1] == s[..key] + [s[key]];
      key := key + 1;
    }
    assert s[..key] == s;
    found := false;
  }

  /** The shape every registry keeps: every name that is present has at
      least one bucket (only `addListener` creates names, and it always
      creates a bucket), and its buckets are in ascending priority order
      (`ksort`). */
  ghost predicate WellFormed<L>(registry: map<string, seq<Bucket<L>>>) {
    forall n :: n in registry ==> registry[n] != [] && StrictlySorted(registry[n])
  }

  lemma AddingKeepsWellFormed<L>(registry: map<string, seq<Bucket<L>>>, n: string, p: int, l: L)
    requires WellFormed(registry)
    ensures WellFormed(registry[n := Added(if n in registry then registry[n] else [], p, l)])
  {
    AddedSorted(if n in registry then registry[n] else [], p, l);
  }

  lemma RemovingKeepsWellFormed<L>(registry: map<string, seq<Bucket<L>>>, n: string, l: L)
    requires WellFormed(registry) && n in registry
    ensures WellFormed(registry[n := RemovedFromEach(registry[n], l)])
  {
    RemovedKeepsPriorities(registry[n], l);
  }

  class EventDispatcher<L(==)> {
    /** `$listeners`: each registered event name with its priority buckets. */
    var listeners: map<string, seq<Bucket<L>>>

    ghost predicate Valid()
      reads this
    {
      WellFormed(listeners)
    }

    constructor ()
      ensures Valid()
      ensures listeners == map[]
    {
      listeners := map[];
    }

    /** `getListeners($eventName)`: the buckets of the name, in ascending
        priority, or none when the name is unregistered. */
    function GetListeners(eventName: string): (r: seq<Bucket<L>>)
      reads this
      ensures eventName !in listeners ==> r == []
      ensures Valid() ==> StrictlySorted(r)
    {
      if eventName in listeners then listeners[eventName] else []
    }

    /** `hasListeners($eventName)`: whether the name has a priority bucket at
        all. The buckets may all be empty: no listener need remain. */
    function HasListeners(eventName: string): (b: bool)
      reads this
      ensures b <==> Priorities(GetListeners(eventName)) != {}
      ensures Valid() ==> (b <==> eventName in listeners)
    {
      eventName in listeners && listeners[eventName] != []
    }

    /** `addListener($eventName, $listener, $priority = 0)`: append to the
        bucket (creating name and bucket as needed), then `ksort`. */
    method AddListener(eventName: string, listener: L, priority: int := 0)
      requires Valid()
      modifies this
      ensures Valid()
      ensures listeners == old(listeners)[eventName := Added(old(GetListeners(eventName)), priority, listener)]
      ensures AsMap(GetListeners(eventName)) ==
        old(AsMap(GetListeners(eventName)))[priority := old(BucketAt(GetListeners(eventName), priority)) + [listener]]
      ensures HasListeners(eventName)
    {
      var buckets := if eventName in listeners then listeners[eventName] else [];
      // Where ksort puts the priority key: after every smaller key.
      var i := 0;
      while i < |buckets| && buckets[i].priority < priority
        invariant i <= |buckets|
        invariant forall k :: 0 <= k < i ==> buckets[k].priority < priority
      {
        i := i + 1;
      }
      AddedAt(buckets, priority, listener, i);
      if i < |buckets| && buckets[i].priority == priority {
        buckets := buckets[i := Bucket(priority, buckets[i].listeners + [listener])];
      } else {
        buckets := buckets[..i] + [Bucket(priority, [listener])] + buckets[i..];
      }
      AddingKeepsWellFormed(listeners, eventName, priority, listener);
      AddedAsMap(old(GetListeners(eventName)), priority, listener);
      listeners := listeners[eventName := buckets];
    }

    /** `removeListener($eventName, $listener)`: nothing when the name is
        unregistered; otherwise, in every bucket of the name, the first
        identical listener is unset. Emptied buckets stay. */
    method RemoveListener(eventName: string, listener: L)
      requires Valid()
      modifies this
      ensures Valid()
      ensures eventName !in old(listeners) ==> listeners == old(listeners)
      ensures eventName in old(listeners) ==>
        listeners == old(listeners)[eventName := RemovedFromEach(old(listeners)[eventName], listener)]
      ensures HasListeners(eventName) == old(HasListeners(eventName))
    {
      if eventName !in listeners {
        return;
      }
      // `foreach` walks a copy of the buckets while the registry is updated.
      var buckets := listeners[eventName];
      var i := 0;
      assert RemovedFromEach(buckets[..0], listener) + buckets[0..] == buckets;
      while i < |buckets|
        invariant i <= |buckets|
        invariant eventName in listeners
        invariant listeners == old(listeners)[eventName := listeners[eventName]]
        invariant listeners[eventName] == RemovedFromEach(buckets[..i], listener) + buckets[i..]
      {
        var bucket := buckets[i];
        RemovedFromEachStep(buckets, i, listener);
        var found, key := ArraySearch(bucket.listeners, listener);
        if found {
          RemoveFirstAt(bucket.listeners, listener, key);
          var kept := bucket.listeners[..key] + bucket.listeners[key + 1..];
          listeners := listeners[eventName := listeners[eventName][i := Bucket(bucket.priority, kept)]];
        } else {
          RemoveFirstAbsent(bucket.listeners, listener);
          assert listeners[eventName][i] == bucket;
        }
        i := i + 1;
      }
      assert buckets[..i] == buckets;
      assert listeners[eventName] == RemovedFromEach(buckets, listener);
      RemovingKeepsWellFormed(old(listeners), eventName, listener);
      assert |listeners[eventName]| == |buckets|;
    }

    /** `dispatch($event)`: call the listeners of the event's name in
        ascending priority, each bucket in registration order, and stop right
        after the first one that returns `false`. The event itself is
        returned; `invoked` records the calls in the order they were made. */
    method Dispatch<V>(event: Event<V>, stops: L -> bool) returns (result: Event<V>, invoked: seq<L>)
      ensures result == event
      ensures invoked == UntilStop(Flatten(GetListeners(event.GetName())), stops)
      ensures !HasListeners(event.GetName()) ==> invoked == []
    {
      var eventName := event.GetName();
      invoked := [];
      if !HasListeners(eventName) {
        return event, invoked;
      }
      var buckets := listeners[eventName];
      var i := 0;
      while i < |buckets|
        invariant i <= |buckets|
        invariant invoked == Flatten(buckets[..i])
        invariant NoneStops(invoked, stops)
      {
        var bucket := buckets[i].listeners;
        var j := 0;
        while j < |bucket|
          invariant j <= |bucket|
          invariant invoked == Flatten(buckets[..i]) + bucket[..j]
          invariant NoneStops(invoked, stops)
        {
          var listener := bucket[j];
          ghost var walked := invoked;
          invoked := invoked + [listener];
          assert bucket[..j + 1] == bucket[..j] + [listener];
          if stops(listener) {
            // `break 2`: the rest of the walk is never reached.
            StopInsideBucket(buckets, i, j, stops);
            break break;
          }
          NoneStopsExtended(walked, listener, stops);
          j := j + 1;
        }
        assert bucket[..j] == bucket;
        FlattenPrefixStep(buckets, i);
        i := i + 1;
      }
      if i == |buckets| {
        assert buckets[..i] == buckets;
        UntilStopPastNonStopping(invoked, [], stops);
        assert invoked + [] == invoked;
      }
      result := event;
    }
  }

  // -----------------------------------------------------------------------
  // Client methods, verified against the class contracts alone, that
  // exercise concrete registrations. Listeners are integers.
  // -----------------------------------------------------------------------

  /** A lower priority runs first: listener 1 at priority 0 and listener 2
      at priority -5 are called as [2, 1]. */
  method LowerPriorityFirst() returns (invoked: seq<int>)
    ensures invoked == [2, 1]
  {
    var d := new EventDispatcher<int>();
    d.AddListener("x", 1);
    assert d.GetListeners("x") == [Bucket(0, [1])];
    d.AddListener("x", 2, -5);
    var registered := [Bucket(-5, [2]), Bucket(0, [1])];
    assert d.GetListeners("x") == registered;
    assert registered[1..][1..] == [];
    assert Flatten(registered) == [2, 1];
    var e: Event<int> := NewEvent("x");
    var returned;
    returned, invoked := d.Dispatch(e, (l: int) => false);
  }

  /** A listener that returns `false` ends the dispatch: listener 2 at a
      later priority is never called. */
  method FalseStopsPropagation() returns (invoked: seq<int>)
    ensures invoked == [1]
  {
    var d := new EventDispatcher<int>();
    d.AddListener("x", 1, 0);
    d.AddListener("x", 2, 1);
    var e: Event<int> := NewEvent("x");
    var returned;
    returned, invoked := d.Dispatch(e, (l: int) => l == 1);
  }

  /** Dispatching a name nobody listens to calls nothing and hands back the
      event it was given. */
  method UnheardEventReturned(data: map<ArrayKey, int>) returns (returned: Event<int>, invoked: seq<int>)
    ensures returned == NewEvent("y", data) && invoked == []
  {
    var d := new EventDispatcher<int>();
    d.AddListener("x", 1);
    returned, invoked := d.Dispatch(NewEvent("y", data), (l: int) => false);
  }

  /** The same listener at priorities 0 and 1, removed once: both buckets
      are emptied but stay, so `hasListeners` still answers true. */
  method EmptiedBucketsStay() returns (has: bool, buckets: seq<Bucket<int>>, invoked: seq<int>)
    ensures has
    ensures buckets == [Bucket(0, []), Bucket(1, [])]
    ensures invoked == []
  {
    var d := new EventDispatcher<int>();
    d.AddListener("x", 7, 0);
    assert d.GetListeners("x") == [Bucket(0, [7])];
    d.AddListener("x", 7, 1);
    assert d.GetListeners("x") == [Bucket(0, [7]), Bucket(1, [7])];
    assert RemoveFirst([7], 7) == [];
    d.RemoveListener("x", 7);
    var emptied := [Bucket(0, []), Bucket(1, [])];
    assert RemovedFromEach([Bucket(0, [7]), Bucket(1, [7])], 7) == emptied;
    assert d.GetListeners("x") == emptied;
    assert emptied[1..][1..] == [];
    assert Flatten(emptied) == [];
    has := d.HasListeners("x");
    buckets := d.GetListeners("x");
    var e: Event<int> := NewEvent("x");
    var returned;
    returned, invoked := d.Dispatch(e, (l: int) => false);
  }

  /** Registered twice at one priority, a listener is called twice. */
  method DuplicateCalledTwice() returns (invoked: seq<int>)
    ensures invoked == [7, 7]
  {
    var d := RegisteredTwice();
    var twice := [Bucket(0, [7, 7])];
    assert Flatten(twice) == [7, 7] by {
      assert twice[1..] == [];
    }
    var e: Event<int> := NewEvent("x");
    var returned;
    returned, invoked := d.Dispatch(e, (l: int) => false);
  }

  /** Registered twice at one priority, a listener keeps one copy after a
      single removal. */
  method OneRemovalOneCopy() returns (buckets: seq<Bucket<int>>)
    ensures buckets == [Bucket(0, [7])]
  {
    var d := RegisteredTwice();
    assert RemoveFirst([7, 7], 7) == [7];
    assert RemovedFromEach([Bucket(0, [7, 7])], 7) == [Bucket(0, [7])];
    d.RemoveListener("x", 7);
    buckets := d.GetListeners("x");
  }

  /** A fresh dispatcher with the same listener added twice to "x" at the
      default priority: both copies share one bucket. */
  method RegisteredTwice() returns (d: EventDispatcher<int>)
    ensures fresh(d) && d.Valid()
    ensures d.listeners == map["x" := [Bucket(0, [7, 7])]]
  {
    d := new EventDispatcher<int>();
    var once := [Bucket(0, [7])];
    assert Added([], 0, 7) == once;
    d.AddListener("x", 7);
    assert d.listeners == map["x" := once];
    assert Added(once, 0, 7) == [Bucket(0, [7, 7])] by {
      assert once[1..] == [];
      assert [7] + [7] == [7, 7];
    }
    d.AddListener("x", 7);
  }

  /** Removing from a name that was never registered creates nothing. */
  method RemoveUnknownName() returns (has: bool)
    ensures !has
  {
    var d := new EventDispatcher<int>();
    d.AddListener("x", 1);
    d.RemoveListener("y", 1);
    has := d.HasListeners("y");
  }
}
