/** The "dispatcher aware" mix-in: an object that holds a dispatcher,
    creates one on first use when none was given, and forwards `dispatch`
    to it. The PHP trait is modelled as a class of its own. */
module DispatcherAware {
  import opened Events
  import opened PriorityBuckets
  import opened Dispatcher

  class EventDispatcherAware<L(==)> {
    /** `$eventDispatcher`: null until set or first used. */
    var eventDispatcher: EventDispatcher?<L>

    ghost predicate Valid()
      reads this, eventDispatcher
    {
      eventDispatcher != null ==> eventDispatcher.Valid()
    }

    constructor ()
      ensures Valid()
      ensures eventDispatcher == null
    {
      eventDispatcher := null;
    }

    /** `setEventDispatcher($eventDispatcher)`: replaces whatever was held. */
    method SetEventDispatcher(d: EventDispatcher<L>)
      requires d.Valid()
      modifies this
      ensures Valid()
      ensures eventDispatcher == d
    {
      eventDispatcher := d;
    }

    /** `getEventDispatcher()`: the held dispatcher; when there is none, a
        new one with an empty registry is created and kept. */
    method GetEventDispatcher() returns (d: EventDispatcher<L>)
      requires Valid()
      modifies this
      ensures Valid()
      ensures eventDispatcher == d
      ensures old(eventDispatcher) != null ==> d == old(eventDispatcher)
      ensures old(eventDispatcher) == null ==> fresh(d) && d.listeners == map[]
    {
      if eventDispatcher == null {
        eventDispatcher := new EventDispatcher();
      }
      d := eventDispatcher;
    }

    /** `dispatch($event)`: fetch the dispatcher as `getEventDispatcher()`
        does, then hand the event to it. */
    method Dispatch<V>(event: Event<V>, stops: L -> bool) returns (result: Event<V>, invoked: seq<L>)
      requires Valid()
      modifies this
      ensures Valid() && eventDispatcher != null
      ensures old(eventDispatcher) != null ==> eventDispatcher == old(eventDispatcher)
      ensures old(eventDispatcher) == null ==> fresh(eventDispatcher) && eventDispatcher.listeners == map[]
      ensures result == event
      ensures invoked == UntilStop(Flatten(eventDispatcher.GetListeners(event.GetName())), stops)
    {
      var d := GetEventDispatcher();
      result, invoked := d.Dispatch(event, stops);
    }
  }

  /** Two reads without a set in between give the same dispatcher. */
  method LazyDispatcherIsKept() returns (same: bool)
    ensures same
  {
    var holder := new EventDispatcherAware<int>();
    var first := holder.GetEventDispatcher();
    var second := holder.GetEventDispatcher();
    same := first == second;
  }

  /** After a set, the dispatcher read back is the one that was set, and
      forwarding reaches its listeners. */
  method SetThenGet() returns (same: bool, invoked: seq<int>)
    ensures same
    ensures invoked == [1]
  {
    var d := new EventDispatcher<int>();
    d.AddListener("x", 1);
    var holder := new EventDispatcherAware<int>();
    var created := holder.GetEventDispatcher();
    holder.SetEventDispatcher(d);
    var got := holder.GetEventDispatcher();
    same := got == d;
    var e: Event<int> := NewEvent("x");
    var returned;
    returned, invoked := holder.Dispatch(e, (l: int) => false);
  }

  /** A holder that never had a dispatcher forwards to a fresh, empty one:
      nothing is called and the event comes back. */
  method FirstDispatchCreatesEmpty(data: map<ArrayKey, int>) returns (returned: Event<int>, invoked: seq<int>)
    ensures returned == NewEvent("x", data)
    ensures invoked == []
  {
    var holder := new EventDispatcherAware<int>();
    returned, invoked := holder.Dispatch(NewEvent("x", data), (l: int) => true);
  }
}
