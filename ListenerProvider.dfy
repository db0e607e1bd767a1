/** The flat listener registry: event name => listeners in registration
    order, with no priorities and no removal. */
module Provider {
  import opened PriorityBuckets

  class ListenerProvider<L> {
    /** `$listeners`: each registered event name with its listeners. */
    var listeners: map<string, seq<L>>

    constructor ()
      ensures listeners == map[]
    {
      listeners := map[];
    }

    /** `getListenersForEvent($eventName)`: the name's listeners in the order
        they were added, or none when the name is unregistered. */
    function GetListenersForEvent(eventName: string): (r: seq<L>)
      reads this
      ensures eventName in listeners ==> r == listeners[eventName]
      ensures eventName !in listeners ==> r == []
    {
      if eventName in listeners then listeners[eventName] else []
    }

    /** `addListener($eventName, $listener)`: append, creating the list when
        the name is new; duplicates are kept. */
    method AddListener(eventName: string, listener: L)
      modifies this
      ensures listeners.Keys == old(listeners.Keys) + {eventName}
      ensures GetListenersForEvent(eventName) == old(GetListenersForEvent(eventName)) + [listener]
      ensures forall n :: n != eventName ==> GetListenersForEvent(n) == old(GetListenersForEvent(n))
    {
      listeners := listeners[eventName := GetListenersForEvent(eventName) + [listener]];
    }
  }

  /** A flat list seen as the priority registry with everything at the
      default priority 0. */
  function AtDefaultPriority<L>(s: seq<L>): (bs: seq<Bucket<L>>)
    ensures Flatten(bs) == s
    ensures StrictlySorted(bs)
  {
    if s == [] then [] else [Bucket(0, s)]
  }

  /** The flat registry does what the priority registry does when every
      listener is added at the default priority: appending to the flat list
      is adding at priority 0. */
  lemma FlatIsDefaultPriority<L>(s: seq<L>, l: L)
    ensures Added(AtDefaultPriority(s), 0, l) == AtDefaultPriority(s + [l])
    ensures Flatten(Added(AtDefaultPriority(s), 0, l)) == s + [l]
  {
    if s == [] {
      assert s + [l] == [l];
    } else {
      assert AtDefaultPriority(s)[1..] == [];
    }
  }

  /** Registration order is kept, and so are duplicates. */
  method KeepsOrderAndDuplicates() returns (registered: seq<int>, unregistered: seq<int>)
    ensures registered == [1, 2, 1]
    ensures unregistered == []
  {
    var p := new ListenerProvider<int>();
    p.AddListener("x", 1);
    p.AddListener("x", 2);
    p.AddListener("y", 3);
    p.AddListener("x", 1);
    registered := p.GetListenersForEvent("x");
    unregistered := p.GetListenersForEvent("z");
  }
}
