/** The event object handed to `dispatch`: a name and a payload, both fixed
    when the event is built and only read afterwards. */
module Events {

  /** A PHP array key: an integer or a string. */
  datatype ArrayKey = IntKey(i: int) | StringKey(s: string)

  /** An event. `V` stands for whatever values the payload carries; nothing
      in the dispatcher looks inside it. */
  datatype Event<V> = Event(name: string, data: map<ArrayKey, V>) {

    /** `getName()` */
    function GetName(): string {
      name
    }

    /** `getData()` */
    function GetData(): map<ArrayKey, V> {
      data
    }
  }

  /** `new Event($name, $data = [])`: stores both arguments as given, with no
      check on the name (the empty name is accepted). */
  function NewEvent<V>(name: string, data: map<ArrayKey, V> := map[]): (e: Event<V>)
    ensures e.GetName() == name
    ensures e.GetData() == data
  {
    Event(name, data)
  }

  /** An event is nothing more than what its two getters report: rebuilding
      it from them gives the same event back. */
  lemma EventRebuiltFromGetters<V>(e: Event<V>)
    ensures NewEvent(e.GetName(), e.GetData()) == e
  {
  }

  /** Without a payload argument the payload is the empty array. */
  lemma DefaultPayloadIsEmpty<V>(name: string)
    ensures NewEvent<V>(name).GetData() == map[]
    ensures NewEvent<V>(name).GetName() == name
  {
  }
}
