/** `ChronicleError` (src/ChronicleError/index.ts): an error value that owns
    one class-based chronicle and forwards every history operation to it.
    It is modelled by composition: the error part keeps only its message. */
module ChronicleErrorClass {
  import opened History
  import ChronicleClass

  class ChronicleError<E, P> {
    const message: string
    const chronicle: ChronicleClass.Chronicle<E, P>

    ghost predicate Valid()
      reads this, chronicle
    {
      chronicle.Valid()
    }

    /** Builds the owned chronicle from the same initial event, comparator
        and callback, so the callback hears about the initial event at once. */
    constructor (initialEvent: E, errorMessage: string, comparator: (E, P) -> bool, onAddEvent: bool,
                 id: string, truthy: E -> bool)
      ensures Valid() && fresh(chronicle) && message == errorMessage
      ensures GetCurrentEvent() == initialEvent && GetPastEvents() == [] && GetAllEvents() == [initialEvent]
      ensures chronicle.comparator == comparator && chronicle.onAddEvent == onAddEvent && GetId() == id
      ensures chronicle.truthy == truthy
      ensures chronicle.notifications ==
        if onAddEvent then [ChronicleClass.Notification(InstanceListener, initialEvent, id, [initialEvent])] else []
    {
      message := errorMessage;
      chronicle := new ChronicleClass.Chronicle(initialEvent, comparator, onAddEvent, id, truthy);
    }

    /** Exactly the owned chronicle's `addEvent`. */
    method AddEvent(newEvent: E, localCallback: bool)
      requires Valid()
      modifies chronicle
      ensures Valid()
      ensures GetCurrentEvent() == newEvent && GetPastEvents() == old(GetAllEvents())
      ensures GetAllEvents() == [newEvent] + old(GetAllEvents())
      ensures chronicle.installed == old(chronicle.installed) + [newEvent]
      ensures chronicle.notifications == old(chronicle.notifications)
        + (if chronicle.onAddEvent
           then [ChronicleClass.Notification(InstanceListener, newEvent, chronicle.id, GetAllEvents())] else [])
        + (if localCallback
           then [ChronicleClass.Notification(LocalListener, newEvent, chronicle.id, GetAllEvents())] else [])
    {
      chronicle.AddEvent(newEvent, localCallback);
    }

    /** The owned chronicle's current event: the one installed last. */
    function GetCurrentEvent(): (e: E)
      reads this, chronicle
      requires Valid()
      ensures e == chronicle.currentEvent && e == chronicle.installed[|chronicle.installed| - 1]
    {
      chronicle.GetCurrentEvent()
    }

    /** The owned chronicle's past events, newest first. */
    function GetPastEvents(): (past: seq<E>)
      reads this, chronicle
      requires Valid()
      ensures past == chronicle.pastEvents
      ensures past == Reverse(chronicle.installed[..|chronicle.installed| - 1])
    {
      chronicle.GetPastEvents()
    }

    /** Rebuilt here from the owned chronicle's two getters, it is the same
        history the chronicle's own `getAllEvents` gives. */
    function GetAllEvents(): (all: seq<E>)
      reads this, chronicle
      requires Valid()
      ensures all == chronicle.GetAllEvents() && all == Reverse(chronicle.installed)
    {
      [chronicle.GetCurrentEvent()] + chronicle.GetPastEvents()
    }

    /** The owned chronicle's id, fixed when it was built. */
    function GetId(): (r: string)
      reads this, chronicle
      ensures r == chronicle.id
    {
      chronicle.GetId()
    }

    /** The owned chronicle's membership answer: never a false positive, and
        exact when every stored event is truthy. */
    function Includes(probe: P): (r: bool)
      reads this, chronicle
      requires Valid()
      ensures r == chronicle.Includes(probe)
      ensures r ==> Contains(GetAllEvents(), probe, chronicle.comparator)
      ensures var all := GetAllEvents();
        (forall i :: 0 <= i < |all| ==> chronicle.truthy(all[i])) ==>
          (r <==> Contains(all, probe, chronicle.comparator))
    {
      chronicle.Includes(probe)
    }

    /** Exactly the owned chronicle's transform, which `map` calls with each
        event, its index in the full history and the full history: all of
        the map or none of it. */
    method TransformInternalEvents<X>(transformer: (E, nat, seq<E>) -> Result<E, X>) returns (r: Result<seq<E>, X>)
      requires Valid()
      modifies chronicle
      ensures Valid()
      ensures r == MapIndexed(transformer, old(GetAllEvents()))
      ensures r.Err? ==> unchanged(chronicle)
      ensures r.Ok? ==> GetAllEvents() == r.value && |chronicle.installed| == |old(chronicle.installed)|
      ensures r.Ok? ==> forall i :: 0 <= i < |chronicle.installed| ==>
        transformer(old(chronicle.installed)[i], |chronicle.installed| - 1 - i, old(GetAllEvents()))
          == Ok(chronicle.installed[i])
      ensures chronicle.notifications == old(chronicle.notifications)
    {
      r := chronicle.TransformInternalEvents(transformer);
    }
  }

  /** With an instance callback, construction and one append notify it
      exactly twice, with the event and the same id each time. */
  method CallbackScenario(id: string) returns (e: ChronicleError<string, string>)
    ensures e.chronicle.notifications == [
      ChronicleClass.Notification(InstanceListener, "First event", id, ["First event"]),
      ChronicleClass.Notification(InstanceListener, "Second event", id, ["Second event", "First event"])]
  {
    e := new ChronicleError("First event", "Error!", ChronicleClass.ChooseComparator(None, ChronicleClass.SameType), true, id,
                            ChronicleClass.StringTruthy);
    e.AddEvent("Second event", false);
    assert e.GetAllEvents() == ["Second event", "First event"];
  }

  /** Appending to the error value orders its history newest-first, exactly
      as for a standalone chronicle. */
  method NewestFirstScenario() returns (past: seq<string>, all: seq<string>)
    ensures past == ["Third event", "Second event", "First event"]
    ensures all == ["Current event", "Third event", "Second event", "First event"]
  {
    var e := new ChronicleError("First event", "Error!", ChronicleClass.ChooseComparator(None, ChronicleClass.SameType), false, "id",
                                ChronicleClass.StringTruthy);
    e.AddEvent("Second event", false);
    e.AddEvent("Third event", false);
    e.AddEvent("Current event", false);
    past := e.GetPastEvents();
    all := e.GetAllEvents();
  }
}
