/** The closure-based chronicle (src/chronicle.ts): `createChronicle`
    captures `currentEvent` and `pastEvents` and returns an object whose
    methods reassign them. It has no id and no comparator. It clones the
    initial and added events it stores, what its getters return, and the
    array its transform returns; the local callback gets the caller's event
    and the transformed events are stored as they are. Events here are
    values, so a clone is the value itself. */
module ClosureChronicle {
  import opened History

  /** One callback invocation: which callback ran, with which event, and the
      full history it would see if it queried the chronicle at that moment.
      This variant passes no id. */
  datatype Notification<E> = Notification(listener: Listener, event: E, observed: seq<E>)

  class Chronicle<E> {
    var currentEvent: E
    var pastEvents: seq<E>
    /** Whether the caller's `options` object holds an `onAddEvent` right now.
        The closure keeps a reference to that object and reads the field again
        on every append, so the caller can change it after construction. */
    var onAddEvent: bool

    /** Every event ever installed as current, oldest first. */
    ghost var installed: seq<E>
    /** The callbacks run so far, in order. */
    ghost var notifications: seq<Notification<E>>

    ghost predicate Valid()
      reads this
    {
      installed != [] && [currentEvent] + pastEvents == Reverse(installed)
    }

    /** `createChronicle(initialEvent, options)` and its `initialize` step:
        the initial event becomes current, the past is empty, and the
        instance callback, if any, is told about the initial event. */
    constructor (initialEvent: E, onAddEvent: bool)
      ensures Valid()
      ensures currentEvent == initialEvent && pastEvents == [] && installed == [initialEvent]
      ensures this.onAddEvent == onAddEvent
      ensures notifications == if onAddEvent then [Notification(InstanceListener, initialEvent, [initialEvent])] else []
    {
      currentEvent := initialEvent;
      pastEvents := [];
      this.onAddEvent := onAddEvent;
      installed := [initialEvent];
      notifications := if onAddEvent then [Notification(InstanceListener, initialEvent, [initialEvent])] else [];
    }

    /** Move the old current to the front of the past, install the new
        event, then tell the instance callback and the local one, each with
        the event only. */
    method AddEvent(newEvent: E, localCallback: bool)
      requires Valid()
      modifies this
      ensures Valid()
      ensures pastEvents == [old(currentEvent)] + old(pastEvents) && currentEvent == newEvent
      ensures installed == old(installed) + [newEvent]
      ensures GetAllEvents() == [newEvent] + old(GetAllEvents())
      ensures onAddEvent == old(onAddEvent)
      ensures notifications == old(notifications)
        + (if onAddEvent then [Notification(InstanceListener, newEvent, GetAllEvents())] else [])
        + (if localCallback then [Notification(LocalListener, newEvent, GetAllEvents())] else [])
    {
      pastEvents := [currentEvent] + pastEvents;
      currentEvent := newEvent;
      ReverseSnoc(installed, newEvent);
      installed := installed + [newEvent];

      if onAddEvent {
        notifications := notifications + [Notification(InstanceListener, newEvent, [currentEvent] + pastEvents)];
      }
      if localCallback {
        notifications := notifications + [Notification(LocalListener, newEvent, [currentEvent] + pastEvents)];
      }
    }

    /** The caller assigns or deletes `onAddEvent` on the options object it
        passed in: later appends run the new callback, or none. The history
        and the notifications so far are untouched. */
    method SetOptionsCallback(present: bool)
      modifies this
      ensures onAddEvent == present
      ensures currentEvent == old(currentEvent) && pastEvents == old(pastEvents)
      ensures installed == old(installed) && notifications == old(notifications)
    {
      onAddEvent := present;
    }

    /** A copy of the current event: the one installed last. */
    function GetCurrentEvent(): (e: E)
      reads this
      requires Valid()
      ensures e == installed[|installed| - 1]
    {
      ReverseAt(installed, 0);
      currentEvent
    }

    /** A copy of the past events: every earlier installation, newest first. */
    function GetPastEvents(): (past: seq<E>)
      reads this
      requires Valid()
      ensures past == Reverse(installed[..|installed| - 1])
    {
      assert pastEvents == ([currentEvent] + pastEvents)[1..];
      pastEvents
    }

    /** A copy of the full history: every installation newest first. */
    function GetAllEvents(): (all: seq<E>)
      reads this
      requires Valid()
      ensures all == Reverse(installed) && |all| == |installed| >= 1
      ensures all[0] == currentEvent && all[1..] == pastEvents
    {
      [currentEvent] + pastEvents
    }

    /** Map a copy of the full history through `transformer`, then make the
        head the current event and the tail the past. The state is assigned
        only once the whole map has succeeded. */
    method TransformInternalEvents<X>(transformer: E -> Result<E, X>) returns (r: Result<seq<E>, X>)
      requires Valid()
      modifies this
      ensures Valid()
      ensures r == MapAll(transformer, old(GetAllEvents()))
      ensures r.Err? ==> unchanged(this)
      ensures r.Ok? ==> currentEvent == r.value[0] && pastEvents == r.value[1..]
      ensures r.Ok? ==> |installed| == |old(installed)|
      ensures r.Ok? ==> forall i :: 0 <= i < |installed| ==> transformer(old(installed)[i]) == Ok(installed[i])
      ensures notifications == old(notifications) && onAddEvent == old(onAddEvent)
    {
      var transformed := MapAll(transformer, GetAllEvents());
      if transformed.Ok? {
        var events := transformed.value;
        ghost var before := installed;
        currentEvent := events[0];
        pastEvents := events[1..];
        ReverseReverse(events);
        installed := Reverse(events);
        forall i | 0 <= i < |installed|
          ensures transformer(before[i]) == Ok(installed[i])
        {
          ReverseAt(events, i);
          ReverseAt(before, |before| - 1 - i);
        }
      }
      r := transformed;
    }
  }

  /** Appending three events to a first one orders the past and the full
      history newest-first in every position. */
  method NewestFirstScenario() returns (past: seq<string>, all: seq<string>)
    ensures past == ["Third event", "Second event", "First event"]
    ensures all == ["Current event", "Third event", "Second event", "First event"]
  {
    var c := new Chronicle("First event", false);
    c.AddEvent("Second event", false);
    c.AddEvent("Third event", false);
    c.AddEvent("Current event", false);
    past := c.GetPastEvents();
    all := c.GetAllEvents();
  }

  /** A callback added to the options object after construction is run by
      the next append, and removing it again silences the one after. */
  method OptionsCallbackScenario() returns (c: Chronicle<string>)
    ensures c.notifications == [Notification(InstanceListener, "Second event", ["Second event", "First event"])]
  {
    c := new Chronicle("First event", false);
    c.SetOptionsCallback(true);
    assert c.GetAllEvents() == ["First event"];
    c.AddEvent("Second event", false);
    assert c.GetAllEvents() == ["Second event", "First event"];
    c.SetOptionsCallback(false);
    c.AddEvent("Third event", false);
  }

  /** What a caller does to a returned copy cannot reach the stored history:
      after the caller rebinds its copy, reading again gives the stored
      history unchanged. */
  method CopyIsolationScenario() returns (mine: seq<string>, again: seq<string>)
    ensures mine == ["altered"] && again == ["Second event", "First event"]
  {
    var c := new Chronicle("First event", false);
    c.AddEvent("Second event", false);
    mine := c.GetAllEvents();
    mine := mine[0 := "altered"][..1];
    again := c.GetAllEvents();
  }
}
