/** The class-based chronicle (src/Chronicle/index.ts): a current event, the
    past events newest-first, a comparator for membership, a stable id and an
    optional callback told about the initial event and every added one. */
module ChronicleClass {
  import opened History

  /** One callback invocation: which callback ran, with which event and
      chronicle id, and the full history it would see if it queried the
      chronicle at that moment. */
  datatype Notification<E> = Notification(listener: Listener, event: E, chronicleId: string, observed: seq<E>)

  /** The default comparator, `eventToCompare === (compareWith as unknown as Event)`.
      `castProbe` stands for the unchecked cast, which reads the probe as an
      event; Dafny values stand for JS values, so `===` is value equality. */
  function StrictEquals<E(==), P>(castProbe: P -> E, eventToCompare: E, compareWith: P): (r: bool)
  {
    eventToCompare == castProbe(compareWith)
  }

  /** `options?.comparator || this.comparator`: a supplied comparator (a
      function, hence truthy) replaces the default strict equality. */
  function ChooseComparator<E(==, !new), P(!new)>(supplied: Option<(E, P) -> bool>, castProbe: P -> E)
    : (cmp: (E, P) -> bool)
    ensures supplied.Some? ==> cmp == supplied.value
    ensures supplied.None? ==> forall e, p :: cmp(e, p) <==> e == castProbe(p)
  {
    if supplied.Some? then supplied.value else (e, p) => StrictEquals(castProbe, e, p)
  }

  class Chronicle<E, P> {
    var currentEvent: E
    var pastEvents: seq<E>
    /** Whether `options.onAddEvent` was supplied. */
    const onAddEvent: bool
    const comparator: (E, P) -> bool
    const id: string
    /** The host's conversion of an event to a boolean (`Boolean(e)`). */
    const truthy: E -> bool

    /** Every event ever installed as current, oldest first (after a
        transform, the transformed values). */
    ghost var installed: seq<E>
    /** The callbacks run so far, in order. */
    ghost var notifications: seq<Notification<E>>

    /** The full history is the installation log read newest-first. */
    ghost predicate Valid()
      reads this
    {
      installed != [] && [currentEvent] + pastEvents == Reverse(installed)
    }

    constructor (initialEvent: E, comparator: (E, P) -> bool, onAddEvent: bool, id: string, truthy: E -> bool)
      ensures Valid()
      ensures currentEvent == initialEvent && pastEvents == [] && installed == [initialEvent]
      ensures this.comparator == comparator && this.onAddEvent == onAddEvent && this.id == id
      ensures this.truthy == truthy
      ensures notifications ==
        if onAddEvent then [Notification(InstanceListener, initialEvent, id, [initialEvent])] else []
    {
      currentEvent := initialEvent;
      pastEvents := [];
      this.onAddEvent := onAddEvent;
      this.comparator := comparator;
      this.id := id;
      this.truthy := truthy;
      installed := [initialEvent];
      notifications := if onAddEvent then [Notification(InstanceListener, initialEvent, id, [initialEvent])] else [];
    }

    /** Install `newEvent` as current after moving the old current to the
        front of the past events; then run the instance callback and the
        local one (`localCallback` says whether one was passed), both with
        the new event and the id and both after the state update. */
    method AddEvent(newEvent: E, localCallback: bool)
      requires Valid()
      modifies this
      ensures Valid()
      ensures pastEvents == [old(currentEvent)] + old(pastEvents) && currentEvent == newEvent
      ensures installed == old(installed) + [newEvent]
      ensures GetAllEvents() == [newEvent] + old(GetAllEvents())
      ensures notifications == old(notifications)
        + (if onAddEvent then [Notification(InstanceListener, newEvent, id, GetAllEvents())] else [])
        + (if localCallback then [Notification(LocalListener, newEvent, id, GetAllEvents())] else [])
    {
      pastEvents := [currentEvent] + pastEvents;
      currentEvent := newEvent;
      ReverseSnoc(installed, newEvent);
      installed := installed + [newEvent];

      if onAddEvent {
        notifications := notifications + [Notification(InstanceListener, newEvent, id, [currentEvent] + pastEvents)];
      }
      if localCallback {
        notifications := notifications + [Notification(LocalListener, newEvent, id, [currentEvent] + pastEvents)];
      }
    }

    /** The current event is the one installed last. */
    function GetCurrentEvent(): (e: E)
      reads this
      requires Valid()
      ensures e == installed[|installed| - 1]
    {
      ReverseAt(installed, 0);
      currentEvent
    }

    /** The past events are every earlier installation, newest first. */
    function GetPastEvents(): (past: seq<E>)
      reads this
      requires Valid()
      ensures past == Reverse(installed[..|installed| - 1])
    {
      assert pastEvents == ([currentEvent] + pastEvents)[1..];
      pastEvents
    }

    /** The full history: every installation newest first, so never empty. */
    function GetAllEvents(): (all: seq<E>)
      reads this
      requires Valid()
      ensures all == Reverse(installed) && |all| == |installed| >= 1
      ensures all[0] == currentEvent && all[1..] == pastEvents
    {
      [currentEvent] + pastEvents
    }

    /** The id fixed at construction; `id` is never reassigned. */
    function GetId(): (r: string)
      reads this
      ensures r == id
    {
      id
    }

    /** `Boolean(getAllEvents().find(e => comparator(e, probe)))`: true exactly
        when the first stored event matching the probe is truthy. It never
        reports a match that is not there, and when every stored event is
        truthy it answers whether any stored event matches. */
    function Includes(probe: P): (r: bool)
      reads this
      requires Valid()
      ensures var all := GetAllEvents();
        r <==> (exists i :: 0 <= i < |all| && comparator(all[i], probe) && truthy(all[i]) &&
                 (forall j :: 0 <= j < i ==> !comparator(all[j], probe)))
      ensures r ==> Contains(GetAllEvents(), probe, comparator)
      ensures var all := GetAllEvents();
        (forall i :: 0 <= i < |all| ==> truthy(all[i])) ==> (r <==> Contains(all, probe, comparator))
    {
      var all := GetAllEvents();
      IncludesAsWrittenMeaning(all, probe, comparator, truthy);
      IncludesAsWrittenSound(all, probe, comparator, truthy);
      IncludesAgreesWhenTruthy(all, probe, comparator, truthy);
      IncludesAsWritten(all, probe, comparator, truthy)
    }

    /** Map every stored event (newest first) through `transformer`, then
        store the results: the first becomes current, the rest the past.
        `map` hands the transformer the event, its index in the full history
        and the full history itself. The whole map completes before either
        field is assigned, so a transformer that throws leaves the chronicle
        exactly as it was. */
    method TransformInternalEvents<X>(transformer: (E, nat, seq<E>) -> Result<E, X>) returns (r: Result<seq<E>, X>)
      requires Valid()
      modifies this
      ensures Valid()
      ensures r == MapIndexed(transformer, old(GetAllEvents()))
      ensures r.Err? ==> unchanged(this)
      ensures r.Ok? ==> GetAllEvents() == r.value && |installed| == |old(installed)|
      ensures r.Ok? ==> forall i :: 0 <= i < |installed| ==>
        transformer(old(installed)[i], |installed| - 1 - i, old(GetAllEvents())) == Ok(installed[i])
      ensures notifications == old(notifications)
    {
      var all := GetAllEvents();
      var transformed := MapIndexed(transformer, all);
      if transformed.Ok? {
        var events := transformed.value;
        MapIndexedStoredBack(transformer, installed, events);
        assert events == [events[0]] + events[1..];
        currentEvent := events[0];
        pastEvents := events[1..];
        installed := Reverse(events);
      }
      r := transformed;
    }
  }

  /** `createChronicle(initialEvent, options)`: a new chronicle whose
      comparator is the supplied one, or strict equality by default. */
  method CreateChronicle<E(==, !new), P(!new)>(initialEvent: E, comparator: Option<(E, P) -> bool>,
                                               castProbe: P -> E, onAddEvent: bool, id: string, truthy: E -> bool)
    returns (c: Chronicle<E, P>)
    ensures fresh(c) && c.Valid()
    ensures c.GetCurrentEvent() == initialEvent && c.GetPastEvents() == []
    ensures c.comparator == ChooseComparator(comparator, castProbe) && c.id == id
    ensures c.onAddEvent == onAddEvent && c.truthy == truthy && c.installed == [initialEvent]
    ensures c.notifications ==
      if onAddEvent then [Notification(InstanceListener, initialEvent, id, [initialEvent])] else []
  {
    c := new Chronicle(initialEvent, ChooseComparator(comparator, castProbe), onAddEvent, id, truthy);
  }

  /** The probe read as an event when probe and event types coincide. */
  function SameType<E>(probe: E): (e: E)
  {
    probe
  }

  /** Under the default comparator, with the probe read as an event unchanged,
      `includes` is plain membership in the full history whenever every stored
      event is truthy. */
  lemma DefaultIncludesIsMembership<E(!new)>(c: Chronicle<E, E>, p: E)
    requires c.Valid() && c.comparator == ChooseComparator(None, SameType)
    requires forall i :: 0 <= i < |c.GetAllEvents()| ==> c.truthy(c.GetAllEvents()[i])
    ensures c.Includes(p) <==> p in c.GetAllEvents()
  {
    var all := c.GetAllEvents();
    assert c.Includes(p) <==> Contains(all, p, c.comparator);
    if p in all {
      var i :| 0 <= i < |all| && all[i] == p;
      assert c.comparator(all[i], p);
    }
  }

  /** Strings are truthy unless empty. */
  function StringTruthy(s: string): (b: bool)
  {
    s != ""
  }

  /** Appending three events to a first one leaves the past newest-first and
      the full history newest-first in every position, not just the last. */
  method NewestFirstScenario() returns (past: seq<string>, all: seq<string>)
    ensures past == ["Third event", "Second event", "First event"]
    ensures all == ["Current event", "Third event", "Second event", "First event"]
  {
    var c := CreateChronicle("First event", None, SameType, false, "id", StringTruthy);
    c.AddEvent("Second event", false);
    c.AddEvent("Third event", false);
    c.AddEvent("Current event", false);
    past := c.GetPastEvents();
    all := c.GetAllEvents();
  }

  /** Membership under the default comparator sees both the current and the
      past event, and nothing else. */
  method IncludesScenario() returns (first: bool, second: bool, third: bool)
    ensures first && second && !third
  {
    var c := CreateChronicle("First event", None, SameType, false, "id", StringTruthy);
    c.AddEvent("Second event", false);
    ghost var all := c.GetAllEvents();
    assert all == ["Second event", "First event"];
    assert StringTruthy(all[0]) && StringTruthy(all[1]);
    first := c.Includes("First event");
    DefaultIncludesIsMembership(c, "First event");
    second := c.Includes("Second event");
    DefaultIncludesIsMembership(c, "Second event");
    third := c.Includes("Third event");
    DefaultIncludesIsMembership(c, "Third event");
  }

  datatype EventKind = EventKind(name: string, timestamp: int)

  /** The supplied comparator: an event matches a name probe when it has that name. */
  function HasName(e: EventKind, name: string): (b: bool)
  {
    e.name == name
  }

  /** A name probe read as an event; unused once a comparator is supplied. */
  function NamedAtZero(name: string): (e: EventKind)
  {
    EventKind(name, 0)
  }

  /** Every `EventKind` is an object, hence truthy. */
  function AlwaysTruthy(e: EventKind): (b: bool)
  {
    true
  }

  /** Membership under a supplied comparator that compares an event's name
      with a probe of a different type. The cast is never used, because a
      supplied comparator replaces the default. */
  method CustomComparatorScenario(t1: int, t2: int) returns (first: bool, second: bool, third: bool)
    ensures first && second && !third
  {
    var c := CreateChronicle(EventKind("EVENT_1", t1), Some(HasName), NamedAtZero, false, "id", AlwaysTruthy);
    assert c.comparator == HasName;
    c.AddEvent(EventKind("EVENT_2", t2), false);
    ghost var all := c.GetAllEvents();
    assert all == [EventKind("EVENT_2", t2), EventKind("EVENT_1", t1)];
    assert AlwaysTruthy(all[0]) && AlwaysTruthy(all[1]);
    first := c.Includes("EVENT_1");
    assert first <==> Contains(all, "EVENT_1", HasName);
    assert HasName(all[1], "EVENT_1");
    second := c.Includes("EVENT_2");
    assert second <==> Contains(all, "EVENT_2", HasName);
    assert HasName(all[0], "EVENT_2");
    third := c.Includes("EVENT_3");
    assert third <==> Contains(all, "EVENT_3", HasName);
    assert !HasName(all[0], "EVENT_3") && !HasName(all[1], "EVENT_3");
  }

  /** With an instance callback, construction and one append notify it
      exactly twice, with the same id both times; a local callback passed to
      that append is notified once, after the instance one. */
  method CallbackScenario(id: string) returns (c: Chronicle<string, string>)
    ensures c.notifications == [
      Notification(InstanceListener, "First event", id, ["First event"]),
      Notification(InstanceListener, "Second event", id, ["Second event", "First event"]),
      Notification(LocalListener, "Second event", id, ["Second event", "First event"])]
  {
    c := CreateChronicle("First event", None, SameType, true, id, StringTruthy);
    assert c.GetAllEvents() == ["First event"];
    c.AddEvent("Second event", true);
    assert c.GetAllEvents() == ["Second event", "First event"];
  }
}
