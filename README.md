# Chronicle: a verified model of an in-memory event history

Chronicle keeps an event history: a `current` event plus the `past` events,
newest first. Its one mutation, `addEvent` (`addRecord` in the early draft),
moves the old current to the front of the past and installs the new event.
Read accessors give the current event, the past events and the full history
`[current, ...past]`. `includes` is a membership test that uses a pluggable
comparator. `transformInternalEvents` maps every stored event and then writes
all the results back, without running any callback. Every version except the
early draft has an optional instance callback. It is told about the initial
event and every added one, and `addEvent` may also take a local callback. The
class version also has a stable id.

The repository holds four versions of this component. Each is modelled in its
own module, and each keeps the source's own mutable fields:

- `ChronicleClass` models src/Chronicle/index.ts, the class `Chronicle`, and
  its `createChronicle`.
- `ClosureChronicle` models src/chronicle.ts, the closure returned by
  `createChronicle`. It clones the initial and added events it stores, what
  its getters return, and the array its transform returns. The local callback
  gets the caller's event, and the transformed events are stored uncloned. It
  has no id and no comparator, and passes callbacks the event only.
- `ChronicleErrorClass` models src/ChronicleError/index.ts. It owns one
  `ChronicleClass.Chronicle` and forwards every call to it.
- `Archive` models src/archive.ts, the early object-literal draft with
  `currentRecord`, `pastRecords`, `allRecords` and a chaining `addRecord`.
- `History` holds what the four share: the newest-first view `Reverse`, the
  first-match search behind `Array.prototype.find`, intended membership
  `Contains`, and the maps that can fail: `MapAll` (the callback gets the
  event only) and `MapIndexed` (the callback also gets the index and the
  array, as `map` passes them).

How the source's notions appear in the model:

- **Installation log.** Every class carries a ghost log `installed` of the
  events installed as current, oldest first. `Valid()` says the stored
  `[current] + past` is that log read newest first (`Reverse(installed)`).
  This proves the full ordering the source promises. The ordering tests at
  src/Chronicle/chronicle.test.ts:76-78 and 97-99 use `reduce`, so they only
  compare the last element.
- **Callbacks.** Callbacks are recorded in a ghost `notifications` trace. Each
  entry holds the listener (the instance callback or the local one), the
  event, the id (class version only), and the history a callback would see if
  it queried the chronicle. That last part shows the callbacks run after the
  state update.
- **Failing transformers.** A transformer that may throw is a function
  returning `Result`. `MapAll` and `MapIndexed` stop at the first `Err` from
  left to right, as a throw inside `Array.prototype.map` does.
- **Truthiness.** `includes` converts the found event with `Boolean(...)`, so
  the host's truthiness is an explicit constructor argument `truthy`.
- **Ids.** The id is a constructor argument. It is a `const`, so no method can
  change it.
- **Clones.** `structuredClone` is the identity, because the model's events
  are values.
- **Comparators.** `ChooseComparator` picks the supplied comparator or the
  default one. The default compares the event with the probe read as an event
  (`compareWith as unknown as Event`); that unchecked cast is an explicit
  argument `castProbe`. The cast is erased at runtime, so when the probe
  type is the event type the faithful choice is `castProbe == SameType`.
  The class constructor, like `ChronicleError`'s, takes the comparator
  already chosen.

The model follows the code where the code and its tests disagree. The code
passes `(event, id)` to both callbacks (src/Chronicle/index.ts:24, 34, 37).
The tests at src/ChronicleError/chronicleError.test.ts:115-116 and 129 expect
a call with the event alone, and `toHaveBeenCalledWith` compares every
argument. `ChronicleErrorClass.CallbackScenario` states the calls as the code
makes them.

## Model

| member | source | states |
|---|---|---|
| History.Reverse | src/Chronicle/index.ts:48-50 | the newest-first view of a log has exactly as many entries as the log |
| History.ReverseAt | src/Chronicle/index.ts:29-31 | entry k of the newest-first view is the (k+1)-th most recently installed event |
| History.ReverseSnoc | src/Chronicle/index.ts:29-31 | installing one more event puts it in front of the newest-first view and keeps everything else in order behind it |
| History.ReverseReverse | src/Chronicle/index.ts:66-68 | rebuilding the log from a newest-first history loses nothing, so a transformed history can be stored back |
| History.FirstMatch | src/Chronicle/index.ts:57 | `find` stops at the first element that satisfies the predicate; none before it does; no index is returned only when no element satisfies it |
| History.IncludesAsWrittenMeaning | src/Chronicle/index.ts:56-58 | `Boolean(find(...))` is true exactly when the first event matching the probe is truthy |
| History.Contains | src/Chronicle/index.ts:56-58 | intended membership is true exactly when some stored event matches the probe |
| History.IncludesAgreesWhenTruthy | src/Chronicle/index.ts:56-58 | when every stored event is truthy, `includes` as written is exactly intended membership |
| History.IncludesAsWrittenSound | src/Chronicle/index.ts:56-58 | `includes` as written never reports a match that is not stored |
| History.FalsyMatchMissed | src/Chronicle/index.ts:57 | the history `[0]` contains 0 under strict equality, yet `includes(0)` as written is false |
| History.MapAll | src/chronicle.ts:43-45 | a successful map has the same length and maps each position; a failure is the error of the first throwing element, and every element before it succeeded |
| History.MapAllTotal | src/chronicle.ts:43-45 | a transformer that never throws maps every event in place and keeps the order |
| History.MapAllFailsIff | src/chronicle.ts:41-55 | the transform fails exactly when the transformer throws on some stored event |
| History.IncludesAsWritten | src/Chronicle/index.ts:57 | `Boolean(find(...))` is true only if some stored event matches the probe and is itself truthy |
| History.MapFrom | src/Chronicle/index.ts:63 | mapping from position k on: on success each later position i holds the callback's result for `(event i, i, whole array)`; on failure the error comes from the first throwing position, and every position before it succeeded |
| History.MapIndexed | src/Chronicle/index.ts:63 | `array.map(callback)`: the callback gets each event with its index and the whole array; success maps every position, failure is the first throw |
| History.MapFromUnary | src/chronicle.ts:43-45 | from any position on, a callback that ignores index and array maps exactly as the one-argument map of the remaining suffix |
| History.MapIndexedUnary | src/chronicle.ts:43-45 | wrapping the transformer as `(event) => eventTransformer(event)` gives exactly the one-argument map, so index and array never reach it |
| History.IndexedCallbackSeesPosition | src/Chronicle/index.ts:63 | a transformer that adds its index to the event maps `[10, 10]` to `[10, 11]`: passing the transformer to `map` directly hands it the position |
| History.MapIndexedOfReverse | src/Chronicle/index.ts:63-68 | after an indexed map of the newest-first view of a log, the i-th oldest installation went to the callback at index `length - 1 - i` and its result is the i-th oldest new event |
| History.MapIndexedStoredBack | src/Chronicle/index.ts:63-68 | storing an indexed map of the newest-first view back as a log keeps its length, reads back as the mapped history, and maps each installation at its newest-first index |
| ChronicleClass.DefaultIncludesIsMembership | src/Chronicle/index.ts:12-14 | under the default comparator, with the probe read as an event unchanged, `includes` is exactly membership of the probe in the full history whenever every stored event is truthy |
| ChronicleClass.ChooseComparator | src/Chronicle/index.ts:22 | a supplied comparator replaces the default; without one, the comparator holds exactly when the event equals the probe read as an event |
| ChronicleClass.Chronicle.constructor | src/Chronicle/index.ts:18-25 | current is the initial event, past is empty, the configuration and id are stored, and a configured callback is told `(initialEvent, id)` once |
| ChronicleClass.Chronicle.AddEvent | src/Chronicle/index.ts:28-38 | past becomes the old current followed by the old past, current becomes the new event, and the full history gains the event at its front; then the instance callback and the local callback each get `(newEvent, id)` and see the updated history; id, comparator and callback do not change |
| ChronicleClass.Chronicle.GetCurrentEvent | src/Chronicle/index.ts:40-42 | the current event is the one installed last |
| ChronicleClass.Chronicle.GetPastEvents | src/Chronicle/index.ts:44-46 | the past events are all earlier installations, newest first |
| ChronicleClass.Chronicle.GetAllEvents | src/Chronicle/index.ts:48-50 | the full history is every installation newest first, is never empty, and is the current event followed by the past events |
| ChronicleClass.Chronicle.GetId | src/Chronicle/index.ts:52-54 | the id fixed at construction; it is a constant, so every call returns the same value |
| ChronicleClass.Chronicle.Includes | src/Chronicle/index.ts:56-58 | true exactly when the first stored event that matches the probe under the comparator is truthy; never a false positive; exact membership when every stored event is truthy |
| ChronicleClass.Chronicle.TransformInternalEvents | src/Chronicle/index.ts:61-71 | the result is the transformer, called with each event, its index and the whole old history, mapped over the old full history; on success the new full history is that result, with the same length, and each installation is the transformer's result for the old one at its newest-first index; on failure nothing changes; no callback runs |
| ChronicleClass.CreateChronicle | src/Chronicle/index.ts:89 | a new chronicle holding only the initial event, with the comparator `ChooseComparator` picks from the options, and the given id; the probe type may differ from the event type |
| ChronicleClass.NewestFirstScenario | src/Chronicle/chronicle.test.ts:61-103 | after three appends to a first event, every position of the past and of the full history is newest first |
| ChronicleClass.IncludesScenario | src/Chronicle/chronicle.test.ts:176-190 | under the default comparator the current and the past event are included and an absent one is not |
| ChronicleClass.CustomComparatorScenario | src/Chronicle/chronicle.test.ts:192-214 | created through `CreateChronicle` with a comparator from events to names, the chronicle finds both stored names and rejects a third |
| ChronicleClass.CallbackScenario | src/Chronicle/chronicle.test.ts:105-130 | construction and one append with both callbacks give exactly three notifications, in order, all with the same id |
| ClosureChronicle.Chronicle.constructor | src/chronicle.ts:13-24 | current is the initial event, past is empty, and a configured callback is told the initial event once |
| ClosureChronicle.Chronicle.AddEvent | src/chronicle.ts:27-37 | past becomes the old current followed by the old past, and current becomes the new event; the instance callback, if the caller's options hold one at this moment, and then the local one get the event only, after the update |
| ClosureChronicle.Chronicle.SetOptionsCallback | src/chronicle.ts:33 | the caller changing `onAddEvent` on its captured options object decides which instance callback later appends run, and touches neither the history nor the notifications so far |
| ClosureChronicle.Chronicle.GetCurrentEvent | src/chronicle.ts:38 | a copy of the current event, which is the one installed last |
| ClosureChronicle.Chronicle.GetPastEvents | src/chronicle.ts:39 | a copy of the past events: all earlier installations, newest first |
| ClosureChronicle.Chronicle.GetAllEvents | src/chronicle.ts:40 | a copy of the full history: every installation newest first, never empty |
| ClosureChronicle.Chronicle.TransformInternalEvents | src/chronicle.ts:41-55 | the result is the transformer mapped over the old full history; on success current is its head and past its tail, and each installation is mapped in place; on failure nothing changes |
| ClosureChronicle.OptionsCallbackScenario | src/chronicle.ts:33 | a callback added to the options after construction hears the next append, and removing it silences the one after |
| ClosureChronicle.NewestFirstScenario | src/chronicle.test.ts:62-104 | after three appends, every position of the past and of the full history is newest first |
| ClosureChronicle.CopyIsolationScenario | src/chronicle.ts:38-40 | changing a returned history does not change what a later read returns |
| ChronicleErrorClass.ChronicleError.constructor | src/ChronicleError/index.ts:14-21 | the owned chronicle is new and built from the same initial event, comparator, callback and id: current is the initial event, past is empty, and the callback is told the initial event once |
| ChronicleErrorClass.ChronicleError.AddEvent | src/ChronicleError/index.ts:23-25 | the owned chronicle's `addEvent`: the old full history becomes the past, the new event becomes current, and the same notifications follow |
| ChronicleErrorClass.ChronicleError.GetCurrentEvent | src/ChronicleError/index.ts:27-29 | the owned chronicle's current event, which is the one installed last |
| ChronicleErrorClass.ChronicleError.GetPastEvents | src/ChronicleError/index.ts:31-33 | the owned chronicle's past events, newest first |
| ChronicleErrorClass.ChronicleError.GetAllEvents | src/ChronicleError/index.ts:35-37 | rebuilt from the two getters, it equals the owned chronicle's own full history, newest first |
| ChronicleErrorClass.ChronicleError.GetId | src/ChronicleError/index.ts:39-41 | the owned chronicle's id |
| ChronicleErrorClass.ChronicleError.Includes | src/ChronicleError/index.ts:43-45 | the owned chronicle's answer: never a false positive, and exact when every stored event is truthy |
| ChronicleErrorClass.ChronicleError.TransformInternalEvents | src/ChronicleError/index.ts:47-49 | the owned chronicle's transform, whose transformer also gets the index and the whole old history: the mapped old history on success, each installation mapped in place at its newest-first index, no change at all on failure |
| ChronicleErrorClass.CallbackScenario | src/ChronicleError/chronicleError.test.ts:105-117 | construction and one append notify the instance callback exactly twice, each time with the event and the same id |
| ChronicleErrorClass.NewestFirstScenario | src/ChronicleError/chronicleError.test.ts:61-103 | the error value's past and full history are newest first in every position |
| Archive.Chronicle.constructor | src/archive.ts:51-62 | the initial record is current and there are no past records |
| Archive.Chronicle.AllRecords | src/archive.ts:63-65 | every installed record newest first, one more than the past records, headed by the current record |
| Archive.Chronicle.AddRecord | src/archive.ts:74-79 | past records become the old current followed by the old past, the new record becomes current, and the same object is returned |
| Archive.ArchiveExample | src/archive.ts:83-96 | starting from 'initial record' and adding 'record 2' and then 'record 3' gives `['record 3', 'record 2', 'initial record']` |

## Left out

- Timer helpers `timerStart`, `timerLog` and `timerEnd` (src/Chronicle/index.ts:73-86, src/ChronicleError/index.ts:51-61) are left out. They only forward to the host console.
- `crypto.randomUUID()` (src/Chronicle/index.ts:16) is foreign randomness. The id is a constructor argument, so uniqueness across instances is not modelled; only its stability is.
- `structuredClone` is the identity here. Events are Dafny values, so no event aliases stored state. The one captured reference that is modelled is the closure's `options` object, through `ClosureChronicle.Chronicle.SetOptionsCallback`. Cloning of functions and other non-data values is not modelled.
- `extends Error`, `super(errorMessage, errorOptions)` and `instanceof Error` (src/ChronicleError/index.ts:11-15) are runtime interop. The model keeps only the message; the error options (`cause`) are not modelled.
- The `log`/`onLog` callback of src/archive.ts (lines 66-73) and the Promise, `setTimeout` and `console.log` in its demo (lines 83-98) are asynchronous I/O and are left out. Only the demo's record sequence is kept.
- Callbacks, comparators and transformers are pure functions here. Effects inside them are not modelled: re-entrant calls into the chronicle, and a callback or comparator that throws. A callback that throws after `addEvent` has updated the state would leave that update in place. Callbacks are recorded only as a trace.
- ChronicleClass.ChooseComparator: the default `===` is value equality after reading the probe as an event through `castProbe`. JS reference identity on objects, and `===` between a probe and an event whose runtime types differ, are not modelled.
- ChronicleClass.Chronicle.constructor: it takes the comparator already chosen. The source's constructor makes the choice itself, `options?.comparator || this.comparator` (src/Chronicle/index.ts:22), and is also called directly (src/ChronicleError/index.ts:17). Here `ChronicleClass.CreateChronicle` makes that choice with `ChronicleClass.ChooseComparator`, so "no comparator supplied" cannot be expressed at the constructor itself.
- ChronicleClass.StrictEquals: `compareWith as unknown as Event` is a type assertion that is erased at runtime, so the source's default is `eventToCompare === compareWith`. Only `castProbe == SameType` gives that comparator when the probe type is the event type; the model does not force that choice. `ChooseComparator` and `CreateChronicle` also require events with equality (`E(==)`) even when a comparator is supplied, so events that hold functions are left out; they also require events and probes to be non-reference types (`E(!new)`, `P(!new)`), so objects compared by identity are left out.
- ChronicleClass.Chronicle.GetPastEvents and ChronicleErrorClass.ChronicleError.GetPastEvents: the source returns its live `pastEvents` array (src/Chronicle/index.ts:44-46). A caller that mutates that array changes the stored history; the model returns a value and does not capture that aliasing.
- ClosureChronicle.CopyIsolationScenario: isolation of a returned history holds by value semantics in every variant of this model, so the scenario does not distinguish the closure's `structuredClone` from the class's live array.
- ChronicleErrorClass.ChronicleError.constructor: it takes the comparator already chosen, where the source passes `options?.comparator` on to the `Chronicle` constructor (src/ChronicleError/index.ts:17-20). A caller builds it with `ChronicleClass.ChooseComparator`.
- ChronicleErrorClass.ChronicleError.Includes: the source types its argument as `Event` (src/ChronicleError/index.ts:43) and passes it on as the probe; the model types it as the probe type `P`, which agrees whenever the probe type is the event type, its default.
- The closure's local callback gets the caller's `newEvent` uncloned (src/chronicle.ts:36), and its transform stores the mapped events uncloned (src/chronicle.ts:50-51). With events as values these differences from the cloned paths cannot be observed.
- Archive.Chronicle.AddRecord: the object literal's fields are public and callers may assign them directly. The model's `Valid()` invariant assumes they change only through `addRecord`.
- `ChronicleError.chronicle` is a public field that JS callers could reassign. Here it is a constant.

## Findings

| source | as written | input that shows it | evidently intended | confidence | as-written member | corrected member |
|---|---|---|---|---|---|---|
| src/Chronicle/index.ts:57 | `Boolean(getAllEvents().find(...))` converts the first matching event itself to a boolean, so a falsy stored event (`0`, `""`, `false`) that matches counts as absent, and so does any truthy match that comes after it | a chronicle created with `0` under the default comparator; `includes(0)` | true whenever some stored event matches the probe | not executed | History.FalsyMatchMissed | History.Contains |

`ChronicleClass.Chronicle.Includes` keeps the behaviour as written, because
that is what callers get. Its contract names the exact condition under which
it agrees with `History.Contains`: every stored event is truthy. The test
scenarios state their expected answers as the code gives them.
