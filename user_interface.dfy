/**
 * The user interface object: button polarity and debounce bookkeeping, the
 * render cursor, and the active-event registry (a presence bitset plus the
 * live sequence copies), with the operations that start, restart, query and
 * stop events.
 *
 * Every registry operation is specified against the corresponding function
 * of `EventRegistry` applied to `Snapshot()`, the registry value the two
 * fields hold; the properties of those functions are proved there.
 */
module Nutt {
  import opened Ui
  import opened EventRegistry

  /** A raw level must hold this long before a press is accepted. */
  const DebouncePressUs: UInt64 := 100 * 1000
  /** A raw level must hold this long before a release is accepted. */
  const DebounceReleaseUs: UInt64 := 1 * 1000 * 1000

  /** Presses settle ten times sooner than releases, which rejects chatter on release. */
  lemma PressWindowShorterThanRelease()
    ensures DebouncePressUs < DebounceReleaseUs
    ensures DebounceReleaseUs == 10 * DebouncePressUs
  {
  }

  class UserInterface {
    /** Polarity of the button input: a low level means pressed. */
    const buttonActiveLow: bool
    /** The read-only table of event templates, one sequence per event that can be shown. */
    const ledSequences: map<Event, LEDSequence>

    /** Debounce bookkeeping: the last raw level seen and when it was seen. */
    var buttonChangeState: int
    var buttonChangeUs: UInt64
    /** Debounce bookkeeping: the settled level and the number of settled changes. */
    var buttonState: int
    var buttonChangeCount: ULong

    /** Render cursor: when the current frame was last rendered and for which event. */
    var renderTimeUs: UInt64
    var renderEvent: Event

    /** The presence bitset, one bit per event ordinal. */
    const activeEvents: array<bool>
    /** The live copy of the sequence of every active event. */
    var activeSequence: map<Event, LEDSequence>

    /** The raw level that means "pressed". */
    function ButtonActive(): (level: int)
      ensures level == 0 || level == 1
      ensures level == 0 <==> buttonActiveLow
    {
      if buttonActiveLow then 0 else 1
    }

    /** The raw level that means "released": the other one. */
    function ButtonInactive(): (level: int)
      ensures level == 0 || level == 1
      ensures level != ButtonActive()
    {
      if buttonActiveLow then 1 else 0
    }

    /** The registry held by the bitset and the map. */
    ghost function Snapshot(): Registry
      reads this, activeEvents
    {
      Registry(activeEvents[..], activeSequence)
    }

    ghost predicate Valid()
      reads this, activeEvents
    {
      && activeEvents.Length == EventCount
      && Paired(Snapshot())
      && (forall e | e in ledSequences :: Pristine(ledSequences[e]))
      && (forall e | e in activeSequence :: e in ledSequences)
      && (buttonChangeState == 0 || buttonChangeState == 1)
      && (buttonState == 0 || buttonState == 1)
    }

    /**
     * Both button levels start as "released", every counter and timestamp at
     * zero, the render cursor on `Idle`, and no event active.
     */
    constructor (activeLow: bool, templates: map<Event, LEDSequence>)
      requires forall e | e in templates :: Pristine(templates[e])
      ensures Valid() && fresh(activeEvents)
      ensures buttonActiveLow == activeLow && ledSequences == templates
      ensures buttonChangeState == ButtonInactive() && buttonState == ButtonInactive()
      ensures buttonChangeUs == 0 && buttonChangeCount == 0
      ensures renderEvent == Idle && renderTimeUs == 0
      ensures Snapshot() == EventRegistry.Empty()
    {
      buttonActiveLow := activeLow;
      ledSequences := templates;
      buttonChangeState := if activeLow then 1 else 0;
      buttonChangeUs := 0;
      buttonState := if activeLow then 1 else 0;
      buttonChangeCount := 0;
      renderTimeUs := 0;
      renderEvent := Idle;
      activeEvents := new bool[EventCount](_ => false);
      activeSequence := map[];
      new;
      assert activeEvents[..] == EventRegistry.Empty().bits;
    }

    /** Activates `event` with a fresh copy of its template, unless it is already active. */
    method StartEvent(event: Event)
      requires Valid() && event in ledSequences
      modifies this`activeSequence, activeEvents
      ensures Valid()
      ensures Snapshot() == EventRegistry.Start(old(Snapshot()), event, ledSequences[event])
    {
      var i := Ordinal(event);
      if !activeEvents[i] {
        activeEvents[i] := true;
        activeSequence := activeSequence[event := ledSequences[event]];
        assert Snapshot() == EventRegistry.Restart(old(Snapshot()), event, ledSequences[event]);
      }
    }

    /** Activates `event` with a fresh copy of its template, discarding any progress it had made. */
    method RestartEvent(event: Event)
      requires Valid() && event in ledSequences
      modifies this`activeSequence, activeEvents
      ensures Valid()
      ensures Snapshot() == EventRegistry.Restart(old(Snapshot()), event, ledSequences[event])
      ensures Pristine(activeSequence[event])
    {
      activeEvents[Ordinal(event)] := true;
      activeSequence := activeSequence[event := ledSequences[event]];
      assert Snapshot() == EventRegistry.Restart(old(Snapshot()), event, ledSequences[event]);
    }

    /** Whether `event` is active: its bit, which is set exactly when it has a live sequence. */
    method EventActive(event: Event) returns (active: bool)
      requires Valid()
      ensures active == IsActive(Snapshot(), event)
      ensures active <==> event in activeSequence
    {
      active := activeEvents[Ordinal(event)];
    }

    /** Deactivates `event`, discarding its live sequence. */
    method StopEvent(event: Event)
      requires Valid()
      modifies this`activeSequence, activeEvents
      ensures Valid()
      ensures Snapshot() == EventRegistry.Stop(old(Snapshot()), event)
    {
      activeEvents[Ordinal(event)] := false;
      activeSequence := activeSequence - {event};
      assert Snapshot() == EventRegistry.Stop(old(Snapshot()), event);
    }

    /** Deactivates every event of the list, as one update. */
    method StopEvents(events: seq<Event>)
      requires Valid()
      modifies this`activeSequence, activeEvents
      ensures Valid()
      ensures Snapshot() == EventRegistry.StopAll(old(Snapshot()), events)
    {
      var i := 0;
      while i < |events|
        invariant 0 <= i <= |events|
        invariant Valid()
        invariant EventRegistry.StopAll(Snapshot(), events[i..]) == EventRegistry.StopAll(old(Snapshot()), events)
      {
        var event := events[i];
        ghost var before := Snapshot();
        activeEvents[Ordinal(event)] := false;
        activeSequence := activeSequence - {event};
        assert Snapshot() == EventRegistry.Stop(before, event);
        assert events[i..][1..] == events[i + 1..];
        i := i + 1;
      }
      assert events[i..] == [];
    }
  }
}
