/**
 * The active-event registry as a value: the presence bitset (one bit per
 * event ordinal) together with the map from each active event to its live
 * copy of an LED sequence. The user interface object holds exactly these two
 * pieces of state and updates them in place; its methods are specified by
 * the functions of this module.
 */
module EventRegistry {
  import opened Ui

  datatype Registry = Registry(bits: seq<bool>, sequences: map<Event, LEDSequence>)

  /** The bitset has one bit per event, and an event has a live sequence exactly when its bit is set. */
  predicate Paired(r: Registry) {
    && |r.bits| == EventCount
    && forall e :: e in r.sequences <==> r.bits[Ordinal(e)]
  }

  predicate IsActive(r: Registry, e: Event)
    requires |r.bits| == EventCount
  {
    r.bits[Ordinal(e)]
  }

  /** The two registries agree, bit and live copy, on every event other than `e`. */
  predicate AgreeExcept(r: Registry, r': Registry, e: Event)
    requires |r.bits| == EventCount && |r'.bits| == EventCount
  {
    forall x :: x != e ==>
      && IsActive(r', x) == IsActive(r, x)
      && (x in r'.sequences <==> x in r.sequences)
      && (x in r.sequences ==> r'.sequences[x] == r.sequences[x])
  }

  /** A default-constructed bitset and an empty map. */
  function Empty(): (r: Registry)
    ensures Paired(r)
    ensures forall e :: !IsActive(r, e)
  {
    Registry(seq(EventCount, _ => false), map[])
  }

  /** Activation that always installs a new copy of the template, discarding any progress. */
  function Restart(r: Registry, e: Event, template: LEDSequence): (r': Registry)
    requires Paired(r)
    ensures Paired(r')
    ensures IsActive(r', e) && r'.sequences[e] == template
    ensures AgreeExcept(r, r', e)
  {
    Registry(r.bits[Ordinal(e) := true], r.sequences[e := template])
  }

  /** Activation that leaves an already active event, and its countdowns, untouched. */
  function Start(r: Registry, e: Event, template: LEDSequence): (r': Registry)
    requires Paired(r)
    ensures Paired(r')
    ensures IsActive(r', e)
    ensures IsActive(r, e) ==> r' == r
    ensures !IsActive(r, e) ==> r'.sequences[e] == template
    ensures AgreeExcept(r, r', e)
  {
    if IsActive(r, e) then r else Restart(r, e, template)
  }

  /** Deactivation: clears the bit and discards the live copy. */
  function Stop(r: Registry, e: Event): (r': Registry)
    requires Paired(r)
    ensures Paired(r')
    ensures !IsActive(r', e) && e !in r'.sequences
    ensures AgreeExcept(r, r', e)
  {
    Registry(r.bits[Ordinal(e) := false], r.sequences - {e})
  }

  /** Deactivation of a list of events, one after the other. */
  function StopAll(r: Registry, events: seq<Event>): (r': Registry)
    requires Paired(r)
    ensures Paired(r')
    ensures forall e :: IsActive(r', e) <==> IsActive(r, e) && e !in events
    ensures forall e :: e in r'.sequences ==> e in r.sequences && r'.sequences[e] == r.sequences[e]
    decreases |events|
  {
    if events == [] then r else StopAll(Stop(r, events[0]), events[1..])
  }

  /** The first position at or after `i` whose bit is set, or the position of `Idle`. */
  function FirstActiveFrom(bits: seq<bool>, i: nat): (k: nat)
    requires |bits| == EventCount && i <= IdleOrdinal
    ensures i <= k <= IdleOrdinal
    ensures k < IdleOrdinal ==> bits[k]
    ensures forall j :: i <= j < k ==> !bits[j]
    decreases IdleOrdinal - i
  {
    if i == IdleOrdinal || bits[i] then i else FirstActiveFrom(bits, i + 1)
  }

  /** `h` is active (or is `Idle`) and no active event outranks it. */
  predicate IsHighest(r: Registry, h: Event)
    requires |r.bits| == EventCount
  {
    && (h != Idle ==> IsActive(r, h))
    && forall e :: IsActive(r, e) ==> !Outranks(e, h)
  }

  /** The event to render: the highest-priority active event, `Idle` when no other is active. */
  function HighestActive(r: Registry): (h: Event)
    requires |r.bits| == EventCount
    ensures IsHighest(r, h)
    ensures h == Idle <==> forall e :: e != Idle ==> !IsActive(r, e)
  {
    var k := FirstActiveFrom(r.bits, 0);
    var h := EventAt(k);
    assert forall e :: IsActive(r, e) ==> !Outranks(e, h) by {
      forall e | IsActive(r, e) ensures !Outranks(e, h) {
        OrdinalInjective(e, Idle);
      }
    }
    assert h != Idle ==> IsActive(r, h);
    h
  }

  /** At most one event satisfies `IsHighest`. */
  lemma HighestActiveUnique(r: Registry, h: Event)
    requires |r.bits| == EventCount
    requires IsHighest(r, h)
    ensures h == HighestActive(r)
  {
    var g := HighestActive(r);
    OrdinalInjective(h, g);
    OrdinalInjective(h, Idle);
    OrdinalInjective(g, Idle);
  }

  /** Starting an event makes it the rendered one exactly when it outranks the current one. */
  lemma HighestAfterStart(r: Registry, e: Event, template: LEDSequence)
    requires Paired(r)
    ensures HighestActive(Start(r, e, template)) ==
      (if Outranks(e, HighestActive(r)) then e else HighestActive(r))
  {
    var g := HighestActive(r);
    var r' := Start(r, e, template);
    var c := if Outranks(e, g) then e else g;
    forall x | IsActive(r', x) ensures !Outranks(x, c) {
      OrdinalInjective(x, e);
    }
    HighestActiveUnique(r', c);
  }

  /** Stopping any event other than the rendered one leaves the rendered one in place. */
  lemma HighestAfterStopOther(r: Registry, e: Event)
    requires Paired(r)
    requires e != HighestActive(r)
    ensures HighestActive(Stop(r, e)) == HighestActive(r)
  {
    var g := HighestActive(r);
    HighestActiveUnique(Stop(r, e), g);
  }

  /**
   * Stopping the rendered event falls through to the highest-priority event
   * among the others still active, which it outranked.
   */
  lemma HighestAfterStopHighest(r: Registry)
    requires Paired(r)
    requires HighestActive(r) != Idle
    ensures Outranks(HighestActive(r), HighestActive(Stop(r, HighestActive(r))))
    ensures forall e :: e != HighestActive(r) && IsActive(r, e) ==>
      !Outranks(e, HighestActive(Stop(r, HighestActive(r))))
  {
    var g := HighestActive(r);
    var h := HighestActive(Stop(r, g));
    OrdinalInjective(g, h);
    if h != Idle {
      assert IsActive(r, h);
    }
  }

  /** Two active events: the higher one is rendered until it is stopped, then the lower one. */
  lemma NetworkErrorShownBeforeLocalSwitch(r: Registry)
    requires Paired(r)
    requires forall e :: IsActive(r, e) <==> e == NetworkError || e == LightSwitchedLocal
    ensures HighestActive(r) == NetworkError
    ensures HighestActive(Stop(r, NetworkError)) == LightSwitchedLocal
  {
    HighestActiveUnique(r, NetworkError);
    HighestActiveUnique(Stop(r, NetworkError), LightSwitchedLocal);
  }

  /** Starting an event that was already active changes nothing, whatever template is offered. */
  lemma StartIdempotent(r: Registry, e: Event, t: LEDSequence, t': LEDSequence)
    requires Paired(r)
    ensures Start(Start(r, e, t), e, t') == Start(r, e, t)
  {
  }

  /** Stopping undoes a start of an inactive event. */
  lemma StopUndoesStart(r: Registry, e: Event, template: LEDSequence)
    requires Paired(r)
    requires !IsActive(r, e)
    ensures Stop(Start(r, e, template), e) == r
  {
    var r' := Stop(Start(r, e, template), e);
    assert r'.bits == r.bits;
    assert r'.sequences == r.sequences;
  }

  /** A restart followed by a stop leaves the same registry as the stop alone. */
  lemma StopAfterRestart(r: Registry, e: Event, template: LEDSequence)
    requires Paired(r)
    ensures Stop(Restart(r, e, template), e) == Stop(r, e)
  {
    var a := Stop(Restart(r, e, template), e);
    var b := Stop(r, e);
    assert a.bits == b.bits;
    assert a.sequences == b.sequences;
  }

  /** Two registries with the same bits and copies for every event are the same. */
  lemma {:induction false} RegistryExtensionality(a: Registry, b: Registry)
    requires Paired(a) && Paired(b)
    requires forall e :: IsActive(a, e) == IsActive(b, e)
    requires forall e :: e in a.sequences ==> e in b.sequences && a.sequences[e] == b.sequences[e]
    ensures a == b
  {
    forall i | 0 <= i < EventCount ensures a.bits[i] == b.bits[i] {
      assert IsActive(a, EventAt(i)) == IsActive(b, EventAt(i));
    }
    assert a.bits == b.bits;
    assert a.sequences == b.sequences;
  }

  /** Stopping a list of events depends only on which events it names, not on their order or repetition. */
  lemma StopAllIsOrderFree(r: Registry, xs: seq<Event>, ys: seq<Event>)
    requires Paired(r)
    requires forall e :: e in xs <==> e in ys
    ensures StopAll(r, xs) == StopAll(r, ys)
  {
    var a, b := StopAll(r, xs), StopAll(r, ys);
    forall e ensures IsActive(a, e) == IsActive(b, e) {
      assert e in xs <==> e in ys;
    }
    forall e | e in a.sequences ensures e in b.sequences && a.sequences[e] == b.sequences[e] {
      assert IsActive(a, e) == IsActive(b, e);
    }
    RegistryExtensionality(a, b);
  }

  /** Stopping a list is stopping each of its members, in any split of the list. */
  lemma {:induction false} StopAllAppend(r: Registry, xs: seq<Event>, ys: seq<Event>)
    requires Paired(r)
    ensures StopAll(r, xs + ys) == StopAll(StopAll(r, xs), ys)
    decreases |xs|
  {
    if xs == [] {
      assert xs + ys == ys;
    } else {
      assert (xs + ys)[1..] == xs[1..] + ys;
      StopAllAppend(Stop(r, xs[0]), xs[1..], ys);
    }
  }
}
