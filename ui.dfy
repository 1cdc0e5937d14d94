/**
 * The value types of the status-signalling user interface: fixed-width
 * integers, colours, LED frames and sequences, and the priority-ordered
 * event enumeration.
 *
 * The firmware targets ESP32 parts, whose C++ ABI has a 32-bit
 * `unsigned long`; the millisecond-to-microsecond conversion of the frame
 * and sequence countdowns is formed in that width and only then widened
 * to 64 bits, so it is modelled here with its wrap-around.
 */
module Ui {

  const UInt8Modulus: nat := 0x100
  const ULongModulus: nat := 0x1_0000_0000
  const UInt64Modulus: nat := 0x1_0000_0000_0000_0000

  type UInt8 = x: nat | x < UInt8Modulus
  /** `unsigned long` on the 32-bit target */
  type ULong = x: nat | x < ULongModulus
  type UInt64 = x: nat | x < UInt64Modulus

  /** The largest millisecond count whose microsecond value still fits in an `unsigned long`. */
  const MaxExactMs: nat := 4_294_967

  /**
   * `duration_ms * 1000UL`, computed in `unsigned long` and widened to
   * `uint64_t`: the product modulo 2^32. It is the exact microsecond count
   * precisely when the duration is at most `MaxExactMs`.
   */
  function UsFromMs(ms: ULong): (us: UInt64)
    ensures us < ULongModulus
    ensures (ms * 1000 - us) % ULongModulus == 0
    ensures us == ms * 1000 <==> ms <= MaxExactMs
  {
    (ms * 1000) % ULongModulus
  }

  datatype RGBColour = RGBColour(red: UInt8, green: UInt8, blue: UInt8)

  const Off := RGBColour(0, 0, 0)
  const Red := RGBColour(255, 0, 0)
  const Orange := RGBColour(255, 96, 0)
  const Yellow := RGBColour(255, 255, 0)
  const Green := RGBColour(0, 255, 0)
  const Cyan := RGBColour(0, 255, 255)
  const Blue := RGBColour(0, 0, 255)
  const Magenta := RGBColour(255, 0, 255)
  const White := RGBColour(255, 255, 255)

  /** One animation frame with its own countdown. */
  datatype LEDState = LEDState(colour: RGBColour, durationMs: ULong, remainingUs: UInt64)

  /** An animation: its frames, its overall duration and the overall countdown. */
  datatype LEDSequence = LEDSequence(durationMs: ULong, states: seq<LEDState>, remainingUs: UInt64)

  /** A frame as its aggregate initialiser builds it: the countdown comes from the default member initialiser. */
  function NewLEDState(colour: RGBColour, durationMs: ULong): (s: LEDState)
    ensures s.colour == colour && s.durationMs == durationMs
    ensures s.remainingUs < ULongModulus
    ensures (durationMs * 1000 - s.remainingUs) % ULongModulus == 0
    ensures s.remainingUs == durationMs * 1000 <==> durationMs <= MaxExactMs
  {
    LEDState(colour, durationMs, UsFromMs(durationMs))
  }

  /** A sequence as its aggregate initialiser builds it. */
  function NewLEDSequence(durationMs: ULong, states: seq<LEDState>): (s: LEDSequence)
    ensures s.durationMs == durationMs && s.states == states
    ensures s.remainingUs < ULongModulus
    ensures (durationMs * 1000 - s.remainingUs) % ULongModulus == 0
    ensures s.remainingUs == durationMs * 1000 <==> durationMs <= MaxExactMs
  {
    LEDSequence(durationMs, states, UsFromMs(durationMs))
  }

  /** A frame whose countdown has not moved since it was built. */
  predicate FreshState(s: LEDState) {
    s.remainingUs == UsFromMs(s.durationMs)
  }

  /** A sequence whose overall countdown and every frame countdown are as built. */
  predicate Pristine(s: LEDSequence) {
    && s.remainingUs == UsFromMs(s.durationMs)
    && forall i :: 0 <= i < |s.states| ==> FreshState(s.states[i])
  }

  /** Network state as reported by the network layer. */
  datatype NetworkState = Disconnected | Connecting | Connected | Failed

  /** The signalled conditions, ordered by priority from highest to lowest. */
  datatype Event =
    | NetworkUnconfiguredFailed
    | NetworkConfiguredFailed
    | NetworkError
    | NetworkConfiguredConnecting
    | NetworkConfiguredDisconnected
    | NetworkUnconfiguredConnecting
    | NetworkUnconfiguredDisconnected
    | OtaUpdateError
    | Identify
    | LightSwitchedRemote
    | LightSwitchedLocal
    | OtaUpdateOk
    | NetworkConnect
    | NetworkConnected
    | Idle

  const IdleOrdinal: nat := 14
  /** The number of bits of the presence set: one per event. */
  const EventCount: nat := IdleOrdinal + 1

  /** The position of an event in the declaration, i.e. its priority rank (0 is highest). */
  function Ordinal(e: Event): (i: nat)
    ensures i <= IdleOrdinal
    ensures i == IdleOrdinal <==> e == Idle
  {
    match e
    case NetworkUnconfiguredFailed => 0
    case NetworkConfiguredFailed => 1
    case NetworkError => 2
    case NetworkConfiguredConnecting => 3
    case NetworkConfiguredDisconnected => 4
    case NetworkUnconfiguredConnecting => 5
    case NetworkUnconfiguredDisconnected => 6
    case OtaUpdateError => 7
    case Identify => 8
    case LightSwitchedRemote => 9
    case LightSwitchedLocal => 10
    case OtaUpdateOk => 11
    case NetworkConnect => 12
    case NetworkConnected => 13
    case Idle => 14
  }

  /** The event declared at a given position: every bit of the presence set belongs to exactly one event. */
  function EventAt(i: nat): (e: Event)
    requires i < EventCount
    ensures Ordinal(e) == i
  {
    match i
    case 0 => NetworkUnconfiguredFailed
    case 1 => NetworkConfiguredFailed
    case 2 => NetworkError
    case 3 => NetworkConfiguredConnecting
    case 4 => NetworkConfiguredDisconnected
    case 5 => NetworkUnconfiguredConnecting
    case 6 => NetworkUnconfiguredDisconnected
    case 7 => OtaUpdateError
    case 8 => Identify
    case 9 => LightSwitchedRemote
    case 10 => LightSwitchedLocal
    case 11 => OtaUpdateOk
    case 12 => NetworkConnect
    case 13 => NetworkConnected
    case _ => Idle
  }

  /** `a` is signalled in preference to `b`. */
  predicate Outranks(a: Event, b: Event) {
    Ordinal(a) < Ordinal(b)
  }

  /** Ordinals are a bijection between events and the bit positions 0 .. IDLE. */
  lemma OrdinalInjective(a: Event, b: Event)
    ensures Ordinal(a) == Ordinal(b) <==> a == b
    ensures EventAt(Ordinal(a)) == a
  {
  }

  /** The priority order is a strict total order, highest `NetworkUnconfiguredFailed`, lowest `Idle`. */
  lemma OutranksIsStrictTotalOrder(a: Event, b: Event, c: Event)
    ensures !Outranks(a, a)
    ensures Outranks(a, b) && Outranks(b, c) ==> Outranks(a, c)
    ensures a != b ==> Outranks(a, b) || Outranks(b, a)
    ensures a != NetworkUnconfiguredFailed ==> Outranks(NetworkUnconfiguredFailed, a)
    ensures a != Idle ==> Outranks(a, Idle)
  {
    OrdinalInjective(a, b);
    OrdinalInjective(a, NetworkUnconfiguredFailed);
  }
}
