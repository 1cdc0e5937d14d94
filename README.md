# Status-signalling state of the nutt user interface

This project models the state that `nutt::UserInterface` (an ESP32 Zigbee
light controller) keeps to signal its status on an RGB LED. That state is:

- the `ui::Event` enumeration, declared in priority order from highest to lowest, with `IDLE` last;
- the active-event registry: a `std::bitset` with one bit per event, and an
  `std::unordered_map` from each active event to its own live copy of an `LEDSequence`;
- the `LEDState` frame and `LEDSequence` records, whose microsecond countdowns
  start at `duration_ms * 1000`;
- the button polarity, the debounce fields and constants, and the render cursor.

The model has three modules:

- `Ui` (ui.dfy) holds the value types. It also holds the event ordinals and
  their inverse, and the millisecond-to-microsecond conversion. The firmware
  targets ESP32 parts, where `unsigned long` is 32 bits wide. The product
  `duration_ms * 1000UL` is therefore formed modulo 2^32 before it is widened
  to `uint64_t`. `UsFromMs` models that wrap: the countdown is exact exactly
  when the duration is at most 4 294 967 ms.
- `EventRegistry` (registry.dfy) treats the bitset and the map as one value.
  It defines start, restart, stop, stop-many and the highest-active scan as
  functions, and proves their properties.
- `Nutt` (user_interface.dfy) holds the class `UserInterface`. The bitset is
  an `array<bool>` that the methods update in place. The map is a field that
  they reassign. Each registry method's postcondition ties the new
  `Snapshot()` to the matching `EventRegistry` function of the old one.
  `Valid()` keeps the pairing invariant: an event has a live sequence exactly
  when its bit is set, and every event with a live sequence has a template.

The bodies of `start_event`, `restart_event`, `event_active`, `stop_event`
and `stop_events` are in ui.cpp, which is not part of this model. They are
written here as design contracts, fixed by the names and the fields the
methods own, not as transcribed code:

- start activates an inactive event with a copy of its template and leaves an active one untouched;
- restart always installs a new copy;
- stop clears the bit and drops the copy;
- stop-many is stop applied to each event of the list;
- the query reads the bit.

The template table `led_sequences_` is defined in ui.cpp, which is not part of
this model. It is therefore a constructor parameter. Its templates must be as
their aggregate initialisers build them (`Pristine`). Starting or restarting an event
requires a template for it. Activating an event that has no template is
treated as a caller's error, not as a handled case.

## Model

| member | source | states |
|---|---|---|
| `Ui.UsFromMs` | src/nutt/ui.h:66 | the `unsigned long` product is below 2^32 and congruent to `ms * 1000` modulo 2^32; it equals `ms * 1000` if and only if `ms <= 4294967` |
| `Ui.NewLEDState` | src/nutt/ui.h:62-67 | a new frame keeps its colour and duration; its countdown is below 2^32, congruent to `duration_ms * 1000` modulo 2^32, and equal to it exactly when that product does not wrap |
| `Ui.NewLEDSequence` | src/nutt/ui.h:69-74 | a new sequence keeps its frames and duration; its countdown is below 2^32, congruent to `duration_ms * 1000` modulo 2^32, and equal to it exactly when that product does not wrap |
| `Ui.Ordinal` | src/nutt/ui.h:76-93 | every event has an ordinal no larger than `IDLE`'s, and only `IDLE` has the last one |
| `Ui.EventAt` | src/nutt/ui.h:160 | every bit position `0 .. IDLE` belongs to an event, the one whose ordinal it is |
| `Ui.OrdinalInjective` | src/nutt/ui.h:77-93 | distinct events have distinct ordinals, and `EventAt` inverts `Ordinal` |
| `Ui.OutranksIsStrictTotalOrder` | src/nutt/ui.h:76-93 | priority is a strict total order, with `NETWORK_UNCONFIGURED_FAILED` above every other event and `IDLE` below every other event |
| `EventRegistry.Empty` | src/nutt/ui.h:160-161 | a default-constructed registry is paired and has no event active |
| `EventRegistry.Start` | src/nutt/ui.h:135 | start keeps the pairing and leaves the event active; it changes nothing if the event was already active, otherwise it installs the template; other events are untouched |
| `EventRegistry.Restart` | src/nutt/ui.h:136 | restart keeps the pairing; the event is active with exactly the template as its live copy; other events are untouched |
| `EventRegistry.Stop` | src/nutt/ui.h:138 | stop keeps the pairing; the event's bit is clear and it has no live copy; other events are untouched |
| `EventRegistry.StopAll` | src/nutt/ui.h:139 | stopping a list keeps the pairing; an event stays active exactly when it was active and is not in the list; the remaining copies are unchanged |
| `EventRegistry.FirstActiveFrom` | src/nutt/ui.h:76-93 | the scan from position `i` returns the first set bit at or after `i`, or `IDLE`'s position when none before it is set |
| `EventRegistry.HighestActive` | src/nutt/ui.h:76-93 | the rendered event is active (or `IDLE`) and no active event outranks it; it is `IDLE` exactly when no other event is active |
| `EventRegistry.HighestActiveUnique` | src/nutt/ui.h:76-93 | that characterisation determines the rendered event uniquely |
| `EventRegistry.HighestAfterStart` | src/nutt/ui.h:135 | after a start, the rendered event is the started one if it outranks the previous one; otherwise it is unchanged |
| `EventRegistry.HighestAfterStopOther` | src/nutt/ui.h:138 | stopping any event other than the rendered one leaves the rendered event unchanged |
| `EventRegistry.HighestAfterStopHighest` | src/nutt/ui.h:138 | stopping the rendered event falls through to a lower-priority event, the highest of those still active |
| `EventRegistry.NetworkErrorShownBeforeLocalSwitch` | src/nutt/ui.h:80-88 | with `NETWORK_ERROR` and `LIGHT_SWITCHED_LOCAL` both active, the first is rendered, and stopping it renders the second |
| `EventRegistry.StartIdempotent` | src/nutt/ui.h:135 | a second start of the same event changes nothing; in particular it does not reset its countdowns |
| `EventRegistry.StopUndoesStart` | src/nutt/ui.h:135-138 | stopping an event that a start has just activated gives back the registry from before the start |
| `EventRegistry.StopAfterRestart` | src/nutt/ui.h:136-138 | restarting an event and then stopping it gives the same registry as stopping it alone |
| `EventRegistry.RegistryExtensionality` | src/nutt/ui.h:160-161 | two paired registries that agree on every event's bit and copy are equal |
| `EventRegistry.StopAllIsOrderFree` | src/nutt/ui.h:139 | stopping a list depends only on which events it names, not on their order or repetition |
| `EventRegistry.StopAllAppend` | src/nutt/ui.h:139 | stopping `xs + ys` equals stopping `xs` and then `ys` |
| `Nutt.PressWindowShorterThanRelease` | src/nutt/ui.h:123-124 | the press debounce window (100 000 µs) is shorter than the release window (1 000 000 µs), by a factor of ten |
| `Nutt.UserInterface.ButtonActive` | src/nutt/ui.h:128 | the pressed level is 0 or 1, and it is 0 exactly when the button is active-low |
| `Nutt.UserInterface.ButtonInactive` | src/nutt/ui.h:129 | the released level is 0 or 1 and always differs from the pressed level |
| `Nutt.UserInterface.constructor` | src/nutt/ui.h:148-161 | both button levels start released, with the timestamp and both counters at 0; the render cursor starts at `IDLE` and time 0; the registry starts empty and paired |
| `Nutt.UserInterface.StartEvent` | src/nutt/ui.h:135 | the new registry is `Start` of the old one with this event's template; pairing and the other fields are preserved |
| `Nutt.UserInterface.RestartEvent` | src/nutt/ui.h:136 | the new registry is `Restart` of the old one; the event's live copy has fresh countdowns |
| `Nutt.UserInterface.EventActive` | src/nutt/ui.h:137 | the result is the event's bit, which is set exactly when the event has a live sequence; nothing changes |
| `Nutt.UserInterface.StopEvent` | src/nutt/ui.h:138 | the new registry is `Stop` of the old one; pairing is preserved |
| `Nutt.UserInterface.StopEvents` | src/nutt/ui.h:139 | the new registry is the old one with every listed event stopped in turn, as `StopAll` |

## Left out

- The countdown stepping of `update_led` is left out because its body is not part of this model. That covers frame advance, catch-up, sequence expiry and the sleep duration it returns. The model promises nothing about a live copy after it is installed: it does not assume the copy keeps its template's frames or duration. The class has no frame-index field, so the playback position within a sequence is not modelled.
- The debounce transitions in `run_tasks` and the `WakeupThread` sleep scheduling are left out because their bodies are not part of this model. Only the debounce fields, their initial values and the two window constants are modelled.
- The GPIO interrupt path is left out because it is concurrency plumbing. That covers `ui_network_join_interrupt_handler`, `network_join_interrupt_handler` and the atomic `button_change_count_irq_`.
- The `mutex_` locking is left out: each method is one atomic step of the model. So `StopEvents` never shows a half-cleared registry.
- `set_led`, the LED strip handle, `LED_LEVEL`, `uart_handler`, `start` and `attach` are left out because they are hardware output or I/O. So are the logging reference, the device pointer and the button pin.
- `network_state`, `identify`, `light_switched` and `ota_update` are left out because only their declarations are visible. Which event each one starts, and with what duration, is fixed in ui.cpp, which is not part of this model.
- The contents of the `led_sequences_` table are not modelled, because the table is defined in ui.cpp. The constructor takes the table as a parameter.
- src/nutt/device.h is left out because it is Zigbee cluster configuration and RTOS plumbing.
- The colour constants and the `NetworkState` enumeration are plain values; no operation uses them in this model, since `network_state` is left out.
- Nutt.UserInterface.StartEvent: the path where the event has no template in `led_sequences_` is not modelled. That table and the lookup are in ui.cpp, which is not part of this model, so having a template is a precondition.
- Nutt.UserInterface.RestartEvent: the missing-template path is not modelled either, for the same reason; having a template is a precondition.
