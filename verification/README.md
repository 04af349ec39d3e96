# ESP32 BLE beacon firmware — session loop model

A Dafny model of the run loop of a bare-metal ESP32 firmware (`src/main.rs`)
that advertises a BLE GATT service with three characteristics, samples an ADC
channel, and sends a notification on `my_characteristic` when the boot
button is held down long enough. The model covers the part of the loop that
has logic of its own:

- **Debounce / long-press detector** (`debounce.dfy`, `debounce_traces.dfy`):
  `debounce_cnt` starts at 500, is decremented while `is_low()` reads low
  and the counter is positive, and goes back to 500 whenever `is_high()`
  reads high. The decrement that reaches 0 is the only point at which a
  notification may be built. The pin is read twice per iteration: once by
  `is_low()` before the decrement and once by `is_high()` before the reset.
  The model keeps both samples (`Reads(atCheck, atReset)`). "Steady"
  iterations, where both samples agree, give the textbook detector.
- **Notification gate** (`notify.dfy`): when the detector fires, the
  firmware reads the CCCD of `my_characteristic` into a one-byte buffer. It
  builds `Notification(my_characteristic_handle, b"Notification")` only if
  the lookup reported exactly one byte and that byte is 1.
- **Read handlers** (`handlers.dfy`): `rf` copies the 20-byte greeting
  `"Hello Bare-Metal BLE"` over the front of the response buffer and reports
  17 valid bytes. `rf3` copies `"Hola!"` and reports 5. Both ignore the
  requested offset. Both slice the buffer unchecked, so a buffer that is too
  short panics, and the model says so (`Panicked`).
- **ADC retry** (`adc.dfy`): the value an iteration uses is the first
  successful read. If every given attempt fails, the firmware is still
  spinning in the retry loop.
- **Session loop and reconnect loop** (`firmware.dfy`,
  `firmware_properties.dfy`): one iteration is ADC, debounce, gate, then the
  attribute server's work call. Only `Ok(GotDisconnected)` ends a session.
  `Ok(DidWork)` and every `Err` keep the loop running. After a disconnect
  the firmware rebuilds the BLE stack, the GATT table and the attribute
  server, so no subscription state survives a session. The CCCD answer is
  an input, so this freshness is stated as a hypothesis on the inputs
  (`FreshSubscriptions`), under which no session notifies in its first
  iteration (`FirstIterationNeverNotifies`). `debounce_cnt` is
  declared once, before the reconnect loop (`src/main.rs:46`), so it does
  survive a reconnect. `ProcessFollowsDebounce` shows that a run across any
  number of sessions behaves like one debounce machine fed every pin sample
  since power-on. A press that starts before a reconnect therefore still
  fires after it.

The radio stack and the hardware are inputs. Each iteration is described by
a `Tick`, which holds:
- the sequence of ADC read results;
- the two pin samples;
- the answer of the CCCD lookup (`Option<CccdRead(len, first byte)>`);
- the outcome of `do_work_with_notification`.

Four behaviours of the code that a reimplementation might not expect, all
modelled as written:
- The counter is not re-initialised at the start of each session. It
  persists from power-on.
- A read of the first characteristic at an offset past the greeting does not
  return zero valid bytes. The offset is ignored and the same 17 bytes are
  reported (`ReadsIgnoreOffset`).
- The 20-byte greeting is copied but only 17 bytes are reported valid. A
  peer therefore receives `"Hello Bare-Metal "` (`PeerReceivesGreetingPrefix`).
- A reading of high does not always release the button. The pin is read
  twice per iteration. If `is_low()` sees it high and `is_high()` then sees
  it low, the counter is neither decremented nor reset. A hold broken by
  such a glitch keeps counting and still fires
  (`GlitchDoesNotReleaseHold`). The "consecutive samples" properties
  (`FiresExactlyAtThreshold`, `PressFiresAtItsThresholdSample`,
  `ShortPressNeverFires`, `NotifiesExactlyAtFullHold`) are therefore stated
  for steady iterations only, and they are false for traces with such
  glitches. What holds on every trace is that the detector never fires
  twice without an `is_high()` reset in between
  (`AtMostOnceBetweenResets`).

## Model

| member | source | states |
|---|---|---|
| Debounce.Step | src/main.rs:127-149 | one iteration keeps the counter in 0..=500; it fires exactly when the first pin sample is low and the counter was 1; a high second sample restores 500; otherwise the counter only moves down by one from a positive value |
| Debounce.Run | src/main.rs:46 | started in range (the firmware starts at 500), the counter stays in 0..=500 after every prefix of any trace, so the `i32` never wraps; there is one firing flag per iteration |
| DebounceTraces.FiresOnlyFromOneToZero | src/main.rs:127-131 | iteration i fires if and only if its first sample is low and the counter before it was 1; with a low second sample the counter is then 0 |
| DebounceTraces.RunMatchesExpected | src/main.rs:127-149 | with steady samples the counter equals an independent reference: the initial counter less the hold length while the button has been down since the start, else 500 less the current hold length, never below 0 |
| DebounceTraces.FiresExactlyAtThreshold | src/main.rs:127-131 | from the power-on counter 500, iteration i fires if and only if the button has been held for exactly 500 consecutive samples ending at i |
| DebounceTraces.AtMostOnceBetweenResets | src/main.rs:127-149 | on any trace, whatever the pin did between its two samples, two firing iterations are separated by an iteration whose `is_high()` sample saw the pin high: the detector never re-fires without a reset |
| DebounceTraces.AtMostOncePerPress | src/main.rs:127-149 | on a steady trace from any counter, between any two firing iterations there is a high sample strictly between them: at most one firing per maximal run of lows |
| DebounceTraces.GlitchDoesNotReleaseHold | src/main.rs:127-149 | `a` low samples, one iteration where `is_low()` sees high and `is_high()` sees low, then `b` low samples with `a + b == 500` still fire on the last sample: such a glitch neither counts nor resets |
| DebounceTraces.PressFiresAtItsThresholdSample | src/main.rs:127-129 | in a run of lows that starts after a release or at power-on, the only sample that fires is the 500th; a shorter run fires nowhere |
| DebounceTraces.HeldAtZero | src/main.rs:127-129 | from counter 0, any number of further low samples keeps the counter at 0 and fires nothing |
| DebounceTraces.ShortPressNeverFires | src/main.rs:147-148 | fewer than 500 lows followed by a high fire in none of those iterations, and the high restores the counter to 500 |
| Notify.Gate | src/main.rs:125-142 | a notification is built if and only if the detector fired and the CCCD lookup returned length 1 with byte 0 equal to 1; any other length or byte gives none; a built notification targets `my_characteristic` with payload `"Notification"` |
| Handlers.ReadGreeting | src/main.rs:63-66 | `rf` panics on a buffer shorter than 20 bytes; otherwise the first 20 bytes become the greeting, the rest is unchanged, and 17 is reported |
| Handlers.ReadHola | src/main.rs:75-78 | `rf3` panics on a buffer shorter than 5 bytes; otherwise the first 5 bytes become `"Hola!"`, the rest is unchanged, and 5 is reported |
| Handlers.ReadsIgnoreOffset | src/main.rs:63-78 | both read handlers give the same result for every requested offset |
| Handlers.PeerReceivesGreetingPrefix | src/main.rs:63-66 | the valid bytes a peer receives from `rf` are exactly `"Hello Bare-Metal "` |
| Handlers.PeerReceivesHola | src/main.rs:75-78 | the valid bytes a peer receives from `rf3` are exactly `"Hola!"` |
| Adc.FirstOk | src/main.rs:110-121 | the value used is a successful attempt preceded only by failures; there is none exactly when every attempt failed |
| Adc.ReadWithRetry | src/main.rs:110-121 | the retry loop returns the first successful reading after logging exactly the failures before it; with no success it has consumed every attempt |
| Firmware.Dispatch | src/main.rs:151-161 | the session loop is left if and only if the work call returned `Ok(GotDisconnected)`; every `Err` continues |
| Firmware.Iterate | src/main.rs:108-161 | an iteration completes if and only if some ADC attempt succeeds, and then uses the first reading; it sends if and only if the first pin sample is low, the counter was 1 and the peer is subscribed; only the fixed notification is ever sent; the session count grows exactly on a disconnect |
| Firmware.Process | src/main.rs:56-162 | across reconnects, every iteration sends nothing or the fixed notification; the run completes every tick unless it gets stuck in the ADC retry loop |
| Firmware.RunSession | src/main.rs:108-162 | the inner loop has the effect of `Process` on the ticks it consumed; it ends at the first `GotDisconnected`, never on an error or `DidWork`, and otherwise only when the ADC stays dead or the input runs out |
| FirmwareProperties.ProcessFollowsDebounce | src/main.rs:46-149 | over any run across any number of sessions, the counter is that of one debounce machine fed every pin sample since the start; a notification is sent exactly when that machine fires and the current session's CCCD says subscribed |
| FirmwareProperties.SessionsCountDisconnects | src/main.rs:56-162 | the number of sessions started is one more per `GotDisconnected` and grows for no other outcome |
| FirmwareProperties.ReadingsAreFirstOk | src/main.rs:110-122 | every completed iteration used the first successful ADC reading of its tick; a run stops only at a tick whose every read failed |
| FirmwareProperties.OnlyCounterCarriesOver | src/main.rs:46-106 | two runs that start with the same counter give the same readings, notifications, stall and counter whatever their session count: the session count influences nothing, and the counter is the only state the model threads from one session to the next |
| FirmwareProperties.FirstIterationNeverNotifies | src/main.rs:83-142 | if the CCCD lookup in the first iteration of every session (tick 0 and each tick after a disconnect) does not answer "subscribed", as a freshly rebuilt attribute server implies, then no session notifies in its first iteration, even when the debounce fires there |
| FirmwareProperties.NotifiesExactlyAtFullHold | src/main.rs:46-149 | from power-on with steady pin samples, the firmware notifies exactly in the iterations where the button has been held for exactly 500 samples and the current peer is subscribed, also when the hold began before a reconnect |

## Left out

- `src/bluetooth.rs` (`print_ble_init`): it only issues HCI initialisation and advertising commands to the BLE library and prints the results.
- Peripheral, clock, timer, radio and ADC configuration (`src/main.rs:30-54`): one-time hardware set-up with no ongoing behaviour.
- The `gatt!` expansion and the attribute server: they are library code. The CCCD lookup answer and the work-call outcome are per-iteration inputs, and the server's handling of peer CCCD writes is not modelled.
- FirmwareProperties.OnlyCounterCarriesOver: the model has no subscription state of its own. The CCCD answer is a free per-tick input, so without the `FreshSubscriptions` hypothesis a session's first lookup may answer "subscribed". How later lookups in a session follow the peer's CCCD writes is the attribute server's business and is not modelled.
- The write handlers `wf`, `wf2` and `wf3`: they only log the offset and the data and change no state.
- `println!` logging and `delay.delay_ms(500)`: side effects with no effect on the logic. The delay only sets the real-time length of a 500-sample hold.
- The ADC read, GPIO reads and radio I/O: these are the `Tick` inputs.
- The reconnect loop as a liveness property: runs are finite sequences of ticks. A tick whose ADC attempts all fail stands for the firmware spinning forever in the retry loop.
- The error value of a failed ADC read and of a failed work call: both are only logged.
