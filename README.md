# ESP32-LoRa-TTNv3 uplink/downlink controller in Dafny

This project models the application-level LoRaWAN controller of the
ESP32-LoRa-TTNv3 firmware. The controller sits on top of the LMIC MAC library.
It is modelled in the configuration with over-the-air activation and no
battery pin (`ADC_PIN` undefined).

- `do_send` is a single-flight send guard. While LMIC reports a pending
  exchange (`OP_TXRXPEND`) it does nothing. Otherwise it increments
  `txFrameCounter`, writes `"Fcnt=<counter>"` into the 64-byte `mydata`
  buffer and queues one uplink on port 1, unconfirmed.
- `onEvent` is a switch over LMIC's events. Each event gets a status or error
  line, or only a log line. `EV_JOINED` switches the link check off.
  `EV_TXCOMPLETE` counts a downlink when one arrived, dumps and displays its
  bytes, draws the counters and reschedules `do_send` one interval later.
- `setup`, `start` and `runOnce` reset the MAC, send once, and let the
  scheduler run the queued `sendjob`.
- `printHex2` writes a byte as two hex digits.
- `lora_send` builds the same payload from a counter it is given, and queues
  it.

Layout, one module per file:

- `Wrappers.dfy` holds `Option`.
- `Text.dfy` holds decimal and hexadecimal rendering, with parsers.
- `Payload.dfy` holds the 32-bit counters, `%ld`, the `Fcnt=` payload,
  `strlen`/`sprintf` on the buffer, and the battery-pin pieces.
- `Lmic.dfy` is the abstract MAC: a pending flag, the received frame, a log of
  queued uplinks, the `sendjob` slot and the link-check mode.
- `LoRaWANHandler.dfy` holds the events, what the handler shows, and the
  `Handler` class.
- `LoraSend.dfy` holds `lora_send`.

The state the firmware keeps in globals becomes fields of one `Handler`
object: `txFrameCounter`, `rxFrameCounter`, `mydata` (an `array`), and the
LMIC instance `mac`. What reaches the status display, the OLED and the serial
hex dump is recorded in `outputs`.

The object invariant `Handler.Valid` states the counter discipline. The k-th
uplink ever queued carries `Fcnt=k` (modulo 2^32), and `txFrameCounter`
equals the number of queued uplinks (modulo 2^32). Every handler method
preserves it. `UplinksDistinct` derives from it that no payload repeats
before the counter wraps.

Counters are `unsigned long`, which is 32 bits on the ESP32. So `++` wraps
modulo 2^32 (`Inc32`). The code prints them with `%ld`, which reads the
bits as a signed `long`; `FormatLong` models that. Below 2^31 this is the
plain decimal (`FormatLongSmall`). From 2^31 on, the payload shows a minus
sign; `FcntRoundTrip` shows that the counter can still be recovered.

The code does not do the following, and neither does the model:

- The code has no frame-counter persistence, no destructive sleep, no ABP
  session setup, no `rssi` field and no scheduling policy. It always
  re-arms `sendjob`.
- `EV_JOINED` draws "JOINED" at (0, 12) directly. It does not go through the
  status notifier.
- The downlink is dumped inside `onEvent`. The separate receive handler is
  never called from the files modelled here.
- The payload builder never truncates. Instead, `FcntFits` and
  `BatteryFcntFits` prove the payload always fits in the buffer.

## Model

| member | source | states |
|---|---|---|
| `Text.Decimal` | lib/LoRaWANHandler/LoRaWANHandler.cpp:106 | the `%ld` digits are non-empty, all decimal digits, and start with '0' only for zero |
| `Text.DecimalRoundTrip` | lib/LoRaWANHandler/LoRaWANHandler.cpp:106 | reading the decimal digits back gives the number, so the rendering is lossless |
| `Text.DecimalLength` | lib/LoRaWANHandler/LoRaWANHandler.cpp:106 | a number below 10^k has at most k digits |
| `Text.SignedDecimal` | lib/LoRaWANHandler/LoRaWANHandler.cpp:106 | the signed rendering starts with '-' exactly for negative values |
| `Text.SignedRoundTrip` | lib/LoRaWANHandler/LoRaWANHandler.cpp:106 | parsing the signed rendering gives back the signed value |
| `Text.PrintHex2Spec` | lib/LoRaWANHandler/LoRaWANHandler.cpp:74-80 | `printHex2(v)` writes exactly two upper-case hex digits; they read back as `v & 0xff`; the first is '0' iff that byte is below 16 |
| `Text.Hex02IsPrintHex2` | lib/LoRaWANHandler/LoRaWANHandler.cpp:209 | the `%02X` conversion of a byte equals `printHex2` of it |
| `Text.Hex02RoundTrip` | lib/LoRaWANHandler/LoRaWANHandler.cpp:216 | the two `%02X` digits read back as the byte |
| `Payload.Inc32` | lib/LoRaWANHandler/LoRaWANHandler.cpp:91 | `txFrameCounter++` on a 32-bit `unsigned long` yields (x + 1) mod 2^32 |
| `Payload.AsLong` | lib/LoRaWANHandler/LoRaWANHandler.cpp:106 | `%ld` sees a signed 32-bit value congruent to the counter modulo 2^32 |
| `Payload.FormatLongSmall` | lib/LoRaWANHandler/LoRaWANHandler.cpp:106 | below 2^31 the counter is written as its plain decimal digits |
| `Payload.FormatLongLength` | lib/LoRaWANHandler/LoRaWANHandler.cpp:106 | `%ld` of a 32-bit counter takes 1 to 11 characters |
| `Payload.FcntRoundTrip` | lib/LoRaWANHandler/LoRaWANHandler.cpp:106 | a receiver that parses "Fcnt=" and the number recovers exactly the counter the payload was built from |
| `Payload.FcntInjective` | src/lora_send.cpp:21 | different counters give different payload texts |
| `Payload.FcntFits` | lib/LoRaWANHandler/LoRaWANHandler.cpp:105-106 | the payload is 6 to 16 characters long, so with its NUL it fits the 64-byte `mydata` |
| `Payload.AsciiBytes` | lib/LoRaWANHandler/LoRaWANHandler.cpp:106 | the bytes `sprintf` stores for an ASCII text match its characters one for one and contain no NUL |
| `Payload.FcntBytes` | lib/LoRaWANHandler/LoRaWANHandler.cpp:106-110 | the payload bytes handed to the MAC contain no NUL and, with the terminator, fit in `mydata` |
| `Payload.FcntBytesInjective` | lib/LoRaWANHandler/LoRaWANHandler.cpp:106-110 | different counters give different uplink payload bytes |
| `Payload.Strlen` | lib/LoRaWANHandler/LoRaWANHandler.cpp:110 | `strlen` returns the index of the first NUL: every byte before it is non-zero |
| `Payload.StrlenOfText` | lib/LoRaWANHandler/LoRaWANHandler.cpp:106-110 | after `sprintf`, `strlen(mydata)` is the payload length without the terminator |
| `Payload.WriteCString` | lib/LoRaWANHandler/LoRaWANHandler.cpp:106 | `sprintf` leaves the text, then a NUL, then the untouched old bytes in the buffer |
| `Payload.SumBatterySamples` | lib/LoRaWANHandler/LoRaWANHandler.cpp:94-99 | with a battery pin, exactly `NO_BAT_SAMPLES` (64) successive ADC reads are summed |
| `Payload.SampleSumExact` | src/lora_send.cpp:9-14 | 64 twelve-bit readings sum below 2^24, so the `float` accumulator adds them exactly |
| `Payload.BatteryFcntFields` | src/lora_send.cpp:19 | with a battery pin, the payload starts "Fcnt=<counter>, bat=", ends with "V", and its counter field parses back to the counter |
| `Payload.BatteryFcntFits` | lib/LoRaWANHandler/LoRaWANHandler.cpp:104 | with a battery pin, any voltage up to 6.60 V still fits the 64-byte buffer |
| `Lmic.Mac.Init` | lib/LoRaWANHandler/LoRaWANHandler.cpp:293-296 | after `os_init(); LMIC_reset();` nothing is pending, queued or scheduled |
| `Lmic.Mac.SetTxData2` | lib/LoRaWANHandler/LoRaWANHandler.cpp:110 | queuing appends exactly one uplink (port, data, confirmed flag) and changes nothing else |
| `Lmic.Mac.SetTimedCallback` | lib/LoRaWANHandler/LoRaWANHandler.cpp:230 | the single `sendjob` slot now holds the new due time; nothing else changes |
| `Lmic.Mac.TakeSendjob` | lib/LoRaWANHandler/LoRaWANHandler.cpp:301 | the scheduler empties the `sendjob` slot before it runs the job |
| `Lmic.Mac.SetLinkCheckMode` | lib/LoRaWANHandler/LoRaWANHandler.cpp:182 | the link-check mode becomes the given value; nothing else changes |
| `LoRaWANHandler.NoticeClasses` | lib/LoRaWANHandler/LoRaWANHandler.cpp:120-281 | the dispatch is total: exactly the six error events report one error, exactly the four status events report one status, and `TxComplete`, `Joined` and the log-only events (including the `default` branch) report nothing through the notifier |
| `LoRaWANHandler.NoticeDistinct` | lib/LoRaWANHandler/LoRaWANHandler.cpp:138-275 | every reporting event has its own fixed text |
| `LoRaWANHandler.DownlinkRendering` | lib/LoRaWANHandler/LoRaWANHandler.cpp:207-218 | all `dataLen` bytes are dumped; only the first min(8, `dataLen`) are drawn, the i-th at x = 16·i on row 36; every hex pair reads back as its byte |
| `LoRaWANHandler.KeyText` | lib/LoRaWANHandler/LoRaWANHandler.cpp:162-176 | a session key line has 3n-1 characters: n two-digit fields separated by '-', each reading back as its key byte |
| `LoRaWANHandler.UplinksDistinct` | lib/LoRaWANHandler/LoRaWANHandler.cpp:89-111 | in a history where the k-th uplink carries counter k, no two payloads are equal before the counter wraps |
| `LoRaWANHandler.Handler.Setup` | lib/LoRaWANHandler/LoRaWANHandler.cpp:284-297 | the counters start at 0, the buffer is zeroed, the MAC is reset, and the counter invariant holds |
| `LoRaWANHandler.Handler.DoSend` | lib/LoRaWANHandler/LoRaWANHandler.cpp:82-114 | when TX/RX is pending, nothing changes; otherwise the counter goes up by one and exactly one uplink is queued, on port 1, unconfirmed, carrying "Fcnt=" and the new counter, with length `strlen(mydata)`; `mydata` holds the payload and its NUL; the invariant is kept |
| `LoRaWANHandler.Handler.Start` | lib/LoRaWANHandler/LoRaWANHandler.cpp:304-307 | `start()` has exactly the effect of one `do_send` |
| `LoRaWANHandler.Handler.RunOnce` | lib/LoRaWANHandler/LoRaWANHandler.cpp:299-302 | a due `sendjob` is taken off the queue and runs `do_send` once; a job that is not due changes nothing |
| `LoRaWANHandler.Handler.OnEvent` | lib/LoRaWANHandler/LoRaWANHandler.cpp:116-282 | no event queues an uplink or changes `txFrameCounter`; only `TxComplete` changes `rxFrameCounter` (by one iff `dataLen != 0`) or schedules `do_send` (at now + the interval); only `Joined` sets the link-check mode (to 0) and draws "JOINED"; each error or status event produces exactly its one notification; log-only events show nothing |
| `LoRaWANHandler.Handler.OnTxComplete` | lib/LoRaWANHandler/LoRaWANHandler.cpp:195-231 | `EV_TXCOMPLETE` clears the display, counts and renders a non-empty downlink, draws the TX/RX counter lines and reschedules `sendjob` |
| `LoRaWANHandler.Handler.DumpDownlink` | lib/LoRaWANHandler/LoRaWANHandler.cpp:207-211 | the serial loop writes one "%02X " per received byte, for all of them, in order |
| `LoRaWANHandler.Handler.DrawDownlink` | lib/LoRaWANHandler/LoRaWANHandler.cpp:213-218 | the display loop draws the first min(8, `dataLen`) bytes at x = 16·i, y = 36 |
| `LoraSend.LoraSender.constructor` | src/lora_send.cpp:4 | the file's own static 64-byte buffer |
| `LoraSend.LoraSender.Send` | src/lora_send.cpp:6-27 | exactly one uplink is queued, on port 1, unconfirmed, carrying "Fcnt=" and the counter as passed (not incremented), with length `strlen(mydata)`; the pending flag is not consulted |

## Left out

- Serial output other than the downlink hex dump is not modelled: the
  `os_getTime()` prefix, the event names, "Received ack", "Packet queued",
  and netid/devaddr after a join. These are log lines with no effect on the
  controller. The session-key line is modelled on its own by `KeyText`.
  `OnEvent` does not produce it, because the keys come from
  `LMIC_getSessionKeys` inside LMIC.
- `display.display()` flushes, the drawing primitives inside
  `printStatus`/`printError`, and the `BUILTIN_LED` write on join are not
  modelled. They are output-only.
- LMIC internals are not modelled. `txrxPending` and `rxData` are set by the
  environment. `SetTxData2` only records the uplink. It does not model
  LMIC's size check, its ignored return code, or the moment OP_TXRXPEND is
  raised. `RunOnce` models only how `os_runloop_once` runs the due `sendjob`.
  Radio events are delivered by calling `OnEvent`.
- `Handler.RunOnce`: does not model `os_runloop_once` running other jobs,
  because those belong to LMIC.
- Time is an unbounded integer parameter (`now`, from `os_getTime()`). The
  32-bit wrap of `ostime_t` is not modelled.
  `sec2osticks(TTN_TX_INTERVAL)` is a constructor parameter, because the
  constant is defined outside the files modelled here.
- The battery voltage arithmetic (`bat_sum * 6.6 / 4095.0` and `%.02f`) is
  floating point and is not modelled. `BatteryFcnt` takes the voltage
  already rounded to hundredths. `DoSend` and `LoraSender.Send` are modelled
  for the configuration without `ADC_PIN`. The battery branch is represented
  by `SumBatterySamples`, `BatteryFcntFields` and `BatteryFcntFits`.
- `Handler.Setup`: does not model the `VCC_ENABLE` branch (a pin write and
  a one-second delay), because it is board wiring.
- `printPinout`, `src/main.cpp` (boot, WiFi, `printAsDouble`),
  `src/lora_receive.cpp` and `extra_scripts.py` are not part of this model.
  They are I/O, hardware setup or build scripting.
