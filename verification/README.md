# Electronic load firmware: DAC encoder, calibration lookup and current shaper

A Dafny model of three pieces of the electronic-load firmware, with proofs of what they
compute.

- **DAC** (module `Dac`, file `dac.dfy`). This is the R-2R digital-to-analog converter.
  - A set-point is spread over a list of GPIO pins. Pin `nr` carries bit `nr` of the value.
  - Each pin lives on one of the two 32-bit GPIO ports. Pins 0-31 are on port 1; pins 32-63 are on port 2 at offset `pin - 32`.
  - `prepareRaw` turns a value into four masks: a set mask and a clear mask for each port.
  - `setRaw` writes the non-empty masks to the write-1-to-clear and write-1-to-set registers, clears first.
  - `set` is `prepareRaw` followed by `setRaw`.
  - `preparePreset` and `setPreset` store masks in a flat table of four words per preset and replay them later. Both guard against out-of-range presets.
  - The GPIO output registers are modelled as two words, and a register write is a `Write` record. `ApplyAll` plays a list of writes against the two words.
  - A 32-bit word is the set of positions of its 1-bits: `|` is union, `& ~` is difference, and `1 << b` is `{b}`.
- **Board** (module `Board`, file `board.dfy`). The DAC as the firmware instantiates it: twelve distinct pins, three on port 1 and nine on port 2, and 8 presets. It also covers the concrete masks for zero and full scale.
- **Calibration** (module `Calibration`, file `calibration.dfy`). It maps an ADC reading through a table of (ADC value, calibrated value) pairs.
  - `findIdx` is a recursive binary search over a `uint8_t` index range.
  - `getCalibratedValue` returns the reading unchanged when the index is 0 or 1. Otherwise it interpolates linearly between entries `idx - 1` and `idx`.
  - Floats are reals. A division by zero, which for floats yields an infinity or NaN, is the `NonFinite` reading.
- **Shaper** (module `Shaping`, file `shaper.dfy`). A state machine that plays back a program of (current, duration) entries.
  - `handle` either starts the current entry, or advances once its duration has elapsed, or stops with 0.0 after the last entry.
  - A `lastChangeMicros` of 0 marks an entry not yet started.
  - `pulse` replaces the program with a one-entry program and starts it.
  - The clock reads are parameters. `now` is the read at the top of `handle`. `later` is the second read, which `handle` stores only in the first-entry branch, when the stamp is 0 (shaper.h:45). An entry reached by advancing is stamped with `now` (shaper.h:63).
  - Clock reads are arbitrary `uint64` values. A 32-bit `micros()` widened to 64 bits is treated separately, in the finding on shaper.h:40-49.
  - The values passed to the load form the output trace `emitted`.
  - `isActive` is the `active` field (`Shaping.IsActive`).

`Ints` (file `ints.dfy`) holds the fixed-width integer types, powers of two and the bit
extraction `Bit(v, nr)`, together with the arithmetic lemmas the DAC proofs use.

## Model

| member | source | states |
|---|---|---|
| Dac.PrepareRaw | Firmware/src/dac.h:69-93 | For every port, level and bit position, the bit is in that port's mask for that level exactly when some pin index `nr` maps to that port bit and bit `nr` of the value equals the level. So all four masks start empty and gain only configured pins' bits. |
| Dac.EncodesUnique | Firmware/src/dac.h:69-93 | The encoding property determines all four masks: two mask sets that both encode a value for a pin list are equal. |
| Dac.PinLevels | Firmware/src/dac.h:75-91 | With distinct pins, pin `nr`'s bit in its port is in the set mask iff bit `nr` of the value is 1, and in the clear mask iff it is 0. |
| Dac.PortSeparation | Firmware/src/dac.h:79-90 | If all pins are at most 31, both port-2 masks are empty. If all pins are at least 32, both port-1 masks are empty. |
| Dac.PortPartition | Firmware/src/dac.h:70-91 | A port's set mask united with its clear mask is exactly the set of pins configured on that port. With distinct pins the two masks are disjoint. |
| Dac.LowBitsOnly | Firmware/src/dac.h:75-78 | A value and the same value taken modulo 2^nrPins produce identical masks. |
| Dac.SetRaw | Firmware/src/dac.h:96-101 | At most four writes. No write has an empty mask. Every clear comes before every set. No register is written twice. |
| Dac.ApplySetRaw | Firmware/src/dac.h:96-101 | Under write-1-to-clear and write-1-to-set, the writes leave each port's output as (old output minus clear mask) plus set mask. |
| Dac.Create | Firmware/src/dac.h:28-34 | The DAC keeps its pins and preset count and has four preset words per preset. With no presets it has no table. |
| Dac.PreparePreset | Firmware/src/dac.h:48-55 | An out-of-range preset changes nothing. An in-range preset's four words encode the value on the pins. Every other word of the table is unchanged, and the pins and preset count are kept. |
| Dac.PresetOutOfRange | Firmware/src/dac.h:48-64 | For a preset at or above the preset count, preparing changes nothing, and applying issues no writes and leaves the GPIO outputs unchanged. With zero presets this covers every call. |
| Dac.PresetRoundTrip | Firmware/src/dac.h:37-64 | Applying preset `p` right after preparing it with value `v` issues exactly the register writes of `set(v)`. |
| Dac.SetDrivesPins | Firmware/src/dac.h:37-101 | With distinct pins, after the writes of `set(v)` every configured pin's output level is bit `nr` of `v`, and every other pin below 64 keeps its level. |
| Board.DacPinsWiring | Firmware/src/main.cpp:26-51 | The twelve board pins are distinct and below 64. Port 1 carries bits {1, 2, 14} and port 2 carries bits {3..10, 16}. |
| Board.UniformMasks | Firmware/src/dac.h:75-91 | If every bit the pins read equals `level`, that level's mask on each port is the port's configured pins, and the opposite masks are empty. |
| Board.FullScaleMasks | Firmware/src/main.cpp:44-51 | On the board wiring, 0xFFF sets exactly {1, 2, 14} on port 1 and {3..10, 16} on port 2, and clears nothing. |
| Board.ZeroMasks | Firmware/src/main.cpp:44-51 | On the board wiring, 0 clears exactly the configured bits of both ports and sets nothing. |
| Board.SweepOverflowIsZero | Firmware/src/srv.h:35-36 | The downward sweep's first value, 4096, has no bit among the twelve pins. It issues the same writes as 0: the two clear writes and nothing else. |
| Calibration.FindIdx | Firmware/src/calib.h:49-60 | The range shrinks on each call, so the search terminates. The result lies in `[start, end]`. On ascending keys, every key before the result is at most the value, and the key at the result, if it is below `end`, exceeds the value. So the result is the first index whose key exceeds the value, or `end`. |
| Calibration.FindIdxIsLinearScan | Firmware/src/calib.h:49-60 | On ascending keys the binary search returns the same index as a linear scan for the first key above the value. |
| Calibration.SearchSplitsKeys | Firmware/src/calib.h:49-60 | On ascending keys, an index below `end` lies below the result of the search on `[0, end]` exactly when its key is at most the value. |
| Calibration.Interpolate | Firmware/src/calib.h:39-44 | The interpolation is finite exactly when the two keys differ. The point (value, result) then lies on the line through both entries. |
| Calibration.GetCalibratedValue | Firmware/src/calib.h:29-46 | A table of at most two entries returns every input unchanged. A non-finite result needs two equal neighbouring keys. |
| Calibration.SearchStaysInTable | Firmware/src/calib.h:31-33 | The search over `[0, nrEntries - 1]` never returns `nrEntries`, so the `idx >= nrEntries` guard never fires. |
| Calibration.IdentityBelowSecondKey | Firmware/src/calib.h:31-35 | On ascending keys, any value below the second key is returned unchanged. |
| Calibration.InterpolatesBracket | Firmware/src/calib.h:37-45 | On ascending keys, a value in `[key[i], key[i+1])` with `i >= 1` gives the linear interpolation through entries `i` and `i + 1`. |
| Calibration.ExtrapolatesAboveLastKey | Firmware/src/calib.h:31-44 | With at least three entries, a value at or above the last key is extrapolated along the line through the last two entries. |
| Calibration.InterpolateEndpoints | Firmware/src/calib.h:39-44 | With distinct keys the interpolation is finite and gives `y0` at `x0` and `y1` at `x1`. |
| Calibration.InterpolateMidpoint | Firmware/src/calib.h:39-44 | Halfway between two ascending keys the result is the mean of the two calibrated values. It lies strictly between them when they differ. |
| Calibration.FirstSegmentLeftRaw | Firmware/src/calib.h:33-35 | As written, a value in the first segment `[key[0], key[1])` is returned raw rather than calibrated. |
| Calibration.TwoPointTableIgnored | Firmware/src/calib.h:31-35 | The two-point table (0 to 1, 10 to 11) returns 0 for 0 and 5 for 5, where the line through its points gives 6 at 5. |
| Calibration.AboveTableExtrapolated | Firmware/src/calib.h:31-44 | The table (0 to 0, 10 to 20, 20 to 40) maps 30, which lies above the table, to 60 rather than returning it raw. |
| Calibration.GetCalibratedValueCorrected | Firmware/src/calib.h:29-46 | The corrected lookup searches `[0, nrEntries]` with guards `idx < 1` and `idx >= nrEntries`; at `idx == nrEntries` a value equal to the last key closes the last segment. On an ascending table, a value below the first key or above the last key is returned unchanged. |
| Calibration.CorrectedInterpolatesInside | Firmware/src/calib.h:29-46 | With the corrected lookup, every value in a segment `[key[i], key[i+1])`, the first segment included, is interpolated through entries `i` and `i + 1`. |
| Calibration.CorrectedHitsTablePoints | Firmware/src/calib.h:29-46 | With the corrected lookup and strictly ascending keys, every key, the last one included, maps to its calibrated value. |
| Calibration.CorrectedKeepsLastKey | Firmware/src/calib.h:29-46 | At the last key of a strictly ascending table of at least three entries, the corrected lookup gives the same result as the code as written. |
| Shaping.Create | Firmware/src/shaper.h:23-27 | A new shaper is inactive with an empty program and the requested capacity, and satisfies the shaper invariant. |
| Shaping.IsActive | Firmware/src/shaper.h:29-32 | While the shaper is active and valid, a program entry is still pending (`currentIdx < nrEntries`). |
| Shaping.IsActiveLifecycle | Firmware/src/shaper.h:23-76 | A new shaper is inactive. `pulse` makes it active. `handle` never makes an inactive shaper active. |
| Shaping.Elapsed | Firmware/src/shaper.h:49 | The `uint64_t` difference is `now - since` when `since <= now`, and `2^64 - since + now` otherwise. |
| Shaping.Handle | Firmware/src/shaper.h:35-65 | Inactive: nothing is emitted and nothing changes. Active: the program and capacity are kept, and the shaper never switches itself on. Stopping emits exactly `[0.0]`. Otherwise the index advances by at most one, and what is emitted is the value of the entry now current. The invariant "active implies `currentIdx < nrEntries <= maxEntries`" is preserved. |
| Shaping.FirstEntrySentinel | Firmware/src/shaper.h:41-47 | With a stamp of 0, `handle` emits the current entry's value, keeps the index and records the second clock read. |
| Shaping.AdvancesOnElapsedTime | Firmware/src/shaper.h:49-64 | Once started, `handle` does nothing until the entry's duration has elapsed. Then it either moves to the next entry, emitting its value and stamping `now`, or, past the last entry, emits 0.0 and deactivates. |
| Shaping.Run | Firmware/src/shaper.h:35-65 | A sequence of `handle` calls keeps the invariant and emits at most one value per call. |
| Shaping.RunTrace | Firmware/src/shaper.h:35-65 | Over any sequence of calls an inactive shaper stays silent, and the program is never altered. An active shaper emits only values of program entries from its current index on, except that on stopping its last emitted value is 0.0. |
| Shaping.Pulse | Firmware/src/shaper.h:68-76 | `pulse` returns true and leaves the shaper active with index 0, one entry and stamp 0. Entry 0 is (0.0, 0) and all other slots are unchanged. |
| Shaping.PulseIgnoresArguments | Firmware/src/shaper.h:68-76 | The shaper after `pulse` is the same whatever current and duration are passed. |
| Shaping.PulseEndsOnSecondHandle | Firmware/src/shaper.h:41-56 | After `pulse`, the first `handle` emits 0.0. If the stamp it records is not 0, the second `handle` emits 0.0 and deactivates at any time. |
| Shaping.PulseOnlyEmitsZero | Firmware/src/shaper.h:68-76 | Every value a pulsed shaper emits over any run is 0.0. |
| Shaping.PulseIntended | Firmware/src/shaper.h:68-76 | The corrected `pulse` stores `(current, durationMicros)` as the single entry and otherwise behaves like `pulse`. |
| Shaping.PulseIntendedProfile | Firmware/src/shaper.h:35-76 | After the corrected `pulse`: the first `handle` emits `current`. Until `durationMicros` have elapsed from its stamp nothing happens. After that, `handle` emits 0.0 and deactivates. |
| Shaping.PulseScenario | Firmware/src/shaper.h:35-76 | A pulse of 2.0 for 1000 µs, handled every 200 µs from 200 to 1200, emits `[0.0, 0.0]` as written and `[2.0, 0.0]` corrected, and the corrected shaper ends inactive. |
| Shaping.WrappedClockEndsEntryEarly | Firmware/src/shaper.h:40-49 | With 32-bit clock reads widened to 64 bits, if the clock wraps while an entry shorter than 2^32 µs runs, the next `handle` ends that entry however little time has passed. |
| Shaping.Elapsed32Exact | Firmware/src/shaper.h:49 | Taken modulo 2^32, the difference between a 32-bit read and the read `d` µs earlier is `d`, for any `d` below 2^32, across a wrap as well. |
| Shaping.HandleClock32 | Firmware/src/shaper.h:35-65 | `handle` with the difference taken modulo 2^32 keeps the invariant and the program, keeps stamps below 2^32, and is a no-op while inactive. |
| Shaping.Clock32AgreesWithoutWrap | Firmware/src/shaper.h:35-65 | Until the clock wraps, the 32-bit `handle` is exactly `handle`. |
| Shaping.Clock32WaitsFullDuration | Firmware/src/shaper.h:49-64 | On the 32-bit clock, a started entry ends exactly when its duration has passed, wrap or not. |
| Shaping.WrapScenario | Firmware/src/shaper.h:40-63 | A 1000 µs entry stamped at 0xFFFFFF00 and handled at 0x10 (272 µs later): as written it ends at once with 0.0; on the 32-bit clock nothing happens. |
| Board.BoardPresets | Firmware/src/main.cpp:59 | The board DAC's 8 presets occupy 32 words. Preset 7 stores the value's encoding. Preset 8 stores and writes nothing. |

## Left out

**Modelling choices**
- Floating-point rounding: calibration and shaper values are reals.
- Infinities and NaNs: collapsed into one `NonFinite` reading, since nothing downstream is modelled.
- The `micros()` clock: passed in as `now` and `later`, which are arbitrary `uint64` values. `Handle` is therefore exact for a clock that counts in 64 bits. Its width on the target is not fixed by the code; the 32-bit case is the finding on shaper.h:40-49.
- Heap memory: the contents of freshly allocated arrays (`new Entry[...]`, `new uint32_t[...]`) are whatever the allocation held, so they are a parameter (`contents`).
- The preset array, which is never allocated when there are no presets: modelled as an empty table.
- The GPIO hardware: modelled only as the two output words and the W1TC/W1TS registers. Pin direction and pad setup are not modelled.

**Weaker contracts and preconditions**
- Dac.Set, Dac.SetPreset: no contract of their own. What they do is stated by Dac.PresetRoundTrip, Dac.PresetOutOfRange and Dac.SetDrivesPins.
- Dac.PrepareRaw: requires every pin below 64 and fewer than 256 pins. A pin of 64 or more would shift `1` by 32 or more, which C leaves undefined.
- Calibration.GetCalibratedValue: requires at least one entry. With none, `nrEntries - 1` wraps to 255 and the search reads outside the table.
- Calibration.GetCalibratedValueCorrected: no longer returns a value equal to the last key raw. That key closes the last segment and maps to its calibrated value, so only values strictly above it come back unchanged.
- Shaping.Handle: requires the shaper invariant. `Create` and `Pulse` establish it, and `Handle` preserves it.
- Shaping.Pulse: requires a capacity of at least one. With capacity 0 the write to entry 0 is out of bounds.
- Shaping.RunTrace: stating the trace as "program values then 0.0" allows a program value of 0.0 to look like the stop. It does not separately state that the stop happens once.

**Code outside the model**
- `Load::setCurrent`: its float-to-`uint16_t` conversion into a DAC code is not modelled; the shaper's trace records the float value passed in. `load.h` is otherwise a forwarder to the ADC and DAC and is not part of this model.
- Programming arbitrary shaper entries: no operation in the code installs a program other than `pulse`. A longer program enters the model only as a shaper's initial state.
- `adc.h`/`adc.cpp`, `web.h`, `wifi.h`, `ota.h`, `hw.h` and `fan.h` are not part of this model: interrupt-driven sampling, networking, OTA updates, resistor-constant float maths and fan PWM.
- `srv.h`: only the value its downward sweep starts from is used (Board.SweepOverflowIsZero).
- `main.cpp`: only the DAC pin list and preset count are used.
- Regulation modes, protection limits and trips, and enable/disable state are not in the code and are not modelled.

**Description versus code**
- The comment at calib.h:34 says that values "outside of all calibration ranges" come back raw. The code extrapolates a value above the last key from the last two entries, because the `idx >= nrEntries` branch cannot fire. `GetCalibratedValue` follows the code (Calibration.ExtrapolatesAboveLastKey, Calibration.SearchStaysInTable). The corrected lookup follows the comment (the finding on calib.h:31).

## Findings

| source | as written | input that shows it | evidently intended | confidence | as-written member | corrected member |
|---|---|---|---|---|---|---|
| Firmware/src/calib.h:33 | `idx <= 1` returns the raw value, so readings in the first segment `[key[0], key[1])` are never calibrated. A two-entry table does nothing. | Table (0 to 1, 10 to 11), reading 5: the result is 5, where the table's line gives 6. | `idx < 1`: readings in the first segment are interpolated like the other segments, and the curve passes through every key. | medium, not executed | Calibration.TwoPointTableIgnored | Calibration.CorrectedInterpolatesInside |
| Firmware/src/calib.h:31 | The search runs over `[0, nrEntries - 1]`, so `idx >= nrEntries` never holds and readings above the table are extrapolated, despite the comment at calib.h:34. | Table (0 to 0, 10 to 20, 20 to 40), reading 30: the result is 60. | Search `[0, nrEntries]`, so readings above the last key are returned raw; the last key itself still maps to its calibrated value. | medium, not executed | Calibration.AboveTableExtrapolated | Calibration.GetCalibratedValueCorrected |
| Firmware/src/shaper.h:69-70 | `pulse` stores (0.0, 0) in entry 0 and ignores its `current` and `durationMicros`, so the load only ever sees 0.0. | `pulse(2.0, 1000)` with `handle` every 200 µs from 200 to 1200: the load sees 0.0, 0.0. | Store `(current, durationMicros)`: the load sees 2.0, then 0.0 once 1000 µs have passed. | high, not executed | Shaping.PulseOnlyEmitsZero | Shaping.PulseIntendedProfile |
| Firmware/src/shaper.h:40-49 | The clock read is widened to `uint64_t` and the difference taken in 64 bits. With the 32-bit `unsigned long` that `micros()` returns on the ESP32 Arduino core, a wrap during an entry makes the difference nearly 2^64, and the entry ends at once. | A 1000 µs entry stamped at 0xFFFFFF00, `handle` at 0x10, 272 µs later: the shaper stops and emits 0.0. | Take the difference modulo 2^32 (in `unsigned long`), so an entry ends exactly when its duration has passed. | medium, not executed | Shaping.WrappedClockEndsEntryEarly | Shaping.Clock32WaitsFullDuration |
