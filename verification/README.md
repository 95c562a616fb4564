# Stopwatch firmware core in Dafny

This project models the firmware of an MSP430 stopwatch (`timer.c`). The stopwatch has a
four-digit multiplexed seven-segment display, a start/stop button and a reset
button. After setting up the ports, `main` runs one supply-voltage check
(`chk_show_vcc`), which shows the reading on the display. From then on the
stopwatch runs inside one watchdog-interval interrupt, which fires 512 times
per second. The model
treats the firmware's globals as one immutable `State` record and each routine
as a pure step function:

- `Glyphs`: the segment table `seg_map`, as a byte of P1 lines per character.
  It is checked against an independent reference: the standard seven-segment
  font, mapped to pins as the layout comment at the top of `timer.c` draws them.
- `Decimal`: the two `sprintf` formats the firmware uses, `%u` and `%02d`. They
  are pure functions with a parse-back round trip.
- `Display`: `led_show_dp` is modelled twice. `Render` is the reference
  function. `LedShowDp` is the two-loop method as the firmware writes it, and it
  is proved equal to `Render`. `led_clock` is modelled too, including the three
  port writes of one call, in order.
- `Stopwatch`: `clock_update`/`sec_clock`, `wd_clock` and `watchdog_timer`, on a
  state record that holds `led_col`, `led_seg`, `led_dp`, P1OUT, P2OUT,
  `sec_cnt`, `min_cnt`, `running`, `last_start_pressed`, `start_release_cnt`,
  `wdt_cnt` and `startup_cnt`.
- `Vcc`: the millivolt conversion of `measure_vcc`, done in 16-bit unsigned
  arithmetic, and the display and threshold of `chk_show_vcc`.
- `Word`: the 16-bit `unsigned` type and its wrap-around.

Hardware inputs are parameters. The P2IN byte sampled by `wd_clock` is an
argument of each tick. The ADC10MEM value is an argument of the voltage check.

## Behaviour worth knowing

The model follows the code as written in each of these cases.

- **The start-button release debounce never takes effect.** `DEBOUNCE` is
  defined as 8 (timer.c:129). The counter logic at timer.c:138-145 counts
  released samples and would clear `last_start_pressed` after more than 8 of
  them. But timer.c:146 then copies the raw sample into `last_start_pressed`
  on every tick. So `running` toggles on every released→pressed edge of the
  raw sample, and `start_release_cnt` never exceeds 1. The clearing at
  timer.c:141 can never run. `WdClock` models the code as written.
  `WdClockCounterBounds` proves the counter bound, and
  `ReleaseBounceRetoggles` shows a second toggle after a one-tick release
  bounce.
- **Exactly 3000 mV passes the supply check.** The comment at timer.c:193
  asks that the supply be "not below 3V", and the test at timer.c:203 is a
  strict `<`. So a reading of exactly 3000 mV passes. `FloorNeverRead` shows
  that no 10-bit sample converts to exactly 3000 mV: 614 reads 2998 mV and
  615 reads 3003 mV.
- **Reset clears the counters, not the screen.** The reset branch at
  timer.c:147-151 zeroes `sec_cnt`, `min_cnt` and `running`, but does not
  touch `led_seg`. The old digits stay on the display until the next
  `clock_update` renders the counters as they are then. Until that update
  mm:ss stays 00:00, and start presses may turn the clock on and off. So the
  update shows 0000 if the clock is stopped when it comes, and 0001 if
  start has turned it back on in between (`UpdateAfterReset`). The update
  comes in the reset firing itself only when that firing is the 512th
  (`ResetShowsAtNextUpdate`).
- **The voltage reading is shown only after the warm-up.**
  `chk_show_vcc` writes the reading into `led_seg` and `led_dp`
  (timer.c:201-202), and they keep it through the 256-firing warm-up and
  the 511 firings after it (`BootShowsReading`). During the warm-up each
  firing returns before `wd_clock` (timer.c:166-169). So `led_clock` never
  runs, no column line is driven, and the display is dark (`WarmupDark`).
  The reading is multiplexed onto the columns only in the 511 firings after
  the warm-up (`BootMultiplexesReading`). The first `clock_update` then
  replaces it.

## Model

| member | source | states |
|---|---|---|
| `Glyphs.Glyph` | timer.c:77-84 | no character's glyph lights the decimal-point line P1.1; the point is driven only by the mask |
| `Glyphs.DigitGlyphsMatchFont` | timer.c:1-37 | each digit's table entry lights exactly the standard seven-segment font's segments, with segments mapped to P1 lines as the layout comment draws them |
| `Glyphs.SignGlyphsMatchFont` | timer.c:38-39 | minus lights only the middle bar; the degree sign lights the upper square a, b, f, g |
| `Glyphs.DigitGlyphsDistinct` | timer.c:27-37 | two digits have the same glyph if and only if they are the same digit |
| `Glyphs.BlankExactlyForOthers` | timer.c:77-84 | a character is drawn blank if and only if it is not a digit, '-' or '\xf8' |
| `Decimal.Digits` | timer.c:201 | `%u` text is non-empty, all decimal digits, with no leading zero for n > 0 |
| `Decimal.DigitsRoundTrip` | timer.c:201 | reading the `%u` text of n back as a decimal number gives n |
| `Decimal.DigitsLength` | timer.c:201 | the `%u` text of n has at most k digits exactly when n < 10^k |
| `Decimal.Pad2` | timer.c:117 | `%02d` text has at least two digits and reads back as n |
| `Decimal.Pad2TwoDigits` | timer.c:117 | for n < 100 the `%02d` text is exactly the tens digit then the units digit |
| `Decimal.DigitsFour` | timer.c:201 | a four-digit number prints as thousands, hundreds, tens, units |
| `Display.FirstNul` | timer.c:72-76 | the index where the first loop stops: no NUL before it, a NUL at it unless it is 4 |
| `Display.FirstNulIsFirst` | timer.c:72-76 | the stopping index is unique: any index with those two properties is it |
| `Display.Render` | timer.c:69-91 | `led_show_dp` stores the given decimal-point mask, and no stored segment byte lights the point |
| `Display.RenderColumns` | timer.c:72-89 | column i shows the glyph of character i unless a NUL occurs at or before i, in which case it is blank |
| `Display.LedShowDp` | timer.c:69-91 | the two-loop routine (stop at NUL, then blank the rest) leaves exactly the screen `Render` describes |
| `Display.ColumnBit` | timer.c:58 | the column-select bit of columns 0, 1, 2, 3 is 0x08, 0x04, 0x02, 0x01: the single line 1 << (3 - col), inside the four column lines |
| `Display.NextCol` | timer.c:55-57 | the cursor moves to (col + 1) mod 4, goes from the initial 4 to 0, and always lands in [0, 4) |
| `Display.LedClockWrites` | timer.c:63-65 | the three port writes of one call, in order: every column released; then P1 set to the inverted segment byte of the new column, with P1.1 added iff its mask bit is set, with still no column selected; then exactly the new column selected; P2 bits outside the column lines never change |
| `Display.LedClock` | timer.c:51-66 | after one call exactly one column line is high, the new cursor's; other P2 bits and the screen are unchanged; P1 is the inverted segment byte with P1.1 added iff the column's bit is in the mask; with no glyph lighting P1.1, the point is lit iff that mask bit is set |
| `Display.DpMaskColumns` | timer.c:58-60 | mask 8 lights the point of column 0 only and mask 4 that of column 1 only |
| `Display.RenderFourChars` | timer.c:72-85 | a string of four non-NUL characters fills the columns with their four glyphs, in order |
| `Display.CursorCycles` | timer.c:46-57 | after n calls from column c < 4 the cursor is at (c + n) mod 4; from the initial 4 it is at (n - 1) mod 4 |
| `Stopwatch.BootValid` | timer.c:200-202 | `Boot(sample)`, the power-on globals with the screen `chk_show_vcc` wrote, satisfies the state invariant |
| `Stopwatch.InitValid` | timer.c:46-48 | the power-on values of the globals satisfy the state invariant, with no column selected before the first display step |
| `Stopwatch.Advance` | timer.c:109-116 | running adds exactly one second to 60·min + sec while sec stays in [0, 59]; sec wraps 59→0 and min increments exactly then; stopped changes nothing |
| `Stopwatch.ClockUpdate` | timer.c:106-119 | mm:ss advances as `Advance` says; the screen is re-rendered from the new mm:ss with mask 4; nothing else in the state changes (`sec_clock` only delegates to it) |
| `Stopwatch.ClockDisplay` | timer.c:117-118 | below 100 minutes the columns show minute tens, minute units, second tens, second units, with the point lit on column 1 only |
| `Stopwatch.ClockUpdatesAccumulate` | timer.c:109-116 | n updates of a running clock add exactly n seconds |
| `Stopwatch.ClockUpdateNShows` | timer.c:117-118 | after one or more updates the screen shows the final mm:ss with mask 4 |
| `Stopwatch.OneMinute` | timer.c:106-118 | sixty updates from a running 00:00 give 01:00, shown as 0 1 0 0 with the point after the minutes |
| `Stopwatch.StoppedClockFrozen` | timer.c:109-118 | any number of updates of a stopped clock leave mm:ss unchanged |
| `Stopwatch.WdClock` | timer.c:131-153 | `running` flips iff start is pressed now and was not pressed last tick; afterwards `last_start_pressed` equals this tick's sample; a held reset forces 00:00 and stopped, overriding the toggle; a press zeroes the release counter, and a released sample adds one to it exactly when start was pressed last tick; `led_clock` runs once |
| `Stopwatch.WdClockCounterBounds` | timer.c:138-146 | the release counter stays in {0, 1} and is 0 whenever start was pressed on the previous tick |
| `Stopwatch.HoldingStartTogglesOnce` | timer.c:135-146 | holding start for two ticks toggles `running` only on the first |
| `Stopwatch.ReleaseBounceRetoggles` | timer.c:129-146 | press, one released sample, press again toggles `running` twice, with no 8-tick release wait |
| `Stopwatch.Tick` | timer.c:164-175 | during warm-up a firing only decrements `startup_cnt`; afterwards it samples the buttons, and on the 512th firing also updates the clock and zeroes `wdt_cnt` |
| `Stopwatch.TickValid` | timer.c:131-175 | every firing keeps the invariant: cursor in range, seconds in [0, 59], release counter in {0, 1}, `wdt_cnt` in [0, 512), no glyph lighting the point, and at most one column selected, the cursor's |
| `Stopwatch.RunValid` | timer.c:164-175 | every run of firings keeps the invariant |
| `Stopwatch.WarmupIgnoresEverything` | timer.c:166-169 | the first `startup_cnt` firings change nothing but the countdown, whatever the buttons do, and update no clock |
| `Stopwatch.TickCounters` | timer.c:171-172 | after warm-up one firing moves `wdt_cnt` to (w + 1) mod 512; the clock is due exactly when w = 511 |
| `Stopwatch.OneUpdatePerWdtHz` | timer.c:159-175 | after warm-up, n firings from count w perform exactly (w + n) / 512 clock updates and leave the count at (w + n) mod 512 |
| `Stopwatch.RunAppend` | timer.c:164-175 | running the firings of a then those of b is running a + b, and the clock updates of the two runs add up |
| `Stopwatch.ScreenKeptWithoutUpdate` | timer.c:164-175 | a run of firings with no clock update leaves the screen unchanged |
| `Stopwatch.ScreenKeptUntilFirstUpdate` | timer.c:161-175 | from a sub-second count of 0, the screen is unchanged through the remaining warm-up and the 511 firings after it |
| `Stopwatch.BootShowsReading` | timer.c:161-202 | through the first 256 + 511 firings after the supply check, `led_seg` and `led_dp` keep the voltage reading |
| `Stopwatch.WarmupDark` | timer.c:166-169 | through the 256 warm-up firings after the supply check, no column line is driven |
| `Stopwatch.PlainFiringDrives` | timer.c:51-175 | from a sub-second count of 0, each firing after the warm-up and before the first clock update drives exactly the cursor's column, with its segment lines and point taken from the unchanged screen |
| `Stopwatch.BootMultiplexesReading` | timer.c:161-202 | in the 511 firings after the warm-up, each firing drives exactly one column, showing that column of the voltage reading, with the point as mask 8 says |
| `Stopwatch.HoldingResetFreezes` | timer.c:147-151 | with reset held on every firing of a run, the clock ends at 00:00 and stopped |
| `Stopwatch.ResetShowsAtNextUpdate` | timer.c:147-174 | a reset firing stops the clock at 00:00; the screen changes only if that firing also updates the clock, and then it shows 0000 |
| `Stopwatch.UpdateAfterReset` | timer.c:106-118 | the first clock update after a reset, with mm:ss still 00:00, shows 0001 if the clock is running by then and 0000 if it is stopped |
| `Stopwatch.NeverStartedStaysStill` | timer.c:109-137 | if the clock is stopped and neither button is ever pressed, mm:ss never changes |
| `Vcc.NoOverflow` | timer.c:188 | for every sample up to 1024 the 16-bit calculation does not wrap and reads at most 5000 mV; 1024 reads exactly 5000 mV |
| `Vcc.CloseToExactScaling` | timer.c:188 | the reading is at least v·5000/1024 and at most 1 mV above it |
| `Vcc.Monotone` | timer.c:188 | a larger sample never reads lower |
| `Vcc.PassesIffSampleAtLeast615` | timer.c:188-203 | a 10-bit sample passes the 3000 mV check iff it is at least 615 |
| `Vcc.FloorNeverRead` | timer.c:188-203 | no 10-bit sample reads exactly 3000 mV |
| `Vcc.ChkShowVcc` | timer.c:197-204 | the result is -1 iff the reading is below 3000 mV and 0 otherwise, so 3000 passes; the reading is shown as `%u` text with mask 8 |
| `Vcc.VccDisplayFourDigits` | timer.c:200-202 | a reading of 1000 mV or more shows thousands, hundreds, tens and units, with the point after column 0 only |
| `Vcc.VccDisplayShortReading` | timer.c:200-202 | a reading below 1000 mV leaves the last column dark |
| `Word.Wrap16` | timer.c:188 | an unsigned result is congruent to the exact one modulo 2^16 and equal to it when in range |

## Left out

- Peripheral setup in `main` (timer.c:211-229): watchdog interval, crystal load capacitors, port directions and pull-ups, interrupt enable. The model has no logic here to verify. `Init` uses the P1OUT and P2OUT values it leaves: 0, and the two button pull-up bits.
- The ADC register sequence in `measure_vcc` (timer.c:181-187): the settling delay, the busy-wait, and powering the converter down. These are hardware I/O. The sample is a parameter of `ChkShowVcc`.
- The failed-check path of `main` (timer.c:232-237): the delay, the writes of 0 to P1OUT and P2OUT, and the disabling of interrupts. The model has no state for them. Firings go on during the delay. The model does not state what happens after the writes and the disabling, nor whether the ticks stop there. `Run` from `Boot` describes the firings that follow the check only as long as those lines have not run.
- The sleep loop of `main` (timer.c:240-243). It is power management. Any effect it has on the interrupt enable is outside the model.
- The real `sprintf` (timer.c:117, timer.c:201). The `Decimal` module stands in for the two formats used, for non-negative values only. `sec_cnt` and `min_cnt` never go negative from the power-on state, and a millivolt reading is unsigned.
- Stopwatch.ClockUpdate: `min_cnt` is an unbounded integer, so the model does not include the 16-bit signed overflow after 32767 minutes, which is undefined behaviour in C. From 100 minutes on, `%02d%02d` prints five or more characters. `Render` shows the first four, as the 4-byte read of `led_show_dp` does. `ClockDisplay` describes the screen only below 100 minutes.
- Interleaving of the tick interrupt with the start-up voltage check in `main`. Interrupts are enabled (timer.c:229) before that check runs, so a firing may come while it runs. This is a concurrency concern. `Boot` assumes the check finishes before the first firing, and ticks are modelled as atomic sequential steps.
- Crystal accuracy of the 512 Hz tick. This is physical timing; a firing is one abstract step.
- The signedness of `char`. The degree sign is the character with code 0xF8. It is compared for equality only, so signedness does not change any result.
