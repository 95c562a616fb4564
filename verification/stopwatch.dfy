/** The stopwatch proper: the state the tick interrupt owns and its three
    steps, the once-a-second clock update (`clock_update`), the per-tick
    button sampler (`wd_clock`) and the interrupt handler itself
    (`watchdog_timer`). */
module Stopwatch {
  import opened Glyphs
  import opened Decimal
  import opened Display
  import opened Word
  import Vcc

  /** Button lines on P2 (active low, pulled up). */
  const BtStart: bv8 := 0x20
  const BtReset: bv8 := 0x10

  /** Release-debounce threshold of the start button. */
  const Debounce := 8

  /** Tick rate of the watchdog interval interrupt. */
  const WdtHz := 512

  /** Ticks ignored after power-on. */
  const StartupTicks := 256

  /** Decimal-point mask the clock display uses. */
  const ClockDp: bv16 := 4

  /** All mutable globals of the firmware. */
  datatype State = State(
    panel: Panel,        // led_col, led_seg, led_dp, P1OUT, P2OUT
    sec: int,            // sec_cnt
    min: int,            // min_cnt
    running: bool,       // running
    lastStart: bool,     // last_start_pressed
    releaseCnt: int,     // start_release_cnt
    wdtCnt: U16,         // wdt_cnt
    startupCnt: U16)     // startup_cnt

  /** What the steps need to be defined at all: a cursor the display
      driver can index from, and a clock the formatter can print. */
  predicate Steppable(s: State) {
    && 0 <= s.panel.col <= Cols
    && 0 <= s.sec < 60
    && 0 <= s.min
  }

  /** The invariant every reachable state keeps; among it, at most one
      column is ever selected, and it is the cursor's. */
  predicate Valid(s: State) {
    && Steppable(s)
    && DpClear(s.panel.scr)
    && 0 <= s.releaseCnt <= 1
    && (s.lastStart ==> s.releaseCnt == 0)
    && s.wdtCnt < WdtHz
    && s.startupCnt <= StartupTicks
    && (s.startupCnt > 0 ==> s.panel.col == Cols)
    && SelectedColumns(s.panel.p2) == (if s.panel.col < Cols then {s.panel.col} else {})
  }

  /** The globals at power-on: zero-initialised except led_col and
      startup_cnt; main leaves P1OUT at 0 and the button pull-ups set in P2OUT. */
  const Init: State := State(
    Panel(Cols, Screen([0, 0, 0, 0], 0), 0, BtStart | BtReset),
    0, 0, false, false, 0, 0, StartupTicks)

  lemma InitValid()
    ensures Valid(Init)
  {
    assert SelectedColumns(Init.panel.p2) == {} by {
      NoneSelectedWhenCleared(BtStart | BtReset);
      assert (BtStart | BtReset) & !ColBits == BtStart | BtReset;
    }
  }

  /** The state the first firing sees once main's supply check has run:
      the power-on globals, with the voltage reading that chk_show_vcc
      wrote into led_seg and led_dp. */
  function Boot(sample: U16): State {
    Init.(panel := Init.panel.(scr := Vcc.ChkShowVcc(sample).0))
  }

  lemma BootValid(sample: U16)
    ensures Valid(Boot(sample))
  {
    InitValid();
  }

  function TotalSeconds(s: State): int {
    60 * s.min + s.sec
  }

  /** The text the clock prints: mm then ss, each at least two digits. */
  function ClockText(min: nat, sec: nat): seq<char> {
    Pad2(min) + Pad2(sec)
  }

  // ----- clock_update (sec_clock only calls it) -----

  /** One second of mm:ss arithmetic: seconds wrap from 59 to 0 and carry
      into the minutes; a stopped clock does not move. */
  function Advance(sec: int, min: int, running: bool): (r: (int, int))
    requires 0 <= sec < 60 && 0 <= min
    ensures 0 <= r.0 < 60 && 0 <= r.1
    ensures running ==> 60 * r.1 + r.0 == 60 * min + sec + 1
    ensures running ==> r.0 == (sec + 1) % 60
    ensures running ==> (r.1 == min + 1 <==> sec == 59)
    ensures running ==> (r.1 == min <==> sec != 59)
    ensures !running ==> r == (sec, min)
  {
    if !running then (sec, min)
    else if sec + 1 == 60 then (0, min + 1)
    else (sec + 1, min)
  }

  /** clock_update: advance mm:ss by one second when running, then show
      it with the point after the minutes. */
  function ClockUpdate(s: State): (r: State)
    requires Steppable(s)
    ensures Steppable(r)
    ensures (r.sec, r.min) == Advance(s.sec, s.min, s.running)
    ensures r.panel.scr == Render(ClockText(r.min, r.sec), ClockDp)
    ensures r == s.(sec := r.sec, min := r.min, panel := s.panel.(scr := r.panel.scr))
    ensures DpClear(r.panel.scr)
  {
    var (sec, min) := Advance(s.sec, s.min, s.running);
    s.(sec := sec, min := min,
       panel := s.panel.(scr := Render(ClockText(min, sec), ClockDp)))
  }

  /** Below 100 minutes the four columns show the minute tens, minute
      units, second tens and second units, and the point is lit on column
      1 only: between the minutes and the seconds. */
  lemma ClockDisplay(s: State)
    requires Steppable(s) && s.min < 100
    ensures s.panel.scr == Render(ClockText(s.min, s.sec), ClockDp) ==>
      s.panel.scr.segs == [DigitGlyph(s.min / 10), DigitGlyph(s.min % 10),
                           DigitGlyph(s.sec / 10), DigitGlyph(s.sec % 10)]
    ensures forall col :: 0 <= col < Cols ==> ((ColumnBit(col) as bv16) & ClockDp != 0 <==> col == 1)
  {
    Pad2TwoDigits(s.min);
    Pad2TwoDigits(s.sec);
    var t := ClockText(s.min, s.sec);
    assert t == [DigitChar(s.min / 10), DigitChar(s.min % 10),
                 DigitChar(s.sec / 10), DigitChar(s.sec % 10)];
    RenderFourChars(t[0], t[1], t[2], t[3], ClockDp);
    DpMaskColumns();
  }

  /** n consecutive clock updates. */
  function ClockUpdateN(s: State, n: nat): (r: State)
    requires Steppable(s)
    ensures Steppable(r)
    decreases n
  {
    if n == 0 then s else ClockUpdateN(ClockUpdate(s), n - 1)
  }

  /** After at least one update the screen shows the final mm:ss. */
  lemma {:induction false} ClockUpdateNShows(s: State, n: nat)
    requires Steppable(s) && n > 0
    ensures var r := ClockUpdateN(s, n); r.panel.scr == Render(ClockText(r.min, r.sec), ClockDp)
    decreases n
  {
    if n > 1 {
      ClockUpdateNShows(ClockUpdate(s), n - 1);
    }
  }

  /** While running, n clock updates add exactly n seconds. */
  lemma {:induction false} ClockUpdatesAccumulate(s: State, n: nat)
    requires Steppable(s) && s.running
    ensures ClockUpdateN(s, n).running
    ensures TotalSeconds(ClockUpdateN(s, n)) == TotalSeconds(s) + n
    decreases n
  {
    if n > 0 {
      var t := ClockUpdate(s);
      assert t.running && TotalSeconds(t) == TotalSeconds(s) + 1;
      assert ClockUpdateN(s, n) == ClockUpdateN(t, n - 1);
      ClockUpdatesAccumulate(t, n - 1);
    }
  }

  /** Sixty updates of a running clock at 00:00 show 01:00, with the point
      between minutes and seconds. */
  lemma OneMinute(s: State)
    requires Steppable(s) && s.running && s.sec == 0 && s.min == 0
    ensures ClockUpdateN(s, 60).min == 1 && ClockUpdateN(s, 60).sec == 0
    ensures ClockUpdateN(s, 60).panel.scr ==
      Screen([DigitGlyph(0), DigitGlyph(1), DigitGlyph(0), DigitGlyph(0)], ClockDp)
  {
    ClockUpdatesAccumulate(s, 60);
    ClockUpdateNShows(s, 60);
    var r := ClockUpdateN(s, 60);
    assert r.min == 1 && r.sec == 0;
    ClockDisplay(r);
  }

  /** A stopped clock keeps its mm:ss however many updates happen. */
  lemma {:induction false} StoppedClockFrozen(s: State, n: nat)
    requires Steppable(s) && !s.running
    ensures ClockUpdateN(s, n).sec == s.sec && ClockUpdateN(s, n).min == s.min
    ensures !ClockUpdateN(s, n).running
    decreases n
  {
    if n > 0 {
      StoppedClockFrozen(ClockUpdate(s), n - 1);
    }
  }

  // ----- wd_clock -----

  predicate StartPressed(p2in: bv8) {
    p2in & BtStart == 0
  }

  predicate ResetPressed(p2in: bv8) {
    p2in & BtReset == 0
  }

  /** wd_clock: sample both buttons from P2IN, toggle `running` on a
      press edge of start, clear the clock while reset is held, then
      drive the display for one tick.

      The release counter is updated as written, but the unconditional
      copy of this tick's sample into lastStart that follows it overrides
      its effect: the counter never passes 1 and never re-arms anything. */
  function WdClock(s: State, p2in: bv8): (r: State)
    requires Steppable(s)
    ensures Steppable(r)
    ensures r.lastStart == StartPressed(p2in)
    ensures ResetPressed(p2in) ==> r.sec == 0 && r.min == 0 && !r.running
    ensures !ResetPressed(p2in) ==>
      (r.running != s.running <==> StartPressed(p2in) && !s.lastStart)
    ensures !ResetPressed(p2in) ==> r.sec == s.sec && r.min == s.min
    ensures StartPressed(p2in) ==> r.releaseCnt == 0
    ensures !StartPressed(p2in) ==>
      r.releaseCnt == (if s.lastStart then s.releaseCnt + 1 else s.releaseCnt)
    ensures r.panel == LedClock(s.panel)
    ensures r.wdtCnt == s.wdtCnt && r.startupCnt == s.startupCnt
  {
    var reset := ResetPressed(p2in);
    var start := StartPressed(p2in);
    var running := if start && !s.lastStart then !s.running else s.running;
    var (cnt, last) :=
      if !start then
        if s.lastStart then
          (if s.releaseCnt + 1 > Debounce then (s.releaseCnt + 1, false)
           else (s.releaseCnt + 1, s.lastStart))
        else (s.releaseCnt, s.lastStart)
      else (0, s.lastStart);
    // the sample overwrites whatever the debounce branch decided
    var last' := start;
    var s1 := s.(running := running, releaseCnt := cnt, lastStart := last');
    var s2 := if reset then s1.(sec := 0, min := 0, running := false) else s1;
    s2.(panel := LedClock(s.panel))
  }

  /** The release counter stays in {0, 1} and is 0 whenever start was
      seen pressed on the previous tick. */
  lemma WdClockCounterBounds(s: State, p2in: bv8)
    requires Steppable(s) && 0 <= s.releaseCnt <= 1 && (s.lastStart ==> s.releaseCnt == 0)
    ensures 0 <= WdClock(s, p2in).releaseCnt <= 1
    ensures WdClock(s, p2in).lastStart ==> WdClock(s, p2in).releaseCnt == 0
  {
  }

  /** Holding start for two ticks toggles `running` only once. */
  lemma HoldingStartTogglesOnce(s: State, p2in: bv8)
    requires Steppable(s) && StartPressed(p2in) && !ResetPressed(p2in)
    ensures WdClock(WdClock(s, p2in), p2in).running == WdClock(s, p2in).running
  {
  }

  /** wd_clock over a sequence of P2IN samples. */
  function WdClockN(s: State, ins: seq<bv8>): (r: State)
    requires Steppable(s)
    ensures Steppable(r)
    decreases |ins|
  {
    if |ins| == 0 then s else WdClockN(WdClock(s, ins[0]), ins[1..])
  }

  /** P2IN samples: both buttons up; start down with reset up (the
      button lines are active low). */
  const Released: bv8 := BtStart | BtReset
  const StartDown: bv8 := BtReset

  /** What the code does on a bouncing release: press, one released
      sample, press again. The second press toggles `running` back, with
      no eight-tick wait on the release. */
  lemma ReleaseBounceRetoggles(s: State)
    requires Steppable(s) && !s.lastStart
    ensures WdClock(s, StartDown).running == !s.running
    ensures WdClockN(s, [StartDown, Released, StartDown]).running == s.running
  {
    var s1 := WdClock(s, StartDown);
    var s2 := WdClock(s1, Released);
    var s3 := WdClock(s2, StartDown);
    assert WdClockN(s, [StartDown, Released, StartDown]) == WdClockN(s1, [Released, StartDown]);
    assert WdClockN(s1, [Released, StartDown]) == WdClockN(s2, [StartDown]);
    assert WdClockN(s2, [StartDown]) == WdClockN(s3, []);
  }

  // ----- watchdog_timer -----

  /** Whether a firing in state s ends with a clock update. */
  predicate SecondDue(s: State) {
    s.startupCnt == 0 && Wrap16(s.wdtCnt + 1) >= WdtHz
  }

  /** watchdog_timer: during warm-up only count down; afterwards sample
      the buttons and drive the display every tick, and update the clock
      on every WdtHz-th tick. */
  function Tick(s: State, p2in: bv8): (r: State)
    requires Steppable(s)
    ensures Steppable(r)
    ensures s.startupCnt > 0 ==> r == s.(startupCnt := s.startupCnt - 1)
    ensures s.startupCnt == 0 ==> r.startupCnt == 0
    ensures s.startupCnt == 0 && s.wdtCnt < WdtHz ==> r.wdtCnt == (s.wdtCnt + 1) % WdtHz
    ensures SecondDue(s) ==> r == ClockUpdate(WdClock(s, p2in).(wdtCnt := 0))
    ensures s.startupCnt == 0 && !SecondDue(s) ==>
      r == WdClock(s, p2in).(wdtCnt := Wrap16(s.wdtCnt + 1))
  {
    if s.startupCnt > 0 then
      s.(startupCnt := s.startupCnt - 1)
    // wd_clock leaves wdt_cnt alone, so testing it before or after the call
    // is the same test; sec_clock only delegates to clock_update
    else if SecondDue(s) then
      ClockUpdate(WdClock(s, p2in).(wdtCnt := 0))
    else
      WdClock(s, p2in).(wdtCnt := Wrap16(s.wdtCnt + 1))
  }

  /** Every firing keeps the invariant. */
  lemma TickValid(s: State, p2in: bv8)
    requires Valid(s)
    ensures Valid(Tick(s, p2in))
  {
    if s.startupCnt == 0 {
      var s1 := WdClock(s, p2in);
      WdClockCounterBounds(s, p2in);
      assert s1.panel == LedClock(s.panel);
      assert SelectedColumns(s1.panel.p2) == {s1.panel.col};
      assert Valid(s1.(wdtCnt := 0));
      if SecondDue(s) {
        var r := ClockUpdate(s1.(wdtCnt := 0));
        assert r.panel == s1.panel.(scr := r.panel.scr);
      }
    }
  }

  /** A run of firings, one P2IN sample each. */
  function Run(s: State, ins: seq<bv8>): (r: State)
    requires Steppable(s)
    ensures Steppable(r)
    decreases |ins|
  {
    if |ins| == 0 then s else Run(Tick(s, ins[0]), ins[1..])
  }

  /** The number of clock updates a run performs. */
  function SecondsIn(s: State, ins: seq<bv8>): nat
    requires Steppable(s)
    decreases |ins|
  {
    if |ins| == 0 then 0
    else (if SecondDue(s) then 1 else 0) + SecondsIn(Tick(s, ins[0]), ins[1..])
  }

  /** Every run keeps the invariant. */
  lemma {:induction false} RunValid(s: State, ins: seq<bv8>)
    requires Valid(s)
    ensures Valid(Run(s, ins))
    decreases |ins|
  {
    if |ins| > 0 {
      TickValid(s, ins[0]);
      RunValid(Tick(s, ins[0]), ins[1..]);
    }
  }

  /** Warm-up: the first startupCnt firings only count down, whatever the
      buttons do. */
  lemma {:induction false} WarmupIgnoresEverything(s: State, ins: seq<bv8>)
    requires Steppable(s) && |ins| <= s.startupCnt
    ensures Run(s, ins) == s.(startupCnt := s.startupCnt - |ins|)
    ensures SecondsIn(s, ins) == 0
    decreases |ins|
  {
    if |ins| > 0 {
      WarmupIgnoresEverything(s.(startupCnt := s.startupCnt - 1), ins[1..]);
    }
  }

  /** The counters after one firing past warm-up. */
  lemma TickCounters(s: State, p2in: bv8)
    requires Steppable(s) && s.startupCnt == 0 && s.wdtCnt < WdtHz
    ensures Tick(s, p2in).startupCnt == 0
    ensures Tick(s, p2in).wdtCnt == (s.wdtCnt + 1) % WdtHz
    ensures SecondDue(s) <==> s.wdtCnt == WdtHz - 1
  {
  }

  /** After warm-up the clock is updated exactly once per WdtHz firings:
      a run of n firings from sub-second count w performs (w + n) / WdtHz
      updates and leaves the count at (w + n) % WdtHz. */
  lemma {:induction false} OneUpdatePerWdtHz(s: State, ins: seq<bv8>)
    requires Steppable(s) && s.startupCnt == 0 && s.wdtCnt < WdtHz
    ensures Run(s, ins).startupCnt == 0
    ensures Run(s, ins).wdtCnt == (s.wdtCnt + |ins|) % WdtHz
    ensures SecondsIn(s, ins) == (s.wdtCnt + |ins|) / WdtHz
    decreases |ins|
  {
    if |ins| > 0 {
      var t := Tick(s, ins[0]);
      var w, n := s.wdtCnt, |ins| - 1;
      assert Run(s, ins) == Run(t, ins[1..]);
      assert SecondsIn(s, ins) == (if SecondDue(s) then 1 else 0) + SecondsIn(t, ins[1..]);
      TickCounters(s, ins[0]);
      OneUpdatePerWdtHz(t, ins[1..]);
      CounterArith(w, n);
      if SecondDue(s) {
        assert w == WdtHz - 1 && t.wdtCnt == 0;
        assert SecondsIn(s, ins) == 1 + n / WdtHz;
      } else {
        assert t.wdtCnt == w + 1;
        assert SecondsIn(s, ins) == (w + 1 + n) / WdtHz;
      }
    }
  }

  lemma CounterArith(w: int, n: nat)
    requires 0 <= w < WdtHz
    ensures (if w == WdtHz - 1 then 1 else 0) + ((w + 1) % WdtHz + n) / WdtHz == (w + 1 + n) / WdtHz
    ensures ((w + 1) % WdtHz + n) % WdtHz == (w + 1 + n) % WdtHz
  {
  }

  predicate Frozen(s: State) {
    s.sec == 0 && s.min == 0 && !s.running
  }

  /** Reset held through a run after warm-up leaves the clock at 00:00 and
      stopped, whatever the start button does; as this holds of every run,
      it holds after each of the held ticks. */
  lemma {:induction false} HoldingResetFreezes(s: State, ins: seq<bv8>)
    requires Steppable(s) && s.startupCnt == 0 && |ins| >= 1
    requires forall i :: 0 <= i < |ins| ==> ResetPressed(ins[i])
    ensures Frozen(Run(s, ins))
    decreases |ins|
  {
    var t := Tick(s, ins[0]);
    assert Frozen(t);
    if |ins| > 1 {
      HoldingResetFreezes(t, ins[1..]);
    }
  }

  /** A reset tick after warm-up stops the clock at 00:00 at once, but the
      screen keeps its old digits until a clock update re-renders it: in the
      same firing when that firing is the WdtHz-th, since the buttons are
      sampled before the clock is updated. */
  lemma ResetShowsAtNextUpdate(s: State, p2in: bv8)
    requires Steppable(s) && s.startupCnt == 0 && ResetPressed(p2in)
    ensures Frozen(Tick(s, p2in))
    ensures !SecondDue(s) ==> Tick(s, p2in).panel.scr == s.panel.scr
    ensures SecondDue(s) ==> Tick(s, p2in).panel.scr == Render("0000", ClockDp)
  {
    Pad2TwoDigits(0);
    assert ClockText(0, 0) == "0000";
  }

  /** Between a reset and the next clock update mm:ss stays 00:00, while
      start presses may turn the clock on and off again. That update shows
      0001 if the clock is running when it comes, and 0000 if not. */
  lemma UpdateAfterReset(s: State)
    requires Steppable(s) && s.sec == 0 && s.min == 0
    ensures ClockUpdate(s).panel.scr == Render(if s.running then "0001" else "0000", ClockDp)
  {
    Pad2TwoDigits(0);
    Pad2TwoDigits(1);
    assert ClockText(0, 0) == "0000";
    assert ClockText(0, 1) == "0001";
  }

  /** A run without clock updates leaves the screen as it was. */
  lemma {:induction false} ScreenKeptWithoutUpdate(s: State, ins: seq<bv8>)
    requires Steppable(s) && SecondsIn(s, ins) == 0
    ensures Run(s, ins).panel.scr == s.panel.scr
    decreases |ins|
  {
    if |ins| > 0 {
      var t := Tick(s, ins[0]);
      assert !SecondDue(s);
      assert t.panel.scr == s.panel.scr;
      ScreenKeptWithoutUpdate(t, ins[1..]);
    }
  }

  /** Running a + b is running a, then b; the updates add up. */
  lemma {:induction false} RunAppend(s: State, a: seq<bv8>, b: seq<bv8>)
    requires Steppable(s)
    ensures Run(s, a + b) == Run(Run(s, a), b)
    ensures SecondsIn(s, a + b) == SecondsIn(s, a) + SecondsIn(Run(s, a), b)
    decreases |a|
  {
    if |a| > 0 {
      assert (a + b)[0] == a[0] && (a + b)[1..] == a[1..] + b;
      RunAppend(Tick(s, a[0]), a[1..], b);
    } else {
      assert a + b == b;
    }
  }

  /** From a fresh sub-second count, the screen stays as it is through
      the rest of the warm-up and the WdtHz - 1 firings after it. */
  lemma ScreenKeptUntilFirstUpdate(s: State, ins: seq<bv8>)
    requires Steppable(s) && s.wdtCnt == 0
    requires |ins| < s.startupCnt + WdtHz
    ensures Run(s, ins).panel.scr == s.panel.scr
  {
    if |ins| <= s.startupCnt {
      WarmupIgnoresEverything(s, ins);
    } else {
      var k := s.startupCnt;
      var a, b := ins[..k], ins[k..];
      assert ins == a + b;
      WarmupIgnoresEverything(s, a);
      var m := Run(s, a);
      assert m == s.(startupCnt := 0);
      RunAppend(s, a, b);
      OneUpdatePerWdtHz(m, b);
      assert SecondsIn(m, b) == 0;
      ScreenKeptWithoutUpdate(m, b);
    }
  }

  /** led_seg and led_dp keep the voltage reading through the warm-up and
      until the first clock update, which comes on the WdtHz-th firing
      after warm-up. During the warm-up no column is driven (WarmupDark);
      the reading is multiplexed only in the firings after it
      (BootMultiplexesReading). */
  lemma BootShowsReading(sample: U16, ins: seq<bv8>)
    requires |ins| < StartupTicks + WdtHz
    ensures Run(Boot(sample), ins).panel.scr == Vcc.ChkShowVcc(sample).0
  {
    var s := Boot(sample);
    assert s.wdtCnt == 0 && s.startupCnt == StartupTicks;
    ScreenKeptUntilFirstUpdate(s, ins);
  }

  /** The warm-up firings never reach led_clock, so the column lines stay
      as main left them and the display is dark. */
  lemma WarmupDark(sample: U16, ins: seq<bv8>)
    requires |ins| <= StartupTicks
    ensures SelectedColumns(Run(Boot(sample), ins).panel.p2) == {}
  {
    WarmupIgnoresEverything(Boot(sample), ins);
    BootValid(sample);
  }

  /** Past the warm-up and before the next clock update, a firing drives
      the next column of the screen it found. */
  lemma {:induction false} PlainFiringDrives(s: State, ins: seq<bv8>, x: bv8)
    requires Steppable(s) && s.wdtCnt == 0
    requires s.startupCnt <= |ins| < s.startupCnt + WdtHz - 1
    ensures var p := Run(s, ins + [x]).panel;
      && p.scr == s.panel.scr
      && SelectedColumns(p.p2) == {p.col}
      && p.p1 == SegmentLines(p.scr.segs[p.col], (ColumnBit(p.col) as bv16) & p.scr.dp != 0)
  {
    var k := s.startupCnt;
    var a, b := ins[..k], ins[k..];
    assert ins == a + b;
    WarmupIgnoresEverything(s, a);
    RunAppend(s, a, b);
    var m0 := Run(s, a);
    OneUpdatePerWdtHz(m0, b);
    var m := Run(s, ins);
    assert SecondsIn(s, ins) == 0;
    ScreenKeptWithoutUpdate(s, ins);
    assert m.startupCnt == 0 && m.wdtCnt == |b|;
    RunAppend(s, ins, [x]);
    assert Run(m, [x]) == Tick(m, x);
    assert !SecondDue(m);
    assert Tick(m, x).panel == LedClock(m.panel);
  }

  /** From the first firing after warm-up until the first clock update,
      each firing drives exactly one column, with the segment lines of the
      voltage reading in that column and its point lit as mask 8 says. */
  lemma BootMultiplexesReading(sample: U16, ins: seq<bv8>, x: bv8)
    requires StartupTicks <= |ins| < StartupTicks + WdtHz - 1
    ensures var p := Run(Boot(sample), ins + [x]).panel;
      var reading := Vcc.ChkShowVcc(sample).0;
      && SelectedColumns(p.p2) == {p.col}
      && p.p1 == SegmentLines(reading.segs[p.col], (ColumnBit(p.col) as bv16) & reading.dp != 0)
  {
    PlainFiringDrives(Boot(sample), ins, x);
  }

  /** With start never pressed and the clock stopped, no number of
      firings changes mm:ss (the screen itself is re-rendered from that
      unchanged mm:ss at each clock update). */
  lemma {:induction false} NeverStartedStaysStill(s: State, ins: seq<bv8>)
    requires Steppable(s) && !s.running
    requires forall i :: 0 <= i < |ins| ==> !StartPressed(ins[i]) && !ResetPressed(ins[i])
    ensures !Run(s, ins).running
    ensures Run(s, ins).sec == s.sec && Run(s, ins).min == s.min
    decreases |ins|
  {
    if |ins| > 0 {
      NeverStartedStaysStill(Tick(s, ins[0]), ins[1..]);
    }
  }
}
