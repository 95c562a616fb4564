/** The start-up supply check: converting the ADC sample of AVcc/2 to
    millivolts (`measure_vcc`, its arithmetic only) and showing and judging
    the result (`chk_show_vcc`). */
module Vcc {
  import opened Word
  import opened Glyphs
  import opened Decimal
  import opened Display

  /** Lowest acceptable supply, in millivolts. */
  const MinVcc := 3000

  /** Decimal-point mask of the voltage display: 1 << 3, column 0, so
      millivolts read as volts. */
  const VccDp: bv16 := 8

  /** Largest value of the 10-bit converter. */
  const AdcMax := 1023

  /** The calibration 5*v - 2*v/17 in 16-bit unsigned arithmetic: every
      product, quotient and difference keeps only 16 bits. */
  function Millivolts(v: U16): U16 {
    Wrap16(Wrap16(5 * v) - Wrap16(2 * v) / 17)
  }

  /** For every 10-bit sample, and for the full-scale value 1024 the
      calibration is designed around, no intermediate result wraps, the
      reading never exceeds 5000 mV, and 1024 reads exactly 5000 mV. */
  lemma NoOverflow(v: U16)
    requires v <= AdcMax + 1
    ensures Millivolts(v) == 5 * v - 2 * v / 17
    ensures Millivolts(v) <= 5000
    ensures v == AdcMax + 1 ==> Millivolts(v) == 5000
  {
    assert 0 <= 2 * v / 17 <= 5 * v;
  }

  /** The integer calibration is within one millivolt above the exact
      scaling v * 5000 / 1024 it approximates. */
  lemma CloseToExactScaling(v: U16)
    requires v <= AdcMax + 1
    ensures v * 5000 / 1024 <= Millivolts(v) <= v * 5000 / 1024 + 1
  {
    NoOverflow(v);
    var q, r := 2 * v / 17, 2 * v % 17;
    assert 2 * v == 17 * q + r && 0 <= r < 17;
    var b, t := v * 5000 / 1024, v * 5000 % 1024;
    assert v * 5000 == 1024 * b + t && 0 <= t < 1024;
    var a := 5 * v - q;
    assert 17 * (1024 * a - 5000 * v) == 1024 * r - 8 * v;
  }

  /** A larger sample never reads lower. */
  lemma Monotone(v: U16, w: U16)
    requires v <= w <= AdcMax + 1
    ensures Millivolts(v) <= Millivolts(w)
  {
    NoOverflow(v);
    NoOverflow(w);
    assert 2 * v / 17 <= 2 * w / 17 <= 2 * v / 17 + (2 * (w - v)) / 17 + 1;
  }

  /** A sample passes the supply check exactly when it is at least 615:
      614 reads 2998 mV and 615 reads 3003 mV. */
  lemma PassesIffSampleAtLeast615(v: U16)
    requires v <= AdcMax
    ensures Millivolts(v) >= MinVcc <==> v >= 615
  {
    NoOverflow(614);
    NoOverflow(615);
    assert Millivolts(614) == 2998 && Millivolts(615) == 3003;
    if v >= 615 {
      Monotone(615, v);
    } else {
      Monotone(v, 614);
    }
  }

  /** No sample reads exactly the floor, so the strictness of the
      comparison never decides a real measurement. */
  lemma FloorNeverRead(v: U16)
    requires v <= AdcMax
    ensures Millivolts(v) != MinVcc
  {
    PassesIffSampleAtLeast615(v);
    if v <= 614 {
      Monotone(v, 614);
      assert Millivolts(614) == 2998 by { NoOverflow(614); }
    }
  }

  /** chk_show_vcc, given the sample the converter returned: show the
      reading with the point after the first digit and report -1 when it
      is below the floor, 0 otherwise. */
  function ChkShowVcc(sample: U16): (r: (Screen, int))
    ensures r.1 == -1 <==> Millivolts(sample) < MinVcc
    ensures r.1 == 0 <==> Millivolts(sample) >= MinVcc
    ensures r.0 == Render(Digits(Millivolts(sample)), VccDp)
    ensures DpClear(r.0)
  {
    var mv := Millivolts(sample);
    (Render(Digits(mv), VccDp), if mv < MinVcc then -1 else 0)
  }

  /** A reading of 1000 mV or more fills the four columns with its
      thousands, hundreds, tens and units, the point lit after the first
      column only. */
  lemma VccDisplayFourDigits(sample: U16)
    requires sample <= AdcMax && Millivolts(sample) >= 1000
    ensures var mv := Millivolts(sample);
      ChkShowVcc(sample).0.segs ==
        [DigitGlyph(mv / 1000), DigitGlyph(mv / 100 % 10),
         DigitGlyph(mv / 10 % 10), DigitGlyph(mv % 10)]
    ensures forall col :: 0 <= col < Cols ==> ((ColumnBit(col) as bv16) & VccDp != 0 <==> col == 0)
  {
    var mv := Millivolts(sample);
    NoOverflow(sample);
    DigitsFour(mv);
    RenderFourChars(DigitChar(mv / 1000), DigitChar(mv / 100 % 10),
                    DigitChar(mv / 10 % 10), DigitChar(mv % 10), VccDp);
    DpMaskColumns();
  }

  /** A reading below 1000 mV has at most three digits, so the last
      column goes dark. */
  lemma VccDisplayShortReading(sample: U16)
    requires Millivolts(sample) < 1000
    ensures ChkShowVcc(sample).0.segs[3] == 0
  {
    var mv := Millivolts(sample);
    DigitsLength(mv, 3);
    assert Pow10(3) == 1000;
    assert CharAt(Digits(mv), 3) == Nul;
    RenderColumns(Digits(mv), VccDp, 3);
  }
}
