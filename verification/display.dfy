/** The multiplexed four-digit display: the text-to-segments encoder
    (`led_show_dp`) and the per-tick column driver (`led_clock`). */
module Display {
  import opened Glyphs

  /** Number of digit columns. */
  const Cols := 4

  /** The column-select lines P2.0..P2.3. */
  const ColBits: bv8 := 0x0F

  const Nul: char := '\0'

  type Segments = s: seq<bv8> | |s| == Cols witness [0, 0, 0, 0]

  /** What the display shows: one segment byte per column (`led_seg`)
      and the decimal-point mask (`led_dp`, a 16-bit unsigned). */
  datatype Screen = Screen(segs: Segments, dp: bv16)

  /** The column driver's state: the cursor `led_col`, the screen it shows
      and the two output ports. */
  datatype Panel = Panel(col: int, scr: Screen, p1: bv8, p2: bv8)

  /** No segment byte lights the decimal point on its own: the point is
      driven only through the mask. */
  predicate DpClear(scr: Screen) {
    forall i :: 0 <= i < Cols ==> scr.segs[i] & Bit1 == 0
  }

  // ----- led_show_dp -----

  /** Character i of a C string held in a 4-byte buffer: past the end of
      the text lies its terminating NUL. */
  function CharAt(text: seq<char>, i: nat): char {
    if i < |text| then text[i] else Nul
  }

  /** Some character at or before column i ends the string. */
  predicate EndedBy(text: seq<char>, i: nat) {
    exists j :: 0 <= j <= i && CharAt(text, j) == Nul
  }

  /** Index of the first NUL among the first Cols characters, or Cols. */
  function FirstNul(text: seq<char>, from: nat): (k: nat)
    requires from <= Cols
    ensures from <= k <= Cols
    ensures forall j :: from <= j < k ==> CharAt(text, j) != Nul
    ensures k < Cols ==> CharAt(text, k) == Nul
    decreases Cols - from
  {
    if from == Cols || CharAt(text, from) == Nul then from
    else FirstNul(text, from + 1)
  }

  /** The screen led_show_dp leaves: each column shows the glyph of its
      character up to the end of the string and is blank from there on. */
  function Render(text: seq<char>, dp: bv16): (r: Screen)
    ensures r.dp == dp
    ensures DpClear(r)
  {
    var k := FirstNul(text, 0);
    Screen(seq(Cols, i requires 0 <= i < Cols => if i < k then Glyph(CharAt(text, i)) else 0), dp)
  }

  /** Column by column, led_show_dp shows the glyph of each character up
      to the end of the string and blanks every column from the first NUL
      on. */
  lemma RenderColumns(text: seq<char>, dp: bv16, i: nat)
    requires i < Cols
    ensures Render(text, dp).segs[i] ==
      if EndedBy(text, i) then 0 else Glyph(CharAt(text, i))
  {
    var k := FirstNul(text, 0);
    if i >= k {
      assert CharAt(text, k) == Nul;
    }
  }

  /** Four non-NUL characters fill the four columns with their glyphs,
      in order. */
  lemma RenderFourChars(a: char, b: char, c: char, d: char, dp: bv16)
    requires a != Nul && b != Nul && c != Nul && d != Nul
    ensures Render([a, b, c, d], dp).segs == [Glyph(a), Glyph(b), Glyph(c), Glyph(d)]
  {
    var t := [a, b, c, d];
    assert FirstNul(t, 0) == Cols by {
      FirstNulIsFirst(t, 0, Cols);
    }
  }

  /** led_show_dp as the firmware writes it: a loop that stops at the
      first NUL, then a loop that blanks the remaining columns. */
  method LedShowDp(text: seq<char>, dp: bv16) returns (scr: Screen)
    ensures scr == Render(text, dp)
  {
    var segs: seq<bv8> := [0, 0, 0, 0];
    var i := 0;
    while i < Cols
      invariant 0 <= i <= Cols && |segs| == Cols
      invariant forall j :: 0 <= j < i ==> CharAt(text, j) != Nul
      invariant forall j :: 0 <= j < i ==> segs[j] == Glyph(CharAt(text, j))
    {
      var c := CharAt(text, i);
      if c == Nul {
        break;
      }
      segs := segs[i := Glyph(c)];
      i := i + 1;
    }
    ghost var k := i;
    assert k == FirstNul(text, 0) by {
      FirstNulIsFirst(text, 0, k);
    }
    while i < Cols
      invariant k <= i <= Cols && |segs| == Cols
      invariant forall j :: 0 <= j < k ==> segs[j] == Glyph(CharAt(text, j))
      invariant forall j :: k <= j < i ==> segs[j] == 0
    {
      segs := segs[i := 0];
      i := i + 1;
    }
    scr := Screen(segs, dp);
  }

  /** FirstNul is determined by the two facts it promises. */
  lemma {:induction false} FirstNulIsFirst(text: seq<char>, from: nat, k: nat)
    requires from <= k <= Cols
    requires forall j :: from <= j < k ==> CharAt(text, j) != Nul
    requires k < Cols ==> CharAt(text, k) == Nul
    ensures FirstNul(text, from) == k
    decreases Cols - from
  {
    if from < k {
      FirstNulIsFirst(text, from + 1, k);
    }
  }

  // ----- led_clock -----

  /** The column-select bit of column col: column 0 is the leftmost digit,
      wired to P2.3. */
  function ColumnBit(col: int): (b: bv8)
    requires 0 <= col < Cols
    ensures b == [0x08, 0x04, 0x02, 0x01][col]
    ensures b & ColBits == b && b != 0
  {
    (1 as bv8) << (Cols - 1 - col)
  }

  /** The columns whose select line is driven high in a P2 value. */
  function SelectedColumns(p2: bv8): set<int> {
    set k | 0 <= k < Cols && p2 & ColumnBit(k) != 0
  }

  /** The P1 value that shows segment byte seg, with the decimal point lit
      when dpOn; the lines are active low. */
  function SegmentLines(seg: bv8, dpOn: bool): bv8 {
    !(if dpOn then seg | Bit1 else seg)
  }

  /** The cursor after one step: cyclic over the four columns, and 0 from
      the initial value Cols. */
  function NextCol(col: int): (c: int)
    requires 0 <= col <= Cols
    ensures 0 <= c < Cols
    ensures col < Cols ==> c == (col + 1) % Cols
    ensures col == Cols ==> c == 0
  {
    if col + 1 >= Cols then 0 else col + 1
  }

  /** The three port states one led_clock call passes through, in order:
      all column lines released, new segment lines, new column selected. */
  function LedClockWrites(p: Panel): (w: seq<(bv8, bv8)>)
    requires 0 <= p.col <= Cols
    ensures |w| == 3
    ensures w[0].0 == p.p1 && SelectedColumns(w[0].1) == {}
    ensures w[1].1 == w[0].1 && SelectedColumns(w[1].1) == {}
    ensures w[1].0 == SegmentLines(p.scr.segs[NextCol(p.col)],
                                   (ColumnBit(NextCol(p.col)) as bv16) & p.scr.dp != 0)
    ensures w[2].0 == w[1].0
    ensures SelectedColumns(w[2].1) == {NextCol(p.col)}
    ensures forall i :: 0 <= i < 3 ==> w[i].1 & !ColBits == p.p2 & !ColBits
  {
    var col := NextCol(p.col);
    var bit := ColumnBit(col);
    var segs := p.scr.segs[col];
    var dpOn := (bit as bv16) & p.scr.dp != 0;
    var cleared := p.p2 & !ColBits;
    var p1 := SegmentLines(segs, dpOn);
    var p2 := cleared | bit;
    NoneSelectedWhenCleared(p.p2);
    OneSelected(cleared, col);
    [(p.p1, cleared), (p1, cleared), (p1, p2)]
  }

  lemma NoneSelectedWhenCleared(p2: bv8)
    ensures SelectedColumns(p2 & !ColBits) == {}
  {
    forall k | 0 <= k < Cols
      ensures p2 & !ColBits & ColumnBit(k) == 0
    {
      assert ColumnBit(k) & ColBits == ColumnBit(k);
    }
  }

  lemma OneSelected(cleared: bv8, col: int)
    requires cleared & ColBits == 0
    requires 0 <= col < Cols
    ensures SelectedColumns(cleared | ColumnBit(col)) == {col}
  {
    var p2 := cleared | ColumnBit(col);
    forall k | 0 <= k < Cols
      ensures p2 & ColumnBit(k) != 0 <==> k == col
    {
      assert ColumnBit(k) & ColBits == ColumnBit(k);
      assert 0 <= k < 4 && 0 <= col < 4;
      if k == 0 || k == 1 || k == 2 || k == 3 {
        assert p2 & ColumnBit(k) == ColumnBit(col) & ColumnBit(k);
      }
    }
  }

  /** led_clock: advance the cursor and drive the new column. */
  function LedClock(p: Panel): (r: Panel)
    requires 0 <= p.col <= Cols
    ensures r.col == NextCol(p.col) && r.scr == p.scr
    ensures SelectedColumns(r.p2) == {r.col}
    ensures r.p2 & !ColBits == p.p2 & !ColBits
    ensures r.p1 == SegmentLines(p.scr.segs[r.col], (ColumnBit(r.col) as bv16) & p.scr.dp != 0)
    ensures DpClear(p.scr) ==>
      (r.p1 & Bit1 == 0 <==> (ColumnBit(r.col) as bv16) & p.scr.dp != 0)
  {
    var w := LedClockWrites(p);
    var col := NextCol(p.col);
    Panel(col, p.scr, w[2].0, w[2].1)
  }

  /** The decimal-point mask bit of a column; masks 8 and 4 used by the
      firmware light the point of columns 0 and 1. */
  lemma DpMaskColumns()
    ensures forall col :: 0 <= col < Cols ==> ((ColumnBit(col) as bv16) & 8 != 0 <==> col == 0)
    ensures forall col :: 0 <= col < Cols ==> ((ColumnBit(col) as bv16) & 4 != 0 <==> col == 1)
  {
    assert ColumnBit(0) == 8 && ColumnBit(1) == 4 && ColumnBit(2) == 2 && ColumnBit(3) == 1;
  }

  /** n calls of led_clock. */
  function LedClockN(p: Panel, n: nat): (r: Panel)
    requires 0 <= p.col <= Cols
    ensures 0 <= r.col <= Cols
    decreases n
  {
    if n == 0 then p else LedClockN(LedClock(p), n - 1)
  }

  /** The cursor visits the columns 0, 1, 2, 3, 0, ... : after n steps from
      column c it sits at (c + n) mod 4, and the first step from the
      initial value Cols lands on column 0. */
  lemma {:induction false} CursorCycles(p: Panel, n: nat)
    requires 0 <= p.col <= Cols
    ensures p.col < Cols ==> LedClockN(p, n).col == (p.col + n) % Cols
    ensures p.col == Cols && n >= 1 ==> LedClockN(p, n).col == (n - 1) % Cols
    decreases n
  {
    if n > 0 {
      var q := LedClock(p);
      assert LedClockN(p, n) == LedClockN(q, n - 1);
      CursorCycles(q, n - 1);
      if p.col < Cols {
        assert q.col == (p.col + 1) % Cols;
        ModStep(p.col, n - 1);
      } else {
        assert q.col == 0;
      }
    }
  }

  lemma ModStep(c: int, m: nat)
    requires 0 <= c < Cols
    ensures ((c + 1) % Cols + m) % Cols == (c + 1 + m) % Cols
  {
  }
}
