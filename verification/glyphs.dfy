/** The segment encoder of the stopwatch display.

    Each of the four digits is a common-anode seven-segment LED. Its
    segments a, b, c, d, e, f, g and the decimal point are wired to the
    port lines P1.0, P1.2, P1.7, P1.6, P1.5, P1.3, P1.4 and P1.1.

    A glyph is the byte of P1 bits that must be lit to draw a character.
 */
module Glyphs {
  import opened Decimal

  const Bit0: bv8 := 0x01
  const Bit1: bv8 := 0x02
  const Bit2: bv8 := 0x04
  const Bit3: bv8 := 0x08
  const Bit4: bv8 := 0x10
  const Bit5: bv8 := 0x20
  const Bit6: bv8 := 0x40
  const Bit7: bv8 := 0x80

  /** Indices of the non-digit entries of the glyph table. */
  const Minus := 10
  const Deg := 11
  const Space := 12

  /** The character the display draws as a degree sign. */
  const DegreeChar: char := '\U{00F8}'

  /** The glyph table: digits 0..9, minus, degree sign, space. */
  const SegMap: seq<bv8> := [
    Bit0 | Bit2 | Bit3 | Bit5 | Bit6 | Bit7,          // 0
    Bit2 | Bit7,                                      // 1
    Bit0 | Bit2 | Bit4 | Bit5 | Bit6,                 // 2
    Bit0 | Bit2 | Bit4 | Bit6 | Bit7,                 // 3
    Bit2 | Bit3 | Bit4 | Bit7,                        // 4
    Bit0 | Bit3 | Bit4 | Bit6 | Bit7,                 // 5
    Bit0 | Bit3 | Bit4 | Bit5 | Bit6 | Bit7,          // 6
    Bit0 | Bit2 | Bit7,                               // 7
    Bit0 | Bit2 | Bit3 | Bit4 | Bit5 | Bit6 | Bit7,   // 8
    Bit0 | Bit2 | Bit3 | Bit4 | Bit6 | Bit7,          // 9
    Bit4,                                             // -
    Bit0 | Bit2 | Bit3 | Bit4,                        // degree sign
    0                                                 // space
  ]

  /** The glyph of one character: a digit, '-', the degree sign, and
      anything else is drawn blank. */
  function Glyph(c: char): (g: bv8)
    ensures g & Bit1 == 0
  {
    if IsDigitChar(c) then SegMap[c as int - '0' as int]
    else if c == '-' then SegMap[Minus]
    else if c == DegreeChar then SegMap[Deg]
    else SegMap[Space]
  }

  /** The glyph of the decimal digit d. */
  function DigitGlyph(d: nat): bv8
    requires d < 10
  {
    Glyph(('0' as int + d) as char)
  }

  // ----- an independent reference: the standard seven-segment font -----

  /** The seven segments and the decimal point, named as usual:
      a top, b upper right, c lower right, d bottom, e lower left,
      f upper left, g middle. */
  datatype Segment = A | B | C | D | E | F | G | Dp

  /** The P1 line each segment is wired to, as listed above. */
  function Pin(s: Segment): bv8 {
    match s
    case A => Bit0
    case B => Bit2
    case C => Bit7
    case D => Bit6
    case E => Bit5
    case F => Bit3
    case G => Bit4
    case Dp => Bit1
  }

  /** The byte that lights exactly the segments in lit. */
  function Mask(lit: set<Segment>): bv8 {
    (if A in lit then Pin(A) else 0) |
    (if B in lit then Pin(B) else 0) |
    (if C in lit then Pin(C) else 0) |
    (if D in lit then Pin(D) else 0) |
    (if E in lit then Pin(E) else 0) |
    (if F in lit then Pin(F) else 0) |
    (if G in lit then Pin(G) else 0) |
    (if Dp in lit then Pin(Dp) else 0)
  }

  /** The segments the common seven-segment font lights for a digit. */
  function FontDigit(d: nat): set<Segment>
    requires d < 10
  {
    [{A, B, C, D, E, F},
     {B, C},
     {A, B, D, E, G},
     {A, B, C, D, G},
     {B, C, F, G},
     {A, C, D, F, G},
     {A, C, D, E, F, G},
     {A, B, C},
     {A, B, C, D, E, F, G},
     {A, B, C, D, F, G}][d]
  }

  /** Every digit glyph lights exactly the segments of the standard font,
      once the segments are mapped to pins as the layout shows. */
  lemma DigitGlyphsMatchFont(d: nat)
    requires d < 10
    ensures DigitGlyph(d) == Mask(FontDigit(d))
  {
    assert DigitGlyph(d) == SegMap[d];
  }

  /** The minus sign lights the middle bar only; the degree sign is the
      upper square a, b, f, g. */
  lemma SignGlyphsMatchFont()
    ensures Glyph('-') == Mask({G})
    ensures Glyph(DegreeChar) == Mask({A, B, F, G})
  {
  }

  /** Distinct digits are drawn differently, so the display is readable. */
  lemma DigitGlyphsDistinct(d: nat, e: nat)
    requires d < 10 && e < 10
    ensures DigitGlyph(d) == DigitGlyph(e) <==> d == e
  {
    assert DigitGlyph(d) == SegMap[d];
    assert DigitGlyph(e) == SegMap[e];
  }

  /** Only digits, '-' and the degree sign light anything; every other
      character is blank. */
  lemma BlankExactlyForOthers(c: char)
    ensures Glyph(c) == 0 <==> !IsDigitChar(c) && c != '-' && c != DegreeChar
  {
    if IsDigitChar(c) {
      assert Glyph(c) == SegMap[c as int - '0' as int];
    }
  }
}
