/**
  Value types of the terminal core (cells, colours, cursors, modes) and the alphabet of
  operations that the parser hands to the terminal.
 */
module Types {

  /**
    One octet of terminal output. The functions are total on all integers, so that sequences of
    octets carry no side conditions; `IsByte` is required where the range matters.
   */
  type Byte = int

  predicate IsByte(b: Byte) {
    0 <= b < 0x100
  }

  /** A `char32_t`; not every value is a Unicode scalar value. */
  type CodePoint = int

  /** The range of a C++ `int`. */
  predicate IsInt32(i: int) {
    -0x8000_0000 <= i < 0x8000_0000
  }

  /** `std::size_t` arithmetic is modulo this number. */
  const SIZE_MODULUS: nat := 0x1_0000_0000_0000_0000

  /** The sum of two `std::size_t` values, with wrap-around. */
  function SizeSum(a: nat, b: nat): nat {
    (a + b) % SIZE_MODULUS
  }

  function Min(a: nat, b: nat): nat {
    if a <= b then a else b
  }

  const REPLACEMENT_CHARACTER: CodePoint := 0xFFFD

  // ---- Styles ----

  datatype Rgb = Rgb(red: Byte, green: Byte, blue: Byte)

  datatype ColorKind = DefaultKind | IndexedKind | RgbKind

  datatype Color = Color(kind: ColorKind, index: Byte, rgb: Rgb)

  const DEFAULT_COLOR := Color(DefaultKind, 0, Rgb(0, 0, 0))

  function IndexedColor(value: Byte): Color {
    Color(IndexedKind, value, Rgb(0, 0, 0))
  }

  function TrueColor(red: Byte, green: Byte, blue: Byte): Color {
    Color(RgbKind, 0, Rgb(red, green, blue))
  }

  /** The colours that the three constructors above can build from octets. */
  predicate CanonicalColor(c: Color) {
    match c.kind
    case DefaultKind => c == DEFAULT_COLOR
    case IndexedKind => c == IndexedColor(c.index) && IsByte(c.index)
    case RgbKind =>
      && c == TrueColor(c.rgb.red, c.rgb.green, c.rgb.blue)
      && IsByte(c.rgb.red) && IsByte(c.rgb.green) && IsByte(c.rgb.blue)
  }

  datatype CellAttribute = Bold | Dim | Italic | Underline | Inverse | Strikethrough

  function AttributeMask(a: CellAttribute): bv16 {
    match a
    case Bold => 1
    case Dim => 2
    case Italic => 4
    case Underline => 8
    case Inverse => 16
    case Strikethrough => 32
  }

  predicate HasAttribute(attributes: bv16, a: CellAttribute) {
    attributes & AttributeMask(a) != 0
  }

  datatype CellStyle = CellStyle(foreground: Color, background: Color, attributes: bv16)

  const DEFAULT_STYLE := CellStyle(DEFAULT_COLOR, DEFAULT_COLOR, 0)

  /** Canonical colours, and no attribute bit beyond the six named ones. */
  predicate CanonicalStyle(s: CellStyle) {
    CanonicalColor(s.foreground) && CanonicalColor(s.background) && s.attributes & 0xFFC0 == 0
  }

  // ---- Cells ----

  datatype CellWidth = Normal | Wide | Continuation

  datatype Cell = Cell(text: seq<CodePoint>, style: CellStyle, width: CellWidth)

  const BLANK_CELL := Cell([0x20], DEFAULT_STYLE, Normal)

  type Row = seq<Cell>

  // ---- Cursor and modes ----

  datatype Cursor = Cursor(row: nat, column: nat, visible: bool)

  const HOME := Cursor(0, 0, true)

  datatype Modes = Modes(autoWrap: bool, insert: bool, origin: bool, bracketedPaste: bool, alternateScreen: bool)

  const DEFAULT_MODES := Modes(true, false, false, false, false)

  // ---- Operations ----

  /** One constructor for each virtual member of `TerminalOperations`. */
  datatype Op =
    | Print(codepoint: CodePoint)
    | ExecuteControl(control: Byte)
    | CursorUp(count: nat)
    | CursorDown(count: nat)
    | CursorForward(count: nat)
    | CursorBack(count: nat)
    | CursorPosition(row: nat, column: nat)
    | EraseInDisplay(mode: nat)
    | EraseInLine(mode: nat)
    | SetGraphicsRendition(parameters: seq<int>)
    | SetTitle(title: seq<Byte>)
    | SetPrivateMode(modes: seq<int>, enabled: bool)
    | SaveCursor
    | RestoreCursor
    | Reset

  /** The calls that print some characters. */
  function Prints(cs: seq<CodePoint>): seq<Op> {
    seq(|cs|, i requires 0 <= i < |cs| => Print(cs[i]))
  }

  lemma PrintsFirst(cs: seq<CodePoint>)
    requires cs != []
    ensures Prints(cs) == [Print(cs[0])] + Prints(cs[1..])
  {
  }
}
