/** The escape sequences of the terminal utilities: opening codes for
    colours, backgrounds and text styles, and the codes that close them.
    Every one is an SGR control sequence, `ESC [ <number> m`, in the sense
    of section 8.3.117 of ECMA-48. */
module AnsiCodes {
  import Strings

  /** The ESC character (code 27) that starts every sequence. */
  const Esc: char := '\U{1B}'

  /** `ESC [ n m`: the select-graphic-rendition sequence with the single
      decimal parameter `n`, as the library writes each code (`\x1b[31m`
      is `Sgr(31)`). */
  function Sgr(n: nat): string
  {
    [Esc, '['] + Strings.NatToString(n) + "m"
  }

  // Reset
  const Reset: string := Sgr(0)

  // Colour
  const Black: string := Sgr(30)
  const Red: string := Sgr(31)
  const Green: string := Sgr(32)
  const Yellow: string := Sgr(33)
  const Blue: string := Sgr(34)
  const Magenta: string := Sgr(35)
  const Cyan: string := Sgr(36)
  const White: string := Sgr(37)
  const Gray: string := Sgr(90)

  // Bright colour
  const BrightRed: string := Sgr(91)
  const BrightGreen: string := Sgr(92)
  const BrightYellow: string := Sgr(93)
  const BrightBlue: string := Sgr(94)
  const BrightMagenta: string := Sgr(95)
  const BrightCyan: string := Sgr(96)
  const BrightWhite: string := Sgr(97)

  // Background
  const BgBlack: string := Sgr(40)
  const BgRed: string := Sgr(41)
  const BgGreen: string := Sgr(42)
  const BgYellow: string := Sgr(43)
  const BgBlue: string := Sgr(44)
  const BgMagenta: string := Sgr(45)
  const BgCyan: string := Sgr(46)
  const BgWhite: string := Sgr(47)
  const BgGray: string := Sgr(100)

  // Bright background
  const BgBrightRed: string := Sgr(101)
  const BgBrightGreen: string := Sgr(102)
  const BgBrightYellow: string := Sgr(103)
  const BgBrightBlue: string := Sgr(104)
  const BgBrightMagenta: string := Sgr(105)
  const BgBrightCyan: string := Sgr(106)
  const BgBrightWhite: string := Sgr(107)

  // Text styles
  const Bold: string := Sgr(1)
  const Dim: string := Sgr(2)
  const Italic: string := Sgr(3)
  const Underline: string := Sgr(4)
  const Blink: string := Sgr(5)
  const Reverse: string := Sgr(7)
  const Strikethrough: string := Sgr(9)

  // Close codes: one for all foreground colours, one for all backgrounds,
  // and one per text style (bold and dim share theirs).
  const FgClose: string := Sgr(39)
  const BgClose: string := Sgr(49)
  const BoldClose: string := Sgr(22)
  const DimClose: string := Sgr(22)
  const ItalicClose: string := Sgr(23)
  const UnderlineClose: string := Sgr(24)
  const BlinkClose: string := Sgr(25)
  const ReverseClose: string := Sgr(27)
  const StrikethroughClose: string := Sgr(29)
}
