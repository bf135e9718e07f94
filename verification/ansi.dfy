/** The colour wrappers of the terminal utilities. A wrapper surrounds its
    text with an opening code and a close code; when the text already holds
    the close code (an inner wrapper ended there), the opening code is
    re-issued right after it so the outer colour resumes. Whether colours
    are allowed is decided once from the environment; here it is a
    parameter. */
module Ansi {
  import opened Js
  import opened Strings
  import opened Seqs
  import AnsiCodes

  /** What a wrapper accepts: `string | number`, integers only. */
  datatype Printable = Text(s: string) | Number(n: int)

  /** `String(value)`. */
  function Display(v: Printable): string
  {
    match v
    case Text(s) => s
    case Number(n) => IntToString(n)
  }

  /** The close code a wrapper ends with: `close_code || reset`. */
  function EffectiveClose(close: Option<string>): (c: string)
    ensures c == AnsiCodes.Reset || (close == Some(c) && c != "")
    ensures close.Some? && close.value != "" ==> c == close.value
  {
    Or(close, AnsiCodes.Reset)
  }

  /** The function `createWrap(open, close)` returns, applied to `v`. */
  function Wrap(colorsAllowed: bool, open: string, close: Option<string>, v: Printable): (r: string)
    ensures !colorsAllowed ==> r == Display(v)
    ensures colorsAllowed ==>
      var c, t := EffectiveClose(close), Display(v);
      && |r| >= |open| + |c|
      && r[..|open|] == open
      && r[|r| - |c|..] == c
  {
    if !colorsAllowed then Display(v)
    else
      var c, t := EffectiveClose(close), Display(v);
      var content := if Contains(t, c) then JsReplaceAll(t, c, c + open) else t;
      var r := open + content + c;
      assert r[..|open|] == open;
      assert r[|r| - |c|..] == c;
      r
  }

  /** With colours allowed the `includes` test is immaterial: the result is
      always the open code, the text passed through `replaceAll` of the
      close code by close + open, and the close code. */
  lemma WrapExpandsEveryClose(open: string, close: Option<string>, v: Printable)
    ensures var c, t := EffectiveClose(close), Display(v);
      Wrap(true, open, close, v) == open + JsReplaceAll(t, c, c + open) + c
  {
    var c, t := EffectiveClose(close), Display(v);
    if !Contains(t, c) {
      JsReplaceAllNoMatch(t, c, c + open);
    }
  }

  /** When neither code holds a `$`, no replacement pattern applies: every
      close code in the text is followed by the open code. */
  lemma WrapReplacesEveryClose(open: string, close: Option<string>, v: Printable)
    requires '$' !in open && '$' !in EffectiveClose(close)
    ensures var c, t := EffectiveClose(close), Display(v);
      Wrap(true, open, close, v) == open + ReplaceAll(t, c, c + open) + c
  {
    var c, t := EffectiveClose(close), Display(v);
    WrapExpandsEveryClose(open, close, v);
    JsReplaceAllLiteral(t, c, c + open);
  }

  /** A `$&` in the open code stands for the matched close code: with the
      close code `c` as the whole text, `replaceAll` gives `c + c`. */
  lemma WrapExpandsMatch(c: string)
    requires c != "" && '$' !in c
    ensures Wrap(true, "$&", Some(c), Text(c)) == "$&" + c + c + c
  {
    var r := c + "$&";
    assert EffectiveClose(Some(c)) == c;
    WrapExpandsEveryClose("$&", Some(c), Text(c));
    assert JsReplaceAll(c, c, r) == c + c by {
      JsReplaceAllWhole(c, r);
      SubstitutePrefix(c, "$&", c, "", "");
      SubstitutePatterns(c, "", "");
    }
  }

  /** Each close code found in the text adds one copy of the open code. */
  lemma WrapLength(open: string, close: Option<string>, v: Printable)
    requires '$' !in open && '$' !in EffectiveClose(close)
    ensures var c, t := EffectiveClose(close), Display(v);
      |Wrap(true, open, close, v)| == |open| + |t| + CountMatches(t, c) * |open| + |c|
  {
    var c, t := EffectiveClose(close), Display(v);
    WrapReplacesEveryClose(open, close, v);
    ReplaceAllLength(t, c, c + open);
    MulDistributes(CountMatches(t, c), |c|, |open|);
  }

  /** Text without the close code is simply framed by the two codes. */
  lemma WrapWithoutClose(open: string, close: Option<string>, v: Printable)
    requires !Contains(Display(v), EffectiveClose(close))
    ensures Wrap(true, open, close, v) == open + Display(v) + EffectiveClose(close)
  {
  }

  /** A wrapper depends on the close code only through the one it uses. */
  lemma WrapByClose(colorsAllowed: bool, open: string, c1: Option<string>, c2: Option<string>, v: Printable)
    requires EffectiveClose(c1) == EffectiveClose(c2)
    ensures Wrap(colorsAllowed, open, c1, v) == Wrap(colorsAllowed, open, c2, v)
  {
  }

  /** A missing or empty close code behaves as the reset code. */
  lemma WrapDefaultsToReset(colorsAllowed: bool, open: string, v: Printable)
    ensures Wrap(colorsAllowed, open, None, v) == Wrap(colorsAllowed, open, Some(AnsiCodes.Reset), v)
    ensures Wrap(colorsAllowed, open, Some(""), v) == Wrap(colorsAllowed, open, Some(AnsiCodes.Reset), v)
  {
    var reset := AnsiCodes.Reset;
    assert |reset| > 0;
    assert EffectiveClose(Some(reset)) == reset;
    WrapByClose(colorsAllowed, open, None, Some(reset), v);
    WrapByClose(colorsAllowed, open, Some(""), Some(reset), v);
  }

  /** With colours disallowed, nesting wrappers leaves the plain text. */
  lemma DisabledNesting(o1: string, c1: Option<string>, o2: string, c2: Option<string>, x: string, y: string, z: string)
    ensures Wrap(false, o2, c2, Text(x + Wrap(false, o1, c1, Text(y)) + z)) == x + y + z
  {
  }

  // ---------------------------------------------------------------------
  // SGR sequences
  // ---------------------------------------------------------------------

  /** `ESC [ digits m`. */
  predicate IsSgr(s: string)
  {
    && |s| >= 4
    && s[0] == AnsiCodes.Esc
    && s[1] == '['
    && s[|s| - 1] == 'm'
    && AllDigits(s[2..|s| - 1])
  }

  /** The numeric parameter of an SGR sequence. */
  function SgrParam(s: string): nat
    requires IsSgr(s)
  {
    ParseNat(s[2..|s| - 1])
  }

  /** Text that holds no ESC character, so no escape sequence starts in it. */
  predicate EscFree(s: string)
  {
    forall i | 0 <= i < |s| :: s[i] != AnsiCodes.Esc
  }

  /** Two different SGR sequences are never prefixes of one another: the
      final `m` of the shorter one would face a digit of the longer one. */
  lemma SgrNotPrefix(a: string, b: string, w: string)
    requires IsSgr(a) && IsSgr(b) && a != b
    ensures !MatchAt(a + w, b, 0)
  {
    if |b| <= |a + w| {
      var u := (a + w)[..|b|];
      if |b| < |a| {
        assert a[2..|a| - 1][|b| - 3] == a[|b| - 1] == u[|b| - 1];
        assert u[|b| - 1] != b[|b| - 1];
      } else if |b| == |a| {
        assert u == a;
      } else {
        assert b[2..|b| - 1][|a| - 3] == b[|a| - 1];
        assert u[|a| - 1] == a[|a| - 1];
        assert u[|a| - 1] != b[|a| - 1];
      }
    }
  }

  /** A leading SGR sequence other than `p` is copied by `replaceAll(p, r)`. */
  lemma SgrPrefixUnchanged(code: string, rest: string, p: string, r: string)
    requires IsSgr(code) && IsSgr(p) && code != p
    ensures ReplaceAll(code + rest, p, r) == code + ReplaceAll(rest, p, r)
  {
    forall i | 0 <= i < |code|
      ensures !MatchAt(code + rest, p, i)
    {
      if i == 0 {
        SgrNotPrefix(code, p, rest);
      } else if i + |p| <= |code + rest| {
        if 2 <= i < |code| - 1 {
          assert code[2..|code| - 1][i - 2] == code[i];
        }
        assert (code + rest)[i..i + |p|][0] == code[i] != p[0];
      }
    }
    ReplaceAllAfterPrefix(code, rest, p, r);
  }

  /** Leading ESC-free text is copied by `replaceAll` of an escape sequence. */
  lemma EscFreePrefixUnchanged(a: string, rest: string, p: string, r: string)
    requires EscFree(a) && |p| > 0 && p[0] == AnsiCodes.Esc
    ensures ReplaceAll(a + rest, p, r) == a + ReplaceAll(rest, p, r)
  {
    forall i | 0 <= i < |a|
      ensures !MatchAt(a + rest, p, i)
    {
      if i + |p| <= |a + rest| {
        assert (a + rest)[i..i + |p|][0] == a[i] != p[0];
      }
    }
    ReplaceAllAfterPrefix(a, rest, p, r);
  }

  lemma EscFreeUnchanged(a: string, p: string, r: string)
    requires EscFree(a) && |p| > 0 && p[0] == AnsiCodes.Esc
    ensures ReplaceAll(a, p, r) == a
  {
    EscFreePrefixUnchanged(a, "", p, r);
    assert a + "" == a;
  }

  /** The decimal form of a number holds no escape. */
  lemma NumberEscFree(n: int)
    ensures EscFree(IntToString(n))
  {
    var s := IntToString(n);
    forall i | 0 <= i < |s|
      ensures s[i] != AnsiCodes.Esc
    {
      if n < 0 && i > 0 {
        assert s[i] == NatToString(-n)[i - 1];
      }
    }
  }

  /** No SGR sequence occurs in escape-free text. */
  lemma EscFreeNoCode(a: string, p: string)
    requires EscFree(a) && |p| > 0 && p[0] == AnsiCodes.Esc
    ensures !Contains(a, p)
  {
    forall i | 0 <= i <= |a|
      ensures !MatchAt(a, p, i)
    {
      if i + |p| <= |a| {
        assert a[i..i + |p|][0] == a[i] != p[0];
      }
    }
  }

  /** An SGR sequence holds no `$`, so no replacement pattern applies to it. */
  lemma SgrNoDollar(s: string)
    requires IsSgr(s)
    ensures '$' !in s
  {
    forall i | 0 <= i < |s|
      ensures s[i] != '$'
    {
      if 2 <= i < |s| - 1 {
        assert s[2..|s| - 1][i - 2] == s[i];
      }
    }
  }

  /** A number is wrapped as its decimal form. */
  lemma WrapNumber(open: string, close: string, n: int)
    requires IsSgr(close)
    ensures Wrap(true, open, Some(close), Number(n)) == open + IntToString(n) + close
  {
    NumberEscFree(n);
    EscFreeNoCode(IntToString(n), close);
  }

  /** Escape-free text is wrapped verbatim. */
  lemma WrapEscFree(open: string, close: string, y: string)
    requires IsSgr(close) && EscFree(y)
    ensures Wrap(true, open, Some(close), Text(y)) == open + y + close
  {
    EscFreeNoCode(y, close);
  }

  /** `replaceAll(p, r)` over escape-free text around one wrapped piece:
      only the piece's close code can match. */
  lemma ReplaceAllAroundPiece(x: string, io: string, y: string, ic: string, z: string, p: string, r: string)
    requires IsSgr(io) && IsSgr(ic) && IsSgr(p) && io != p
    requires EscFree(x) && EscFree(y) && EscFree(z)
    ensures ReplaceAll(x + (io + y + ic) + z, p, r) == x + io + y + (if ic == p then r else ic) + z
  {
    var w := if ic == p then r else ic;
    assert x + (io + y + ic) + z == x + (io + (y + (ic + z))) by {
      Assoc(x, io + y + ic, z);
      Assoc(io + y, ic, z);
      Assoc(io, y, ic + z);
      Assoc(y, ic, z);
    }
    assert ReplaceAll(ic + z, p, r) == w + z by {
      EscFreeUnchanged(z, p, r);
      if ic == p {
        ReplaceAllAtMatch(z, p, r);
      } else {
        SgrPrefixUnchanged(ic, z, p, r);
      }
    }
    assert ReplaceAll(y + (ic + z), p, r) == y + (w + z) by {
      EscFreePrefixUnchanged(y, ic + z, p, r);
    }
    assert ReplaceAll(io + (y + (ic + z)), p, r) == io + (y + (w + z)) by {
      SgrPrefixUnchanged(io, y + (ic + z), p, r);
    }
    assert ReplaceAll(x + (io + (y + (ic + z))), p, r) == x + (io + (y + (w + z))) by {
      EscFreePrefixUnchanged(x, io + (y + (ic + z)), p, r);
    }
    assert x + (io + (y + (w + z))) == x + io + y + w + z by {
      Assoc(y, w, z);
      Assoc(io, y + w, z);
      Assoc(io, y, w);
      Assoc(x, io + y + w, z);
      Assoc(x, io + y, w);
      Assoc(x, io, y);
    }
  }

  /** Wrapping escape-free text around one already wrapped piece. */
  lemma WrapAroundPiece(open: string, close: string, io: string, ic: string, x: string, y: string, z: string)
    requires IsSgr(open) && IsSgr(close) && IsSgr(io) && IsSgr(ic) && io != close
    requires EscFree(x) && EscFree(y) && EscFree(z)
    ensures Wrap(true, open, Some(close), Text(x + (io + y + ic) + z))
         == if ic == close
            then open + x + io + y + ic + open + z + close
            else open + x + io + y + ic + z + close
  {
    var t := x + (io + y + ic) + z;
    var reopen := close + open;
    var body := ReplaceAll(t, close, reopen);
    assert Wrap(true, open, Some(close), Text(t)) == open + body + close by {
      SgrNoDollar(open);
      SgrNoDollar(close);
      WrapReplacesEveryClose(open, Some(close), Text(t));
    }
    if ic == close {
      assert body == x + io + y + reopen + z by {
        ReplaceAllAroundPiece(x, io, y, ic, z, close, reopen);
      }
      assert body == x + io + y + ic + open + z by {
        Assoc(x + io + y, ic, open);
      }
      assert open + body == open + x + io + y + ic + open + z by {
        Assoc(open, x, io);
        Assoc(open, x + io, y);
        Assoc(open, x + io + y, ic);
        Assoc(open, x + io + y + ic, open);
        Assoc(open, x + io + y + ic + open, z);
      }
    } else {
      assert body == x + io + y + ic + z by {
        ReplaceAllAroundPiece(x, io, y, ic, z, close, reopen);
      }
      assert open + body == open + x + io + y + ic + z by {
        Assoc(open, x, io);
        Assoc(open, x + io, y);
        Assoc(open, x + io + y, ic);
        Assoc(open, x + io + y + ic, z);
      }
    }
  }

  /** One wrapper inside another, all codes SGR sequences and the texts
      free of escapes. The inner text is wrapped verbatim; in the outer text
      the inner close is followed by the outer open exactly when the two
      wrappers share their close code. */
  lemma WrapNested(outerOpen: string, outerClose: string, innerOpen: string, innerClose: string,
                   x: string, y: string, z: string)
    requires IsSgr(outerOpen) && IsSgr(outerClose) && IsSgr(innerOpen) && IsSgr(innerClose)
    requires innerOpen != outerClose
    requires EscFree(x) && EscFree(y) && EscFree(z)
    ensures Wrap(true, innerOpen, Some(innerClose), Text(y)) == innerOpen + y + innerClose
    ensures Wrap(true, outerOpen, Some(outerClose), Text(x + Wrap(true, innerOpen, Some(innerClose), Text(y)) + z))
         == if innerClose == outerClose
            then outerOpen + x + innerOpen + y + innerClose + outerOpen + z + outerClose
            else outerOpen + x + innerOpen + y + innerClose + z + outerClose
  {
    WrapEscFree(innerOpen, innerClose, y);
    WrapAroundPiece(outerOpen, outerClose, innerOpen, innerClose, x, y, z);
  }

  // ---------------------------------------------------------------------
  // Named wrappers
  // ---------------------------------------------------------------------

  datatype Style =
    | Black | Red | Green | Yellow | Blue | Magenta | Cyan | White | Gray
    | BrightRed | BrightGreen | BrightYellow | BrightBlue | BrightMagenta | BrightCyan | BrightWhite
    | BgBlack | BgRed | BgGreen | BgYellow | BgBlue | BgMagenta | BgCyan | BgWhite | BgGray
    | BgBrightRed | BgBrightGreen | BgBrightYellow | BgBrightBlue | BgBrightMagenta | BgBrightCyan | BgBrightWhite
    | Bold | Dim | Italic | Underline | Blink | Reverse | Strikethrough

  datatype Kind = Foreground | Background | TextStyle

  function KindOf(s: Style): Kind
  {
    match s
    case Black | Red | Green | Yellow | Blue | Magenta | Cyan | White | Gray
       | BrightRed | BrightGreen | BrightYellow | BrightBlue | BrightMagenta | BrightCyan | BrightWhite
      => Foreground
    case BgBlack | BgRed | BgGreen | BgYellow | BgBlue | BgMagenta | BgCyan | BgWhite | BgGray
       | BgBrightRed | BgBrightGreen | BgBrightYellow | BgBrightBlue | BgBrightMagenta | BgBrightCyan | BgBrightWhite
      => Background
    case Bold | Dim | Italic | Underline | Blink | Reverse | Strikethrough
      => TextStyle
  }

  function OpenCode(s: Style): string
  {
    match s
    case Black => AnsiCodes.Black
    case Red => AnsiCodes.Red
    case Green => AnsiCodes.Green
    case Yellow => AnsiCodes.Yellow
    case Blue => AnsiCodes.Blue
    case Magenta => AnsiCodes.Magenta
    case Cyan => AnsiCodes.Cyan
    case White => AnsiCodes.White
    case Gray => AnsiCodes.Gray
    case BrightRed => AnsiCodes.BrightRed
    case BrightGreen => AnsiCodes.BrightGreen
    case BrightYellow => AnsiCodes.BrightYellow
    case BrightBlue => AnsiCodes.BrightBlue
    case BrightMagenta => AnsiCodes.BrightMagenta
    case BrightCyan => AnsiCodes.BrightCyan
    case BrightWhite => AnsiCodes.BrightWhite
    case BgBlack => AnsiCodes.BgBlack
    case BgRed => AnsiCodes.BgRed
    case BgGreen => AnsiCodes.BgGreen
    case BgYellow => AnsiCodes.BgYellow
    case BgBlue => AnsiCodes.BgBlue
    case BgMagenta => AnsiCodes.BgMagenta
    case BgCyan => AnsiCodes.BgCyan
    case BgWhite => AnsiCodes.BgWhite
    case BgGray => AnsiCodes.BgGray
    case BgBrightRed => AnsiCodes.BgBrightRed
    case BgBrightGreen => AnsiCodes.BgBrightGreen
    case BgBrightYellow => AnsiCodes.BgBrightYellow
    case BgBrightBlue => AnsiCodes.BgBrightBlue
    case BgBrightMagenta => AnsiCodes.BgBrightMagenta
    case BgBrightCyan => AnsiCodes.BgBrightCyan
    case BgBrightWhite => AnsiCodes.BgBrightWhite
    case Bold => AnsiCodes.Bold
    case Dim => AnsiCodes.Dim
    case Italic => AnsiCodes.Italic
    case Underline => AnsiCodes.Underline
    case Blink => AnsiCodes.Blink
    case Reverse => AnsiCodes.Reverse
    case Strikethrough => AnsiCodes.Strikethrough
  }

  /** The close code passed to `createWrap`: the foreground close for every
      colour, the background close for every background, and each text
      style's own close. */
  function CloseCode(s: Style): string
  {
    match KindOf(s)
    case Foreground => AnsiCodes.FgClose
    case Background => AnsiCodes.BgClose
    case TextStyle =>
      match s
      case Bold => AnsiCodes.BoldClose
      case Dim => AnsiCodes.DimClose
      case Italic => AnsiCodes.ItalicClose
      case Underline => AnsiCodes.UnderlineClose
      case Blink => AnsiCodes.BlinkClose
      case Reverse => AnsiCodes.ReverseClose
      case _ => AnsiCodes.StrikethroughClose
  }

  /** `Ansi.<style>(v)`. */
  function Paint(s: Style, colorsAllowed: bool, v: Printable): string
  {
    Wrap(colorsAllowed, OpenCode(s), Some(CloseCode(s)), v)
  }

  /** Which SGR parameter cancels which, after section 8.3.117 of ECMA-48:
      0 resets everything, 22 ends bold and faint, 23 italic, 24 underline,
      25 blinking, 27 reverse video, 29 crossed-out, 39 the foreground
      colour and 49 the background colour (including the bright colours
      90-97 and 100-107 that terminals add to the standard's 30-37 and
      40-47). */
  predicate Cancels(close: nat, open: nat)
  {
    || close == 0
    || (close == 22 && (open == 1 || open == 2))
    || (close == 23 && open == 3)
    || (close == 24 && open == 4)
    || (close == 25 && open == 5)
    || (close == 27 && open == 7)
    || (close == 29 && open == 9)
    || (close == 39 && (30 <= open <= 37 || 90 <= open <= 97))
    || (close == 49 && (40 <= open <= 47 || 100 <= open <= 107))
  }

  /** An `Sgr` code is an SGR sequence whose parameter is the number it
      was built from. */
  lemma SgrShape(n: nat)
    ensures IsSgr(AnsiCodes.Sgr(n)) && SgrParam(AnsiCodes.Sgr(n)) == n
  {
    var d := NatToString(n);
    var s := AnsiCodes.Sgr(n);
    assert s[2..|s| - 1] == d;
    NatToStringRoundTrip(n);
  }

  /** Two `Sgr` codes are equal only when their parameters are. */
  lemma SgrInjective(m: nat, n: nat)
    requires m != n
    ensures AnsiCodes.Sgr(m) != AnsiCodes.Sgr(n)
  {
    SgrShape(m);
    SgrShape(n);
  }

  /** The parameter each named wrapper opens with. */
  function OpenParamOf(s: Style): nat
  {
    match s
    case Black => 30
    case Red => 31
    case Green => 32
    case Yellow => 33
    case Blue => 34
    case Magenta => 35
    case Cyan => 36
    case White => 37
    case Gray => 90
    case BrightRed => 91
    case BrightGreen => 92
    case BrightYellow => 93
    case BrightBlue => 94
    case BrightMagenta => 95
    case BrightCyan => 96
    case BrightWhite => 97
    case BgBlack => 40
    case BgRed => 41
    case BgGreen => 42
    case BgYellow => 43
    case BgBlue => 44
    case BgMagenta => 45
    case BgCyan => 46
    case BgWhite => 47
    case BgGray => 100
    case BgBrightRed => 101
    case BgBrightGreen => 102
    case BgBrightYellow => 103
    case BgBrightBlue => 104
    case BgBrightMagenta => 105
    case BgBrightCyan => 106
    case BgBrightWhite => 107
    case Bold => 1
    case Dim => 2
    case Italic => 3
    case Underline => 4
    case Blink => 5
    case Reverse => 7
    case Strikethrough => 9
  }

  /** The parameter each named wrapper closes with. */
  function CloseParamOf(s: Style): nat
  {
    match s
    case Bold | Dim => 22
    case Italic => 23
    case Underline => 24
    case Blink => 25
    case Reverse => 27
    case Strikethrough => 29
    case _ => if KindOf(s) == Foreground then 39 else 49
  }

  /** Each wrapper's two codes are the SGR sequences of its two parameters. */
  lemma StyleCodes(s: Style)
    ensures OpenCode(s) == AnsiCodes.Sgr(OpenParamOf(s))
    ensures CloseCode(s) == AnsiCodes.Sgr(CloseParamOf(s))
  {
    OpenCodes(s);
    CloseCodes(s);
  }

  lemma OpenCodes(s: Style)
    ensures OpenCode(s) == AnsiCodes.Sgr(OpenParamOf(s))
  {
  }

  lemma CloseCodes(s: Style)
    ensures CloseCode(s) == AnsiCodes.Sgr(CloseParamOf(s))
  {
  }

  /** Every named wrapper's codes are distinct SGR sequences. */
  lemma StyleCodesAreSgr(s: Style)
    ensures IsSgr(OpenCode(s)) && IsSgr(CloseCode(s))
    ensures OpenCode(s) != CloseCode(s)
  {
    StyleCodes(s);
    var o, c := OpenParamOf(s), CloseParamOf(s);
    SgrShape(o);
    SgrShape(c);
    OpenParam(s);
    CloseParam(s);
    SgrInjective(o, c);
  }

  /** The named wrappers' codes hold no `$`, so `replaceAll` inserts them
      literally: each close code in the text is followed by the open code. */
  lemma PaintReplacesEveryClose(s: Style, v: Printable)
    ensures '$' !in OpenCode(s) && '$' !in CloseCode(s)
    ensures Paint(s, true, v)
         == OpenCode(s) + ReplaceAll(Display(v), CloseCode(s), CloseCode(s) + OpenCode(s)) + CloseCode(s)
  {
    StyleCodesAreSgr(s);
    SgrNoDollar(OpenCode(s));
    SgrNoDollar(CloseCode(s));
    WrapReplacesEveryClose(OpenCode(s), Some(CloseCode(s)), v);
  }

  /** Every named wrapper pairs its open code with a close code that cancels
      exactly the attribute the open code sets, and never the full reset. */
  lemma StylePairing(s: Style)
    ensures IsSgr(OpenCode(s)) && IsSgr(CloseCode(s))
    ensures Cancels(SgrParam(CloseCode(s)), SgrParam(OpenCode(s)))
    ensures SgrParam(CloseCode(s)) != 0
  {
    StyleCodes(s);
    SgrShape(OpenParamOf(s));
    SgrShape(CloseParamOf(s));
    ParamsCancel(s);
  }

  lemma ParamsCancel(s: Style)
    ensures Cancels(CloseParamOf(s), OpenParamOf(s)) && CloseParamOf(s) != 0
  {
  }

  /** All colours share the default-foreground close (39) and all
      backgrounds the default-background close (49); no text style uses
      either. */
  lemma CloseByKind(s: Style)
    ensures IsSgr(CloseCode(s))
    ensures KindOf(s) == Foreground <==> SgrParam(CloseCode(s)) == 39
    ensures KindOf(s) == Background <==> SgrParam(CloseCode(s)) == 49
  {
    CloseCodes(s);
    SgrShape(CloseParamOf(s));
    CloseParamByKind(s);
  }

  lemma CloseParamByKind(s: Style)
    ensures KindOf(s) == Foreground <==> CloseParamOf(s) == 39
    ensures KindOf(s) == Background <==> CloseParamOf(s) == 49
  {
  }

  /** The parameters that end an attribute without resetting everything. */
  const CloseParams: set<nat> := {22, 23, 24, 25, 27, 29, 39, 49}

  /** No open code of a named wrapper is the close code of any other. */
  lemma OpenNeverCloses(s: Style, t: Style)
    ensures OpenCode(s) != CloseCode(t)
  {
    OpenCodes(s);
    CloseCodes(t);
    OpenParam(s);
    CloseParam(t);
    SgrInjective(OpenParamOf(s), CloseParamOf(t));
  }

  lemma OpenParam(s: Style)
    ensures OpenParamOf(s) !in CloseParams
  {
  }

  lemma CloseParam(s: Style)
    ensures CloseParamOf(s) in CloseParams
  {
  }

  /** Nesting two named wrappers around escape-free text: the outer colour
      is resumed after the inner close exactly when both close with the same
      code (two colours, two backgrounds, or bold and dim). */
  lemma PaintNested(outer: Style, inner: Style, x: string, y: string, z: string)
    requires EscFree(x) && EscFree(y) && EscFree(z)
    ensures Paint(inner, true, Text(y)) == OpenCode(inner) + y + CloseCode(inner)
    ensures Paint(outer, true, Text(x + Paint(inner, true, Text(y)) + z))
         == if CloseCode(inner) == CloseCode(outer)
            then OpenCode(outer) + x + OpenCode(inner) + y + CloseCode(inner) + OpenCode(outer) + z + CloseCode(outer)
            else OpenCode(outer) + x + OpenCode(inner) + y + CloseCode(inner) + z + CloseCode(outer)
  {
    StyleCodesAreSgr(outer);
    StyleCodesAreSgr(inner);
    OpenNeverCloses(inner, outer);
    WrapNested(OpenCode(outer), CloseCode(outer), OpenCode(inner), CloseCode(inner), x, y, z);
  }

  /** Red inside blue: after the red text the blue colour is re-opened.
      The wrappers' own example, `"Blue "`, `"Red"` and `" Blue"`, is one
      instance. */
  lemma RedInsideBlue(x: string, y: string, z: string)
    requires EscFree(x) && EscFree(y) && EscFree(z)
    ensures Paint(Blue, true, Text(x + Paint(Red, true, Text(y)) + z))
         == AnsiCodes.Blue + x + AnsiCodes.Red + y + AnsiCodes.FgClose + AnsiCodes.Blue + z + AnsiCodes.FgClose
  {
    assert CloseCode(Red) == CloseCode(Blue) == AnsiCodes.FgClose;
    assert OpenCode(Blue) == AnsiCodes.Blue && OpenCode(Red) == AnsiCodes.Red;
    PaintNested(Blue, Red, x, y, z);
  }

  /** The example's texts hold no escape. */
  lemma RedInsideBlueExample()
    ensures Paint(Blue, true, Text("Blue " + Paint(Red, true, Text("Red")) + " Blue"))
         == AnsiCodes.Blue + "Blue " + AnsiCodes.Red + "Red" + AnsiCodes.FgClose + AnsiCodes.Blue + " Blue" + AnsiCodes.FgClose
  {
    RedInsideBlue("Blue ", "Red", " Blue");
  }

  /** Bold inside green: the bold close does not re-open green. */
  lemma BoldInsideGreen(x: string, y: string, z: string)
    requires EscFree(x) && EscFree(y) && EscFree(z)
    ensures Paint(Green, true, Text(x + Paint(Bold, true, Text(y)) + z))
         == AnsiCodes.Green + x + AnsiCodes.Bold + y + AnsiCodes.BoldClose + z + AnsiCodes.FgClose
  {
    BoldDoesNotCloseGreen();
    assert OpenCode(Green) == AnsiCodes.Green && OpenCode(Bold) == AnsiCodes.Bold;
    assert CloseCode(Green) == AnsiCodes.FgClose && CloseCode(Bold) == AnsiCodes.BoldClose;
    PaintNested(Green, Bold, x, y, z);
  }

  lemma BoldDoesNotCloseGreen()
    ensures CloseCode(Bold) != CloseCode(Green)
  {
    CloseCodes(Green);
    CloseCodes(Bold);
    SgrInjective(22, 39);
  }
}
