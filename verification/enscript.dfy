/**
 * The escaping step of the highlighter in src/main.rs: each highlighted region of a line,
 * a style and a piece of text, becomes GNU Enscript escape directives (optional background,
 * font, foreground colour) around the text, followed by directives that reset font and
 * colour, with the region's line ending re-emitted as a bare newline.
 */
module Enscript {
  import opened Strings

  /** An 8-bit colour channel (`u8`). */
  type Byte = x: int | 0 <= x < 256

  /** A syntax-highlighting colour with its alpha channel, which the escaping ignores. */
  datatype Color = Color(r: Byte, g: Byte, b: Byte, a: Byte)

  /** The flags a font style may contain. */
  datatype FontFlag = Bold | Underline | Italic

  datatype Style = Style(foreground: Color, background: Color, fontStyle: set<FontFlag>)

  /** One highlighted region of a line: its style and its text. */
  datatype Region = Region(style: Style, text: string)

  // ---------------------------------------------------------------------------------------
  // Line endings

  /** Drops one trailing `\r\n`, or else one trailing `\n`. */
  function StripTrailingNewline(input: string): (r: string)
    ensures StartsWith(input, r)
    ensures |input| - 2 <= |r| <= |input|
  {
    if EndsWith(input, "\r\n") then input[..|input| - 2]
    else if EndsWith(input, "\n") then input[..|input| - 1]
    else input
  }

  /** What is removed is exactly a `\r\n`, a `\n`, or nothing, in that order of preference. */
  lemma StripTrailingNewlineRemoves(input: string)
    ensures EndsWith(input, "\r\n") ==> input == StripTrailingNewline(input) + "\r\n"
    ensures !EndsWith(input, "\r\n") && EndsWith(input, "\n") ==> input == StripTrailingNewline(input) + "\n"
    ensures !EndsWith(input, "\n") ==> StripTrailingNewline(input) == input
  {
    var r := StripTrailingNewline(input);
    if EndsWith(input, "\r\n") {
      assert input == input[..|input| - 2] + input[|input| - 2..];
    } else if EndsWith(input, "\n") {
      assert input == input[..|input| - 1] + input[|input| - 1..];
    }
  }

  /** `\r\n` is removed as a whole: `p + "\r\n"` becomes `p`, not `p + "\r"`. */
  lemma CrlfTakesPrecedence(p: string)
    ensures StripTrailingNewline(p + "\r\n") == p
  {
    assert EndsWith(p + "\r\n", "\r\n") by { EndsWithAppend(p, "\r\n"); }
    assert (p + "\r\n")[..|p|] == p;
  }

  /** A bare `\n` after anything but `\r` is removed. */
  lemma LoneNewlineRemoved(p: string)
    requires !EndsWith(p, "\r")
    ensures StripTrailingNewline(p + "\n") == p
  {
    var u := p + "\n";
    assert u[..|p|] == p;
    if |p| > 0 {
      assert u[|u| - 2..] != "\r\n" by { assert u[|u| - 2] == p[|p| - 1]; assert p[|p| - 1..] == [p[|p| - 1]]; }
    }
    assert EndsWith(u, "\n") by { EndsWithAppend(p, "\n"); }
  }

  /** A trailing `\r` on its own is not a line ending here and is kept. */
  lemma LoneCarriageReturnKept(input: string)
    requires EndsWith(input, "\r")
    ensures StripTrailingNewline(input) == input
  {
    assert input[|input| - 1] == '\r';
  }

  // ---------------------------------------------------------------------------------------
  // Decimal formatting of a colour byte (`{}` on a `u8`)

  function DigitChar(d: nat): (c: char)
    requires d < 10
    ensures '0' <= c <= '9'
  {
    (48 + d) as char
  }

  /** The decimal digits of `n`, without leading zeros. */
  function DecimalText(n: nat): (s: string)
    ensures 1 <= |s|
    ensures forall i :: 0 <= i < |s| ==> '0' <= s[i] <= '9'
    ensures n < 10 <==> |s| == 1
    ensures |s| > 1 ==> s[0] != '0'
    decreases n
  {
    if n < 10 then [DigitChar(n)] else DecimalText(n / 10) + [DigitChar(n % 10)]
  }

  predicate IsDigits(s: string)
  {
    forall i :: 0 <= i < |s| ==> '0' <= s[i] <= '9'
  }

  /** The number a string of decimal digits denotes. */
  function DecimalValue(s: string): nat
    requires IsDigits(s)
    decreases |s|
  {
    if s == [] then 0
    else 10 * DecimalValue(s[..|s| - 1]) + ((s[|s| - 1] as int) - 48)
  }

  /** Reading the digits back gives the number: the formatting loses nothing. */
  lemma {:induction false} DecimalRoundTrip(n: nat)
    ensures DecimalValue(DecimalText(n)) == n
    decreases n
  {
    if n >= 10 {
      var s := DecimalText(n);
      assert s[..|s| - 1] == DecimalText(n / 10);
      DecimalRoundTrip(n / 10);
    }
  }

  /** A byte takes one to three digits. */
  lemma {:induction false} ByteDecimalLength(b: Byte)
    ensures |DecimalText(b)| <= 3
  {
    if b >= 10 {
      if b / 10 >= 10 {
        assert b / 10 / 10 < 10;
        assert |DecimalText(b / 10 / 10)| == 1;
      }
      assert |DecimalText(b / 10)| <= 2;
    }
  }

  // ---------------------------------------------------------------------------------------
  // Directives

  const ObliqueFont: string := "\0font{Courier-Oblique@6}"
  const BoldFont: string := "\0font{Courier-Bold@6}"
  const ColorOpen: string := "\0color{"
  const ResetDirectives: string := "\0font{default}\0color{default}"

  /** `\bg{r;g;b;}` with the background channels in decimal. */
  function BackgroundDirective(c: Color): (r: string)
    ensures StartsWith(r, "\\bg{")
    ensures 11 <= |r| <= 17
  {
    ByteDecimalLength(c.r);
    ByteDecimalLength(c.g);
    ByteDecimalLength(c.b);
    var open := "\\bg{";
    var rest := DecimalText(c.r) + ";" + DecimalText(c.g) + ";" + DecimalText(c.b) + ";}";
    StartsWithAppend(open, rest);
    open + rest
  }

  /** Italic wins over bold; a style with neither selects no font. */
  function FontDirective(fontStyle: set<FontFlag>): (r: string)
    ensures r == "" <==> Italic !in fontStyle && Bold !in fontStyle
    ensures r != "" ==> r[0] == '\0'
  {
    if Italic in fontStyle then ObliqueFont
    else if Bold in fontStyle then BoldFont
    else ""
  }

  /**
   * The foreground colour directive; `channelText` stands for the formatting of a channel
   * as a fraction of 255, which is floating-point.
   */
  function ColorDirective(fg: Color, channelText: Byte -> string): (r: string)
    ensures StartsWith(r, ColorOpen)
    ensures EndsWith(r, "}")
  {
    var x0 := ColorOpen;
    var x1 := x0 + channelText(fg.r);
    var x2 := x1 + " ";
    var x3 := x2 + channelText(fg.g);
    var x4 := x3 + " ";
    var x5 := x4 + channelText(fg.b);
    StartsWithAppend(x0, channelText(fg.r));
    PrefixOfLonger(x0, x1, " ");
    PrefixOfLonger(x0, x2, channelText(fg.g));
    PrefixOfLonger(x0, x3, " ");
    PrefixOfLonger(x0, x4, channelText(fg.b));
    PrefixOfLonger(x0, x5, "}");
    EndsWithAppend(x5, "}");
    x5 + "}"
  }

  /** The directives in front of a region's text. */
  function Directives(style: Style, bg: bool, channelText: Byte -> string): (r: string)
    ensures EndsWith(r, "}")
    ensures !bg ==> r[0] == '\0'
  {
    var head := if bg then BackgroundDirective(style.background) else "";
    var font := FontDirective(style.fontStyle);
    var color := ColorDirective(style.foreground, channelText);
    SuffixUnderHead(head + font, color, "}");
    assert !bg ==> (head + font + color)[0] == (if font != "" then font[0] else color[..|ColorOpen|][0]);
    head + font + color
  }

  /**
   * A region's text as it appears in its chunk: without its line ending, followed by the
   * resets, and followed by a bare newline if the text ended with one.
   */
  function TextPart(text: string): (r: string)
    ensures StartsWith(r, StripTrailingNewline(text))
    ensures EndsWith(r, "\n") <==> EndsWith(text, "\n")
  {
    var stripped := StripTrailingNewline(text);
    var nl := if EndsWith(text, "\n") then "\n" else "";
    StartsWithAppend(stripped, ResetDirectives);
    PrefixOfLonger(stripped, stripped + ResetDirectives, nl);
    if nl == "" then
      AppendEmpty(stripped + ResetDirectives);
      assert (stripped + ResetDirectives)[|stripped + ResetDirectives| - 1] == '}';
      stripped + ResetDirectives + nl
    else
      EndsWithAppend(stripped + ResetDirectives, nl);
      stripped + ResetDirectives + nl
  }

  /** The escaped form of one region; it ends with a newline exactly when the region's text does. */
  function Chunk(region: Region, bg: bool, channelText: Byte -> string): (r: string)
    ensures EndsWith(r, "\n") <==> EndsWith(region.text, "\n")
  {
    var d := Directives(region.style, bg, channelText);
    var t := TextPart(region.text);
    if EndsWith(region.text, "\n") then
      SuffixUnderHead(d, t, "\n");
      d + t
    else
      assert (d + t)[|d + t| - 1] == t[|t| - 1];
      d + t
  }

  /**
   * The chunks of the regions, in order: empty exactly when there are no regions, and
   * ending with a newline exactly when the last region's text does.
   */
  function Escaped(v: seq<Region>, bg: bool, channelText: Byte -> string): (r: string)
    ensures r == "" <==> v == []
    ensures v != [] ==> (EndsWith(r, "\n") <==> EndsWith(v[|v| - 1].text, "\n"))
    decreases |v|
  {
    if v == [] then ""
    else
      var c := Chunk(v[|v| - 1], bg, channelText);
      var prev := Escaped(v[..|v| - 1], bg, channelText);
      assert |c| > 0 by {
        assert |Directives(v[|v| - 1].style, bg, channelText)| > 0;
      }
      if EndsWith(c, "\n") then
        SuffixUnderHead(prev, c, "\n");
        prev + c
      else
        assert (prev + c)[|prev + c| - 1] == c[|c| - 1];
        prev + c
  }

  /** Appends the chunk of every region to an initially empty string. */
  method AsEnscriptEscaped(v: seq<Region>, bg: bool, channelText: Byte -> string) returns (s: string)
    ensures s == Escaped(v, bg, channelText)
  {
    s := "";
    for i := 0 to |v|
      invariant s == Escaped(v[..i], bg, channelText)
    {
      var style := v[i].style;
      var text := v[i].text;
      ghost var before := s;
      var hasNewline := EndsWith(text, "\n");
      var textNoNewline := StripTrailingNewline(text);
      ghost var head, font;
      if bg {
        s, head := s + BackgroundDirective(style.background), BackgroundDirective(style.background);
      } else {
        head := "";
        AppendEmpty(before);
      }
      if Italic in style.fontStyle {
        s, font := s + ObliqueFont, ObliqueFont;
      } else if Bold in style.fontStyle {
        s, font := s + BoldFont, BoldFont;
      } else {
        font := "";
        AppendEmpty(before + head);
      }
      assert s == (before + head) + font;
      var colorDirective := ColorDirective(style.foreground, channelText);
      s := s + colorDirective + textNoNewline + ResetDirectives;
      ghost var newline := "";
      if hasNewline {
        s, newline := s + "\n", "\n";
      } else {
        AppendEmpty(s);
      }
      assert s == (((before + head) + font) + colorDirective + textNoNewline + ResetDirectives) + newline;
      ghost var directives := (head + font) + colorDirective;
      assert directives == Directives(style, bg, channelText);
      ghost var tail := (textNoNewline + ResetDirectives) + newline;
      assert tail == TextPart(text);
      Append(before, head, font);
      Append(before, head + font, colorDirective);
      Append(before + directives, textNoNewline, ResetDirectives);
      Append(before + directives, textNoNewline + ResetDirectives, newline);
      Append(before, directives, tail);
      assert s == before + Chunk(v[i], bg, channelText);
      EscapedStep(v, i, bg, channelText);
    }
    assert v[..|v|] == v;
  }

  /** One more region appends its chunk. */
  lemma EscapedStep(v: seq<Region>, i: nat, bg: bool, channelText: Byte -> string)
    requires i < |v|
    ensures Escaped(v[..i + 1], bg, channelText) == Escaped(v[..i], bg, channelText) + Chunk(v[i], bg, channelText)
  {
    assert v[..i + 1][..i] == v[..i];
  }

  // ---------------------------------------------------------------------------------------
  // Properties of the escaped output

  /** The output of a concatenation of regions is the concatenation of their outputs. */
  lemma {:induction false} EscapedAppend(a: seq<Region>, b: seq<Region>, bg: bool, channelText: Byte -> string)
    ensures Escaped(a + b, bg, channelText) == Escaped(a, bg, channelText) + Escaped(b, bg, channelText)
    decreases |b|
  {
    if b == [] {
      assert a + b == a;
      AppendEmpty(Escaped(a, bg, channelText));
    } else {
      var b' := b[..|b| - 1];
      var last := Chunk(b[|b| - 1], bg, channelText);
      assert (a + b)[..|a + b| - 1] == a + b';
      assert (a + b)[|a + b| - 1] == b[|b| - 1];
      assert Escaped(a + b, bg, channelText) == Escaped(a + b', bg, channelText) + last;
      EscapedAppend(a, b', bg, channelText);
      Append(Escaped(a, bg, channelText), Escaped(b', bg, channelText), last);
    }
  }

  /** Region `i` contributes exactly its own chunk, between those of the regions before and after it. */
  lemma EscapedAt(v: seq<Region>, i: nat, bg: bool, channelText: Byte -> string)
    requires i < |v|
    ensures Escaped(v, bg, channelText)
            == Escaped(v[..i], bg, channelText) + Chunk(v[i], bg, channelText) + Escaped(v[i + 1..], bg, channelText)
  {
    assert v == v[..i] + [v[i]] + v[i + 1..];
    EscapedAppend(v[..i] + [v[i]], v[i + 1..], bg, channelText);
    EscapedAppend(v[..i], [v[i]], bg, channelText);
    assert Escaped([v[i]], bg, channelText) == Chunk(v[i], bg, channelText) by {
      assert [v[i]][..0] == [];
    }
  }

  /** A region whose text ends with `\r\n` contributes its text without it, the resets, and `\n`. */
  lemma ChunkOfCrlfText(region: Region, p: string, bg: bool, channelText: Byte -> string)
    requires region.text == p + "\r\n"
    ensures EndsWith(Chunk(region, bg, channelText), p + ResetDirectives + "\n")
  {
    CrlfTakesPrecedence(p);
    EndsWithAppend(p, "\r\n");
    CrlfEndsWithNewline(region.text);
    EndsWithAppend(Directives(region.style, bg, channelText), p + ResetDirectives + "\n");
  }

  /** A region whose text ends with a bare `\n` contributes its text without it, the resets, and `\n`. */
  lemma ChunkOfLfText(region: Region, p: string, bg: bool, channelText: Byte -> string)
    requires region.text == p + "\n" && !EndsWith(p, "\r")
    ensures EndsWith(Chunk(region, bg, channelText), p + ResetDirectives + "\n")
  {
    LoneNewlineRemoved(p);
    EndsWithAppend(p, "\n");
    EndsWithAppend(Directives(region.style, bg, channelText), p + ResetDirectives + "\n");
  }

  /** A region whose text has no trailing newline contributes its whole text followed by the resets. */
  lemma ChunkOfUnterminatedText(region: Region, bg: bool, channelText: Byte -> string)
    requires !EndsWith(region.text, "\n")
    ensures EndsWith(Chunk(region, bg, channelText), region.text + ResetDirectives)
  {
    StripTrailingNewlineRemoves(region.text);
    AppendEmpty(region.text + ResetDirectives);
    EndsWithAppend(Directives(region.style, bg, channelText), region.text + ResetDirectives);
  }

  lemma CrlfEndsWithNewline(s: string)
    requires EndsWith(s, "\r\n")
    ensures EndsWith(s, "\n")
  {
    assert s[|s| - 1..] == s[|s| - 2..][1..];
  }

  /**
   * After the optional background directive comes the oblique font for an italic style,
   * the bold font for a bold style that is not italic, and otherwise directly the colour.
   */
  lemma ChunkFont(region: Region, bg: bool, channelText: Byte -> string)
    ensures var fs := region.style.fontStyle;
            var head := if bg then BackgroundDirective(region.style.background) else "";
            var c := Chunk(region, bg, channelText);
            (Italic in fs ==> StartsWith(c, head + ObliqueFont))
            && (Bold in fs && Italic !in fs ==> StartsWith(c, head + BoldFont))
            && (Bold !in fs && Italic !in fs ==> StartsWith(c, head + ColorOpen))
  {
    var style := region.style;
    var head := if bg then BackgroundDirective(style.background) else "";
    var font := FontDirective(style.fontStyle);
    var color := ColorDirective(style.foreground, channelText);
    var d := Directives(style, bg, channelText);
    var tail := TextPart(region.text);
    assert d == (head + font) + color;
    if font != "" {
      StartsWithAppend(head + font, color);
      PrefixOfLonger(head + font, d, tail);
    } else {
      AppendEmpty(head);
      PrefixUnderHead(head, ColorOpen, color);
      PrefixOfLonger(head + ColorOpen, d, tail);
    }
  }

  /**
   * With `bg` set a chunk opens with the background directive; without it, the chunk opens
   * with a NUL-introduced font or colour directive, so no `\bg` directive is emitted.
   */
  lemma ChunkBackground(region: Region, bg: bool, channelText: Byte -> string)
    ensures bg ==> StartsWith(Chunk(region, bg, channelText),
                              "\\bg{" + (DecimalText(region.style.background.r) + ";"
                                         + DecimalText(region.style.background.g) + ";"
                                         + DecimalText(region.style.background.b) + ";}"))
    ensures !bg ==> Chunk(region, bg, channelText)[0] == '\0'
  {
    var style := region.style;
    var d := Directives(style, bg, channelText);
    var t := TextPart(region.text);
    if bg {
      var head := BackgroundDirective(style.background);
      var font := FontDirective(style.fontStyle);
      StartsWithAppend(head, font);
      PrefixOfLonger(head, head + font, ColorDirective(style.foreground, channelText));
      PrefixOfLonger(head, d, t);
    } else {
      assert (d + t)[0] == d[0];
    }
  }


  // ---------------------------------------------------------------------------------------
  // Backslashes: without a background directive, every backslash comes from a region's text

  /** The backslashes in the regions' texts, line endings stripped. */
  function TextBackslashes(v: seq<Region>): nat
    decreases |v|
  {
    if v == [] then 0
    else TextBackslashes(v[..|v| - 1]) + Occurrences(StripTrailingNewline(v[|v| - 1].text), '\\')
  }

  /** Without a background directive, no directive in front of a text holds a backslash. */
  lemma DirectivesWithoutBackslash(style: Style, channelText: Byte -> string)
    requires forall b: Byte :: '\\' !in channelText(b)
    ensures '\\' !in Directives(style, false, channelText)
  {
    var font := FontDirective(style.fontStyle);
    assert '\\' !in ObliqueFont && '\\' !in BoldFont;
    var fg := style.foreground;
    assert '\\' !in channelText(fg.r) && '\\' !in channelText(fg.g) && '\\' !in channelText(fg.b);
    assert '\\' !in ColorOpen;
    EmptyAppend(font);
  }

  /** The text part holds the backslashes of the stripped text and no others. */
  lemma TextPartBackslashes(text: string)
    ensures Occurrences(TextPart(text), '\\') == Occurrences(StripTrailingNewline(text), '\\')
  {
    var nl := if EndsWith(text, "\n") then "\n" else "";
    assert '\\' !in ResetDirectives;
    assert '\\' !in nl;
    AbsentNotCounted(ResetDirectives, '\\');
    AbsentNotCounted(nl, '\\');
    OccurrencesAppend(StripTrailingNewline(text), ResetDirectives, '\\');
    OccurrencesAppend(StripTrailingNewline(text) + ResetDirectives, nl, '\\');
  }

  /**
   * Without a background directive, and with channel texts free of backslashes (they are
   * decimal fractions), the output holds exactly the backslashes of the texts.
   */
  lemma {:induction false} NoBackslashDirectives(v: seq<Region>, channelText: Byte -> string)
    requires forall b: Byte :: '\\' !in channelText(b)
    ensures Occurrences(Escaped(v, false, channelText), '\\') == TextBackslashes(v)
    decreases |v|
  {
    if v != [] {
      var region := v[|v| - 1];
      var d := Directives(region.style, false, channelText);
      var t := TextPart(region.text);
      NoBackslashDirectives(v[..|v| - 1], channelText);
      DirectivesWithoutBackslash(region.style, channelText);
      AbsentNotCounted(d, '\\');
      TextPartBackslashes(region.text);
      OccurrencesAppend(d, t, '\\');
      OccurrencesAppend(Escaped(v[..|v| - 1], false, channelText), d + t, '\\');
    }
  }
}
