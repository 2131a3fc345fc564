/**
 * The attribute-level rules `src/docx.rs` applies while reading run and
 * paragraph properties: hexadecimal colours, paragraph justification keywords,
 * theme-font resolution, and the on/off toggle of `w:b` and `w:i`.
 * XML nodes are replaced by the attribute values they carry.
 */
module Styles {
  import opened Base
  import opened Text
  import opened DocModel

  // ---------------------------------------------------------------------------
  // Colours
  // ---------------------------------------------------------------------------

  /**
   * `parse_hex_color`: "auto" and any value that is not six characters long
   * mean "no colour"; otherwise each pair of characters is read with
   * `u8::from_str_radix(_, 16)`, and any pair that fails makes the whole value
   * fail. Only ASCII input is modelled (see the README).
   */
  function ParseHexColor(val: string): (r: Option<Rgb>)
    requires IsAscii(val)
    ensures val == "auto" || |val| != 6 ==> r.None?
    ensures |val| == 6 && (forall i :: 0 <= i < 6 ==> IsAsciiHexDigit(val[i]))
            ==> r == Some(Rgb(HexPair(val[0], val[1]), HexPair(val[2], val[3]), HexPair(val[4], val[5])))
    ensures r.Some? ==> (&& IsAsciiHexDigit(val[1]) && IsAsciiHexDigit(val[3]) && IsAsciiHexDigit(val[5])
                         && (IsAsciiHexDigit(val[0]) || val[0] == '+')
                         && (IsAsciiHexDigit(val[2]) || val[2] == '+')
                         && (IsAsciiHexDigit(val[4]) || val[4] == '+'))
  {
    if val == "auto" || |val| != 6 then None
    else
      HexPairParse(val[0..2]);
      HexPairParse(val[2..4]);
      HexPairParse(val[4..6]);
      match (ParseByte(val[0..2], 16), ParseByte(val[2..4], 16), ParseByte(val[4..6], 16))
      case (Some(r), Some(g), Some(b)) => Some(Rgb(r, g, b))
      case _ => None
  }

  /**
   * What `u8::from_str_radix(_, 16)` accepts in two characters: a hexadecimal
   * digit after either a digit or a '+'; on two digits it yields the byte they spell.
   */
  lemma HexPairParse(pair: string)
    requires |pair| == 2
    ensures ParseByte(pair, 16).Some? ==>
              IsAsciiHexDigit(pair[1]) && (IsAsciiHexDigit(pair[0]) || pair[0] == '+')
    ensures IsAsciiHexDigit(pair[0]) && IsAsciiHexDigit(pair[1]) ==>
              ParseByte(pair, 16) == Some(HexPair(pair[0], pair[1]))
  {
    assert pair == [pair[0], pair[1]];
    if ParseByte(pair, 16).Some? {
      var digits := if pair[0] == '+' then pair[1..] else pair;
      DigitsValueOnlyDigits(digits, 16);
      if pair[0] == '+' {
        assert digits[0] == pair[1];
      } else {
        assert digits[0] == pair[0] && digits[1] == pair[1];
      }
    }
    if IsAsciiHexDigit(pair[0]) && IsAsciiHexDigit(pair[1]) {
      ParseHexPair(pair[0], pair[1]);
    }
  }

  /** The six upper-case hexadecimal digits a word processor writes for a colour. */
  function FormatHexColor(c: Rgb): (s: string)
    ensures |s| == 6 && IsAscii(s)
  {
    [HexChar(c.r as int / 16), HexChar(c.r as int % 16),
     HexChar(c.g as int / 16), HexChar(c.g as int % 16),
     HexChar(c.b as int / 16), HexChar(c.b as int % 16)]
  }

  /** Every colour survives formatting and parsing. */
  lemma HexColorRoundTrip(c: Rgb)
    ensures ParseHexColor(FormatHexColor(c)) == Some(c)
  {
    var s := FormatHexColor(c);
    assert s[0..2] == [HexChar(c.r as int / 16), HexChar(c.r as int % 16)];
    assert s[2..4] == [HexChar(c.g as int / 16), HexChar(c.g as int % 16)];
    assert s[4..6] == [HexChar(c.b as int / 16), HexChar(c.b as int % 16)];
    ParseByteOfHex(c.r);
    ParseByteOfHex(c.g);
    ParseByteOfHex(c.b);
  }

  /** `from_str_radix` tolerates a '+' sign, so "+f+f+f" is accepted as a colour. */
  lemma SignedPairsAccepted()
    ensures ParseHexColor("+f+f+f") == Some(Rgb(15, 15, 15))
  {
    var s := "+f+f+f";
    assert s[0..2] == s[2..4] == s[4..6] == "+f";
    assert "+f"[1..] == "f" && "f"[..0] == [];
    assert ParseByte("+f", 16) == Some(15);
  }

  // ---------------------------------------------------------------------------
  // Justification
  // ---------------------------------------------------------------------------

  /** `parse_alignment`: the `w:jc` keywords; anything unrecognised is left-aligned. */
  function ParseAlignment(val: string): (a: Alignment)
    ensures a == Center <==> val == "center"
    ensures a == Right <==> val == "right" || val == "end"
    ensures a == Justify <==> val == "both"
    ensures a == Left <==> val !in {"center", "right", "end", "both"}
  {
    match val
    case "center" => Center
    case "right" => Right
    case "end" => Right
    case "both" => Justify
    case _ => Left
  }

  /** The keyword a document uses for each alignment. */
  function AlignmentKeyword(a: Alignment): string {
    match a
    case Left => "left"
    case Center => "center"
    case Right => "right"
    case Justify => "both"
  }

  /** Parsing the keyword of an alignment gives that alignment back. */
  lemma AlignmentRoundTrip(a: Alignment)
    ensures ParseAlignment(AlignmentKeyword(a)) == a
  {
  }

  // ---------------------------------------------------------------------------
  // Fonts
  // ---------------------------------------------------------------------------

  /** The major (headings) and minor (body) Latin typefaces of the document theme. */
  datatype ThemeFonts = ThemeFonts(major: string, minor: string)

  /**
   * `resolve_font`, from the `w:ascii` and `w:asciiTheme` attributes of
   * `w:rFonts`: an explicit name wins, then the two theme slots, then the
   * inherited default.
   */
  function ResolveFont(ascii: Option<string>, asciiTheme: Option<string>, theme: ThemeFonts,
                       defaultFont: string): (r: string)
    ensures ascii.Some? ==> r == ascii.value
    ensures ascii.None? && asciiTheme == Some("majorHAnsi") ==> r == theme.major
    ensures ascii.None? && asciiTheme == Some("minorHAnsi") ==> r == theme.minor
    ensures ascii.None? && asciiTheme != Some("majorHAnsi") && asciiTheme != Some("minorHAnsi")
            ==> r == defaultFont
  {
    match ascii
    case Some(f) => f
    case None =>
      match asciiTheme
      case Some("majorHAnsi") => theme.major
      case Some("minorHAnsi") => theme.minor
      case _ => defaultFont
  }

  /**
   * The resolved name is always one of the three candidates, and with an
   * explicit name neither the theme nor the default is consulted.
   */
  lemma ResolveFontCandidates(ascii: Option<string>, asciiTheme: Option<string>, theme: ThemeFonts,
                              defaultFont: string, otherTheme: ThemeFonts, otherDefault: string)
    ensures var r := ResolveFont(ascii, asciiTheme, theme, defaultFont);
            (ascii.Some? && r == ascii.value) || r == theme.major || r == theme.minor || r == defaultFont
    ensures ascii.Some? ==> ResolveFont(ascii, asciiTheme, theme, defaultFont)
                            == ResolveFont(ascii, None, otherTheme, otherDefault)
  {
  }

  // ---------------------------------------------------------------------------
  // Bold and italic toggles
  // ---------------------------------------------------------------------------

  /**
   * A `w:b` or `w:i` child of a run's properties: None when the element is
   * absent, Some(None) when it has no `w:val`, Some(Some(v)) otherwise.
   */
  type ToggleElement = Option<Option<string>>

  /**
   * The toggle rule as the source writes it (`src/docx.rs`, run properties):
   * an absent element inherits the paragraph style's value, a bare element
   * turns the property on, and only the values "0" and "false" turn it off.
   */
  function ToggleAsWritten(elem: ToggleElement, styleValue: bool): (on: bool)
    ensures !on <==> (elem.None? && !styleValue)
                     || (elem.Some? && elem.value.Some? && elem.value.value in {"0", "false"})
  {
    match elem
    case None => styleValue
    case Some(None) => true
    case Some(Some(v)) => v != "0" && v != "false"
  }

  /** As written, the ST_OnOff value "off" switches bold or italic on. */
  lemma OffReadAsOn(styleValue: bool)
    ensures ToggleAsWritten(Some(Some("off")), styleValue)
  {
  }

  /** The ST_OnOff values of ECMA-376 Part 1 that mean "off". */
  predicate IsOffValue(v: string) {
    v == "0" || v == "false" || v == "off"
  }

  /** The toggle rule with every ST_OnOff "off" spelling honoured. */
  function Toggle(elem: ToggleElement, styleValue: bool): (on: bool)
    ensures !on <==> (elem.None? && !styleValue) || (elem.Some? && elem.value.Some? && IsOffValue(elem.value.value))
  {
    match elem
    case None => styleValue
    case Some(None) => true
    case Some(Some(v)) => !IsOffValue(v)
  }

  /**
   * The corrected rule reads all six ST_OnOff spellings by their meaning and
   * differs from the written one only on "off".
   */
  lemma ToggleCorrected(elem: ToggleElement, styleValue: bool)
    ensures forall v :: v in {"1", "true", "on"} ==> Toggle(Some(Some(v)), styleValue)
    ensures forall v :: v in {"0", "false", "off"} ==> !Toggle(Some(Some(v)), styleValue)
    ensures elem != Some(Some("off")) ==> Toggle(elem, styleValue) == ToggleAsWritten(elem, styleValue)
  {
  }
}
