/**
 * Font selection of `src/fonts.rs`: the built-in Helvetica width table, the
 * font-key helpers used to name PDF font resources, the host-font lookup with
 * its regular-face fallback, and the embedded → host → Helvetica order in which
 * a font entry gets its metrics.
 *
 * The host font index (built by scanning font directories) and the file system
 * are inputs here, and parsing a font face (`embed_truetype`) is an opaque
 * function parameter.
 */
module Fonts {
  import opened Base
  import opened Text
  import opened DocModel

  // ---------------------------------------------------------------------------
  // Width tables
  // ---------------------------------------------------------------------------

  /** A width table covers the WinAnsi codes 32..255, in 1000-unit em. */
  const FirstChar: nat := 32
  const TableSize: nat := 224

  type WidthTable = w: seq<real> | |w| == 224 witness seq(224, _ => 0.0)

  /** Width of the character with WinAnsi code `code` in a table. */
  function WidthOf(w: WidthTable, code: int): real
    requires FirstChar <= code < 256
  {
    w[code - FirstChar]
  }

  /**
   * One arm-by-arm match of `helvetica_widths`. The arms are tried in order, so
   * the narrow and wide letters listed before a letter range take precedence
   * over that range's average.
   */
  function HelveticaWidth(code: int): (w: real)
    ensures w in {278.0, 333.0, 556.0, 667.0, 833.0}
    ensures w == 278.0 <==> code in {32, 73, 74, 102, 105, 106, 108, 116}
    ensures w == 833.0 <==> code in {77, 109, 119}
  {
    if code == 32 then 278.0
    else if 33 <= code <= 47 then 333.0
    else if 48 <= code <= 57 then 556.0
    else if 58 <= code <= 64 then 333.0
    else if code == 73 || code == 74 then 278.0
    else if code == 77 then 833.0
    else if 65 <= code <= 90 then 667.0
    else if 91 <= code <= 96 then 333.0
    else if code == 102 || code == 105 || code == 106 || code == 108 || code == 116 then 278.0
    else if code == 109 || code == 119 then 833.0
    else if 97 <= code <= 122 then 556.0
    else 556.0
  }

  /**
   * `helvetica_widths`: the fallback table, entry `b - 32` for code `b`. Every
   * width is one of Helvetica's five classes; only space and the narrow letters
   * I J f i j l t are 278, and only M m w are 833.
   */
  function HelveticaWidths(): (t: WidthTable)
    ensures forall i :: 0 <= i < |t| ==> t[i] in {278.0, 333.0, 556.0, 667.0, 833.0}
    ensures forall code :: FirstChar <= code < 256 ==>
              (WidthOf(t, code) == 278.0 <==> code in {32, 73, 74, 102, 105, 106, 108, 116})
    ensures forall code :: FirstChar <= code < 256 ==>
              (WidthOf(t, code) == 833.0 <==> code in {77, 109, 119})
  {
    var t: WidthTable := seq(TableSize, i requires 0 <= i < TableSize => HelveticaWidth(i + FirstChar));
    assert forall code :: FirstChar <= code < 256 ==> WidthOf(t, code) == HelveticaWidth(code);
    t
  }

  /** Helvetica width of a character in 32..255. */
  function HelveticaCharWidth(c: char): real
    requires FirstChar <= c as int < 256
  {
    WidthOf(HelveticaWidths(), c as int)
  }

  /** Entry `code - 32` of the fallback table is the match arm for `code`. */
  lemma HelveticaEntry(code: int)
    requires FirstChar <= code < 256
    ensures WidthOf(HelveticaWidths(), code) == HelveticaWidth(code)
  {
  }

  /** Space, digits and the three punctuation blocks. */
  lemma HelveticaPunctuationAndDigits()
    ensures |HelveticaWidths()| == 224
    ensures HelveticaCharWidth(' ') == 278.0
    ensures forall c :: '0' <= c <= '9' ==> HelveticaCharWidth(c) == 556.0
    ensures forall c :: ('!' <= c <= '/' || ':' <= c <= '@' || '[' <= c <= '`') ==> HelveticaCharWidth(c) == 333.0
  {
    forall c | FirstChar <= c as int < 256 ensures HelveticaCharWidth(c) == HelveticaWidth(c as int) {
      HelveticaEntry(c as int);
    }
  }

  /**
   * Upper case averages 667, but the earlier arms make I and J narrow (278)
   * and M wide (833).
   */
  lemma HelveticaUpperCase()
    ensures HelveticaCharWidth('I') == 278.0 && HelveticaCharWidth('J') == 278.0
    ensures HelveticaCharWidth('M') == 833.0
    ensures forall c :: 'A' <= c <= 'Z' && c != 'I' && c != 'J' && c != 'M' ==> HelveticaCharWidth(c) == 667.0
  {
    forall c | FirstChar <= c as int < 256 ensures HelveticaCharWidth(c) == HelveticaWidth(c as int) {
      HelveticaEntry(c as int);
    }
  }

  /**
   * Lower case averages 556, but the earlier arms make f, i, j, l, t narrow
   * (278) and m, w wide (833).
   */
  lemma HelveticaLowerCase()
    ensures forall c :: c in "fijlt" ==> HelveticaCharWidth(c) == 278.0
    ensures HelveticaCharWidth('m') == 833.0 && HelveticaCharWidth('w') == 833.0
    ensures forall c :: 'a' <= c <= 'z' && c !in "fijltmw" ==> HelveticaCharWidth(c) == 556.0
  {
    forall c | FirstChar <= c as int < 256 ensures HelveticaCharWidth(c) == HelveticaWidth(c as int) {
      HelveticaEntry(c as int);
    }
  }

  /** Every code after 'z' (braces, tilde, DEL and the whole upper half) is 556. */
  lemma HelveticaUpperHalf()
    ensures forall code :: 123 <= code < 256 ==> WidthOf(HelveticaWidths(), code) == 556.0
  {
    forall code | 123 <= code < 256 ensures WidthOf(HelveticaWidths(), code) == 556.0 {
      HelveticaEntry(code);
    }
  }

  // ---------------------------------------------------------------------------
  // Font keys
  // ---------------------------------------------------------------------------

  /**
   * `primary_font_name`: the first entry of a ';'-separated font list, trimmed.
   * The result holds no ';' and no white space at either end; a name that is
   * not a list is only trimmed.
   */
  function PrimaryFontName(name: string): (r: string)
    ensures ';' !in r
    ensures |r| == 0 || (!IsWhitespace(r[0]) && !IsWhitespace(r[|r| - 1]))
    ensures ';' !in name ==> r == Trim(name)
  {
    var first := FirstField(name, ';');
    FirstFieldWithoutSeparator(name, ';');
    TrimKeeps(first, ';');
    TrimEnds(first);
    Trim(first)
  }

  /** A primary name is its own primary name. */
  lemma PrimaryFontNameIdempotent(name: string)
    ensures PrimaryFontName(PrimaryFontName(name)) == PrimaryFontName(name)
  {
    var p := PrimaryFontName(name);
    FirstFieldWithoutSeparator(p, ';');
    TrimIdentity(p);
  }

  /**
   * Everything from the first ';' on is ignored: a family name followed by
   * nothing, or by ';' and anything, gives that name trimmed.
   */
  lemma PrimaryFontNameOfList(first: string, rest: string)
    requires ';' !in first
    requires |rest| == 0 || rest[0] == ';'
    ensures PrimaryFontName(first + rest) == Trim(first)
  {
    FirstFieldOfJoin(first, ';', rest);
  }

  /** The style part of a font key. */
  function StyleSuffix(bold: bool, italic: bool): string {
    match (bold, italic)
    case (true, true) => "/BI"
    case (true, false) => "/B"
    case (false, true) => "/I"
    case (false, false) => ""
  }

  /** `font_key`: the run's primary font name followed by its style suffix. */
  function FontKey(run: Run): (r: string)
    ensures var p := PrimaryFontName(run.fontName);
            |r| >= |p| && r[..|p|] == p && r[|p|..] == StyleSuffix(run.bold, run.italic)
  {
    PrimaryFontName(run.fontName) + StyleSuffix(run.bold, run.italic)
  }

  /**
   * The four styles of one family get four different keys, and when family
   * names hold no '/', different (family, bold, italic) triples never share a key.
   */
  lemma FontKeyInjective(a: Run, b: Run)
    requires '/' !in PrimaryFontName(a.fontName) && '/' !in PrimaryFontName(b.fontName)
    requires FontKey(a) == FontKey(b)
    ensures PrimaryFontName(a.fontName) == PrimaryFontName(b.fontName)
    ensures a.bold == b.bold && a.italic == b.italic
  {
    var pa, pb := PrimaryFontName(a.fontName), PrimaryFontName(b.fontName);
    var sa, sb := StyleSuffix(a.bold, a.italic), StyleSuffix(b.bold, b.italic);
    var k := FontKey(a);
    assert k == pa + sa && k == pb + sb;
    FirstFieldOfJoin(pa, '/', sa);
    FirstFieldOfJoin(pb, '/', sb);
    assert pa == k[..|pa|] == pb;
    assert sa == k[|pa|..] == sb;
  }

  lemma FontKeyStylesDistinct(run: Run, bold: bool, italic: bool)
    requires (bold, italic) != (run.bold, run.italic)
    ensures FontKey(run) != FontKey(run.(bold := bold, italic := italic))
  {
    var p := PrimaryFontName(run.fontName);
    var other := run.(bold := bold, italic := italic);
    assert FontKey(run)[|p|..] == StyleSuffix(run.bold, run.italic);
    assert FontKey(other)[|p|..] == StyleSuffix(bold, italic);
  }

  // ---------------------------------------------------------------------------
  // Font lookup
  // ---------------------------------------------------------------------------

  /** (lower-case family name, bold, italic): the key of the host index and of embedded fonts. */
  datatype StyleKey = StyleKey(family: string, bold: bool, italic: bool)

  /** A font file and the index of the face inside it (for TrueType collections). */
  datatype FontLocation = FontLocation(path: string, faceIndex: nat)

  type FontIndex = map<StyleKey, FontLocation>

  function ExactKey(name: string, bold: bool, italic: bool): StyleKey {
    StyleKey(ToLower(name), bold, italic)
  }

  function RegularKey(name: string): StyleKey {
    StyleKey(ToLower(name), false, false)
  }

  /**
   * `find_font_file`: the exact style wins; a bold and/or italic request that
   * misses falls back to the regular face; a regular request never falls back.
   */
  function FindFontFile(index: FontIndex, name: string, bold: bool, italic: bool): (r: Option<FontLocation>)
    ensures ExactKey(name, bold, italic) in index ==> r == Some(index[ExactKey(name, bold, italic)])
    ensures (ExactKey(name, bold, italic) !in index && (bold || italic) && RegularKey(name) in index)
            ==> r == Some(index[RegularKey(name)])
    ensures r.Some? <==> ExactKey(name, bold, italic) in index || ((bold || italic) && RegularKey(name) in index)
  {
    var key := ToLower(name);
    if StyleKey(key, bold, italic) in index then Some(index[StyleKey(key, bold, italic)])
    else if bold || italic then
      if StyleKey(key, false, false) in index then Some(index[StyleKey(key, false, false)]) else None
    else None
  }

  /**
   * Only the exact key and the regular key are ever consulted: two indexes that
   * agree on those two entries give the same answer.
   */
  lemma FindFontFileReadsTwoKeys(i1: FontIndex, i2: FontIndex, name: string, bold: bool, italic: bool)
    requires forall k :: k == ExactKey(name, bold, italic) || k == RegularKey(name) ==>
               (k in i1 <==> k in i2) && (k in i1 ==> i1[k] == i2[k])
    ensures FindFontFile(i1, name, bold, italic) == FindFontFile(i2, name, bold, italic)
  {
    var e, g := ExactKey(name, bold, italic), RegularKey(name);
    assert (e in i1 <==> e in i2) && (e in i1 ==> i1[e] == i2[e]);
    assert (g in i1 <==> g in i2) && (g in i1 ==> i1[g] == i2[g]);
  }

  /** The lookup ignores letter case in the family name. */
  lemma FindFontFileIgnoresCase(index: FontIndex, name: string, bold: bool, italic: bool)
    ensures FindFontFile(index, ToLower(name), bold, italic) == FindFontFile(index, name, bold, italic)
  {
    ToLowerIdempotent(name);
  }

  // ---------------------------------------------------------------------------
  // Registering a font
  // ---------------------------------------------------------------------------

  /** What a parsed font face yields: its width table and its line-height and ascender ratios. */
  datatype Metrics = Metrics(widths: WidthTable, lineHeightRatio: real, ascenderRatio: real)

  /**
   * `FontEntry`: ratios are present exactly when a real face supplied the metrics.
   */
  datatype FontEntry = FontEntry(
    pdfName: string,
    fontRef: nat,
    widths: WidthTable,
    lineHeightRatio: Option<real>,
    ascenderRatio: Option<real>)

  /** The host's font index and the bytes of the font files it can read. */
  datatype HostFonts = HostFonts(index: FontIndex, files: map<string, seq<Byte>>)

  /** Parses font bytes at a face index (`embed_truetype`); None when the face does not parse. */
  type FaceParser = (seq<Byte>, nat) -> Option<Metrics>

  /** Metrics from the document's own embedded font for this exact style (face 0). */
  function EmbeddedMetrics(embedded: map<StyleKey, seq<Byte>>, parse: FaceParser,
                           name: string, bold: bool, italic: bool): Option<Metrics>
  {
    var key := ExactKey(name, bold, italic);
    if key in embedded then parse(embedded[key], 0) else None
  }

  /** Metrics from the host file `find_font_file` picks, if it can be read and parsed. */
  function HostMetrics(host: HostFonts, parse: FaceParser, name: string, bold: bool, italic: bool): Option<Metrics> {
    match FindFontFile(host.index, name, bold, italic)
    case None => None
    case Some(loc) => if loc.path in host.files then parse(host.files[loc.path], loc.faceIndex) else None
  }

  /**
   * `register_font`: metrics come from the embedded font when it parses, else
   * from the host font file, else from the Helvetica table with no ratios.
   */
  function RegisterFont(host: HostFonts, embedded: map<StyleKey, seq<Byte>>, parse: FaceParser,
                        name: string, bold: bool, italic: bool, pdfName: string, fontRef: nat): (e: FontEntry)
    ensures e.pdfName == pdfName && e.fontRef == fontRef
    ensures e.lineHeightRatio.Some? <==> e.ascenderRatio.Some?
    ensures e.lineHeightRatio.None? <==>
              EmbeddedMetrics(embedded, parse, name, bold, italic).None? && HostMetrics(host, parse, name, bold, italic).None?
    ensures e.lineHeightRatio.None? ==> e.widths == HelveticaWidths()
    ensures match EmbeddedMetrics(embedded, parse, name, bold, italic)
            case Some(m) => e.widths == m.widths && e.lineHeightRatio == Some(m.lineHeightRatio)
                            && e.ascenderRatio == Some(m.ascenderRatio)
            case None => true
  {
    var found :=
      match EmbeddedMetrics(embedded, parse, name, bold, italic)
      case Some(m) => Some(m)
      case None => HostMetrics(host, parse, name, bold, italic);
    match found
    case Some(m) => FontEntry(pdfName, fontRef, m.widths, Some(m.lineHeightRatio), Some(m.ascenderRatio))
    case None => FontEntry(pdfName, fontRef, HelveticaWidths(), None, None)
  }

  /** When the embedded face parses, nothing about the host's fonts matters. */
  lemma EmbeddedShadowsHost(h1: HostFonts, h2: HostFonts, embedded: map<StyleKey, seq<Byte>>, parse: FaceParser,
                            name: string, bold: bool, italic: bool, pdfName: string, fontRef: nat)
    requires EmbeddedMetrics(embedded, parse, name, bold, italic).Some?
    ensures RegisterFont(h1, embedded, parse, name, bold, italic, pdfName, fontRef)
         == RegisterFont(h2, embedded, parse, name, bold, italic, pdfName, fontRef)
  {
  }

  /** Without a usable embedded face, the host face is used whenever it parses. */
  lemma HostBeforeFallback(host: HostFonts, embedded: map<StyleKey, seq<Byte>>, parse: FaceParser,
                           name: string, bold: bool, italic: bool, pdfName: string, fontRef: nat)
    requires EmbeddedMetrics(embedded, parse, name, bold, italic).None?
    requires HostMetrics(host, parse, name, bold, italic).Some?
    ensures var m := HostMetrics(host, parse, name, bold, italic).value;
            RegisterFont(host, embedded, parse, name, bold, italic, pdfName, fontRef)
              == FontEntry(pdfName, fontRef, m.widths, Some(m.lineHeightRatio), Some(m.ascenderRatio))
  {
  }
}
