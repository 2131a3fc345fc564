/**
 * The document-model records that the font and style code exchange: colours,
 * paragraph alignment, text runs and paragraph bottom borders. Lengths are
 * points, kept as reals.
 */
module DocModel {
  import opened Base

  /** A `[u8; 3]` colour. */
  datatype Rgb = Rgb(r: Byte, g: Byte, b: Byte)

  datatype Alignment = Left | Center | Right | Justify

  /** One run of uniformly formatted text; `color` None means automatic. */
  datatype Run = Run(
    text: string,
    fontSize: real,
    fontName: string,
    bold: bool,
    italic: bool,
    color: Option<Rgb>)

  datatype BorderBottom = BorderBottom(widthPt: real, spacePt: real, color: Rgb)
}
