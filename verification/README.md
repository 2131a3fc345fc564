# docxside-pdf: text, font and document-model core in Dafny

docxside-pdf converts a DOCX document to PDF. This project models the pure logic it runs between reading the
package and writing PDF objects, and proves properties of that logic.

From `src/fonts.rs` it models:
- the WinAnsi (Windows-1252) codec used for PDF strings;
- the built-in Helvetica width table;
- the font-key helpers;
- the host-font lookup with its regular-face fallback;
- the embedded → host → Helvetica order in which `register_font` picks metrics.

From `src/docx.rs` it models:
- colour, justification and theme-font attribute parsing;
- the `w:b`/`w:i` toggle rule;
- `basedOn` style inheritance, including cyclic chains;
- the ECMA-376 embedded-font de-obfuscation (GUID key and XOR);
- list numbering with per-(numId, level) counters;
- the relationship-target → zip-entry rule;
- the JPEG frame-size probe.

Modules, one per file:

| file | module | models |
|---|---|---|
| `base.dfy` | `Base` | `Option`, bytes, big-endian 16-bit reads |
| `text.dfy` | `Text` | the Rust string primitives used by the code: ASCII lower-casing, `trim`, `split(..).next()`, `u8::from_str_radix` / `parse::<u8>`, `to_string` of integers, `str::replace` |
| `model.dfy` | `DocModel` | the run, colour, alignment and border records the two files share |
| `winansi.dfy` | `WinAnsi` | `winansi_to_char`, `to_winansi_bytes` |
| `fonts.dfy` | `Fonts` | `helvetica_widths`, `primary_font_name`, `font_key`, `find_font_file`, `register_font` |
| `styles.dfy` | `Styles` | `parse_hex_color`, `parse_alignment`, `resolve_font`, the bold/italic toggle |
| `inheritance.dfy` | `StyleInheritance` | `resolve_based_on` |
| `obfuscation.dfy` | `FontObfuscation` | `parse_guid_to_bytes`, `deobfuscate_font` |
| `numbering.dfy` | `Numbering` | `parse_list_info` |
| `package.dfy` | `Package` | the zip-path rule for relationship targets |
| `jpeg.dfy` | `Jpeg` | `jpeg_dimensions` |

XML nodes are replaced by the attribute values they carry: `Option<string>`, or `Option<Option<string>>` for an element
that may lack `w:val`. The host font index, the host files and the font-face parser are parameters.
Rust `HashMap` iteration order becomes an explicit sequence of keys.

`resolve_based_on` updates the map in place, so a style processed later can read ancestors that were already resolved.
The model runs that loop over an arbitrary key order (`ResolveInPlace`). It proves the result equals the pure definition
"every unset field takes its value from the nearest ancestor that sets it", computed against the original map. So the
outcome does not depend on the order.

## Model

| member | source | states |
|---|---|---|
| WinAnsi.DecodeByte | src/fonts.rs:168-199 | Bytes below 0x80, bytes 0xA0..0xFF and the five unassigned bytes decode to the code point of the same number. The 27 assigned bytes in 0x80..0x9F decode to characters above U+00FF, outside Latin-1, which the encoder maps back to them (`DecodeThenEncode`). |
| WinAnsi.EncodeChar | src/fonts.rs:202-237 | A character keeps its own number as its byte iff it is ASCII or Latin-1 (U+00A0..U+00FF). Whatever encodes decodes back to itself. Nothing encodes to one of the five bytes Windows-1252 leaves unassigned. |
| WinAnsi.EncodeSpecial | src/fonts.rs:207-234 | Each of the 27 Windows-1252 specials encodes to a byte in 0x80..0x9F that decodes back to it and is not unassigned. |
| WinAnsi.DecodeThenEncode | src/fonts.rs:168-237 | Every assigned byte survives decode-then-encode unchanged. The five unassigned bytes 0x81, 0x8D, 0x8F, 0x90 and 0x9D decode to characters that do not encode. |
| WinAnsi.Encode | src/fonts.rs:202-237 | The output is no longer than the input. It never holds an unassigned byte. It is exactly as long as the input iff every character is encodable, so dropping is silent but only for unencodable characters. |
| WinAnsi.EncodeAppend | src/fonts.rs:202-237 | Encoding distributes over concatenation: characters are encoded independently and in order. |
| WinAnsi.DecodeEncode | src/fonts.rs:168-237 | Decoding an encoded string gives exactly its encodable characters, in order. |
| WinAnsi.EncodableUnchanged | src/fonts.rs:202-237 | On a fully encodable string, encoding drops nothing: decode∘encode is the identity. |
| WinAnsi.EncodeDecode | src/fonts.rs:168-237 | Encoding the decoding of a byte string without unassigned bytes gives that byte string back. |
| Fonts.HelveticaWidths | src/fonts.rs:240-257 | Every width is one of 278, 333, 556, 667 and 833. A code gets 278 iff it is space or one of I J f i j l t. It gets 833 iff it is M, m or w. The class lemmas below give the width of every code. |
| Fonts.HelveticaEntry | src/fonts.rs:240-257 | The fallback table has 224 entries. Entry `b - 32` is the match arm for code `b`. |
| Fonts.HelveticaPunctuationAndDigits | src/fonts.rs:243-250 | The table has 224 entries. Space is 278, digits are 556, and the three punctuation blocks are 333. |
| Fonts.HelveticaUpperCase | src/fonts.rs:247-249 | The earlier arms win over the A–Z average: I and J are 278, M is 833, and every other capital is 667. |
| Fonts.HelveticaLowerCase | src/fonts.rs:251-253 | The earlier arms win over the a–z average: f, i, j, l and t are 278, m and w are 833, and every other lower-case letter is 556. |
| Fonts.HelveticaUpperHalf | src/fonts.rs:241-254 | Every code from '{' to 255 is 556. |
| Fonts.PrimaryFontName | src/fonts.rs:334-336 | The primary name never holds a ';'. It has no white space at either end. A name without ';' gives that name trimmed (" Arial " gives "Arial"). |
| Fonts.PrimaryFontNameOfList | src/fonts.rs:334-336 | A family name followed by nothing, or by ';' and anything, gives that family name trimmed: everything from the first ';' on is ignored. |
| Fonts.PrimaryFontNameIdempotent | src/fonts.rs:334-336 | A primary name is its own primary name. |
| Fonts.FontKey | src/fonts.rs:338-346 | The key is the primary name followed by "/BI", "/B", "/I" or nothing, according to (bold, italic). |
| Fonts.FontKeyInjective | src/fonts.rs:338-346 | Suppose family names hold no '/'. Then equal keys mean the same family and the same style. |
| Fonts.FontKeyStylesDistinct | src/fonts.rs:338-346 | Two different styles of one run's font never share a key. |
| Fonts.FindFontFile | src/fonts.rs:151-164 | An exact (lower-cased name, bold, italic) hit wins. Otherwise a bold or italic request falls back to the regular face. A regular request never falls back. A result exists iff one of those two lookups hits. |
| Fonts.FindFontFileReadsTwoKeys | src/fonts.rs:151-164 | No key but the exact and the regular one is ever consulted: two indexes that agree there give the same answer. |
| Fonts.FindFontFileIgnoresCase | src/fonts.rs:151-164 | The lookup does not depend on the letter case of the family name. |
| Fonts.RegisterFont | src/fonts.rs:363-391 | The line-height and ascender ratios are both present or both absent. They are absent exactly when neither the embedded font nor the host file yields a face, and then the widths are the Helvetica table. An embedded face that parses supplies all metrics. |
| Fonts.EmbeddedShadowsHost | src/fonts.rs:363-376 | When the embedded face parses, the host fonts have no influence on the entry. |
| Fonts.HostBeforeFallback | src/fonts.rs:366-383 | Without a usable embedded face, a host face that parses supplies the metrics before Helvetica is considered. |
| Styles.ParseHexColor | src/docx.rs:30-38 | "auto" and every value whose length is not 6 give no colour. Six hexadecimal digits give their three bytes in order. Any accepted value has a hexadecimal digit in every odd position, and a digit or '+' in every even one. |
| Styles.HexColorRoundTrip | src/docx.rs:30-38 | Parsing the six-digit form of any colour gives that colour back. |
| Styles.SignedPairsAccepted | src/docx.rs:34-36 | Because `from_str_radix` takes a leading '+', "+f+f+f" is accepted as the colour (15, 15, 15). |
| Styles.ParseAlignment | src/docx.rs:133-140 | "center" and only it gives Center. "right" or "end" gives Right. "both" gives Justify. Every other value gives Left. |
| Styles.AlignmentRoundTrip | src/docx.rs:133-140 | Parsing the keyword of an alignment gives that alignment back. |
| Styles.ResolveFont | src/docx.rs:187-201 | An explicit name wins. Otherwise "majorHAnsi" gives the theme's major font and "minorHAnsi" its minor font. Anything else gives the default. |
| Styles.ResolveFontCandidates | src/docx.rs:187-201 | The result is always one of the candidates. With an explicit name, neither the theme nor the default matters. |
| Styles.ToggleAsWritten | src/docx.rs:754-765 | As written: the property is off iff the element is absent and the style's value is off, or the element's `w:val` is "0" or "false". |
| Styles.OffReadAsOn | src/docx.rs:754-765 | As written, `w:val="off"` turns bold or italic on. |
| Styles.Toggle | src/docx.rs:754-765 | Corrected rule: the property is off iff the element is absent and the style's value is off, or its value is one of the ST_OnOff "off" spellings "0", "false" or "off". |
| Styles.ToggleCorrected | src/docx.rs:754-765 | The corrected rule reads "1", "true" and "on" as on and "0", "false" and "off" as off. It agrees with the written rule on every input except "off". |
| StyleInheritance.Walk | src/docx.rs:366-376 | The walk extends the chain it is given. It stops at once iff `current` was already visited; otherwise `current` is recorded next. Each id it adds names the following one as its parent. |
| StyleInheritance.WalkShape | src/docx.rs:366-376 | The walk extends the chain it started from. Each step follows a `basedOn` link, no id appears twice, and the walk stops at a cycle, a missing style or a style without `basedOn`. |
| StyleInheritance.Chain | src/docx.rs:362-376 | A style's chain starts at the style, follows `basedOn` links, holds each id at most once and ends where the walk must stop. This holds on cyclic inputs too. |
| StyleInheritance.ChainBound | src/docx.rs:362-376 | A chain is at most one longer than the number of styles, so the walk terminates even on cycles. |
| StyleInheritance.Override | src/docx.rs:387-414 | For an existing style, each of the eight properties is the style's own value when it sets one, else the accumulated value. A missing style changes nothing. `Collect` shows that folding these steps gives the nearest setting on the chain. |
| StyleInheritance.Collect | src/docx.rs:378-414 | Visiting the chain from its far end leaves, for each of the eight inheritable properties, the value of the nearest chain member that sets it. |
| StyleInheritance.NearestOfNone | src/docx.rs:378-414 | A property accumulates nothing iff no member of the chain sets it. |
| StyleInheritance.Fill | src/docx.rs:416-441 | Each inheritable property the style leaves unset takes the accumulated value. Set ones are kept, and the six other fields are untouched. Filling twice changes nothing (`FillIdempotent`). |
| StyleInheritance.FillIdempotent | src/docx.rs:416-441 | Filling unset fields twice from the same accumulators changes nothing more. |
| StyleInheritance.Resolved | src/docx.rs:360-443 | A property the style sets is kept. An unset one takes the nearest setting along the chain or stays unset. space_before, contextual_spacing, keep_next, the two border fields and based_on are untouched. |
| StyleInheritance.ResolveBasedOn | src/docx.rs:360-443 | The same set of style ids comes out, and every style is resolved against the original map. |
| StyleInheritance.ResolveInPlace | src/docx.rs:360-443 | The in-place loop over the ids, in any order that lists every style, yields exactly `ResolveBasedOn`. |
| StyleInheritance.ResolveBasedOnIdempotent | src/docx.rs:360-443 | Resolving an already resolved map changes nothing. |
| FontObfuscation.ParseGuidToBytes | src/docx.rs:447-468 | There is a key iff exactly 32 hexadecimal digits remain once every other character is dropped. Key byte k is the parsed byte at position [15,14,13,12,11,10,9,8,6,7,4,5,0,1,2,3][k]. |
| FontObfuscation.KeyFromBytes | src/docx.rs:458-467 | The key is the GUID layout [3,2,1,0,5,4,7,6,8..15] of the 16 bytes, reversed. |
| FontObfuscation.GuidKeyIsPermutation | src/docx.rs:447-468 | The key is a permutation of the 16 parsed bytes. |
| FontObfuscation.GuidIgnoresPunctuation | src/docx.rs:448-451 | Only the hexadecimal digits of the GUID text matter. |
| FontObfuscation.GuidRoundTrip | src/docx.rs:447-468 | Writing 16 bytes as 32 hexadecimal digits and parsing them gives the key built from those bytes. |
| FontObfuscation.Xored | src/docx.rs:471-478 | The length is unchanged. XORing each of the first 32 bytes again with `key[i mod 16]` restores it. Every later byte is unchanged. |
| FontObfuscation.DeobfuscateFont | src/docx.rs:471-478 | The length is unchanged. Byte i < 32 becomes `data[i] XOR key[i mod 16]`. Every later byte is unchanged. |
| FontObfuscation.XoredInvolution | src/docx.rs:471-478 | Applying the XOR twice with the same key restores the font. |
| Numbering.RefOf | src/docx.rs:1055-1063 | A paragraph refers to a list iff it has `w:numPr` with a `w:numId`. The level is `w:ilvl` read as a `u8`, or 0. |
| Numbering.Level | src/docx.rs:1061-1063 | A missing or unparseable `w:ilvl` is level 0. A level written in decimal is read back as itself. |
| Numbering.LevelOfDecimal | src/docx.rs:1061-1063 | A level written in decimal (0..255) is read back as that level. |
| Numbering.LevelDefault | src/docx.rs:1061-1063 | A missing `w:ilvl`, or one that is not a `u8`, means level 0. |
| Numbering.LookupLevel | src/docx.rs:1065-1069 | A level definition is found iff the instance maps to an abstract numbering that exists and defines the level. |
| Numbering.ListInfoFor | src/docx.rs:1065-1085 | Without a level definition the result is (0, 0, "") and the counters are unchanged. Otherwise only the (numId, level) counter moves: to 1 on first use, else up by one. The indents come from the definition, and the label is built from the new counter. |
| Numbering.ParseListInfo | src/docx.rs:1050-1085 | Without `w:numPr` or `w:numId` the result is (0, 0, "") with the counters unchanged. Otherwise it is the list logic at (numId, level). |
| Numbering.ListLabel | src/docx.rs:1078-1083 | A bullet level is labelled with the bullet. A template without '%' is used verbatim. `LabelFromTemplate` and `LabelFromMultiLevelTemplate` cover templates holding this level's placeholder, with or without other levels' placeholders. |
| Numbering.BulletIgnoresCounter | src/docx.rs:1078-1079 | A bullet level is labelled "•" whatever its counter. |
| Numbering.LabelFromTemplate | src/docx.rs:1080-1083 | Take a template holding this level's "%n" once and no other '%'. Its label is the template with the counter in decimal in that place. |
| Numbering.LiteralTemplate | src/docx.rs:1080-1083 | A template without '%' is used verbatim. |
| Numbering.LabelFromMultiLevelTemplate | src/docx.rs:1080-1083 | Take a template whose text before the first placeholder of this level holds none of it; other levels' placeholders may appear anywhere. Its label keeps that text, puts the counter in place of the placeholder, and goes on replacing in the rest. |
| Numbering.MultiLevelExample | src/docx.rs:1080-1083 | "%1.%2." at level index 1 with counter 3 is labelled "%1.3.": the other level's placeholder is left as it is. |
| Numbering.Advance | src/docx.rs:1065-1077 | With a level definition, only the (numId, level) counter moves: to 1 on first use, else up by one. Without one, nothing moves. |
| Numbering.CountsParagraphs | src/docx.rs:1074-1077 | After n paragraphs at a list level not seen before, its counter is n. Every other counter is unchanged. |
| Numbering.NthLabel | src/docx.rs:1074-1083 | With a one-placeholder template, the n-th paragraph of a new list level is labelled n. |
| Package.ZipPath | src/docx.rs:585-588 | An absolute target loses exactly its leading '/'. A relative target is placed under "word/" unchanged. |
| Package.AbsoluteMatchesRelative | src/docx.rs:585-588 | "/word/x" and "x" name the same zip entry. |
| Package.ZipPathInjective | src/docx.rs:585-588 | Two targets of the same kind that name the same entry are equal. |
| Package.OneSlashStripped | src/docx.rs:585-588 | Only one leading '/' is removed: "//x" opens "/x". |
| Jpeg.FrameSize | src/docx.rs:1126-1129 | Width and height are the big-endian 16-bit values at offsets 7..8 and 5..6, each below 65536. |
| Jpeg.Scan | src/docx.rs:1115-1133 | With fewer than five bytes left, nothing is found. A size is found only when the bytes up to the width lie inside the data, and both values are below 65536. `FrameOffset` and `ScanFindsFrame` locate the marker it was read at. |
| Jpeg.JpegDimensions | src/docx.rs:1111-1134 | Data that does not start with FF D8 gives None. Otherwise the loop computes the segment-by-segment scan from offset 2, reading only bytes in range. |
| Jpeg.FrameOffset | src/docx.rs:1116-1131 | A reported size comes from an FF C0/C1/C2 marker whose marker and first ten bytes (up to the width) lie inside the data. The marker is reached from the start by hopping over whole segments that are neither EOI nor a readable frame header. The size is the frame size read there. The segment's declared length is not checked, so the rest of the segment may lie past the end. |
| Jpeg.ScanFindsFrame | src/docx.rs:1111-1134 | A reported size is the frame size read at an FF C0/C1/C2 marker whose marker and first ten bytes (up to the width) lie inside the data. The marker lies on the segment-hop chain from the start. |
| Jpeg.ScanFindsFirstFrame | src/docx.rs:1116-1131 | Conversely, a readable frame header reached by segment hops is the one reported. An FF C0 inside a skipped payload is never read. |
| Jpeg.ScanIgnoresTrailingBytes | src/docx.rs:1111-1134 | Bytes appended after the data never change a size already found. |
| Jpeg.SkipsSegment | src/docx.rs:1124-1131 | A segment that is neither a frame header nor EOI is skipped by its marker and its big-endian length. |
| Jpeg.SmallImage | src/docx.rs:1111-1134 | SOI, then an APP0 segment, then an SOF0 header for a 32 × 16 image gives (32, 16). |
| Jpeg.TruncatedHeader | src/docx.rs:1126-1130 | An SOF0 header cut short before its width is not read: the result is None. |

## Left out

- XML and zip plumbing (`parse`, `parse_theme`, `parse_styles`, `parse_numbering`, `parse_relationships`, `parse_font_table`, `parse_font_table_rels`, `compute_drawing_info`, and `parse_runs` beyond the toggle rule). It is library I/O. The model takes the attribute values as inputs.
- Host font discovery (`font_family_name`, `read_font_style`, `font_directories`, `scan_font_dirs`, `get_font_index`): environment variables, directory walking and a global `OnceLock`. The index is a parameter of `Fonts.FindFontFile`, and the readable files are a parameter of `Fonts.RegisterFont`.
- `embed_truetype`, every `pdf_writer` call and the `log::warn!` in the fallback branch of `register_font` (src/fonts.rs:378): foreign libraries and logging. The face parser is an opaque function parameter. The PDF objects `register_font` writes, and the three references it allocates, are not modelled; the font reference is an input.
- Floating point: widths, ratios and indents are `real`, so `f32` rounding is not modelled.
- `to_lowercase` lowers ASCII letters only; Unicode case mapping is not modelled.
- Styles.ParseHexColor: requires ASCII input. On non-ASCII text the byte slicing `&val[0..2]` can panic in the source, and that panic is not modelled.
- Numbering.ListInfoFor: requires that the input is not a resolvable, non-bullet level 255, because `ilvl + 1` overflows a `u8` there.
- Numbering.ParseListInfo: requires the same as `ListInfoFor` for the list it refers to: no resolvable, non-bullet level 255, where `ilvl + 1` overflows a `u8`.
- Numbering.ListInfoFor: counters are unbounded; the `u32` counter overflow after 2^32 - 1 paragraphs of one level is not modelled.
- Jpeg.JpegDimensions: offsets are unbounded integers. `usize` overflow in `i += 2 + len` is not modelled, because it cannot happen for data held in memory.
- The per-style `w:b`/`w:i` rule in `parse_styles` (src/docx.rs:303-310) uses the same value test as the run rule and shares its finding. Only the run rule is modelled.
- `src/model.rs` is not used: the records in `model.dfy` follow how `src/docx.rs` and `src/fonts.rs` use them.
- Layout and PDF output (`src/pdf.rs`): it only moves a cursor down one page, and it holds no logic this model covers.
- The CLI, error display strings and test tools: outside the document logic.

## Findings

| source | as written | input that shows it | evidently intended | confidence | as-written member | corrected member |
|---|---|---|---|---|---|---|
| src/docx.rs:754-765 | A `w:b` or `w:i` element turns the property off only for `w:val` "0" or "false". | `<w:b w:val="off"/>` makes the run bold. | ST_OnOff (ECMA-376 Part 1) also spells "off" as off, so the run should not be bold. | medium, not executed | Styles.OffReadAsOn | Styles.ToggleCorrected |
