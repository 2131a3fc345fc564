/**
 * List labels (`parse_list_info` in `src/docx.rs`). A paragraph's `w:numPr`
 * names a numbering instance (`w:numId`) and a level (`w:ilvl`); the instance
 * maps to an abstract numbering whose level definition gives the indents and
 * either a bullet or a label template such as "%1." in which "%n" stands for
 * the counter of level n - 1. One counter runs per (numId, level) pair.
 * XML nodes are replaced by the attribute values they carry.
 */
module Numbering {
  import opened Base
  import opened Text

  /** The `w:numId` and `w:ilvl` attribute values of a paragraph's `w:numPr`. */
  datatype NumPr = NumPr(numId: Option<string>, ilvl: Option<string>)

  /** One `w:lvl` of an abstract numbering. */
  datatype LevelDef = LevelDef(numFmt: string, lvlText: string, indentLeft: real, indentHanging: real)

  /** Abstract numberings by id, each with its levels; numbering instances by id. */
  datatype NumberingInfo = NumberingInfo(
    abstractNums: map<string, map<U8, LevelDef>>,
    numToAbstract: map<string, string>)

  /** A Rust `u8` as a number. */
  type U8 = n: nat | n < 256

  /** One list counter per (numId, level) pair. */
  type Counters = map<(string, U8), nat>

  /** Left indent, hanging indent and label of a list paragraph. */
  datatype ListInfo = ListInfo(indentLeft: real, indentHanging: real, labelText: string)

  /** What a paragraph that is not (or not resolvably) in a list gets. */
  const NoList := ListInfo(0.0, 0.0, "")

  /** U+2022 BULLET. */
  const BulletLabel: string := "\U{2022}"

  /**
   * The level: `w:ilvl` read as a `u8` in decimal, or 0 when absent or
   * unreadable. A level written in decimal is read back as itself.
   */
  function Level(numPr: NumPr): (l: U8)
    ensures numPr.ilvl.None? ==> l == 0
    ensures numPr.ilvl.Some? && ParseU8(numPr.ilvl.value, 10).None? ==> l == 0
    ensures forall n: nat :: n < 256 && numPr.ilvl == Some(NatToString(n)) ==> l == n
  {
    DecimalLevels();
    match numPr.ilvl
    case Some(v) => ParseU8(v, 10).GetOr(0)
    case None => 0
  }

  /** Every `u8` written in decimal parses back to itself. */
  lemma DecimalLevels()
    ensures forall n: nat :: n < 256 ==> ParseU8(NatToString(n), 10) == Some(n)
  {
    forall n: nat | n < 256 ensures ParseU8(NatToString(n), 10) == Some(n) {
      ParseU8OfDecimal(n);
    }
  }

  /** The level definition for (numId, level), through the instance's abstract numbering. */
  function LookupLevel(numbering: NumberingInfo, numId: string, level: U8): (r: Option<LevelDef>)
    ensures r.Some? <==> (&& numId in numbering.numToAbstract
                          && numbering.numToAbstract[numId] in numbering.abstractNums
                          && level in numbering.abstractNums[numbering.numToAbstract[numId]])
  {
    if numId !in numbering.numToAbstract then None
    else
      var abs := numbering.numToAbstract[numId];
      if abs !in numbering.abstractNums || level !in numbering.abstractNums[abs] then None
      else Some(numbering.abstractNums[abs][level])
  }

  /** A list reference: a numbering instance id and a level. */
  datatype ListRef = ListRef(numId: string, level: U8)

  /**
   * What a `w:numPr` refers to: None without the element or without
   * `w:numId`; the level is `Level`.
   */
  function RefOf(numPr: Option<NumPr>): (r: Option<ListRef>)
    ensures r.Some? <==> numPr.Some? && numPr.value.numId.Some?
    ensures r.Some? ==> r.value.numId == numPr.value.numId.value && r.value.level == Level(numPr.value)
  {
    match numPr
    case None => None
    case Some(p) =>
      match p.numId
      case None => None
      case Some(id) => Some(ListRef(id, Level(p)))
  }

  /** The level definition a list reference resolves to, if any. */
  function Definition(ref: ListRef, numbering: NumberingInfo): Option<LevelDef> {
    LookupLevel(numbering, ref.numId, ref.level)
  }

  /** "%" followed by the one-based level number. */
  function Placeholder(level: U8): string {
    "%" + NatToString(level + 1)
  }

  /**
   * The one input on which the source's `ilvl + 1` overflows a `u8`: a
   * resolvable numbered (non-bullet) level 255.
   */
  predicate LabelOverflows(ref: ListRef, numbering: NumberingInfo) {
    && Definition(ref, numbering).Some?
    && ref.level == 255
    && Definition(ref, numbering).value.numFmt != "bullet"
  }

  /** The counter value after one more paragraph at `ref`. */
  function Bumped(counters: Counters, ref: ListRef): nat {
    if (ref.numId, ref.level) in counters then counters[(ref.numId, ref.level)] + 1 else 1
  }

  /**
   * The label of a list paragraph: the bullet for a bullet level, otherwise
   * the template with every placeholder of this level replaced by the counter
   * in decimal.
   */
  function ListLabel(def: LevelDef, level: U8, counter: nat): (text: string)
    requires def.numFmt != "bullet" ==> level < 255
    ensures def.numFmt == "bullet" ==> text == BulletLabel
    ensures def.numFmt != "bullet" && '%' !in def.lvlText ==> text == def.lvlText
  {
    if def.numFmt == "bullet" then BulletLabel
    else
      ReplaceAllAbsent(def.lvlText, Placeholder(level), NatToString(counter));
      ReplaceAll(def.lvlText, Placeholder(level), NatToString(counter))
  }

  /**
   * The counters once a paragraph referring to `ref` is numbered: with a level
   * definition, only the (numId, level) counter moves, starting at 1 and then
   * going up by one; without one, nothing moves.
   */
  function Advance(ref: ListRef, numbering: NumberingInfo, counters: Counters): (r: Counters)
    ensures Definition(ref, numbering).None? ==> r == counters
    ensures Definition(ref, numbering).Some? ==>
              var key := (ref.numId, ref.level);
              && r.Keys == counters.Keys + {key}
              && r[key] == (if key in counters then counters[key] + 1 else 1)
              && forall k :: k in counters && k != key ==> r[k] == counters[k]
  {
    if Definition(ref, numbering).None? then counters
    else counters[(ref.numId, ref.level) := Bumped(counters, ref)]
  }

  /**
   * The list logic of `parse_list_info` for a paragraph that refers to a
   * list: without a level definition nothing happens; otherwise the counter
   * of (numId, level) advances, the indents come from the definition and the
   * label is built from the advanced counter.
   */
  function ListInfoFor(ref: ListRef, numbering: NumberingInfo, counters: Counters): (out: (ListInfo, Counters))
    requires !LabelOverflows(ref, numbering)
    ensures Definition(ref, numbering).None? ==> out == (NoList, counters)
    ensures out.1 == Advance(ref, numbering, counters)
    ensures Definition(ref, numbering).Some? ==>
              var def, key := Definition(ref, numbering).value, (ref.numId, ref.level);
              && out.1.Keys == counters.Keys + {key}
              && out.1[key] == Bumped(counters, ref)
              && (forall k :: k in counters && k != key ==> out.1[k] == counters[k])
              && out.0 == ListInfo(def.indentLeft, def.indentHanging, ListLabel(def, ref.level, out.1[key]))
  {
    match Definition(ref, numbering)
    case None => (NoList, counters)
    case Some(def) =>
      var counter := Bumped(counters, ref);
      (ListInfo(def.indentLeft, def.indentHanging, ListLabel(def, ref.level, counter)),
       counters[(ref.numId, ref.level) := counter])
  }

  /**
   * `parse_list_info`: a paragraph without `w:numPr` or without `w:numId`
   * gets no list formatting and moves no counter; otherwise the list logic
   * applies to (numId, level).
   */
  function ParseListInfo(numPr: Option<NumPr>, numbering: NumberingInfo, counters: Counters): (out: (ListInfo, Counters))
    requires RefOf(numPr).Some? ==> !LabelOverflows(RefOf(numPr).value, numbering)
    ensures numPr.None? || numPr.value.numId.None? ==> out == (NoList, counters)
    ensures numPr.Some? && numPr.value.numId.Some? ==>
              out == ListInfoFor(ListRef(numPr.value.numId.value, Level(numPr.value)), numbering, counters)
  {
    match RefOf(numPr)
    case None => (NoList, counters)
    case Some(ref) => ListInfoFor(ref, numbering, counters)
  }

  /** `w:ilvl` written in decimal is read back as that level. */
  lemma LevelOfDecimal(numId: Option<string>, n: nat)
    requires n < 256
    ensures Level(NumPr(numId, Some(NatToString(n)))) == n
  {
    ParseU8OfDecimal(n);
  }

  /** An absent `w:ilvl` means level 0, and so does one that is not a `u8`. */
  lemma LevelDefault(numId: Option<string>, v: string)
    ensures Level(NumPr(numId, None)) == 0
    ensures ParseU8(v, 10).None? ==> Level(NumPr(numId, Some(v))) == 0
  {
  }

  /** A bullet level always gets the bullet, whatever the counter. */
  lemma BulletIgnoresCounter(def: LevelDef, level: U8, counter: nat)
    requires def.numFmt == "bullet"
    ensures ListLabel(def, level, counter) == BulletLabel
  {
  }

  /**
   * A template holding this level's placeholder once, with no other '%',
   * gets the counter in its place.
   */
  lemma LabelFromTemplate(def: LevelDef, level: U8, counter: nat, prefix: string, suffix: string)
    requires def.numFmt != "bullet" && level < 255
    requires def.lvlText == prefix + Placeholder(level) + suffix
    requires '%' !in prefix && '%' !in suffix
    ensures ListLabel(def, level, counter) == prefix + NatToString(counter) + suffix
  {
    ReplaceSingle(prefix, Placeholder(level), suffix, NatToString(counter));
  }

  /** A placeholder starts with its only '%': the rest is decimal digits. */
  lemma PlaceholderShape(level: U8)
    requires level < 255
    ensures |Placeholder(level)| > 1 && Placeholder(level)[0] == '%'
    ensures '%' !in Placeholder(level)[1..]
  {
    assert Placeholder(level)[1..] == NatToString(level + 1);
  }

  /**
   * A template that may hold other levels' placeholders, such as "%1.%2.":
   * the first placeholder of this level gets the counter, the text before it
   * is kept, and the replacement goes on in the rest.
   */
  lemma LabelFromMultiLevelTemplate(def: LevelDef, level: U8, counter: nat, prefix: string, suffix: string)
    requires def.numFmt != "bullet" && level < 255
    requires def.lvlText == prefix + Placeholder(level) + suffix
    requires forall j :: 0 <= j <= |prefix| ==> !OccursAt(prefix, Placeholder(level), j)
    ensures ListLabel(def, level, counter)
            == prefix + NatToString(counter) + ReplaceAll(suffix, Placeholder(level), NatToString(counter))
  {
    PlaceholderShape(level);
    ReplaceAfterFirst(prefix, Placeholder(level), suffix, NatToString(counter));
  }

  /** "%1.%2." at the second level (index 1) with counter 3 reads "%1.3.": the first level's "%1" stays. */
  lemma MultiLevelExample()
    ensures ListLabel(LevelDef("decimal", "%1.%2.", 0.0, 0.0), 1, 3) == "%1.3."
  {
    var pat, three := Placeholder(1), NatToString(3);
    assert NatToString(2) == "2" && three == "3";
    assert pat == "%2";
    assert "%1.%2." == "%1." + pat + ".";
    forall j | 0 <= j <= 3 ensures !OccursAt("%1.", pat, j) {
      if j + 2 <= 3 {
        assert "%1."[j..j + 2][1] != '2';
      }
    }
    LabelFromMultiLevelTemplate(LevelDef("decimal", "%1.%2.", 0.0, 0.0), 1, 3, "%1.", ".");
    ReplaceAllAbsent(".", pat, three);
  }

  /** A template without '%' is used verbatim. */
  lemma LiteralTemplate(def: LevelDef, level: U8, counter: nat)
    requires def.numFmt != "bullet" && level < 255
    requires '%' !in def.lvlText
    ensures ListLabel(def, level, counter) == def.lvlText
  {
    ReplaceAllAbsent(def.lvlText, Placeholder(level), NatToString(counter));
  }

  /** The counters after `n` consecutive paragraphs referring to `ref`. */
  function Repeated(ref: ListRef, numbering: NumberingInfo, counters: Counters, n: nat): Counters {
    if n == 0 then counters
    else Advance(ref, numbering, Repeated(ref, numbering, counters, n - 1))
  }

  /**
   * Counting starts at 1 and goes up by one per paragraph: after `n`
   * paragraphs of a list level not seen before, its counter is `n`, and every
   * other counter is as it was.
   */
  lemma {:induction false} CountsParagraphs(ref: ListRef, numbering: NumberingInfo, counters: Counters, n: nat)
    requires Definition(ref, numbering).Some?
    requires (ref.numId, ref.level) !in counters
    ensures var after := Repeated(ref, numbering, counters, n);
            && (n > 0 ==> (ref.numId, ref.level) in after && after[(ref.numId, ref.level)] == n)
            && (forall k :: k in counters ==> k in after && after[k] == counters[k])
  {
    if n > 0 {
      CountsParagraphs(ref, numbering, counters, n - 1);
    }
  }

  /**
   * With a one-placeholder template, the n-th paragraph of a list level not
   * seen before is labelled with n.
   */
  lemma NthLabel(ref: ListRef, numbering: NumberingInfo, counters: Counters, n: nat, prefix: string, suffix: string)
    requires !LabelOverflows(ref, numbering)
    requires Definition(ref, numbering).Some?
    requires Definition(ref, numbering).value.numFmt != "bullet"
    requires Definition(ref, numbering).value.lvlText == prefix + Placeholder(ref.level) + suffix
    requires '%' !in prefix && '%' !in suffix
    requires (ref.numId, ref.level) !in counters
    requires n >= 1
    ensures ListInfoFor(ref, numbering, Repeated(ref, numbering, counters, n - 1)).0.labelText
            == prefix + NatToString(n) + suffix
  {
    var before := Repeated(ref, numbering, counters, n - 1);
    CountsParagraphs(ref, numbering, counters, n - 1);
    assert Bumped(before, ref) == n;
    LabelFromTemplate(Definition(ref, numbering).value, ref.level, n, prefix, suffix);
  }
}
