/**
 * Paragraph-style inheritance through `w:basedOn` (`resolve_based_on` in
 * `src/docx.rs`). Each style walks its basedOn chain, stopping at a missing
 * parent or at the first id it has already visited, so cyclic chains end;
 * then every inheritable property the style leaves unset takes the value of
 * the nearest style on the chain that sets it.
 *
 * The source updates the map in place while iterating over its keys in hash
 * order, so a style processed late reads ancestors that were already filled
 * in. `ResolveInPlace` models exactly that, for an arbitrary key order, and is
 * proved to agree with `ResolveBasedOn`, which reads only the original styles:
 * the outcome does not depend on the order.
 */
module StyleInheritance {
  import opened Base
  import opened DocModel

  /** A paragraph style from `styles.xml`; None means "not set by this style". */
  datatype ParagraphStyle = ParagraphStyle(
    fontSize: Option<real>,
    fontName: Option<string>,
    bold: Option<bool>,
    italic: Option<bool>,
    color: Option<Rgb>,
    spaceBefore: real,
    spaceAfter: Option<real>,
    alignment: Option<Alignment>,
    contextualSpacing: bool,
    keepNext: bool,
    lineSpacing: Option<real>,
    borderBottomExtra: real,
    borderBottom: Option<BorderBottom>,
    basedOn: Option<string>)

  /** Paragraph styles by style id. */
  type StyleMap = map<string, ParagraphStyle>

  // ---------------------------------------------------------------------------
  // The basedOn chain
  // ---------------------------------------------------------------------------

  function Elems(p: seq<string>): set<string> {
    set x | x in p
  }

  /** Style `a` exists and names `b` as its parent. */
  predicate Links(styles: StyleMap, a: string, b: string) {
    a in styles && styles[a].basedOn == Some(b)
  }

  /** Each id of `p` names the next one as its parent. */
  predicate IsPath(styles: StyleMap, p: seq<string>) {
    forall k :: 0 <= k < |p| - 1 ==> Links(styles, p[k], p[k + 1])
  }

  predicate Distinct(p: seq<string>) {
    forall a, b :: 0 <= a < b < |p| ==> p[a] != p[b]
  }

  /**
   * The walk has nowhere new to go from the last id: it is not a style, has
   * no parent, or its parent is already on the path.
   */
  predicate Stops(styles: StyleMap, p: seq<string>) {
    && |p| > 0
    && var last := p[|p| - 1];
       last !in styles || styles[last].basedOn.None? || styles[last].basedOn.value in p
  }

  /**
   * The walking loop of `resolve_based_on`: stop if `current` was visited,
   * otherwise record it and continue with its parent, if it is a style and
   * has one. Every step adds an unvisited style id, which bounds the walk.
   */
  function Walk(styles: StyleMap, current: string, chain: seq<string>): (r: seq<string>)
    ensures |chain| <= |r| && r[..|chain|] == chain
    ensures r == chain <==> current in chain
    ensures current !in chain ==> r[|chain|] == current
    ensures forall k :: |chain| <= k < |r| - 1 ==> Links(styles, r[k], r[k + 1])
    decreases |styles.Keys - Elems(chain)|
  {
    if current in chain then chain
    else
      var next := chain + [current];
      if current in styles && styles[current].basedOn.Some? then
        VisitShrinks(styles.Keys, chain, current);
        var r := Walk(styles, styles[current].basedOn.value, next);
        ExtendLinks(styles, chain, current, styles[current].basedOn.value, r);
        r
      else next
  }

  /** A walk continued from `current`'s parent extends the path through `current`. */
  lemma ExtendLinks(styles: StyleMap, chain: seq<string>, current: string, parent: string, r: seq<string>)
    requires Links(styles, current, parent)
    requires |chain| + 1 <= |r| && r[..|chain| + 1] == chain + [current]
    requires |r| > |chain| + 1 ==> r[|chain| + 1] == parent
    requires forall k :: |chain| + 1 <= k < |r| - 1 ==> Links(styles, r[k], r[k + 1])
    ensures r[..|chain|] == chain && r[|chain|] == current
    ensures forall k :: |chain| <= k < |r| - 1 ==> Links(styles, r[k], r[k + 1])
  {
    assert r[..|chain|] == r[..|chain| + 1][..|chain|];
    assert r[|chain|] == r[..|chain| + 1][|chain|];
  }

  /**
   * Started from a distinct path whose end links to `current`, the walk
   * extends it to a distinct path that stops.
   */
  lemma {:induction false} WalkShape(styles: StyleMap, current: string, chain: seq<string>)
    requires IsPath(styles, chain) && Distinct(chain)
    requires |chain| > 0 ==> Links(styles, chain[|chain| - 1], current)
    ensures var r := Walk(styles, current, chain);
            && |chain| <= |r| && r[..|chain|] == chain
            && (current !in chain ==> |chain| < |r| && r[|chain|] == current)
            && IsPath(styles, r) && Distinct(r) && Stops(styles, r)
    decreases |styles.Keys - Elems(chain)|
  {
    if current !in chain {
      var next := chain + [current];
      assert IsPath(styles, next);
      assert Distinct(next);
      if current in styles && styles[current].basedOn.Some? {
        VisitShrinks(styles.Keys, chain, current);
        WalkShape(styles, styles[current].basedOn.value, next);
        var r := Walk(styles, current, chain);
        assert r[..|next|][..|chain|] == r[..|chain|];
      }
    }
  }

  /** Visiting an unvisited style id leaves fewer to visit. */
  lemma VisitShrinks(keys: set<string>, chain: seq<string>, current: string)
    requires current in keys && current !in chain
    ensures |keys - Elems(chain + [current])| < |keys - Elems(chain)|
  {
    assert Elems(chain + [current]) == Elems(chain) + {current};
    var after := keys - Elems(chain + [current]);
    assert keys - Elems(chain) == after + {current} && current !in after;
  }

  /**
   * The chain of `id`: `id` itself, then its ancestors, each at most once,
   * ending where the walk stops.
   */
  function Chain(styles: StyleMap, id: string): (c: seq<string>)
    ensures |c| > 0 && c[0] == id
    ensures IsPath(styles, c) && Distinct(c) && Stops(styles, c)
  {
    WalkShape(styles, id, []);
    Walk(styles, id, [])
  }

  /** A chain visits each style at most once, plus possibly one missing parent at its end. */
  lemma ChainBound(styles: StyleMap, id: string)
    ensures |Chain(styles, id)| <= |styles| + 1
  {
    var c := Chain(styles, id);
    var body := c[..|c| - 1];
    assert forall k :: 0 <= k < |body| ==> body[k] in styles by {
      forall k | 0 <= k < |body| ensures body[k] in styles {
        assert Links(styles, c[k], c[k + 1]);
      }
    }
    DistinctCard(body);
    assert Elems(body) <= styles.Keys;
    SubsetCard(Elems(body), styles.Keys);
  }

  lemma {:induction false} DistinctCard(p: seq<string>)
    requires Distinct(p)
    ensures |Elems(p)| == |p|
  {
    if |p| > 0 {
      var q := p[..|p| - 1];
      assert Distinct(q);
      DistinctCard(q);
      assert p == q + [p[|p| - 1]];
      assert p[|p| - 1] !in Elems(q);
      assert Elems(p) == Elems(q) + {p[|p| - 1]};
    }
  }

  lemma SubsetCard(a: set<string>, b: set<string>)
    requires a <= b
    ensures |a| <= |b|
  {
    assert b == a + (b - a);
  }

  /**
   * Following parents is deterministic: a distinct path is a prefix of every
   * stopped path that starts at the same id.
   */
  lemma {:induction false} PathPrefix(styles: StyleMap, p: seq<string>, q: seq<string>)
    requires IsPath(styles, p) && Distinct(p) && |p| > 0
    requires IsPath(styles, q) && Stops(styles, q) && q[0] == p[0]
    ensures |p| <= |q| && q[..|p|] == p
  {
    if |p| > 1 {
      var n := |p| - 1;
      var p' := p[..n];
      assert IsPath(styles, p') && Distinct(p');
      PathPrefix(styles, p', q);
      assert Links(styles, p[n - 1], p[n]);
      assert |q| > n;
      assert Links(styles, q[n - 1], q[n]);
      assert q[n - 1] == p[n - 1];
      assert q[..|p|] == q[..n] + [q[n]];
    }
  }

  /** A path that enters a stopped chain never leaves it. */
  lemma {:induction false} PathStaysInChain(styles: StyleMap, c: seq<string>, q: seq<string>)
    requires IsPath(styles, c) && Stops(styles, c)
    requires IsPath(styles, q) && |q| > 0 && q[0] in c
    ensures forall y :: y in q ==> y in c
  {
    if |q| > 1 {
      var n := |q| - 1;
      var q' := q[..n];
      assert IsPath(styles, q');
      PathStaysInChain(styles, c, q');
      assert q[n - 1] in q';
      var m :| 0 <= m < |c| && c[m] == q[n - 1];
      assert Links(styles, q[n - 1], q[n]);
      if m < |c| - 1 {
        assert Links(styles, c[m], c[m + 1]);
      }
      assert q == q' + [q[n]];
    }
  }

  /** The chain depends only on the parent links. */
  lemma SameLinksSameChain(a: StyleMap, b: StyleMap, id: string)
    requires a.Keys == b.Keys
    requires forall x :: x in a ==> a[x].basedOn == b[x].basedOn
    ensures Chain(a, id) == Chain(b, id)
  {
    var ca, cb := Chain(a, id), Chain(b, id);
    assert forall k :: 0 <= k < |cb| - 1 ==> Links(a, cb[k], cb[k + 1]) by {
      forall k | 0 <= k < |cb| - 1 ensures Links(a, cb[k], cb[k + 1]) {
        assert Links(b, cb[k], cb[k + 1]);
      }
    }
    PathPrefix(a, cb, ca);
    assert forall k :: 0 <= k < |ca| - 1 ==> Links(b, ca[k], ca[k + 1]) by {
      forall k | 0 <= k < |ca| - 1 ensures Links(b, ca[k], ca[k + 1]) {
        assert Links(a, ca[k], ca[k + 1]);
      }
    }
    PathPrefix(b, ca, cb);
  }

  // ---------------------------------------------------------------------------
  // The nearest setting on a chain
  // ---------------------------------------------------------------------------

  /** The value of the first style on `chain` that sets the property `get`. */
  function NearestOf<T>(styles: StyleMap, chain: seq<string>, get: ParagraphStyle -> Option<T>): Option<T> {
    if |chain| == 0 then None
    else if chain[0] in styles && get(styles[chain[0]]).Some? then get(styles[chain[0]])
    else NearestOf(styles, chain[1..], get)
  }

  /** The property is unset on every style of `chain`. */
  predicate NoneOn<T>(styles: StyleMap, chain: seq<string>, get: ParagraphStyle -> Option<T>) {
    forall k :: 0 <= k < |chain| ==> chain[k] !in styles || get(styles[chain[k]]).None?
  }

  lemma {:induction false} NearestOfNone<T>(styles: StyleMap, chain: seq<string>, get: ParagraphStyle -> Option<T>)
    ensures NearestOf(styles, chain, get).None? <==> NoneOn(styles, chain, get)
  {
    if |chain| > 0 {
      NearestOfNone(styles, chain[1..], get);
      assert forall k :: 1 <= k < |chain| ==> chain[k] == chain[1..][k - 1];
    }
  }

  lemma {:induction false} NearestOfAppend<T>(styles: StyleMap, a: seq<string>, b: seq<string>,
                                              get: ParagraphStyle -> Option<T>)
    ensures NearestOf(styles, a + b, get)
            == if NearestOf(styles, a, get).Some? then NearestOf(styles, a, get) else NearestOf(styles, b, get)
  {
    if |a| > 0 {
      assert (a + b)[0] == a[0] && (a + b)[1..] == a[1..] + b;
      NearestOfAppend(styles, a[1..], b, get);
    } else {
      assert a + b == b;
    }
  }

  /** Names of the eight inheritable properties, as projections. */
  function FontNameOf(s: ParagraphStyle): Option<string> { s.fontName }
  function FontSizeOf(s: ParagraphStyle): Option<real> { s.fontSize }
  function BoldOf(s: ParagraphStyle): Option<bool> { s.bold }
  function ItalicOf(s: ParagraphStyle): Option<bool> { s.italic }
  function ColorOf(s: ParagraphStyle): Option<Rgb> { s.color }
  function AlignmentOf(s: ParagraphStyle): Option<Alignment> { s.alignment }
  function SpaceAfterOf(s: ParagraphStyle): Option<real> { s.spaceAfter }
  function LineSpacingOf(s: ParagraphStyle): Option<real> { s.lineSpacing }

  // ---------------------------------------------------------------------------
  // Collecting and filling
  // ---------------------------------------------------------------------------

  /** The eight `inherited_*` accumulators. */
  datatype Inherited = Inherited(
    fontName: Option<string>,
    fontSize: Option<real>,
    bold: Option<bool>,
    italic: Option<bool>,
    color: Option<Rgb>,
    alignment: Option<Alignment>,
    spaceAfter: Option<real>,
    lineSpacing: Option<real>)

  /** `r` is the style's own value when it sets one, and `fallback` otherwise. */
  predicate Prefers<T(==)>(r: Option<T>, own: Option<T>, fallback: Option<T>) {
    (own.Some? ==> r == own) && (own.None? ==> r == fallback)
  }

  /** The style's own value when it sets one, else the fallback. */
  function Pick<T(==)>(own: Option<T>, fallback: Option<T>): (r: Option<T>)
    ensures Prefers(r, own, fallback)
  {
    if own.Some? then own else fallback
  }

  /** The eight inheritable properties of a style, as accumulators. */
  function InheritableOf(s: ParagraphStyle): Inherited {
    Inherited(s.fontName, s.fontSize, s.bold, s.italic, s.color, s.alignment, s.spaceAfter, s.lineSpacing)
  }

  /** Each property of `r` is the one `s` sets, or the one in `fallback` where `s` sets none. */
  predicate Layered(r: Inherited, s: ParagraphStyle, fallback: Inherited) {
    && Prefers(r.fontName, s.fontName, fallback.fontName)
    && Prefers(r.fontSize, s.fontSize, fallback.fontSize)
    && Prefers(r.bold, s.bold, fallback.bold)
    && Prefers(r.italic, s.italic, fallback.italic)
    && Prefers(r.color, s.color, fallback.color)
    && Prefers(r.alignment, s.alignment, fallback.alignment)
    && Prefers(r.spaceAfter, s.spaceAfter, fallback.spaceAfter)
    && Prefers(r.lineSpacing, s.lineSpacing, fallback.lineSpacing)
  }

  /**
   * One step of the accumulation loop: every property the style `id` sets
   * replaces the accumulated one; the others, and everything when `id` is not
   * a style, stay as they were.
   */
  function Override(acc: Inherited, styles: StyleMap, id: string): (r: Inherited)
    ensures id !in styles ==> r == acc
    ensures id in styles ==> Layered(r, styles[id], acc)
  {
    if id !in styles then acc
    else
      var s := styles[id];
      Inherited(
        Pick(s.fontName, acc.fontName),
        Pick(s.fontSize, acc.fontSize),
        Pick(s.bold, acc.bold),
        Pick(s.italic, acc.italic),
        Pick(s.color, acc.color),
        Pick(s.alignment, acc.alignment),
        Pick(s.spaceAfter, acc.spaceAfter),
        Pick(s.lineSpacing, acc.lineSpacing))
  }

  /**
   * The accumulation loop, which visits the chain from its far end back to
   * the style itself; visiting in reverse is folding from the right.
   */
  function Collect(styles: StyleMap, chain: seq<string>): (acc: Inherited)
    ensures acc.fontName == NearestOf(styles, chain, FontNameOf)
    ensures acc.fontSize == NearestOf(styles, chain, FontSizeOf)
    ensures acc.bold == NearestOf(styles, chain, BoldOf)
    ensures acc.italic == NearestOf(styles, chain, ItalicOf)
    ensures acc.color == NearestOf(styles, chain, ColorOf)
    ensures acc.alignment == NearestOf(styles, chain, AlignmentOf)
    ensures acc.spaceAfter == NearestOf(styles, chain, SpaceAfterOf)
    ensures acc.lineSpacing == NearestOf(styles, chain, LineSpacingOf)
  {
    if |chain| == 0 then Inherited(None, None, None, None, None, None, None, None)
    else Override(Collect(styles, chain[1..]), styles, chain[0])
  }

  /**
   * The final update: each inheritable property the style leaves unset takes
   * the accumulated value; set ones and the six other fields are kept.
   */
  function Fill(s: ParagraphStyle, inh: Inherited): (r: ParagraphStyle)
    ensures Layered(InheritableOf(r), s, inh)
    ensures && r.spaceBefore == s.spaceBefore && r.contextualSpacing == s.contextualSpacing
            && r.keepNext == s.keepNext && r.borderBottomExtra == s.borderBottomExtra
            && r.borderBottom == s.borderBottom && r.basedOn == s.basedOn
  {
    s.(fontName := Pick(s.fontName, inh.fontName),
       fontSize := Pick(s.fontSize, inh.fontSize),
       bold := Pick(s.bold, inh.bold),
       italic := Pick(s.italic, inh.italic),
       color := Pick(s.color, inh.color),
       alignment := Pick(s.alignment, inh.alignment),
       spaceAfter := Pick(s.spaceAfter, inh.spaceAfter),
       lineSpacing := Pick(s.lineSpacing, inh.lineSpacing))
  }

  /** Filling twice from the same accumulators changes nothing more. */
  lemma FillIdempotent(s: ParagraphStyle, inh: Inherited)
    ensures Fill(Fill(s, inh), inh) == Fill(s, inh)
  {
  }

  /**
   * Style `id` resolved against the original styles. A property the style
   * sets keeps its value; an unset one takes the nearest setting on the chain
   * or stays unset; the other six fields are untouched.
   */
  function Resolved(styles: StyleMap, id: string): (r: ParagraphStyle)
    requires id in styles
    ensures var s, c := styles[id], Chain(styles, id);
            && r.fontName == NearestOf(styles, c, FontNameOf)
            && r.fontSize == NearestOf(styles, c, FontSizeOf)
            && r.bold == NearestOf(styles, c, BoldOf)
            && r.italic == NearestOf(styles, c, ItalicOf)
            && r.color == NearestOf(styles, c, ColorOf)
            && r.alignment == NearestOf(styles, c, AlignmentOf)
            && r.spaceAfter == NearestOf(styles, c, SpaceAfterOf)
            && r.lineSpacing == NearestOf(styles, c, LineSpacingOf)
    ensures var s := styles[id];
            && (s.fontName.Some? ==> r.fontName == s.fontName)
            && (s.fontSize.Some? ==> r.fontSize == s.fontSize)
            && (s.bold.Some? ==> r.bold == s.bold)
            && (s.italic.Some? ==> r.italic == s.italic)
            && (s.color.Some? ==> r.color == s.color)
            && (s.alignment.Some? ==> r.alignment == s.alignment)
            && (s.spaceAfter.Some? ==> r.spaceAfter == s.spaceAfter)
            && (s.lineSpacing.Some? ==> r.lineSpacing == s.lineSpacing)
    ensures var s := styles[id];
            && r.spaceBefore == s.spaceBefore && r.contextualSpacing == s.contextualSpacing
            && r.keepNext == s.keepNext && r.borderBottomExtra == s.borderBottomExtra
            && r.borderBottom == s.borderBottom && r.basedOn == s.basedOn
  {
    Fill(styles[id], Collect(styles, Chain(styles, id)))
  }

  /** Every style resolved against the original map. */
  function ResolveBasedOn(styles: StyleMap): (r: StyleMap)
    ensures r.Keys == styles.Keys
    ensures forall id :: id in styles ==> r[id] == Resolved(styles, id)
  {
    map id | id in styles :: Resolved(styles, id)
  }

  // ---------------------------------------------------------------------------
  // Order independence of the in-place update
  // ---------------------------------------------------------------------------

  /**
   * A partially updated map: same ids, and each style either as it was or
   * already resolved.
   */
  predicate PartlyResolved(orig: StyleMap, cur: StyleMap) {
    && cur.Keys == orig.Keys
    && forall x :: x in orig ==> cur[x] == orig[x] || cur[x] == Resolved(orig, x)
  }

  /**
   * On the chain of `id`, a partly resolved map yields the same nearest
   * setting as the original: a style filled in early carries the value it
   * found further along the same chain.
   */
  lemma {:induction false} NearestStable<T>(orig: StyleMap, cur: StyleMap, get: ParagraphStyle -> Option<T>,
                                            c: seq<string>, i: nat)
    requires IsPath(orig, c) && Distinct(c) && Stops(orig, c)
    requires cur.Keys == orig.Keys
    requires forall y :: y in orig ==> get(cur[y]) == get(orig[y]) || get(cur[y]) == NearestOf(orig, Chain(orig, y), get)
    requires i <= |c| && NoneOn(orig, c[..i], get)
    ensures NearestOf(cur, c[i..], get) == NearestOf(orig, c, get)
    decreases |c| - i
  {
    NearestSkipsUnset(orig, get, c, i);
    if i < |c| {
      var y := c[i];
      assert c[i..][0] == y && c[i..][1..] == c[i + 1..];
      NearestOfCons(cur, c[i..], get);
      NearestOfCons(orig, c[i..], get);
      if y in orig && get(orig[y]).Some? {
        NearestOfChainSetting(orig, get, y);
      } else {
        NoneOnExtend(orig, get, c, i);
        NearestStable(orig, cur, get, c, i + 1);
        if y in orig && get(cur[y]).Some? {
          NearestFromInside(orig, get, c, i);
        }
      }
    }
  }

  /** Leading ids that set nothing do not affect the nearest setting. */
  lemma NearestSkipsUnset<T>(styles: StyleMap, get: ParagraphStyle -> Option<T>, c: seq<string>, i: nat)
    requires i <= |c| && NoneOn(styles, c[..i], get)
    ensures NearestOf(styles, c[i..], get) == NearestOf(styles, c, get)
  {
    assert c == c[..i] + c[i..];
    NearestOfAppend(styles, c[..i], c[i..], get);
    NearestOfNone(styles, c[..i], get);
  }

  /** One step of the search: the first id's own setting, else the rest. */
  lemma NearestOfCons<T>(styles: StyleMap, s: seq<string>, get: ParagraphStyle -> Option<T>)
    requires |s| > 0
    ensures NearestOf(styles, s, get)
            == if s[0] in styles && get(styles[s[0]]).Some? then get(styles[s[0]]) else NearestOf(styles, s[1..], get)
  {
  }

  /** A style that sets the property finds its own value first. */
  lemma NearestOfChainSetting<T>(styles: StyleMap, get: ParagraphStyle -> Option<T>, y: string)
    requires y in styles && get(styles[y]).Some?
    ensures NearestOf(styles, Chain(styles, y), get) == get(styles[y])
  {
    assert Chain(styles, y)[0] == y;
  }

  /** An id that sets nothing extends a prefix that sets nothing. */
  lemma NoneOnExtend<T>(styles: StyleMap, get: ParagraphStyle -> Option<T>, c: seq<string>, i: nat)
    requires i < |c| && NoneOn(styles, c[..i], get)
    requires c[i] !in styles || get(styles[c[i]]).None?
    ensures NoneOn(styles, c[..i + 1], get)
  {
    assert c[..i + 1] == c[..i] + [c[i]];
  }

  /**
   * From inside a chain whose beginning sets nothing, the chain of an
   * interior style finds the same nearest setting as the whole chain.
   */
  lemma NearestFromInside<T>(orig: StyleMap, get: ParagraphStyle -> Option<T>, c: seq<string>, i: nat)
    requires IsPath(orig, c) && Distinct(c) && Stops(orig, c)
    requires i < |c| && NoneOn(orig, c[..i], get)
    ensures NearestOf(orig, Chain(orig, c[i]), get) == NearestOf(orig, c, get)
  {
    ChainFromInside(orig, c, i);
    var q := Chain(orig, c[i]);
    NearestAfterUnset(orig, get, c, i, q[|c| - i..]);
  }

  /** The chain of an interior style runs to the end of `c` and then stays inside `c`. */
  lemma ChainFromInside(styles: StyleMap, c: seq<string>, i: nat)
    requires IsPath(styles, c) && Distinct(c) && Stops(styles, c) && i < |c|
    ensures var q := Chain(styles, c[i]);
            && |c| - i <= |q| && q == c[i..] + q[|c| - i..]
            && forall y :: y in q[|c| - i..] ==> y in c
  {
    var tail := c[i..];
    TailIsPath(styles, c, i);
    var q := Chain(styles, c[i]);
    PathPrefix(styles, tail, q);
    PathStaysInChain(styles, c, q);
    assert q == tail + q[|tail|..];
  }

  /**
   * When the first `i` ids of `c` set nothing, following the rest of `c` by
   * more ids of `c` finds the same nearest setting as `c`.
   */
  lemma NearestAfterUnset<T>(styles: StyleMap, get: ParagraphStyle -> Option<T>, c: seq<string>, i: nat,
                             rest: seq<string>)
    requires i <= |c| && NoneOn(styles, c[..i], get)
    requires forall y :: y in rest ==> y in c
    ensures NearestOf(styles, c[i..] + rest, get) == NearestOf(styles, c, get)
  {
    var tail := c[i..];
    NearestOfAppend(styles, tail, rest, get);
    assert c == c[..i] + tail;
    NearestOfAppend(styles, c[..i], tail, get);
    NearestOfNone(styles, c[..i], get);
    if NearestOf(styles, tail, get).None? {
      NearestOfNone(styles, c, get);
      NoneOnInside(styles, get, c, rest);
      NearestOfNone(styles, rest, get);
    }
  }

  /** A suffix of a distinct path is a distinct path. */
  lemma TailIsPath(styles: StyleMap, c: seq<string>, i: nat)
    requires IsPath(styles, c) && Distinct(c) && i < |c|
    ensures IsPath(styles, c[i..]) && Distinct(c[i..]) && c[i..][0] == c[i]
  {
    var tail := c[i..];
    forall k | 0 <= k < |tail| - 1 ensures Links(styles, tail[k], tail[k + 1]) {
      assert Links(styles, c[i + k], c[i + k + 1]);
    }
  }

  /** Ids drawn from a chain that sets nothing set nothing either. */
  lemma NoneOnInside<T>(styles: StyleMap, get: ParagraphStyle -> Option<T>, c: seq<string>, rest: seq<string>)
    requires NoneOn(styles, c, get)
    requires forall y :: y in rest ==> y in c
    ensures NoneOn(styles, rest, get)
  {
    forall k | 0 <= k < |rest| ensures rest[k] !in styles || get(styles[rest[k]]).None? {
      assert rest[k] in c;
    }
  }

  /**
   * Processing `id` in a partly resolved map gives the same style as
   * resolving it against the original.
   */
  lemma StepResolves(orig: StyleMap, cur: StyleMap, id: string)
    requires id in orig && PartlyResolved(orig, cur)
    ensures Fill(cur[id], Collect(cur, Chain(cur, id))) == Resolved(orig, id)
  {
    SameLinksSameChain(cur, orig, id);
    CollectStable(orig, cur, id);
    FillIdempotent(orig[id], Collect(orig, Chain(orig, id)));
  }

  /** Collecting along a chain reads the same values from a partly resolved map. */
  lemma CollectStable(orig: StyleMap, cur: StyleMap, id: string)
    requires id in orig && PartlyResolved(orig, cur)
    ensures Collect(cur, Chain(orig, id)) == Collect(orig, Chain(orig, id))
  {
    FieldStable(orig, cur, FontNameOf, id);
    FieldStable(orig, cur, FontSizeOf, id);
    FieldStable(orig, cur, BoldOf, id);
    FieldStable(orig, cur, ItalicOf, id);
    FieldStable(orig, cur, ColorOf, id);
    FieldStable(orig, cur, AlignmentOf, id);
    FieldStable(orig, cur, SpaceAfterOf, id);
    FieldStable(orig, cur, LineSpacingOf, id);
  }

  lemma FieldStable<T>(orig: StyleMap, cur: StyleMap, get: ParagraphStyle -> Option<T>, id: string)
    requires id in orig && PartlyResolved(orig, cur)
    requires forall x :: x in orig ==> get(Resolved(orig, x)) == NearestOf(orig, Chain(orig, x), get)
    ensures NearestOf(cur, Chain(orig, id), get) == NearestOf(orig, Chain(orig, id), get)
  {
    var c := Chain(orig, id);
    assert c[0..] == c && c[..0] == [];
    NearestStable(orig, cur, get, c, 0);
  }

  /**
   * `resolve_based_on` as written: the styles are processed one at a time, in
   * the order `ids` lists them (the map's iteration order), each reading the
   * map as updated so far. Whatever that order, the result is `ResolveBasedOn`.
   */
  method ResolveInPlace(styles: StyleMap, ids: seq<string>) returns (r: StyleMap)
    requires forall id :: id in ids <==> id in styles
    ensures r == ResolveBasedOn(styles)
  {
    r := styles;
    var i := 0;
    while i < |ids|
      invariant 0 <= i <= |ids|
      invariant PartlyResolved(styles, r)
      invariant forall x :: x in ids[..i] ==> r[x] == Resolved(styles, x)
    {
      var id := ids[i];
      var chain := Chain(r, id);
      var inherited := Collect(r, chain);
      ResolveStep(styles, r, ids, i);
      r := r[id := Fill(r[id], inherited)];
      i := i + 1;
    }
    assert ids[..i] == ids;
    AllResolved(styles, r, ids);
  }

  /** One pass of the loop resolves `ids[i]` and keeps the map partly resolved. */
  lemma ResolveStep(orig: StyleMap, cur: StyleMap, ids: seq<string>, i: nat)
    requires i < |ids| && forall x :: x in ids ==> x in orig
    requires PartlyResolved(orig, cur)
    requires forall x :: x in ids[..i] ==> cur[x] == Resolved(orig, x)
    ensures var id := ids[i];
            var next := cur[id := Fill(cur[id], Collect(cur, Chain(cur, id)))];
            && PartlyResolved(orig, next)
            && forall x :: x in ids[..i + 1] ==> next[x] == Resolved(orig, x)
  {
    var id := ids[i];
    StepResolves(orig, cur, id);
    StepKeepsPartlyResolved(orig, cur, id);
    assert ids[..i + 1] == ids[..i] + [id];
  }

  /** Replacing one style by its resolution keeps a map partly resolved. */
  lemma StepKeepsPartlyResolved(orig: StyleMap, cur: StyleMap, id: string)
    requires id in orig && PartlyResolved(orig, cur)
    ensures PartlyResolved(orig, cur[id := Resolved(orig, id)])
  {
  }

  /** A map with the original ids in which every listed id is resolved is the resolved map. */
  lemma AllResolved(orig: StyleMap, r: StyleMap, ids: seq<string>)
    requires r.Keys == orig.Keys
    requires forall id :: id in ids <==> id in orig
    requires forall x :: x in ids ==> r[x] == Resolved(orig, x)
    ensures r == ResolveBasedOn(orig)
  {
    SameMaps(r, ResolveBasedOn(orig));
  }

  /** Resolving an already resolved map changes nothing. */
  lemma ResolveBasedOnIdempotent(styles: StyleMap)
    ensures ResolveBasedOn(ResolveBasedOn(styles)) == ResolveBasedOn(styles)
  {
    var r := ResolveBasedOn(styles);
    var twice := ResolveBasedOn(r);
    forall id | id in r ensures twice[id] == r[id] {
      ResolvedStyleIsFixed(styles, id);
    }
    SameMaps(twice, r);
  }

  /** Maps with the same keys and the same value at each key are equal. */
  lemma SameMaps<K, V>(a: map<K, V>, b: map<K, V>)
    requires a.Keys == b.Keys
    requires forall k :: k in a ==> a[k] == b[k]
    ensures a == b
  {
  }

  /** A style of the resolved map resolves to itself. */
  lemma ResolvedStyleIsFixed(styles: StyleMap, id: string)
    requires id in styles
    ensures Resolved(ResolveBasedOn(styles), id) == ResolveBasedOn(styles)[id]
  {
    var r := ResolveBasedOn(styles);
    assert PartlyResolved(styles, r);
    StepResolves(styles, r, id);
    assert Fill(r[id], Collect(r, Chain(r, id))) == Resolved(r, id);
  }
}
