/**
 * String helpers that stand in for the Rust standard-library calls the
 * document and font code relies on: `to_lowercase`, `trim`, `split(..).next()`,
 * `char::to_digit`, `u8::from_str_radix`, `u32::to_string` and `str::replace`.
 */
module Text {
  import opened Base

  // ---------------------------------------------------------------------------
  // Character classes
  // ---------------------------------------------------------------------------

  predicate IsAsciiHexDigit(c: char) {
    '0' <= c <= '9' || 'a' <= c <= 'f' || 'A' <= c <= 'F'
  }

  predicate IsAscii(s: string) {
    forall i :: 0 <= i < |s| ==> s[i] as int < 128
  }

  /** Rust's `char::is_whitespace`: the Unicode White_Space property. */
  predicate IsWhitespace(c: char) {
    || '\t' <= c <= '\r'
    || c == ' '
    || c == '\U{0085}'
    || c == '\U{00A0}'
    || c == '\U{1680}'
    || '\U{2000}' <= c <= '\U{200A}'
    || c == '\U{2028}'
    || c == '\U{2029}'
    || c == '\U{202F}'
    || c == '\U{205F}'
    || c == '\U{3000}'
  }

  /** ASCII lower-casing of one character. */
  function LowerChar(c: char): char {
    if 'A' <= c <= 'Z' then (c as int + 32) as char else c
  }

  /** `str::to_lowercase`, restricted to the ASCII letters. */
  function ToLower(s: string): (r: string)
    ensures |r| == |s|
    ensures forall i :: 0 <= i < |s| ==> r[i] == LowerChar(s[i])
  {
    seq(|s|, i requires 0 <= i < |s| => LowerChar(s[i]))
  }

  lemma ToLowerIdempotent(s: string)
    ensures ToLower(ToLower(s)) == ToLower(s)
  {
  }

  // ---------------------------------------------------------------------------
  // Trimming and splitting
  // ---------------------------------------------------------------------------

  /** `str::trim_start`: drops leading white space. */
  function TrimStart(s: string): (r: string)
    ensures |r| <= |s| && r == s[|s| - |r|..]
    ensures |r| == 0 || !IsWhitespace(r[0])
    ensures forall i :: 0 <= i < |s| - |r| ==> IsWhitespace(s[i])
  {
    if |s| > 0 && IsWhitespace(s[0]) then TrimStart(s[1..]) else s
  }

  /** `str::trim_end`: drops trailing white space. */
  function TrimEnd(s: string): (r: string)
    ensures |r| <= |s| && r == s[..|r|]
    ensures |r| == 0 || !IsWhitespace(r[|r| - 1])
    ensures forall i :: |r| <= i < |s| ==> IsWhitespace(s[i])
  {
    if |s| > 0 && IsWhitespace(s[|s| - 1]) then TrimEnd(s[..|s| - 1]) else s
  }

  /** `str::trim`: white space removed from both ends. */
  function Trim(s: string): string {
    TrimEnd(TrimStart(s))
  }

  /** Trimming only removes characters: one absent from `s` is absent from the result. */
  lemma TrimKeeps(s: string, c: char)
    requires c !in s
    ensures c !in Trim(s)
  {
    var t := TrimStart(s);
    var u := TrimEnd(t);
    forall k | 0 <= k < |u| ensures u[k] != c {
      assert u[k] == t[k] == s[|s| - |t| + k];
    }
  }

  /** A trimmed string neither starts nor ends with white space. */
  lemma TrimEnds(s: string)
    ensures |Trim(s)| == 0 || (!IsWhitespace(Trim(s)[0]) && !IsWhitespace(Trim(s)[|Trim(s)| - 1]))
  {
    var t := TrimStart(s);
    var u := TrimEnd(t);
    if |u| > 0 {
      assert u[0] == t[0];
    }
  }

  /** Trimming a string that has no white space at either end changes nothing. */
  lemma TrimIdentity(s: string)
    requires |s| == 0 || (!IsWhitespace(s[0]) && !IsWhitespace(s[|s| - 1]))
    ensures Trim(s) == s
  {
  }

  /** The first item of `s.split(sep)`: everything before the first `sep`. */
  function FirstField(s: string, sep: char): (r: string)
    ensures |r| <= |s| && r == s[..|r|]
    ensures sep !in r
    ensures |r| < |s| ==> s[|r|] == sep
  {
    if |s| == 0 || s[0] == sep then "" else [s[0]] + FirstField(s[1..], sep)
  }

  /** A field followed by the separator (or by nothing) is split off exactly. */
  lemma {:induction false} FirstFieldOfJoin(a: string, sep: char, rest: string)
    requires sep !in a
    requires |rest| == 0 || rest[0] == sep
    ensures FirstField(a + rest, sep) == a
  {
    if |a| == 0 {
      assert a + rest == rest;
    } else {
      assert (a + rest)[0] == a[0];
      assert (a + rest)[1..] == a[1..] + rest;
      FirstFieldOfJoin(a[1..], sep, rest);
    }
  }

  /** A string without the separator is a single field. */
  lemma FirstFieldWithoutSeparator(s: string, sep: char)
    ensures sep !in s ==> FirstField(s, sep) == s
  {
    if sep !in s {
      FirstFieldOfJoin(s, sep, []);
      assert s + [] == s;
    }
  }

  // ---------------------------------------------------------------------------
  // Numbers
  // ---------------------------------------------------------------------------

  /** `char::to_digit(radix)`. */
  function ToDigit(c: char, radix: nat): (r: Option<nat>)
    requires 2 <= radix <= 36
    ensures r.Some? ==> r.value < radix
    ensures radix == 16 ==> (r.Some? <==> IsAsciiHexDigit(c))
    ensures radix == 10 ==> (r.Some? <==> '0' <= c <= '9')
  {
    var d := if '0' <= c <= '9' then c as int - '0' as int
             else if 'a' <= c <= 'z' then c as int - 'a' as int + 10
             else if 'A' <= c <= 'Z' then c as int - 'A' as int + 10
             else 36;
    if d < radix then Some(d) else None
  }

  /** Value of a digit string in `radix`, or None when some character is not a digit. */
  function DigitsValue(s: string, radix: nat): (r: Option<nat>)
    requires 2 <= radix <= 36
  {
    if |s| == 0 then Some(0)
    else
      match (DigitsValue(s[..|s| - 1], radix), ToDigit(s[|s| - 1], radix))
      case (Some(v), Some(d)) => Some(v * radix + d)
      case _ => None
  }

  /** A digit string has a value only when every character is a digit. */
  lemma {:induction false} DigitsValueOnlyDigits(s: string, radix: nat)
    requires 2 <= radix <= 36
    requires DigitsValue(s, radix).Some?
    ensures forall i :: 0 <= i < |s| ==> ToDigit(s[i], radix).Some?
  {
    if |s| > 0 {
      DigitsValueOnlyDigits(s[..|s| - 1], radix);
      assert forall i :: 0 <= i < |s| - 1 ==> s[i] == s[..|s| - 1][i];
    }
  }

  /**
   * `u8::from_str_radix`, with the value as a number: an optional leading '+',
   * then at least one digit, with a value below 256.
   */
  function ParseU8(s: string, radix: nat): (r: Option<nat>)
    requires 2 <= radix <= 36
    ensures r.Some? ==> r.value < 256 && |s| > 0 && (s[0] == '+' ==> |s| > 1)
  {
    var digits := if |s| > 0 && s[0] == '+' then s[1..] else s;
    if |digits| == 0 then None
    else
      match DigitsValue(digits, radix)
      case Some(v) => if v < 256 then Some(v) else None
      case None => None
  }

  /** `u8::from_str_radix`, with the value as a byte. */
  function ParseByte(s: string, radix: nat): (r: Option<Byte>)
    requires 2 <= radix <= 36
    ensures r.Some? ==> |s| > 0 && (s[0] == '+' ==> |s| > 1)
  {
    match ParseU8(s, radix)
    case Some(v) => Some(v as Byte)
    case None => None
  }

  function DigitChar(d: nat): (c: char)
    requires d < 10
    ensures '0' <= c <= '9'
  {
    ('0' as int + d) as char
  }

  /** `u32::to_string`: decimal digits without leading zeros. */
  function NatToString(n: nat): (s: string)
    ensures |s| >= 1
    ensures forall i :: 0 <= i < |s| ==> '0' <= s[i] <= '9'
    ensures s[0] == '0' ==> n == 0
  {
    if n < 10 then [DigitChar(n)] else NatToString(n / 10) + [DigitChar(n % 10)]
  }

  /** Decimal formatting and digit parsing are inverse. */
  lemma {:induction false} NatToStringRoundTrip(n: nat)
    ensures DigitsValue(NatToString(n), 10) == Some(n)
  {
    var s := NatToString(n);
    if n >= 10 {
      NatToStringRoundTrip(n / 10);
      assert s[..|s| - 1] == NatToString(n / 10);
    }
  }

  /** A byte written in decimal parses back with `u8::from_str`. */
  lemma ParseU8OfDecimal(n: nat)
    requires n < 256
    ensures ParseU8(NatToString(n), 10) == Some(n)
  {
    NatToStringRoundTrip(n);
  }

  /** Upper-case hexadecimal digit. */
  function HexChar(d: nat): (c: char)
    requires d < 16
    ensures IsAsciiHexDigit(c)
  {
    if d < 10 then DigitChar(d) else ('A' as int + d - 10) as char
  }

  /** Value of a hexadecimal digit of either case. */
  function HexDigitValue(c: char): (d: nat)
    requires IsAsciiHexDigit(c)
    ensures d < 16
  {
    ToDigit(c, 16).value
  }

  /** The byte two hexadecimal digits spell, high digit first. */
  function HexPair(hi: char, lo: char): Byte
    requires IsAsciiHexDigit(hi) && IsAsciiHexDigit(lo)
  {
    (HexDigitValue(hi) * 16 + HexDigitValue(lo)) as Byte
  }

  /** `u8::from_str_radix(_, 16)` on two hexadecimal digits yields the byte they spell. */
  lemma ParseHexPair(hi: char, lo: char)
    requires IsAsciiHexDigit(hi) && IsAsciiHexDigit(lo)
    ensures ParseByte([hi, lo], 16) == Some(HexPair(hi, lo))
  {
    var s := [hi, lo];
    assert s[..1][..0] == [];
    assert s[..1] == [hi];
    assert DigitsValue(s[..1], 16) == Some(HexDigitValue(hi));
  }

  /** Two hexadecimal digits written for a byte parse back to that byte. */
  lemma ParseByteOfHex(b: Byte)
    ensures ParseByte([HexChar(b as int / 16), HexChar(b as int % 16)], 16) == Some(b)
  {
    ParseHexPair(HexChar(b as int / 16), HexChar(b as int % 16));
    HexPairOfHexChars(b);
  }

  /** The two digits written for a byte spell that byte. */
  lemma HexPairOfHexChars(b: Byte)
    ensures HexPair(HexChar(b as int / 16), HexChar(b as int % 16)) == b
  {
    HexCharDigit(b as int / 16);
    HexCharDigit(b as int % 16);
    var n := b as int;
    assert (n / 16) * 16 + n % 16 == n;
    assert HexPair(HexChar(n / 16), HexChar(n % 16)) == n as Byte;
  }

  lemma HexCharDigit(d: nat)
    requires d < 16
    ensures ToDigit(HexChar(d), 16) == Some(d)
  {
  }

  // ---------------------------------------------------------------------------
  // Search and replace
  // ---------------------------------------------------------------------------

  predicate OccursAt(s: string, pat: string, j: nat) {
    j + |pat| <= |s| && s[j..j + |pat|] == pat
  }

  /** Index of the first occurrence of `pat` in `s` at or after `from`. */
  function IndexFrom(s: string, pat: string, from: nat): (r: Option<nat>)
    requires from <= |s|
    decreases |s| - from
    ensures r.Some? ==> from <= r.value && OccursAt(s, pat, r.value)
    ensures r.Some? ==> forall j :: from <= j < r.value ==> !OccursAt(s, pat, j)
    ensures r.None? ==> forall j :: from <= j <= |s| ==> !OccursAt(s, pat, j)
  {
    if OccursAt(s, pat, from) then Some(from)
    else if from == |s| then None
    else IndexFrom(s, pat, from + 1)
  }

  /**
   * `str::replace`: every non-overlapping occurrence of `pat`, found from the
   * left, is replaced by `rep`.
   */
  function ReplaceAll(s: string, pat: string, rep: string): (r: string)
    requires |pat| > 0
    decreases |s|
    ensures (forall j :: 0 <= j <= |s| ==> !OccursAt(s, pat, j)) ==> r == s
  {
    match IndexFrom(s, pat, 0)
    case None => s
    case Some(i) => s[..i] + rep + ReplaceAll(s[i + |pat|..], pat, rep)
  }

  /**
   * When the first character of `pat` appears nowhere in `a` or `b`, the only
   * occurrence in `a + pat + b` is the middle one, and only it is replaced.
   */
  lemma ReplaceSingle(a: string, pat: string, b: string, rep: string)
    requires |pat| > 0 && pat[0] !in a && pat[0] !in b
    ensures ReplaceAll(a + pat + b, pat, rep) == a + rep + b
  {
    var s := a + pat + b;
    assert s[|a|..|a| + |pat|] == pat;
    NoneBefore(a, pat, b);
    FirstOccurrence(s, pat, |a|);
    assert s[..|a|] == a && s[|a| + |pat|..] == b;
    ReplaceAllAbsent(b, pat, rep);
  }

  /** No occurrence of `pat` in `a + pat + b` starts inside `a`. */
  lemma NoneBefore(a: string, pat: string, b: string)
    requires |pat| > 0 && pat[0] !in a
    ensures forall j :: 0 <= j < |a| ==> !OccursAt(a + pat + b, pat, j)
  {
    var s := a + pat + b;
    forall j | 0 <= j < |a| ensures !OccursAt(s, pat, j) {
      assert s[j] == a[j];
      NotOccursAt(s, pat, j);
    }
  }

  /** An occurrence with none before it is the one the search finds. */
  lemma FirstOccurrence(s: string, pat: string, k: nat)
    requires OccursAt(s, pat, k)
    requires forall j :: 0 <= j < k ==> !OccursAt(s, pat, j)
    ensures IndexFrom(s, pat, 0) == Some(k)
  {
    var r := IndexFrom(s, pat, 0);
    assert r.Some?;
    assert r.value >= k;
  }

  /** A pattern whose first character never appears in `s` leaves it unchanged. */
  lemma ReplaceAllAbsent(s: string, pat: string, rep: string)
    requires |pat| > 0
    ensures pat[0] !in s ==> ReplaceAll(s, pat, rep) == s
  {
    if pat[0] !in s {
      forall j | 0 <= j <= |s| ensures !OccursAt(s, pat, j) {
        if j < |s| {
          NotOccursAt(s, pat, j);
        }
      }
    }
  }

  /**
   * When no occurrence of `pat` starts inside `a`, and `pat` cannot overlap
   * itself because its first character does not recur in it, replacing in
   * `a + pat + b` keeps `a`, replaces the middle and goes on with `b`.
   */
  lemma ReplaceAfterFirst(a: string, pat: string, b: string, rep: string)
    requires |pat| > 0 && pat[0] !in pat[1..]
    requires forall j :: 0 <= j <= |a| ==> !OccursAt(a, pat, j)
    ensures ReplaceAll(a + pat + b, pat, rep) == a + rep + ReplaceAll(b, pat, rep)
  {
    var s := a + pat + b;
    assert s[|a|..|a| + |pat|] == pat;
    forall j | 0 <= j < |a| ensures !OccursAt(s, pat, j) {
      if j + |pat| <= |a| {
        assert s[j..j + |pat|] == a[j..j + |pat|];
        assert !OccursAt(a, pat, j);
      } else {
        var k := |a| - j;
        assert 0 < k < |pat| && s[j + k] == pat[0];
        assert pat[k] == pat[1..][k - 1] && pat[1..][k - 1] in pat[1..];
        assert j + |pat| <= |s| ==> s[j..j + |pat|][k] == s[j + k] != pat[k];
      }
    }
    FirstOccurrence(s, pat, |a|);
    assert s[..|a|] == a && s[|a| + |pat|..] == b;
  }

  /** `pat` cannot start where its first character is absent. */
  lemma NotOccursAt(s: string, pat: string, j: nat)
    requires |pat| > 0 && j < |s| && s[j] != pat[0]
    ensures !OccursAt(s, pat, j)
  {
    if j + |pat| <= |s| {
      assert s[j..j + |pat|][0] == s[j];
    }
  }
}
