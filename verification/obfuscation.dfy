/**
 * Embedded-font de-obfuscation (ECMA-376 Part 1, section 17.8.1, "Font
 * Embedding"): a font part stored in a document has its first 32 bytes XORed
 * with a 16-byte key derived from the `w:fontKey` GUID of its font-table entry.
 * `src/docx.rs` derives the key with `parse_guid_to_bytes` and undoes the XOR
 * with `deobfuscate_font`.
 */
module FontObfuscation {
  import opened Base
  import opened Text

  // ---------------------------------------------------------------------------
  // The key
  // ---------------------------------------------------------------------------

  /** The hexadecimal digits of a string, in order; braces, dashes and all else dropped. */
  function HexDigitsOf(s: string): (r: string)
    ensures |r| <= |s|
    ensures forall i :: 0 <= i < |r| ==> IsAsciiHexDigit(r[i])
  {
    if |s| == 0 then []
    else (if IsAsciiHexDigit(s[0]) then [s[0]] else []) + HexDigitsOf(s[1..])
  }

  /**
   * The 16 bytes that 32 hexadecimal digits spell, pair by pair. (The source
   * reads each pair with `u8::from_str_radix`, which cannot fail on two digits;
   * `ParseHexPair` shows it yields `HexPair`.)
   */
  function DigitBytes(hex: string): (r: seq<Byte>)
    requires |hex| == 32 && forall i :: 0 <= i < |hex| ==> IsAsciiHexDigit(hex[i])
    ensures |r| == 16
  {
    seq(16, i requires 0 <= i < 16 => HexPair(hex[2 * i], hex[2 * i + 1]))
  }

  function Reverse<T>(s: seq<T>): (r: seq<T>)
    ensures |r| == |s|
    ensures forall i :: 0 <= i < |s| ==> r[i] == s[|s| - 1 - i]
  {
    seq(|s|, i requires 0 <= i < |s| => s[|s| - 1 - i])
  }

  /**
   * The GUID's in-memory layout: its first three fields (4, 2 and 2 bytes) are
   * little-endian, so their bytes are swapped relative to the string.
   */
  const GuidLayout: seq<nat> := [3, 2, 1, 0, 5, 4, 7, 6, 8, 9, 10, 11, 12, 13, 14, 15]

  /** Key byte k is string byte `KeyOrder[k]`: the GUID layout, reversed. */
  const KeyOrder: seq<nat> := [15, 14, 13, 12, 11, 10, 9, 8, 6, 7, 4, 5, 0, 1, 2, 3]

  /** The key built from the 16 string-order bytes: GUID layout, then reversed. */
  function KeyFromBytes(bytes: seq<Byte>): (key: seq<Byte>)
    requires |bytes| == 16
    ensures |key| == 16
    ensures forall k :: 0 <= k < 16 ==> key[k] == bytes[KeyOrder[k]]
  {
    KeyOrderIsReversedLayout();
    Reverse(seq(16, i requires 0 <= i < 16 => bytes[GuidLayout[i]]))
  }

  lemma KeyOrderIsReversedLayout()
    ensures |GuidLayout| == |KeyOrder| == 16
    ensures forall k :: 0 <= k < 16 ==> KeyOrder[k] == GuidLayout[15 - k] < 16
  {
  }

  /**
   * `parse_guid_to_bytes`: None unless exactly 32 hexadecimal digits remain
   * once everything else is discarded; otherwise the key, a fixed permutation
   * of the 16 bytes the digits spell.
   */
  function ParseGuidToBytes(guid: string): (r: Option<seq<Byte>>)
    ensures r.Some? <==> |HexDigitsOf(guid)| == 32
    ensures r.Some? ==> |r.value| == 16
                        && forall k :: 0 <= k < 16 ==> r.value[k] == DigitBytes(HexDigitsOf(guid))[KeyOrder[k]]
  {
    var hex := HexDigitsOf(guid);
    if |hex| != 32 then None else Some(KeyFromBytes(DigitBytes(hex)))
  }

  /** The key holds each parsed byte exactly once: it is a permutation of them. */
  lemma GuidKeyIsPermutation(guid: string)
    requires |HexDigitsOf(guid)| == 32
    ensures multiset(ParseGuidToBytes(guid).value) == multiset(DigitBytes(HexDigitsOf(guid)))
  {
    KeyIsPermutation(DigitBytes(HexDigitsOf(guid)));
  }

  lemma KeyIsPermutation(b: seq<Byte>)
    requires |b| == 16
    ensures multiset(KeyFromBytes(b)) == multiset(b)
  {
    var swapped := InGuidLayout(b);
    ReverseMultiset(swapped);
    SwappedHalves(b);
    PairMultiset(b[3], b[2]);
    PairMultiset(b[1], b[0]);
    PairMultiset(b[5], b[4]);
    PairMultiset(b[7], b[6]);
  }

  /** The 16 string-order bytes rearranged into the GUID's in-memory layout. */
  function InGuidLayout(bytes: seq<Byte>): (g: seq<Byte>)
    requires |bytes| == 16
    ensures |g| == 16 && Reverse(g) == KeyFromBytes(bytes)
  {
    seq(16, i requires 0 <= i < 16 => bytes[GuidLayout[i]])
  }

  lemma SwappedHalves(b: seq<Byte>)
    requires |b| == 16
    ensures InGuidLayout(b) == [b[3], b[2]] + [b[1], b[0]] + [b[5], b[4]] + [b[7], b[6]] + b[8..]
    ensures b == [b[0], b[1]] + [b[2], b[3]] + [b[4], b[5]] + [b[6], b[7]] + b[8..]
  {
  }

  lemma PairMultiset<T>(x: T, y: T)
    ensures multiset([x, y]) == multiset([y, x])
  {
    assert [x, y] == [x] + [y];
    assert [y, x] == [y] + [x];
  }

  lemma {:induction false} ReverseMultiset<T>(s: seq<T>)
    ensures multiset(Reverse(s)) == multiset(s)
  {
    if |s| > 0 {
      var r := Reverse(s);
      ReverseMultiset(s[1..]);
      assert r == Reverse(s[1..]) + [s[0]];
      assert s == [s[0]] + s[1..];
    }
  }

  /** Only the hexadecimal digits of the GUID text matter. */
  lemma GuidIgnoresPunctuation(guid: string)
    ensures ParseGuidToBytes(HexDigitsOf(guid)) == ParseGuidToBytes(guid)
  {
    HexDigitsOfIdempotent(guid);
  }

  lemma {:induction false} HexDigitsOfIdempotent(s: string)
    ensures HexDigitsOf(HexDigitsOf(s)) == HexDigitsOf(s)
  {
    if |s| > 0 {
      HexDigitsOfIdempotent(s[1..]);
      HexDigitsOfAppend(if IsAsciiHexDigit(s[0]) then [s[0]] else [], HexDigitsOf(s[1..]));
    }
  }

  lemma {:induction false} HexDigitsOfAppend(a: string, b: string)
    ensures HexDigitsOf(a + b) == HexDigitsOf(a) + HexDigitsOf(b)
  {
    if |a| > 0 {
      assert (a + b)[1..] == a[1..] + b;
      HexDigitsOfAppend(a[1..], b);
    } else {
      assert a + b == b;
    }
  }

  /** The 32 upper-case hexadecimal digits of 16 bytes. */
  function HexString(raw: seq<Byte>): (s: string)
    requires |raw| == 16
    ensures |s| == 32 && forall i :: 0 <= i < 32 ==> IsAsciiHexDigit(s[i])
  {
    seq(32, i requires 0 <= i < 32 =>
      if i % 2 == 0 then HexChar(raw[i / 2] as int / 16) else HexChar(raw[i / 2] as int % 16))
  }

  /** Writing 16 bytes as GUID digits and parsing them gives those bytes in key order. */
  lemma GuidRoundTrip(raw: seq<Byte>)
    requires |raw| == 16
    ensures ParseGuidToBytes(HexString(raw)) == Some(KeyFromBytes(raw))
  {
    HexDigitsOfAllDigits(HexString(raw));
    DigitBytesOfHexString(raw);
  }

  /** Reading the digits of `HexString` back pair by pair gives the original bytes. */
  lemma DigitBytesOfHexString(raw: seq<Byte>)
    requires |raw| == 16
    ensures DigitBytes(HexString(raw)) == raw
  {
    var s := HexString(raw);
    forall i | 0 <= i < 16 ensures DigitBytes(s)[i] == raw[i] {
      HexStringAt(raw, i);
      HexPairOfHexChars(raw[i]);
    }
  }

  lemma HexStringAt(raw: seq<Byte>, i: nat)
    requires |raw| == 16 && i < 16
    ensures HexString(raw)[2 * i] == HexChar(raw[i] as int / 16)
    ensures HexString(raw)[2 * i + 1] == HexChar(raw[i] as int % 16)
  {
    assert (2 * i) % 2 == 0 && (2 * i) / 2 == i;
    assert (2 * i + 1) % 2 == 1 && (2 * i + 1) / 2 == i;
  }

  lemma {:induction false} HexDigitsOfAllDigits(s: string)
    requires forall i :: 0 <= i < |s| ==> IsAsciiHexDigit(s[i])
    ensures HexDigitsOf(s) == s
  {
    if |s| > 0 {
      HexDigitsOfAllDigits(s[1..]);
    }
  }

  // ---------------------------------------------------------------------------
  // The XOR
  // ---------------------------------------------------------------------------

  /** The font bytes with the first 32 XORed with the key repeated twice. */
  function Xored(data: seq<Byte>, key: seq<Byte>): (r: seq<Byte>)
    requires |key| == 16
    ensures |r| == |data|
    ensures forall i :: 0 <= i < |r| && i < 32 ==> r[i] ^ key[i % 16] == data[i]
    ensures forall i :: 32 <= i < |r| ==> r[i] == data[i]
  {
    seq(|data|, i requires 0 <= i < |data| => if i < 32 then data[i] ^ key[i % 16] else data[i])
  }

  /**
   * `deobfuscate_font`: two loops, over bytes 0..16 with key[i] and over bytes
   * 16..32 with key[i - 16], each stopping early on a short font.
   */
  method DeobfuscateFont(data: seq<Byte>, key: seq<Byte>) returns (r: seq<Byte>)
    requires |key| == 16
    ensures |r| == |data|
    ensures forall i :: 0 <= i < |data| && i < 32 ==> r[i] == data[i] ^ key[i % 16]
    ensures forall i :: 32 <= i < |data| ==> r[i] == data[i]
    ensures r == Xored(data, key)
  {
    r := data;
    var first := if |data| < 16 then |data| else 16;
    var i := 0;
    while i < first
      invariant 0 <= i <= first
      invariant |r| == |data|
      invariant forall j :: 0 <= j < i ==> r[j] == data[j] ^ key[j]
      invariant forall j :: i <= j < |data| ==> r[j] == data[j]
    {
      r := r[i := r[i] ^ key[i]];
      i := i + 1;
    }
    var second := if |data| < 32 then |data| else 32;
    i := 16;
    while i < second
      invariant 16 <= i && (16 <= second ==> i <= second)
      invariant |r| == |data|
      invariant forall j :: 0 <= j < 16 && j < |data| ==> r[j] == data[j] ^ key[j]
      invariant forall j :: 16 <= j < i && j < |data| ==> r[j] == data[j] ^ key[j - 16]
      invariant forall j :: i <= j < |data| && 16 <= j ==> r[j] == data[j]
    {
      r := r[i := r[i] ^ key[i - 16]];
      i := i + 1;
    }
  }

  /** Applying the XOR twice with the same key restores the font: obfuscation is its own inverse. */
  lemma XoredInvolution(data: seq<Byte>, key: seq<Byte>)
    requires |key| == 16
    ensures Xored(Xored(data, key), key) == data
  {
    var once := Xored(data, key);
    var twice := Xored(once, key);
    forall i | 0 <= i < |data| ensures twice[i] == data[i] {
      if i < 32 {
        assert twice[i] == (data[i] ^ key[i % 16]) ^ key[i % 16];
      }
    }
  }
}
