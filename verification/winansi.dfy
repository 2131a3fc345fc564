/**
 * The WinAnsiEncoding (Windows code page 1252) single-byte codec of
 * `src/fonts.rs`, the text encoding of every PDF string the renderer emits
 * (ISO 32000-1, Annex D.2). Decoding a byte is total; encoding a character
 * is partial, and the string encoder drops what it cannot encode.
 */
module WinAnsi {
  import opened Base

  /** The five bytes in 0x80..0x9F that Windows-1252 leaves unassigned. */
  predicate IsUndefined(b: Byte) {
    b == 0x81 || b == 0x8D || b == 0x8F || b == 0x90 || b == 0x9D
  }

  /**
   * `winansi_to_char`: bytes 0x80..0x9F map to their Windows-1252 characters;
   * every other byte, the five unassigned ones included, is read as the
   * Unicode code point of the same number.
   */
  function DecodeByte(b: Byte): (c: char)
    ensures b < 0x80 || 0xA0 <= b || IsUndefined(b) ==> c as int == b as int
    ensures 0x80 <= b < 0xA0 && !IsUndefined(b) ==> 0x100 <= c as int
  {
    var n := b as int;
    match n
    case 0x80 => '\U{20AC}'
    case 0x82 => '\U{201A}'
    case 0x83 => '\U{0192}'
    case 0x84 => '\U{201E}'
    case 0x85 => '\U{2026}'
    case 0x86 => '\U{2020}'
    case 0x87 => '\U{2021}'
    case 0x88 => '\U{02C6}'
    case 0x89 => '\U{2030}'
    case 0x8A => '\U{0160}'
    case 0x8B => '\U{2039}'
    case 0x8C => '\U{0152}'
    case 0x8E => '\U{017D}'
    case 0x91 => '\U{2018}'
    case 0x92 => '\U{2019}'
    case 0x93 => '\U{201C}'
    case 0x94 => '\U{201D}'
    case 0x95 => '\U{2022}'
    case 0x96 => '\U{2013}'
    case 0x97 => '\U{2014}'
    case 0x98 => '\U{02DC}'
    case 0x99 => '\U{2122}'
    case 0x9A => '\U{0161}'
    case 0x9B => '\U{203A}'
    case 0x9C => '\U{0153}'
    case 0x9E => '\U{017E}'
    case 0x9F => '\U{0178}'
    case _ => n as char
  }

  /**
   * The per-character mapping inside `to_winansi_bytes`: ASCII and Latin-1
   * (U+00A0..U+00FF) keep their code, the 27 Windows-1252 specials get their
   * byte in 0x80..0x9F, and anything else (the C1 controls included) has no byte.
   * Whatever it encodes, `DecodeByte` decodes back, and it never produces one of
   * the five unassigned bytes.
   */
  function EncodeChar(c: char): (r: Option<Byte>)
    ensures r.Some? ==> DecodeByte(r.value) == c
    ensures r.Some? ==> !IsUndefined(r.value)
    ensures (c as int < 0x80 || 0xA0 <= c as int < 0x100) <==> r.Some? && r.value as int == c as int
    ensures !(c as int < 0x80 || 0xA0 <= c as int < 0x100) ==> r == EncodeSpecial(c)
  {
    var n := c as int;
    if n <= 0x7F || 0xA0 <= n <= 0xFF then
      var b := ToByte(n);
      DecodeDirect(b);
      Some(b)
    else EncodeSpecial(c)
  }

  /** Outside 0x80..0x9F a byte decodes to the code point of the same number. */
  lemma DecodeDirect(b: Byte)
    requires b < 0x80 || 0xA0 <= b
    ensures DecodeByte(b) as int == b as int
  {
  }

  /** The 27 characters Windows-1252 places in 0x80..0x9F. */
  function EncodeSpecial(c: char): (r: Option<Byte>)
    ensures r.Some? ==> 0x80 <= r.value < 0xA0 && DecodeByte(r.value) == c && !IsUndefined(r.value)
  {
    match c as int
    case 0x20AC => Some(0x80)
    case 0x201A => Some(0x82)
    case 0x0192 => Some(0x83)
    case 0x201E => Some(0x84)
    case 0x2026 => Some(0x85)
    case 0x2020 => Some(0x86)
    case 0x2021 => Some(0x87)
    case 0x02C6 => Some(0x88)
    case 0x2030 => Some(0x89)
    case 0x0160 => Some(0x8A)
    case 0x2039 => Some(0x8B)
    case 0x0152 => Some(0x8C)
    case 0x017D => Some(0x8E)
    case 0x2018 => Some(0x91)
    case 0x2019 => Some(0x92)
    case 0x201C => Some(0x93)
    case 0x201D => Some(0x94)
    case 0x2022 => Some(0x95)
    case 0x2013 => Some(0x96)
    case 0x2014 => Some(0x97)
    case 0x02DC => Some(0x98)
    case 0x2122 => Some(0x99)
    case 0x0161 => Some(0x9A)
    case 0x203A => Some(0x9B)
    case 0x0153 => Some(0x9C)
    case 0x017E => Some(0x9E)
    case 0x0178 => Some(0x9F)
    case _ => None
  }

  /**
   * Every assigned byte survives decode-then-encode unchanged; the five
   * unassigned bytes decode to C1 control characters, which do not encode.
   */
  lemma DecodeThenEncode(b: Byte)
    ensures !IsUndefined(b) ==> EncodeChar(DecodeByte(b)) == Some(b)
    ensures IsUndefined(b) ==> EncodeChar(DecodeByte(b)) == None
  {
    if b < 0x80 || 0xA0 <= b {
      DecodeDirect(b);
      assert EncodeChar(DecodeByte(b)).value as int == b as int;
    } else {
      SpecialRoundTrip(b);
    }
  }

  /** A byte in 0x80..0x9F decodes outside Latin-1, to a special that encodes back, or to a C1 control. */
  lemma SpecialRoundTrip(b: Byte)
    requires 0x80 <= b < 0xA0
    ensures var c := DecodeByte(b) as int; !(c < 0x80 || 0xA0 <= c < 0x100)
    ensures !IsUndefined(b) ==> EncodeSpecial(DecodeByte(b)) == Some(b)
    ensures IsUndefined(b) ==> EncodeSpecial(DecodeByte(b)) == None
  {
  }

  /** `to_winansi_bytes`: encodes each character in order and drops the unencodable ones. */
  function Encode(s: string): (r: seq<Byte>)
    ensures |r| <= |s|
    ensures forall i :: 0 <= i < |r| ==> !IsUndefined(r[i])
    ensures |r| == |s| <==> forall i :: 0 <= i < |s| ==> EncodeChar(s[i]).Some?
  {
    if |s| == 0 then []
    else
      var rest := Encode(s[1..]);
      assert forall i :: 1 <= i < |s| ==> s[i] == s[1..][i - 1];
      match EncodeChar(s[0])
      case Some(b) => [b] + rest
      case None => rest
  }

  /** Decodes a byte string one byte at a time. */
  function DecodeAll(bs: seq<Byte>): (r: string)
    ensures |r| == |bs|
  {
    seq(|bs|, i requires 0 <= i < |bs| => DecodeByte(bs[i]))
  }

  /** The characters of `s` that have a WinAnsi byte, in their original order. */
  function Encodable(s: string): (r: string)
    ensures forall i :: 0 <= i < |r| ==> EncodeChar(r[i]).Some?
  {
    if |s| == 0 then []
    else (if EncodeChar(s[0]).Some? then [s[0]] else []) + Encodable(s[1..])
  }

  /** Encoding distributes over concatenation: characters are handled independently, in order. */
  lemma {:induction false} EncodeAppend(a: string, b: string)
    ensures Encode(a + b) == Encode(a) + Encode(b)
  {
    if |a| > 0 {
      assert (a + b)[1..] == a[1..] + b;
      EncodeAppend(a[1..], b);
    } else {
      assert a + b == b;
    }
  }

  /** decode ∘ encode keeps exactly the encodable characters. */
  lemma {:induction false} DecodeEncode(s: string)
    ensures DecodeAll(Encode(s)) == Encodable(s)
  {
    if |s| > 0 {
      DecodeEncode(s[1..]);
      var rest := Encode(s[1..]);
      match EncodeChar(s[0])
      case Some(b) =>
        assert Encode(s) == [b] + rest;
        assert DecodeAll([b] + rest) == [s[0]] + DecodeAll(rest);
      case None =>
        assert Encode(s) == rest;
    }
  }

  /** On a string whose every character is encodable, decode ∘ encode is the identity. */
  lemma {:induction false} EncodableUnchanged(s: string)
    requires forall i :: 0 <= i < |s| ==> EncodeChar(s[i]).Some?
    ensures Encodable(s) == s
  {
    if |s| > 0 {
      assert forall i :: 0 <= i < |s[1..]| ==> s[1..][i] == s[i + 1];
      EncodableUnchanged(s[1..]);
    }
  }

  /** encode ∘ decode is the identity on byte strings that avoid the five unassigned bytes. */
  lemma {:induction false} EncodeDecode(bs: seq<Byte>)
    requires forall i :: 0 <= i < |bs| ==> !IsUndefined(bs[i])
    ensures Encode(DecodeAll(bs)) == bs
  {
    if |bs| > 0 {
      var s := DecodeAll(bs);
      assert s[1..] == DecodeAll(bs[1..]);
      EncodeDecode(bs[1..]);
      DecodeThenEncode(bs[0]);
      assert bs == [bs[0]] + bs[1..];
    }
  }
}
