/**
 * The JPEG size probe (`jpeg_dimensions` in `src/docx.rs`): after the SOI
 * marker FF D8 it hops from marker segment to marker segment using each
 * segment's big-endian length, and reads the frame size from the first
 * baseline, extended-sequential or progressive start-of-frame segment
 * (SOF0, SOF1, SOF2; ITU-T T.81, Table B.1), whose header (section B.2.2)
 * holds the sample precision, then the number of lines (height) and the
 * number of samples per line (width).
 */
module Jpeg {
  import opened Base

  /** SOF0, SOF1 and SOF2. */
  predicate IsSof(marker: Byte) {
    marker == 0xC0 || marker == 0xC1 || marker == 0xC2
  }

  /** The EOI (end of image) marker. */
  const Eoi: Byte := 0xD9

  /** (width, height) of a frame header whose marker sits at `i`. */
  function FrameSize(data: seq<Byte>, i: nat): (size: (nat, nat))
    requires i + 9 <= |data|
    ensures size.0 < 0x1_0000 && size.1 < 0x1_0000
  {
    (BigEndian16(data[i + 7], data[i + 8]), BigEndian16(data[i + 5], data[i + 6]))
  }

  /**
   * The scan from offset `i`, one step per marker segment: stop unless five
   * bytes remain; give up on a byte that does not start a marker or on EOI;
   * answer at an SOF segment with its header in range; otherwise skip the
   * marker and the segment length.
   */
  function Scan(data: seq<Byte>, i: nat): (r: Option<(nat, nat)>)
    ensures i + 4 >= |data| ==> r.None?
    ensures r.Some? ==> i + 9 < |data| && r.value.0 < 0x1_0000 && r.value.1 < 0x1_0000
    decreases |data| - i
  {
    if i + 4 >= |data| then None
    else if data[i] != 0xFF then None
    else if data[i + 1] == Eoi then None
    else if IsSof(data[i + 1]) && i + 9 < |data| then Some(FrameSize(data, i))
    else Scan(data, i + 2 + BigEndian16(data[i + 2], data[i + 3]))
  }

  /** `jpeg_dimensions`. */
  method JpegDimensions(data: seq<Byte>) returns (r: Option<(nat, nat)>)
    ensures |data| < 2 || data[0] != 0xFF || data[1] != 0xD8 ==> r.None?
    ensures |data| >= 2 && data[0] == 0xFF && data[1] == 0xD8 ==> r == Scan(data, 2)
  {
    if |data| < 2 || data[0] != 0xFF || data[1] != 0xD8 {
      return None;
    }
    var i := 2;
    while i + 4 < |data|
      invariant Scan(data, i) == Scan(data, 2)
      decreases |data| - i
    {
      if data[i] != 0xFF {
        return None;
      }
      var marker := data[i + 1];
      if marker == Eoi {
        break;
      }
      var len := BigEndian16(data[i + 2], data[i + 3]);
      if IsSof(marker) && i + 9 < |data| {
        var height := BigEndian16(data[i + 5], data[i + 6]);
        var width := BigEndian16(data[i + 7], data[i + 8]);
        return Some((width, height));
      }
      i := i + 2 + len;
    }
    return None;
  }

  /** An SOF marker at `j` whose header is readable up to the width. */
  predicate ReadableFrame(data: seq<Byte>, j: nat) {
    j + 9 < |data| && data[j] == 0xFF && IsSof(data[j + 1])
  }

  /**
   * `j` is reached from `i` by whole-segment hops: each segment hopped over
   * starts with 0xFF, is not EOI and is not a readable frame header, and is
   * left by its marker and its big-endian length.
   */
  predicate Hops(data: seq<Byte>, i: nat, j: nat)
    decreases |data| - i
  {
    || i == j
    || (&& i + 4 < |data| && data[i] == 0xFF && data[i + 1] != Eoi
        && !(IsSof(data[i + 1]) && i + 9 < |data|)
        && Hops(data, i + 2 + BigEndian16(data[i + 2], data[i + 3]), j))
  }

  /**
   * Where a reported size comes from: a readable frame header that the scan
   * reaches by hopping from segment to segment, not one that merely sits
   * inside a skipped payload.
   */
  function FrameOffset(data: seq<Byte>, i: nat): (j: nat)
    requires Scan(data, i).Some?
    ensures i <= j && ReadableFrame(data, j)
    ensures Hops(data, i, j)
    ensures Scan(data, i) == Some(FrameSize(data, j))
    decreases |data| - i
  {
    if IsSof(data[i + 1]) && i + 9 < |data| then i
    else FrameOffset(data, i + 2 + BigEndian16(data[i + 2], data[i + 3]))
  }

  /** A reported size is the frame size of a readable frame header on the hop chain from the start. */
  lemma ScanFindsFrame(data: seq<Byte>, i: nat)
    requires Scan(data, i).Some?
    ensures exists j :: i <= j && ReadableFrame(data, j) && Hops(data, i, j)
                        && Scan(data, i) == Some(FrameSize(data, j))
  {
    var j := FrameOffset(data, i);
  }

  /**
   * The converse: a readable frame header reached by hops is the one the
   * scan reports. Hops never pass a readable frame header, so it is the first.
   */
  lemma {:induction false} ScanFindsFirstFrame(data: seq<Byte>, i: nat, j: nat)
    requires Hops(data, i, j) && ReadableFrame(data, j)
    ensures Scan(data, i) == Some(FrameSize(data, j))
    decreases |data| - i
  {
    if i != j {
      ScanFindsFirstFrame(data, i + 2 + BigEndian16(data[i + 2], data[i + 3]), j);
    }
  }

  /** Extra bytes after the data never change a size that was already found. */
  lemma {:induction false} ScanIgnoresTrailingBytes(data: seq<Byte>, more: seq<Byte>, i: nat)
    requires Scan(data, i).Some?
    ensures Scan(data + more, i) == Scan(data, i)
    decreases |data| - i
  {
    var d := data + more;
    assert d[i] == data[i] && d[i + 1] == data[i + 1] && d[i + 2] == data[i + 2] && d[i + 3] == data[i + 3];
    if IsSof(data[i + 1]) && i + 9 < |data| {
      assert d[i + 5..i + 9] == data[i + 5..i + 9];
      assert d[i + 5] == data[i + 5] && d[i + 6] == data[i + 6] && d[i + 7] == data[i + 7] && d[i + 8] == data[i + 8];
    } else {
      ScanIgnoresTrailingBytes(data, more, i + 2 + BigEndian16(data[i + 2], data[i + 3]));
    }
  }

  /** A segment that is neither a frame header nor EOI is skipped whole. */
  lemma SkipsSegment(data: seq<Byte>, i: nat)
    requires i + 4 < |data| && data[i] == 0xFF && data[i + 1] != Eoi && !IsSof(data[i + 1])
    ensures Scan(data, i) == Scan(data, i + 2 + BigEndian16(data[i + 2], data[i + 3]))
  {
  }

  /** SOI, an APP0 segment of length 4, then an SOF0 header for a 32 x 16 image. */
  lemma SmallImage()
    ensures Scan([0xFF, 0xD8, 0xFF, 0xE0, 0x00, 0x04, 0x4A, 0x46,
                  0xFF, 0xC0, 0x00, 0x11, 0x08, 0x00, 0x10, 0x00, 0x20, 0x03], 2) == Some((32, 16))
  {
    var d: seq<Byte> := [0xFF, 0xD8, 0xFF, 0xE0, 0x00, 0x04, 0x4A, 0x46,
                         0xFF, 0xC0, 0x00, 0x11, 0x08, 0x00, 0x10, 0x00, 0x20, 0x03];
    assert d[2] == 0xFF && d[3] == 0xE0 && d[4] == 0x00 && d[5] == 0x04;
    assert BigEndian16(d[4], d[5]) == 4;
    SkipsSegment(d, 2);
    assert d[8] == 0xFF && d[9] == 0xC0;
    assert Scan(d, 8) == Some(FrameSize(d, 8));
    assert d[13] == 0x00 && d[14] == 0x10 && d[15] == 0x00 && d[16] == 0x20;
  }

  /** An SOF0 header cut short before its width is not read: the scan answers None. */
  lemma TruncatedHeader()
    ensures Scan([0xFF, 0xD8, 0xFF, 0xC0, 0x00, 0x11, 0x08, 0x00, 0x10, 0x00], 2) == None
  {
  }
}
