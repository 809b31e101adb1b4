/**
 * The pixel-format record of rfb/rfb.h (struct rfb_pxlinfo) and its 16-byte
 * wire layout (section 7.4 of RFC 6143): how rfb_client_init packs it and how
 * rfb_client_set_pxl reads it back.
 */
module PixelFormats {
  import opened Wire

  /** struct rfb_pxlinfo. */
  datatype PixelFormat = PixelFormat(
    bits: uint8,          // bits per pixel
    depth: uint8,         // significant bits per pixel
    bigEndian: uint8,     // big-endian flag
    trueColour: uint8,    // true-colour flag
    redMax: uint16,
    greenMax: uint16,
    blueMax: uint16,
    redShift: uint8,
    greenShift: uint8,
    blueShift: uint8)

  /** RFBPXL_DFT: 32 bits per pixel, depth 24, big-endian true colour, 8 bits per channel. */
  const DefaultPixelFormat := PixelFormat(32, 24, 1, 1, 0xff, 0xff, 0xff, 16, 8, 0)

  /**
   * The 16-byte pixel-format record: bits, depth, the two flags, the three
   * maxima in network order, the three shifts and three bytes of padding.
   */
  function PixelFormatBytes(p: PixelFormat): (r: Bytes)
    ensures |r| == 16
  {
    [p.bits, p.depth, p.bigEndian, p.trueColour]
    + Pk16(p.redMax) + Pk16(p.greenMax) + Pk16(p.blueMax)
    + [p.redShift, p.greenShift, p.blueShift, 0, 0, 0]
  }

  /** The record a viewer receives for the default format. */
  lemma DefaultPixelFormatBytes()
    ensures PixelFormatBytes(DefaultPixelFormat) == [32, 24, 1, 1, 0, 0xff, 0, 0xff, 0, 0xff, 16, 8, 0, 0, 0, 0]
  {
    assert Pk16(0xff) == [0, 0xff] by {
      Pk16RoundTrip(0, [0, 0xff]);
    }
  }

  /**
   * rfb_client_init packs the record: the three maxima are converted to
   * network order first, then copied into the buffer with the other fields.
   */
  method PackPixelFormat(p: PixelFormat) returns (record: Bytes)
    ensures record == PixelFormatBytes(p)
  {
    var rmax, gmax, bmax := Pk16(p.redMax), Pk16(p.greenMax), Pk16(p.blueMax);
    record := FillPixelFormat(p, rmax, gmax, bmax);
  }

  /**
   * The memset and memcpy calls of rfb_client_init on the 16-byte buffer:
   * zero it, then copy each field to its offset, the maxima as the two bytes
   * they already hold, leaving three bytes of padding.
   */
  method FillPixelFormat(p: PixelFormat, rmax: Bytes, gmax: Bytes, bmax: Bytes) returns (record: Bytes)
    requires |rmax| == |gmax| == |bmax| == 2
    ensures record == [p.bits, p.depth, p.bigEndian, p.trueColour] + rmax + gmax + bmax
                      + [p.redShift, p.greenShift, p.blueShift, 0, 0, 0]
  {
    var buf := new uint8[16];
    MemSet(buf);
    MemCopy(buf, 0, [p.bits]);
    MemCopy(buf, 1, [p.depth]);
    MemCopy(buf, 2, [p.bigEndian]);
    MemCopy(buf, 3, [p.trueColour]);
    MemCopy(buf, 4, rmax);
    MemCopy(buf, 6, gmax);
    MemCopy(buf, 8, bmax);
    MemCopy(buf, 10, [p.redShift]);
    MemCopy(buf, 11, [p.greenShift]);
    MemCopy(buf, 12, [p.blueShift]);
    record := buf[..];
  }

  /** memset(buf, 0, size): every byte of buf becomes zero. */
  method MemSet(buf: array<uint8>)
    modifies buf
    ensures forall i | 0 <= i < buf.Length :: buf[i] == 0
  {
    for k := 0 to buf.Length
      invariant forall i | 0 <= i < k :: buf[i] == 0
    {
      buf[k] := 0;
    }
  }

  /** memcpy(buf + off, src, |src|): the bytes from off on become src; the others keep their value. */
  method MemCopy(buf: array<uint8>, off: nat, src: Bytes)
    requires off + |src| <= buf.Length
    modifies buf
    ensures forall i | 0 <= i < buf.Length :: buf[i] == if off <= i < off + |src| then src[i - off] else old(buf[i])
  {
    for k := 0 to |src|
      invariant forall i | 0 <= i < buf.Length :: buf[i] == if off <= i < off + k then src[i - off] else old(buf[i])
    {
      buf[off + k] := src[k];
    }
  }

  /** The fields of a 16-byte pixel-format record, in the order rfb_client_set_pxl reads them. */
  function DecodePixelFormat(b: Bytes): (p: PixelFormat)
    requires |b| == 16
    ensures PixelFormatBytes(p)[..13] == b[..13]
  {
    Pk16RoundTrip(0, b[4..6]);
    Pk16RoundTrip(0, b[6..8]);
    Pk16RoundTrip(0, b[8..10]);
    assert b[..13] == b[..4] + b[4..6] + b[6..8] + b[8..10] + b[10..13];
    PixelFormat(b[0], b[1], b[2], b[3],
                Upk16(b[4..6]), Upk16(b[6..8]), Upk16(b[8..10]),
                b[10], b[11], b[12])
  }

  /** Decoding a packed pixel format gives back every field. */
  lemma PixelFormatRoundTrip(p: PixelFormat)
    ensures DecodePixelFormat(PixelFormatBytes(p)) == p
  {
    var b := PixelFormatBytes(p);
    assert b[4..6] == Pk16(p.redMax) && b[6..8] == Pk16(p.greenMax) && b[8..10] == Pk16(p.blueMax);
    Pk16RoundTrip(p.redMax, b[4..6]);
    Pk16RoundTrip(p.greenMax, b[6..8]);
    Pk16RoundTrip(p.blueMax, b[8..10]);
  }

  /** Packing a decoded record gives back the record, when its padding is zero. */
  lemma PixelFormatBytesOfDecode(b: Bytes)
    requires |b| == 16 && b[13] == 0 && b[14] == 0 && b[15] == 0
    ensures PixelFormatBytes(DecodePixelFormat(b)) == b
  {
    Pk16RoundTrip(0, b[4..6]);
    Pk16RoundTrip(0, b[6..8]);
    Pk16RoundTrip(0, b[8..10]);
    assert b == b[..4] + b[4..6] + b[6..8] + b[8..10] + b[10..];
  }
}
