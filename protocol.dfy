/**
 * Protocol constants and records of rfb/rfb.h: the version string and its
 * parsing, the security types, the colour palette, the protocol record the server
 * keeps, and the configuration that rfb_run builds from it.
 */
module Protocol {
  import opened Wire
  import opened Wrappers
  import opened PixelFormats

  // ---------------------------------------------------------------- version

  /** RFBVER_SZ: every version string is exactly twelve bytes. */
  const RfbVerSize := 12

  /** A one-digit argument of RFBVER; the program writes RFBVER(3,8). */
  type Digit = d: int | 0 <= d < 10

  /** RFBVER(maj, min): "RFB 00" maj ".00" min "\n" as ASCII bytes. */
  function RfbVer(maj: Digit, min: Digit): (r: Bytes)
    ensures |r| == RfbVerSize
  {
    // "RFB 00" maj ".00" min "\n"
    [0x52, 0x46, 0x42, 0x20, 0x30, 0x30, 0x30 + maj, 0x2e, 0x30, 0x30, 0x30 + min, 0x0a]
  }

  /** The characters atoi skips before the number (isspace in the C locale). */
  predicate IsSpace(c: uint8)
  {
    c == 0x20 || 0x09 <= c <= 0x0d
  }

  predicate IsDigit(c: uint8)
  {
    0x30 <= c <= 0x39
  }

  /** The run of decimal digits at the start of s, read into the accumulator acc. */
  function DigitRun(s: Bytes, acc: nat): nat
  {
    if s != [] && IsDigit(s[0]) then DigitRun(s[1..], acc * 10 + (s[0] - 0x30)) else acc
  }

  /**
   * atoi over the bytes of the version buffer from some offset on: leading
   * white space, an optional sign, then decimal digits.  The buffer holds no
   * terminator; the byte after it in the protocol record is seclen, whose
   * value 1 is not a digit, so reading stops at the end of s.  At most eight
   * digits fit after offset 4, so the C int never overflows.
   */
  function Atoi(s: Bytes): (r: int)
    ensures r < 0 ==> 0x2d in s
    ensures (forall i | 0 <= i < |s| :: !IsDigit(s[i])) ==> r == 0
  {
    if s != [] && IsSpace(s[0]) then Atoi(s[1..])
    else if s != [] && s[0] == 0x2d then -(DigitRun(s[1..], 0) as int)    // '-'
    else if s != [] && s[0] == 0x2b then DigitRun(s[1..], 0)     // '+'
    else DigitRun(s, 0)
  }

  /** MAJ(ver): the number at offset 4. */
  function Maj(ver: Bytes): int
    requires |ver| == RfbVerSize
  {
    Atoi(ver[4..])
  }

  /** MIN(ver): the number at offset 8. */
  function Min(ver: Bytes): int
    requires |ver| == RfbVerSize
  {
    Atoi(ver[8..])
  }

  /** atoi of "00d" followed by a non-digit is d. */
  lemma AtoiOfPaddedDigit(d: Digit, rest: Bytes)
    requires rest != [] && !IsDigit(rest[0])
    ensures Atoi([0x30, 0x30, 0x30 + d] + rest) == d
  {
    var s := [0x30, 0x30, 0x30 + d] + rest;
    assert s[1..][1..][1..] == rest;
    calc {
      Atoi(s);
      DigitRun(s, 0);
      DigitRun(s[1..], 0);
      DigitRun(s[1..][1..], 0);
      DigitRun(s[1..][1..][1..], d);
      d;
    }
  }

  /** MAJ and MIN recover the two arguments of RFBVER. */
  lemma {:induction false} RfbVerFields(maj: Digit, min: Digit)
    ensures Maj(RfbVer(maj, min)) == maj
    ensures Min(RfbVer(maj, min)) == min
  {
    var v := RfbVer(maj, min);
    assert v[4..] == [0x30, 0x30, 0x30 + maj] + v[7..];
    AtoiOfPaddedDigit(maj, v[7..]);
    assert v[8..] == [0x30, 0x30, 0x30 + min] + v[11..];
    AtoiOfPaddedDigit(min, v[11..]);
  }

  // ---------------------------------------------------------------- security

  /** RFBSEC_SZ: the security list holds at most two types. */
  const RfbSecSize := 2
  /** RFBSEC_ERR: the type that marks a failed negotiation. */
  const RfbSecErr: uint8 := 0
  const RfbSecNone: uint8 := 1
  const RfbSecVnc: uint8 := 2

  // ---------------------------------------------------------------- service defaults

  /** NAME_DFT: "Aristotle". */
  const NameDefault: Bytes := [0x41, 0x72, 0x69, 0x73, 0x74, 0x6f, 0x74, 0x6c, 0x65]

  /** COLORS: the palette from which each client is given a display colour. */
  const Colors: seq<uint32> := [0x00005577, 0x00007755, 0x00550077, 0x00557700, 0x00770055, 0x00775500]

  /**
   * The colour rfb_accept gives a client, colors[r % 6], where r is the
   * (non-negative) value of rand_r, taken here as a parameter.
   */
  function ClientColour(r: nat): (c: uint32)
    ensures c in Colors
    ensures c == Colors[r % 6]
  {
    Colors[r % |Colors|]
  }

  // ---------------------------------------------------------------- protocol record

  /**
   * struct rfb_protinfo: the protocol information the server shares between
   * all its clients (the field is spelled pinfo in rfb/rfb.h and infop in
   * rfb/rfb.c; it is one record).  The security list is the fixed array of
   * RFBSEC_SZ entries of which the first secLen are offered; name holds the
   * characters of the name string, of which nameLen are sent.
   */
  datatype ProtInfo = ProtInfo(
    ver: Bytes,
    secLen: uint8,
    sec: Bytes,
    fbWidth: uint16,
    fbHeight: uint16,
    pxl: PixelFormat,
    nameLen: uint32,
    name: Bytes)
  {
    /** The shape of the C record: array sizes, and the sizes it relies on. */
    predicate Valid()
    {
      |ver| == RfbVerSize && |sec| == RfbSecSize && secLen as int <= RfbSecSize && nameLen as int <= |name|
    }
  }

  /** RFBPROTO_DFT: version 3.8, security "none" only, 720x480, named "Aristotle". */
  const DefaultProtInfo := ProtInfo(RfbVer(3, 8), 1, [RfbSecNone, 0], 720, 480, DefaultPixelFormat, 9, NameDefault)

  /** The default record is well formed and says what rfb/rfb.h promises of it. */
  lemma DefaultProtInfoFields()
    ensures DefaultProtInfo.Valid()
    ensures DefaultProtInfo.ver == [0x52, 0x46, 0x42, 0x20, 0x30, 0x30, 0x33, 0x2e, 0x30, 0x30, 0x38, 0x0a]  // "RFB 003.008\n"
    ensures Maj(DefaultProtInfo.ver) == 3 && Min(DefaultProtInfo.ver) == 8
    ensures DefaultProtInfo.sec[..DefaultProtInfo.secLen] == [RfbSecNone]
    ensures DefaultProtInfo.nameLen as int == |NameDefault| == 9
    ensures DecodePixelFormat(PixelFormatBytes(DefaultProtInfo.pxl)) == DefaultPixelFormat
  {
    RfbVerFields(3, 8);
    PixelFormatRoundTrip(DefaultPixelFormat);
  }

  /**
   * The protocol record of rfb_run(w, h, name, serv): the default, with the
   * width and height replaced when non-zero (converted to uint16_t) and the
   * name replaced when a name is given (NULL is None), its length then being
   * strlen converted to uint32_t.
   */
  function Configure(w: int, h: int, name: Option<Bytes>): (r: ProtInfo)
    ensures r.Valid()
    ensures r.ver == DefaultProtInfo.ver && r.secLen == DefaultProtInfo.secLen && r.sec == DefaultProtInfo.sec
    ensures r.pxl == DefaultPixelFormat
    ensures r.fbWidth == (if w == 0 then 720 else Trunc16(w))
    ensures r.fbHeight == (if h == 0 then 480 else Trunc16(h))
    ensures name.None? ==> r.name == NameDefault && r.nameLen == 9
    ensures name.Some? ==> r.name == name.value && r.nameLen == Trunc32(|name.value|)
  {
    var d := DefaultProtInfo;
    var d := if w != 0 then d.(fbWidth := Trunc16(w)) else d;
    var d := if h != 0 then d.(fbHeight := Trunc16(h)) else d;
    if name.Some? then d.(name := name.value, nameLen := Trunc32(|name.value|)) else d
  }

  /** With no arguments rfb_run serves the default record; with in-range ones it serves them. */
  lemma ConfigureDefaultOrOverride(w: int, h: int, name: Option<Bytes>)
    requires 0 <= w < 0x1_0000 && 0 <= h < 0x1_0000
    requires name.Some? ==> |name.value| < 0x1_0000_0000
    ensures Configure(0, 0, None) == DefaultProtInfo
    ensures var r := Configure(w, h, name);
      && (w != 0 ==> r.fbWidth == w) && (h != 0 ==> r.fbHeight == h)
      && (name.Some? ==> r.name[..r.nameLen] == name.value)
      && ServedName(r) == (if name.Some? then name.value else NameDefault)
  {
  }

  /** The name a record sends: its first nameLen characters. */
  function ServedName(p: ProtInfo): Bytes
    requires p.Valid()
  {
    p.name[..p.nameLen]
  }
}
