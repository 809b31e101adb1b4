/**
 * Client-to-server message framing (sections 7.5.1 to 7.5.6 of RFC 6143) as
 * the handlers of rfb/rfb.c read it, and the server's FramebufferUpdate with
 * one raw rectangle (sections 7.6.1 and 7.7.1).
 */
module Messages {
  import opened Wire
  import opened Wrappers
  import opened Protocol
  import opened PixelFormats

  /**
   * A client message as its handler decodes it.  The encoding list and the
   * cut text are read and thrown away, so only their lengths are kept.
   */
  datatype ClientMessage =
    | SetPixelFormat(format: PixelFormat)
    | SetEncodings(count: uint16)
    | FramebufferUpdateRequest(incremental: uint8, x: uint16, y: uint16, w: uint16, h: uint16)
    | KeyEvent(down: uint8, key: uint32)
    | PointerEvent(buttonMask: uint8, x: uint16, y: uint16)
    | ClientCutText(length: uint32)
    | Unrecognised(msgType: uint8)
  {
    /** An unrecognised message carries a type byte the dispatch switch has no case for. */
    predicate Valid()
    {
      Unrecognised? ==> msgType !in {0, 2, 3, 4, 5, 6}
    }
  }

  /** The type byte of each message. */
  function TypeByte(m: ClientMessage): uint8
  {
    match m
    case SetPixelFormat(_) => 0
    case SetEncodings(_) => 2
    case FramebufferUpdateRequest(_, _, _, _, _) => 3
    case KeyEvent(_, _) => 4
    case PointerEvent(_, _, _) => 5
    case ClientCutText(_) => 6
    case Unrecognised(t) => t
  }

  /** The number of bytes each handler reads after the type byte. */
  function BodySize(m: ClientMessage): nat
  {
    match m
    case SetPixelFormat(_) => 19                      // 3 padding + 16-byte record
    case SetEncodings(n) => 1 + 2 + 4 * n             // padding, count, n encodings
    case FramebufferUpdateRequest(_, _, _, _, _) => 9 // incremental, x, y, w, h
    case KeyEvent(_, _) => 7                          // down, 2 padding, key
    case PointerEvent(_, _, _) => 5                   // mask, x, y
    case ClientCutText(n) => 7 + n                    // 3 padding, length, text
    case Unrecognised(_) => 0                         // the default case reads nothing more
  }

  /**
   * One iteration of the loop in rfb_handle_client: the type byte, then the
   * fields its handler reads.  None when the stream ends before the handler
   * has read all it needs (a recvall that fails), otherwise the message and
   * the number of bytes it took.
   */
  function ParseMessage(s: Bytes): (r: Option<(ClientMessage, nat)>)
    ensures r.Some? ==> r.value.0.Valid() && r.value.1 == 1 + BodySize(r.value.0) <= |s|
    ensures r.Some? ==> TypeByte(r.value.0) == s[0]
    ensures |s| > 0 && s[0] !in {0, 2, 3, 4, 5, 6} ==> r == Some((Unrecognised(s[0]), 1))
    ensures |s| == 0 ==> r == None
  {
    if |s| == 0 then None
    else if s[0] == 0 then
      if |s| < 20 then None else Some((SetPixelFormat(DecodePixelFormat(s[4..20])), 20))
    else if s[0] == 2 then
      if |s| < 4 then None
      else
        var n := Upk16(s[2..4]);
        if |s| < 4 + 4 * n then None else Some((SetEncodings(n), 4 + 4 * n))
    else if s[0] == 3 then
      if |s| < 10 then None
      else Some((FramebufferUpdateRequest(s[1], Upk16(s[2..4]), Upk16(s[4..6]), Upk16(s[6..8]), Upk16(s[8..10])), 10))
    else if s[0] == 4 then
      if |s| < 8 then None else Some((KeyEvent(s[1], Upk32(s[4..8])), 8))
    else if s[0] == 5 then
      if |s| < 6 then None else Some((PointerEvent(s[1], Upk16(s[2..4]), Upk16(s[4..6])), 6))
    else if s[0] == 6 then
      if |s| < 8 then None
      else
        var n := Upk32(s[4..8]);
        if |s| < 8 + n then None else Some((ClientCutText(n), 8 + n))
    else
      Some((Unrecognised(s[0]), 1))
  }

  /**
   * The maxima a SetPixelFormat cut short has already stored.
   * rfb_client_set_pxl writes them into the shared record as soon as it has
   * read them, bytes 8 to 13 of the message, and only then reads the shifts
   * and the padding.  Some exactly when the stream ends after the maxima but
   * before the whole message.
   */
  function CutMaxima(s: Bytes): (r: Option<(uint16, uint16, uint16)>)
    ensures r.Some? <==> ParseMessage(s).None? && |s| >= 14 && s[0] == 0
  {
    if 14 <= |s| < 20 && s[0] == 0 then Some((Upk16(s[8..10]), Upk16(s[10..12]), Upk16(s[12..14]))) else None
  }

  /**
   * A client's SetPixelFormat cut after n bytes: from byte 14 on, the maxima
   * already stored are those of the format it was sending; before that,
   * none are.
   */
  lemma CutMaximaOfEncode(f: PixelFormat, n: nat)
    requires n < 20
    ensures var b := Encode(SetPixelFormat(f))[..n];
      && ParseMessage(b).None?
      && CutMaxima(b) == if n >= 14 then Some((f.redMax, f.greenMax, f.blueMax)) else None
  {
    var e := Encode(SetPixelFormat(f));
    var b := e[..n];
    if n >= 14 {
      var p := PixelFormatBytes(f);
      assert e == [0] + Zeros(3) + p;
      assert b[8..10] == p[4..6] == Pk16(f.redMax);
      assert b[10..12] == p[6..8] == Pk16(f.greenMax);
      assert b[12..14] == p[8..10] == Pk16(f.blueMax);
      Pk16RoundTrip(f.redMax, b[8..10]);
      Pk16RoundTrip(f.greenMax, b[10..12]);
      Pk16RoundTrip(f.blueMax, b[12..14]);
    }
  }

  /** n zero bytes: the padding a client sends, or discarded content. */
  function Zeros(n: nat): (r: Bytes)
    ensures |r| == n
  {
    seq(n, _ => 0)
  }

  /** How a client frames each message, with zero padding and zero-filled discarded content. */
  function Encode(m: ClientMessage): (r: Bytes)
    ensures |r| == 1 + BodySize(m)
  {
    match m
    case SetPixelFormat(f) => [0] + Zeros(3) + PixelFormatBytes(f)
    case SetEncodings(n) => [2] + Zeros(1) + Pk16(n) + Zeros(4 * n)
    case FramebufferUpdateRequest(i, x, y, w, h) => [3, i] + Pk16(x) + Pk16(y) + Pk16(w) + Pk16(h)
    case KeyEvent(d, k) => [4, d] + Zeros(2) + Pk32(k)
    case PointerEvent(b, x, y) => [5, b] + Pk16(x) + Pk16(y)
    case ClientCutText(n) => [6] + Zeros(3) + Pk32(n) + Zeros(n)
    case Unrecognised(t) => [t]
  }

  /** The server decodes every message a client frames, whatever follows it. */
  lemma ParseEncode(m: ClientMessage, rest: Bytes)
    requires m.Valid()
    ensures ParseMessage(Encode(m) + rest) == Some((m, |Encode(m)|))
  {
    match m
    case SetPixelFormat(f) => ParseEncodePixelFormat(f, rest);
    case SetEncodings(n) => ParseEncodeEncodings(n, rest);
    case FramebufferUpdateRequest(i, x, y, w, h) => ParseEncodeUpdateRequest(i, x, y, w, h, rest);
    case KeyEvent(d, k) => ParseEncodeKey(d, k, rest);
    case PointerEvent(b, x, y) => ParseEncodePointer(b, x, y, rest);
    case ClientCutText(n) => ParseEncodeCutText(n, rest);
    case Unrecognised(t) =>
  }

  lemma ParseEncodePixelFormat(f: PixelFormat, rest: Bytes)
    ensures var m := SetPixelFormat(f); ParseMessage(Encode(m) + rest) == Some((m, 20))
  {
    var s := Encode(SetPixelFormat(f)) + rest;
    assert s[4..20] == PixelFormatBytes(f);
    PixelFormatRoundTrip(f);
  }

  lemma ParseEncodeEncodings(n: uint16, rest: Bytes)
    ensures var m := SetEncodings(n); ParseMessage(Encode(m) + rest) == Some((m, 4 + 4 * n))
  {
    var s := Encode(SetEncodings(n)) + rest;
    assert s[2..4] == Pk16(n);
    Pk16RoundTrip(n, s[2..4]);
  }

  lemma ParseEncodeUpdateRequest(i: uint8, x: uint16, y: uint16, w: uint16, h: uint16, rest: Bytes)
    ensures var m := FramebufferUpdateRequest(i, x, y, w, h); ParseMessage(Encode(m) + rest) == Some((m, 10))
  {
    var s := Encode(FramebufferUpdateRequest(i, x, y, w, h)) + rest;
    assert s[2..4] == Pk16(x) && s[4..6] == Pk16(y) && s[6..8] == Pk16(w) && s[8..10] == Pk16(h);
    Pk16RoundTrip(x, s[2..4]);
    Pk16RoundTrip(y, s[4..6]);
    Pk16RoundTrip(w, s[6..8]);
    Pk16RoundTrip(h, s[8..10]);
  }

  lemma ParseEncodeKey(d: uint8, k: uint32, rest: Bytes)
    ensures var m := KeyEvent(d, k); ParseMessage(Encode(m) + rest) == Some((m, 8))
  {
    var s := Encode(KeyEvent(d, k)) + rest;
    assert s[4..8] == Pk32(k);
    Pk32RoundTrip(k, s[4..8]);
  }

  lemma ParseEncodePointer(b: uint8, x: uint16, y: uint16, rest: Bytes)
    ensures var m := PointerEvent(b, x, y); ParseMessage(Encode(m) + rest) == Some((m, 6))
  {
    var s := Encode(PointerEvent(b, x, y)) + rest;
    assert s[2..4] == Pk16(x) && s[4..6] == Pk16(y);
    Pk16RoundTrip(x, s[2..4]);
    Pk16RoundTrip(y, s[4..6]);
  }

  lemma ParseEncodeCutText(n: uint32, rest: Bytes)
    ensures var m := ClientCutText(n); ParseMessage(Encode(m) + rest) == Some((m, 8 + n))
  {
    var s := Encode(ClientCutText(n)) + rest;
    assert s[4..8] == Pk32(n);
    Pk32RoundTrip(n, s[4..8]);
  }

  /**
   * Framing is self-delimiting: a message is decoded from its own bytes alone,
   * so what follows it in the stream does not change it.
   */
  lemma ParsePrefix(s: Bytes, t: Bytes)
    requires ParseMessage(s).Some?
    ensures var (m, k) := ParseMessage(s).value;
      ParseMessage(s[..k] + t) == Some((m, k))
  {
    var (m, k) := ParseMessage(s).value;
    var s' := s[..k] + t;
    assert s'[..k] == s[..k];
    assert s'[0] == s[0];
    if s[0] == 0 {
      assert s'[4..20] == s[4..20];
    } else if s[0] == 2 {
      assert s'[2..4] == s[2..4];
    } else if s[0] == 3 {
      assert s'[2..4] == s[2..4] && s'[4..6] == s[4..6] && s'[6..8] == s[6..8] && s'[8..10] == s[8..10];
    } else if s[0] == 4 {
      assert s'[4..8] == s[4..8];
    } else if s[0] == 5 {
      assert s'[2..4] == s[2..4] && s'[4..6] == s[4..6];
    } else if s[0] == 6 {
      assert s'[4..8] == s[4..8];
    }
  }

  // ---------------------------------------------------------------- FramebufferUpdate

  /**
   * The 16-byte head of a FramebufferUpdate with one raw rectangle: type 0,
   * padding, rectangle count 1, then x, y, w, h and encoding 0 (raw).
   */
  function UpdateHeader(x: uint16, y: uint16, w: uint16, h: uint16): (r: Bytes)
    ensures |r| == 16
  {
    [0, 0] + Pk16(1) + Pk16(x) + Pk16(y) + Pk16(w) + Pk16(h) + Pk32(0)
  }

  /** A viewer's reading of the head: the rectangle, if it is one raw rectangle of message type 0. */
  function ParseUpdateHeader(b: Bytes): Option<(uint16, uint16, uint16, uint16)>
    requires |b| == 16
  {
    if b[0] == 0 && Upk16(b[2..4]) == 1 && Upk32(b[12..16]) == 0
    then Some((Upk16(b[4..6]), Upk16(b[6..8]), Upk16(b[8..10]), Upk16(b[10..12])))
    else None
  }

  lemma UpdateHeaderRoundTrip(x: uint16, y: uint16, w: uint16, h: uint16)
    ensures ParseUpdateHeader(UpdateHeader(x, y, w, h)) == Some((x, y, w, h))
  {
    var b := UpdateHeader(x, y, w, h);
    UpdateHeaderFields(x, y, w, h);
    Pk16RoundTrip(1, b[2..4]);
    Pk16RoundTrip(x, b[4..6]);
    Pk16RoundTrip(y, b[6..8]);
    Pk16RoundTrip(w, b[8..10]);
    Pk16RoundTrip(h, b[10..12]);
    Pk32RoundTrip(0, b[12..16]);
  }

  /** Where each field of the head lies. */
  lemma UpdateHeaderFields(x: uint16, y: uint16, w: uint16, h: uint16)
    ensures var b := UpdateHeader(x, y, w, h);
      && b[0] == 0 && b[2..4] == Pk16(1) && b[4..6] == Pk16(x) && b[6..8] == Pk16(y)
      && b[8..10] == Pk16(w) && b[10..12] == Pk16(h) && b[12..16] == Pk32(0)
  {
    HeaderSlices([0, 0], Pk16(1), Pk16(x), Pk16(y), Pk16(w), Pk16(h), Pk32(0));
  }

  /** The slices of six two-element parts followed by a four-element one. */
  lemma HeaderSlices<T>(a: seq<T>, b: seq<T>, c: seq<T>, d: seq<T>, e: seq<T>, f: seq<T>, g: seq<T>)
    requires |a| == |b| == |c| == |d| == |e| == |f| == 2 && |g| == 4
    ensures var s := a + b + c + d + e + f + g;
      && s[..2] == a && s[2..4] == b && s[4..6] == c && s[6..8] == d
      && s[8..10] == e && s[10..12] == f && s[12..16] == g
  {
  }

  /** Raw pixels as sendall sends them: each 32-bit word as it lies in host memory. */
  function HostPixels(ws: seq<uint32>): (r: Bytes)
    ensures |r| == 4 * |ws|
  {
    if ws == [] then [] else HostWord(ws[0]) + HostPixels(ws[1..])
  }

  /** The k-th four-byte word of b. */
  function WordAt(b: Bytes, k: nat): Bytes
    requires 4 * k + 4 <= |b|
  {
    b[4 * k..4 * k + 4]
  }

  /** Word k of the pixel data is the host image of the k-th pixel. */
  lemma {:induction false} HostPixelsAt(ws: seq<uint32>, k: nat)
    requires k < |ws|
    ensures WordAt(HostPixels(ws), k) == HostWord(ws[k])
  {
    var head, tail := HostWord(ws[0]), HostPixels(ws[1..]);
    assert HostPixels(ws) == head + tail;
    if k == 0 {
      WordOfJoin(head, tail, 0);
    } else {
      HostPixelsAt(ws[1..], k - 1);
      WordOfJoin(head, tail, 4 * k);
    }
  }

  /** Four elements at offset i of a four-element head joined to a tail. */
  lemma WordOfJoin<T>(head: seq<T>, tail: seq<T>, i: nat)
    requires |head| == 4 && i + 4 <= |head| + |tail| && (i == 0 || i >= 4)
    ensures i == 0 ==> (head + tail)[i..i + 4] == head
    ensures i >= 4 ==> (head + tail)[i..i + 4] == tail[i - 4..i]
  {
  }

  /** After a 16-byte header, word k of a raw rectangle is the host image of its k-th pixel. */
  lemma RawBody(header: Bytes, pixels: seq<uint32>)
    requires |header| == 16
    ensures (header + HostPixels(pixels))[..16] == header
    ensures forall k | 0 <= k < |pixels| :: WordAt((header + HostPixels(pixels))[16..], k) == HostWord(pixels[k])
  {
    assert (header + HostPixels(pixels))[16..] == HostPixels(pixels);
    forall k | 0 <= k < |pixels|
      ensures WordAt(HostPixels(pixels), k) == HostWord(pixels[k])
    {
      HostPixelsAt(pixels, k);
    }
  }

  /**
   * The position of element (i, j) of a width-by-height array stored row by
   * row: the layout of the framebuffer and of a raw rectangle alike.
   */
  function Index(width: nat, height: nat, i: nat, j: nat): (k: nat)
    requires i < width && j < height
    ensures k < width * height
  {
    MulLe(j + 1, height, width);
    j * width + i
  }

  lemma MulLe(a: nat, b: nat, c: nat)
    requires a <= b
    ensures a * c <= b * c
  {
  }

  /** The word holding pixel (px, py) of the framebuffer. */
  function PixelAt(bitmap: seq<uint32>, fbWidth: nat, fbHeight: nat, px: nat, py: nat): uint32
    requires |bitmap| == fbWidth * fbHeight && px < fbWidth && py < fbHeight
  {
    bitmap[Index(fbWidth, fbHeight, px, py)]
  }

  /**
   * rfb_serv_update as written: the header, then w*h words taken from the
   * start of the bitmap, whatever x and y say.  Nothing checks the rectangle
   * against the framebuffer; the send reads past the bitmap when w*h exceeds
   * its size, so the model asks that it does not.
   */
  function UpdateAsWritten(bitmap: seq<uint32>, x: uint16, y: uint16, w: uint16, h: uint16): (r: Bytes)
    requires w * h <= |bitmap|
    ensures |r| == 16 + 4 * (w * h)
    ensures r[..16] == UpdateHeader(x, y, w, h)
    ensures forall k | 0 <= k < w * h :: WordAt(r[16..], k) == HostWord(bitmap[k])
  {
    var pixels := bitmap[..w * h];
    RawBody(UpdateHeader(x, y, w, h), pixels);
    UpdateHeader(x, y, w, h) + HostPixels(pixels)
  }

  /**
   * A 2x1 framebuffer holding words 1 and 2: asked for the pixel at (1, 0),
   * the update as written sends the pixel at (0, 0).
   */
  lemma UpdateAsWrittenIgnoresOrigin()
    ensures var r := UpdateAsWritten([1, 2], 1, 0, 1, 1);
      WordAt(r[16..], 0) == HostWord(PixelAt([1, 2], 2, 1, 0, 0))
      && WordAt(r[16..], 0) != HostWord(PixelAt([1, 2], 2, 1, 1, 0))
  {
    var r := UpdateAsWritten([1, 2], 1, 0, 1, 1);
    assert WordAt(r[16..], 0) == HostWord(1);
    assert HostWord(1)[0] == 1 && HostWord(2)[0] == 2;
  }

  /** Row y of the framebuffer from column x, w words long. */
  function Row(bitmap: seq<uint32>, fbWidth: nat, fbHeight: nat, x: nat, y: nat, w: nat): (r: seq<uint32>)
    requires |bitmap| == fbWidth * fbHeight && x + w <= fbWidth && y < fbHeight
    ensures |r| == w
    ensures forall i | 0 <= i < w :: r[i] == PixelAt(bitmap, fbWidth, fbHeight, x + i, y)
  {
    MulLe(y + 1, fbHeight, fbWidth);
    bitmap[y * fbWidth + x..y * fbWidth + x + w]
  }

  /**
   * The pixels of the w-by-h rectangle at (x, y), row by row, for a
   * rectangle that lies inside the framebuffer.
   */
  function Rect(bitmap: seq<uint32>, fbWidth: nat, fbHeight: nat, x: nat, y: nat, w: nat, h: nat): (r: seq<uint32>)
    requires |bitmap| == fbWidth * fbHeight && x + w <= fbWidth && y + h <= fbHeight
    ensures |r| == w * h
    ensures forall i, j | 0 <= i < w && 0 <= j < h ::
      r[Index(w, h, i, j)] == PixelAt(bitmap, fbWidth, fbHeight, x + i, y + j)
    decreases h
  {
    if h == 0 then []
    else
      var top := Rect(bitmap, fbWidth, fbHeight, x, y, w, h - 1);
      var row := Row(bitmap, fbWidth, fbHeight, x, y + h - 1, w);
      RectExtend(bitmap, fbWidth, fbHeight, x, y, w, h - 1, h, top, row);
      top + row
  }

  /**
   * Appending row y+h-1 to the first h-1 rows of the rectangle gives its h
   * rows: earlier rows stay where they were and the new one becomes row h-1.
   */
  lemma RectExtend(bitmap: seq<uint32>, fbWidth: nat, fbHeight: nat, x: nat, y: nat, w: nat, n: nat, h: nat,
                   top: seq<uint32>, row: seq<uint32>)
    requires |bitmap| == fbWidth * fbHeight && x + w <= fbWidth && h == n + 1 && y + h <= fbHeight
    requires |top| == w * n && |row| == w
    requires forall i, j | 0 <= i < w && 0 <= j < n ::
      top[Index(w, n, i, j)] == PixelAt(bitmap, fbWidth, fbHeight, x + i, y + j)
    requires forall i | 0 <= i < w :: row[i] == PixelAt(bitmap, fbWidth, fbHeight, x + i, y + n)
    ensures |top + row| == w * h
    ensures forall i, j | 0 <= i < w && 0 <= j < h ::
      (top + row)[Index(w, h, i, j)] == PixelAt(bitmap, fbWidth, fbHeight, x + i, y + j)
  {
    assert w * n + w == w * h;
    forall i, j | 0 <= i < w && 0 <= j < h
      ensures (top + row)[Index(w, h, i, j)] == PixelAt(bitmap, fbWidth, fbHeight, x + i, y + j)
    {
      if j < n {
        assert Index(w, h, i, j) == Index(w, n, i, j);
      } else {
        assert Index(w, h, i, j) == |top| + i;
      }
    }
  }

  /**
   * rfb_serv_update as intended: the update for the w-by-h rectangle at
   * (x, y), or None when the rectangle does not lie inside the framebuffer.
   * UpdatePixels states what the pixel data holds.
   */
  function Update(bitmap: seq<uint32>, fbWidth: uint16, fbHeight: uint16, x: uint16, y: uint16, w: uint16, h: uint16): (r: Option<Bytes>)
    requires |bitmap| == fbWidth * fbHeight
    ensures r.Some? <==> x + w <= fbWidth && y + h <= fbHeight
    ensures r.Some? ==> |r.value| == 16 + 4 * (w * h) && r.value[..16] == UpdateHeader(x, y, w, h)
  {
    if x + w <= fbWidth && y + h <= fbHeight then
      var pixels := Rect(bitmap, fbWidth, fbHeight, x, y, w, h);
      RawBody(UpdateHeader(x, y, w, h), pixels);
      Some(UpdateHeader(x, y, w, h) + HostPixels(pixels))
    else
      None
  }

  /**
   * The pixel data of an update holds the rectangle row by row: word
   * Index(w, h, i, j) is pixel (x + i, y + j) as it lies in host memory.
   */
  lemma UpdatePixels(bitmap: seq<uint32>, fbWidth: uint16, fbHeight: uint16, x: uint16, y: uint16, w: uint16, h: uint16)
    requires |bitmap| == fbWidth * fbHeight && x + w <= fbWidth && y + h <= fbHeight
    ensures var r := Update(bitmap, fbWidth, fbHeight, x, y, w, h).value;
      forall i, j | 0 <= i < w && 0 <= j < h ::
        WordAt(r[16..], Index(w, h, i, j)) == HostWord(PixelAt(bitmap, fbWidth, fbHeight, x + i, y + j))
  {
    var pixels := Rect(bitmap, fbWidth, fbHeight, x, y, w, h);
    RawBody(UpdateHeader(x, y, w, h), pixels);
  }

  /** Whole rows from the top of the framebuffer are a prefix of the bitmap. */
  lemma {:induction false} RectOfFullRows(bitmap: seq<uint32>, fbWidth: nat, fbHeight: nat, h: nat)
    requires |bitmap| == fbWidth * fbHeight && h <= fbHeight
    ensures fbWidth * h <= |bitmap|
    ensures Rect(bitmap, fbWidth, fbHeight, 0, 0, fbWidth, h) == bitmap[..fbWidth * h]
  {
    MulLe(h, fbHeight, fbWidth);
    if h > 0 {
      RectOfFullRows(bitmap, fbWidth, fbHeight, h - 1);
      var row := Row(bitmap, fbWidth, fbHeight, 0, h - 1, fbWidth);
      assert fbWidth * (h - 1) == (h - 1) * fbWidth;
      assert (h - 1) * fbWidth + fbWidth == fbWidth * h;
      assert row == bitmap[fbWidth * (h - 1)..fbWidth * h];
      assert bitmap[..fbWidth * h] == bitmap[..fbWidth * (h - 1)] + bitmap[fbWidth * (h - 1)..fbWidth * h];
    }
  }

  /**
   * For whole rows from the top of the framebuffer the origin and the bound
   * do not matter: the update as written and Update send the same bytes.
   */
  lemma UpdateAgreesOnFullRows(bitmap: seq<uint32>, fbWidth: uint16, fbHeight: uint16, h: uint16)
    requires |bitmap| == fbWidth * fbHeight && h <= fbHeight
    ensures fbWidth * h <= |bitmap|
    ensures Update(bitmap, fbWidth, fbHeight, 0, 0, fbWidth, h) == Some(UpdateAsWritten(bitmap, 0, 0, fbWidth, h))
  {
    RectOfFullRows(bitmap, fbWidth, fbHeight, h);
  }
}
