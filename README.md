# A verified model of the RFB server in rfb/

This project models the protocol logic of the embedded Remote Framebuffer
(VNC) server in `rfb/rfb.h` and `rfb/rfb.c`, which speaks RFB 3.3 to 3.8 as
RFC 6143 describes it. It proves properties of that model.

The model covers:

- **Wire codec** (`wire.dfy`, module `Wire`). The `PK8`..`UPK32` macros
  become functions between fixed-width integers and their big-endian images,
  proved to be inverse. `Swap32` and `HostWord` describe the little-endian
  host the program runs on. Host order matters only where a value in host
  order reaches the wire: raw pixels and two misuses of `htonl`.
- **Constants and records** (`protocol.dfy`, `pixelformat.dfy`):
  - `RFBVER`, and `MAJ`/`MIN` with `atoi` written out;
  - the security types, `COLORS` and `NAME_DFT`;
  - `RFBPXL_DFT` and `RFBPROTO_DFT`;
  - the 16-byte pixel-format record: packed in place by `memset`/`memcpy` and
    decoded field by field;
  - the record `rfb_run` builds from its arguments.
- **Handshake** (`handshake.dfy`). The version exchange, security negotiation
  and ServerInit are functions. Each one maps the shared protocol record and
  the client's bytes to four things: the bytes the server sends, the bytes it
  reads, the record afterwards, and whether the connection goes on. A client
  stream that ends early is a failed read (`ReadFailed`), because
  `recvall`/`client_die` end the thread.
- **Client messages** (`messages.dfy`):
  - the framing that each handler reads after the type byte;
  - a client-side encoder used as the parser's partner;
  - the FramebufferUpdate with one raw rectangle.
- **Event list** (`events.dfy`). It is a class over linked nodes with a ghost
  sequence of nodes. `Push` links a node in at the head, as `rfb_client_ptr`
  does. `EventNext` walks to the tail and unlinks it, as `rfb_event_next`
  does. `PopOldest` is the total version. A FIFO lemma shows that pops return
  events in arrival order.
- **Server** (`server.dfy`). The class `Server` holds three fields:
  - the protocol record;
  - the bitmap, as an array of words;
  - the event list.

  Its constructor `Run` is the configuration part of `rfb_run`. `HandleClient`
  is `rfb_handle_client`: the handshake, then a message loop (`ServeMessages`
  and `ServeOne`). The loop is proved against the pure loop `Dispatch`, whose
  own properties are lemmas: the messages handled, the bytes sent, the events
  queued and their FIFO order.

  The server level is the corrected program, not the program as written. Three
  defects in the Findings table are fixed there: the update sender, the stored
  security choice and the failure reply. The members that model the code as
  written stand beside the corrected ones, each with a lemma showing where the
  two differ.

Behaviour of the source that the model keeps:

- The protocol record is shared by every client thread, and the handshake
  writes into it. Once a client has connected, the server offers later clients
  the version string that client sent. When the client picks a security type,
  the model stores the choice itself in `sec[0]`. This is the corrected half of
  the Findings row for `rfb/rfb.c:189`. The source stores a byte-swapped value,
  which is 0 on a little-endian host.
- `recvall` receives the client's version straight into the shared record. A
  stream that ends before twelve bytes have arrived leaves the bytes that did
  arrive at the start of the version string.
- `rfb_client_set_pxl` stores the colour maxima as soon as it has read them, and
  only then reads the shifts and the padding. A SetPixelFormat whose stream ends
  after byte 14 therefore leaves the new maxima in the shared record.
- `MIN` is taken from the client's version string. That number, not the
  server's, chooses the security exchange.
- Below minor version 7 the server reads no security choice. It still sends
  the status word 0.
- `rfb_client_set_pxl` reads the whole pixel format. It stores only the three
  colour maxima.
- The `sinfop->infop` of `rfb/rfb.c` and the `pinfo` field of `rfb/rfb.h` are
  modelled as one record.

## Model

| member | source | states |
|---|---|---|
| Wire.FromToBigEndian | rfb/rfb.h:34-37 | decoding the n-byte big-endian image of any value below 256^n gives the value back |
| Wire.ToFromBigEndian | rfb/rfb.h:34-37 | encoding the value of any byte string, at its own length, gives the string back |
| Wire.Trunc8 | rfb/rfb.h:32-33 | the conversion to uint8_t yields the byte congruent to the input modulo 2^8 |
| Wire.Trunc16 | rfb/rfb.h:34-35 | the conversion to uint16_t yields the value congruent modulo 2^16 |
| Wire.Trunc32 | rfb/rfb.h:36-37 | the conversion to uint32_t yields the value congruent modulo 2^32 |
| Wire.Pk8RoundTrip | rfb/rfb.h:32-33 | UPK8(PK8(b)) == b for every byte |
| Wire.Pk16 | rfb/rfb.h:34 | PK16 yields two bytes, most significant first, whose value is the input truncated to 16 bits |
| Wire.Upk16 | rfb/rfb.h:35 | UPK16 reads two bytes in network order: first byte times 256 plus the second |
| Wire.Pk32 | rfb/rfb.h:36 | PK32 yields four bytes, most significant first, whose value is the input truncated to 32 bits |
| Wire.Upk32 | rfb/rfb.h:37 | UPK32 reads four bytes in network order |
| Wire.Pk16RoundTrip | rfb/rfb.h:34-35 | UPK16(PK16(x)) == x for every 16-bit x, and PK16(UPK16(b)) == b for every two bytes |
| Wire.Pk32RoundTrip | rfb/rfb.h:36-37 | UPK32(PK32(x)) == x for every 32-bit x, and PK32(UPK32(b)) == b for every four bytes |
| Wire.Swap32 | rfb/rfb.h:36-37 | htonl as a value on a little-endian host: the word whose network image is the reversed image of the input |
| Wire.HostWord | rfb/rfb.c:136 | a word as it lies in host memory: the byte-swapped word's network image, low-order byte first |
| Protocol.RfbVer | rfb/rfb.h:40-41 | RFBVER(maj, min) is the twelve ASCII bytes "RFB 00" maj ".00" min "\n" |
| Protocol.Atoi | rfb/rfb.h:42-43 | atoi: a negative value needs a '-' in the bytes, and bytes holding no digit give 0 |
| Protocol.Maj | rfb/rfb.h:42 | MAJ: atoi of the version bytes from offset 4; RfbVerFields shows it gives back the major number |
| Protocol.Min | rfb/rfb.h:43 | MIN: atoi of the version bytes from offset 8; RfbVerFields shows it gives back the minor number |
| Protocol.AtoiOfPaddedDigit | rfb/rfb.h:42-43 | atoi of "00d" followed by a non-digit is d |
| Protocol.RfbVerFields | rfb/rfb.h:40-43 | RFBVER(maj, min) is twelve bytes; MAJ gives back maj and MIN gives back min |
| Protocol.ClientColour | rfb/rfb.c:622 | the colour colors[r % 6] is a member of the six-entry palette, for every r |
| Protocol.DefaultProtInfoFields | rfb/rfb.h:87-95 | the default record is well formed, its version is the 12 bytes "RFB 003.008\n" (3 and 8), it offers exactly [RFBSEC_NONE], its name length is 9 = strlen("Aristotle"), and its pixel format decodes back to itself |
| Protocol.Configure | rfb/rfb.c:646-657 | rfb_run's record is the default, with width and height replaced when non-zero (truncated to 16 bits) and the name and its strlen replaced when a name is given; the record is well formed |
| Protocol.ConfigureDefaultOrOverride | rfb/rfb.c:650-657 | no arguments give exactly RFBPROTO_DFT; in-range arguments are kept as given, and the name served is the one supplied or "Aristotle" |
| PixelFormats.PixelFormatBytes | rfb/rfb.c:239-250 | the 16-byte record: bits, depth, the two flags, the three maxima in network order, the shifts and three bytes of padding |
| PixelFormats.DecodePixelFormat | rfb/rfb.c:273-310 | the fields in the order rfb_client_set_pxl reads them; packing the decoded record gives back the first 13 bytes, so nothing but the padding is lost |
| PixelFormats.DefaultPixelFormatBytes | rfb/rfb.h:65-73 | the default format travels as 32, 24, 1, 1, 0x00ff three times, shifts 16, 8, 0 and three zero bytes |
| PixelFormats.PackPixelFormat | rfb/rfb.c:225-251 | rfb_client_init's packed record is the 16-byte layout: the four one-byte fields, the three maxima in network order, the three shifts and zero padding |
| PixelFormats.FillPixelFormat | rfb/rfb.c:239-251 | after the memset and the ten memcpy calls, the buffer holds each field at its offset and three zero bytes of padding |
| PixelFormats.MemSet | rfb/rfb.c:239 | every byte of the buffer becomes zero |
| PixelFormats.MemCopy | rfb/rfb.c:240-250 | bytes off to off+\|src\| become src; every other byte keeps its value |
| PixelFormats.PixelFormatRoundTrip | rfb/rfb.c:273-310 | decoding a packed record, in the order rfb_client_set_pxl reads it, gives back every field |
| PixelFormats.PixelFormatBytesOfDecode | rfb/rfb.c:273-310 | packing a decoded record gives back the record whenever its padding is zero |
| Handshake.VersionSupported | rfb/rfb.c:153 | the gate of rfb_client_ver: MAJ is 3 and MIN is at most 8 |
| Handshake.VersionGate | rfb/rfb.c:153 | on a well-formed version string the gate lets the connection go on if and only if major is 3 and minor is at most 8 |
| Handshake.VersionExchange | rfb/rfb.c:141-161 | the server's version is sent first; a short stream fails with the bytes that arrived written over the start of the record's version and nothing else changed; otherwise 12 bytes are read into the record, and the exchange goes on exactly when the gate admits them, else it is rejected |
| Handshake.SecurityOffer | rfb/rfb.c:167-181 | below minor 7: one 32-bit word carrying sec[0]; from minor 7: the count seclen, then the first seclen types |
| Handshake.FailureReply | rfb/rfb.c:199-204 | the minor-8 failure reply as RFC 6143 section 7.1.3 lays it out: status 1, the reason's length, the reason |
| Handshake.FailureReplyAsWritten | rfb/rfb.c:201-203 | as written: the status word is PK32(strlen(reason)), and the send size is that word read as a host integer |
| Handshake.FailureReplyAsWrittenIsWrong | rfb/rfb.c:201-203 | the status sent as written reads 28 rather than 1, and the send size is 0x1c000000 bytes, far past the 29-byte string |
| Handshake.SwappedReasonLength | rfb/rfb.c:201 | htonl(28), read back as a host integer, is 0x1c000000 |
| Handshake.StoredChoiceAsWritten | rfb/rfb.c:189 | as written: the choice byte-swapped by UPK32 and truncated to the uint8_t of sec[0] |
| Handshake.StoredChoiceAsWrittenIsErr | rfb/rfb.c:189 | the byte stored as written is RFBSEC_ERR (0) whatever the client chooses, so it differs from every other choice |
| Handshake.SecurityExchange | rfb/rfb.c:164-215 | below minor 7: offer plus status 0, nothing read, record unchanged. From minor 7: a short stream fails after the offer. Otherwise one byte is read and kept in sec[0]; it goes on exactly when the byte is not RFBSEC_ERR. It then sends status 0, or 1 (minor 7) or the failure reply (minor 8) and fails. Only sec changes, and the offer always comes first |
| Handshake.SecurityProceeds | rfb/rfb.c:184-212 | a security phase that goes on sent the offer and status 0, read one byte exactly from minor 7 on (not RFBSEC_ERR, kept in sec[0]), and left the record alone below minor 7 |
| Handshake.ServerInit | rfb/rfb.c:222-261 | ServerInit is 24 + namelen bytes, and bytes 4 to 20 are the packed pixel format |
| Handshake.ServerInitRoundTrip | rfb/rfb.c:222-261 | a viewer decoding ServerInit reads back exactly the record's width, height, pixel format and the namelen characters of its name |
| Handshake.ServerInitOfRecord | rfb/rfb.c:222-261 | ServerInit depends on neither the version string nor the security list |
| Handshake.ClientInit | rfb/rfb.c:218-262 | with a shared-flag byte available it reads one byte and sends ServerInit, which decodes to the record's dimensions, format and name; with none it fails having sent nothing; the record is unchanged |
| Handshake.Handshake | rfb/rfb.c:499-511 | the handshake reads no more than the client sent, changes only the record's version and security list, keeps sec[1], and always starts by sending the server's version |
| Handshake.ProceedingPhases | rfb/rfb.c:499-511 | a handshake that goes on passed all three phases, and its output is the three outputs joined |
| Handshake.HandshakeProceeds | rfb/rfb.c:499-511 | a connection gets through the handshake only with a supported version. It read 12 bytes, then one choice byte exactly when minor >= 7 (not RFBSEC_ERR), then the shared flag. It sent the version, the offer, status 0 and ServerInit, nothing else |
| Messages.ParseMessage | rfb/rfb.c:525-541 | each type byte 0, 2, 3, 4, 5, 6 reads its handler's fields; any other type reads nothing more. A message takes 1 + BodySize bytes (19, 3+4n, 9, 7, 5, 7+len, 0 after the type byte), never more than are present; an empty stream is a failed read |
| Messages.ParseEncode | rfb/rfb.c:525-541 | every message a client frames is decoded as that message, taking exactly its own bytes, whatever follows |
| Messages.ParseEncodePixelFormat | rfb/rfb.c:273-310 | SetPixelFormat: type, 3 padding bytes, the 16-byte record; decoded in 20 bytes with every field |
| Messages.ParseEncodeEncodings | rfb/rfb.c:339-353 | SetEncodings: padding, a big-endian count n, 4n bytes; decoded in 4 + 4n bytes |
| Messages.ParseEncodeUpdateRequest | rfb/rfb.c:373-391 | FramebufferUpdateRequest: incremental flag and x, y, w, h in network order; decoded in 10 bytes |
| Messages.ParseEncodeKey | rfb/rfb.c:405-416 | KeyEvent: down flag, 2 padding bytes, 32-bit key; decoded in 8 bytes |
| Messages.ParseEncodePointer | rfb/rfb.c:435-445 | PointerEvent: button mask, x, y; decoded in 6 bytes |
| Messages.ParseEncodeCutText | rfb/rfb.c:474-489 | ClientCutText: 3 padding bytes, 32-bit length, that many bytes; decoded in 8 + length bytes |
| Messages.ParsePrefix | rfb/rfb.c:525-541 | framing is self-delimiting: a message is decoded from its own bytes, whatever follows them |
| Messages.CutMaxima | rfb/rfb.c:273-298 | the maxima a SetPixelFormat has stored when its stream ends early: some exactly when the stream ends after byte 14 and before the message is whole |
| Messages.CutMaximaOfEncode | rfb/rfb.c:273-298 | a client's SetPixelFormat cut after n bytes is never decoded, and from byte 14 on the maxima already stored are those of the format it was sending |
| Messages.UpdateHeader | rfb/rfb.c:103-133 | the 16-byte head of an update with one raw rectangle: type 0, padding, count 1, x, y, w, h, encoding 0 |
| Messages.UpdateHeaderFields | rfb/rfb.c:103-133 | the update head places type 0, count 1, x, y, w, h and encoding 0 at their offsets |
| Messages.UpdateHeaderRoundTrip | rfb/rfb.c:103-133 | a viewer reads from the 16-byte head one raw rectangle with exactly the x, y, w, h sent |
| Messages.HostPixelsAt | rfb/rfb.c:136 | word k of the raw pixel data is pixel k as it lies in host memory |
| Messages.RawBody | rfb/rfb.c:136 | after the 16-byte head, word k of the body is the host image of pixel k |
| Messages.UpdateAsWritten | rfb/rfb.c:95-138 | as written: the head, then the first w*h words of the bitmap, whatever x and y are |
| Messages.UpdateAsWrittenIgnoresOrigin | rfb/rfb.c:100-136 | on a 2x1 framebuffer, a request for pixel (1, 0) is answered with pixel (0, 0) |
| Messages.Rect | rfb/rfb.c:100-136 | the rectangle's pixels row by row: element (i, j) is framebuffer pixel (x+i, y+j) |
| Messages.RectOfFullRows | rfb/rfb.c:100-136 | whole rows from the top of the framebuffer are a prefix of the bitmap |
| Messages.Update | rfb/rfb.c:95-138 | the update exists exactly when the rectangle lies inside the framebuffer; it is the 16-byte head for x, y, w, h followed by 4*w*h bytes |
| Messages.UpdatePixels | rfb/rfb.c:95-138 | word (i, j) of an update's pixel data is framebuffer pixel (x+i, y+j) in host order |
| Messages.UpdateAgreesOnFullRows | rfb/rfb.c:100-136 | for whole rows from the origin, the update as written and the corrected update send the same bytes |
| Events.EventQueue.constructor | rfb/rfb.c:665 | the event list starts empty |
| Events.EventQueue.Push | rfb/rfb.c:450-458 | a new node carrying the event becomes the head; the old nodes follow unchanged |
| Events.EventQueue.EventNext | rfb/rfb.c:548-562 | on two or more nodes it returns the tail, the oldest event, unlinked; the list is the old one minus its last node |
| Events.EventQueue.PopOldest | rfb/rfb.c:548-562 | returns the oldest event (none on an empty list) and leaves the rest, the single node of a one-node list included |
| Events.DrainPushed | rfb/rfb.c:548-562 | the event pushed last is the last to be popped |
| Events.Fifo | rfb/rfb.c:548-562 | pops return what was queued before, then the pushed events in the order they were pushed |
| Events.WalkToTail | rfb/rfb.c:550-560 | the walk ends at the tail; ev_prev holds the tail's predecessor when the walk took a step, and is left as it was when it took none |
| Events.WalkFromHead | rfb/rfb.c:550-560 | from the head, two or more nodes leave the tail's predecessor in ev_prev; one node leaves ev_prev never assigned |
| Server.PointerAccepted | rfb/rfb.c:448 | the filter of rfb_client_ptr: x < fbwidth, y < fbheight and some button down |
| Server.QueuedEvents | rfb/rfb.c:447-459 | every event queued carries the client's colour and passes the filter, and each comes from a pointer message handled |
| Server.PointerFilter | rfb/rfb.c:447-459 | a pointer message queues one event with its colour, mask, x and y exactly when x < fbwidth, y < fbheight and mask != 0, and nothing otherwise |
| Server.StoreMaxima | rfb/rfb.c:296-298 | the record's format with the three maxima replaced |
| Server.CutStore | rfb/rfb.c:289-298 | after a read that comes up short, the stored format keeps its layout, and changes only if a SetPixelFormat was cut after its maxima |
| Server.StoreMaximaFields | rfb/rfb.c:296-298 | SetPixelFormat stores the requested maxima and changes no other field; storing again changes nothing |
| Server.Step | rfb/rfb.c:530-541 | a message is handled exactly when it is not an update request outside the framebuffer, and it is then appended to those handled |
| Server.StepEffects | rfb/rfb.c:530-541 | one handled message adds its reply to the bytes sent and its accepted pointer event at the head of the list, and keeps the format's layout |
| Server.Dispatch | rfb/rfb.c:525-542 | the loop ends only with a failed read or an unanswerable request, and only adds to the messages handled; a failed read inside a SetPixelFormat after its maxima leaves them stored |
| Server.DispatchAnswerable | rfb/rfb.c:525-542 | every update request the loop handled lay inside the framebuffer |
| Server.DispatchQueue | rfb/rfb.c:455-457 | the list afterwards is the old list with the accepted pointer events of the handled messages pushed in arrival order |
| Server.DispatchSent | rfb/rfb.c:525-542 | the bytes the loop sends are the replies to the handled messages, in order |
| Server.DispatchLayout | rfb/rfb.c:296-298 | the loop changes no field of the stored pixel format other than the maxima |
| Server.DispatchAdvance | rfb/rfb.c:525-542 | after framing a message at some position, the loop either stops there on an unanswerable request or goes on after it |
| Server.DispatchFifo | rfb/rfb.c:548-562 | draining the list after the loop gives the events queued before, then the loop's accepted pointer events in arrival order |
| Server.DispatchCutPixelFormat | rfb/rfb.c:289-310 | a SetPixelFormat ended after n bytes is a failed read; from byte 14 on it leaves the record as the complete message would, and before that unchanged |
| Server.DispatchFramed | rfb/rfb.c:525-541 | a stream of framed messages, all answerable, is handled message for message in order, and the loop ends only when the stream does |
| Server.Server.Run | rfb/rfb.c:641-662 | the record is Configure(w, h, name); the bitmap holds fbwidth*fbheight zero words; the event list is empty |
| Server.Server.HandleMessage | rfb/rfb.c:530-541 | one pass of the switch on the record and the list does exactly what Step says; an unanswerable request changes nothing |
| Server.Server.ServeOne | rfb/rfb.c:525-541 | one turn of the loop: either the loop stops here as Dispatch does, with the list untouched and the record as the short read leaves it, or it advances past one message with the state Step gives |
| Server.Server.ServeMessages | rfb/rfb.c:525-542 | the loop's bytes sent, its outcome, the stored format and the event list are exactly those of Dispatch |
| Server.Server.HandleClient | rfb/rfb.c:514-545 | a failed handshake sends what the handshake sent and leaves the list alone. Otherwise the client thread sends the handshake's bytes and then the loop's. The record keeps the handshake's writes and the client's maxima, and the list ends as Dispatch leaves it |

## Left out

- Sockets, `rfb_sockinit`, `listen`, the accept loop of `rfb_accept` and the client registry it keeps: operating-system I/O. `sendall` and `recvall` are abstracted: each transfers exactly the bytes asked for, or the thread ends with `ReadFailed`. Two reads write into the shared record before the thread ends: the version string and the SetPixelFormat maxima. Both keep what was written.
- A `recv`/`send` returning 0 makes the `sendall`/`recvall` loops spin without progress. The same holds for the type-byte `recv` at `rfb/rfb.c:527-528`, whose error is only printed before the switch runs on a stale byte. Neither is modelled: a stream that ends is a failed read.
- Threads, mutexes, cancellation, `rfb_kill`, `rfb_thread_cleanup` and the error-exit helpers: the pushes are modelled as atomic and a failure as an outcome.
- Logging with `printf`/`fprintf`, including the missing arguments of the message at `rfb/rfb.c:155`.
- `rand_r`: the random value is a parameter of `Protocol.ClientColour`, and a client's colour is a parameter of `HandleClient`.
- The contents of the SetEncodings list, the KeyEvent and the ClientCutText text are read and thrown away by the source. Only their framing is modelled.
- The `memcpy` at `rfb/rfb.c:175` copies `seclen + 1` bytes into a buffer that has room for `seclen`, and reads one byte past the list. Only the bytes sent, the count and the first `seclen` types, are modelled; the overrun is not.
- The ClientCutText handler writes `buf[bufsz - 1]`. When `bufsz` is 0, the unsigned index wraps to 0xFFFFFFFF, which on a 64-bit host lies about 4 GiB past the one-byte buffer. This does not change the bytes the handler consumes, so it is not modelled.
- Server.Server.Run: the product `fbwidth * fbheight` is taken as a mathematical integer; the signed `int` overflow of `rfb/rfb.c:660` cannot occur for the default size and is not modelled. The same holds for `int numpxl = w * h` at `rfb/rfb.c:100`.
- Protocol.Atoi: reading stops at the end of the 12-byte version buffer. In the source `atoi` goes on into the next byte of the record, `seclen`, whose value 1 is not a digit, so the result is the same.
- Server.Step: the update request is answered by the corrected `Messages.Update`, not by `rfb_serv_update` as written. So an in-bounds request away from the origin gets the requested pixels. A request reaching past the framebuffer ends the connection with `RectangleOutOfBounds`, where the source sends the first `w*h` words of the bitmap. `Messages.UpdateAsWritten` models the program as written.
- Server.Server.HandleClient: it is the corrected program. It runs the corrected `Server.Step` and the handshake with the corrected security phase, so its bytes differ from the source's wherever the three Findings rows for `rfb/rfb.c:100-136`, `:189` and `:201-203` apply.
- Handshake.SecurityExchange: it stores the client's choice itself in `sec[0]` and sends the RFC 6143 failure reply. The source stores the byte-swapped value and sends the reply described in the Findings table. `Handshake.StoredChoiceAsWritten` and `Handshake.FailureReplyAsWritten` model the code as written.
- The bitmap is read only here. The application writes it, and that is not part of this model.
- The Qt front end (`window.cpp`, `drawingarea.cpp`) and the test driver `rfb/rfb_test.c` are not part of this model.

## Findings

| source | as written | input that shows it | evidently intended | confidence | as-written member | corrected member |
|---|---|---|---|---|---|---|
| rfb/rfb.c:100-136 | `rfb_serv_update` sends the first `w*h` words of the bitmap whatever `x` and `y` are, and checks no bounds | a 2x1 framebuffer holding 1, 2 and a request for the 1x1 rectangle at (1, 0): the word sent is pixel (0, 0) | send the pixels of the requested rectangle, row by row, and refuse a rectangle outside the framebuffer | not executed | Messages.UpdateAsWritten, Messages.UpdateAsWrittenIgnoresOrigin | Messages.Update, Messages.UpdatePixels |
| rfb/rfb.c:189 | `sec[0] = UPK32(client_sec)` byte-swaps a one-byte choice before storing it as `uint8_t`, so the byte stored is 0 on a little-endian host | a 3.8 client choosing type 1: `sec[0]` becomes 0, and later clients are offered RFBSEC_ERR | store the choice itself | not executed | Handshake.StoredChoiceAsWritten, Handshake.StoredChoiceAsWrittenIsErr | Handshake.SecurityExchange |
| rfb/rfb.c:201-203 | the minor-8 failure reply sends `PK32(28)` as the status and uses that byte-swapped value as the send size | a 3.8 client choosing type 0: the status reads 28, and the send asks for 0x1c000000 bytes of a 29-byte string | status 1, then the reason length 28, then the 28 reason bytes | not executed | Handshake.FailureReplyAsWritten, Handshake.FailureReplyAsWrittenIsWrong | Handshake.FailureReply |
| rfb/rfb.c:550-560 | `rfb_event_next` assigns `ev_prev` only inside the loop, then writes through it | a list of exactly one event: the loop never runs and `ev_prev->next = NULL` writes through an uninitialised pointer | empty the list when its only node is taken | not executed | Events.WalkToTail, Events.WalkFromHead | Events.EventQueue.PopOldest |
