/**
 * The per-connection handshake of rfb_handshake: version exchange
 * (rfb_client_ver), security negotiation (rfb_client_sec) and initialisation
 * (rfb_client_init), sections 7.1 and 7.3 of RFC 6143.  Each phase is a
 * function from the shared protocol record and the bytes the client sends to
 * the bytes the server sends, the number of client bytes it reads, the record
 * afterwards and whether the connection goes on.  A client stream that ends
 * before a phase has read what it needs is a failed read.
 */
module Handshake {
  import opened Wire
  import opened Wrappers
  import opened Protocol
  import opened PixelFormats

  /** How the handling of a connection ends, or that it goes on. */
  datatype Outcome =
    | Proceed
    | ReadFailed             // a recvall came up short: the client thread exits
    | VersionRejected        // unsupported version: the thread exits before security
    | SecurityFailed         // the client chose RFBSEC_ERR
    | RectangleOutOfBounds   // an update request outside the framebuffer (see Messages.Update)

  // The message loop of Server ends in the same ways as a handshake phase,
  // plus RectangleOutOfBounds; one type serves both so that
  // Server.Server.HandleClient reports either kind of ending.

  /** What one phase did. */
  datatype Phase = Phase(sent: Bytes, consumed: nat, info: ProtInfo, outcome: Outcome)

  // ---------------------------------------------------------------- version

  /** The version gate of rfb_client_ver: major 3 and minor at most 8. */
  predicate VersionSupported(ver: Bytes)
    requires |ver| == RfbVerSize
  {
    Maj(ver) == 3 && Min(ver) <= 8
  }

  /** On well-formed version strings the gate admits exactly 3.0 to 3.8. */
  lemma {:induction false} VersionGate(maj: Digit, min: Digit)
    ensures VersionSupported(RfbVer(maj, min)) <==> maj == 3 && min <= 8
  {
    RfbVerFields(maj, min);
  }

  /**
   * rfb_client_ver: send the record's version string, read the client's
   * twelve bytes into the same record (the shared record keeps them, whatever
   * the gate decides), then apply the gate.  recvall receives straight into
   * the record, so a stream that ends early has already overwritten the
   * first bytes of the version string with those that arrived.
   */
  function VersionExchange(info: ProtInfo, input: Bytes): (r: Phase)
    requires info.Valid()
    ensures r.info.Valid() && r.sent == info.ver && r.consumed <= |input|
    ensures |input| < RfbVerSize ==>
      && r.outcome == ReadFailed
      && r.info == info.(ver := r.info.ver)
      && r.info.ver[..|input|] == input && r.info.ver[|input|..] == info.ver[|input|..]
    ensures |input| >= RfbVerSize ==>
      && r.consumed == RfbVerSize
      && r.info == info.(ver := input[..RfbVerSize])
      && (r.outcome == Proceed <==> VersionSupported(input[..RfbVerSize]))
      && (r.outcome != Proceed ==> r.outcome == VersionRejected)
  {
    if |input| < RfbVerSize then
      Phase(info.ver, |input|, info.(ver := input + info.ver[|input|..]), ReadFailed)
    else
      var info' := info.(ver := input[..RfbVerSize]);
      Phase(info.ver, RfbVerSize, info', if VersionSupported(info'.ver) then Proceed else VersionRejected)
  }

  // ---------------------------------------------------------------- security

  /** "Security negotiation failed." */
  const SecurityFailureReason: Bytes := [
    0x53, 0x65, 0x63, 0x75, 0x72, 0x69, 0x74, 0x79, 0x20, 0x6e, 0x65, 0x67, 0x6f, 0x74,
    0x69, 0x61, 0x74, 0x69, 0x6f, 0x6e, 0x20, 0x66, 0x61, 0x69, 0x6c, 0x65, 0x64, 0x2e]

  /**
   * The security types the server offers: for minor versions below 7 the
   * first type as one 32-bit word, otherwise a count byte followed by the
   * first secLen types.
   */
  function SecurityOffer(info: ProtInfo): (r: Bytes)
    requires info.Valid()
    ensures Min(info.ver) < 7 ==> |r| == 4 && Upk32(r) == info.sec[0]
    ensures Min(info.ver) >= 7 ==> |r| == 1 + info.secLen as int && r[0] == info.secLen && r[1..] == info.sec[..info.secLen]
  {
    if Min(info.ver) < 7 then Pk32(info.sec[0]) else [info.secLen] + info.sec[..info.secLen]
  }

  /**
   * The failure reply for minor versions 8 and up, as section 7.1.3 of RFC
   * 6143 lays it out: status 1, then the length of the reason and the reason.
   */
  function FailureReply(): (r: Bytes)
    ensures |r| == 8 + |SecurityFailureReason|
    ensures Upk32(r[..4]) == 1 && Upk32(r[4..8]) == |SecurityFailureReason| && r[8..] == SecurityFailureReason
  {
    var status, len := Pk32(1), Pk32(|SecurityFailureReason|);
    var r := status + len + SecurityFailureReason;
    assert r[..4] == status && r[4..8] == len;
    Pk32RoundTrip(1, status);
    Pk32RoundTrip(|SecurityFailureReason|, len);
    r
  }

  /**
   * The failure reply for minor versions 8 and up as rfb_client_sec writes it:
   * the status word carries PK32(strlen(reason)), and that same byte-swapped
   * value, read back as a host integer, is the number of reason bytes sent.
   */
  function FailureReplyAsWritten(): (reply: (Bytes, nat))
  {
    (Pk32(|SecurityFailureReason|), Swap32(|SecurityFailureReason|))
  }

  /** The status sent says 28 where 1 (failed) is due, and the send reads far past the reason. */
  lemma FailureReplyAsWrittenIsWrong()
    ensures var (status, size) := FailureReplyAsWritten();
      && Upk32(status) == 28 && status != FailureReply()[..4]
      && size == 0x1c00_0000 && size > |SecurityFailureReason| + 1
  {
    var (status, size) := FailureReplyAsWritten();
    assert Upk32(status) == 28 by {
      Pk32RoundTrip(28, status);
    }
    assert status != FailureReply()[..4] by {
      assert Upk32(FailureReply()[..4]) == 1;
    }
    SwappedReasonLength();
  }

  /** htonl(28) read back as a host integer on a little-endian host. */
  lemma SwappedReasonLength()
    ensures Swap32(|SecurityFailureReason|) == 0x1c00_0000
  {
    assert Pk32(28) == [0, 0, 0, 28] by {
      Pk32RoundTrip(0, [0, 0, 0, 28]);
    }
    var size := Swap32(28);
    assert Pk32(size) == [28, 0, 0, 0];
    Pk32RoundTrip(size, [28, 0, 0, 0]);
  }

  /**
   * The byte rfb_client_sec stores in sec[0], as written: UPK32 applied to the
   * one-byte choice, converted back to uint8_t.  On a little-endian host the
   * choice lands in the top byte, so the stored byte is always 0.
   */
  function StoredChoiceAsWritten(choice: uint8): uint8
  {
    Trunc8(Swap32(choice))
  }

  /** Whatever the client chooses, the record is left offering RFBSEC_ERR first. */
  lemma StoredChoiceAsWrittenIsErr(choice: uint8)
    ensures StoredChoiceAsWritten(choice) == RfbSecErr
    ensures choice != RfbSecErr ==> StoredChoiceAsWritten(choice) != choice
  {
    var p := Pk32(choice);
    assert p == [0, 0, 0, choice];
    var q := Reverse(p);
    assert q == [choice, 0, 0, 0];
    assert Swap32(choice) == choice * 0x100_0000;
  }

  /**
   * rfb_client_sec, with the client's choice stored as the byte it is: send
   * the offer; for minor 7 and up read the choice and keep it in sec[0]; on
   * RFBSEC_ERR send the failure reply for the version and end the connection,
   * otherwise send status 0.  Below minor 7 nothing is read and the choice is
   * taken to be "none".
   */
  function SecurityExchange(info: ProtInfo, input: Bytes): (r: Phase)
    requires info.Valid()
    ensures r.info.Valid() && r.consumed <= |input| && r.consumed <= 1
    ensures r.info == info.(sec := r.info.sec) && r.info.sec[1] == info.sec[1]
    ensures |r.sent| >= |SecurityOffer(info)| && r.sent[..|SecurityOffer(info)|] == SecurityOffer(info)
    ensures Min(info.ver) < 7 ==>
      r == Phase(SecurityOffer(info) + Pk32(0), 0, info, Proceed)
    ensures Min(info.ver) >= 7 && |input| == 0 ==>
      r.outcome == ReadFailed && r.info == info
    ensures Min(info.ver) >= 7 && |input| > 0 ==>
      && r.consumed == 1
      && r.info.sec[0] == input[0]
      && (r.outcome == Proceed <==> input[0] != RfbSecErr)
      && (input[0] != RfbSecErr ==> r.sent[|SecurityOffer(info)|..] == Pk32(0))
      && (input[0] == RfbSecErr ==>
            && r.outcome == SecurityFailed
            && r.sent[|SecurityOffer(info)|..] == (if Min(info.ver) < 8 then Pk32(1) else FailureReply()))
  {
    var offer := SecurityOffer(info);
    if Min(info.ver) < 7 then
      Phase(offer + Pk32(0), 0, info, Proceed)
    else if |input| == 0 then
      Phase(offer, 0, info, ReadFailed)
    else
      var choice := input[0];
      var info' := info.(sec := info.sec[0 := choice]);
      if choice == RfbSecErr then
        Phase(offer + (if Min(info.ver) < 8 then Pk32(1) else FailureReply()), 1, info', SecurityFailed)
      else
        Phase(offer + Pk32(0), 1, info', Proceed)
  }

  // ---------------------------------------------------------------- initialisation

  /** The fields a viewer reads from ServerInit. */
  datatype ServerInitFields = ServerInitFields(width: uint16, height: uint16, format: PixelFormat, name: Bytes)

  /**
   * ServerInit as rfb_client_init sends it: width and height, the 16-byte
   * pixel format, the name length and the name.
   */
  function ServerInit(info: ProtInfo): (r: Bytes)
    requires info.Valid()
    ensures |r| == 24 + info.nameLen as int
    ensures r[4..20] == PixelFormatBytes(info.pxl)
  {
    var r := Pk16(info.fbWidth) + Pk16(info.fbHeight) + PixelFormatBytes(info.pxl)
             + Pk32(info.nameLen) + info.name[..info.nameLen];
    assert r[4..20] == PixelFormatBytes(info.pxl);
    r
  }

  /** How a viewer decodes ServerInit (section 7.3.2 of RFC 6143). */
  function ParseServerInit(b: Bytes): Option<ServerInitFields>
  {
    if |b| < 24 || |b| != 24 + Upk32(b[20..24]) then None
    else Some(ServerInitFields(Upk16(b[..2]), Upk16(b[2..4]), DecodePixelFormat(b[4..20]), b[24..]))
  }

  /** A viewer reads back exactly the dimensions, format and name the server holds. */
  lemma ServerInitRoundTrip(info: ProtInfo)
    requires info.Valid()
    ensures ParseServerInit(ServerInit(info)) ==
      Some(ServerInitFields(info.fbWidth, info.fbHeight, info.pxl, ServedName(info)))
  {
    var w, h, len := Pk16(info.fbWidth), Pk16(info.fbHeight), Pk32(info.nameLen);
    var r := ServerInit(info);
    assert r[..2] == w && r[2..4] == h && r[20..24] == len && r[24..] == ServedName(info);
    Pk16RoundTrip(info.fbWidth, w);
    Pk16RoundTrip(info.fbHeight, h);
    Pk32RoundTrip(info.nameLen, len);
    PixelFormatRoundTrip(info.pxl);
  }

  /**
   * rfb_client_init: read (and ignore) the shared flag, then send ServerInit,
   * from which a viewer reads the record's dimensions, format and name.  A
   * stream that has ended fails the read before anything is sent.
   */
  function ClientInit(info: ProtInfo, input: Bytes): (r: Phase)
    requires info.Valid()
    ensures r.info == info && r.consumed <= |input|
    ensures r.outcome == Proceed <==> |input| > 0
    ensures r.outcome != Proceed ==> r.outcome == ReadFailed && r.sent == []
    ensures r.outcome == Proceed ==>
      && r.consumed == 1 && r.sent == ServerInit(info)
      && ParseServerInit(r.sent) == Some(ServerInitFields(info.fbWidth, info.fbHeight, info.pxl, ServedName(info)))
  {
    ServerInitRoundTrip(info);
    if |input| == 0 then Phase([], 0, info, ReadFailed) else Phase(ServerInit(info), 1, info, Proceed)
  }

  // ---------------------------------------------------------------- the whole handshake

  /** rfb_handshake: the three phases in order, stopping at the first that ends the connection. */
  function Handshake(info: ProtInfo, input: Bytes): (r: Phase)
    requires info.Valid()
    ensures r.info.Valid() && r.consumed <= |input|
    ensures r.info == info.(ver := r.info.ver, sec := r.info.sec) && r.info.sec[1] == info.sec[1]
    ensures |r.sent| >= RfbVerSize && r.sent[..RfbVerSize] == info.ver
  {
    var v := VersionExchange(info, input);
    if v.outcome != Proceed then v
    else
      var rest := input[RfbVerSize..];
      var s := SecurityExchange(v.info, rest);
      if s.outcome != Proceed then Phase(v.sent + s.sent, RfbVerSize + s.consumed, s.info, s.outcome)
      else
        var c := ClientInit(s.info, rest[s.consumed..]);
        Phase(v.sent + s.sent + c.sent, RfbVerSize + s.consumed + c.consumed, c.info, c.outcome)
  }

  /**
   * A connection that gets through the handshake sent a supported version,
   * read one selection byte exactly when its minor version is 7 or more (and
   * that byte was not RFBSEC_ERR), and then the shared flag; the server sent
   * its version, the offer, status 0 and ServerInit, nothing else.
   */
  lemma HandshakeProceeds(info: ProtInfo, input: Bytes)
    requires info.Valid()
    requires Handshake(info, input).outcome == Proceed
    ensures |input| >= RfbVerSize
    ensures var client := input[..RfbVerSize];
      var r := Handshake(info, input);
      var chooses := Min(client) >= 7;
      && VersionSupported(client)
      && r.info.ver == client
      && r.consumed == RfbVerSize + (if chooses then 1 else 0) + 1
      && (chooses ==> r.info.sec[0] == input[RfbVerSize] != RfbSecErr)
      && (!chooses ==> r.info.sec == info.sec)
      && r.sent == info.ver + SecurityOffer(info.(ver := client)) + Pk32(0) + ServerInit(info)
  {
    ProceedingPhases(info, input);
    var client := input[..RfbVerSize];
    var v := VersionExchange(info, input);
    var s := SecurityExchange(v.info, input[RfbVerSize..]);
    SecurityProceeds(v.info, input[RfbVerSize..]);
    ServerInitOfRecord(s.info, info);
    assert v.info == info.(ver := client);
    assert v.sent + s.sent == info.ver + SecurityOffer(info.(ver := client)) + Pk32(0);
  }

  /** Unfolding a handshake that goes on: every phase went on, and the phases' output is joined. */
  lemma ProceedingPhases(info: ProtInfo, input: Bytes)
    requires info.Valid()
    requires Handshake(info, input).outcome == Proceed
    ensures |input| >= RfbVerSize
    ensures var v := VersionExchange(info, input);
      var s := SecurityExchange(v.info, input[RfbVerSize..]);
      && v.outcome == Proceed && s.outcome == Proceed
      && Handshake(info, input) == Phase(v.sent + s.sent + ServerInit(s.info), RfbVerSize + s.consumed + 1, s.info, Proceed)
  {
  }

  /** A security phase that lets the connection go on sent the offer and status 0. */
  lemma SecurityProceeds(info: ProtInfo, input: Bytes)
    requires info.Valid() && SecurityExchange(info, input).outcome == Proceed
    ensures var r := SecurityExchange(info, input);
      var chooses := Min(info.ver) >= 7;
      && r.sent == SecurityOffer(info) + Pk32(0)
      && r.consumed == (if chooses then 1 else 0)
      && r.info == info.(sec := r.info.sec)
      && (chooses ==> r.info.sec[0] == input[0] != RfbSecErr)
      && (!chooses ==> r.info == info)
  {
  }

  /** ServerInit reads neither the version string nor the security list of the record. */
  lemma ServerInitOfRecord(info: ProtInfo, other: ProtInfo)
    requires info.Valid() && other.Valid()
    requires info == other.(ver := info.ver, sec := info.sec)
    ensures ServerInit(info) == ServerInit(other)
  {
  }
}
