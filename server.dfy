/**
 * The server side of rfb/rfb.c that keeps state: the record rfb_run builds,
 * and the client thread rfb_handle_client, which runs the handshake and then
 * handles client messages one at a time, sending framebuffer updates and
 * queueing the pointer events that fall inside the framebuffer.
 */
module Server {
  import opened Wire
  import opened Wrappers
  import opened Protocol
  import opened PixelFormats
  import opened Handshake
  import opened Messages
  import opened Events

  /** The filter of rfb_client_ptr: inside the framebuffer, with some button down. */
  predicate PointerAccepted(fbWidth: uint16, fbHeight: uint16, buttonMask: uint8, x: uint16, y: uint16)
  {
    x < fbWidth && y < fbHeight && buttonMask != 0
  }

  /** What a client thread sees of the server while it handles messages. */
  datatype Context = Context(bitmap: seq<uint32>, fbWidth: uint16, fbHeight: uint16, colour: uint32)
  {
    predicate Valid()
    {
      |bitmap| == fbWidth * fbHeight
    }
  }

  /** The event a message queues: one for a pointer message the filter accepts, none otherwise. */
  function Queued(ctx: Context, m: ClientMessage): (r: seq<Event>)
    ensures |r| <= 1
  {
    if m.PointerEvent? && PointerAccepted(ctx.fbWidth, ctx.fbHeight, m.buttonMask, m.x, m.y)
    then [Event(ctx.colour, m.x, m.y, m.buttonMask)]
    else []
  }

  /**
   * The events the messages ms queue, oldest first: the pointer events the
   * filter accepts, tagged with the client's colour.
   */
  function QueuedEvents(ctx: Context, ms: seq<ClientMessage>): (r: seq<Event>)
    ensures |r| <= |ms|
    ensures forall e | e in r ::
      e.colour == ctx.colour && PointerAccepted(ctx.fbWidth, ctx.fbHeight, e.buttonMask, e.x, e.y)
    ensures forall e | e in r :: PointerEvent(e.buttonMask, e.x, e.y) in ms
  {
    if ms == [] then [] else Queued(ctx, ms[0]) + QueuedEvents(ctx, ms[1..])
  }

  /** One pointer message queues one event if the filter accepts it, and none otherwise. */
  lemma PointerFilter(ctx: Context, b: uint8, x: uint16, y: uint16)
    ensures QueuedEvents(ctx, [PointerEvent(b, x, y)]) ==
      if PointerAccepted(ctx.fbWidth, ctx.fbHeight, b, x, y) then [Event(ctx.colour, x, y, b)] else []
  {
    assert [PointerEvent(b, x, y)][1..] == [];
  }

  /** The bytes a message makes the server send: the update for an answerable request, nothing otherwise. */
  function Reply(ctx: Context, m: ClientMessage): Bytes
    requires ctx.Valid()
  {
    if m.FramebufferUpdateRequest? then
      match Update(ctx.bitmap, ctx.fbWidth, ctx.fbHeight, m.x, m.y, m.w, m.h)
      case Some(b) => b
      case None => []
    else []
  }

  /** The bytes the messages ms make the server send, in order. */
  function UpdatesSent(ctx: Context, ms: seq<ClientMessage>): Bytes
    requires ctx.Valid()
  {
    if ms == [] then [] else Reply(ctx, ms[0]) + UpdatesSent(ctx, ms[1..])
  }

  /** A request the server can answer: its rectangle lies inside the framebuffer. */
  predicate Answerable(ctx: Context, m: ClientMessage)
  {
    m.FramebufferUpdateRequest? ==> m.x + m.w <= ctx.fbWidth && m.y + m.h <= ctx.fbHeight
  }

  /**
   * rfb_client_set_pxl keeps the client's whole format in locals but stores
   * only the three colour maxima in the shared record.
   */
  function StoreMaxima(current: PixelFormat, rmax: uint16, gmax: uint16, bmax: uint16): PixelFormat
  {
    current.(redMax := rmax, greenMax := gmax, blueMax := bmax)
  }

  /** The maxima are the only fields SetPixelFormat changes, and they become the requested ones. */
  lemma StoreMaximaFields(current: PixelFormat, rmax: uint16, gmax: uint16, bmax: uint16)
    ensures var r := StoreMaxima(current, rmax, gmax, bmax);
      && r.redMax == rmax && r.greenMax == gmax && r.blueMax == bmax
      && SameLayout(r, current)
      && StoreMaxima(r, rmax, gmax, bmax) == r
  {
  }

  /** The format in the record after a read that came up short: a SetPixelFormat cut after its maxima has stored them. */
  function CutStore(current: PixelFormat, input: Bytes): (r: PixelFormat)
    ensures SameLayout(r, current)
    ensures CutMaxima(input).None? ==> r == current
  {
    match CutMaxima(input)
    case Some((rmax, gmax, bmax)) => StoreMaxima(current, rmax, gmax, bmax)
    case None => current
  }

  /** Two formats that agree outside the colour maxima. */
  predicate SameLayout(p: PixelFormat, q: PixelFormat)
  {
    p.bits == q.bits && p.depth == q.depth && p.bigEndian == q.bigEndian && p.trueColour == q.trueColour
    && p.redShift == q.redShift && p.greenShift == q.greenShift && p.blueShift == q.blueShift
  }

  /**
   * What the message loop has done so far: the pixel format in the shared
   * record, the event list (newest first), the bytes sent after the
   * handshake, and the messages handled.
   */
  datatype Session = Session(pxl: PixelFormat, queue: seq<Event>, sent: Bytes, handled: seq<ClientMessage>)

  /**
   * The effect of handling one message, as the dispatch switch of
   * rfb_handle_client chooses the handler.  None when the message is an
   * update request the server cannot answer, which ends the connection.
   */
  function Step(ctx: Context, s: Session, m: ClientMessage): (r: Option<Session>)
    requires ctx.Valid()
    ensures r.Some? <==> Answerable(ctx, m)
    ensures r.Some? ==> r.value.handled == s.handled + [m]
  {
    match m
    case SetPixelFormat(f) => Some(s.(pxl := StoreMaxima(s.pxl, f.redMax, f.greenMax, f.blueMax), handled := s.handled + [m]))
    case FramebufferUpdateRequest(_, x, y, w, h) =>
      (match Update(ctx.bitmap, ctx.fbWidth, ctx.fbHeight, x, y, w, h)
       case Some(b) => Some(s.(sent := s.sent + b, handled := s.handled + [m]))
       case None => None)
    case PointerEvent(b, x, y) =>
      if PointerAccepted(ctx.fbWidth, ctx.fbHeight, b, x, y)
      then Some(s.(queue := [Event(ctx.colour, x, y, b)] + s.queue, handled := s.handled + [m]))
      else Some(s.(handled := s.handled + [m]))
    case _ => Some(s.(handled := s.handled + [m]))
  }

  /**
   * The message loop of rfb_handle_client over the bytes left after the
   * handshake: frame a message, handle it, go on with the rest.  It ends
   * when a read comes up short or a request cannot be answered.  A read
   * that comes up short inside a SetPixelFormat after its maxima ends the
   * loop with those maxima stored.
   */
  function Dispatch(ctx: Context, s: Session, input: Bytes): (r: (Session, Outcome))
    requires ctx.Valid()
    ensures r.1 == ReadFailed || r.1 == RectangleOutOfBounds
    ensures |s.handled| <= |r.0.handled| && r.0.handled[..|s.handled|] == s.handled
    decreases |input|
  {
    match ParseMessage(input)
    case None => (s.(pxl := CutStore(s.pxl, input)), ReadFailed)
    case Some((m, k)) =>
      match Step(ctx, s, m)
      case None => (s, RectangleOutOfBounds)
      case Some(s') => Dispatch(ctx, s', input[k..])
  }

  /** The messages the loop handled after those of s. */
  function NewlyHandled(ctx: Context, s: Session, input: Bytes): seq<ClientMessage>
    requires ctx.Valid()
  {
    Dispatch(ctx, s, input).0.handled[|s.handled|..]
  }

  /** One step of the loop, then the rest: the messages handled are the first one and the later ones. */
  lemma NewlyHandledStep(ctx: Context, s: Session, input: Bytes)
    requires ctx.Valid() && ParseMessage(input).Some?
    requires Step(ctx, s, ParseMessage(input).value.0).Some?
    ensures var (m, k) := ParseMessage(input).value;
      NewlyHandled(ctx, s, input) == [m] + NewlyHandled(ctx, Step(ctx, s, m).value, input[k..])
  {
    var (m, k) := ParseMessage(input).value;
    var s' := Step(ctx, s, m).value;
    var r := Dispatch(ctx, s', input[k..]).0;
    assert Dispatch(ctx, s, input).0 == r;
    assert r.handled[|s.handled|..] == [m] + r.handled[|s'.handled|..];
  }

  /** Every request the loop handled was answerable: the loop stops at the first one that is not. */
  lemma {:induction false} DispatchAnswerable(ctx: Context, s: Session, input: Bytes)
    requires ctx.Valid()
    ensures forall m | m in NewlyHandled(ctx, s, input) :: Answerable(ctx, m)
    decreases |input|
  {
    match ParseMessage(input)
    case None =>
    case Some((m, k)) =>
      match Step(ctx, s, m)
      case None =>
      case Some(s') =>
        DispatchAnswerable(ctx, s', input[k..]);
        NewlyHandledStep(ctx, s, input);
        StepEffects(ctx, s, m);
  }

  /**
   * The event list gains exactly the accepted pointer events of the
   * messages handled, each pushed at the head in arrival order.
   */
  lemma {:induction false} DispatchQueue(ctx: Context, s: Session, input: Bytes)
    requires ctx.Valid()
    ensures Dispatch(ctx, s, input).0.queue == PushAll(s.queue, QueuedEvents(ctx, NewlyHandled(ctx, s, input)))
    decreases |input|
  {
    match ParseMessage(input)
    case None =>
    case Some((m, k)) =>
      match Step(ctx, s, m)
      case None =>
      case Some(s') =>
        DispatchQueue(ctx, s', input[k..]);
        NewlyHandledStep(ctx, s, input);
        StepEffects(ctx, s, m);
        PushAllAppend(s.queue, Queued(ctx, m), QueuedEvents(ctx, NewlyHandled(ctx, s', input[k..])));
        assert PushAll(s.queue, Queued(ctx, m)) == Queued(ctx, m) + s.queue;
  }

  /** The bytes the loop sends are the replies to the messages handled, in order. */
  lemma {:induction false} DispatchSent(ctx: Context, s: Session, input: Bytes)
    requires ctx.Valid()
    ensures Dispatch(ctx, s, input).0.sent == s.sent + UpdatesSent(ctx, NewlyHandled(ctx, s, input))
    decreases |input|
  {
    match ParseMessage(input)
    case None =>
    case Some((m, k)) =>
      match Step(ctx, s, m)
      case None =>
      case Some(s') =>
        DispatchSent(ctx, s', input[k..]);
        NewlyHandledStep(ctx, s, input);
        StepEffects(ctx, s, m);
        AppendAssoc(s.sent, Reply(ctx, m), UpdatesSent(ctx, NewlyHandled(ctx, s', input[k..])));
  }

  /** SetPixelFormat changes no more than the colour maxima of the shared record. */
  lemma {:induction false} DispatchLayout(ctx: Context, s: Session, input: Bytes)
    requires ctx.Valid()
    ensures SameLayout(Dispatch(ctx, s, input).0.pxl, s.pxl)
    decreases |input|
  {
    match ParseMessage(input)
    case None =>
    case Some((m, k)) =>
      match Step(ctx, s, m)
      case None =>
      case Some(s') =>
        DispatchLayout(ctx, s', input[k..]);
        StepEffects(ctx, s, m);
  }

  /** What one step adds: the reply to the message, and the event it queues at the head. */
  lemma StepEffects(ctx: Context, s: Session, m: ClientMessage)
    requires ctx.Valid() && Step(ctx, s, m).Some?
    ensures var r := Step(ctx, s, m).value;
      && Answerable(ctx, m)
      && r.queue == Queued(ctx, m) + s.queue
      && r.sent == s.sent + Reply(ctx, m)
      && SameLayout(r.pxl, s.pxl)
  {
  }

  /** Where the loop stands after framing message m of k bytes at position pos of the input. */
  lemma DispatchAdvance(ctx: Context, s: Session, input: Bytes, pos: nat, m: ClientMessage, k: nat)
    requires ctx.Valid() && pos <= |input| && ParseMessage(input[pos..]) == Some((m, k))
    ensures pos + k <= |input|
    ensures Step(ctx, s, m).None? ==> Dispatch(ctx, s, input[pos..]) == (s, RectangleOutOfBounds)
    ensures Step(ctx, s, m).Some? ==> Dispatch(ctx, s, input[pos..]) == Dispatch(ctx, Step(ctx, s, m).value, input[pos + k..])
  {
    assert input[pos..][k..] == input[pos + k..];
  }

  lemma AppendAssoc<T>(a: seq<T>, b: seq<T>, c: seq<T>)
    ensures (a + b) + c == a + (b + c)
  {
  }

  /** Pushing two runs of events one after the other is pushing the two runs joined. */
  lemma {:induction false} PushAllAppend(q: seq<Event>, a: seq<Event>, b: seq<Event>)
    ensures PushAll(PushAll(q, a), b) == PushAll(q, a + b)
    decreases |a|
  {
    if a != [] {
      PushAllAppend([a[0]] + q, a[1..], b);
      assert (a + b)[0] == a[0] && (a + b)[1..] == a[1..] + b;
    } else {
      assert a + b == b;
    }
  }

  /**
   * Arrival order reaches the consumer: draining the list after the loop
   * gives the events queued before it, then those the loop queued, oldest
   * first.
   */
  lemma DispatchFifo(ctx: Context, s: Session, input: Bytes)
    requires ctx.Valid()
    ensures Drain(Dispatch(ctx, s, input).0.queue) == Drain(s.queue) + QueuedEvents(ctx, NewlyHandled(ctx, s, input))
  {
    DispatchQueue(ctx, s, input);
    Fifo(s.queue, QueuedEvents(ctx, NewlyHandled(ctx, s, input)));
  }

  /** The bytes a client sends for the messages ms, one after another. */
  function Framed(ms: seq<ClientMessage>): Bytes
  {
    if ms == [] then [] else Encode(ms[0]) + Framed(ms[1..])
  }

  /**
   * The server handles exactly the messages a client frames, in order, and
   * the loop ends only when the stream does, as long as every request is
   * answerable.
   */
  lemma {:induction false} DispatchFramed(ctx: Context, s: Session, ms: seq<ClientMessage>)
    requires ctx.Valid()
    requires forall m | m in ms :: m.Valid() && Answerable(ctx, m)
    ensures Dispatch(ctx, s, Framed(ms)).0.handled == s.handled + ms
    ensures Dispatch(ctx, s, Framed(ms)).1 == ReadFailed
    decreases |ms|
  {
    if ms != [] {
      var m, input, tail := ms[0], Framed(ms), Framed(ms[1..]);
      assert m in ms;
      assert input == Encode(m) + tail;
      ParseEncode(m, tail);
      assert input[0..] == input && input[|Encode(m)|..] == tail;
      DispatchAdvance(ctx, s, input, 0, m, |Encode(m)|);
      DispatchFramed(ctx, Step(ctx, s, m).value, ms[1..]);
      AppendAssoc(s.handled, [m], ms[1..]);
      assert ms == [m] + ms[1..];
    }
  }

  /**
   * A SetPixelFormat the client stops sending after n bytes ends the loop
   * with a failed read.  From byte 14 on, the record already holds the
   * maxima it carried, as the complete message would have left them;
   * before that, the record is unchanged.
   */
  lemma DispatchCutPixelFormat(ctx: Context, s: Session, f: PixelFormat, n: nat)
    requires ctx.Valid() && n < 20
    ensures var full := Step(ctx, s, SetPixelFormat(f)).value;
      Dispatch(ctx, s, Encode(SetPixelFormat(f))[..n]) == (if n >= 14 then s.(pxl := full.pxl) else s, ReadFailed)
  {
    CutMaximaOfEncode(f, n);
  }

  /**
   * The server record of rfb_run together with the client thread's
   * handling of one connection.  The protocol record is shared by all
   * client threads; the bitmap is the shared framebuffer, written by the
   * application and only read here.
   */
  class Server {
    var info: ProtInfo
    const bitmap: array<uint32>
    const events: EventQueue

    ghost predicate Valid()
      reads this, bitmap, events, events.nodes
    {
      info.Valid() && bitmap.Length == info.fbWidth * info.fbHeight && events.Valid()
    }

    /**
     * The configuration part of rfb_run(w, h, name, serv): the record is
     * Configure(w, h, name), the bitmap holds fbWidth * fbHeight zero words,
     * and the event list is empty.
     */
    constructor Run(w: int, h: int, name: Option<Bytes>)
      ensures Valid()
      ensures info == Configure(w, h, name)
      ensures bitmap.Length == info.fbWidth * info.fbHeight
      ensures forall i | 0 <= i < bitmap.Length :: bitmap[i] == 0
      ensures events.Contents() == [] && fresh(bitmap) && fresh(events)
    {
      var p := Configure(w, h, name);
      MulLe(0, p.fbWidth, p.fbHeight);
      var size := p.fbWidth * p.fbHeight;
      info := p;
      bitmap := new uint32[size](_ => 0);
      events := new EventQueue();
    }

    /**
     * One pass of the dispatch switch of rfb_handle_client for a message
     * already framed: SetPixelFormat stores the maxima, an update request
     * is answered, an accepted pointer event is pushed, and the rest change
     * nothing.  None for a request that cannot be answered.  The effect is
     * Step from any session that agrees with the record and the list.
     */
    method HandleMessage(ctx: Context, m: ClientMessage, ghost here: Session) returns (reply: Option<Bytes>)
      requires Valid() && ctx == Context(bitmap[..], info.fbWidth, info.fbHeight, ctx.colour)
      requires here.pxl == info.pxl && here.queue == events.Contents()
      modifies this, events
      ensures Valid() && info == old(info).(pxl := info.pxl)
      ensures var st := Step(ctx, here, m);
        && (reply.Some? <==> st.Some?)
        && (st.Some? ==> st.value == Session(info.pxl, events.Contents(), here.sent + reply.value, here.handled + [m]))
        && (st.None? ==> info == old(info) && events.Contents() == old(events.Contents()))
    {
      match m {
        case SetPixelFormat(f) =>
          info := info.(pxl := StoreMaxima(info.pxl, f.redMax, f.greenMax, f.blueMax));
          reply := Some([]);
        case FramebufferUpdateRequest(_, x, y, w, h) =>
          reply := Update(bitmap[..], info.fbWidth, info.fbHeight, x, y, w, h);
        case PointerEvent(b, x, y) =>
          if PointerAccepted(info.fbWidth, info.fbHeight, b, x, y) {
            events.Push(Event(ctx.colour, x, y, b));
          }
          reply := Some([]);
        case _ =>
          reply := Some([]);
      }
    }

    /**
     * One turn of the message loop of rfb_handle_client at position pos of
     * the client bytes: frame a message and handle it.  Either the loop
     * stops here, with the list as it was and the record as a read that
     * came up short leaves it, or it goes on from next with the reply sent
     * and the message m handled; both as Dispatch says.
     */
    method ServeOne(ctx: Context, rest: Bytes, pos: nat, ghost here: Session)
      returns (stop: Option<Outcome>, reply: Bytes, next: nat, m: Option<ClientMessage>)
      requires Valid() && ctx == Context(bitmap[..], info.fbWidth, info.fbHeight, ctx.colour)
      requires pos <= |rest| && here.pxl == info.pxl && here.queue == events.Contents()
      modifies this, events
      ensures Valid() && info == old(info).(pxl := info.pxl)
      ensures stop.Some? ==>
        Dispatch(ctx, here, rest[pos..]) == (here.(pxl := info.pxl), stop.value) && events.Contents() == old(events.Contents())
      ensures stop.None? ==> pos < next <= |rest| && m.Some?
      ensures stop.None? ==>
        Dispatch(ctx, here, rest[pos..]) == Dispatch(ctx, Session(info.pxl, events.Contents(), here.sent + reply, here.handled + [m.value]), rest[next..])
    {
      var parsed := ParseMessage(rest[pos..]);
      if parsed.None? {
        // The handler already stored whatever it read into the record.
        match CutMaxima(rest[pos..]) {
          case Some((rmax, gmax, bmax)) =>
            info := info.(pxl := StoreMaxima(info.pxl, rmax, gmax, bmax));
          case None =>
        }
        return Some(ReadFailed), [], pos, None;
      }
      var msg, k := parsed.value.0, parsed.value.1;
      DispatchAdvance(ctx, here, rest, pos, msg, k);
      var r := HandleMessage(ctx, msg, here);
      if r.None? {
        return Some(RectangleOutOfBounds), [], pos + k, Some(msg);
      }
      return None, r.value, pos + k, Some(msg);
    }

    /**
     * The message loop of rfb_handle_client over the client bytes after the
     * handshake: what it sends and how it ends are those of Dispatch, and
     * the record and the event list end as Dispatch leaves them.
     */
    method ServeMessages(colour: uint32, rest: Bytes) returns (replies: Bytes, outcome: Outcome)
      requires Valid()
      modifies this, events
      ensures Valid() && info == old(info).(pxl := info.pxl)
      ensures var ctx := Context(bitmap[..], info.fbWidth, info.fbHeight, colour);
        var (s, o) := Dispatch(ctx, Session(old(info.pxl), old(events.Contents()), [], []), rest);
        replies == s.sent && outcome == o && info.pxl == s.pxl && events.Contents() == s.queue
    {
      var ctx := Context(bitmap[..], info.fbWidth, info.fbHeight, colour);
      ghost var start := Session(info.pxl, events.Contents(), [], []);
      ghost var handled: seq<ClientMessage> := [];
      replies := [];
      var pos := 0;
      while true
        invariant pos <= |rest|
        invariant Valid() && ctx == Context(bitmap[..], info.fbWidth, info.fbHeight, colour)
        invariant info == old(info).(pxl := info.pxl)
        invariant Dispatch(ctx, start, rest) == Dispatch(ctx, Session(info.pxl, events.Contents(), replies, handled), rest[pos..])
        decreases |rest| - pos
      {
        ghost var here := Session(info.pxl, events.Contents(), replies, handled);
        var stop, reply, next, m := ServeOne(ctx, rest, pos, here);
        if stop.Some? {
          return replies, stop.value;
        }
        replies := replies + reply;
        handled := handled + [m.value];
        pos := next;
      }
    }

    /**
     * rfb_handle_client for a client of the given colour that sends input:
     * the handshake, then the message loop.  The record keeps what the
     * handshake wrote and the maxima the client set; the event list gains the
     * client's accepted pointer events; the result is what the server sent
     * and how the connection ended.
     */
    method HandleClient(colour: uint32, input: Bytes) returns (sent: Bytes, outcome: Outcome)
      requires Valid()
      modifies this, events
      ensures Valid()
      ensures var hs := Handshake.Handshake(old(info), input);
        if hs.outcome != Proceed then
          sent == hs.sent && outcome == hs.outcome && info == hs.info && events.Contents() == old(events.Contents())
        else
          var ctx := Context(bitmap[..], info.fbWidth, info.fbHeight, colour);
          var (s, o) := Dispatch(ctx, Session(hs.info.pxl, old(events.Contents()), [], []), input[hs.consumed..]);
          sent == hs.sent + s.sent && outcome == o && info == hs.info.(pxl := s.pxl) && events.Contents() == s.queue
    {
      var hs := Handshake.Handshake(info, input);
      info := hs.info;
      if hs.outcome != Proceed {
        sent, outcome := hs.sent, hs.outcome;
        return;
      }
      var replies;
      replies, outcome := ServeMessages(colour, input[hs.consumed..]);
      sent := hs.sent + replies;
    }
  }
}
