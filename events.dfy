/**
 * The list of pending pointer events that rfb/rfb.c keeps in the server
 * record: the pointer handler links each accepted event in at the head, and
 * rfb_event_next walks to the tail and unlinks it, so events come out in the
 * order they arrived.
 */
module Events {
  import opened Wire
  import opened Wrappers

  /** One pointer event: the colour of the client that sent it, where, and which buttons. */
  datatype Event = Event(colour: uint32, x: uint16, y: uint16, buttonMask: uint8)

  /** A node of the event list. */
  class EventNode {
    const event: Event
    var next: EventNode?

    constructor (event: Event, next: EventNode?)
      ensures this.event == event && this.next == next
    {
      this.event := event;
      this.next := next;
    }
  }

  /** The events held by a sequence of nodes, in the same order. */
  function EventsOf(ns: seq<EventNode>): (r: seq<Event>)
    ensures |r| == |ns|
    ensures forall i | 0 <= i < |ns| :: r[i] == ns[i].event
  {
    if ns == [] then [] else [ns[0].event] + EventsOf(ns[1..])
  }

  /**
   * The event list headed by event_list.  The ghost sequence nodes lists the
   * nodes from head to tail, so Contents() is newest first.
   */
  class EventQueue {
    var head: EventNode?
    ghost var nodes: seq<EventNode>

    /** head starts the chain nodes[0] -> nodes[1] -> ... -> null, and no node occurs twice. */
    ghost predicate Valid()
      reads this, nodes
    {
      && head == (if nodes == [] then null else nodes[0])
      && (forall i | 0 <= i < |nodes| - 1 :: nodes[i].next == nodes[i + 1])
      && (nodes != [] ==> nodes[|nodes| - 1].next == null)
      && (forall i, j | 0 <= i < j < |nodes| :: nodes[i] != nodes[j])
    }

    /** The queued events, newest first. */
    ghost function Contents(): seq<Event>
      reads this
    {
      EventsOf(nodes)
    }

    /** rfb_run starts the server with an empty list. */
    constructor ()
      ensures Valid() && Contents() == [] && nodes == []
    {
      head := null;
      nodes := [];
    }

    /** The push in rfb_client_ptr: a new node in front of the old head; no existing node changes. */
    method Push(e: Event)
      requires Valid()
      modifies this
      ensures Valid()
      ensures Contents() == [e] + old(Contents())
      ensures nodes[1..] == old(nodes) && fresh(nodes[0])
    {
      var node := new EventNode(e, head);
      head := node;
      nodes := [node] + nodes;
      assert forall i | 1 <= i < |nodes| :: nodes[i] == old(nodes)[i - 1];
    }

    /**
     * rfb_event_next as written, on a list of at least two nodes: walk to the
     * tail, keeping the node before it, and unlink the tail.  The node
     * returned is the oldest event; the rest of the list is unchanged.
     */
    method EventNext() returns (last: EventNode)
      requires Valid() && |nodes| >= 2
      modifies this, nodes[|nodes| - 2]
      ensures Valid()
      ensures last == old(nodes[|nodes| - 1]) && last.next == null
      ensures nodes == old(nodes[..|nodes| - 1])
      ensures last.event == old(Contents()[|nodes| - 1])
      ensures Contents() == old(Contents()[..|nodes| - 1])
    {
      var prev: EventNode? := null;
      var cur := head;
      ghost var i := 0;
      assert nodes[0].next == nodes[1];
      while cur.next != null
        modifies {}
        invariant 0 <= i < |nodes| && cur == nodes[i]
        invariant i > 0 ==> prev == nodes[i - 1]
        invariant cur.next == null <==> i == |nodes| - 1
        decreases |nodes| - i
      {
        assert nodes[i].next == nodes[i + 1];
        assert i + 1 < |nodes| - 1 ==> nodes[i + 1].next == nodes[i + 2];
        prev := cur;
        cur := cur.next;
        i := i + 1;
      }
      prev.next := null;
      nodes := nodes[..|nodes| - 1];
      last := cur;
    }

    /**
     * rfb_event_next made total: None on an empty list, and on a list of one
     * node the head itself is reset rather than a predecessor that does not
     * exist.  Otherwise it is EventNext.
     */
    method PopOldest() returns (e: Option<Event>)
      requires Valid()
      modifies this, nodes
      ensures Valid()
      ensures e == Oldest(old(Contents()))
      ensures Contents() == Rest(old(Contents()))
    {
      assert |nodes| > 1 ==> nodes[0].next == nodes[1];
      if head == null {
        e := None;
      } else if head.next == null {
        e := Some(head.event);
        head := null;
        nodes := [];
      } else {
        assert head == nodes[0] && nodes[0].next == nodes[1];
        var last := EventNext();
        e := Some(last.event);
      }
    }
  }

  /** The event a pop returns from a queue q held newest first: its last one. */
  function Oldest(q: seq<Event>): Option<Event>
  {
    if q == [] then None else Some(q[|q| - 1])
  }

  /** What a pop leaves of q. */
  function Rest(q: seq<Event>): seq<Event>
  {
    if q == [] then [] else q[..|q| - 1]
  }

  /** The queue after pushing es in order onto q. */
  function PushAll(q: seq<Event>, es: seq<Event>): (r: seq<Event>)
    ensures |r| == |q| + |es|
    decreases |es|
  {
    if es == [] then q else PushAll([es[0]] + q, es[1..])
  }

  /** The events successive pops return from q until it is empty. */
  function Drain(q: seq<Event>): (r: seq<Event>)
    ensures |r| == |q|
    decreases |q|
  {
    match Oldest(q)
    case None => []
    case Some(e) => [e] + Drain(Rest(q))
  }

  /** The newest event comes out last. */
  lemma {:induction false} DrainPushed(e: Event, q: seq<Event>)
    ensures Drain([e] + q) == Drain(q) + [e]
    decreases |q|
  {
    if q != [] {
      assert Rest([e] + q) == [e] + Rest(q);
      DrainPushed(e, Rest(q));
    }
  }

  /**
   * First in, first out: whatever was queued before comes out first, then
   * the new events in the order they were pushed.
   */
  lemma {:induction false} Fifo(q: seq<Event>, es: seq<Event>)
    ensures Drain(PushAll(q, es)) == Drain(q) + es
    decreases |es|
  {
    if es != [] {
      Fifo([es[0]] + q, es[1..]);
      DrainPushed(es[0], q);
      assert es == [es[0]] + es[1..];
    }
  }

  /**
   * The walk of rfb_event_next over a list of len nodes, by position: from
   * node cur with predecessor prev, follow next until the tail.  The result
   * is the tail and the predecessor the loop last assigned.
   */
  function WalkToTail(len: nat, cur: nat, prev: Option<nat>): (r: (nat, Option<nat>))
    requires cur < len
    ensures r.0 == len - 1
    ensures r.1 == if cur + 1 == len then prev else Some(len - 2)
    decreases len - cur
  {
    if cur + 1 == len then (cur, prev) else WalkToTail(len, cur + 1, Some(cur))
  }

  /**
   * The walk starts at the head with no predecessor.  On two or more nodes it
   * ends with the tail's predecessor; on one node the loop body never runs,
   * so there is no predecessor whose next the splice could clear.
   */
  lemma WalkFromHead(len: nat)
    requires len >= 1
    ensures len >= 2 ==> WalkToTail(len, 0, None) == (len - 1, Some(len - 2))
    ensures len == 1 ==> WalkToTail(len, 0, None).1 == None
  {
  }
}
