/** The receive queues of MicroBitRadio and MicroBitRadioDatagram, with the radio interrupt
    running between any two steps of the idle loop.

    Buffers live at addresses of an explicit heap, so that a freed address may come back. */
module Radio {

  const MAXIMUM_RX_BUFFERS: nat := 4
  const DATAGRAM: nat := 1
  const EVENTBUS: nat := 2

  const MAX_PACKET_SIZE: nat := 32
  const HEADER_SIZE: nat := 4

  type Payload = s: seq<bv8> | |s| == MAX_PACKET_SIZE witness seq(MAX_PACKET_SIZE, i => 0)

  /** length is the byte of the frame that counts what follows it, header and payload. It comes
      with the packet and may be anything; the payload always has its 32 bytes in memory. */
  datatype Packet = Packet(protocol: nat, length: nat, payload: Payload)

  /** How many bytes of payload the length byte says there are. */
  function BodyLength(x: Packet): int { x.length - (HEADER_SIZE - 1) }

  /** The outcome of copying n bytes out of a payload. */
  datatype Copy = Bytes(bytes: seq<bv8>) | OutOfBounds

  function CopyOf(payload: Payload, n: int): (r: Copy)
    ensures r.Bytes? <==> 0 <= n <= MAX_PACKET_SIZE
    ensures r.Bytes? ==> |r.bytes| == n && r.bytes <= payload
  {
    if 0 <= n <= MAX_PACKET_SIZE then Bytes(payload[..n]) else OutOfBounds
  }

  /** A length byte that does not cover its own header, and one that exceeds the payload. */
  lemma BadLengths(payload: Payload)
    ensures CopyOf(payload, BodyLength(Packet(DATAGRAM, 2, payload))) == OutOfBounds
    ensures CopyOf(payload, BodyLength(Packet(DATAGRAM, 36, payload))) == OutOfBounds
  {}

  const NO_PACKET: Packet := Packet(0, 0, seq(MAX_PACKET_SIZE, i => 0))

  /** A FrameBuffer; next is 0 at the end of a list. */
  datatype FrameBuffer = FrameBuffer(packet: Packet, next: nat)

  type Heap = map<nat, FrameBuffer>

  datatype Status = Ok | InvalidParameter | NoResources

  // ----- linked lists

  function Head(xs: seq<nat>): nat { if xs == [] then 0 else xs[0] }

  /** From head on, the heap links exactly the buffers of xs, each once. */
  ghost predicate List(heap: Heap, head: nat, xs: seq<nat>)
  {
    && head == Head(xs)
    && (forall i :: 0 <= i < |xs| ==> Linked(heap, xs, i))
    && (forall i, j :: 0 <= i < j < |xs| ==> xs[i] != xs[j])
  }

  ghost predicate Linked(heap: Heap, xs: seq<nat>, i: nat)
    requires i < |xs|
  {
    xs[i] != 0 && xs[i] in heap && heap[xs[i]].next == if i + 1 < |xs| then xs[i + 1] else 0
  }

  ghost predicate InHeap(heap: Heap, xs: seq<nat>)
  {
    forall i :: 0 <= i < |xs| ==> xs[i] in heap
  }

  ghost function Contents(heap: Heap, xs: seq<nat>): (r: seq<Packet>)
    requires InHeap(heap, xs)
    ensures |r| == |xs| && forall i :: 0 <= i < |xs| ==> r[i] == heap[xs[i]].packet
  {
    seq(|xs|, i requires 0 <= i < |xs| => heap[xs[i]].packet)
  }

  /** Changes of other buffers leave a list alone. */
  lemma ListKept(heap: Heap, heap': Heap, head: nat, xs: seq<nat>)
    requires List(heap, head, xs) && InHeap(heap, xs) && forall a :: a in xs ==> a in heap' && heap'[a] == heap[a]
    ensures List(heap', head, xs) && InHeap(heap, xs) && InHeap(heap', xs) && Contents(heap', xs) == Contents(heap, xs)
  {
    forall i | 0 <= i < |xs| ensures Linked(heap', xs, i) {
      assert Linked(heap, xs, i) && xs[i] in xs;
    }
  }

  lemma ListInHeap(heap: Heap, head: nat, xs: seq<nat>)
    requires List(heap, head, xs)
    ensures InHeap(heap, xs) && 0 !in xs && (head != 0 <==> xs != [])
    ensures forall i :: 0 <= i < |xs| ==> xs[i] != 0
  {
    forall i | 0 <= i < |xs| ensures xs[i] in heap && xs[i] != 0 {
      assert Linked(heap, xs, i);
    }
  }

  /** The list without its first buffer. */
  lemma ListTail(heap: Heap, head: nat, xs: seq<nat>)
    requires List(heap, head, xs) && xs != []
    ensures head in heap && List(heap, heap[head].next, xs[1..]) && head !in xs[1..]
    ensures InHeap(heap, xs) && InHeap(heap, xs[1..])
            && Contents(heap, xs) == [heap[head].packet] + Contents(heap, xs[1..])
  {
    ListInHeap(heap, head, xs);
    assert Linked(heap, xs, 0);
    forall i | 0 <= i < |xs[1..]| ensures Linked(heap, xs[1..], i) {
      assert Linked(heap, xs, i + 1);
    }
  }

  /** A buffer linked behind the last one. */
  lemma ListAppend(heap: Heap, head: nat, xs: seq<nat>, last: nat, a: nat)
    requires List(heap, head, xs) && a != 0 && a in heap && a !in xs && heap[a].next == 0
    requires xs != [] ==> last == xs[|xs| - 1]
    ensures InHeap(heap, xs)
    ensures var heap' := if xs == [] then heap else heap[last := heap[last].(next := a)];
            && List(heap', if xs == [] then a else head, xs + [a]) && InHeap(heap', xs + [a])
            && Contents(heap', xs + [a]) == Contents(heap, xs) + [heap[a].packet]
  {
    ListInHeap(heap, head, xs);
    var heap' := if xs == [] then heap else heap[last := heap[last].(next := a)];
    var ys := xs + [a];
    forall i | 0 <= i < |ys| ensures Linked(heap', ys, i) {
      if i < |xs| {
        assert Linked(heap, xs, i);
      }
    }
    assert forall i :: 0 <= i < |ys| ==> ys[i] in heap' && heap'[ys[i]].packet == heap[ys[i]].packet;
    assert Contents(heap', ys) == Contents(heap, xs) + [heap[a].packet];
  }

  /** No two of these lists share a buffer. */
  ghost predicate Apart(xs: seq<nat>, ys: seq<nat>)
  {
    forall a :: a in xs ==> a !in ys
  }

  ghost predicate AllHeld(heap: Heap, queue: seq<nat>, datagrams: seq<nat>, rxBuf: nat, p: nat)
  {
    forall b :: b in heap ==> b in queue || b in datagrams || b == rxBuf || b == p
  }

  /** The buffer that was received goes on the queue, and a new one into use. */
  lemma HeldOn(heap: Heap, queue: seq<nat>, datagrams: seq<nat>, rxBuf: nat, heap': Heap, queue': seq<nat>, rxBuf': nat)
    requires forall b :: b in heap' ==> b in heap || b == rxBuf'
    requires queue' == queue + [rxBuf] || (queue' == queue && rxBuf' == rxBuf)
    ensures forall p :: AllHeld(heap, queue, datagrams, rxBuf, p) ==> AllHeld(heap', queue', datagrams, rxBuf', p)
  {
    assert queue' == queue + [rxBuf] ==> queue'[|queue|] == rxBuf;
  }

  lemma HeldOff(heap: Heap, queue: seq<nat>, datagrams: seq<nat>, rxBuf: nat)
    requires queue != []
    ensures AllHeld(heap, queue, datagrams, rxBuf, 0) && 0 !in heap ==>
              AllHeld(heap, queue[1..], datagrams, rxBuf, queue[0])
  {
    assert queue == [queue[0]] + queue[1..];
  }

  class MicroBitRadio {
    var heap: Heap
    var rxQueue: nat           // packets received, awaiting processing
    var rxBuf: nat             // the buffer in use by the radio hardware
    var queueDepth: nat
    var datagramQueue: nat     // rxQueue of MicroBitRadioDatagram
    ghost var queue: seq<nat>
    ghost var datagrams: seq<nat>
    ghost var accepted: seq<Packet>   // all packets ever queued by the interrupt
    ghost var taken: seq<Packet>      // all packets ever taken off the queue
    ghost var filed: seq<Packet>      // datagrams ever put on the datagram queue
    ghost var delivered: seq<Packet>  // datagrams ever handed to the application

    ghost predicate Valid()
      reads this
    {
      && List(heap, rxQueue, queue) && queueDepth == |queue| <= MAXIMUM_RX_BUFFERS
      && List(heap, datagramQueue, datagrams) && |datagrams| <= MAXIMUM_RX_BUFFERS + 1
      && Apart(queue, datagrams) && rxBuf !in queue && rxBuf !in datagrams && (rxBuf != 0 ==> rxBuf in heap)
      && 0 !in heap
      && InHeap(heap, queue) && InHeap(heap, datagrams)
      && accepted == taken + Contents(heap, queue)
      && filed == delivered + Contents(heap, datagrams)
    }

    /** Nothing is lost: every buffer in memory is on a list, in use by the hardware, or p. */
    ghost predicate Accounted(p: nat)
      reads this
    {
      AllHeld(heap, queue, datagrams, rxBuf, p)
    }

    constructor (rxBuf: nat)
      ensures Accounted(0)
      ensures Valid() && accepted == taken == filed == delivered == [] && this.rxBuf == rxBuf
    {
      heap := if rxBuf == 0 then map[] else map[rxBuf := FrameBuffer(NO_PACKET, 0)];
      rxQueue, queueDepth, datagramQueue := 0, 0, 0;
      this.rxBuf := rxBuf;
      queue, datagrams, accepted, taken, filed, delivered := [], [], [], [], [], [];
    }

    /** The interrupt has received a packet into rxBuf. a is what new returns: 0, or any free
        address. */
    method QueueRxBuf(packet: Packet, a: nat) returns (r: Status)
      requires Valid() && a !in heap
      modifies this`heap, this`rxQueue, this`rxBuf, this`queueDepth, this`queue, this`accepted
      ensures Valid()
      ensures r == (if old(rxBuf) == 0 then InvalidParameter else if old(queueDepth) >= MAXIMUM_RX_BUFFERS
                    || a == 0 then NoResources else Ok)
      ensures r == Ok ==> accepted == old(accepted) + [packet] && queue == old(queue) + [old(rxBuf)] && rxBuf == a
      ensures r != Ok ==> accepted == old(accepted) && queue == old(queue) && rxBuf == old(rxBuf)
      ensures rxBuf == old(rxBuf) || rxBuf !in old(heap)
      ensures forall p :: old(Accounted(p)) ==> Accounted(p)
      ensures forall b :: b in old(heap) ==> b in heap
      ensures forall b :: b in old(heap) && b !in old(queue) && b != old(rxBuf) ==> heap[b] == old(heap)[b]
    {
      hide List, Contents, InHeap, Apart, AllHeld;
      HeldOn(heap, queue, datagrams, rxBuf, heap, queue, rxBuf);
      if rxBuf == 0 {
        return InvalidParameter;
      }
      ghost var before, queue0, rxBuf0 := heap, queue, rxBuf;
      heap := heap[rxBuf := FrameBuffer(packet, heap[rxBuf].next)];
      Unlisted(before, heap);
      HeldOn(before, queue, datagrams, rxBuf, heap, queue, rxBuf);
      if queueDepth >= MAXIMUM_RX_BUFFERS {
        return NoResources;
      }
      if a == 0 {
        return NoResources;
      }
      heap := heap[a := FrameBuffer(NO_PACKET, 0)];
      heap := heap[rxBuf := heap[rxBuf].(next := 0)];
      Unlisted(before, heap);
      QueueApart(before, a);
      ghost var accepted0, contents0 := accepted, Contents(heap, queue);
      Enqueue(packet);
      assert taken + contents0 + [packet] == taken + (contents0 + [packet]);
      rxBuf := a;
      HeldOn(before, queue0, datagrams, rxBuf0, heap, queue, rxBuf);
      r := Ok;
    }

    /** Links rxBuf behind the last packet of the queue. */
    method Enqueue(ghost packet: Packet)
      requires Lists(heap) && rxBuf != 0 && rxBuf in heap && heap[rxBuf] == FrameBuffer(packet, 0)
               && |queue| < MAXIMUM_RX_BUFFERS
      modifies this`heap, this`rxQueue, this`queueDepth, this`queue, this`accepted
      ensures queue == old(queue) + [rxBuf] && accepted == old(accepted) + [packet]
      ensures List(heap, rxQueue, queue) && List(heap, datagramQueue, datagrams) && queueDepth == old(queueDepth) + 1
      ensures InHeap(heap, queue) && InHeap(heap, datagrams) && forall b :: b in old(heap) <==> b in heap
      ensures forall b :: b in heap && b !in old(queue) ==> heap[b] == old(heap)[b]
      ensures Contents(heap, queue) == old(Contents(heap, queue)) + [packet]
              && Contents(heap, datagrams) == old(Contents(heap, datagrams))
    {
      ghost var before := heap;
      var last, depth := FindLast(rxQueue, queue);
      ListInHeap(heap, rxQueue, queue);
      ListAppend(heap, rxQueue, queue, last, rxBuf);
      if rxQueue == 0 {
        rxQueue := rxBuf;
      } else {
        heap := heap[last := heap[last].(next := rxBuf)];
      }
      assert queue != [] ==> last in queue;
      ListKept(before, heap, datagramQueue, datagrams);
      queueDepth := queueDepth + 1;
      queue := queue + [rxBuf];
      accepted := accepted + [packet];
    }

    /** Both lists, as far as they depend on the heap. */
    ghost predicate Lists(h: Heap)
      reads this
    {
      && List(h, rxQueue, queue) && List(h, datagramQueue, datagrams) && InHeap(h, queue) && InHeap(h, datagrams)
      && Apart(queue, datagrams) && rxBuf !in queue && rxBuf !in datagrams
    }

    /** The buffer put in use for the radio is on neither list. */
    lemma QueueApart(before: Heap, a: nat)
      requires Apart(queue, datagrams) && rxBuf !in datagrams && InHeap(before, queue) && InHeap(before, datagrams)
      requires rxBuf in before && a !in before
      ensures Apart(queue + [rxBuf], datagrams) && a !in queue + [rxBuf] && a !in datagrams
    {}

    /** Changes of buffers that are on neither list. */
    lemma Unlisted(before: Heap, after: Heap)
      requires Lists(before) && forall b :: b in before && b != rxBuf ==> b in after && after[b] == before[b]
      ensures Lists(after) && Contents(after, queue) == Contents(before, queue)
              && Contents(after, datagrams) == Contents(before, datagrams)
    {
      ListKept(before, after, rxQueue, queue);
      ListKept(before, after, datagramQueue, datagrams);
    }

    /** The last buffer of a list; 0 if it is empty. */
    method FindLast(head: nat, ghost xs: seq<nat>) returns (p: nat, depth: nat)
      requires List(heap, head, xs)
      ensures p == (if xs == [] then 0 else xs[|xs| - 1]) && depth == if xs == [] then 0 else |xs| - 1
    {
      ListInHeap(heap, head, xs);
      p, depth := head, 0;
      if p == 0 {
        return;
      }
      assert Linked(heap, xs, 0);
      while heap[p].next != 0
        invariant 0 <= depth < |xs| && p == xs[depth] && p in heap
        decreases |xs| - depth
      {
        assert Linked(heap, xs, depth);
        assert Linked(heap, xs, depth + 1);
        p := heap[p].next;
        depth := depth + 1;
      }
      assert Linked(heap, xs, depth);
    }

    /** Any number of interrupts. They can only add to the queue; and onto an empty queue, the
        first buffer they put is the one that was in use by the hardware. */
    method Interrupts()
      requires Valid()
      modifies this`heap, this`rxQueue, this`rxBuf, this`queueDepth, this`queue, this`accepted
      ensures Valid() && old(queue) <= queue && old(accepted) <= accepted
      ensures old(queue) == [] ==> rxQueue == 0 || rxQueue == old(rxBuf)
      ensures forall p :: old(Accounted(p)) ==> Accounted(p)
      ensures forall p :: old(Loose(p)) ==> Loose(p) && heap[p] == old(heap)[p]
    {
      var arrivals: seq<(Packet, nat)> := *;
      var i := 0;
      hide List, Contents;
      while i < |arrivals|
        invariant 0 <= i <= |arrivals| && Valid() && old(queue) <= queue && old(accepted) <= accepted
        invariant old(queue) == [] ==> queue == [] || queue[0] == old(rxBuf)
        invariant queue == old(queue) ==> rxBuf == old(rxBuf)
        invariant forall p :: old(Accounted(p)) ==> Accounted(p)
        invariant forall p :: old(Loose(p)) ==> Loose(p) && heap[p] == old(heap)[p]
      {
        var (packet, a) := arrivals[i];
        if a !in heap {
          var r := QueueRxBuf(packet, a);
        }
        i := i + 1;
      }
      QueueHead();
    }

    lemma QueueHead()
      requires Valid()
      ensures rxQueue == Head(queue) && (rxQueue != 0 <==> queue != [])
      ensures queue != [] ==> rxQueue in heap && |taken| < |accepted| && accepted[|taken|] == heap[rxQueue].packet
      ensures taken <= accepted
    {
      ListInHeap(heap, rxQueue, queue);
    }

    /** A buffer that belongs to whoever holds its address. */
    ghost predicate Loose(p: nat)
      reads this
    {
      p != 0 && p in heap && p !in queue && p !in datagrams && p != rxBuf
    }

    /** Takes the first packet off the queue; interrupts are disabled only while it is unlinked. */
    method Recv() returns (p: nat)
      requires Valid()
      modifies this`heap, this`rxQueue, this`rxBuf, this`queueDepth, this`queue, this`accepted, this`taken
      ensures Valid() && p == old(rxQueue) && old(accepted) <= accepted
      ensures old(Accounted(0)) ==> Accounted(p)
      ensures p == 0 ==> taken == old(taken)
      ensures p != 0 ==>
                && Loose(p) && |taken| == |old(taken)| + 1 && taken == accepted[..|taken|]
                && heap[p].packet == taken[|taken| - 1] == old(heap[rxQueue].packet)
    {
      p := rxQueue;
      QueueHead();
      if p != 0 {
        Interrupts();
        QueueHead();
        ListTail(heap, rxQueue, queue);
        Unlinked();
        HeldOff(heap, queue, datagrams, rxBuf);
        hide List, Contents, InHeap, AllHeld;
        rxQueue := heap[rxQueue].next;
        queueDepth := queueDepth - 1;
        taken := taken + [heap[p].packet];
        queue := queue[1..];
      }
    }

    lemma Unlinked()
      requires Valid() && queue != []
      ensures rxQueue in heap && rxQueue != 0 && rxQueue !in queue[1..] && rxQueue !in datagrams && rxQueue != rxBuf
      ensures Apart(queue[1..], datagrams) && rxBuf !in queue[1..] && InHeap(heap, queue[1..])
      ensures accepted == taken + [heap[rxQueue].packet] + Contents(heap, queue[1..])
    {
      ListTail(heap, rxQueue, queue);
      ListInHeap(heap, rxQueue, queue);
      assert rxQueue in queue;
      hide List;
      assert taken + ([heap[rxQueue].packet] + Contents(heap, queue[1..])) == taken + [heap[rxQueue].packet]
          + Contents(heap, queue[1..]);
    }

    method Delete(p: nat)
      requires Valid() && Loose(p)
      modifies this`heap
      ensures Valid() && heap == old(heap) - {p} && (old(Accounted(p)) ==> Accounted(0))
    {
      ListKept(heap, heap - {p}, rxQueue, queue);
      ListKept(heap, heap - {p}, datagramQueue, datagrams);
      hide List, Contents;
      heap := heap - {p};
    }

    /** Puts a datagram behind those that wait for the application, or drops it if there are
        five already: the source counts the steps to the last one, not the buffers. */
    method FileDatagram(packet: nat) returns (dropped: bool)
      requires Valid() && Loose(packet)
      modifies this`heap, this`datagramQueue, this`datagrams, this`filed
      ensures Valid() && dropped == (old(|datagrams|) == 5) && (old(Accounted(packet)) ==> Accounted(0))
      ensures filed == old(filed) + if dropped then [] else [old(heap[packet].packet)]
    {
      ghost var before := heap;
      heap := heap[packet := heap[packet].(next := 0)];
      ListKept(before, heap, rxQueue, queue);
      ListKept(before, heap, datagramQueue, datagrams);
      ListInHeap(heap, datagramQueue, datagrams);
      var last, queueDepth := FindLast(datagramQueue, datagrams);
      if datagramQueue != 0 && queueDepth >= MAXIMUM_RX_BUFFERS {
        Delete(packet);
        return true;
      }
      Link(last, packet);
      return false;
    }

    method Link(last: nat, packet: nat)
      requires Valid() && Loose(packet) && heap[packet].next == 0 && |datagrams| <= MAXIMUM_RX_BUFFERS
      requires last == if datagrams == [] then 0 else datagrams[|datagrams| - 1]
      modifies this`heap, this`datagramQueue, this`datagrams, this`filed
      ensures Valid() && filed == old(filed) + [old(heap[packet].packet)]
      ensures old(Accounted(packet)) ==> Accounted(0)
    {
      ghost var before, x := heap, heap[packet].packet;
      ListInHeap(heap, datagramQueue, datagrams);
      ListAppend(heap, datagramQueue, datagrams, last, packet);
      assert datagrams != [] ==> last in datagrams;
      assert filed + [x] == delivered + (Contents(heap, datagrams) + [x]);
      hide List, Contents;
      if datagramQueue == 0 {
        datagramQueue := packet;
      } else {
        heap := heap[last := heap[last].(next := packet)];
      }
      ListKept(before, heap, rxQueue, queue);
      datagrams := datagrams + [packet];
      filed := filed + [x];
    }

    /** packetReceived of the datagram service. */
    method DatagramReceived()
      requires Valid() && queue != []
      modifies this
      ensures Valid() && OneTaken(old(accepted), old(taken)) && old(rxQueue) != rxQueue && old(rxQueue) !in queue
              && old(rxQueue) != rxBuf
      ensures old(Accounted(0)) ==> Accounted(0)
      ensures delivered == old(delivered)
      ensures filed == old(filed) + if old(|datagrams|) == MAXIMUM_RX_BUFFERS + 1 then [] else [taken[|taken| - 1]]
    {
      QueueHead();
      var packet := Recv();
      Interrupts();
      var dropped := FileDatagram(packet);
      QueueHead();
    }

    /** packetReceived of the event service: fires the event, and frees the buffer. */
    method EventReceived()
      requires Valid() && queue != []
      modifies this
      ensures Valid() && OneTaken(old(accepted), old(taken)) && old(rxQueue) != rxQueue && old(rxQueue) !in queue
              && old(rxQueue) != rxBuf
      ensures delivered == old(delivered) && filed == old(filed) && (old(Accounted(0)) ==> Accounted(0))
    {
      QueueHead();
      var p := Recv();
      Interrupts();
      Delete(p);
      QueueHead();
    }

    /** The next accepted packet has been taken. */
    ghost predicate OneTaken(accepted0: seq<Packet>, taken0: seq<Packet>)
      reads this
    {
      accepted0 <= accepted && |taken| == |taken0| + 1 && taken <= accepted && taken0 <= taken
    }

    /** One turn of the idle loop, with interrupts before every access to the queue. If a
        packet was waiting, exactly that one is taken; it is never mistaken for another that
        has its address. */
    method IdleTurn() returns (idle: bool)
      requires Valid()
      modifies this
      ensures Valid() && delivered == old(delivered) && old(accepted) <= accepted
      ensures idle ==> taken == old(taken) && filed == old(filed)
      ensures !idle ==> OneTaken(old(accepted), old(taken))
      ensures !idle ==> filed == old(filed) + Filed(taken[|taken| - 1], old(|datagrams|))
      ensures !idle ==> var x := taken[|taken| - 1];
                        filed == if x.protocol == 1 && old(|datagrams|) <= 4 then old(filed) + [x] else old(filed)
      ensures old(Accounted(0)) ==> Accounted(0)
      ensures old(queue) != [] ==> !idle
    {
      Interrupts();
      QueueHead();
      hide List, Contents, InHeap;
      if rxQueue == 0 {
        return true;
      }
      Interrupts();
      ProcessHead();
      return false;
    }

    method ProcessHead()
      requires Valid() && queue != []
      modifies this
      ensures Valid() && delivered == old(delivered) && OneTaken(old(accepted), old(taken))
      ensures filed == old(filed) + Filed(taken[|taken| - 1], old(|datagrams|))
      ensures old(Accounted(0)) ==> Accounted(0)
    {
      QueueHead();
      var p := rxQueue;
      var protocol := heap[p].packet.protocol;
      Interrupts();
      QueueHead();
      hide List, Contents, InHeap;
      if protocol == DATAGRAM {
        DatagramReceived();
      } else if protocol == EVENTBUS {
        EventReceived();
      }
      FreeUnknown(p, protocol == DATAGRAM || protocol == EVENTBUS);
    }

    /** The packet is still at the head of the queue exactly if no service has taken it. */
    method FreeUnknown(p: nat, ghost handled: bool)
      requires Valid() && p != 0 && if handled then rxQueue != p && p !in queue && p != rxBuf else rxQueue == p
      modifies this
      ensures Valid() && delivered == old(delivered) && filed == old(filed) && old(accepted) <= accepted
      ensures old(Accounted(0)) ==> Accounted(0)
      ensures handled ==> taken == old(taken)
      ensures !handled ==> p !in heap
      ensures !handled ==> OneTaken(old(accepted), old(taken)) && taken[|taken| - 1] == accepted[|old(taken)|]
    {
      QueueHead();
      Interrupts();
      QueueHead();
      hide List, Contents, InHeap;
      if p == rxQueue {
        var q := Recv();
        Delete(p);
      }
      QueueHead();
    }

    // ----- the application

    /** Takes the datagram that has waited longest. */
    method TakeDatagram() returns (x: Packet)
      requires Valid() && datagramQueue != 0
      modifies this`heap, this`datagramQueue, this`datagrams, this`delivered
      ensures Valid() && |delivered| == |old(delivered)| + 1 && old(delivered) <= delivered <= filed
      ensures x == filed[|old(delivered)|] && (old(Accounted(0)) ==> Accounted(0))
    {
      ListInHeap(heap, datagramQueue, datagrams);
      var p := datagramQueue;
      ListTail(heap, datagramQueue, datagrams);
      assert p in datagrams;
      x := heap[p].packet;
      assert filed == delivered + [x] + Contents(heap, datagrams[1..]);
      hide List, Contents;
      datagramQueue := heap[p].next;
      datagrams := datagrams[1..];
      delivered := delivered + [x];
      Delete(p);
    }

    /** The form that returns the packet. A length byte below the header's is no data. */
    method DatagramRecv() returns (found: bool, body: Copy)
      requires Valid()
      modifies this`heap, this`datagramQueue, this`datagrams, this`delivered
      ensures Valid() && delivered <= filed && (found <==> old(datagrams) != []) && (old(Accounted(0)) ==> Accounted(0))
      ensures found ==>
                && |delivered| == |old(delivered)| + 1 && old(delivered) <= delivered
                && var x := filed[|old(delivered)|];
                   && body == CopyOf(x.payload, if BodyLength(x) < 0 then 0 else BodyLength(x))
                   && (body.Bytes? <==> x.length <= MAX_PACKET_SIZE + HEADER_SIZE - 1)
      ensures !found ==> delivered == old(delivered) && body == Bytes([])
    {
      ListInHeap(heap, datagramQueue, datagrams);
      if datagramQueue == 0 {
        return false, Bytes([]);
      }
      var x := TakeDatagram();
      var length := BodyLength(x);
      if length < 0 {
        length := 0;
      }
      return true, CopyOf(x.payload, length);
    }

    /** The form that fills a buffer of len bytes. The copy is out of bounds for a length byte
        below the header's, and for one above the payload's unless the buffer is shorter. */
    method DatagramRecvInto(len: int) returns (r: Status, l: int, buf: Copy)
      requires Valid()
      modifies this`heap, this`datagramQueue, this`datagrams, this`delivered
      ensures Valid() && (r == Ok <==> len >= 0 && old(datagrams) != []) && (old(Accounted(0)) ==> Accounted(0))
      ensures r == Ok ==>
                && |delivered| == |old(delivered)| + 1 && old(delivered) <= delivered <= filed
                && var x := filed[|old(delivered)|];
                   && l == (if len < BodyLength(x) then len else BodyLength(x)) && buf == CopyOf(x.payload, l)
                   && (buf.Bytes? <==>
                       HEADER_SIZE - 1 <= x.length
                       && (len <= MAX_PACKET_SIZE || x.length <= MAX_PACKET_SIZE + HEADER_SIZE - 1))
      ensures r != Ok ==> r == InvalidParameter && delivered == old(delivered)
    {
      ListInHeap(heap, datagramQueue, datagrams);
      if datagramQueue == 0 || len < 0 {
        return InvalidParameter, 0, Bytes([]);
      }
      var x := TakeDatagram();
      l := if len < BodyLength(x) then len else BodyLength(x);
      return Ok, l, CopyOf(x.payload, l);
    }
  }

  /** What a packet adds to the datagrams filed, when so many are waiting. */
  function Filed(x: Packet, waiting: nat): seq<Packet>
  {
    if x.protocol == DATAGRAM && waiting <= MAXIMUM_RX_BUFFERS then [x] else []
  }
}
