/** The saver's producer and consumer: fs_save_on_packet pushes into the saver's ring, the loop of save_thread_func
    drains it into the file. */
module SaveThread {
  import opened Bytes
  import opened RingBuffer
  import Columns

  const QUEUE_LENGTH: nat := 16 // FS_MAX_PACKET_QUEUE_LENGTH

  function Texts<P>(format: P -> seq<byte>, ps: seq<P>): (ts: seq<seq<byte>>)
    ensures |ts| == |ps|
  {
    seq(|ps|, i requires 0 <= i < |ps| => format(ps[i]))
  }

  lemma TextsAppend<P>(format: P -> seq<byte>, ps: seq<P>, qs: seq<P>)
    ensures Texts(format, ps + qs) == Texts(format, ps) + Texts(format, qs)
  {
  }

  /** What happens at the saver's ring: a packet comes in, or the thread pops one, if there is one. */
  datatype Event<P> = Packet(p: P) | Popped

  /** File and queue after one event, as the methods change them. */
  function After<P>(format: P -> seq<byte>, file: seq<byte>, queue: seq<P>, e: Event<P>): (seq<byte>, seq<P>) {
    match e
    case Packet(p) => (file, LastN(queue + [p], QUEUE_LENGTH))
    case Popped => if queue == [] then (file, []) else (file + format(queue[0]), queue[1..])
  }

  lemma WriteOne<P>(file: seq<byte>, format: P -> seq<byte>, queue: seq<P>)
    ensures var r := After(format, file, queue, Popped);
      file + Concat(Texts(format, queue)) == r.0 + Concat(Texts(format, r.1))
  {
    if queue != [] {
      HeadTail(queue);
      TextsAppend(format, [queue[0]], queue[1..]);
      assert Texts(format, [queue[0]]) == [format(queue[0])];
      SplitAt([format(queue[0])], Texts(format, queue[1..]));
      Assoc(file, format(queue[0]), Concat(Texts(format, queue[1..])));
    }
  }

  lemma NothingQueued<P>(file: seq<byte>, format: P -> seq<byte>)
    ensures file + Concat(Texts(format, [])) == file
  {
    assert Texts(format, []) == [];
    assert file + [] == file;
  }

  /** fs_save_device_t: `format` is format_packet, the file is what has been written to it. */
  class SaveDevice<P(0)> {
    const packetsToSave: Ring<P>
    const format: P -> seq<byte>
    var file: seq<byte>
    var running: bool

    ghost predicate Valid()
      reads this, packetsToSave
    {
      packetsToSave.Valid() && packetsToSave.size == QUEUE_LENGTH
    }

    constructor (formatPacket: P -> seq<byte>)
      ensures Valid() && fresh(packetsToSave) && fresh(packetsToSave.buffer) && format == formatPacket && !running
    {
      packetsToSave := new Ring(QUEUE_LENGTH);
      format := formatPacket;
      file := [];
      running := false;
    }

    /** fs_save_begin_device with a file that could be created and a thread that started. */
    method Begin()
      requires Valid()
      modifies this, packetsToSave
      ensures Valid() && running && file == Columns.HeaderLine() && packetsToSave.Contents() == []
    {
      file := Columns.HeaderLine();
      packetsToSave.Init();
      running := true;
    }

    /** fs_save_on_packet */
    method OnPacket(p: P) returns (rc: int)
      requires Valid()
      modifies packetsToSave, packetsToSave.buffer
      ensures Valid()
      ensures !running ==> rc == -2 && packetsToSave.Contents() == old(packetsToSave.Contents())
      ensures running ==>
        rc == 0 && packetsToSave.Contents() == LastN(old(packetsToSave.Contents()) + [p], QUEUE_LENGTH)
    {
      if !running {
        return -2;
      }
      var success := packetsToSave.PushForce(p);
      return if success then 0 else -1;
    }

    /** One turn of the inner loop of save_thread_func: the oldest packet, if any, is formatted and written. */
    method DrainOne() returns (more: bool)
      requires Valid()
      modifies this, packetsToSave
      ensures Valid() && running == old(running) && more == (|old(packetsToSave.Contents())| > 0)
      ensures (file, packetsToSave.Contents())
           == After(format, old(file), old(packetsToSave.Contents()), Popped)
    {
      var packet := packetsToSave.Pop();
      more := packet.Some?;
      if more {
        file := file + format(packet.value);
      }
    }

    /** The inner loop: every queued packet is popped, formatted and written. */
    method Drain()
      requires Valid()
      modifies this, packetsToSave
      ensures Valid() && packetsToSave.Contents() == [] && running == old(running)
      ensures file == old(file) + Concat(Texts(format, old(packetsToSave.Contents())))
    {
      ghost var goal := file + Concat(Texts(format, packetsToSave.Contents()));
      assert file + Concat(Texts(format, packetsToSave.Contents())) == goal;
      var more := true;
      while more
        invariant Valid() && running == old(running) && (!more ==> packetsToSave.Contents() == [])
        invariant goal == file + Concat(Texts(format, packetsToSave.Contents()))
        decreases more, packetsToSave.count
      {
        WriteOne(file, format, packetsToSave.Contents());
        more := DrainOne();
      }
      NothingQueued(file, format);
    }
  }

  // ----- runs -----

  function Saved<P>(format: P -> seq<byte>, file: seq<byte>, queue: seq<P>, events: seq<Event<P>>): (seq<byte>, seq<P>)
    decreases |events|
  {
    if events == [] then (file, queue)
    else var (f, q) := After(format, file, queue, events[0]); Saved(format, f, q, events[1..])
  }

  /** The packets written by a run, and those still queued after it. */
  function Flow<P>(queue: seq<P>, events: seq<Event<P>>): (seq<P>, seq<P>)
    decreases |events|
  {
    if events == [] then ([], queue)
    else
      match events[0]
      case Packet(p) => Flow(LastN(queue + [p], QUEUE_LENGTH), events[1..])
      case Popped =>
        if queue == [] then Flow([], events[1..])
        else var (written, left) := Flow(queue[1..], events[1..]); ([queue[0]] + written, left)
  }

  /** The file has grown by one text for each written packet. */
  lemma {:induction false} FlowIsSaved<P>(format: P -> seq<byte>, file: seq<byte>, queue: seq<P>, events: seq<Event<P>>)
    ensures var (written, left) := Flow(queue, events);
      Saved(format, file, queue, events) == (file + Concat(Texts(format, written)), left)
    decreases |events|
  {
    if events == [] {
      NothingQueued(file, format);
    } else if events[0].Popped? && queue != [] {
      var written := Flow(queue[1..], events[1..]).0;
      FlowIsSaved(format, file + format(queue[0]), queue[1..], events[1..]);
      WriteOne(file, format, [queue[0]] + written);
      assert ([queue[0]] + written)[1..] == written;
    } else {
      FlowIsSaved(format, file, After(format, file, queue, events[0]).1, events[1..]);
    }
  }

  function Pops<P>(k: nat): (events: seq<Event<P>>)
    ensures |events| == k
  {
    seq(k, _ => Popped)
  }

  /** Draining is popping until nothing is left. */
  lemma {:induction false} DrainIsPops<P>(format: P -> seq<byte>, file: seq<byte>, queue: seq<P>, k: nat)
    requires k >= |queue|
    ensures Saved(format, file, queue, Pops(k)) == (file + Concat(Texts(format, queue)), [])
    decreases k
  {
    NothingQueued(file, format);
    if k > 0 {
      var (f, q) := After(format, file, queue, Popped);
      assert Pops<P>(k)[1..] == Pops<P>(k - 1);
      WriteOne(file, format, queue);
      DrainIsPops(format, f, q, k - 1);
    }
  }

  function Packets<P>(events: seq<Event<P>>): seq<P> {
    if events == [] then []
    else
      match events[0]
      case Packet(p) => [p] + Packets(events[1..])
      case Popped => Packets(events[1..])
  }

  /** The consumer keeps up: from a queue of the given length on, no packet finds the queue full. */
  predicate KeepsUp<P>(queued: nat, events: seq<Event<P>>)
    decreases |events|
  {
    if events == [] then true
    else
      match events[0]
      case Packet(_) => queued < QUEUE_LENGTH && KeepsUp(queued + 1, events[1..])
      case Popped => KeepsUp(if queued == 0 then 0 else queued - 1, events[1..])
  }

  /** Packets are lost exactly when one of them finds the queue full. */
  lemma {:induction false} LostIff<P>(queue: seq<P>, events: seq<Event<P>>)
    requires |queue| <= QUEUE_LENGTH
    ensures var (written, left) := Flow(queue, events);
      && |written| + |left| <= |queue| + |Packets(events)|
      && (|written| + |left| == |queue| + |Packets(events)| <==> KeepsUp(|queue|, events))
    decreases |events|
  {
    if events != [] {
      match events[0]
      case Packet(p) => LostIff(LastN(queue + [p], QUEUE_LENGTH), events[1..]);
      case Popped => LostIff(if queue == [] then [] else queue[1..], events[1..]);
    }
  }

  lemma {:induction false} FlowInOrder<P>(queue: seq<P>, events: seq<Event<P>>)
    requires |queue| <= QUEUE_LENGTH && KeepsUp(|queue|, events)
    ensures Flow(queue, events).0 + Flow(queue, events).1 == queue + Packets(events)
    decreases |events|
  {
    if events == [] {
      assert [] + queue == queue + [];
    } else {
      match events[0]
      case Packet(p) =>
        FlowInOrder(queue + [p], events[1..]);
        Assoc(queue, [p], Packets(events[1..]));
      case Popped =>
        if queue == [] {
          FlowInOrder(queue, events[1..]);
        } else {
          var later := Flow(queue[1..], events[1..]);
          FlowInOrder(queue[1..], events[1..]);
          Assoc([queue[0]], later.0, later.1);
          Assoc([queue[0]], queue[1..], Packets(events[1..]));
          HeadTail(queue);
        }
    }
  }

  /** Of a run that starts with an empty queue, with packets coming in between any two pops: what is written and what
      is still queued are together as many packets as came in if and only if none of them finds sixteen queued, and
      are then these packets in order; the file has one text for each written packet. */
  lemma NothingIsLost<P>(format: P -> seq<byte>, file: seq<byte>, events: seq<Event<P>>)
    ensures var (written, left) := Flow([], events);
      && Saved(format, file, [], events) == (file + Concat(Texts(format, written)), left)
      && (|written| + |left| == |Packets(events)| <==> KeepsUp(0, events))
      && (KeepsUp(0, events) ==> written + left == Packets(events))
  {
    FlowIsSaved(format, file, [], events);
    LostIff<P>([], events);
    if KeepsUp(0, events) {
      FlowInOrder<P>([], events);
      assert [] + Packets(events) == Packets(events);
    }
  }
}
