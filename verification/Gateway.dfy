/**
 The serial thread of gw/serial.cpp and the forwarding thread of gw/gw.cpp around the shared
 ring buffer: the critical sections as methods on the buffer, and the two threads with their
 mutex and condition variable as a transition system.
 */
module Gateway {
  import opened Bytes
  import opened Words
  import opened RingBuffer
  import opened Sonbest

  // ---------------------------------------------------------------- what the critical sections do

  /** The queue after as much of a chunk as fits has been put. */
  function Accept(queue: seq<byte>, capacity: nat, chunk: seq<byte>): (taken: seq<byte>)
    ensures taken <= chunk
    ensures |queue| <= capacity ==> |queue| + |taken| == Min(|queue| + |chunk|, capacity)
  {
    if capacity <= |queue| then [] else chunk[..Min(|chunk|, capacity - |queue|)]
  }

  /** Whether the forwarding thread finds a packet, whatever the queue holds. */
  predicate HasPacket(queue: seq<byte>) {
    DATA_PACKET_SIZE <= |queue|
  }

  /** The serial thread, holding the lock: put what was read from the device. */
  method ProduceChunk(rbuffer: UnlockRingBuffer, devbuf: array<byte>, devbytes: word)
    requires rbuffer.Valid() && devbuf != rbuffer.mpBuffer && devbytes <= devbuf.Length
    modifies rbuffer, rbuffer.mpBuffer
    ensures rbuffer.Valid()
    ensures rbuffer.Contents() ==
            old(rbuffer.Contents()) + Accept(old(rbuffer.Contents()), rbuffer.mnSize, devbuf[..devbytes])
  {
    var len := rbuffer.Put(devbuf, devbytes);
    assert devbuf[..devbytes][..len] == devbuf[..len];
  }

  /**
   One look at the buffer by the forwarding thread, holding the lock; memory is the raw memory
   that get_data points at. Nine bytes are taken when there are nine, and none otherwise.
   */
  method TryTake(rbuffer: UnlockRingBuffer, memory: seq<byte>, packetBuf: array<byte>) returns (packetLen: int)
    requires rbuffer.Valid() && packetBuf != rbuffer.mpBuffer && packetBuf.Length == 256
    requires rbuffer.Size() + 2 <= |memory|
    modifies rbuffer, packetBuf
    ensures rbuffer.Valid()
    ensures packetLen == if HasPacket(old(rbuffer.Contents())) then DATA_PACKET_SIZE else 0
    ensures old(rbuffer.Contents()) == packetBuf[..packetLen] + rbuffer.Contents()
  {
    packetLen := 0;
    if rbuffer.Size() > 0 {
      packetLen := SonbestSd5110b.RecognizePacket(memory, rbuffer.Size());
      if packetLen > 0 {
        forall i | 0 <= i < packetLen {
          packetBuf[i] := 0;
        }
        var len := rbuffer.Get(packetBuf, packetLen);
      }
    }
  }

  // ---------------------------------------------------------------- the two threads

  datatype Producer =
    | Reading                        // at the device, outside the lock
    | MustPut(chunk: seq<byte>)      // holds the lock
    | MustSignal                     // holds the lock
    | MustRelease                    // holds the lock

  datatype Consumer =
    | Outside                        // about to lock
    | Looking                        // holds the lock
    | Waiting                        // in pthread_cond_wait, lock released
    | Woken                          // signalled, must take the lock again
    | Taken(packet: seq<byte>)       // holds the lock, packet copied out
    | Reporting(packet: seq<byte>)   // lock released

  datatype Owner = Free | ByProducer | ByConsumer

  /** The shared queue and lock, the threads, and everything read, accepted, taken and reported. */
  datatype State = State(
    queue: seq<byte>, capacity: nat, lock: Owner,
    producer: Producer, consumer: Consumer,
    offered: seq<byte>, accepted: seq<byte>,
    taken: seq<seq<byte>>, reported: seq<seq<byte>>)

  datatype Step =
    | Read(chunk: seq<byte>) | Put | Signal | Release
    | Lock | Look | Unlock | Report | Wake | Spurious

  predicate Enabled(s: State, step: Step) {
    match step
    case Read(_) => s.producer.Reading? && s.lock.Free?
    case Put => s.producer.MustPut?
    case Signal => s.producer.MustSignal?
    case Release => s.producer.MustRelease?
    case Lock => s.consumer.Outside? && s.lock.Free?
    case Look => s.consumer.Looking?
    case Unlock => s.consumer.Taken?
    case Report => s.consumer.Reporting?
    case Wake => s.consumer.Woken? && s.lock.Free?
    case Spurious => s.consumer.Waiting?
  }

  function Apply(s: State, step: Step): State
    requires Enabled(s, step)
  {
    match step
    case Read(chunk) => s.(lock := ByProducer, producer := MustPut(chunk))
    case Put =>
      var fits := Accept(s.queue, s.capacity, s.producer.chunk);
      s.(queue := s.queue + fits, accepted := s.accepted + fits, offered := s.offered + s.producer.chunk,
         producer := MustSignal)
    case Signal => s.(producer := MustRelease, consumer := if s.consumer.Waiting? then Woken else s.consumer)
    case Release => s.(lock := Free, producer := Reading)
    case Lock => s.(lock := ByConsumer, consumer := Looking)
    case Look =>
      if |s.queue| > 0 && HasPacket(s.queue) then
        var packet := s.queue[..DATA_PACKET_SIZE];
        s.(queue := s.queue[DATA_PACKET_SIZE..], taken := s.taken + [packet], consumer := Taken(packet))
      else s.(lock := Free, consumer := Waiting)
    case Unlock => s.(lock := Free, consumer := Reporting(s.consumer.packet))
    case Report => s.(reported := s.reported + [s.consumer.packet], consumer := Outside)
    case Wake => s.(lock := ByConsumer, consumer := Looking)
    case Spurious => s.(consumer := Woken)
  }

  predicate Initial(s: State) {
    && s.queue == s.offered == s.accepted == [] && s.lock.Free?
    && s.producer.Reading? && s.consumer.Outside?
    && s.taken == s.reported == []
  }

  function Concat(packets: seq<seq<byte>>): seq<byte> {
    if packets == [] then [] else Concat(packets[..|packets| - 1]) + packets[|packets| - 1]
  }

  ghost predicate Inv(s: State) {
    && |s.queue| <= s.capacity
    && Concat(s.taken) + s.queue == s.accepted
    && (forall k :: 0 <= k < |s.taken| ==> |s.taken[k]| == DATA_PACKET_SIZE)
    // the lock is held by exactly the thread that is in its critical section
    && (s.lock.ByProducer? <==> !s.producer.Reading?)
    && (s.lock.ByConsumer? <==> s.consumer.Looking? || s.consumer.Taken?)
    // no lost wake-up
    && (s.consumer.Waiting? ==> !HasPacket(s.queue) || s.producer.MustSignal?)
    // only the packet in hand is taken and not yet reported
    && (if s.consumer.Taken? || s.consumer.Reporting? then s.taken == s.reported + [s.consumer.packet]
        else s.taken == s.reported)
    && |s.accepted| <= |s.offered|
  }

  lemma PutKeeps(s: State)
    requires Inv(s) && Enabled(s, Put)
    ensures Inv(Apply(s, Put))
  {
    var fits := Accept(s.queue, s.capacity, s.producer.chunk);
    assert Concat(s.taken) + (s.queue + fits) == (Concat(s.taken) + s.queue) + fits;
  }

  lemma ConcatOneMore(packets: seq<seq<byte>>, packet: seq<byte>)
    ensures Concat(packets + [packet]) == Concat(packets) + packet
  {
    assert (packets + [packet])[..|packets|] == packets;
  }

  /** Taking a packet off the queue moves bytes from the queue to the packets. */
  lemma TakenAndQueue(taken: seq<seq<byte>>, queue: seq<byte>, n: nat)
    requires n <= |queue|
    ensures Concat(taken + [queue[..n]]) + queue[n..] == Concat(taken) + queue
  {
    ConcatOneMore(taken, queue[..n]);
    assert Concat(taken) + queue[..n] + queue[n..] == Concat(taken) + queue;
  }

  lemma TakeKeeps(s: State, s': State, packet: seq<byte>)
    requires Inv(s) && s.consumer.Looking? && |packet| == DATA_PACKET_SIZE
    requires s' == s.(queue := s'.queue, taken := s.taken + [packet], consumer := Taken(packet))
    requires |s'.queue| <= |s.queue| && Concat(s'.taken) + s'.queue == Concat(s.taken) + s.queue
    ensures Inv(s')
  {
  }

  lemma LookKeeps(s: State)
    requires Inv(s) && Enabled(s, Look)
    ensures Inv(Apply(s, Look))
  {
    if HasPacket(s.queue) {
      TakenAndQueue(s.taken, s.queue, DATA_PACKET_SIZE);
      TakeKeeps(s, Apply(s, Look), s.queue[..DATA_PACKET_SIZE]);
    }
  }

  lemma StepKeeps(s: State, step: Step)
    requires Inv(s) && Enabled(s, step)
    ensures Inv(Apply(s, step))
  {
    match step
    case Put => PutKeeps(s);
    case Look => LookKeeps(s);
    case _ =>
  }

  /** The states of a run of the two threads, in whatever order they are scheduled. */
  ghost predicate IsRun(states: seq<State>, steps: seq<Step>) {
    && |states| == |steps| + 1 && Initial(states[0])
    && forall n :: 0 <= n < |steps| ==> Enabled(states[n], steps[n]) && states[n + 1] == Apply(states[n], steps[n])
  }

  lemma {:induction false} RunInv(states: seq<State>, steps: seq<Step>, n: nat)
    requires IsRun(states, steps) && n < |states|
    ensures Inv(states[n])
    decreases n
  {
    if n == 0 {
    } else {
      RunInv(states, steps, n - 1);
      StepKeeps(states[n - 1], steps[n - 1]);
    }
  }

  // ---------------------------------------------------------------- what every run guarantees

  lemma {:induction false} ConcatBlocks(packets: seq<seq<byte>>, k: nat)
    requires forall i :: 0 <= i < |packets| ==> |packets[i]| == DATA_PACKET_SIZE
    ensures |Concat(packets)| == DATA_PACKET_SIZE * |packets|
    ensures k < |packets| ==>
              packets[k] == Concat(packets)[DATA_PACKET_SIZE * k..DATA_PACKET_SIZE * k + DATA_PACKET_SIZE]
    decreases |packets|
  {
    if packets == [] {
    } else {
      var n := |packets| - 1;
      ConcatBlocks(packets[..n], k);
      if k < n {
        assert packets[k] == packets[..n][k];
      }
    }
  }

  /**
   In every state of every run the packets taken are consecutive nine-byte blocks of the bytes
   accepted, in order; the rest of the accepted bytes is what the buffer holds; and all packets
   but the one in hand have been reported, in order, once.
   */
  lemma PacketsAreBlocks(states: seq<State>, steps: seq<Step>, n: nat)
    requires IsRun(states, steps) && n < |states|
    ensures var s := states[n];
            && s.accepted == Concat(s.taken) + s.queue
            && |s.accepted| == 9 * |s.taken| + |s.queue|
            && (forall k :: 0 <= k < |s.taken| ==> s.taken[k] == s.accepted[9 * k..9 * k + 9])
            && s.reported <= s.taken && |s.taken| <= |s.reported| + 1
  {
    var s := states[n];
    RunInv(states, steps, n);
    ConcatBlocks(s.taken, 0);
    forall k | 0 <= k < |s.taken|
      ensures s.taken[k] == s.accepted[9 * k..9 * k + 9]
    {
      ConcatBlocks(s.taken, k);
    }
  }

  /**
   Whenever the lock is free and the forwarding thread is waiting without having been signalled,
   fewer than nine bytes are buffered: no packet is left behind by a lost wake-up.
   */
  lemma NoLostWakeup(states: seq<State>, steps: seq<Step>, n: nat)
    requires IsRun(states, steps) && n < |states|
    ensures states[n].consumer.Waiting? && states[n].lock.Free? ==> |states[n].queue| < 9
  {
    RunInv(states, steps, n);
  }

  ghost predicate IsFrames(frames: seq<seq<byte>>) {
    forall i :: 0 <= i < |frames| ==> |frames[i]| == DATA_PACKET_SIZE
  }

  /**
   When the accepted bytes are whole frames, the packets taken are those frames, one for one
   and in order; and once the forwarding thread waits unsignalled, all of them, all reported.
   */
  lemma FramesReported(states: seq<State>, steps: seq<Step>, n: nat, frames: seq<seq<byte>>)
    requires IsRun(states, steps) && n < |states|
    requires IsFrames(frames) && states[n].accepted == Concat(frames)
    ensures states[n].taken <= frames
    ensures states[n].consumer.Waiting? && states[n].lock.Free? ==> states[n].reported == frames
  {
    var s := states[n];
    RunInv(states, steps, n);
    ConcatBlocks(s.taken, 0);
    ConcatBlocks(frames, 0);
    forall k | 0 <= k < |s.taken|
      ensures s.taken[k] == frames[k]
    {
      ConcatBlocks(s.taken, k);
      ConcatBlocks(frames, k);
    }
    assert s.taken == frames[..|s.taken|];
  }

  /** A put that finds too little room; its trailing bytes are dropped. */
  ghost predicate Overflows(s: State, step: Step) {
    step.Put? && s.producer.MustPut? && s.capacity < |s.queue| + |s.producer.chunk|
  }

  /** Bytes read from the device are missing from the accepted ones exactly if some put overflowed. */
  lemma {:induction false} LossIffOverflow(states: seq<State>, steps: seq<Step>, n: nat)
    requires IsRun(states, steps) && n < |states|
    ensures states[n].accepted == states[n].offered <==> forall m :: 0 <= m < n ==> !Overflows(states[m], steps[m])
    decreases n
  {
    if n == 0 {
    } else {
      LossIffOverflow(states, steps, n - 1);
      RunInv(states, steps, n - 1);
      StepLoss(states[n - 1], steps[n - 1]);
    }
  }

  lemma StepLoss(s: State, step: Step)
    requires Inv(s) && Enabled(s, step)
    ensures var s' := Apply(s, step); s'.accepted == s'.offered <==> s.accepted == s.offered && !Overflows(s, step)
  {
    if step.Put? {
      EqualAfterAppend(s.accepted, s.offered, s.producer.chunk);
    }
  }

  lemma EqualAfterAppend(a: seq<byte>, b: seq<byte>, c: seq<byte>)
    ensures a + c == b + c <==> a == b
  {
    if a + c == b + c {
      assert a == (a + c)[..|a|] && b == (b + c)[..|b|];
    }
  }

  /** What has been read from the device by the first n steps. */
  function BytesRead(steps: seq<Step>, n: nat): seq<byte>
    requires n <= |steps|
  {
    if n == 0 then [] else BytesRead(steps, n - 1) + if steps[n - 1].Read? then steps[n - 1].chunk else []
  }

  /** Every byte read is offered to the buffer, in order, but for the chunk in hand. */
  lemma {:induction false} OfferedIsRead(states: seq<State>, steps: seq<Step>, n: nat)
    requires IsRun(states, steps) && n < |states|
    ensures BytesRead(steps, n) == Received(states[n])
    decreases n
  {
    if n == 0 {
    } else {
      OfferedIsRead(states, steps, n - 1);
      StepOffers(states[n - 1], steps[n - 1]);
    }
  }

  /** What is offered, and then the chunk in hand. */
  function Received(s: State): seq<byte> {
    s.offered + if s.producer.MustPut? then s.producer.chunk else []
  }

  lemma StepOffers(s: State, step: Step)
    requires Enabled(s, step)
    ensures Received(Apply(s, step)) == Received(s) + if step.Read? then step.chunk else []
  {
  }

  /** A look takes exactly the nine oldest bytes if there are nine, and else waits with the lock released. */
  lemma LookTakes(states: seq<State>, steps: seq<Step>, n: nat)
    requires IsRun(states, steps) && n < |steps| && steps[n] == Look
    ensures var s, t := states[n], states[n + 1];
            if 9 <= |s.queue| then
              t.taken == s.taken + [s.queue[..9]] && t.queue == s.queue[9..] && t.consumer == Taken(s.queue[..9])
            else t.taken == s.taken && t.queue == s.queue && t.consumer.Waiting? && t.lock.Free?
  {
  }

  // ---------------------------------------------------------------- what the threads get done

  ghost predicate Leads(s: State, steps: seq<Step>, t: State)
    decreases |steps|
  {
    if steps == [] then s == t else Enabled(s, steps[0]) && Leads(Apply(s, steps[0]), steps[1..], t)
  }

  /** The threads get from one state to another without anything new from the device or a spurious wake-up. */
  ghost predicate Work(s: State, steps: seq<Step>, t: State) {
    Leads(s, steps, t) && forall i :: 0 <= i < |steps| ==> !steps[i].Read? && !steps[i].Spurious?
  }

  lemma OneMore(s: State, step: Step, steps: seq<Step>, t: State)
    requires Enabled(s, step) && !step.Read? && !step.Spurious? && Work(Apply(s, step), steps, t)
    ensures Work(s, [step] + steps, t)
  {
    assert ([step] + steps)[1..] == steps;
  }

  /** Nothing is left to do: both threads wait, and what is buffered is no packet. */
  ghost predicate AtRest(s: State) {
    s.lock.Free? && s.producer.Reading? && s.consumer.Waiting? && |s.queue| < 9 && s.reported == s.taken
  }

  function Rank(c: Consumer): nat {
    match c
    case Taken(_) => 4
    case Reporting(_) => 3
    case Outside => 2
    case Woken => 2
    case Looking => 1
    case Waiting => 0
  }

  /** With the producer at the device, the consumer takes and reports all whole packets and then waits. */
  lemma {:induction false} Drains(s: State) returns (steps: seq<Step>, t: State)
    requires Inv(s) && s.producer.Reading?
    ensures Work(s, steps, t) && Inv(t) && AtRest(t) && t.accepted == s.accepted
    decreases |s.queue|, Rank(s.consumer)
  {
    if s.consumer.Waiting? {
      steps, t := [], s;
    } else {
      var step := match s.consumer
        case Outside => Lock
        case Looking => Look
        case Woken => Wake
        case Taken(_) => Unlock
        case Reporting(_) => Report;
      StepKeeps(s, step);
      steps, t := Drains(Apply(s, step));
      OneMore(s, step, steps, t);
      steps := [step] + steps;
    }
  }

  /** What of a chunk in hand will be accepted. */
  function InHand(s: State): seq<byte> {
    if s.producer.MustPut? then Accept(s.queue, s.capacity, s.producer.chunk) else []
  }

  /** The producer finishes its critical section first. */
  lemma {:induction false} WorksOffFrom(s: State) returns (steps: seq<Step>, t: State)
    requires Inv(s)
    ensures Work(s, steps, t) && Inv(t) && AtRest(t) && t.accepted == s.accepted + InHand(s)
    decreases match s.producer case MustPut(_) => 3 case MustSignal => 2 case MustRelease => 1 case Reading => 0
  {
    if s.producer.Reading? {
      steps, t := Drains(s);
    } else {
      var step := match s.producer case MustPut(_) => Put case MustSignal => Signal case MustRelease => Release;
      StepKeeps(s, step);
      steps, t := WorksOffFrom(Apply(s, step));
      OneMore(s, step, steps, t);
      steps := [step] + steps;
    }
  }

  /**
   From every state of every run the two threads can go on, without anything new from the device, until
   both wait, and then every whole nine-byte block of the accepted bytes has been reported.
   */
  lemma WorksOff(states: seq<State>, steps: seq<Step>, n: nat) returns (more: seq<Step>, t: State)
    requires IsRun(states, steps) && n < |states|
    ensures Work(states[n], more, t) && AtRest(t) && t.accepted == states[n].accepted + InHand(states[n])
    ensures |t.reported| == |t.accepted| / 9
    ensures forall k :: 0 <= k < |t.reported| ==> t.reported[k] == t.accepted[9 * k..9 * k + 9]
  {
    RunInv(states, steps, n);
    more, t := WorksOffFrom(states[n]);
    BlocksReported(t);
  }

  lemma BlocksReported(t: State)
    requires Inv(t) && AtRest(t)
    ensures |t.reported| == |t.accepted| / 9
    ensures forall k :: 0 <= k < |t.reported| ==> t.reported[k] == t.accepted[9 * k..9 * k + 9]
  {
    ConcatBlocks(t.taken, 0);
    forall k | 0 <= k < |t.taken|
      ensures t.taken[k] == t.accepted[9 * k..9 * k + 9]
    {
      ConcatBlocks(t.taken, k);
    }
  }

  /**
   And from there any chunk that the device then has is read and put, the part of it that fits, which is
   all of it if there is room for it beside an incomplete packet, and worked off in the same way.
   */
  lemma ChunkServed(states: seq<State>, steps: seq<Step>, n: nat, chunk: seq<byte>)
    returns (before: seq<Step>, u: State, after: seq<Step>, t: State)
    requires IsRun(states, steps) && n < |states|
    ensures Work(states[n], before, u) && AtRest(u) && u.accepted == states[n].accepted + InHand(states[n])
    ensures Leads(u, [Read(chunk)] + after, t) && AtRest(t) && |t.reported| == |t.accepted| / 9
    ensures u.accepted <= t.accepted <= u.accepted + chunk
    ensures |chunk| + 8 <= states[n].capacity ==> t.accepted == u.accepted + chunk
  {
    RunInv(states, steps, n);
    before, u := WorksOffFrom(states[n]);
    CapacityStays(states[n], before, u);
    StepKeeps(u, Read(chunk));
    var v := Apply(u, Read(chunk));
    after, t := WorksOffFrom(v);
    assert ([Read(chunk)] + after)[1..] == after;
    BlocksReported(t);
  }

  lemma {:induction false} CapacityStays(s: State, steps: seq<Step>, t: State)
    requires Leads(s, steps, t)
    ensures t.capacity == s.capacity
    decreases |steps|
  {
    if steps == [] {
    } else {
      CapacityStays(Apply(s, steps[0]), steps[1..], t);
    }
  }

  /** A waiting consumer may wake up at any time without having been signalled; it looks, and waits again. */
  lemma SpuriousIsHarmless(s: State)
    requires s.consumer.Waiting? && s.lock.Free? && |s.queue| < 9
    ensures Leads(s, [Spurious, Wake, Look], s)
  {
    var a := Apply(s, Spurious);
    var b := Apply(a, Wake);
    assert Apply(b, Look) == s;
    assert Leads(b, [Look], s) by {
      assert [Look][1..] == [];
    }
    assert Leads(a, [Wake, Look], s) by {
      assert [Wake, Look][1..] == [Look];
    }
    assert [Spurious, Wake, Look][1..] == [Wake, Look];
  }

  /** The threads start with an empty buffer of whatever capacity. */
  lemma AnyCapacity(capacity: nat) returns (s: State)
    ensures IsRun([s], []) && s.capacity == capacity && s.queue == []
  {
    s := State([], capacity, Free, Reading, Outside, [], [], [], []);
  }
}
