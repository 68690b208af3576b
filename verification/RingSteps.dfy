/**
 One producer and one consumer on the same ring buffer with no lock between them. put and get
 are taken apart into the steps that another thread can observe: sample the other side's index,
 copy single bytes in any order, publish the own index. The barriers of the source make these
 steps sequentially consistent.
 */
module RingSteps {
  import opened Bytes
  import opened Words
  import opened RingBuffer

  datatype Producer =
    | PutIdle
    | Putting(data: seq<byte>, copied: set<nat>)  // the bytes that fit when the out index was sampled

  datatype Consumer =
    | GetIdle
    | Getting(len: nat, got: map<nat, byte>)      // the number there when the in index was sampled

  /** The shared buffer and indices, the two threads, and the whole history of both. */
  datatype State = State(
    buf: seq<byte>, nIn: word, nOut: word,
    producer: Producer, consumer: Consumer,
    accepted: seq<byte>, delivered: seq<byte>)

  datatype Step =
    | PutSample(request: seq<byte>)
    | PutCopy(i: nat)
    | PutPublish
    | GetSample(wanted: word)
    | GetCopy(j: nat)
    | GetPublish

  predicate Enabled(s: State, step: Step) {
    match step
    case PutSample(request) => s.producer.PutIdle? && |request| < WRAP
    case PutCopy(i) => s.producer.Putting? && i < |s.producer.data| && i !in s.producer.copied && 0 < |s.buf|
    case PutPublish => s.producer.Putting? && forall i :: 0 <= i < |s.producer.data| ==> i in s.producer.copied
    case GetSample(_) => s.consumer.GetIdle?
    case GetCopy(j) => s.consumer.Getting? && j < s.consumer.len && j !in s.consumer.got && 0 < |s.buf|
    case GetPublish => s.consumer.Getting? && forall j :: 0 <= j < s.consumer.len ==> j in s.consumer.got
  }

  function Apply(s: State, step: Step): State
    requires Enabled(s, step)
  {
    match step
    case PutSample(request) =>
      var len := Min(|request|, (|s.buf| - s.nIn + s.nOut) % WRAP);
      s.(producer := Putting(request[..len], {}))
    case PutCopy(i) =>
      s.(buf := s.buf[Slot(s.nIn, i, |s.buf|) := s.producer.data[i]],
         producer := Putting(s.producer.data, s.producer.copied + {i}))
    case PutPublish =>
      s.(nIn := (s.nIn + |s.producer.data|) % WRAP, producer := PutIdle, accepted := s.accepted + s.producer.data)
    case GetSample(wanted) =>
      s.(consumer := Getting(Min(wanted, (s.nIn - s.nOut) % WRAP), map[]))
    case GetCopy(j) =>
      s.(consumer := Getting(s.consumer.len, s.consumer.got[j := s.buf[Slot(s.nOut, j, |s.buf|)]]))
    case GetPublish =>
      s.(nOut := (s.nOut + s.consumer.len) % WRAP, consumer := GetIdle, delivered := s.delivered + Got(s.consumer))
  }

  /** What a consumer that has copied everything hands over. */
  function Got(c: Consumer): (data: seq<byte>)
    requires c.Getting? && forall j :: 0 <= j < c.len ==> j in c.got
    ensures |data| == c.len
  {
    seq(c.len, j requires 0 <= j < c.len => c.got[j])
  }

  /** The buffer as init leaves it. */
  ghost predicate Initial(s: State) {
    && IsCapacity(|s.buf|)
    && s.nIn == s.nOut == 0
    && s.producer.PutIdle? && s.consumer.GetIdle?
    && s.accepted == s.delivered == []
  }

  // ---------------------------------------------------------------- the invariant

  ghost predicate Inv(s: State) {
    var a, d, size := |s.accepted|, |s.delivered|, |s.buf|;
    && IsCapacity(size) && size < WRAP
    && s.nIn == a % WRAP && s.nOut == d % WRAP
    && d <= a <= d + size
    && s.delivered == s.accepted[..d]
    && Window(s.buf, d, a - d) == s.accepted[d..]
    && (s.producer.Putting? ==> ProducerInv(s.buf, a, a - d, s.producer))
    && (s.consumer.Getting? ==> ConsumerInv(s.accepted, d, s.consumer))
  }

  /** The producer has room for everything it still holds, and what it has copied is in place. */
  ghost predicate ProducerInv(buf: seq<byte>, a: nat, used: nat, p: Producer)
    requires p.Putting?
  {
    && used + |p.data| <= |buf|
    && forall i :: i in p.copied ==> i < |p.data| && buf[Slot(a, i, |buf|)] == p.data[i]
  }

  /** Everything the consumer was promised has been accepted, and what it has copied is that. */
  ghost predicate ConsumerInv(accepted: seq<byte>, d: nat, c: Consumer)
    requires c.Getting?
  {
    && d + c.len <= |accepted|
    && forall j :: j in c.got ==> j < c.len && c.got[j] == accepted[d + j]
  }

  lemma InitialInv(s: State)
    requires Initial(s)
    ensures Inv(s)
  {
    Pow2Of31();
    if |s.buf| != 0 {
      var k: nat :| k <= 31 && |s.buf| == Pow2(k);
      Pow2Monotone(k, 31);
    }
    assert 0 % WRAP == 0;
  }

  lemma UsedIsLength(s: State)
    requires Inv(s)
    ensures Used(s.nIn, s.nOut) == |s.accepted| - |s.delivered|
  {
    var a, d := |s.accepted|, |s.delivered|;
    ModShift(a, d, WRAP);
    ModDifference(a % WRAP, d, WRAP);
    SmallMod(a - d, WRAP);
  }

  // ---------------------------------------------------------------- every step keeps it

  /** A slot the producer may still write lies outside the published window. */
  lemma OutsideWindow(s: State, i: nat, k: nat)
    requires Inv(s) && s.producer.Putting? && i < |s.producer.data|
    requires k < Used(s.nIn, s.nOut)
    ensures 0 < |s.buf| && Slot(s.nOut, k, |s.buf|) != Slot(s.nIn, i, |s.buf|)
  {
    var a, d, size := |s.accepted|, |s.delivered|, |s.buf|;
    UsedIsLength(s);
    SlotWraps(d, k, size);
    SlotWraps(a, i, size);
    ModDistinct(d, k, a - d + i, size);
    assert d + (a - d + i) == a + i;
  }

  lemma SampleKeeps(s: State, step: Step)
    requires Inv(s) && Enabled(s, step) && (step.PutSample? || step.GetSample?)
    ensures Inv(Apply(s, step))
  {
    UsedIsLength(s);
    FreeIsRest(|s.buf|, s.nIn, s.nOut);
  }

  lemma FreeIsRest(size: nat, nIn: word, nOut: word)
    requires Used(nIn, nOut) <= size < WRAP
    ensures (size - nIn + nOut) % WRAP == size - Used(nIn, nOut)
  {
  }

  lemma PutCopyKeeps(s: State, i: nat)
    requires Inv(s) && Enabled(s, PutCopy(i))
    ensures Inv(Apply(s, PutCopy(i)))
  {
    var s' := Apply(s, PutCopy(i));
    var a, d, size := |s.accepted|, |s.delivered|, |s.buf|;
    UsedIsLength(s);
    SlotWraps(a, i, size);
    var w, w' := Window(s.buf, d, a - d), Window(s'.buf, d, a - d);
    forall k | 0 <= k < a - d
      ensures w'[k] == w[k]
    {
      OutsideWindow(s, i, k);
      SlotWraps(d, k, size);
    }
    assert w' == w;
    forall j | j in s'.producer.copied
      ensures s'.buf[Slot(a, j, size)] == s.producer.data[j]
    {
      if j < i {
        ModDistinct(a, j, i, size);
      } else if i < j {
        ModDistinct(a, i, j, size);
      }
    }
  }

  /** Once everything is copied, the slots behind the window hold what is to be published. */
  lemma CopiedExtends(buf: seq<byte>, accepted: seq<byte>, d: nat, data: seq<byte>)
    requires d <= |accepted| && |accepted| - d + |data| <= |buf|
    requires Window(buf, d, |accepted| - d) == accepted[d..]
    requires forall i :: 0 <= i < |data| ==> buf[Slot(|accepted|, i, |buf|)] == data[i]
    ensures Window(buf, d, |accepted| + |data| - d) == (accepted + data)[d..]
  {
    var a := |accepted|;
    var w, q := Window(buf, d, a + |data| - d), (accepted + data)[d..];
    forall k | 0 <= k < a + |data| - d
      ensures w[k] == q[k]
    {
      if k < a - d {
        assert Window(buf, d, a - d)[k] == accepted[d..][k];
      } else {
        assert w[k] == buf[Slot(a, k - (a - d), |buf|)];
      }
    }
  }

  lemma AllCopied(s: State)
    requires Inv(s) && Enabled(s, PutPublish)
    ensures var data := s.producer.data;
            forall i :: 0 <= i < |data| ==> s.buf[Slot(|s.accepted|, i, |s.buf|)] == data[i]
  {
  }

  lemma PutPublishKeeps(s: State)
    requires Inv(s) && Enabled(s, PutPublish)
    ensures Inv(Apply(s, PutPublish))
  {
    ModPlus(|s.accepted|, |s.producer.data|, WRAP);
    AllCopied(s);
    CopiedExtends(s.buf, s.accepted, |s.delivered|, s.producer.data);
  }

  lemma GetCopyKeeps(s: State, j: nat)
    requires Inv(s) && Enabled(s, GetCopy(j))
    ensures Inv(Apply(s, GetCopy(j)))
  {
    var a, d := |s.accepted|, |s.delivered|;
    SlotWraps(d, j, |s.buf|);
    assert Window(s.buf, d, a - d)[j] == s.accepted[d..][j];
  }

  /** What has been copied out is the front of what is accepted and not yet delivered. */
  lemma CopiedOut(accepted: seq<byte>, d: nat, c: Consumer)
    requires c.Getting? && ConsumerInv(accepted, d, c) && forall j :: 0 <= j < c.len ==> j in c.got
    ensures accepted[..d] + Got(c) == accepted[..d + c.len]
  {
    forall j | 0 <= j < c.len
      ensures Got(c)[j] == accepted[d + j]
    {
      assert j in c.got;
    }
  }

  lemma WindowMovesOn(buf: seq<byte>, accepted: seq<byte>, d: nat, n: nat)
    requires d + n <= |accepted| <= d + |buf| && Window(buf, d, |accepted| - d) == accepted[d..]
    ensures Window(buf, d + n, |accepted| - (d + n)) == accepted[d + n..]
  {
    WindowSplits(buf, d, |accepted| - d, n);
    assert accepted[d..][n..] == accepted[d + n..];
  }

  lemma GetPublishKeeps(s: State)
    requires Inv(s) && Enabled(s, GetPublish)
    ensures Inv(Apply(s, GetPublish))
  {
    var d, n := |s.delivered|, s.consumer.len;
    ModPlus(d, n, WRAP);
    CopiedOut(s.accepted, d, s.consumer);
    WindowMovesOn(s.buf, s.accepted, d, n);
  }

  lemma StepKeeps(s: State, step: Step)
    requires Inv(s) && Enabled(s, step)
    ensures Inv(Apply(s, step))
  {
    match step
    case PutSample(_) => SampleKeeps(s, step);
    case PutCopy(i) => PutCopyKeeps(s, i);
    case PutPublish => PutPublishKeeps(s);
    case GetSample(_) => SampleKeeps(s, step);
    case GetCopy(j) => GetCopyKeeps(s, j);
    case GetPublish => GetPublishKeeps(s);
  }

  // ---------------------------------------------------------------- all runs

  /** The states of a run: each follows from the one before by some enabled step. */
  ghost predicate IsRun(states: seq<State>, steps: seq<Step>) {
    && |states| == |steps| + 1 && Initial(states[0])
    && forall n :: 0 <= n < |steps| ==> Enabled(states[n], steps[n]) && states[n + 1] == Apply(states[n], steps[n])
  }

  lemma {:induction false} RunInv(states: seq<State>, steps: seq<Step>, n: nat)
    requires IsRun(states, steps) && n < |states|
    ensures Inv(states[n])
    decreases n
  {
    if n == 0 {
      InitialInv(states[0]);
    } else {
      RunInv(states, steps, n - 1);
      StepKeeps(states[n - 1], steps[n - 1]);
    }
  }

  /**
   In every state of every interleaving, however often the indices have wrapped: what has been
   delivered, followed by what lies in the published window, is exactly what has been accepted,
   and the window never outgrows the buffer.
   */
  lemma NothingLostOrReordered(states: seq<State>, steps: seq<Step>, n: nat)
    requires IsRun(states, steps) && n < |states|
    ensures var s := states[n];
            && Used(s.nIn, s.nOut) <= |s.buf|
            && s.delivered + Window(s.buf, s.nOut, Used(s.nIn, s.nOut)) == s.accepted
  {
    var s := states[n];
    RunInv(states, steps, n);
    UsedIsLength(s);
    WindowWraps(s.buf, |s.delivered|, Used(s.nIn, s.nOut));
    assert s.accepted == s.accepted[..|s.delivered|] + s.accepted[|s.delivered|..];
  }

  /** In every interleaving, no byte the producer copies goes to a slot of the published window. */
  lemma ProducerKeepsOffWindow(states: seq<State>, steps: seq<Step>, n: nat, k: nat)
    requires IsRun(states, steps) && n < |steps| && steps[n].PutCopy?
    requires k < Used(states[n].nIn, states[n].nOut)
    ensures var s := states[n]; Slot(s.nIn, steps[n].i, |s.buf|) != Slot(s.nOut, k, |s.buf|)
  {
    RunInv(states, steps, n);
    OutsideWindow(states[n], steps[n].i, k);
  }

  /**
   In every interleaving, each byte the consumer copies comes from a slot of the published window,
   so it is an accepted byte, and from none that the producer may still write.
   */
  lemma ConsumerStaysInWindow(states: seq<State>, steps: seq<Step>, n: nat, i: nat)
    requires IsRun(states, steps) && n < |steps| && steps[n].GetCopy?
    ensures var s, j := states[n], steps[n].j;
            && j < Used(s.nIn, s.nOut) && |s.delivered| + j < |s.accepted|
            && s.buf[Slot(s.nOut, j, |s.buf|)] == s.accepted[|s.delivered| + j]
            && (s.producer.Putting? && i < |s.producer.data| ==>
                  Slot(s.nOut, j, |s.buf|) != Slot(s.nIn, i, |s.buf|))
  {
    var s, j := states[n], steps[n].j;
    RunInv(states, steps, n);
    UsedIsLength(s);
    WindowAt(s, j);
    if s.producer.Putting? && i < |s.producer.data| {
      OutsideWindow(s, i, j);
    }
  }

  lemma WindowAt(s: State, j: nat)
    requires Inv(s) && |s.delivered| + j < |s.accepted|
    ensures 0 < |s.buf| && s.buf[Slot(s.nOut, j, |s.buf|)] == s.accepted[|s.delivered| + j]
  {
    var a, d := |s.accepted|, |s.delivered|;
    SlotWraps(d, j, |s.buf|);
    assert Window(s.buf, d, a - d)[j] == s.accepted[d..][j];
  }

  // ---------------------------------------------------------------- a lock-free queue

  /** The queue that an observer of the indices sees. */
  function Queue(s: State): (q: seq<byte>)
    requires Used(s.nIn, s.nOut) <= |s.buf|
  {
    Window(s.buf, s.nOut, Used(s.nIn, s.nOut))
  }

  /**
   Every interleaving refines an atomic bounded queue: only a publish changes it, put's by
   appending what it copied, get's by removing what it hands over, and every other step, a copy
   by the other thread included, leaves it alone.
   */
  lemma StepRefinesQueue(states: seq<State>, steps: seq<Step>, n: nat)
    requires IsRun(states, steps) && n < |steps|
    ensures Used(states[n].nIn, states[n].nOut) <= |states[n].buf|
    ensures Used(states[n + 1].nIn, states[n + 1].nOut) <= |states[n + 1].buf|
    ensures var q, q' := Queue(states[n]), Queue(states[n + 1]);
            match steps[n]
            case PutPublish => q' == q + states[n].producer.data
            case GetPublish => q == Got(states[n].consumer) + q'
            case _ => q' == q
  {
    NothingLostOrReordered(states, steps, n);
    NothingLostOrReordered(states, steps, n + 1);
    var s, s' := states[n], states[n + 1];
    var q, q' := Queue(s), Queue(s');
    match steps[n]
    case PutPublish => Cancel(s.delivered, q', q + s.producer.data);
    case GetPublish =>
      Cancel(s.delivered, q, Got(s.consumer) + q');
    case _ => Cancel(s.delivered, q', q);
  }

  lemma Cancel(p: seq<byte>, u: seq<byte>, v: seq<byte>)
    requires p + u == p + v
    ensures u == v
  {
    assert u == (p + u)[|p|..] && v == (p + v)[|p|..];
  }

  // ---------------------------------------------------------------- what was asked for

  lemma QueueFits(states: seq<State>, steps: seq<Step>, n: nat)
    requires IsRun(states, steps) && n < |states|
    ensures Used(states[n].nIn, states[n].nOut) <= |states[n].buf|
    ensures states[n].delivered + Queue(states[n]) == states[n].accepted
  {
    NothingLostOrReordered(states, steps, n);
  }

  /** From its sample to its publish a put holds the leading bytes of the request that fitted at the sample. */
  lemma {:induction false} PutHeld(states: seq<State>, steps: seq<Step>, m: nat, n: nat)
    requires IsRun(states, steps) && m < n < |states| && steps[m].PutSample?
    requires forall k :: m < k < n ==> !steps[k].PutPublish?
    ensures Used(states[m].nIn, states[m].nOut) <= |states[m].buf|
    ensures var request := steps[m].request;
            && states[n].producer.Putting?
            && states[n].producer.data == request[..Min(|request|, |states[m].buf| - |Queue(states[m])|)]
    decreases n
  {
    QueueFits(states, steps, m);
    assert Enabled(states[n - 1], steps[n - 1]) && states[n] == Apply(states[n - 1], steps[n - 1]);
    if n == m + 1 {
      RunInv(states, steps, m);
      FreeIsRest(|states[m].buf|, states[m].nIn, states[m].nOut);
    } else {
      PutHeld(states, steps, m, n - 1);
    }
  }

  /** A publish appends the leading bytes of the put's request, as many as there was room for when it began. */
  lemma PutTakesLeading(states: seq<State>, steps: seq<Step>, m: nat, n: nat)
    requires IsRun(states, steps) && m < n < |steps| && steps[m].PutSample? && steps[n].PutPublish?
    requires forall k :: m < k < n ==> !steps[k].PutPublish?
    ensures forall k :: m <= k <= n + 1 ==> Used(states[k].nIn, states[k].nOut) <= |states[k].buf|
    ensures var request, room := steps[m].request, |states[m].buf| - |Queue(states[m])|;
            Queue(states[n + 1]) == Queue(states[n]) + request[..Min(|request|, room)]
  {
    forall k | m <= k <= n + 1
      ensures Used(states[k].nIn, states[k].nOut) <= |states[k].buf|
    {
      QueueFits(states, steps, k);
    }
    PutHeld(states, steps, m, n);
    StepRefinesQueue(states, steps, n);
  }

  /** From its sample to its publish a get keeps the number it found, and the other thread only adds bytes. */
  lemma {:induction false} GetHeld(states: seq<State>, steps: seq<Step>, m: nat, n: nat)
    requires IsRun(states, steps) && m < n < |states| && steps[m].GetSample?
    requires forall k :: m < k < n ==> !steps[k].GetPublish?
    ensures Used(states[m].nIn, states[m].nOut) <= |states[m].buf|
    ensures states[n].consumer.Getting? && states[n].consumer.len == Min(steps[m].wanted, |Queue(states[m])|)
    ensures states[n].delivered == states[m].delivered && states[m].accepted <= states[n].accepted
    decreases n
  {
    QueueFits(states, steps, m);
    assert Enabled(states[n - 1], steps[n - 1]) && states[n] == Apply(states[n - 1], steps[n - 1]);
    if n == m + 1 {
    } else {
      GetHeld(states, steps, m, n - 1);
    }
  }

  /** A publish removes, and hands over, the oldest bytes that were there when the get began, as many as were wanted. */
  lemma GetTakesOldest(states: seq<State>, steps: seq<Step>, m: nat, n: nat)
    requires IsRun(states, steps) && m < n < |steps| && steps[m].GetSample? && steps[n].GetPublish?
    requires forall k :: m < k < n ==> !steps[k].GetPublish?
    ensures forall k :: m <= k <= n + 1 ==> Used(states[k].nIn, states[k].nOut) <= |states[k].buf|
    ensures var there := Queue(states[m]); var oldest := there[..Min(steps[m].wanted, |there|)];
            && Queue(states[n]) == oldest + Queue(states[n + 1])
            && states[n + 1].delivered == states[n].delivered + oldest
  {
    forall k | m <= k <= n + 1
      ensures Used(states[k].nIn, states[k].nOut) <= |states[k].buf|
    {
      QueueFits(states, steps, k);
    }
    var s, t := states[m], states[n];
    QueueFits(states, steps, m);
    GetHeld(states, steps, m, n);
    RunInv(states, steps, n);
    CopiedOut(t.accepted, |t.delivered|, t.consumer);
    FrontOf(s.delivered, Queue(s), t.accepted, Got(t.consumer));
    StepRefinesQueue(states, steps, n);
  }

  lemma FrontOf(d: seq<byte>, q: seq<byte>, all: seq<byte>, got: seq<byte>)
    requires d + q <= all && |got| <= |q| && d + got == all[..|d| + |got|]
    ensures got == q[..|got|]
  {
    forall i | 0 <= i < |got|
      ensures got[i] == q[i]
    {
      assert got[i] == (d + got)[|d| + i] == all[|d| + i] == (d + q)[|d| + i];
    }
  }

  // ---------------------------------------------------------------- neither thread waits for the other

  ghost predicate Leads(s: State, steps: seq<Step>, t: State)
    decreases |steps|
  {
    if steps == [] then s == t else Enabled(s, steps[0]) && Leads(Apply(s, steps[0]), steps[1..], t)
  }

  predicate ByProducer(step: Step) {
    step.PutSample? || step.PutCopy? || step.PutPublish?
  }

  /** The producer, or else the consumer, gets from one state to another on its own. */
  ghost predicate Alone(s: State, steps: seq<Step>, t: State, producer: bool) {
    Leads(s, steps, t) && forall i :: 0 <= i < |steps| ==> (ByProducer(steps[i]) <==> producer)
  }

  lemma OneMore(s: State, step: Step, steps: seq<Step>, t: State, producer: bool)
    requires Enabled(s, step) && (ByProducer(step) <==> producer) && Alone(Apply(s, step), steps, t, producer)
    ensures Alone(s, [step] + steps, t, producer)
  {
    assert ([step] + steps)[1..] == steps;
  }

  /** A put that has begun ends by its own steps, wherever the consumer has stopped; k bytes are looked after. */
  lemma {:induction false} PutEnds(s: State, k: nat) returns (steps: seq<Step>, t: State)
    requires Inv(s) && s.producer.Putting? && k <= |s.producer.data|
    requires forall i :: 0 <= i < k ==> i in s.producer.copied
    ensures Inv(t) && Alone(s, steps, t, true) && t.producer.PutIdle?
    ensures t.accepted == s.accepted + s.producer.data && t.delivered == s.delivered && t.consumer == s.consumer
    decreases |s.producer.data| - k
  {
    if k == |s.producer.data| {
      StepKeeps(s, PutPublish);
      t := Apply(s, PutPublish);
      OneMore(s, PutPublish, [], t, true);
      steps := [PutPublish] + [];
    } else if k in s.producer.copied {
      steps, t := PutEnds(s, k + 1);
    } else {
      StepKeeps(s, PutCopy(k));
      steps, t := PutEnds(Apply(s, PutCopy(k)), k + 1);
      OneMore(s, PutCopy(k), steps, t, true);
      steps := [PutCopy(k)] + steps;
    }
  }

  /** So does a get, wherever the producer has. */
  lemma {:induction false} GetEnds(s: State, k: nat) returns (steps: seq<Step>, t: State)
    requires Inv(s) && s.consumer.Getting? && k <= s.consumer.len
    requires forall j :: 0 <= j < k ==> j in s.consumer.got
    ensures Inv(t) && Alone(s, steps, t, false) && t.consumer.GetIdle?
    ensures t.accepted == s.accepted && t.producer == s.producer
    ensures |t.delivered| == |s.delivered| + s.consumer.len
    decreases s.consumer.len - k
  {
    if k == s.consumer.len {
      StepKeeps(s, GetPublish);
      t := Apply(s, GetPublish);
      OneMore(s, GetPublish, [], t, false);
      steps := [GetPublish] + [];
    } else if k in s.consumer.got {
      steps, t := GetEnds(s, k + 1);
    } else {
      StepKeeps(s, GetCopy(k));
      steps, t := GetEnds(Apply(s, GetCopy(k)), k + 1);
      OneMore(s, GetCopy(k), steps, t, false);
      steps := [GetCopy(k)] + steps;
    }
  }

  /**
   In every state of every interleaving an idle producer can put, and alone, without the consumer
   moving, brings the put to its end: the leading bytes that fit are appended.
   */
  lemma PutNeverWaits(states: seq<State>, steps: seq<Step>, n: nat, request: seq<byte>)
    returns (more: seq<Step>, t: State)
    requires IsRun(states, steps) && n < |states| && states[n].producer.PutIdle? && |request| < WRAP
    ensures Used(states[n].nIn, states[n].nOut) <= |states[n].buf|
    ensures Alone(states[n], more, t, true) && t.producer.PutIdle?
    ensures t.consumer == states[n].consumer && t.delivered == states[n].delivered
    ensures t.accepted ==
            states[n].accepted + request[..Min(|request|, |states[n].buf| - |Queue(states[n])|)]
  {
    var s := states[n];
    RunInv(states, steps, n);
    QueueFits(states, steps, n);
    FreeIsRest(|s.buf|, s.nIn, s.nOut);
    StepKeeps(s, PutSample(request));
    var u := Apply(s, PutSample(request));
    more, t := PutEnds(u, 0);
    OneMore(s, PutSample(request), more, t, true);
    more := [PutSample(request)] + more;
  }

  /** And an idle consumer can get the oldest bytes, as many as it wants and are there. */
  lemma GetNeverWaits(states: seq<State>, steps: seq<Step>, n: nat, wanted: word)
    returns (more: seq<Step>, t: State)
    requires IsRun(states, steps) && n < |states| && states[n].consumer.GetIdle?
    ensures Used(states[n].nIn, states[n].nOut) <= |states[n].buf|
    ensures Alone(states[n], more, t, false) && t.consumer.GetIdle? && t.producer == states[n].producer
    ensures t.delivered == states[n].delivered + Queue(states[n])[..Min(wanted, |Queue(states[n])|)]
  {
    var s := states[n];
    RunInv(states, steps, n);
    QueueFits(states, steps, n);
    StepKeeps(s, GetSample(wanted));
    var u := Apply(s, GetSample(wanted));
    more, t := GetEnds(u, 0);
    OneMore(s, GetSample(wanted), more, t, false);
    more := [GetSample(wanted)] + more;
    DeliveredFront(s, t, u.consumer.len);
  }

  lemma DeliveredFront(s: State, t: State, len: nat)
    requires Inv(t) && t.accepted == s.accepted && |t.delivered| == |s.delivered| + len
    requires Used(s.nIn, s.nOut) <= |s.buf| && s.delivered + Queue(s) == s.accepted && len <= |Queue(s)|
    ensures t.delivered == s.delivered + Queue(s)[..len]
  {
    assert t.delivered == s.accepted[..|s.delivered| + len];
  }

  // ---------------------------------------------------------------- what there are interleavings of

  /** Bytes may be copied in any order, with the same result. */
  lemma CopiesCommute(s: State, i: nat, j: nat)
    requires Inv(s) && s.producer.Putting? && i < |s.producer.data| && j < |s.producer.data| && i != j
    requires i !in s.producer.copied && j !in s.producer.copied
    ensures Enabled(s, PutCopy(i)) && Enabled(Apply(s, PutCopy(i)), PutCopy(j))
    ensures Enabled(s, PutCopy(j)) && Enabled(Apply(s, PutCopy(j)), PutCopy(i))
    ensures Apply(Apply(s, PutCopy(i)), PutCopy(j)) == Apply(Apply(s, PutCopy(j)), PutCopy(i))
  {
    var size := |s.buf|;
    SlotWraps(|s.accepted|, i, size);
    SlotWraps(|s.accepted|, j, size);
    if i < j {
      ModDistinct(|s.accepted|, i, j, size);
    } else {
      ModDistinct(|s.accepted|, j, i, size);
    }
    var x, y := Slot(s.nIn, i, size), Slot(s.nIn, j, size);
    assert s.buf[x := s.producer.data[i]][y := s.producer.data[j]] ==
           s.buf[y := s.producer.data[j]][x := s.producer.data[i]];
    assert s.producer.copied + {i} + {j} == s.producer.copied + {j} + {i};
  }

  /** And so may they be copied out. */
  lemma CopiesOutCommute(s: State, i: nat, j: nat)
    requires Inv(s) && s.consumer.Getting? && i < s.consumer.len && j < s.consumer.len && i != j
    requires i !in s.consumer.got && j !in s.consumer.got
    ensures Enabled(s, GetCopy(i)) && Enabled(Apply(s, GetCopy(i)), GetCopy(j))
    ensures Enabled(s, GetCopy(j)) && Enabled(Apply(s, GetCopy(j)), GetCopy(i))
    ensures Apply(Apply(s, GetCopy(i)), GetCopy(j)) == Apply(Apply(s, GetCopy(j)), GetCopy(i))
  {
    var a, b := s.buf[Slot(s.nOut, i, |s.buf|)], s.buf[Slot(s.nOut, j, |s.buf|)];
    assert s.consumer.got[i := a][j := b] == s.consumer.got[j := b][i := a];
  }

  /** No step of one thread ever stands in the way of a step of the other. */
  lemma StepsDoNotDisable(s: State, a: Step, b: Step)
    requires Enabled(s, a) && Enabled(s, b) && (ByProducer(a) <==> !ByProducer(b))
    ensures Enabled(Apply(s, a), b) && Enabled(Apply(s, b), a)
  {
  }

  lemma {:induction false} Extend(states: seq<State>, steps: seq<Step>, more: seq<Step>, t: State)
    returns (states': seq<State>)
    requires IsRun(states, steps) && Leads(states[|steps|], more, t)
    ensures IsRun(states', steps + more) && states <= states' && states'[|steps + more|] == t
    decreases |more|
  {
    if more == [] {
      states' := states;
      assert steps + more == steps;
    } else {
      var u := Apply(states[|steps|], more[0]);
      var states1, steps1 := states + [u], steps + [more[0]];
      assert forall n :: 0 <= n < |steps1| ==>
          states1[n] == states[n] && (n < |steps| ==> steps1[n] == steps[n] && states1[n + 1] == states[n + 1]);
      states' := Extend(states1, steps1, more[1..], t);
      assert steps1 + more[1..] == steps + more;
    }
  }

  /** Through a buffer of any capacity, whatever it held in memory, what is put first comes out as it went in. */
  lemma PassesThrough(buf: seq<byte>, request: seq<byte>) returns (states: seq<State>, steps: seq<Step>)
    requires IsCapacity(|buf|) && |request| < WRAP
    ensures IsRun(states, steps) && states[0].buf == buf
    ensures states[|steps|].delivered == request[..Min(|request|, |buf|)]
  {
    states, steps := [State(buf, 0, 0, PutIdle, GetIdle, [], [])], [];
    var more, t := PutNeverWaits(states, steps, 0, request);
    states := Extend(states, steps, more, t);
    steps := steps + more;
    QueueFits(states, steps, |steps|);
    assert t.delivered == [] && Queue(t) == t.accepted == request[..Min(|request|, |buf|)];
    var rest, u := GetNeverWaits(states, steps, |steps|, |request|);
    states := Extend(states, steps, rest, u);
    steps := steps + rest;
  }
}
