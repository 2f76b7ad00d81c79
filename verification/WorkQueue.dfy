/** The bounded blocking queue of work_queue.c: the ring under the mutex, and the monitor
    with its two condition variables for any number of threads. */
module WorkQueue {
  import opened RingCells
  import opened Sequences
  import opened Wrappers

  const QUEUE_SIZE: nat := 12

  // ---- the monitor ---------------------------------------------------------------

  /** Blocked producers, by the item they bring, and blocked consumers, each either still
      waiting on its condition variable or woken and about to take the lock again.
      enqueued and removed record everything put in and taken out, in order. */
  datatype Monitor<T> = Monitor(queue: seq<T>,
                                waitingProducers: multiset<T>, wokenProducers: multiset<T>,
                                waitingConsumers: nat, wokenConsumers: nat,
                                enqueued: seq<T>, removed: seq<T>)

  /** One atomic step. wake is the producer that pthread_cond_signal picks. */
  datatype Event<T> =
    | Enqueue(item: T)
    | ResumeProducer(item: T)
    | SpuriousProducer(item: T)
    | Dequeue(wake: Option<T>)
    | ResumeConsumer(wake: Option<T>)
    | SpuriousConsumer
    | Timeout
    | Clear(wake: Option<T>)

  function Start<T>(): Monitor<T> {
    Monitor([], multiset{}, multiset{}, 0, 0, [], [])
  }

  /** A signal picks some waiter whenever there is one. */
  predicate CanWake<T(==)>(m: Monitor<T>, wake: Option<T>) {
    match wake
    case None => m.waitingProducers == multiset{}
    case Some(x) => x in m.waitingProducers
  }

  predicate Enabled<T(==)>(m: Monitor<T>, e: Event<T>) {
    match e
    case Enqueue(_) => true
    case ResumeProducer(x) => x in m.wokenProducers
    case SpuriousProducer(x) => x in m.waitingProducers
    case Dequeue(wake) => CanWake(m, wake)
    case ResumeConsumer(wake) => m.wokenConsumers > 0 && CanWake(m, wake)
    case SpuriousConsumer => m.waitingConsumers > 0
    case Timeout => m.waitingConsumers > 0
    case Clear(wake) => CanWake(m, wake)
  }

  /** Nothing but the lock holds a thread up: callers can always enter, who was woken can go on,
      and who waits can wake up by itself or, as a consumer, time out. */
  lemma AlwaysEnabled<T>(m: Monitor<T>, x: T) returns (wake: Option<T>)
    ensures Enabled(m, Event.Enqueue(x)) && Enabled(m, Event.Dequeue(wake)) && Enabled(m, Event.Clear(wake))
    ensures m.wokenConsumers > 0 <==> Enabled(m, ResumeConsumer(wake))
    ensures m.waitingConsumers > 0 <==> Enabled(m, SpuriousConsumer)
    ensures m.waitingConsumers > 0 <==> Enabled(m, Timeout)
    ensures x in m.wokenProducers <==> Enabled(m, ResumeProducer(x))
    ensures x in m.waitingProducers <==> Enabled(m, SpuriousProducer(x))
  {
    wake := None;
    if m.waitingProducers != multiset{} {
      var y :| y in m.waitingProducers;
      wake := Some(y);
    }
  }

  function SignalNotEmpty<T>(m: Monitor<T>): Monitor<T> {
    if m.waitingConsumers == 0 then m
    else m.(waitingConsumers := m.waitingConsumers - 1, wokenConsumers := m.wokenConsumers + 1)
  }

  function SignalNotFull<T(==)>(m: Monitor<T>, wake: Option<T>): Monitor<T> {
    match wake
    case None => m
    case Some(x) => m.(waitingProducers := m.waitingProducers - multiset{x},
                       wokenProducers := m.wokenProducers + multiset{x})
  }

  /** The loop of queue_enqueue with the lock held: wait, or put and signal. */
  function Produce<T(==)>(m: Monitor<T>, x: T): Monitor<T> {
    if |m.queue| == QUEUE_SIZE then m.(waitingProducers := m.waitingProducers + multiset{x})
    else SignalNotEmpty(m.(queue := m.queue + [x], enqueued := m.enqueued + [x]))
  }

  /** The loop of queue_dequeue with the lock held: wait, or take and signal. */
  function Consume<T(==)>(m: Monitor<T>, wake: Option<T>): Monitor<T> {
    if |m.queue| == 0 then m.(waitingConsumers := m.waitingConsumers + 1)
    else SignalNotFull(m.(queue := m.queue[1..], removed := m.removed + [m.queue[0]]), wake)
  }

  function Step<T(==)>(m: Monitor<T>, e: Event<T>): Monitor<T>
    requires Enabled(m, e)
  {
    match e
    case Enqueue(x) => Produce(m, x)
    case ResumeProducer(x) => Produce(m.(wokenProducers := m.wokenProducers - multiset{x}), x)
    case SpuriousProducer(x) => SignalNotFull(m, Some(x))
    case Dequeue(wake) => Consume(m, wake)
    case ResumeConsumer(wake) => Consume(m.(wokenConsumers := m.wokenConsumers - 1), wake)
    case SpuriousConsumer => SignalNotEmpty(m)
    case Timeout => m.(waitingConsumers := m.waitingConsumers - 1)
    case Clear(wake) => SignalNotFull(m.(queue := [], removed := m.removed + m.queue), wake)
  }

  predicate IsRun<T(==)>(events: seq<Event<T>>)
    decreases |events|, 0
  {
    |events| == 0 ||
    (IsRun(events[..|events| - 1]) && Enabled(After(events[..|events| - 1]), events[|events| - 1]))
  }

  function After<T(==)>(events: seq<Event<T>>): Monitor<T>
    requires IsRun(events)
    decreases |events|, 1
  {
    if |events| == 0 then Start() else Step(After(events[..|events| - 1]), events[|events| - 1])
  }

  // ---- first in, first out ----------------------------------------------------------

  predicate Fifo<T(==)>(m: Monitor<T>) {
    m.enqueued == m.removed + m.queue && |m.queue| <= QUEUE_SIZE
  }

  lemma ProduceFifo<T>(m: Monitor<T>, x: T)
    requires Fifo(m)
    ensures Fifo(Produce(m, x))
  {
  }

  lemma ConsumeFifo<T>(m: Monitor<T>, wake: Option<T>)
    requires Fifo(m)
    ensures Fifo(Consume(m, wake))
  {
    if |m.queue| > 0 {
      assert m.queue == [m.queue[0]] + m.queue[1..];
    }
  }

  lemma StepFifo<T>(m: Monitor<T>, e: Event<T>)
    requires Fifo(m) && Enabled(m, e)
    ensures Fifo(Step(m, e))
  {
    hide Produce, Consume, CanWake;
    match e
    case Enqueue(x) => ProduceFifo(m, x);
    case ResumeProducer(x) => ProduceFifo(m.(wokenProducers := m.wokenProducers - multiset{x}), x);
    case Dequeue(wake) => ConsumeFifo(m, wake);
    case ResumeConsumer(wake) => ConsumeFifo(m.(wokenConsumers := m.wokenConsumers - 1), wake);
    case _ =>
  }

  /** Who comes with the lock puts the item in exactly while fewer than twelve are there. */
  lemma EnqueueExact<T>(m: Monitor<T>, x: T)
    ensures var t := Step(m, Enqueue(x));
            if |m.queue| == 12 then t == m.(waitingProducers := m.waitingProducers + multiset{x})
            else t.queue == m.queue + [x] && t.waitingProducers == m.waitingProducers
  {
  }

  /** What a producer comes with. */
  function Brings<T(==)>(e: Event<T>): multiset<T> {
    match e case Enqueue(x) => multiset{x} case _ => multiset{}
  }

  /** The items producers come with over a run. */
  function Brought<T(==)>(events: seq<Event<T>>): multiset<T> {
    if |events| == 0 then multiset{} else Brought(events[..|events| - 1]) + Brings(events[|events| - 1])
  }

  /** The items that are in, or have been, or are still with their producers. */
  function Around<T(==)>(m: Monitor<T>): multiset<T> {
    multiset(m.enqueued) + m.waitingProducers + m.wokenProducers
  }

  /** No item is lost or made up: each one brought is in, or with a producer who waits or is
      about to try again. */
  lemma {:induction false} ItemsConserved<T>(events: seq<Event<T>>)
    requires IsRun(events)
    ensures Around(After(events)) == Brought(events)
  {
    if |events| > 0 {
      ItemsConserved(events[..|events| - 1]);
      StepConserves(After(events[..|events| - 1]), events[|events| - 1]);
      hide Step, Around;
    }
  }

  lemma ProduceConserves<T>(m: Monitor<T>, x: T)
    ensures Around(Produce(m, x)) == Around(m) + multiset{x}
  {
  }

  lemma WakeConserves<T>(m: Monitor<T>, wake: Option<T>)
    requires wake.Some? ==> wake.value in m.waitingProducers
    ensures Around(SignalNotFull(m, wake)) == Around(m)
  {
  }

  lemma ConsumeConserves<T>(m: Monitor<T>, wake: Option<T>)
    requires CanWake(m, wake)
    ensures Around(Consume(m, wake)) == Around(m)
  {
    if |m.queue| > 0 {
      WakeConserves(m.(queue := m.queue[1..], removed := m.removed + [m.queue[0]]), wake);
      hide SignalNotFull;
    }
  }

  lemma StepConserves<T>(m: Monitor<T>, e: Event<T>)
    requires Enabled(m, e)
    ensures Around(Step(m, e)) == Around(m) + Brings(e)
  {
    hide Produce, Consume, SignalNotFull;
    match e
    case Enqueue(x) => ProduceConserves(m, x);
    case ResumeProducer(x) => ProduceConserves(m.(wokenProducers := m.wokenProducers - multiset{x}), x);
    case SpuriousProducer(x) => WakeConserves(m, Some(x));
    case Dequeue(wake) => ConsumeConserves(m, wake);
    case ResumeConsumer(wake) => ConsumeConserves(m.(wokenConsumers := m.wokenConsumers - 1), wake);
    case Clear(wake) => WakeConserves(m.(queue := [], removed := m.removed + m.queue), wake);
    case _ =>
  }

  /** The consumers that have come, less those that gave up. */
  function Came<T(==)>(events: seq<Event<T>>): int {
    if |events| == 0 then 0
    else Came(events[..|events| - 1]) +
         match events[|events| - 1] case Dequeue(_) => 1 case Timeout => -1 case _ => 0
  }

  /** The items that clears have freed. */
  function Freed<T(==)>(events: seq<Event<T>>): nat
    requires IsRun(events)
  {
    if |events| == 0 then 0
    else Freed(events[..|events| - 1]) +
         match events[|events| - 1] case Clear(_) => |After(events[..|events| - 1]).queue| case _ => 0
  }

  /** Each consumer has taken one item, or waits, or is about to try again. */
  lemma {:induction false} ConsumersConserved<T>(events: seq<Event<T>>)
    requires IsRun(events)
    ensures var m := After(events);
            Came(events) == |m.removed| - Freed(events) + m.waitingConsumers + m.wokenConsumers
  {
    if |events| > 0 {
      ConsumersConserved(events[..|events| - 1]);
      StepConsumers(After(events[..|events| - 1]), events[|events| - 1]);
    }
  }

  /** Who has taken an item, waits, or is about to try again. */
  function Served<T>(m: Monitor<T>): nat {
    |m.removed| + m.waitingConsumers + m.wokenConsumers
  }

  lemma StepConsumers<T>(m: Monitor<T>, e: Event<T>)
    requires Enabled(m, e)
    ensures Served(Step(m, e)) ==
            Served(m) + match e case Dequeue(_) => 1 case Timeout => -1 case Clear(_) => |m.queue| case _ => 0
  {
  }

  /** In every run with any number of threads, what was dequeued or freed is, in order, a
      prefix of what was enqueued, and the rest is in the queue, within its capacity. */
  lemma {:induction false} FirstInFirstOut<T>(events: seq<Event<T>>)
    requires IsRun(events)
    ensures Fifo(After(events)) && |After(events).queue| <= 12
  {
    if |events| > 0 {
      FirstInFirstOut(events[..|events| - 1]);
      StepFifo(After(events[..|events| - 1]), events[|events| - 1]);
    }
  }

  // ---- no lost wake-ups -----------------------------------------------------------------

  /** While a consumer waits, every queued item has a consumer already on its way; while a
      producer waits, some producer is on its way or the queue is not empty. */
  predicate WakeupsKept<T(==)>(m: Monitor<T>) {
    |m.queue| <= QUEUE_SIZE &&
    (m.waitingConsumers > 0 ==> m.wokenConsumers >= |m.queue|) &&
    (m.waitingProducers != multiset{} ==> m.wokenProducers != multiset{} || |m.queue| > 0)
  }

  lemma StepWakeups<T>(m: Monitor<T>, e: Event<T>)
    requires WakeupsKept(m) && Enabled(m, e)
    ensures WakeupsKept(Step(m, e))
  {
    match e
    case Dequeue(Some(x)) => assert x in Step(m, e).wokenProducers || |m.queue| == 0;
    case ResumeConsumer(Some(x)) => assert x in Step(m, e).wokenProducers || |m.queue| == 0;
    case Clear(Some(x)) => assert x in Step(m, e).wokenProducers;
    case SpuriousProducer(x) => assert x in Step(m, e).wokenProducers;
    case _ =>
  }

  lemma {:induction false} RunWakeups<T>(events: seq<Event<T>>)
    requires IsRun(events)
    ensures WakeupsKept(After(events))
  {
    if |events| > 0 {
      RunWakeups(events[..|events| - 1]);
      StepWakeups(After(events[..|events| - 1]), events[|events| - 1]);
    }
  }

  /** No deadlock with any number of producers, consumers, timeouts and clears: when both
      a producer and a consumer wait, some thread has been woken and will run. */
  lemma NeverAllAsleep<T>(events: seq<Event<T>>)
    requires IsRun(events)
    ensures var m := After(events);
            m.waitingProducers != multiset{} && m.waitingConsumers > 0 ==>
              m.wokenProducers != multiset{} || m.wokenConsumers > 0
  {
    hide After, IsRun;
    RunWakeups(events);
  }

  /** So a single producer and a single consumer never both wait. */
  lemma OneProducerOneConsumer<T>(events: seq<Event<T>>)
    requires IsRun(events)
    requires var m := After(events);
             |m.waitingProducers| + |m.wokenProducers| <= 1 && m.waitingConsumers + m.wokenConsumers <= 1
    ensures var m := After(events);
            m.waitingProducers == multiset{} || m.waitingConsumers == 0
  {
    hide After, IsRun;
    NeverAllAsleep(events);
  }

  // ---- producers and queue_clear ------------------------------------------------------

  /** The producers' counterpart: while one waits, every free place has one on its way. */
  predicate NoProducerLeft<T(==)>(m: Monitor<T>) {
    |m.queue| <= QUEUE_SIZE &&
    (m.waitingProducers != multiset{} ==> |m.wokenProducers| >= QUEUE_SIZE - |m.queue|)
  }

  /** The one kind of step that breaks it: a clear empties the whole queue but wakes one
      producer, while more wait than that and too few are on their way to fill the room. */
  predicate Overclears<T(==)>(m: Monitor<T>, e: Event<T>) {
    e.Clear? && |m.waitingProducers| > 1 && |m.wokenProducers| + 1 < QUEUE_SIZE
  }

  lemma StepProducers<T>(m: Monitor<T>, e: Event<T>)
    requires NoProducerLeft(m) && Enabled(m, e)
    ensures NoProducerLeft(Step(m, e)) <==> !Overclears(m, e)
  {
    match e
    case Clear(wake) => SignalCounts(m.(queue := [], removed := m.removed + m.queue), wake);
    case Dequeue(wake) => ConsumeProducers(m, wake);
    case ResumeConsumer(wake) => ConsumeProducers(m.(wokenConsumers := m.wokenConsumers - 1), wake);
    case SpuriousProducer(x) => SignalCounts(m, Some(x));
    case _ =>
  }

  /** A signal on not_full moves one producer, if any waits. */
  lemma SignalCounts<T>(m: Monitor<T>, wake: Option<T>)
    requires CanWake(m, wake)
    ensures var t := SignalNotFull(m, wake);
            var moved := if wake.Some? then 1 else 0;
            |t.waitingProducers| == |m.waitingProducers| - moved && |t.wokenProducers| == |m.wokenProducers| + moved
  {
  }

  lemma ConsumeProducers<T>(m: Monitor<T>, wake: Option<T>)
    requires NoProducerLeft(m) && CanWake(m, wake)
    ensures NoProducerLeft(Consume(m, wake))
  {
    if |m.queue| > 0 {
      SignalCounts(m.(queue := m.queue[1..], removed := m.removed + [m.queue[0]]), wake);
    }
    hide SignalNotFull;
  }

  /** Without such a clear, a waiting producer never misses a free place. */
  predicate NeverOverclears<T(==)>(events: seq<Event<T>>)
    requires IsRun(events)
  {
    forall k :: 0 <= k < |events| && IsRun(events[..k]) ==> !Overclears(After(events[..k]), events[k])
  }

  lemma {:induction false} RunProducers<T>(events: seq<Event<T>>)
    requires IsRun(events) && NeverOverclears(events)
    ensures NoProducerLeft(After(events))
  {
    if |events| > 0 {
      var es := events[..|events| - 1];
      forall k | 0 <= k < |es| && IsRun(es[..k]) ensures !Overclears(After(es[..k]), es[k]) {
        assert es[..k] == events[..k];
      }
      RunProducers(es);
      StepProducers(After(es), events[|events| - 1]);
    }
  }

  // ---- a clear that leaves a producer waiting beside an empty queue --------------------

  function Enqueues(n: nat): seq<Event<int>> {
    Repeat(Event.Enqueue(0), n)
  }

  /** The queue after n enqueues of zeros: those that do not fit wait. */
  ghost function Filled(n: nat): Monitor<int> {
    var k := if n < QUEUE_SIZE then n else QUEUE_SIZE;
    Monitor(Repeat(0, k), multiset{}[0 := n - k], multiset{}, 0, 0, Repeat(0, k), [])
  }

  lemma FilledNext(n: nat)
    ensures Filled(0) == Start() && Produce(Filled(n), 0) == Filled(n + 1)
  {
    assert multiset{}[0 := 0] == multiset{};
    if n < QUEUE_SIZE {
      assert Repeat(0, n) + [0] == Repeat(0, n + 1);
    } else {
      assert multiset{}[0 := n - QUEUE_SIZE] + multiset{0} == multiset{}[0 := n + 1 - QUEUE_SIZE];
    }
  }

  lemma {:induction false} FillQueue(n: nat)
    ensures IsRun(Enqueues(n)) && After(Enqueues(n)) == Filled(n)
  {
    hide Filled, Produce;
    FilledNext(0);
    if n > 0 {
      FillQueue(n - 1);
      FilledNext(n - 1);
      assert Enqueues(n)[..n - 1] == Enqueues(n - 1);
    }
  }

  /** Two blocked producers and one clear: the queue is empty, one producer has been
      woken, and the other still waits with twelve places free. */
  lemma ClearLeavesProducerWaiting() returns (events: seq<Event<int>>)
    ensures IsRun(events)
    ensures var m := After(events);
            m.queue == [] && |m.waitingProducers| == 1 && |m.wokenProducers| == 1 && !NoProducerLeft(m)
  {
    var fill := Enqueues(QUEUE_SIZE + 2);
    FillQueue(QUEUE_SIZE + 2);
    events := fill + [Clear(Some(0))];
    assert events[..|events| - 1] == fill;
    assert multiset{}[0 := 2] - multiset{0} == multiset{0};
    assert multiset{} + multiset{0} == multiset{0};
  }

  // ---- the code -------------------------------------------------------------------------

  /** The fields of work_queue, with the threads waiting on its two condition variables as
      a ghost. Each method is what one thread does from taking the lock, or waking up with
      it, until it waits or releases it; a signal moves a waiting thread to the woken ones. */
  class Ring<T(0, ==)> {
    const buffer: array<T>
    var head: nat
    var tail: nat
    var count: nat
    ghost var monitor: Monitor<T>

    ghost predicate RingOk()
      reads this
    {
      buffer.Length == QUEUE_SIZE && head < QUEUE_SIZE && count <= QUEUE_SIZE &&
      tail == Cell(head, count, QUEUE_SIZE)
    }

    /** The queued items, oldest first. */
    ghost function Contents(): (s: seq<T>)
      requires RingOk()
      reads this, buffer
      ensures |s| == count
    {
      Items(buffer[..], head, count)
    }

    ghost predicate Valid()
      reads this, buffer
    {
      RingOk() && monitor.queue == Contents()
    }

    /** queue_init. */
    constructor ()
      ensures Valid() && monitor == Start() && fresh(buffer)
    {
      buffer := new T[QUEUE_SIZE];
      head, tail, count, monitor := 0, 0, 0, Start();
    }

    /** Store at tail. */
    method PutTail(newWork: T)
      requires RingOk() && count < QUEUE_SIZE
      modifies this`tail, this`count, buffer
      ensures RingOk() && Contents() == old(Contents()) + [newWork]
    {
      CellIsMod(tail, 1, QUEUE_SIZE);
      CellShift(head, count, QUEUE_SIZE);
      ItemsPut(buffer[..], head, count, newWork);
      ghost var before := buffer[..];
      buffer[tail] := newWork;
      assert buffer[..] == before[tail := newWork];
      hide Items, Cell;
      tail := (tail + 1) % QUEUE_SIZE;
      count := count + 1;
    }

    /** Take the item at head, as queue_dequeue and queue_clear do. */
    method TakeHead() returns (next: T)
      requires RingOk() && count > 0
      modifies this`head, this`count
      ensures RingOk() && count == old(count) - 1
      ensures old(Contents()) == [next] + Contents()
    {
      CellIsMod(head, 1, QUEUE_SIZE);
      CellShift(head, count, QUEUE_SIZE);
      ItemsTake(buffer[..], head, count);
      next := buffer[head];
      head := (head + 1) % QUEUE_SIZE;
      count := count - 1;
    }

    /** One turn of queue_enqueue's loop by a thread that just arrived, or resumes after it
        was woken: it goes back to waiting on not_full, or puts its item and signals
        not_empty. */
    method Enqueue(newWork: T, ghost resumed: bool) returns (waits: bool)
      requires Valid() && Enabled(monitor, Arrival(newWork, resumed))
      modifies this`tail, this`count, this`monitor, buffer
      ensures Valid() && monitor == Step(old(monitor), Arrival(newWork, resumed))
      ensures waits == (|old(monitor).queue| == QUEUE_SIZE)
    {
      hide Items, Cell;
      ghost var before :=
        if resumed then monitor.(wokenProducers := monitor.wokenProducers - multiset{newWork}) else monitor;
      waits := count == QUEUE_SIZE;
      if !waits {
        PutTail(newWork);
      }
      monitor := Produce(before, newWork);  // waits, or signals not_empty
    }

    /** One turn of the loop of queue_dequeue or queue_dequeue_timeout; None means that the
        thread goes to wait on not_empty. wake is the producer the signal picks. */
    method Dequeue(ghost resumed: bool, ghost wake: Option<T>) returns (next: Option<T>)
      requires Valid() && Enabled(monitor, Departure(resumed, wake))
      modifies this`head, this`count, this`monitor
      ensures Valid() && monitor == Step(old(monitor), Departure(resumed, wake))
      ensures next == if old(monitor).queue == [] then None else Some(old(monitor).queue[0])
    {
      hide Items, Cell;
      ghost var before := if resumed then monitor.(wokenConsumers := monitor.wokenConsumers - 1) else monitor;
      ConsumedQueue(before, wake);
      next := None;
      if count > 0 {
        var item := TakeHead();
        HeadAndRest(before.queue, item, Contents());
        next := Some(item);
      }
      hide Consume;
      monitor := Consume(before, wake);  // waits, or signals not_full
    }

    /** The loop of queue_clear; freed is what it hands to free_fn, in order. */
    method FreeAll() returns (freed: seq<T>)
      requires RingOk()
      modifies this`head, this`count
      ensures RingOk() && count == 0 && freed == old(Contents())
    {
      hide Items, Cell;
      freed := [];
      ghost var all := Contents();
      while count > 0
        invariant RingOk() && freed + Contents() == all
      {
        ghost var before := freed;
        var item := TakeHead();
        freed := freed + [item];
        MoveOver(before, item, Contents());
      }
    }

    /** queue_clear. */
    method Clear(ghost wake: Option<T>) returns (freed: seq<T>)
      requires Valid() && Enabled(monitor, Event.Clear(wake))
      modifies this`head, this`count, this`monitor
      ensures Valid() && monitor == Step(old(monitor), Event.Clear(wake)) && freed == old(monitor).queue
    {
      hide Items, Cell;
      freed := FreeAll();
      monitor := monitor.(queue := [], removed := monitor.removed + freed);
      monitor := SignalNotFull(monitor, wake);
      assert Contents() == [];
    }
  }

  lemma ConsumedQueue<T>(m: Monitor<T>, wake: Option<T>)
    ensures Consume(m, wake).queue == if |m.queue| == 0 then [] else m.queue[1..]
  {
  }

  lemma HeadAndRest<T>(queue: seq<T>, item: T, rest: seq<T>)
    requires queue == [item] + rest
    ensures queue[0] == item && queue[1..] == rest
  {
  }

  lemma MoveOver<T>(before: seq<T>, item: T, rest: seq<T>)
    ensures before + ([item] + rest) == (before + [item]) + rest
  {
  }

  /** The step of a producer that arrives or resumes. */
  function Arrival<T>(item: T, resumed: bool): Event<T> {
    if resumed then ResumeProducer(item) else Event.Enqueue(item)
  }

  /** The step of a consumer that arrives or resumes. */
  function Departure<T>(resumed: bool, wake: Option<T>): Event<T> {
    if resumed then ResumeConsumer(wake) else Event.Dequeue(wake)
  }
}
