/** The work queue, slot table and share filter of simulation/virtual_board.c. */
module VirtualBoard {
  import opened Arith
  import opened RingCells
  import opened Wrappers

  const SIM_QUEUE_CAPACITY: nat := 64
  const SIM_MAX_ACTIVE_JOBS: nat := 128
  const SIM_DUP_CACHE_SIZE: nat := 64
  const EPOCHS: nat := 0x1_0000_0000  // current_job_epoch is a uint32_t

  datatype Work = Work(epoch: nat, slot: nat, jobId: string, extranonce2: nat, ntime: nat, isStale: bool)

  datatype AsicResult = AsicResult(validCrc: bool, slot: nat, nonce: nat, rolledVersion: nat)

  /** What the duplicate filter compares. */
  datatype Share = Share(jobId: string, extranonce2: nat, ntime: nat, nonce: nat, version: nat)

  /** An accepted share with the epoch of its work and the board's epoch at that moment. */
  datatype Accept = Accept(share: Share, workEpoch: nat, boardEpoch: nat)

  function ShareOf(w: Work, r: AsicResult): Share {
    Share(w.jobId, w.extranonce2, w.ntime, r.nonce, r.rolledVersion)
  }

  // ---- the board as a state machine ------------------------------------------------

  /** accepted lists every share accepted; the filter remembers the last 64 of them. */
  datatype Board = Board(queue: seq<Work>, active: seq<Option<Work>>, valid: seq<bool>, epoch: nat,
                         accepted: seq<Accept>, errors: nat, stale: nat, duplicates: nat)

  datatype Event = Notify(clean: bool) | Enqueue(work: Work) | Dequeue | Result(r: AsicResult)

  predicate WellFormed(b: Board) {
    |b.active| == |b.valid| == SIM_MAX_ACTIVE_JOBS && |b.queue| <= SIM_QUEUE_CAPACITY &&
    forall i :: 0 <= i < SIM_MAX_ACTIVE_JOBS && b.valid[i] ==> b.active[i].Some?
  }

  function PowerOn(): Board {
    Board([], seq(SIM_MAX_ACTIVE_JOBS, _ => None), seq(SIM_MAX_ACTIVE_JOBS, _ => false), 0, [], 0, 0, 0)
  }

  /** The items of one epoch, in order. */
  function KeepEpoch(q: seq<Work>, epoch: nat): (r: seq<Work>)
    ensures |r| <= |q|
  {
    if |q| == 0 then []
    else KeepEpoch(q[..|q| - 1], epoch) + if q[|q| - 1].epoch == epoch then [q[|q| - 1]] else []
  }

  predicate SlotKept(b: Board, i: nat, epoch: nat)
    requires WellFormed(b) && i < SIM_MAX_ACTIVE_JOBS
  {
    b.valid[i] && b.active[i].value.epoch == epoch
  }

  function MarkStale(active: Option<Work>): Option<Work> {
    match active case None => None case Some(w) => Some(w.(isStale := true))
  }

  /** sim_work_clean_stale. */
  function CleanStale(b: Board, epoch: nat): (c: Board)
    requires WellFormed(b)
    ensures WellFormed(c)
  {
    b.(queue := KeepEpoch(b.queue, epoch),
       valid := seq(SIM_MAX_ACTIVE_JOBS, i requires 0 <= i < SIM_MAX_ACTIVE_JOBS => SlotKept(b, i, epoch)),
       active := seq(SIM_MAX_ACTIVE_JOBS, i requires 0 <= i < SIM_MAX_ACTIVE_JOBS =>
                     if b.valid[i] && !SlotKept(b, i, epoch) then MarkStale(b.active[i]) else b.active[i]))
  }

  /** The shares the filter still knows. */
  function Remembered(accepted: seq<Accept>): seq<Accept> {
    if |accepted| <= SIM_DUP_CACHE_SIZE then accepted else accepted[|accepted| - SIM_DUP_CACHE_SIZE..]
  }

  predicate IsDuplicate(accepted: seq<Accept>, s: Share) {
    exists k :: 0 <= k < |Remembered(accepted)| && Remembered(accepted)[k].share == s
  }

  /** sim_process_asic_result. */
  function Process(b: Board, r: AsicResult): (c: Board)
    requires WellFormed(b)
    ensures WellFormed(c)
  {
    if !r.validCrc then b.(errors := b.errors + 1)
    else if r.slot >= SIM_MAX_ACTIVE_JOBS || !b.valid[r.slot] then b.(stale := b.stale + 1)
    else
      var w := b.active[r.slot].value;
      if w.epoch != b.epoch then b.(stale := b.stale + 1)
      else if IsDuplicate(b.accepted, ShareOf(w, r)) then b.(duplicates := b.duplicates + 1)
      else b.(accepted := b.accepted + [Accept(ShareOf(w, r), w.epoch, b.epoch)])
  }

  /** sim_work_enqueue; refused work leaves the board as it was. */
  function Put(b: Board, w: Work): (c: Board)
    requires WellFormed(b)
    ensures WellFormed(c)
  {
    if w.epoch == 0 || |b.queue| >= SIM_QUEUE_CAPACITY then b
    else
      var c := b.(queue := b.queue + [w]);
      if w.slot >= SIM_MAX_ACTIVE_JOBS then c
      else c.(active := c.active[w.slot := Some(w)], valid := c.valid[w.slot := true])
  }

  function Step(b: Board, e: Event): (c: Board)
    requires WellFormed(b)
    ensures WellFormed(c)
  {
    match e
    case Notify(clean) =>
      var c := b.(epoch := (b.epoch + 1) % EPOCHS);
      if clean then CleanStale(c, c.epoch) else c
    case Enqueue(w) => Put(b, w)
    case Dequeue => if |b.queue| == 0 then b else b.(queue := b.queue[1..])
    case Result(r) => Process(b, r)
  }

  function Run(events: seq<Event>): (b: Board)
    ensures WellFormed(b)
  {
    if |events| == 0 then PowerOn() else Step(Run(events[..|events| - 1]), events[|events| - 1])
  }

  // ---- the stale purge ----------------------------------------------------------------

  lemma {:induction false} KeepEpochNone(q: seq<Work>, epoch: nat)
    ensures KeepEpoch(q, epoch) == [] <==> forall i :: 0 <= i < |q| ==> q[i].epoch != epoch
  {
    if |q| > 0 {
      KeepEpochNone(q[..|q| - 1], epoch);
    }
  }

  /** No queued work and no valid slot of this epoch. */
  predicate NoneOf(b: Board, epoch: nat)
    requires WellFormed(b)
  {
    (forall i :: 0 <= i < |b.queue| ==> b.queue[i].epoch != epoch) &&
    (forall i :: 0 <= i < SIM_MAX_ACTIVE_JOBS ==> !SlotKept(b, i, epoch))
  }

  predicate Emptied(b: Board)
    requires WellFormed(b)
  {
    b.queue == [] && forall i :: 0 <= i < SIM_MAX_ACTIVE_JOBS ==> !b.valid[i]
  }

  /** A clean notify empties queue and slot table exactly when no work in them already
      carries the epoch it opens. */
  lemma CleanNotifyExact(b: Board)
    requires WellFormed(b)
    ensures Emptied(Step(b, Notify(true))) <==> NoneOf(b, (b.epoch + 1) % EPOCHS)
  {
    var epoch := (b.epoch + 1) % EPOCHS;
    var c := Step(b, Notify(true));
    KeepEpochNone(b.queue, epoch);
    forall i | 0 <= i < SIM_MAX_ACTIVE_JOBS ensures c.valid[i] <==> SlotKept(b, i, epoch) {
    }
  }

  /** The purge marks exactly the work it takes out of its slot. */
  lemma PurgeMarks(b: Board, epoch: nat, i: nat)
    requires WellFormed(b) && i < 128
    ensures var c := CleanStale(b, epoch);
            if b.valid[i] && b.active[i].value.epoch != epoch
            then !c.valid[i] && c.active[i] == Some(b.active[i].value.(isStale := true))
            else c.valid[i] == b.valid[i] && c.active[i] == b.active[i]
  {
  }

  /** All work is at most as new as the board. */
  predicate NoFutureWork(b: Board) {
    WellFormed(b) && b.epoch < EPOCHS &&
    (forall i :: 0 <= i < |b.queue| ==> b.queue[i].epoch <= b.epoch) &&
    (forall i :: 0 <= i < SIM_MAX_ACTIVE_JOBS && b.valid[i] ==> b.active[i].value.epoch <= b.epoch)
  }

  /** Work is enqueued under the epoch of a notify already received, and the counter has
      not wrapped. */
  predicate Disciplined(b: Board, e: Event) {
    match e
    case Notify(_) => b.epoch + 1 < EPOCHS
    case Enqueue(w) => w.epoch <= b.epoch
    case _ => true
  }

  lemma {:induction false} KeepEpochSubset(q: seq<Work>, epoch: nat)
    ensures forall i :: 0 <= i < |KeepEpoch(q, epoch)| ==> KeepEpoch(q, epoch)[i].epoch == epoch
  {
    if |q| > 0 {
      KeepEpochSubset(q[..|q| - 1], epoch);
    }
  }

  lemma NoFutureWorkKept(b: Board, e: Event)
    requires NoFutureWork(b) && Disciplined(b, e)
    ensures NoFutureWork(Step(b, e))
  {
    hide KeepEpoch, IsDuplicate;
    match e
    case Notify(clean) =>
      if clean {
        KeepEpochSubset(b.queue, b.epoch + 1);
      }
    case _ =>
  }

  predicate DisciplinedRun(events: seq<Event>) {
    |events| == 0 ||
    (DisciplinedRun(events[..|events| - 1]) && Disciplined(Run(events[..|events| - 1]), events[|events| - 1]))
  }

  lemma {:induction false} DisciplinedRunNoFutureWork(events: seq<Event>)
    requires DisciplinedRun(events)
    ensures NoFutureWork(Run(events))
  {
    if |events| > 0 {
      DisciplinedRunNoFutureWork(events[..|events| - 1]);
      NoFutureWorkKept(Run(events[..|events| - 1]), events[|events| - 1]);
    }
  }

  /** Epoch 0 is refused, so nothing carries the epoch to which the counter wraps. */
  predicate NoZeroWork(b: Board) {
    WellFormed(b) &&
    (forall i :: 0 <= i < |b.queue| ==> b.queue[i].epoch != 0) &&
    (forall i :: 0 <= i < SIM_MAX_ACTIVE_JOBS && b.valid[i] ==> b.active[i].value.epoch != 0)
  }

  lemma {:induction false} KeepEpochItems(q: seq<Work>, epoch: nat)
    ensures forall i :: 0 <= i < |KeepEpoch(q, epoch)| ==> KeepEpoch(q, epoch)[i] in q
  {
    if |q| > 0 {
      KeepEpochItems(q[..|q| - 1], epoch);
    }
  }

  lemma NoZeroWorkKept(b: Board, e: Event)
    requires NoZeroWork(b)
    ensures NoZeroWork(Step(b, e))
  {
    hide IsDuplicate;
    var c := Step(b, e);
    match e
    case Notify(clean) => KeepEpochItems(b.queue, c.epoch);
    case _ =>
  }

  lemma {:induction false} RunNoZeroWork(events: seq<Event>)
    ensures NoZeroWork(Run(events))
  {
    hide Step, NoZeroWork;
    if |events| > 0 {
      RunNoZeroWork(events[..|events| - 1]);
      NoZeroWorkKept(Run(events[..|events| - 1]), events[|events| - 1]);
    } else {
      PowerOnNoZeroWork();
    }
  }

  lemma PowerOnNoZeroWork()
    ensures NoZeroWork(PowerOn())
  {
  }

  /** So in every disciplined run a clean notify leaves no queued work and no valid slot,
      also the one at which the counter wraps. */
  lemma CleanNotifyEmpties(events: seq<Event>)
    requires DisciplinedRun(events)
    ensures Emptied(Step(Run(events), Notify(true)))
  {
    hide Step, Run;
    DisciplinedRunNoFutureWork(events);
    RunNoZeroWork(events);
    CleanNotifyExact(Run(events));
  }

  /** Work enqueued under an epoch still to come outlives the clean notify that opens it. */
  lemma FutureWorkStays(w: Work)
    requires w.epoch == 1
    ensures !Emptied(Step(Run([Enqueue(w)]), Notify(true)))
  {
    var events := [Enqueue(w)];
    assert events[..0] == [];
    var b := Run(events);
    assert b == Step(Run(events[..0]), events[0]);
    assert b.queue == [w];
    CleanNotifyExact(b);
  }

  // ---- share accounting ----------------------------------------------------------------

  /** How many results a run processes. */
  function Results(events: seq<Event>): nat {
    if |events| == 0 then 0
    else Results(events[..|events| - 1]) + if events[|events| - 1].Result? then 1 else 0
  }

  /** Every result is counted once, as an error, stale, a duplicate or accepted. */
  lemma {:induction false} ResultsCounted(events: seq<Event>)
    ensures var b := Run(events);
            b.errors + b.stale + b.duplicates + |b.accepted| == Results(events)
  {
    hide IsDuplicate, KeepEpoch;
    if |events| > 0 {
      ResultsCounted(events[..|events| - 1]);
    }
  }

  // What a board should hold, by the list of events alone.

  /** The epoch counts the notifies in 32 bits. */
  function Notifies(events: seq<Event>): nat {
    if |events| == 0 then 0
    else Notifies(events[..|events| - 1]) + if events[|events| - 1].Notify? then 1 else 0
  }

  lemma StepEpoch(b: Board, e: Event)
    requires WellFormed(b)
    ensures Step(b, e).epoch == if e.Notify? then (b.epoch + 1) % 0x1_0000_0000 else b.epoch
  {
    hide KeepEpoch, IsDuplicate;
  }

  lemma NextEpoch(n: nat)
    ensures (n % EPOCHS + 1) % EPOCHS == (n + 1) % EPOCHS
  {
    var r := n % EPOCHS + 1;
    DivModIdentity(n, EPOCHS);
    DivModIdentity(r, EPOCHS);
    DivModUnique(n + 1, EPOCHS, n / EPOCHS + r / EPOCHS, r % EPOCHS);
  }

  lemma {:induction false} EpochExact(events: seq<Event>)
    ensures Run(events).epoch == Notifies(events) % 0x1_0000_0000
  {
    if |events| > 0 {
      EpochExact(events[..|events| - 1]);
      StepEpoch(Run(events[..|events| - 1]), events[|events| - 1]);
      NextEpoch(Notifies(events[..|events| - 1]));
      hide Step;
    }
  }

  /** The work that waits: enqueued under an epoch other than 0 while fewer than 64 others
      waited, not taken since, and of the epoch of every clean since. */
  function Waiting(events: seq<Event>): seq<Work> {
    if |events| == 0 then []
    else
      var q := Waiting(events[..|events| - 1]);
      match events[|events| - 1]
      case Enqueue(w) => if w.epoch != 0 && |q| < 64 then q + [w] else q
      case Dequeue => if |q| > 0 then q[1..] else q
      case Notify(clean) => if clean then KeepEpoch(q, Notifies(events) % 0x1_0000_0000) else q
      case Result(_) => q
  }

  /** The work a slot stands for: the last one enqueued for it, unless a clean since has opened
      another epoch. */
  function Holder(events: seq<Event>, slot: nat): Option<Work> {
    if |events| == 0 then None
    else
      var before := events[..|events| - 1];
      var h := Holder(before, slot);
      match events[|events| - 1]
      case Enqueue(w) => if w.slot == slot && w.epoch != 0 && |Waiting(before)| < 64 then Some(w) else h
      case Notify(clean) =>
        if clean && h.Some? && h.value.epoch != Notifies(events) % 0x1_0000_0000 then None else h
      case _ => h
  }

  lemma StepQueue(b: Board, e: Event)
    requires WellFormed(b)
    ensures Step(b, e).queue ==
            match e
            case Enqueue(w) => if w.epoch != 0 && |b.queue| < 64 then b.queue + [w] else b.queue
            case Dequeue => if |b.queue| > 0 then b.queue[1..] else b.queue
            case Notify(clean) => if clean then KeepEpoch(b.queue, Step(b, e).epoch) else b.queue
            case Result(_) => b.queue
  {
    hide KeepEpoch, IsDuplicate;
  }

  lemma {:induction false} WaitingExact(events: seq<Event>)
    ensures Run(events).queue == Waiting(events)
  {
    if |events| > 0 {
      WaitingExact(events[..|events| - 1]);
      EpochExact(events);
      StepQueue(Run(events[..|events| - 1]), events[|events| - 1]);
      hide KeepEpoch, Step, Notifies;
    }
  }

  /** The slots of a board hold what they should. */
  ghost predicate SlotsHold(b: Board, events: seq<Event>)
    requires WellFormed(b)
  {
    forall i: nat :: i < 128 ==> SlotHolds(b, events, i)
  }

  lemma {:induction false} HolderExact(events: seq<Event>)
    ensures SlotsHold(Run(events), events)
  {
    if |events| > 0 {
      HolderExact(events[..|events| - 1]);
      WaitingExact(events[..|events| - 1]);
      EpochExact(events);
      HolderStep(Run(events[..|events| - 1]), events);
    }
  }

  /** One slot over one step. */
  lemma StepSlot(b: Board, e: Event, i: nat)
    requires WellFormed(b) && i < 128
    ensures var c := Step(b, e);
            match e
            case Enqueue(w) =>
              if w.slot == i && w.epoch != 0 && |b.queue| < 64 then c.valid[i] && c.active[i] == Some(w)
              else c.valid[i] == b.valid[i] && c.active[i] == b.active[i]
            case Notify(clean) =>
              if clean && b.valid[i] && b.active[i].value.epoch != c.epoch then !c.valid[i]
              else c.valid[i] == b.valid[i] && c.active[i] == b.active[i]
            case _ => c.valid[i] == b.valid[i] && c.active[i] == b.active[i]
  {
    hide KeepEpoch, IsDuplicate;
  }

  /** Slot i of b is what the events say. */
  predicate SlotHolds(b: Board, events: seq<Event>, i: nat)
    requires WellFormed(b) && i < 128
  {
    (b.valid[i] <==> Holder(events, i).Some?) && (b.valid[i] ==> b.active[i] == Holder(events, i))
  }

  lemma SlotStep(b: Board, events: seq<Event>, i: nat)
    requires WellFormed(b) && |events| > 0 && i < 128 && SlotHolds(b, events[..|events| - 1], i)
    requires b.queue == Waiting(events[..|events| - 1])
    requires Step(b, events[|events| - 1]).epoch == Notifies(events) % 0x1_0000_0000
    ensures SlotHolds(Step(b, events[|events| - 1]), events, i)
  {
    StepSlot(b, events[|events| - 1], i);
    hide Step, Notifies, Waiting;
  }

  lemma HolderStep(b: Board, events: seq<Event>)
    requires WellFormed(b) && |events| > 0 && SlotsHold(b, events[..|events| - 1])
    requires b.queue == Waiting(events[..|events| - 1])
    requires Step(b, events[|events| - 1]).epoch == Notifies(events) % 0x1_0000_0000
    ensures SlotsHold(Step(b, events[|events| - 1]), events)
  {
    var c := Step(b, events[|events| - 1]);
    hide Notifies, Waiting, SlotHolds, Step;
    forall i: nat | i < 128 ensures SlotHolds(c, events, i) {
      SlotStep(b, events, i);
    }
  }

  /** How many results of a run have a bad checksum. */
  function BadChecksums(events: seq<Event>): nat {
    if |events| == 0 then 0
    else BadChecksums(events[..|events| - 1]) +
         match events[|events| - 1] case Result(r) => (if r.validCrc then 0 else 1) case _ => 0
  }

  /** The errors are the results with a bad checksum. */
  lemma {:induction false} ErrorsExact(events: seq<Event>)
    ensures Run(events).errors == BadChecksums(events)
  {
    if |events| > 0 {
      ErrorsExact(events[..|events| - 1]);
      hide KeepEpoch, IsDuplicate;
    }
  }

  /** A result of work that is current: its slot is there and stands for work of the epoch. */
  predicate Current(events: seq<Event>, r: AsicResult) {
    r.slot < 128 && Holder(events, r.slot).Some? &&
    Holder(events, r.slot).value.epoch == Notifies(events) % 0x1_0000_0000
  }

  /** One of the last 64 shares accepted. */
  predicate AmongLast(accepted: seq<Accept>, s: Share) {
    exists k :: 0 <= k < |accepted| && |accepted| - 64 <= k && accepted[k].share == s
  }

  lemma DuplicateExact(accepted: seq<Accept>, s: Share)
    ensures IsDuplicate(accepted, s) <==> AmongLast(accepted, s)
  {
    var m := Remembered(accepted);
    var d := |accepted| - |m|;
    if AmongLast(accepted, s) {
      var k :| 0 <= k < |accepted| && |accepted| - 64 <= k && accepted[k].share == s;
      assert m[k - d] == accepted[k];
    }
    if IsDuplicate(accepted, s) {
      var k :| 0 <= k < |m| && m[k].share == s;
      assert accepted[k + d].share == s;
    }
  }

  /** Where each result of a run is counted: as an error for a bad checksum; else as stale
      unless its work is current; else as a duplicate when an equal share is among the last 64
      accepted; else it is accepted. */
  lemma VerdictExact(events: seq<Event>, r: AsicResult)
    ensures var b, c := Run(events), Step(Run(events), Result(r));
            if !r.validCrc then c == b.(errors := b.errors + 1)
            else if !Current(events, r) then c == b.(stale := b.stale + 1)
            else
              var w := Holder(events, r.slot).value;
              var s := Share(w.jobId, w.extranonce2, w.ntime, r.nonce, r.rolledVersion);
              if AmongLast(b.accepted, s) then c == b.(duplicates := b.duplicates + 1)
              else c == b.(accepted := b.accepted + [Accept(s, w.epoch, b.epoch)])
  {
    EpochExact(events);
    HolderExact(events);
    var b := Run(events);
    assert r.slot < 128 ==> SlotHolds(b, events, r.slot);
    if r.slot < 128 && b.valid[r.slot] {
      DuplicateExact(b.accepted, ShareOf(b.active[r.slot].value, r));
    }
    hide Run, Holder, Notifies, IsDuplicate, AmongLast;
  }

  /** Keeping an epoch keeps the order. */
  lemma {:induction false} KeepEpochConcat(p: seq<Work>, q: seq<Work>, epoch: nat)
    ensures KeepEpoch(p + q, epoch) == KeepEpoch(p, epoch) + KeepEpoch(q, epoch)
  {
    if |q| == 0 {
      assert p + q == p;
    } else {
      assert (p + q)[..|p + q| - 1] == p + q[..|q| - 1];
      KeepEpochConcat(p, q[..|q| - 1], epoch);
    }
  }

  lemma KeepEpochOne(w: Work, epoch: nat)
    ensures KeepEpoch([w], epoch) == if w.epoch == epoch then [w] else []
  {
    assert [w][..0] == [];
  }

  /** The books of the filter: accepted shares carry the epoch of the moment, and two
      equal ones have at least 64 others between them. */
  predicate SharesOk(accepted: seq<Accept>) {
    (forall k :: 0 <= k < |accepted| ==> accepted[k].workEpoch == accepted[k].boardEpoch) &&
    (forall j, k :: 0 <= j < k < |accepted| && accepted[j].share == accepted[k].share ==>
       k - j > 64)
  }

  lemma AcceptKeepsSharesOk(accepted: seq<Accept>, a: Accept)
    requires SharesOk(accepted) && a.workEpoch == a.boardEpoch && !IsDuplicate(accepted, a.share)
    ensures SharesOk(accepted + [a])
  {
    var n := |accepted|;
    forall j | 0 <= j < n && n - j <= SIM_DUP_CACHE_SIZE ensures accepted[j].share != a.share {
      assert Remembered(accepted)[j - (n - |Remembered(accepted)|)] == accepted[j];
    }
  }

  lemma {:induction false} SharesAlwaysOk(events: seq<Event>)
    ensures SharesOk(Run(events).accepted)
  {
    hide IsDuplicate, KeepEpoch, SharesOk;
    if |events| == 0 {
      NoSharesOk();
    } else {
      SharesAlwaysOk(events[..|events| - 1]);
      var b := Run(events[..|events| - 1]);
      match events[|events| - 1] {
        case Result(r) =>
          if Process(b, r).accepted != b.accepted {
            var w := b.active[r.slot].value;
            AcceptKeepsSharesOk(b.accepted, Accept(ShareOf(w, r), w.epoch, b.epoch));
          }
        case _ =>
      }
    }
  }

  lemma NoSharesOk()
    ensures SharesOk([])
  {
  }

  // ---- the code ----------------------------------------------------------------------------

  datatype CacheEntry = CacheEntry(used: bool, share: Share)

  const NO_SHARE: Share := Share("", 0, 0, 0, 0)

  /** The queue, slot, filter and counter fields of sim_board_t. */
  class SimBoard {
    const workQueue: array<Work>
    var head: nat
    var tail: nat
    var count: nat
    var peak: nat
    const activeJobs: array<Option<Work>>
    const validJobs: array<bool>
    const dupCache: array<CacheEntry>
    var dupIdx: nat
    var currentEpoch: nat
    var violations: nat
    var errorCounter: nat
    var sharesStale: nat
    var sharesDuplicate: nat
    var duplicateWorkPrevented: nat
    var sharesSubmitted: nat
    var sharesAccepted: nat
    var noncesFound: nat
    ghost var accepted: seq<Accept>

    ghost predicate QueueOk()
      reads this
    {
      workQueue.Length == SIM_QUEUE_CAPACITY && head < SIM_QUEUE_CAPACITY && count <= SIM_QUEUE_CAPACITY &&
      tail == Cell(head, count, SIM_QUEUE_CAPACITY) && count <= peak
    }

    ghost predicate SlotsOk()
      reads this, activeJobs, validJobs
    {
      activeJobs.Length == validJobs.Length == SIM_MAX_ACTIVE_JOBS &&
      forall i :: 0 <= i < SIM_MAX_ACTIVE_JOBS && validJobs[i] ==> activeJobs[i].Some?
    }

    /** The filter: entry k % 64 is the k-th accepted share, for the last 64 of them. */
    ghost predicate FilterOk()
      reads this, dupCache
    {
      dupCache.Length == SIM_DUP_CACHE_SIZE && IsCache(dupCache[..], accepted) &&
      dupIdx == |accepted| % SIM_DUP_CACHE_SIZE
    }

    ghost predicate CountsOk()
      reads this
    {
      sharesSubmitted == sharesAccepted == noncesFound == |accepted| && sharesDuplicate == duplicateWorkPrevented
    }

    ghost predicate Valid()
      reads this, workQueue, activeJobs, validJobs, dupCache
    {
      QueueOk() && SlotsOk() && FilterOk() && CountsOk()
    }

    ghost function Queue(): seq<Work>
      requires QueueOk()
      reads this, workQueue
    {
      Items(workQueue[..], head, count)
    }

    ghost function Abstract(): (b: Board)
      requires Valid()
      reads this, workQueue, activeJobs, validJobs, dupCache
      ensures WellFormed(b)
    {
      Board(Queue(), activeJobs[..], validJobs[..], currentEpoch, accepted, errorCounter, sharesStale, sharesDuplicate)
    }

    /** The part of sim_board_init that concerns these fields. */
    constructor ()
      ensures Valid() && Abstract() == PowerOn()
    {
      workQueue := new Work[SIM_QUEUE_CAPACITY](_ => Work(0, 0, "", 0, 0, false));
      activeJobs := new Option<Work>[SIM_MAX_ACTIVE_JOBS](_ => None);
      validJobs := new bool[SIM_MAX_ACTIVE_JOBS](_ => false);
      dupCache := new CacheEntry[SIM_DUP_CACHE_SIZE](_ => CacheEntry(false, NO_SHARE));
      head, tail, count, peak, dupIdx, currentEpoch, violations := 0, 0, 0, 0, 0, 0, 0;
      errorCounter, sharesStale, sharesDuplicate, duplicateWorkPrevented := 0, 0, 0, 0;
      sharesSubmitted, sharesAccepted, noncesFound := 0, 0, 0;
      accepted := [];
      new;
      assert activeJobs[..] == PowerOn().active && validJobs[..] == PowerOn().valid;
    }

    /** The ring part of sim_work_enqueue. */
    method PutInQueue(work: Work)
      requires QueueOk() && count < SIM_QUEUE_CAPACITY
      modifies this`tail, this`count, this`peak, workQueue
      ensures QueueOk() && Queue() == old(Queue()) + [work]
    {
      hide Items, Cell;
      CellIsMod(tail, 1, SIM_QUEUE_CAPACITY);
      CellShift(head, count, SIM_QUEUE_CAPACITY);
      ItemsPut(workQueue[..], head, count, work);
      ghost var before := workQueue[..];
      workQueue[tail] := work;
      assert workQueue[..] == before[tail := work];
      tail := (tail + 1) % SIM_QUEUE_CAPACITY;
      count := count + 1;
      if count > peak {
        peak := count;
      }
    }

    /** sim_work_enqueue. */
    method WorkEnqueue(work: Work) returns (ok: bool)
      requires Valid()
      modifies this`tail, this`count, this`peak, this`violations, workQueue, activeJobs, validJobs
      ensures Valid() && Abstract() == Put(old(Abstract()), work)
      ensures ok == (work.epoch != 0 && old(count) < SIM_QUEUE_CAPACITY)
      ensures violations == old(violations) + if ok then 0 else 1
    {
      hide Items, Cell, IsCache;
      if work.epoch == 0 || count >= SIM_QUEUE_CAPACITY {
        violations := violations + 1;
        return false;
      }
      PutInQueue(work);
      if work.slot < SIM_MAX_ACTIVE_JOBS {
        activeJobs[work.slot] := Some(work);
        validJobs[work.slot] := true;
      }
      ok := true;
    }

    /** sim_work_dequeue. */
    method WorkDequeue() returns (work: Option<Work>)
      requires Valid()
      modifies this`head, this`count
      ensures Valid() && Abstract() == Step(old(Abstract()), Dequeue)
      ensures work == if old(Queue()) == [] then None else Some(old(Queue())[0])
    {
      hide Items, Cell, IsCache;
      if count == 0 { return None; }
      CellIsMod(head, 1, SIM_QUEUE_CAPACITY);
      CellShift(head, count, SIM_QUEUE_CAPACITY);
      ItemsTake(workQueue[..], head, count);
      work := Some(workQueue[head]);
      head := (head + 1) % SIM_QUEUE_CAPACITY;
      count := count - 1;
    }

    /** The body of that loop. */
    method CompactOne(keep: nat, newCount: nat, i: nat, ghost before: seq<Work>) returns (next: nat)
      requires workQueue.Length == SIM_QUEUE_CAPACITY && i < |before|
      requires Compacted(workQueue[..], head, before, keep, newCount, i)
      modifies workQueue
      ensures Compacted(workQueue[..], head, before, keep, next, i + 1)
    {
      ghost var was := workQueue[..];
      CompactBounds(was, head, before, keep, newCount, i);
      hide KeepEpoch, Cell, Items, Compacted;
      CellIsMod(head, i, SIM_QUEUE_CAPACITY);
      CellIsMod(head, newCount, SIM_QUEUE_CAPACITY);
      var idx := (head + i) % SIM_QUEUE_CAPACITY;
      next := newCount;
      if workQueue[idx].epoch == keep {
        CompactKeep(was, head, before, keep, newCount, i);
        if newCount != i {
          workQueue[(head + newCount) % SIM_QUEUE_CAPACITY] := workQueue[idx];
        }
        assert workQueue[..] == was[Cell(head, newCount, SIM_QUEUE_CAPACITY) := before[i]];
        next := newCount + 1;
      } else {
        workQueue[idx] := workQueue[idx].(isStale := true);
        CompactSkip(was, head, before, keep, newCount, i, workQueue[idx]);
        assert workQueue[..] == was[Cell(head, i, SIM_QUEUE_CAPACITY) := workQueue[idx]];
      }
    }

    /** The first loop of sim_work_clean_stale: compact the ring in place. */
    method CompactCells(keep: nat) returns (newCount: nat)
      requires QueueOk()
      modifies workQueue
      ensures newCount <= count && Items(workQueue[..], head, newCount) == KeepEpoch(old(Queue()), keep)
    {
      ghost var before := Queue();
      newCount := 0;
      var i: nat := 0;
      CompactStart(workQueue[..], head, before, keep);
      hide KeepEpoch, Cell, Items, Compacted;
      while i < count
        invariant i <= count
        invariant Compacted(workQueue[..], head, before, keep, newCount, i)
        modifies workQueue
      {
        newCount := CompactOne(keep, newCount, i, before);
        i := i + 1;
      }
      CompactEnd(workQueue[..], head, before, keep, newCount);
    }

    /** The loop and the two assignments after it. */
    method CompactQueue(keep: nat)
      requires QueueOk()
      modifies this`tail, this`count, workQueue
      ensures QueueOk() && Queue() == KeepEpoch(old(Queue()), keep)
    {
      hide KeepEpoch, Cell, Items;
      var newCount := CompactCells(keep);
      CellIsMod(head, newCount, SIM_QUEUE_CAPACITY);
      count := newCount;
      tail := (head + newCount) % SIM_QUEUE_CAPACITY;
    }

    /** The second loop of sim_work_clean_stale, given the board before the first. */
    method CleanSlots(keep: nat, ghost b: Board)
      requires SlotsOk() && WellFormed(b) && validJobs[..] == b.valid && activeJobs[..] == b.active
      modifies activeJobs, validJobs
      ensures SlotsOk() && validJobs[..] == CleanStale(b, keep).valid && activeJobs[..] == CleanStale(b, keep).active
    {
      hide KeepEpoch;
      ghost var c := CleanStale(b, keep);
      var slot: nat := 0;
      while slot < SIM_MAX_ACTIVE_JOBS
        invariant slot <= SIM_MAX_ACTIVE_JOBS
        invariant forall i :: 0 <= i < slot ==> validJobs[i] == c.valid[i] && activeJobs[i] == c.active[i]
        invariant forall i :: slot <= i < SIM_MAX_ACTIVE_JOBS ==>
                    validJobs[i] == b.valid[i] && activeJobs[i] == b.active[i]
        modifies activeJobs, validJobs
      {
        if validJobs[slot] && activeJobs[slot].Some? {
          if activeJobs[slot].value.epoch != keep {
            validJobs[slot] := false;
            activeJobs[slot] := Some(activeJobs[slot].value.(isStale := true));
          }
        }
        slot := slot + 1;
      }
      assert validJobs[..] == c.valid;
      assert activeJobs[..] == c.active;
    }

    /** sim_work_clean_stale. */
    method WorkCleanStale(keep: nat)
      requires Valid()
      modifies this`tail, this`count, workQueue, activeJobs, validJobs
      ensures Valid() && Abstract() == CleanStale(old(Abstract()), keep)
    {
      hide KeepEpoch, Cell, Items, IsCache;
      ghost var b := Abstract();
      CompactQueue(keep);
      CleanSlots(keep, b);
    }

    /** sim_job_receive_notify, but for the job id and difficulty it copies. */
    method JobReceiveNotify(cleanJobs: bool)
      requires Valid()
      modifies this`currentEpoch, this`tail, this`count, workQueue, activeJobs, validJobs
      ensures Valid() && Abstract() == Step(old(Abstract()), Notify(cleanJobs))
    {
      hide KeepEpoch, Cell, Items, IsCache, CleanStale;
      currentEpoch := (currentEpoch + 1) % EPOCHS;
      if cleanJobs {
        WorkCleanStale(currentEpoch);
      }
    }

    /** sim_is_duplicate_share. */
    method IsDuplicateShare(s: Share) returns (dup: bool)
      requires FilterOk()
      ensures dup == IsDuplicate(accepted, s)
    {
      hide IsDuplicate, IsCache;
      var i: nat := 0;
      while i < SIM_DUP_CACHE_SIZE
        invariant i <= SIM_DUP_CACHE_SIZE
        invariant forall j :: 0 <= j < i ==> !(dupCache[j].used && dupCache[j].share == s)
      {
        if dupCache[i].used && dupCache[i].share == s {
          CacheHit(dupCache[..], accepted, s, i);
          return true;
        }
        i := i + 1;
      }
      CacheMiss(dupCache[..], accepted, s);
      dup := false;
    }

    /** sim_record_share. */
    method RecordShare(s: Share, ghost a: Accept)
      requires FilterOk() && a.share == s
      modifies this`dupIdx, this`accepted, dupCache
      ensures FilterOk() && accepted == old(accepted) + [a]
    {
      hide IsCache;
      ghost var before := dupCache[..];
      dupCache[dupIdx] := CacheEntry(true, s);
      assert dupCache[..] == before[dupIdx := CacheEntry(true, s)];
      CacheRecord(before, accepted, a);
      dupIdx := (dupIdx + 1) % SIM_DUP_CACHE_SIZE;
      accepted := accepted + [a];
    }

    /** The end of sim_process_asic_result, for a result whose work is current. */
    method JudgeShare(s: Share, ghost a: Accept) returns (ok: bool)
      requires FilterOk() && CountsOk() && a.share == s
      modifies this`sharesDuplicate, this`duplicateWorkPrevented, this`sharesSubmitted, this`sharesAccepted,
               this`noncesFound, this`dupIdx, this`accepted, dupCache
      ensures FilterOk() && CountsOk() && ok == !IsDuplicate(old(accepted), s)
      ensures accepted == if ok then old(accepted) + [a] else old(accepted)
      ensures sharesDuplicate == old(sharesDuplicate) + if ok then 0 else 1
    {
      hide IsDuplicate, IsCache;
      var dup := IsDuplicateShare(s);
      if dup {
        sharesDuplicate := sharesDuplicate + 1;
        duplicateWorkPrevented := duplicateWorkPrevented + 1;
        return false;
      }
      RecordShare(s, a);
      sharesSubmitted := sharesSubmitted + 1;
      sharesAccepted := sharesAccepted + 1;
      noncesFound := noncesFound + 1;
      ok := true;
    }

    /** sim_process_asic_result. */
    method ProcessAsicResult(r: AsicResult) returns (ok: bool)
      requires Valid()
      modifies this`errorCounter, this`sharesStale, this`sharesDuplicate, this`duplicateWorkPrevented,
               this`sharesSubmitted, this`sharesAccepted, this`noncesFound, this`dupIdx, this`accepted, dupCache
      ensures Valid() && Abstract() == Process(old(Abstract()), r)
      ensures ok == (|accepted| > old(|accepted|))
    {
      hide IsDuplicate, IsCache, Items, Cell, ShareOf;
      ok := false;
      if !r.validCrc {
        errorCounter := errorCounter + 1;
      } else if r.slot >= SIM_MAX_ACTIVE_JOBS || !validJobs[r.slot] || activeJobs[r.slot] == None {
        sharesStale := sharesStale + 1;
      } else {
        var work := activeJobs[r.slot].value;
        if work.epoch != currentEpoch {
          sharesStale := sharesStale + 1;
        } else {
          ok := JudgeShare(ShareOf(work, r), Accept(ShareOf(work, r), work.epoch, currentEpoch));
        }
      }
    }
  }

  // ---- supporting the code -------------------------------------------------------------------

  lemma KeepEpochNext(q: seq<Work>, i: nat, epoch: nat)
    requires i < |q|
    ensures KeepEpoch(q[..i + 1], epoch) ==
            KeepEpoch(q[..i], epoch) + if q[i].epoch == epoch then [q[i]] else []
  {
    assert q[..i + 1][..i] == q[..i];
  }

  /** The cell written lies before every cell still to be read. */
  lemma CellsApart(head: nat, written: nat, i: nat, n: nat, size: nat)
    requires head < size && written <= i < n <= size
    ensures forall k :: i < k < n ==> Cell(head, k, size) != Cell(head, written, size)
  {
  }

  lemma ItemsUntouched<T>(cells: seq<T>, head: nat, n: nat, i: nat, x: T)
    requires head < |cells| && n <= i < |cells|
    ensures Items(cells[Cell(head, i, |cells|) := x], head, n) == Items(cells, head, n)
  {
  }

  /** The compaction has read i items and kept those of the epoch in the first cells. */
  ghost predicate Compacted(cells: seq<Work>, head: nat, before: seq<Work>, keep: nat, kept: nat, i: nat) {
    && head < |cells| == SIM_QUEUE_CAPACITY && kept <= i <= |before| <= SIM_QUEUE_CAPACITY
    && (forall k :: i <= k < |before| ==> cells[Cell(head, k, SIM_QUEUE_CAPACITY)] == before[k])
    && Items(cells, head, kept) == KeepEpoch(before[..i], keep)
  }

  lemma CompactStart(cells: seq<Work>, head: nat, before: seq<Work>, keep: nat)
    requires head < |cells| == SIM_QUEUE_CAPACITY && |before| <= SIM_QUEUE_CAPACITY
    requires before == Items(cells, head, |before|)
    ensures Compacted(cells, head, before, keep, 0, 0)
  {
    hide Cell;
    assert before[..0] == [];
    assert Items(cells, head, 0) == [];
  }

  lemma CompactEnd(cells: seq<Work>, head: nat, before: seq<Work>, keep: nat, kept: nat)
    requires Compacted(cells, head, before, keep, kept, |before|)
    ensures head < |cells| && kept <= |before| <= |cells|
    ensures Items(cells, head, kept) == KeepEpoch(before, keep)
  {
    assert before[..|before|] == before;
  }

  lemma CompactBounds(cells: seq<Work>, head: nat, before: seq<Work>, keep: nat, kept: nat, i: nat)
    requires Compacted(cells, head, before, keep, kept, i) && i < |before|
    ensures head < SIM_QUEUE_CAPACITY && kept <= i < SIM_QUEUE_CAPACITY
    ensures cells[Cell(head, i, SIM_QUEUE_CAPACITY)] == before[i]
  {
  }

  /** An item of the epoch moves down. */
  lemma CompactKeep(cells: seq<Work>, head: nat, before: seq<Work>, keep: nat, kept: nat, i: nat)
    requires Compacted(cells, head, before, keep, kept, i) && i < |before| && before[i].epoch == keep
    ensures Compacted(cells[Cell(head, kept, SIM_QUEUE_CAPACITY) := before[i]], head, before, keep, kept + 1, i + 1)
  {
    hide KeepEpoch, Items, Cell;
    KeepEpochNext(before, i, keep);
    ItemsPut(cells, head, kept, before[i]);
    CellsApart(head, kept, i, |before|, SIM_QUEUE_CAPACITY);
  }

  /** Any other only changes where it lies. */
  lemma CompactSkip(cells: seq<Work>, head: nat, before: seq<Work>, keep: nat, kept: nat, i: nat, x: Work)
    requires Compacted(cells, head, before, keep, kept, i) && i < |before| && before[i].epoch != keep
    ensures Compacted(cells[Cell(head, i, SIM_QUEUE_CAPACITY) := x], head, before, keep, kept, i + 1)
  {
    hide KeepEpoch, Items, Cell;
    KeepEpochNext(before, i, keep);
    CellsApart(head, i, i, |before|, SIM_QUEUE_CAPACITY);
    ItemsUntouched(cells, head, kept, i, x);
  }

  ghost predicate IsCache(cells: seq<CacheEntry>, accepted: seq<Accept>) {
    |cells| == SIM_DUP_CACHE_SIZE &&
    (forall c :: |accepted| <= c < SIM_DUP_CACHE_SIZE ==> !cells[c].used) &&
    (forall k :: 0 <= k < |accepted| && |accepted| <= k + SIM_DUP_CACHE_SIZE ==>
       cells[k % SIM_DUP_CACHE_SIZE] == CacheEntry(true, accepted[k].share))
  }

  lemma CacheHit(cells: seq<CacheEntry>, accepted: seq<Accept>, s: Share, c: nat)
    requires IsCache(cells, accepted) && c < SIM_DUP_CACHE_SIZE && cells[c] == CacheEntry(true, s)
    ensures IsDuplicate(accepted, s)
  {
    var n := |accepted|;
    if n <= SIM_DUP_CACHE_SIZE {
      assert c < n;
      assert c % SIM_DUP_CACHE_SIZE == c;
      assert Remembered(accepted)[c] == accepted[c];
    } else {
      var k := NewestIn(n, c);
      var m := n - SIM_DUP_CACHE_SIZE;
      assert cells[k % SIM_DUP_CACHE_SIZE] == CacheEntry(true, accepted[k].share);
      assert Remembered(accepted)[k - m] == accepted[k];
    }
  }

  /** The newest of n accepts that cell c was used for. */
  lemma NewestIn(n: nat, c: nat) returns (k: nat)
    requires c < SIM_DUP_CACHE_SIZE < n
    ensures k < n <= k + SIM_DUP_CACHE_SIZE && k % SIM_DUP_CACHE_SIZE == c
  {
    var d := n - 1 - c;
    DivModIdentity(d, SIM_DUP_CACHE_SIZE);
    k := n - 1 - d % SIM_DUP_CACHE_SIZE;
    DivModUnique(k, SIM_DUP_CACHE_SIZE, d / SIM_DUP_CACHE_SIZE, c);
  }

  lemma CacheMiss(cells: seq<CacheEntry>, accepted: seq<Accept>, s: Share)
    requires IsCache(cells, accepted)
    requires forall c :: 0 <= c < SIM_DUP_CACHE_SIZE ==> !(cells[c].used && cells[c].share == s)
    ensures !IsDuplicate(accepted, s)
  {
    var n, m := |accepted|, |Remembered(accepted)|;
    forall k | 0 <= k < m ensures Remembered(accepted)[k].share != s {
      var j := n - m + k;
      assert cells[j % SIM_DUP_CACHE_SIZE] == CacheEntry(true, accepted[j].share);
    }
  }

  lemma CacheRecord(cells: seq<CacheEntry>, accepted: seq<Accept>, a: Accept)
    requires IsCache(cells, accepted)
    ensures IsCache(cells[|accepted| % SIM_DUP_CACHE_SIZE := CacheEntry(true, a.share)], accepted + [a])
  {
    var n := |accepted|;
    forall k | 0 <= k < n && n < k + SIM_DUP_CACHE_SIZE ensures k % SIM_DUP_CACHE_SIZE != n % SIM_DUP_CACHE_SIZE {
      ModApart(k, n, SIM_DUP_CACHE_SIZE);
    }
  }
}
