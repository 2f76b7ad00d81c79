/** The job-slot protocol of the BM1366, BM1370 and BM1397 drivers: send_work and the
    lookup in process_work, and SYSTEM_clean_jobs_queue, which share active_jobs and
    valid_jobs under one lock. */
module JobSlots {
  import opened Arith
  import opened Wrappers

  const MAX_ASIC_JOBS: nat := 128

  /** The fields of bm_job that the lookup reads. */
  datatype Job = Job(version: bv32, versionMask: bv32)

  datatype Chip = BM1366 | BM1370 | BM1397

  /** How far apart consecutive job ids are. */
  function Stride(chip: Chip): nat {
    match chip
    case BM1366 => 8
    case BM1370 => 24
    case BM1397 => 4
  }

  /** How many consecutive ids are distinct. */
  function Window(chip: Chip): nat {
    match chip
    case BM1366 => 16
    case BM1370 => 16
    case BM1397 => 32
  }

  /** The id after n sends; it starts at zero. */
  function IdAfter(chip: Chip, n: nat): (id: nat)
    ensures id < MAX_ASIC_JOBS
  {
    (Stride(chip) * n) % 128
  }

  /** The slot of the k-th job sent, counting from zero: the id is advanced first. */
  function SlotOf(chip: Chip, k: nat): (slot: nat)
    ensures slot < MAX_ASIC_JOBS
  {
    IdAfter(chip, k + 1)
  }

  // ---- the protocol as a state machine -----------------------------------------

  /** sent and freed record every job stored in a slot and every job released, in order;
      cleaned is how many had been sent at the last clean. pending is the job of a
      send_work call that has chosen its id but not yet taken the lock. */
  datatype State = State(id: nat, active: seq<Option<Job>>, valid: seq<bool>, pending: Option<Job>,
                         sent: seq<Job>, freed: seq<Job>, cleaned: nat)

  datatype Event = Begin(job: Job) | Commit | Clean

  predicate WellFormed(s: State) {
    |s.active| == |s.valid| == MAX_ASIC_JOBS && s.id < MAX_ASIC_JOBS
  }

  function Initial(): State {
    State(0, seq(MAX_ASIC_JOBS, _ => None), seq(MAX_ASIC_JOBS, _ => false), None, [], [], 0)
  }

  /** Only one task sends work, so a send begins when none is under way. */
  predicate Enabled(s: State, e: Event) {
    match e
    case Begin(_) => s.pending.None?
    case Commit => s.pending.Some?
    case Clean => true
  }

  /** Every fourth slot is invalidated. */
  function CleanValid(valid: seq<bool>): seq<bool> {
    seq(|valid|, i requires 0 <= i < |valid| => if i % 4 == 0 then false else valid[i])
  }

  function Step(chip: Chip, s: State, e: Event): (t: State)
    requires WellFormed(s) && Enabled(s, e)
    ensures WellFormed(t)
  {
    match e
    case Begin(job) => s.(id := (s.id + Stride(chip)) % 128, pending := Some(job))
    case Commit =>
      s.(active := s.active[s.id := s.pending], valid := s.valid[s.id := true], pending := None,
         sent := s.sent + [s.pending.value],
         freed := s.freed + if s.active[s.id].Some? then [s.active[s.id].value] else [])
    case Clean => s.(valid := CleanValid(s.valid), cleaned := |s.sent|)
  }

  /** The lookup in process_work, under the lock. */
  function Lookup(s: State, jobId: nat): Option<Job>
    requires WellFormed(s) && jobId < MAX_ASIC_JOBS
  {
    if !s.valid[jobId] then None else s.active[jobId]
  }

  /** The states some interleaving of the tasks leads to. */
  predicate IsRun(chip: Chip, events: seq<Event>)
    decreases |events|, 0
  {
    |events| == 0 ||
    (IsRun(chip, events[..|events| - 1]) &&
     Enabled(After(chip, events[..|events| - 1]), events[|events| - 1]))
  }

  function After(chip: Chip, events: seq<Event>): (s: State)
    requires IsRun(chip, events)
    ensures WellFormed(s)
    decreases |events|, 1
  {
    if |events| == 0 then Initial()
    else Step(chip, After(chip, events[..|events| - 1]), events[|events| - 1])
  }

  // ---- the history, by the list of events alone -------------------------------------------

  /** The jobs a run begins to send. */
  function Begun(events: seq<Event>): seq<Job> {
    if |events| == 0 then []
    else Begun(events[..|events| - 1]) + match events[|events| - 1] case Begin(job) => [job] case _ => []
  }

  /** How many it commits. */
  function Commits(events: seq<Event>): nat {
    if |events| == 0 then 0
    else Commits(events[..|events| - 1]) + if events[|events| - 1].Commit? then 1 else 0
  }

  /** How many had been committed at the last clean. */
  function CommitsAtClean(events: seq<Event>): nat {
    if |events| == 0 then 0
    else if events[|events| - 1].Clean? then Commits(events[..|events| - 1])
    else CommitsAtClean(events[..|events| - 1])
  }

  /** The jobs sent are the jobs begun, in order, the last one perhaps under way still; the
      jobs cleaned are those committed before the last clean. */
  lemma {:induction false} HistoryExact(chip: Chip, events: seq<Event>)
    requires IsRun(chip, events)
    ensures var s := After(chip, events);
            && s.sent + (if s.pending.Some? then [s.pending.value] else []) == Begun(events)
            && |s.sent| == Commits(events) && s.cleaned == CommitsAtClean(events)
  {
    if |events| > 0 {
      HistoryExact(chip, events[..|events| - 1]);
    }
  }

  // ---- ids ------------------------------------------------------------------------

  lemma ModEight(x: nat)
    ensures (8 * x) % 128 == 8 * (x % 16)
  {
    DivModIdentity(x, 16);
    DivModUnique(8 * x, 128, x / 16, 8 * (x % 16));
  }

  lemma ModFour(x: nat)
    ensures (4 * x) % 128 == 4 * (x % 32)
  {
    DivModIdentity(x, 32);
    DivModUnique(4 * x, 128, x / 32, 4 * (x % 32));
  }

  lemma TimesThree(x: nat)
    ensures (3 * x) % 16 == (3 * (x % 16)) % 16
  {
    var q, r := x / 16, x % 16;
    DivModIdentity(x, 16);
    DivModIdentity(3 * r, 16);
    DivModUnique(3 * x, 16, 3 * q + (3 * r) / 16, (3 * r) % 16);
  }

  /** The id as a multiple of four, and the position in the window it depends on. */
  lemma IdExact(chip: Chip, n: nat)
    ensures IdAfter(chip, n) ==
            match chip
            case BM1366 => 8 * (n % 16)
            case BM1370 => 8 * ((3 * (n % 16)) % 16)
            case BM1397 => 4 * (n % 32)
  {
    match chip
    case BM1366 => ModEight(n);
    case BM1370 => ModEight(3 * n); TimesThree(n);
    case BM1397 => ModFour(n);
  }

  lemma TripleInjective(a: nat, b: nat)
    requires a < 16 && b < 16 && (3 * a) % 16 == (3 * b) % 16
    ensures a == b
  {
  }

  lemma ModWindow(m: nat, n: nat, window: nat)
    requires m < n <= m + window
    ensures m % window == n % window <==> n == m + window
  {
    if n == m + window {
      ModShift(m, window);
    } else {
      ModApart(m, n, window);
    }
  }

  /** Ids of jobs sent less than a window apart differ; a window apart they agree. */
  lemma IdsDistinct(chip: Chip, m: nat, n: nat)
    requires m < n <= m + Window(chip)
    ensures IdAfter(chip, m) == IdAfter(chip, n) <==> n == m + Window(chip)
  {
    hide IdAfter;
    ModWindow(m, n, Window(chip));
    IdExact(chip, m);
    IdExact(chip, n);
    match chip
    case BM1366 =>
    case BM1370 =>
      var a, b := m % 16, n % 16;
      if a != b && (3 * a) % 16 == (3 * b) % 16 {
        TripleInjective(a, b);
      }
    case BM1397 =>
  }

  lemma AddMod(v: nat, d: nat)
    ensures (v % 128 + d) % 128 == (v + d) % 128
  {
    var w := v % 128 + d;
    DivModIdentity(v, 128);
    DivModIdentity(w, 128);
    DivModUnique(v + d, 128, v / 128 + w / 128, w % 128);
  }

  lemma NextId(chip: Chip, n: nat)
    ensures (IdAfter(chip, n) + Stride(chip)) % 128 == IdAfter(chip, n + 1)
    ensures IdAfter(chip, n) % 4 == 0
  {
    AddMod(Stride(chip) * n, Stride(chip));
    assert Stride(chip) * (n + 1) == Stride(chip) * n + Stride(chip);
    IdMultipleOfFour(chip, n);
  }

  lemma IdMultipleOfFour(chip: Chip, n: nat)
    ensures IdAfter(chip, n) % 4 == 0
  {
    hide IdAfter;
    IdExact(chip, n);
  }

  // ---- the invariant -----------------------------------------------------------------

  function Oldest(chip: Chip, n: nat): nat {
    if n < Window(chip) then 0 else n - Window(chip)
  }

  /** Slot i belongs to the k-th job sent, which is among the last window. */
  predicate Holds(chip: Chip, n: nat, i: nat, k: nat) {
    Oldest(chip, n) <= k < n && i == SlotOf(chip, k)
  }

  /** The whole state in terms of its history: the last window of jobs sit in their own
      slots, valid unless cleaned since, every earlier job has been freed once, in order,
      and every other slot is empty. */
  ghost predicate Inv(chip: Chip, s: State) {
    var n := |s.sent|;
    && WellFormed(s)
    && s.cleaned <= n
    && s.id == IdAfter(chip, if s.pending.Some? then n + 1 else n)
    && s.freed == s.sent[..Oldest(chip, n)]
    && (forall i: nat, k: nat :: Holds(chip, n, i, k) ==>
          s.active[i] == Some(s.sent[k]) && (s.valid[i] <==> s.cleaned <= k))
    && (forall i: nat :: i < MAX_ASIC_JOBS && (s.active[i].Some? || s.valid[i]) ==>
          exists k: nat :: Holds(chip, n, i, k))
  }

  lemma InitialInv(chip: Chip)
    ensures Inv(chip, Initial())
  {
  }

  lemma BeginInv(chip: Chip, s: State, job: Job)
    requires Inv(chip, s) && Enabled(s, Begin(job))
    ensures Inv(chip, Step(chip, s, Begin(job)))
  {
    hide IdAfter;
    NextId(chip, |s.sent|);
  }

  lemma CleanInv(chip: Chip, s: State)
    requires Inv(chip, s)
    ensures Inv(chip, Step(chip, s, Clean))
  {
    hide IdAfter;
    var t := Step(chip, s, Clean);
    forall i: nat, k: nat | Holds(chip, |s.sent|, i, k) ensures i % 4 == 0 && !t.valid[i] {
      NextId(chip, k + 1);
    }
  }

  /** A commit replaces in its slot exactly the job one window older, if there is one. */
  lemma CommitEvicts(chip: Chip, s: State)
    requires Inv(chip, s) && s.pending.Some?
    ensures var n := |s.sent|;
            s.id == SlotOf(chip, n) &&
            s.active[s.id] == if n < Window(chip) then None else Some(s.sent[n - Window(chip)])
  {
    hide IdAfter;
    var n := |s.sent|;
    if n >= Window(chip) {
      IdsDistinct(chip, n + 1 - Window(chip), n + 1);
      assert Holds(chip, n, s.id, n - Window(chip));
    } else if s.active[s.id].Some? {
      var k: nat :| Holds(chip, n, s.id, k);
      IdsDistinct(chip, k + 1, n + 1);
    }
  }

  /** In the next state the slots of the window belong to the old window but for the one
      just taken. */
  lemma HoldsNext(chip: Chip, n: nat, i: nat, k: nat)
    ensures Holds(chip, n + 1, i, k) <==>
            (k == n && i == SlotOf(chip, n)) || (Holds(chip, n, i, k) && i != SlotOf(chip, n))
  {
    hide IdAfter;
    if k < n && n <= k + Window(chip) {
      IdsDistinct(chip, k + 1, n + 1);
    }
  }

  lemma CommitInv(chip: Chip, s: State)
    requires Inv(chip, s) && Enabled(s, Commit)
    ensures Inv(chip, Step(chip, s, Commit))
  {
    hide SlotOf, IdAfter, Holds;
    var n, t := |s.sent|, Step(chip, s, Commit);
    var n' := n + 1;
    CommitEvicts(chip, s);
    assert SlotOf(chip, n) == IdAfter(chip, n') by { SlotIsId(chip, n); }
    forall i: nat, k: nat
      ensures Holds(chip, n', i, k) <==>
              (k == n && i == SlotOf(chip, n)) || (Holds(chip, n, i, k) && i != SlotOf(chip, n))
    {
      HoldsNext(chip, n, i, k);
    }
    HoldsInWindow(chip, n);
    assert Holds(chip, n', s.id, n);
  }

  lemma SlotIsId(chip: Chip, k: nat)
    ensures SlotOf(chip, k) == IdAfter(chip, k + 1)
  {
  }

  lemma HoldsInWindow(chip: Chip, n: nat)
    ensures forall i: nat, k: nat :: Holds(chip, n, i, k) ==> k < n && i < MAX_ASIC_JOBS
  {
  }

  lemma StepInv(chip: Chip, s: State, e: Event)
    requires Inv(chip, s) && Enabled(s, e)
    ensures Inv(chip, Step(chip, s, e))
  {
    match e
    case Begin(job) => BeginInv(chip, s, job);
    case Commit => CommitInv(chip, s);
    case Clean => CleanInv(chip, s);
  }

  /** The invariant holds after every interleaving. */
  lemma {:induction false} RunInv(chip: Chip, events: seq<Event>)
    requires IsRun(chip, events)
    ensures Inv(chip, After(chip, events))
  {
    if |events| == 0 {
      InitialInv(chip);
    } else {
      RunInv(chip, events[..|events| - 1]);
      StepInv(chip, After(chip, events[..|events| - 1]), events[|events| - 1]);
    }
  }

  // ---- what the drivers rely on -----------------------------------------------------

  /** Safety in every reachable state: a valid slot is one that the stride-4 clean
      reaches, and holds a job sent since the last clean. */
  lemma ValidSlotSafe(chip: Chip, events: seq<Event>, i: nat)
    requires IsRun(chip, events) && i < MAX_ASIC_JOBS && After(chip, events).valid[i]
    ensures var s := After(chip, events);
            i % 4 == 0 && s.active[i].Some? &&
            exists k :: s.cleaned <= k < |s.sent| && s.active[i].value == s.sent[k]
  {
    hide IdAfter, IsRun, After;
    RunInv(chip, events);
    var s := After(chip, events);
    var k: nat :| Holds(chip, |s.sent|, i, k);
    NextId(chip, k + 1);
  }

  /** Right after a clean no lookup finds a job. */
  lemma CleanEmpties(chip: Chip, events: seq<Event>, jobId: nat)
    requires IsRun(chip, events) && jobId < MAX_ASIC_JOBS
    ensures Lookup(Step(chip, After(chip, events), Clean), jobId) == None
  {
    hide IdAfter, IsRun, After;
    RunInv(chip, events);
    CleanInv(chip, After(chip, events));
    var t := Step(chip, After(chip, events), Clean);
    assert forall k: nat :: Holds(chip, |t.sent|, jobId, k) ==> !t.valid[jobId];
  }

  /** Looking up the slot of any of the last window of jobs gives that job, or nothing if
      it was sent before the last clean. */
  lemma LookupFindsOwnJob(chip: Chip, events: seq<Event>, k: nat)
    requires IsRun(chip, events)
    requires Oldest(chip, |After(chip, events).sent|) <= k < |After(chip, events).sent|
    ensures var s := After(chip, events);
            Lookup(s, SlotOf(chip, k)) == if s.cleaned <= k then Some(s.sent[k]) else None
  {
    hide IdAfter, IsRun, After;
    RunInv(chip, events);
    assert Holds(chip, |After(chip, events).sent|, SlotOf(chip, k), k);
  }

  /** Conservation: the jobs sent are, in order, the jobs freed and then the jobs still
      in their slots. */
  lemma JobsConserved(chip: Chip, events: seq<Event>)
    requires IsRun(chip, events)
    ensures var s := After(chip, events);
            var m := |s.freed|;
            m == Oldest(chip, |s.sent|) && s.sent == s.freed + s.sent[m..] &&
            forall k: nat :: m <= k < |s.sent| ==> s.active[SlotOf(chip, k)] == Some(s.sent[k])
  {
    hide SlotOf, IdAfter, IsRun, After;
    RunInv(chip, events);
    var s := After(chip, events);
    forall k: nat | |s.freed| <= k < |s.sent| ensures s.active[SlotOf(chip, k)] == Some(s.sent[k]) {
      assert Holds(chip, |s.sent|, SlotOf(chip, k), k);
    }
  }

  /** Each unfreed job sits in a slot of its own, and no other slot holds a job. */
  lemma JobsInOneSlot(chip: Chip, events: seq<Event>)
    requires IsRun(chip, events)
    ensures var s := After(chip, events);
            var m := |s.freed|;
            (forall j: nat, k: nat :: m <= j < k < |s.sent| ==> SlotOf(chip, j) != SlotOf(chip, k)) &&
            (forall i: nat :: i < MAX_ASIC_JOBS && s.active[i].Some? ==>
               exists k: nat :: m <= k < |s.sent| && i == SlotOf(chip, k))
  {
    hide SlotOf, IdAfter, IsRun, After;
    RunInv(chip, events);
    var s := After(chip, events);
    var n, m := |s.sent|, |s.freed|;
    forall j: nat, k: nat | m <= j < k < n ensures SlotOf(chip, j) != SlotOf(chip, k) {
      SlotIsId(chip, j);
      SlotIsId(chip, k);
      IdsDistinct(chip, j + 1, k + 1);
    }
    forall i: nat | i < MAX_ASIC_JOBS && s.active[i].Some?
      ensures exists k: nat :: m <= k < n && i == SlotOf(chip, k)
    {
      var k: nat :| Holds(chip, n, i, k);
    }
  }

  // ---- the id byte of a result frame --------------------------------------------------

  /** The job id process_work extracts from the id byte of a result. */
  function JobIdOf(chip: Chip, r: bv8): bv8 {
    match chip
    case BM1366 => r & 0xf8
    case BM1370 => (r & 0xf0) >> 1
    case BM1397 => r & 0xfc
  }

  /** The id byte a chip answers with: the job id beside the index of the small core, or
      for the BM1397 of the midstate. */
  function IdByte(chip: Chip, jobId: bv8, sub: bv8): bv8 {
    match chip
    case BM1366 => jobId | (sub & 0x07)
    case BM1370 => (jobId << 1) | (sub & 0x0f)
    case BM1397 => jobId | (sub & 0x03)
  }

  lemma JobIdOfIdByte(chip: Chip, jobId: bv8, sub: bv8)
    requires jobId < 128
    requires chip.BM1397? ==> jobId & 0x03 == 0
    requires !chip.BM1397? ==> jobId & 0x07 == 0
    ensures JobIdOf(chip, IdByte(chip, jobId, sub)) == jobId
  {
  }

  function IdOf(chip: Chip, r: bv8): nat {
    JobIdOf(chip, r) as nat
  }

  /** Which id bytes lead into the tables: all of the BM1370's, and of the other chips'
      those below 128. */
  lemma IdInTable(chip: Chip, r: bv8)
    ensures IdOf(chip, r) < 128 <==> chip.BM1370? || r < 0x80
  {
    SmallByte(JobIdOf(chip, r));
    IdBitsInTable(chip, r);
  }

  lemma IdBitsInTable(chip: Chip, r: bv8)
    ensures JobIdOf(chip, r) < 128 <==> chip.BM1370? || r < 0x80
  {
  }

  lemma SmallByte(b: bv8)
    ensures b as nat < 128 <==> b < 128
  {
  }

  /** The byte 0x80 leads one entry past the tables, on both chips that allow it. */
  lemma IdBeyondTable()
    ensures IdOf(BM1366, 0x80) == IdOf(BM1397, 0x80) == 128 == |Initial().active|
  {
  }

  lemma AlignedByte(n: nat)
    requires n < 128
    ensures n as bv8 < 128 && (n as bv8) as nat == n
    ensures n % 4 == 0 ==> n as bv8 & 0x03 == 0
    ensures n % 8 == 0 ==> n as bv8 & 0x07 == 0
  {
  }

  lemma SlotAligned(chip: Chip, k: nat)
    ensures SlotOf(chip, k) % 4 == 0 && (!chip.BM1397? ==> SlotOf(chip, k) % 8 == 0)
  {
    SlotIsId(chip, k);
    IdExact(chip, k + 1);
    hide SlotOf, IdAfter;
    match chip
    case BM1366 => EightTimes((k + 1) % 16);
    case BM1370 => EightTimes((3 * ((k + 1) % 16)) % 16);
    case BM1397 => FourTimes((k + 1) % 32);
  }

  lemma EightTimes(x: nat)
    ensures (8 * x) % 8 == 0 && (8 * x) % 4 == 0
  {
  }

  lemma FourTimes(x: nat)
    ensures (4 * x) % 4 == 0
  {
  }

  /** End to end: whatever core or midstate answers, the id byte of a result for one of
      the last window of jobs leads into the tables and to that job, or to nothing if the
      job was sent before the last clean. */
  lemma ResultFindsOwnJob(chip: Chip, events: seq<Event>, k: nat, sub: bv8)
    requires IsRun(chip, events)
    requires Oldest(chip, |After(chip, events).sent|) <= k < |After(chip, events).sent|
    ensures var s := After(chip, events);
            var id := IdOf(chip, IdByte(chip, SlotOf(chip, k) as bv8, sub));
            id < MAX_ASIC_JOBS && Lookup(s, id) == if s.cleaned <= k then Some(s.sent[k]) else None
  {
    LookupFindsOwnJob(chip, events, k);
    SlotAligned(chip, k);
    hide IsRun, After, IdAfter, SlotOf, Lookup;
    AlignedByte(SlotOf(chip, k));
    JobIdOfIdByte(chip, SlotOf(chip, k) as bv8, sub);
    hide JobIdOf, IdByte;
  }

  /** The newest of n jobs that was sent a whole number of windows after the k-th. */
  function Latest(chip: Chip, n: nat, k: nat): (m: nat)
    requires k < n
    ensures k <= m < n && Oldest(chip, n) <= m
  {
    var w := Window(chip);
    DivModIdentity(n - 1 - k, w);
    assert (n - 1 - k) / w * w >= 0 by { DivNat(n - 1 - k, w); }
    k + (n - 1 - k) / w * w
  }

  lemma {:induction false} SlotRepeats(chip: Chip, k: nat, t: nat)
    ensures SlotOf(chip, k + t * Window(chip)) == SlotOf(chip, k)
  {
    if t > 0 {
      var w := Window(chip);
      var m := k + (t - 1) * w;
      SlotRepeats(chip, k, t - 1);
      assert k + t * w == m + w by { MulDistrib(t - 1, 1, w); }
      SlotIsId(chip, m);
      SlotIsId(chip, m + w);
      IdsDistinct(chip, m + 1, m + 1 + w);
      hide SlotOf, IdAfter;
    }
  }

  /** A result for any job ever sent, however late, leads to the newest job that has taken
      over its id since, or to nothing if that one was sent before the last clean. */
  lemma LateResult(chip: Chip, events: seq<Event>, k: nat, sub: bv8)
    requires IsRun(chip, events) && k < |After(chip, events).sent|
    ensures var s := After(chip, events);
            var id, m := IdOf(chip, IdByte(chip, SlotOf(chip, k) as bv8, sub)), Latest(chip, |s.sent|, k);
            id < MAX_ASIC_JOBS && Lookup(s, id) == if s.cleaned <= m then Some(s.sent[m]) else None
    ensures var n := |After(chip, events).sent|; Latest(chip, n, k) == k <==> Oldest(chip, n) <= k
  {
    var n := |After(chip, events).sent|;
    LatestSlot(chip, n, k);
    LatestOwn(chip, n, k);
    ResultFindsOwnJob(chip, events, Latest(chip, n, k), sub);
    hide IsRun, After, IdAfter, SlotOf, Lookup, IdOf, IdByte, Latest, Oldest;
  }

  lemma LatestSlot(chip: Chip, n: nat, k: nat)
    requires k < n
    ensures SlotOf(chip, Latest(chip, n, k)) == SlotOf(chip, k)
  {
    DivNat(n - 1 - k, Window(chip));
    SlotRepeats(chip, k, (n - 1 - k) / Window(chip));
    hide SlotOf, IdAfter;
  }

  lemma LatestOwn(chip: Chip, n: nat, k: nat)
    requires k < n
    ensures Latest(chip, n, k) == k <==> Oldest(chip, n) <= k
  {
    var w := Window(chip);
    if n <= k + w {
      DivModUnique(n - 1 - k, w, 0, n - 1 - k);
    }
  }

  // ---- the code -------------------------------------------------------------------------

  /** The tables and the static id of a driver. Each method is one atomic step: what runs
      between two lock operations, or on the sending task alone. */
  class JobTables {
    const chip: Chip
    var id: nat
    const activeJobs: array<Option<Job>>
    const validJobs: array<bool>
    ghost var pending: Option<Job>
    ghost var sent: seq<Job>
    ghost var freed: seq<Job>
    ghost var cleaned: nat

    ghost predicate Valid()
      reads this
    {
      activeJobs.Length == validJobs.Length == MAX_ASIC_JOBS && id < MAX_ASIC_JOBS
    }

    ghost function Abstract(): (s: State)
      requires Valid()
      reads this, activeJobs, validJobs
      ensures WellFormed(s)
    {
      State(id, activeJobs[..], validJobs[..], pending, sent, freed, cleaned)
    }

    /** The allocation in SYSTEM_init_system. */
    constructor (chip: Chip)
      ensures Valid() && this.chip == chip && Abstract() == Initial()
      ensures fresh(activeJobs) && fresh(validJobs)
    {
      this.chip, id := chip, 0;
      activeJobs := new Option<Job>[MAX_ASIC_JOBS](_ => None);
      validJobs := new bool[MAX_ASIC_JOBS](_ => false);
      pending, sent, freed, cleaned := None, [], [], 0;
      new;
      assert activeJobs[..] == Initial().active;
      assert validJobs[..] == Initial().valid;
    }

    /** send_work before it takes the lock: choose the id. */
    method BeginSend(job: Job) returns (jobId: nat)
      requires Valid() && pending.None?
      modifies this
      ensures Valid() && jobId == id
      ensures Abstract() == Step(chip, old(Abstract()), Begin(job))
    {
      id := (id + Stride(chip)) % 128;
      jobId := id;
      pending := Some(job);
    }

    /** send_work inside the lock: free the old job of the slot and take it over. */
    method CommitSend(jobId: nat, job: Job)
      requires Valid() && jobId == id && pending == Some(job)
      modifies this, activeJobs, validJobs
      ensures Valid() && Abstract() == Step(chip, old(Abstract()), Commit)
    {
      if activeJobs[jobId].Some? {
        freed := freed + [activeJobs[jobId].value];
      }
      activeJobs[jobId] := Some(job);
      validJobs[jobId] := true;
      pending, sent := None, sent + [job];
    }

    /** process_work: the job id of a result, then the critical section, whose copy of the
        job the rest works on. An id byte that leads outside the tables has no meaning in C. */
    method SnapshotJob(idByte: bv8) returns (r: Option<Job>)
      requires Valid() && (chip.BM1370? || idByte < 0x80)
      ensures IdOf(chip, idByte) < MAX_ASIC_JOBS && r == Lookup(Abstract(), IdOf(chip, idByte))
    {
      IdInTable(chip, idByte);
      hide IdOf;
      var jobId := IdOf(chip, idByte);
      if !validJobs[jobId] || activeJobs[jobId] == None { return None; }
      r := activeJobs[jobId];
    }

    /** The critical section of SYSTEM_clean_jobs_queue. */
    method CleanJobs()
      requires Valid()
      modifies this, validJobs
      ensures Valid() && Abstract() == Step(chip, old(Abstract()), Clean)
    {
      ghost var before := validJobs[..];
      var i: nat := 0;
      while i < MAX_ASIC_JOBS
        invariant i % 4 == 0 && i <= MAX_ASIC_JOBS
        invariant forall j :: 0 <= j < i ==> validJobs[j] == CleanValid(before)[j]
        invariant forall j :: i <= j < MAX_ASIC_JOBS ==> validJobs[j] == before[j]
        modifies validJobs
      {
        validJobs[i] := false;
        i := i + 4;
      }
      cleaned := |sent|;
      assert validJobs[..] == CleanValid(before);
    }
  }
}
