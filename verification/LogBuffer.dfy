/** The circular log of log_buffer.c against the unbounded log it stands for. */
module LogBuffer {
  import opened Arith
  import opened Bytes

  const FLUSH_CHUNK: nat := 512
  const SCAN_LIMIT: nat := 4096
  const LOG_BUFFER_MAGIC: bv32 := 0xB17A5E10

  // ---- positions and cells ----------------------------------------------------

  /** The cell k positions on, with at most one wrap. */
  lemma CellAhead(p: nat, k: nat, size: nat)
    requires k < size
    ensures (p + k) % size == if p % size + k < size then p % size + k else p % size + k - size
  {
    var a, r := p / size, p % size;
    DivModIdentity(p, size);
    if r + k < size {
      DivModUnique(p + k, size, a, r + k);
    } else {
      MulDistrib(a, 1, size);
      DivModUnique(p + k, size, a + 1, r + k - size);
    }
  }

  /** A cell position p of the log can be read from: it is one of the last size bytes. */
  predicate InWindow(total: nat, size: nat, p: nat) {
    p < total <= p + size
  }

  /** cells is the ring of log. */
  ghost predicate IsRing(cells: text, log: text, size: nat) {
    |cells| == size > 0 &&
    forall p: nat :: InWindow(|log|, size, p) ==> cells[p % size] == log[p]
  }

  // ---- reading lines --------------------------------------------------------------

  /** How many bytes of s precede and include its first newline; 0 when it has none. */
  function LineLength(s: text): (n: nat)
    ensures n <= |s|
    ensures n > 0 ==> s[n - 1] == NEWLINE && forall i :: 0 <= i < n - 1 ==> s[i] != NEWLINE
    ensures n == 0 ==> forall i :: 0 <= i < |s| ==> s[i] != NEWLINE
  {
    if |s| == 0 then 0
    else if s[0] == NEWLINE then 1
    else
      var n := LineLength(s[1..]);
      assert forall i :: 0 <= i < |s| - 1 ==> s[1..][i] == s[i + 1];
      if n == 0 then 0 else n + 1
  }

  function Min(a: nat, b: nat): nat { if a < b then a else b }

  /** Whether the byte at pos has been overwritten: the reader was lapped. */
  predicate Lapped(total: nat, size: nat, pos: nat) {
    pos + size < total
  }

  /** Where a read that asks for pos starts. A lapped reader resumes after the first
      newline among the oldest 4096 bytes kept, or at the oldest byte if there is none. */
  function ReadStart(log: text, size: nat, pos: nat): (start: nat)
    ensures start <= |log|
  {
    var total := |log|;
    if pos > total then total
    else if Lapped(total, size, pos) then
      var oldest := total - size;
      oldest + LineLength(log[oldest..oldest + Min(size, SCAN_LIMIT)])
    else pos
  }

  /** What a read from start returns: at most maxLen bytes, cut after a newline. */
  function ReadBytes(log: text, start: nat, maxLen: nat): (s: text)
    requires start <= |log|
  {
    var s := log[start..start + Min(|log| - start, maxLen)];
    var n := LineLength(s);
    if n > 0 then s[..n] else s
  }

  /** A read returns a contiguous slice of the log, from a byte the ring still holds,
      with a newline at most as its last byte; it is empty only at the end of the log. */
  lemma ReadIsSlice(log: text, size: nat, pos: nat, maxLen: nat)
    requires size > 0 && maxLen > 0
    ensures var start := ReadStart(log, size, pos);
            var s := ReadBytes(log, start, maxLen);
            start + |s| <= |log| && s == log[start..start + |s|] && |s| <= maxLen &&
            !Lapped(|log|, size, start) &&
            (forall i :: 0 <= i < |s| - 1 ==> s[i] != NEWLINE) &&
            (s == [] <==> start == |log|) &&
            (s != [] && s[|s| - 1] != NEWLINE ==> |s| == Min(|log| - start, maxLen))
  {
  }

  /** A reader that was not lapped starts exactly where it left off, or at the end of a log
      that is shorter; a lapped one moves forward, to a line boundary when the oldest 4096
      bytes contain one. */
  lemma ReadResumes(log: text, size: nat, pos: nat)
    requires size > 0
    ensures var start := ReadStart(log, size, pos);
            (!Lapped(|log|, size, pos) ==> start == Min(pos, |log|)) &&
            (Lapped(|log|, size, pos) ==>
               var oldest := |log| - size;
               pos < oldest <= start <= oldest + Min(size, 4096) &&
               (forall i :: oldest <= i < start - 1 ==> log[i] != NEWLINE) &&
               (start > oldest ==> log[start - 1] == NEWLINE) &&
               (start == oldest ==> forall i :: oldest <= i < oldest + Min(size, 4096) ==> log[i] != NEWLINE))
  {
    if Lapped(|log|, size, pos) {
      var oldest := |log| - size;
      var s := log[oldest..oldest + Min(size, SCAN_LIMIT)];
      assert forall i :: oldest <= i < oldest + |s| ==> log[i] == s[i - oldest];
    }
  }

  // ---- a reader over a whole run ------------------------------------------------------

  /** One read of a run: where it started, what it returned, and how long the log was. */
  datatype Slice = Slice(start: nat, bytes: text, total: nat)

  /** A read that was to go on from pos left nothing out, or only bytes that had been
      overwritten and after them at most the rest of one line. */
  predicate MissesLittle(log: text, size: nat, pos: nat, slice: Slice) {
    slice.total <= |log| && slice.start + |slice.bytes| <= slice.total &&
    (slice.start == pos ||
     (pos + size < slice.total &&
      var oldest := slice.total - size;
      oldest <= slice.start <= oldest + 4096 &&
      (forall i :: oldest <= i < slice.start - 1 ==> log[i] != NEWLINE) &&
      (slice.start > oldest ==> log[slice.start - 1] == NEWLINE)))
  }

  datatype ReaderEvent = Wrote(data: text) | Read(maxLen: nat)

  datatype Reader = Reader(log: text, pos: nat, slices: seq<Slice>, skipped: int)

  function ReaderStep(size: nat, r: Reader, e: ReaderEvent): Reader {
    match e
    case Wrote(data) => r.(log := r.log + data)
    case Read(maxLen) =>
      if maxLen == 0 then r
      else
        var start := ReadStart(r.log, size, r.pos);
        var s := ReadBytes(r.log, start, maxLen);
        r.(pos := start + |s|, slices := r.slices + [Slice(start, s, |r.log|)],
           skipped := r.skipped + if Lapped(|r.log|, size, r.pos) then start - r.pos else 0)
  }

  function ReaderRun(size: nat, r: Reader, events: seq<ReaderEvent>): Reader {
    if |events| == 0 then r
    else ReaderStep(size, ReaderRun(size, r, events[..|events| - 1]), events[|events| - 1])
  }

  /** The bytes a run returned, end to end. */
  function Returned(slices: seq<Slice>): text {
    if |slices| == 0 then [] else Returned(slices[..|slices| - 1]) + slices[|slices| - 1].bytes
  }

  /** Where the last slice ended. */
  function EndOf(from: nat, slices: seq<Slice>): nat {
    if |slices| == 0 then from else slices[|slices| - 1].start + |slices[|slices| - 1].bytes|
  }

  /** Every slice is taken from the log, none starts before the previous one ended, and
      little lies between them. */
  predicate InOrder(size: nat, log: text, from: nat, slices: seq<Slice>) {
    if |slices| == 0 then from <= |log|
    else
      var rest, last := slices[..|slices| - 1], slices[|slices| - 1];
      InOrder(size, log, from, rest) && EndOf(from, rest) <= last.start && EndOf(from, slices) <= |log| &&
      last.bytes == log[last.start..EndOf(from, slices)] && MissesLittle(log, size, EndOf(from, rest), last)
  }

  lemma {:induction false} InOrderGrows(size: nat, log: text, data: text, from: nat, slices: seq<Slice>)
    requires InOrder(size, log, from, slices)
    ensures InOrder(size, log + data, from, slices)
  {
    if |slices| > 0 {
      var last := slices[|slices| - 1];
      InOrderGrows(size, log, data, from, slices[..|slices| - 1]);
      assert (log + data)[last.start..EndOf(from, slices)] == log[last.start..EndOf(from, slices)];
    }
  }

  /** t is u after a read that returned slice. */
  predicate Reads(size: nat, u: Reader, t: Reader, slice: Slice) {
    && t.log == u.log && t.slices == u.slices + [slice]
    && u.pos <= slice.start && t.pos == slice.start + |slice.bytes| <= |u.log|
    && slice.bytes == u.log[slice.start..t.pos]
    && t.skipped == u.skipped + (slice.start - u.pos) && MissesLittle(u.log, size, u.pos, slice)
  }

  /** What one read does to a reader that is inside the log. */
  lemma ReadStep(size: nat, r: Reader, maxLen: nat) returns (slice: Slice)
    requires size > 0 && r.pos <= |r.log|
    ensures var t := ReaderStep(size, r, Read(maxLen));
            if maxLen == 0 then t == r else Reads(size, r, t, slice)
  {
    var start := ReadStart(r.log, size, r.pos);
    slice := Slice(start, ReadBytes(r.log, start, maxLen), |r.log|);
    if maxLen > 0 {
      ReadIsSlice(r.log, size, r.pos, maxLen);
      StartMissesLittle(r.log, size, r.pos, slice);
      hide ReadStart, ReadBytes, MissesLittle;
      assert ReaderStep(size, r, Read(maxLen)).slices == r.slices + [slice];
    }
  }

  lemma StartMissesLittle(log: text, size: nat, pos: nat, slice: Slice)
    requires size > 0 && pos <= |log| && slice.start == ReadStart(log, size, pos)
    requires slice.start + |slice.bytes| <= |log| == slice.total
    ensures pos <= slice.start && MissesLittle(log, size, pos, slice)
    ensures Lapped(|log|, size, pos) || slice.start == pos
  {
    ReadResumes(log, size, pos);
    hide ReadStart;
  }

  lemma Snoc(slices: seq<Slice>, slice: Slice)
    ensures var longer := slices + [slice];
            longer[..|longer| - 1] == slices && longer[|longer| - 1] == slice &&
            Returned(longer) == Returned(slices) + slice.bytes
  {
    assert (slices + [slice])[..|slices|] == slices;
  }

  /** The slices are in order, end where the reader is, and with what was skipped make up
      the distance travelled. */
  predicate Follows(size: nat, from: nat, t: Reader) {
    InOrder(size, t.log, from, t.slices) && t.pos == EndOf(from, t.slices) <= |t.log| &&
    t.skipped >= 0 && t.pos == from + |Returned(t.slices)| + t.skipped
  }

  lemma FollowsWrite(size: nat, from: nat, u: Reader, data: text)
    requires Follows(size, from, u)
    ensures Follows(size, from, u.(log := u.log + data))
  {
    InOrderGrows(size, u.log, data, from, u.slices);
    hide InOrder, EndOf, Returned;
  }

  lemma FollowsRead(size: nat, from: nat, u: Reader, t: Reader, slice: Slice)
    requires Follows(size, from, u) && Reads(size, u, t, slice)
    ensures Follows(size, from, t)
  {
    Snoc(u.slices, slice);
    hide Returned;
  }

  /** What a run writes. */
  function AllWritten(events: seq<ReaderEvent>): text {
    if |events| == 0 then []
    else AllWritten(events[..|events| - 1]) +
         match events[|events| - 1] case Wrote(data) => data case _ => []
  }

  /** The log is everything ever written, in order. */
  lemma {:induction false} RunLog(size: nat, r: Reader, events: seq<ReaderEvent>)
    ensures ReaderRun(size, r, events).log == r.log + AllWritten(events)
  {
    if |events| == 0 {
      assert r.log + [] == r.log;
    } else {
      RunLog(size, r, events[..|events| - 1]);
      hide ReadStart, ReadBytes;
    }
  }

  lemma RunNext(size: nat, r: Reader, events: seq<ReaderEvent>)
    requires |events| > 0
    ensures ReaderRun(size, r, events)
         == ReaderStep(size, ReaderRun(size, r, events[..|events| - 1]), events[|events| - 1])
  {
    hide ReaderStep;
  }

  /** The reader as its next read takes it: a position beyond the end, left over from an
      earlier log, counts as the end. */
  function Settled(r: Reader): Reader {
    if r.pos > |r.log| then r.(pos := |r.log|) else r
  }

  lemma SettledRead(size: nat, r: Reader, maxLen: nat)
    requires maxLen > 0
    ensures ReaderStep(size, r, Read(maxLen)) == ReaderStep(size, Settled(r), Read(maxLen))
  {
    hide ReadBytes;
  }

  /** Where a run starts reading: the position given, or the end that the log has by then. */
  function Entry(size: nat, r: Reader, events: seq<ReaderEvent>): nat {
    var t := ReaderRun(size, r, events);
    if |events| == 0 || t.slices == [] then Settled(t).pos else Entry(size, r, events[..|events| - 1])
  }

  lemma EntryNext(size: nat, r: Reader, events: seq<ReaderEvent>)
    requires |events| > 0
    ensures var t := ReaderRun(size, r, events);
            Entry(size, r, events) ==
            if t.slices == [] then Settled(t).pos else Entry(size, r, events[..|events| - 1])
    ensures var u := ReaderRun(size, r, events[..|events| - 1]);
            u.slices == [] ==> Entry(size, r, events[..|events| - 1]) == Settled(u).pos
  {
    hide ReaderRun, Settled;
  }

  /** Over a run with any interleaving of writes and from any position, the slices are read
      from the log in order without repetition, and their lengths with the skipped bytes make
      up the distance travelled. */
  lemma {:induction false} ReaderInOrder(size: nat, r: Reader, events: seq<ReaderEvent>)
    requires size > 0 && r.slices == [] && r.skipped == 0
    ensures var t := ReaderRun(size, r, events);
            && Follows(size, Entry(size, r, events), Settled(t))
            && (if t.slices == [] then t.pos == r.pos && |r.log| <= |t.log| else t.pos <= |t.log|)
            && (r.pos <= |r.log| ==> Entry(size, r, events) == r.pos)
  {
    if |events| > 0 {
      var es, e := events[..|events| - 1], events[|events| - 1];
      ReaderInOrder(size, r, es);
      RunNext(size, r, events);
      EntryNext(size, r, events);
      var u, from := ReaderRun(size, r, es), Entry(size, r, es);
      hide ReaderRun, ReadStart, ReadBytes, Entry;
      match e
      case Wrote(data) =>
        if u.slices != [] {
          hide Follows;
          FollowsWrite(size, from, u, data);
        }
      case Read(maxLen) =>
        if maxLen > 0 {
          var slice := ReadStep(size, Settled(u), maxLen);
          SettledRead(size, u, maxLen);
          var t := ReaderStep(size, u, e);
          FollowsRead(size, from, Settled(u), t, slice);
          assert t.pos <= |t.log| && t.slices == u.slices + [slice];
        }
    }
  }

  /** The reader was given everything from one position to where it stands. */
  predicate Given(from: nat, t: Reader) {
    from <= t.pos <= |t.log| && Returned(t.slices) == t.log[from..t.pos]
  }

  lemma GivenWrite(from: nat, u: Reader, data: text)
    requires Given(from, u)
    ensures Given(from, u.(log := u.log + data))
  {
    hide Returned;
    assert (u.log + data)[from..u.pos] == u.log[from..u.pos];
  }

  lemma GivenRead(size: nat, from: nat, u: Reader, t: Reader, slice: Slice)
    requires Given(from, u) && Reads(size, u, t, slice) && slice.start == u.pos
    ensures Given(from, t)
  {
    Snoc(u.slices, slice);
    hide Returned;
    assert t.log[from..t.pos] == t.log[from..u.pos] + t.log[u.pos..t.pos];
  }

  /** Unless it was lapped, a reader has been given the log from where it began to where
      it stands: nothing twice, nothing left out. */
  lemma {:induction false} ReaderComplete(size: nat, r: Reader, events: seq<ReaderEvent>)
    requires size > 0 && r.slices == [] && r.skipped == 0
    requires ReaderRun(size, r, events).skipped == 0
    ensures Given(Entry(size, r, events), Settled(ReaderRun(size, r, events)))
  {
    if |events| > 0 {
      var es, e := events[..|events| - 1], events[|events| - 1];
      var u, from := ReaderRun(size, r, es), Entry(size, r, es);
      ReaderInOrder(size, r, es);
      ReaderInOrder(size, r, events);
      RunNext(size, r, events);
      EntryNext(size, r, events);
      assert u.skipped >= 0;
      hide ReaderRun, Follows, ReadStart, ReadBytes, Entry;
      match e
      case Wrote(data) =>
        ReaderComplete(size, r, es);
        if u.slices != [] {
          hide Given;
          GivenWrite(from, u, data);
        }
      case Read(maxLen) =>
        if maxLen > 0 {
          var slice := ReadStep(size, Settled(u), maxLen);
          SettledRead(size, u, maxLen);
          ReaderComplete(size, r, es);
          hide Given;
          GivenRead(size, from, Settled(u), ReaderStep(size, u, e), slice);
        } else {
          ReaderComplete(size, r, es);
        }
    }
  }

  // ---- flushing to stdout ------------------------------------------------------------------

  /** What the flush task prints: log bytes, or a notice that bytes were dropped. */
  datatype Output = Bytes(s: text) | Dropped(n: nat)

  datatype Flusher = Flusher(log: text, pos: nat, dropped: nat, out: seq<Output>)

  datatype FlushEvent = Logged(data: text) | Flush

  function Report(out: seq<Output>, lost: nat, chunk: text): seq<Output> {
    var noted := if lost > 0 then out + [Dropped(lost)] else out;
    if |chunk| > 0 then noted + [Bytes(chunk)] else noted
  }

  /** One turn of the flush loop: account for what was overwritten, print the next chunk. */
  function FlushStep(size: nat, f: Flusher): Flusher {
    var total := |f.log|;
    var at := if f.pos > total then total else f.pos;
    var lost := if Lapped(total, size, at) then total - size - at else 0;
    var start := at + lost;
    var n := Min(total - start, FLUSH_CHUNK);
    Flusher(f.log, start + n, f.dropped + lost, Report(f.out, lost, f.log[start..start + n]))
  }

  function FlusherStep(size: nat, f: Flusher, e: FlushEvent): Flusher {
    match e
    case Logged(data) => f.(log := f.log + data)
    case Flush => FlushStep(size, f)
  }

  function FlusherRun(size: nat, f: Flusher, events: seq<FlushEvent>): Flusher {
    if |events| == 0 then f
    else FlusherStep(size, FlusherRun(size, f, events[..|events| - 1]), events[|events| - 1])
  }

  /** How far a piece of output moves along the log. */
  function Advance(out: seq<Output>): nat {
    if |out| == 0 then 0
    else Advance(out[..|out| - 1]) + match out[|out| - 1] case Bytes(s) => |s| case Dropped(n) => n
  }

  function PrintedBytes(out: seq<Output>): nat {
    if |out| == 0 then 0
    else PrintedBytes(out[..|out| - 1]) + match out[|out| - 1] case Bytes(s) => |s| case Dropped(_) => 0
  }

  function DroppedBytes(out: seq<Output>): nat {
    if |out| == 0 then 0
    else DroppedBytes(out[..|out| - 1]) + match out[|out| - 1] case Bytes(_) => 0 case Dropped(n) => n
  }

  /** Walking the output from position boot meets the log: printed bytes are the bytes at
      the position reached, and a notice stands for exactly the bytes it skips. */
  predicate Accounts(log: text, boot: nat, out: seq<Output>) {
    if |out| == 0 then boot <= |log|
    else
      Accounts(log, boot, out[..|out| - 1]) && boot + Advance(out) <= |log| &&
      match out[|out| - 1]
      case Bytes(s) => s == log[boot + Advance(out[..|out| - 1])..boot + Advance(out)]
      case Dropped(_) => true
  }

  lemma {:induction false} AdvanceSplits(out: seq<Output>)
    ensures Advance(out) == PrintedBytes(out) + DroppedBytes(out)
  {
    if |out| > 0 {
      AdvanceSplits(out[..|out| - 1]);
    }
  }

  lemma {:induction false} AccountsGrows(log: text, data: text, boot: nat, out: seq<Output>)
    requires Accounts(log, boot, out)
    ensures Accounts(log + data, boot, out)
  {
    if |out| > 0 {
      AccountsGrows(log, data, boot, out[..|out| - 1]);
      var a, b := boot + Advance(out[..|out| - 1]), boot + Advance(out);
      assert (log + data)[a..b] == log[a..b];
    }
  }

  lemma AccountsSnoc(log: text, boot: nat, out: seq<Output>, o: Output)
    requires Accounts(log, boot, out)
    requires var a := boot + Advance(out);
             match o case Bytes(s) => a + |s| <= |log| && s == log[a..a + |s|] case Dropped(n) => a + n <= |log|
    ensures Accounts(log, boot, out + [o])
    ensures Advance(out + [o]) == Advance(out) + match o case Bytes(s) => |s| case Dropped(n) => n
    ensures DroppedBytes(out + [o]) == DroppedBytes(out) + match o case Bytes(_) => 0 case Dropped(n) => n
  {
    assert (out + [o])[..|out|] == out;
  }

  /** The flusher's books: position, drop counter and output agree about the log. */
  predicate Balanced(boot: nat, f: Flusher) {
    Accounts(f.log, boot, f.out) && f.pos == boot + Advance(f.out) <= |f.log| && f.dropped == DroppedBytes(f.out)
  }

  lemma FlushBalanced(size: nat, boot: nat, f: Flusher)
    requires size > 0 && Balanced(boot, f)
    ensures Balanced(boot, FlushStep(size, f))
  {
    hide Accounts, Advance, DroppedBytes;
    var total := |f.log|;
    var lost := if Lapped(total, size, f.pos) then total - size - f.pos else 0;
    var start := f.pos + lost;
    var n := Min(total - start, FLUSH_CHUNK);
    var chunk := f.log[start..start + n];
    var noted := Report(f.out, lost, []);
    if lost > 0 {
      AccountsSnoc(f.log, boot, f.out, Dropped(lost));
    }
    if n > 0 {
      AccountsSnoc(f.log, boot, noted, Bytes(chunk));
    }
  }

  /** Conservation over every run of writes and flush turns: the printed bytes are the log
      in order minus exactly the dropped stretches, and position, printed bytes and drop
      counter balance. */
  lemma {:induction false} FlushConserves(size: nat, f: Flusher, events: seq<FlushEvent>)
    requires size > 0 && f.pos <= |f.log| && f.dropped == 0 && f.out == []
    ensures var t := FlusherRun(size, f, events);
            Balanced(f.pos, t) && t.pos <= |t.log| &&
            t.pos - f.pos == PrintedBytes(t.out) + t.dropped
  {
    hide Accounts, Advance, DroppedBytes, FlushStep, PrintedBytes;
    var t := FlusherRun(size, f, events);
    if |events| > 0 {
      var u := FlusherRun(size, f, events[..|events| - 1]);
      FlushConserves(size, f, events[..|events| - 1]);
      match events[|events| - 1]
      case Logged(data) => AccountsGrows(u.log, data, f.pos, u.out);
      case Flush => FlushBalanced(size, f.pos, u);
    } else {
      StartBalanced(f);
    }
    AdvanceSplits(t.out);
  }

  lemma StartBalanced(f: Flusher)
    requires f.pos <= |f.log| && f.dropped == 0 && f.out == []
    ensures Balanced(f.pos, f)
  {
  }

  /** What a run logs. */
  function AllLogged(events: seq<FlushEvent>): text {
    if |events| == 0 then []
    else AllLogged(events[..|events| - 1]) +
         match events[|events| - 1] case Logged(data) => data case Flush => []
  }

  lemma {:induction false} FlusherLog(size: nat, f: Flusher, events: seq<FlushEvent>)
    ensures FlusherRun(size, f, events).log == f.log + AllLogged(events)
  {
    if |events| == 0 {
      assert f.log + [] == f.log;
    } else {
      FlusherLog(size, f, events[..|events| - 1]);
      FlushKeepsLog(size, FlusherRun(size, f, events[..|events| - 1]));
      hide FlushStep;
    }
  }

  lemma FlushKeepsLog(size: nat, f: Flusher)
    ensures FlushStep(size, f).log == f.log
  {
    hide Report;
  }

  lemma PrintedSnoc(out: seq<Output>, o: Output)
    ensures PrintedBytes(out + [o]) == PrintedBytes(out) + match o case Bytes(s) => |s| case Dropped(_) => 0
  {
    assert (out + [o])[..|out|] == out;
  }

  /** A turn that prints nothing has caught up with the log; bytes are dropped only when,
      and as many as, the ring has already overwritten them. */
  lemma FlushCatchesUp(size: nat, f: Flusher)
    requires size > 0 && f.pos <= |f.log|
    ensures var t := FlushStep(size, f);
            (t.pos == |f.log| <==> |f.log| - f.pos <= 512 || size <= 512) &&
            (t.pos < |f.log| ==> PrintedBytes(t.out) == PrintedBytes(f.out) + 512) &&
            t.dropped - f.dropped == (if |f.log| - f.pos > size then |f.log| - f.pos - size else 0)
  {
    var total := |f.log|;
    var lost := if Lapped(total, size, f.pos) then total - size - f.pos else 0;
    var start := f.pos + lost;
    var chunk := f.log[start..start + Min(total - start, FLUSH_CHUNK)];
    PrintedReport(f.out, lost, chunk);
    hide PrintedBytes, Report;
    assert FlushStep(size, f) == Flusher(f.log, start + |chunk|, f.dropped + lost, Report(f.out, lost, chunk));
  }

  lemma PrintedReport(out: seq<Output>, lost: nat, chunk: text)
    ensures PrintedBytes(Report(out, lost, chunk)) == PrintedBytes(out) + |chunk|
  {
    PrintedSnoc(out, Dropped(lost));
    PrintedSnoc(if lost > 0 then out + [Dropped(lost)] else out, Bytes(chunk));
    hide PrintedBytes;
  }

  lemma ReadBytesIs(log: text, start: nat, maxLen: nat)
    requires start <= |log|
    ensures var m := Min(|log| - start, maxLen);
            var n := LineLength(log[start..start + m]);
            ReadBytes(log, start, maxLen) == log[start..start + if n > 0 then n else m]
  {
    hide LineLength;
    var m := Min(|log| - start, maxLen);
    var n := LineLength(log[start..start + m]);
    assert log[start..start + m][..n] == log[start..start + n];
  }

  // ---- the ring under a write -------------------------------------------------------------

  /** The longest data that fits the two pieces ring_write copies: up to the end of the
      buffer, and then over the whole of it. */
  function Room(total: nat, size: nat): nat
    requires size > 0
  {
    2 * size - total % size
  }

  /** after is before with data copied in at offset off, in one piece or in two, the second
      over the first where they meet. */
  ghost predicate Copied(before: text, after: text, off: nat, data: text) {
    off < |before| == |after| && 0 < |data| <= 2 * |before| - off &&
    forall c: nat :: c < |after| ==>
      after[c] == if c + |after| < off + |data| then data[c + |after| - off]
                  else if off <= c < off + |data| then data[c - off]
                  else before[c]
  }

  lemma CellAfterWrite(before: text, after: text, log: text, data: text, p: nat)
    requires IsRing(before, log, |before|) && Copied(before, after, |log| % |before|, data)
    requires InWindow(|log| + |data|, |before|, p)
    ensures after[p % |before|] == (log + data)[p]
  {
    var size, total := |before|, |log|;
    if p >= total + size {
      CellAhead(total, p - total - size, size);
      ModShift(p - size, size);
    } else if p >= total {
      CellAhead(total, p - total, size);
    } else {
      assert InWindow(total, size, p);
      CellAhead(p, total - p, size);
    }
  }

  /** A write leaves the ring of the longer log. */
  lemma RingAfterWrite(before: text, after: text, log: text, data: text)
    requires IsRing(before, log, |before|) && Copied(before, after, |log| % |before|, data)
    ensures IsRing(after, log + data, |before|)
  {
    hide Copied;
    CopiedLength(before, after, |log| % |before|, data);
    forall p: nat | InWindow(|log + data|, |before|, p) ensures after[p % |before|] == (log + data)[p] {
      CellAfterWrite(before, after, log, data, p);
    }
  }

  lemma CopiedLength(before: text, after: text, off: nat, data: text)
    requires Copied(before, after, off, data)
    ensures |after| == |before|
  {
  }

  // ---- the code ------------------------------------------------------------------------------

  function HeaderXor(magic: bv32, lo: bv32, hi: bv32): bv32 {
    magic ^ lo ^ hi
  }

  /** calculate_header_checksum. */
  function HeaderChecksum(magic: bv32, totalWritten: nat): bv32 {
    HeaderXor(magic, (totalWritten % 0x1_0000_0000) as bv32, ((totalWritten / 0x1_0000_0000) % 0x1_0000_0000) as bv32)
  }

  /** A change of one of the three words only never keeps the checksum. */
  lemma MagicDetected(m: bv32, lo: bv32, hi: bv32, w: bv32)
    requires HeaderXor(w, lo, hi) == HeaderXor(m, lo, hi)
    ensures w == m
  {
  }

  lemma LowWordDetected(m: bv32, lo: bv32, hi: bv32, w: bv32)
    requires HeaderXor(m, w, hi) == HeaderXor(m, lo, hi)
    ensures w == lo
  {
  }

  lemma HighWordDetected(m: bv32, lo: bv32, hi: bv32, w: bv32)
    requires HeaderXor(m, lo, w) == HeaderXor(m, lo, hi)
    ensures w == hi
  {
  }

  lemma EmptyHeader()
    ensures HeaderXor(0xB17A5E10, 0, 0) == 0xB17A5E10
  {
  }

  /** The memory that survives a restart (s_header and s_buffer), the flush task's
      counters, and as ghosts the log the ring stands for, the output and the position
      at boot. Each method is one critical section of the log mutex. */
  class RingLog {
    const size: nat  // LOG_BUFFER_SIZE
    const buffer: array<byte>
    var magic: bv32
    var checksum: bv32
    var totalWritten: nat
    var stdoutPos: nat
    var stdoutDropped: nat
    ghost var log: text
    ghost var bootPos: nat
    ghost var out: seq<Output>

    /** The ring holds the end of the log, whatever state the rest is in. */
    ghost predicate RingOk()
      reads this, buffer
    {
      size > 0 && buffer.Length == size && totalWritten == |log| && IsRing(buffer[..], log, size)
    }

    predicate HeaderOk()
      reads this
    {
      magic == LOG_BUFFER_MAGIC && checksum == HeaderChecksum(magic, totalWritten)
    }

    ghost function Abstract(): Flusher
      reads this
    {
      Flusher(log, stdoutPos, stdoutDropped, out)
    }

    ghost predicate Valid()
      reads this, buffer
    {
      RingOk() && HeaderOk() && Balanced(bootPos, Abstract())
    }

    /** ring_write, for data its two copies can place. */
    method RingWrite(data: text)
      requires RingOk() && magic == LOG_BUFFER_MAGIC && HeaderOk() && |data| <= Room(|log|, size)
      modifies this`checksum, this`totalWritten, this`log, buffer
      ensures RingOk() && HeaderOk()
      ensures log == old(log) + data
    {
      hide IsRing, HeaderChecksum;
      var len: nat := |data|;
      if len == 0 {
        assert log + data == log;
        return;
      }
      ghost var before := buffer[..];
      var writeOffset := totalWritten % size;
      var tillEnd := size - writeOffset;
      if len <= tillEnd {
        forall i | 0 <= i < len {
          buffer[writeOffset + i] := data[i];
        }
      } else {
        forall i | 0 <= i < tillEnd {
          buffer[writeOffset + i] := data[i];
        }
        forall i | 0 <= i < len - tillEnd {
          buffer[i] := data[tillEnd + i];
        }
      }
      assert Copied(before, buffer[..], totalWritten % size, data);
      RingAfterWrite(before, buffer[..], log, data);
      totalWritten := totalWritten + len;
      log := log + data;
      checksum := HeaderChecksum(magic, totalWritten);
    }

    /** ring_write as log_buffer_vprintf calls it, with the whole object consistent. */
    method Write(data: text)
      requires Valid() && |data| <= Room(|log|, size)
      modifies this`checksum, this`totalWritten, this`log, buffer
      ensures Valid() && Abstract() == FlusherStep(size, old(Abstract()), Logged(data))
    {
      AccountsGrows(log, data, bootPos, out);
      RingWrite(data);
    }

    /** memcpy out of the ring with at most one wrap. */
    method CopyOut(start: nat, n: nat) returns (dest: text)
      requires RingOk() && start + n <= |log| <= start + size
      ensures dest == log[start..start + n]
    {
      var readOffset := start % size;
      var tillEnd := size - readOffset;
      if n <= tillEnd {
        dest := buffer[readOffset..readOffset + n];
      } else {
        dest := buffer[readOffset..] + buffer[..n - tillEnd];
      }
      forall i: nat | i < n ensures dest[i] == log[start + i] {
        CellAhead(start, i, size);
        assert InWindow(|log|, size, start + i);
      }
    }

    /** One turn of the inner loop of stdout_flush_task. */
    method FlushOnce() returns (readBytes: nat)
      requires Valid()
      modifies this`stdoutPos, this`stdoutDropped, this`out
      ensures Valid() && Abstract() == FlushStep(size, old(Abstract()))
      ensures readBytes == 0 <==> stdoutPos == old(stdoutPos) + (stdoutDropped - old(stdoutDropped))
    {
      hide IsRing, Accounts, Advance, DroppedBytes, HeaderChecksum;
      FlushBalanced(size, bootPos, Abstract());
      var total := totalWritten;
      var droppedNow: nat := 0;
      stdoutPos := Min(stdoutPos, total);  // never takes effect: the position stays within the log
      if total >= size && stdoutPos < total - size {
        droppedNow := total - size - stdoutPos;
        stdoutDropped := stdoutDropped + droppedNow;
        stdoutPos := total - size;
      }
      var available := total - stdoutPos;
      readBytes := if available < FLUSH_CHUNK then available else FLUSH_CHUNK;
      var chunk: text := [];
      if readBytes > 0 {
        chunk := CopyOut(stdoutPos, readBytes);
        stdoutPos := stdoutPos + readBytes;
      }
      out := Report(out, droppedNow, chunk);
    }

    /** The scan for a newline, by ring cells, over the n bytes from start. */
    method FindNewline(start: nat, n: nat) returns (length: nat)
      requires RingOk() && start + n <= |log| <= start + size
      ensures length == LineLength(log[start..start + n])
    {
      var s: text := log[start..start + n];
      var i: nat := 0;
      while i < n
        invariant i <= n && forall j :: 0 <= j < i ==> s[j] != NEWLINE
      {
        assert InWindow(|log|, size, start + i);
        if buffer[(start + i) % size] == NEWLINE {
          LineLengthUnique(s, i + 1);
          return i + 1;
        }
        i := i + 1;
      }
      LineLengthUnique(s, 0);
      length := 0;
    }

    /** The clamping and resynchronising part of log_buffer_read_absolute. */
    method FindStart(absPos: nat) returns (start: nat)
      requires RingOk()
      ensures start == ReadStart(log, size, absPos) && start <= |log| <= start + size
    {
      hide IsRing, LineLength;
      var total := totalWritten;
      start := absPos;
      if start > total {
        start := total;
      }
      if total >= size && start < total - size {
        start := total - size;
        var availableScan := total - start;
        if availableScan > SCAN_LIMIT { availableScan := SCAN_LIMIT; }
        var found := FindNewline(start, availableScan);
        start := start + found;
      }
    }

    /** log_buffer_read_absolute. */
    method ReadAbsolute(absPos: nat, maxLen: nat) returns (dest: text, newPos: nat)
      requires RingOk()
      ensures maxLen == 0 ==> dest == [] && newPos == absPos
      ensures maxLen > 0 ==> var start := ReadStart(log, size, absPos);
                             dest == ReadBytes(log, start, maxLen) && newPos == start + |dest|
    {
      hide IsRing, LineLength, ReadStart;
      if maxLen == 0 { return [], absPos; }
      var reqPos := FindStart(absPos);
      var available: nat := totalWritten - reqPos;
      var toRead := if available < maxLen then available else maxLen;
      dest := [];
      ReadBytesIs(log, reqPos, maxLen);
      hide ReadBytes;
      if toRead > 0 {
        var newlineIdx := FindNewline(reqPos, toRead);
        if newlineIdx > 0 {
          toRead := newlineIdx;
        }
        dest := CopyOut(reqPos, toRead);
      }
      newPos := reqPos + toRead;
    }

    /** Power-up memory: a buffer and header of unknown contents. Some log always agrees
        with them. */
    constructor PowerOn(buffer: array<byte>, magic: bv32, checksum: bv32, totalWritten: nat)
      requires buffer.Length > 0
      ensures RingOk() && size == buffer.Length && this.buffer == buffer
      ensures this.magic == magic && this.checksum == checksum && this.totalWritten == totalWritten
    {
      this.size, this.buffer := buffer.Length, buffer;
      this.magic, this.checksum, this.totalWritten := magic, checksum, totalWritten;
      this.stdoutPos, this.stdoutDropped := 0, 0;
      this.log := SomeLog(buffer[..], totalWritten);
      this.bootPos, this.out := 0, [];
    }

    /** A cold boot, or a header that does not check: start an empty log. */
    method ColdStart()
      requires RingOk()
      modifies this`magic, this`checksum, this`totalWritten, this`log, buffer
      ensures RingOk() && HeaderOk() && log == []
    {
      hide IsRing, HeaderChecksum;
      forall i | 0 <= i < size {
        buffer[i] := 0;
      }
      totalWritten := 0;
      magic := LOG_BUFFER_MAGIC;
      checksum := HeaderChecksum(magic, totalWritten);
      log := [];
      EmptyRing(buffer[..]);
    }

    /** The boot branch of log_buffer_init. A restart that finds the header intact keeps
        the log and adds a line to it; otherwise the log starts empty. */
    method Boot(rebootMsg: text)
      requires RingOk() && |rebootMsg| <= size
      modifies this, buffer
      ensures Valid() && out == [] && stdoutDropped == 0 && stdoutPos == bootPos == |log|
      ensures var kept := old(magic) == 0xB17A5E10 && old(checksum) == HeaderChecksum(0xB17A5E10, old(totalWritten));
              log == if kept then old(log) + rebootMsg else []
      ensures magic == 0xB17A5E10 && checksum == HeaderChecksum(0xB17A5E10, |log|)
    {
      hide IsRing, HeaderChecksum, Balanced;
      stdoutPos, stdoutDropped, out := 0, 0, [];
      if magic != LOG_BUFFER_MAGIC || checksum != HeaderChecksum(magic, totalWritten) {
        ColdStart();
      } else {
        RingWrite(rebootMsg);
        stdoutPos := totalWritten;
      }
      bootPos := stdoutPos;
      StartBalanced(Abstract());
    }
  }

  lemma EmptyRing(cells: text)
    requires |cells| > 0
    ensures IsRing(cells, [], |cells|)
  {
  }

  /** A log of the given length that a ring of any contents holds. */
  ghost function SomeLog(cells: text, total: nat): (log: text)
    requires |cells| > 0
    ensures |log| == total && IsRing(cells, log, |cells|)
  {
    seq(total, p requires 0 <= p < total => cells[p % |cells|])
  }

  lemma LineLengthUnique(s: text, n: nat)
    requires n <= |s|
    requires n > 0 ==> s[n - 1] == NEWLINE && forall i :: 0 <= i < n - 1 ==> s[i] != NEWLINE
    requires n == 0 ==> forall i :: 0 <= i < |s| ==> s[i] != NEWLINE
    ensures LineLength(s) == n
  {
    var m := LineLength(s);
    assert m > 0 ==> s[m - 1] == NEWLINE;
  }
}
