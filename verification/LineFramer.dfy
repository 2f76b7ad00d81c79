/** STRATUM_V1_receive_jsonrpc_line of stratum_api.c: reads of any size become lines. */
module LineFramer {
  import opened Wrappers
  import opened Bytes

  const BUFFER_SIZE: nat := 1024

  // ---- strings in memory ----------------------------------------------------------

  /** The bytes before the first one equal to c, or all of them. */
  function Before(s: text, c: byte): (p: text)
    ensures |p| <= |s| && p == s[..|p|]
    ensures forall i :: 0 <= i < |p| ==> p[i] != c
    ensures |p| < |s| ==> s[|p|] == c
  {
    if |s| == 0 || s[0] == c then []
    else
      assert s == [s[0]] + s[1..];
      [s[0]] + Before(s[1..], c)
  }

  lemma BeforeUnique(s: text, c: byte, n: nat)
    requires n <= |s|
    requires forall i :: 0 <= i < n ==> s[i] != c
    requires n < |s| ==> s[n] == c
    ensures Before(s, c) == s[..n]
  {
    var p := Before(s, c);
    assert |p| < |s| ==> s[|p|] == c;
  }

  lemma BeforeExtend(s: text, t: text, c: byte)
    requires |Before(s, c)| < |s|
    ensures Before(s + t, c) == Before(s, c)
  {
    var n := |Before(s, c)|;
    BeforeUnique(s + t, c, n);
    assert (s + t)[..n] == s[..n];
  }

  /** The string held by a buffer: what precedes its terminator. */
  function CString(cells: text): text {
    Before(cells, 0)
  }

  predicate NulFree(s: text) {
    forall i :: 0 <= i < |s| ==> s[i] != 0
  }

  lemma CStringPrefix(cells: text)
    ensures var s := CString(cells); |s| <= |cells| && s == cells[..|s|] && NulFree(s)
  {
  }

  /** The string of cells that end in a NUL after n other bytes. */
  lemma TextOf(cells: text, n: nat)
    requires n < |cells| && cells[n] == 0 && NulFree(cells[..n])
    ensures CString(cells) == cells[..n]
  {
    assert forall i :: 0 <= i < n ==> cells[i] == cells[..n][i];
    BeforeUnique(cells, 0, n);
  }

  lemma NulFreeWhole(s: text)
    requires NulFree(s)
    ensures CString(s) == s
  {
    BeforeUnique(s, 0, |s|);
    assert s[..|s|] == s;
  }

  // ---- what a call returns ----------------------------------------------------------

  /** One esp_transport_read: an error, or the bytes it delivered (none on a timeout). */
  datatype Read = Error | Data(bytes: text)

  /** A call returns a line or fails; it is still waiting when it has used all the reads
      there are. */
  datatype Outcome = Line(line: text) | Failed | Waiting

  datatype Result = Result(outcome: Outcome, pending: text, rest: seq<Read>)

  /** pending is the buffered text, and what a byte stream becomes on the way into it:
      strncat copies a read up to its first NUL. */
  function Receive(pending: text, chunks: seq<Read>): Result
    decreases |chunks|
  {
    var line := Before(pending, NEWLINE);
    if |line| < |pending| then Result(Line(line), pending[|line| + 1..], chunks)
    else if |chunks| == 0 then Result(Waiting, pending, [])
    else match chunks[0]
         case Error => Result(Failed, [], chunks[1..])
         case Data(bytes) => Receive(pending + CString(bytes), chunks[1..])
  }

  /** Reads that deliver a NUL-free stream without failing. */
  predicate CleanReads(chunks: seq<Read>) {
    forall i :: 0 <= i < |chunks| ==> chunks[i].Data? && NulFree(chunks[i].bytes)
  }

  function Stream(chunks: seq<Read>): text {
    if |chunks| == 0 then []
    else (match chunks[0] case Data(bytes) => bytes case Error => []) + Stream(chunks[1..])
  }

  lemma StreamNext(pending: text, chunks: seq<Read>)
    requires |chunks| > 0 && CleanReads(chunks)
    ensures pending + Stream(chunks) == (pending + chunks[0].bytes) + Stream(chunks[1..])
  {
  }

  /** A call depends on the stream alone, not on how it is cut into reads: it returns the
      first line of what is buffered and to come, and leaves the rest. */
  predicate ByStream(all: text, r: Result) {
    var line := Before(all, NEWLINE);
    CleanReads(r.rest) &&
    if |line| < |all| then r.outcome == Line(line) && r.pending + Stream(r.rest) == all[|line| + 1..]
    else r.outcome == Waiting && r.pending == all && r.rest == []
  }

  lemma {:induction false} ReceiveByStream(pending: text, chunks: seq<Read>)
    requires CleanReads(chunks)
    ensures ByStream(pending + Stream(chunks), Receive(pending, chunks))
    decreases |chunks|
  {
    hide ByStream;
    var head := Before(pending, NEWLINE);
    if |head| < |pending| {
      LineBuffered(pending, chunks);
    } else if |chunks| == 0 {
      NothingMore(pending);
      assert pending + Stream(chunks) == pending;
    } else {
      NulFreeWhole(chunks[0].bytes);
      ReceiveByStream(pending + chunks[0].bytes, chunks[1..]);
      StreamNext(pending, chunks);
    }
  }

  lemma TailOf(s: text, t: text, n: nat)
    requires n <= |s|
    ensures (s + t)[n..] == s[n..] + t
  {
  }

  lemma LineBuffered(pending: text, chunks: seq<Read>)
    requires CleanReads(chunks) && |Before(pending, NEWLINE)| < |pending|
    ensures ByStream(pending + Stream(chunks),
                     Result(Line(Before(pending, NEWLINE)), pending[|Before(pending, NEWLINE)| + 1..], chunks))
  {
    var n := |Before(pending, NEWLINE)|;
    BeforeExtend(pending, Stream(chunks), NEWLINE);
    TailOf(pending, Stream(chunks), n + 1);
    hide Before, Stream, CleanReads, NulFree;
  }

  lemma NothingMore(pending: text)
    requires |Before(pending, NEWLINE)| == |pending|
    ensures ByStream(pending, Result(Waiting, pending, []))
  {
  }

  // ---- a sequence of calls -------------------------------------------------------------

  /** The lines n successive calls return, for as long as each returns one. */
  function ReceiveLines(pending: text, chunks: seq<Read>, n: nat): (r: (seq<text>, text, seq<Read>))
    decreases n
  {
    if n == 0 then ([], pending, chunks)
    else
      var r := Receive(pending, chunks);
      match r.outcome
      case Line(line) =>
        var (lines, p, rest) := ReceiveLines(r.pending, r.rest, n - 1);
        ([line] + lines, p, rest)
      case _ => ([], r.pending, r.rest)
  }

  /** The newline-terminated segments of a text, at most n of them, and what follows. */
  function Segments(s: text, n: nat): (r: (seq<text>, text))
    decreases n
  {
    var line := Before(s, NEWLINE);
    if n == 0 || |line| == |s| then ([], s)
    else
      var (lines, rest) := Segments(s[|line| + 1..], n - 1);
      ([line] + lines, rest)
  }

  /** Lines, each with its newline. */
  function Terminated(lines: seq<text>): text {
    if |lines| == 0 then [] else lines[0] + [10] + Terminated(lines[1..])
  }

  predicate NoNewline(s: text) {
    forall i :: 0 <= i < |s| ==> s[i] != 10
  }

  /** The lines and the rest are the text; no line has a newline in it, and if there are fewer
      than n, the rest has none either. */
  predicate Segmented(s: text, n: nat, lines: seq<text>, rest: text) {
    && s == Terminated(lines) + rest && |lines| <= n
    && (forall i :: 0 <= i < |lines| ==> NoNewline(lines[i]))
    && (|lines| < n ==> NoNewline(rest))
  }

  lemma {:induction false} SegmentsExact(s: text, n: nat)
    ensures Segmented(s, n, Segments(s, n).0, Segments(s, n).1)
    decreases n
  {
    hide *;
    if n > 0 && |Before(s, NEWLINE)| < |s| {
      var line, tail := Before(s, NEWLINE), s[|Before(s, NEWLINE)| + 1..];
      var lines, rest := Segments(tail, n - 1).0, Segments(tail, n - 1).1;
      SegmentsExact(tail, n - 1);
      FirstSegment(s, n);
      LineInFront(line, tail, n - 1, lines, rest);
    } else {
      NoSegment(s, n);
    }
  }

  lemma FirstSegment(s: text, n: nat)
    requires n > 0 && |Before(s, NEWLINE)| < |s|
    ensures var line, tail := Before(s, NEWLINE), s[|Before(s, NEWLINE)| + 1..];
            s == line + [10] + tail && NoNewline(line) &&
            Segments(s, n).0 == [line] + Segments(tail, n - 1).0 && Segments(s, n).1 == Segments(tail, n - 1).1
  {
    var line, tail := Before(s, NEWLINE), s[|Before(s, NEWLINE)| + 1..];
    hide Before;
    assert s == line + [10] + tail;
  }

  lemma NoSegment(s: text, n: nat)
    requires n == 0 || |Before(s, NEWLINE)| == |s|
    ensures Segmented(s, n, Segments(s, n).0, Segments(s, n).1)
  {
    hide Before;
  }

  lemma LineInFront(line: text, tail: text, n: nat, lines: seq<text>, rest: text)
    requires NoNewline(line) && Segmented(tail, n, lines, rest)
    ensures Segmented(line + [10] + tail, n + 1, [line] + lines, rest)
  {
    hide NoNewline;
    assert ([line] + lines)[1..] == lines;
    assert line + [10] + tail == (line + [10] + Terminated(lines)) + rest;
  }

  /** An error drops the line that had begun, and nothing that comes later. */
  lemma {:induction false} ErrorDropsLine(pending: text, chunks: seq<Read>, later: seq<Read>)
    requires CleanReads(chunks)
    requires forall i :: 0 <= i < |pending + Stream(chunks)| ==> (pending + Stream(chunks))[i] != 10
    ensures Receive(pending, chunks + [Error] + later) == Result(Failed, [], later)
    decreases |chunks|
  {
    var all := chunks + [Error] + later;
    assert forall i :: 0 <= i < |pending| ==> pending[i] == (pending + Stream(chunks))[i];
    BeforeUnique(pending, NEWLINE, |pending|);
    if |chunks| == 0 {
      assert all[0] == Error && all[1..] == later;
    } else {
      NulFreeWhole(chunks[0].bytes);
      StreamNext(pending, chunks);
      assert all[0] == chunks[0] && all[1..] == chunks[1..] + [Error] + later;
      ErrorDropsLine(pending + chunks[0].bytes, chunks[1..], later);
    }
  }

  /** Framing: however a NUL-free stream is cut into reads, n calls return its first n
      newline-terminated segments (all of them, if there are fewer), and buffered text and
      unread stream together are exactly what has not been delivered. */
  lemma {:induction false} LinesAreSegments(pending: text, chunks: seq<Read>, n: nat)
    requires CleanReads(chunks)
    ensures var (lines, p, rest) := ReceiveLines(pending, chunks, n);
            Segments(pending + Stream(chunks), n) == (lines, p + Stream(rest))
    decreases n
  {
    hide Receive, Before, CleanReads;
    if n > 0 {
      ReceiveByStream(pending, chunks);
      var r := Receive(pending, chunks);
      if r.outcome.Line? {
        LinesAreSegments(r.pending, r.rest, n - 1);
      } else {
        EmptyStream(r.pending);
      }
    }
  }

  lemma EmptyStream(p: text)
    ensures p + Stream([]) == p
  {
  }

  /** A read's bytes after a NUL never reach the buffer. */
  lemma NulDropsTail(pending: text, s: text, t: text, chunks: seq<Read>)
    requires NulFree(s) && |Before(pending, NEWLINE)| == |pending|
    ensures Receive(pending, [Data(s + [0] + t)] + chunks) == Receive(pending + s, chunks)
  {
    BeforeUnique(s + [0] + t, 0, |s|);
    assert (s + [0] + t)[..|s|] == s;
    assert ([Data(s + [0] + t)] + chunks)[1..] == chunks;
  }

  /** So with a NUL in the stream the lines depend on where the reads end. */
  lemma NulDependsOnChunks() returns (a: seq<Read>, b: seq<Read>)
    ensures Stream(a) == Stream(b)
    ensures ReceiveLines([], a, 1).0 != ReceiveLines([], b, 1).0
  {
    var s: text, t: text := [65], [66, NEWLINE];
    a := [Data(s + [0] + t)];
    b := [Data(s + [0] + []), Data(t)];
    SameStream(s, t);
    assert a == [Data(s + [0] + t)] + [];
    assert b == [Data(s + [0] + [])] + [Data(t)];
    assert [] + s == s;
    NulDropsTail([], s, t, []);
    NulDropsTail([], s, [], [Data(t)]);
    OneMoreRead();
    hide Stream, Receive, Before, CString;
  }

  lemma SameStream(s: text, t: text)
    ensures Stream([Data(s + [0] + t)]) == Stream([Data(s + [0] + []), Data(t)])
  {
    assert Stream([Data(s + [0] + t)]) == s + [0] + t;
    var b := [Data(s + [0] + []), Data(t)];
    assert b[1..] == [Data(t)] && b[1..][1..] == [];
    assert s + [0] + t == (s + [0] + []) + t;
  }

  lemma OneMoreRead()
    ensures Receive([65], []).outcome == Waiting && Receive([65], [Data([66, NEWLINE])]).outcome.Line?
  {
    var s: text, t: text := [65], [66, NEWLINE];
    BeforeUnique(s, NEWLINE, 1);
    NulFreeWhole(t);
    BeforeUnique(s + t, NEWLINE, 2);
    hide Before, CString;
    assert Receive(s + t, [Data(t)][1..]).outcome.Line?;
  }

  // ---- the code -------------------------------------------------------------------------

  /** strlen. */
  method StrLen(cells: array<byte>) returns (n: nat)
    requires |CString(cells[..])| < cells.Length
    ensures n == |CString(cells[..])|
  {
    n := 0;
    while cells[n] != 0
      invariant n <= |CString(cells[..])|
      decreases cells.Length - n
    {
      n := n + 1;
    }
  }

  /** strchr for a newline: the number of bytes before it, or the length without one. */
  method FindNewline(cells: array<byte>, len: nat) returns (n: nat)
    requires len == |CString(cells[..])| < cells.Length
    ensures n == |Before(CString(cells[..]), NEWLINE)|
  {
    ghost var s := CString(cells[..]);
    n := 0;
    while n < len && cells[n] != NEWLINE
      invariant n <= len && forall i :: 0 <= i < n ==> s[i] != NEWLINE
    {
      n := n + 1;
    }
    BeforeUnique(s, NEWLINE, n);
  }

  /** json_rpc_buffer and json_rpc_buffer_size; a null buffer is initialized on the next
      call. */
  class JsonRpcBuffer {
    var buffer: array?<byte>
    var size: nat

    ghost predicate Valid()
      reads this, buffer
    {
      buffer != null ==> size == buffer.Length && |CString(buffer[..])| < size
    }

    /** The text buffered. */
    ghost function Pending(): text
      reads this, buffer
    {
      if buffer == null then [] else CString(buffer[..])
    }

    constructor ()
      ensures Valid() && Pending() == []
    {
      buffer, size := null, 0;
    }

    /** STRATUM_V1_initialize_buffer. */
    method Initialize()
      modifies this
      ensures Valid() && buffer != null && fresh(buffer) && Pending() == []
    {
      buffer := new byte[BUFFER_SIZE](_ => 0);
      size := BUFFER_SIZE;
      BeforeUnique(buffer[..], 0, 0);
    }

    /** realloc_json_buffer: afterwards len more bytes and a terminator fit. */
    method Reserve(len: nat)
      requires Valid() && buffer != null
      modifies this
      ensures Valid() && buffer != null && (buffer == old(buffer) || fresh(buffer))
      ensures Pending() == old(Pending()) && |Pending()| + len + 1 <= size
    {
      var oldLen := StrLen(buffer);
      var newSize := oldLen + len + 1;
      if newSize < size { return; }
      newSize := newSize + (BUFFER_SIZE - newSize % BUFFER_SIZE);
      var was := buffer;
      var bigger := new byte[newSize](i => 0);
      forall i | 0 <= i < oldLen {
        bigger[i] := was[i];
      }
      BeforeUnique(bigger[..], 0, oldLen);
      assert bigger[..oldLen] == was[..oldLen];
      buffer, size := bigger, newSize;
    }

    /** strncat of a read. */
    method Append(bytes: text)
      requires Valid() && buffer != null && |Pending()| + |bytes| + 1 <= size
      modifies buffer
      ensures Valid() && Pending() == old(Pending()) + CString(bytes)
    {
      var len := StrLen(buffer);
      ghost var before := buffer[..];
      var n := |CString(bytes)|;
      forall i | 0 <= i < n {
        buffer[len + i] := bytes[i];
      }
      buffer[len + n] := 0;
      assert buffer[..len] == before[..len];
      assert buffer[..len + n] == CString(before) + CString(bytes);
      BeforeUnique(buffer[..], 0, len + n);
    }

    /** memmove of the last bytes to the front, and their terminator. */
    method MoveToFront(from: nat, count: nat)
      requires buffer != null && from > 0 && from + count < buffer.Length
      modifies buffer
      ensures buffer[..count] == old(buffer[from..from + count]) && buffer[count] == 0
    {
      forall i | 0 <= i < count {
        buffer[i] := buffer[from + i];
      }
      buffer[count] := 0;
    }

    /** The end of the function: copy out the line and move the rest to the front. */
    method TakeLine() returns (line: text)
      requires Valid() && buffer != null && |Before(Pending(), NEWLINE)| < |Pending()|
      modifies buffer
      ensures Valid() && line == Before(old(Pending()), NEWLINE)
      ensures Pending() == old(Pending())[|line| + 1..]
    {
      hide Before, CString;
      var bufLen := StrLen(buffer);
      var lineLen := FindNewline(buffer, bufLen);
      ghost var s := Pending();
      CStringPrefix(buffer[..]);
      line := buffer[..lineLen];
      assert line == s[..lineLen];
      var remaining := bufLen - lineLen - 1;
      assert buffer[lineLen + 1..lineLen + 1 + remaining] == s[lineLen + 1..];
      MoveToFront(lineLen + 1, remaining);
      TextOf(buffer[..], remaining);
    }

    /** STRATUM_V1_receive_jsonrpc_line, given the reads the transport will deliver. */
    method ReceiveLine(chunks: seq<Read>) returns (outcome: Outcome, rest: seq<Read>)
      requires Valid()
      modifies this, buffer
      ensures Valid() && (buffer == null || buffer == old(buffer) || fresh(buffer))
      ensures Result(outcome, Pending(), rest) == Receive(old(Pending()), chunks)
    {
      hide CString, Before, Receive;
      if buffer == null {
        Initialize();
      }
      ghost var expected := Receive(old(Pending()), chunks);
      rest := chunks;
      var len := StrLen(buffer);
      var lineLen := FindNewline(buffer, len);
      while lineLen == len
        invariant Valid() && buffer != null && (buffer == old(buffer) || fresh(buffer))
        invariant len == |Pending()| && lineLen == |Before(Pending(), NEWLINE)|
        invariant Receive(Pending(), rest) == expected
        decreases |rest|
      {
        ReceiveCases(Pending(), rest);
        if |rest| == 0 {
          return Waiting, rest;
        }
        var read := rest[0];
        rest := rest[1..];
        if read.Error? {
          buffer := null;
          return Failed, rest;
        }
        if |read.bytes| > 0 {
          Reserve(|read.bytes|);
          Append(read.bytes);
        } else {
          NulFreeWhole(read.bytes);
          assert Pending() + read.bytes == Pending();
        }
        len := StrLen(buffer);
        lineLen := FindNewline(buffer, len);
      }
      ReceiveCases(Pending(), rest);
      var line := TakeLine();
      outcome := Line(line);
    }
  }

  /** The cases of one turn of the read loop. */
  lemma ReceiveCases(pending: text, chunks: seq<Read>)
    ensures var n := |Before(pending, NEWLINE)|;
            Receive(pending, chunks) ==
            if n < |pending| then Result(Line(Before(pending, NEWLINE)), pending[n + 1..], chunks)
            else if |chunks| == 0 then Result(Waiting, pending, [])
            else if chunks[0].Error? then Result(Failed, [], chunks[1..])
            else Receive(pending + CString(chunks[0].bytes), chunks[1..])
  {
  }
}
