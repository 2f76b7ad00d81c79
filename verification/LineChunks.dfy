/** Exactly when the lines STRATUM_V1_receive_jsonrpc_line returns do not depend on how the
    connection cuts its bytes into reads. */
module LineChunks {
  import opened Bytes
  import opened LineFramer

  /** Reads that deliver something without failing, each as long as the buffer allows. */
  predicate Delivered(chunks: seq<Read>) {
    forall i :: 0 <= i < |chunks| ==> chunks[i].Data? && |chunks[i].bytes| < BUFFER_SIZE
  }

  /** Two ways of cutting the stream s give n calls the same lines. */
  ghost predicate SameLines(s: text, a: seq<Read>, b: seq<Read>, n: nat) {
    Delivered(a) && Delivered(b) && Stream(a) == s && Stream(b) == s ==>
      ReceiveLines([], a, n).0 == ReceiveLines([], b, n).0
  }

  ghost predicate Independent(s: text) {
    forall a: seq<Read>, b: seq<Read>, n: nat :: SameLines(s, a, b, n)
  }

  predicate NulThenNewline(s: text, i: nat, j: nat) {
    i < j < |s| && s[i] == 0 && s[j] == NEWLINE
  }

  // ---- what reaches the buffer ---------------------------------------------------------

  /** The reads cut at their first NUL. */
  function Kept(chunks: seq<Read>): (kept: seq<Read>)
    ensures |kept| == |chunks|
  {
    if |chunks| == 0 then []
    else [match chunks[0] case Data(bytes) => Data(CString(bytes)) case Error => Error] + Kept(chunks[1..])
  }

  predicate AllData(chunks: seq<Read>) {
    forall i :: 0 <= i < |chunks| ==> chunks[i].Data?
  }

  lemma {:induction false} KeptClean(chunks: seq<Read>)
    requires AllData(chunks)
    ensures CleanReads(Kept(chunks))
  {
    if |chunks| > 0 { KeptClean(chunks[1..]); }
  }

  lemma CStringTwice(s: text)
    ensures CString(CString(s)) == CString(s)
  {
    NulFreeWhole(CString(s));
  }

  lemma {:induction false} ReceiveKept(pending: text, chunks: seq<Read>)
    requires AllData(chunks)
    ensures AllData(Receive(pending, chunks).rest)
    ensures var r := Receive(pending, chunks);
            Receive(pending, Kept(chunks)) == Result(r.outcome, r.pending, Kept(r.rest))
    decreases |chunks|
  {
    if |Before(pending, NEWLINE)| == |pending| && |chunks| > 0 {
      var kept := Kept(chunks);
      assert kept[1..] == Kept(chunks[1..]);
      CStringTwice(chunks[0].bytes);
      ReceiveKept(pending + CString(chunks[0].bytes), chunks[1..]);
    }
  }

  lemma {:induction false} LinesKept(pending: text, chunks: seq<Read>, n: nat)
    requires AllData(chunks)
    ensures ReceiveLines(pending, Kept(chunks), n).0 == ReceiveLines(pending, chunks, n).0
    decreases n
  {
    if n > 0 {
      ReceiveKept(pending, chunks);
      var r := Receive(pending, chunks);
      hide Receive, Kept;
      if r.outcome.Line? { LinesKept(r.pending, r.rest, n - 1); }
    }
  }

  /** So the lines are the segments of what is kept of the reads. */
  lemma LinesOfKept(chunks: seq<Read>, n: nat)
    requires AllData(chunks)
    ensures ReceiveLines([], chunks, n).0 == Segments(Stream(Kept(chunks)), n).0
  {
    LinesKept([], chunks, n);
    KeptClean(chunks);
    LinesAreSegments([], Kept(chunks), n);
    assert [] + Stream(Kept(chunks)) == Stream(Kept(chunks));
  }

  // ---- no newline after a NUL --------------------------------------------------------------

  predicate NewlineFree(s: text) {
    forall i :: 0 <= i < |s| ==> s[i] != NEWLINE
  }

  /** What follows the first NUL of a stream, from that NUL on. */
  function Behind(s: text): text {
    s[|CString(s)|..]
  }

  /** However it is cut, what is kept of a stream is what precedes its first NUL and then
      some text u, which can only have newlines if there are some behind the NUL. */
  lemma {:induction false} KeptStream(chunks: seq<Read>) returns (u: text)
    requires AllData(chunks)
    ensures Stream(Kept(chunks)) == CString(Stream(chunks)) + u
    ensures NewlineFree(Behind(Stream(chunks))) ==> NewlineFree(u)
  {
    if |chunks| == 0 {
      u := [];
    } else {
      var s, rest := chunks[0].bytes, Stream(chunks[1..]);
      var v := KeptStream(chunks[1..]);
      KeptFirst(chunks);
      assert Stream(chunks) == s + rest;
      hide Stream, Kept;
      u := Joined(s, rest, v);
    }
  }

  lemma Joined(s: text, rest: text, v: text) returns (u: text)
    requires NewlineFree(Behind(rest)) ==> NewlineFree(v)
    ensures CString(s) + (CString(rest) + v) == CString(s + rest) + u
    ensures NewlineFree(Behind(s + rest)) ==> NewlineFree(u)
  {
    CStringConcat(s, rest);
    if NulFree(s) {
      NulFreeWhole(s);
      u := v;
      assert Behind(s + rest) == Behind(rest);
      AssociateThree(s, CString(rest), v);
    } else {
      u := CString(rest) + v;
      BehindNul(s, rest);
      assert rest == CString(rest) + Behind(rest);
      hide CString, Behind;
      if NewlineFree(Behind(s + rest)) {
        SuffixFree(Behind(s), rest);
        SuffixFree(CString(rest), Behind(rest));
        BothFree(CString(rest), v);
      }
    }
  }

  lemma BehindNul(s: text, rest: text)
    requires !NulFree(s)
    ensures Behind(s + rest) == Behind(s) + rest
  {
    CStringConcat(s, rest);
    CStringPrefix(s);
    hide CString;
    var z := |CString(s)|;
    assert (s + rest)[z..] == s[z..] + rest;
  }

  lemma BothFree(s: text, t: text)
    requires NewlineFree(s) && NewlineFree(t)
    ensures NewlineFree(s + t)
  {
  }

  lemma SuffixFree(s: text, t: text)
    requires NewlineFree(s + t)
    ensures NewlineFree(s) && NewlineFree(t)
  {
    assert forall i :: 0 <= i < |t| ==> t[i] == (s + t)[|s| + i];
    assert forall i :: 0 <= i < |s| ==> s[i] == (s + t)[i];
  }

  lemma KeptFirst(chunks: seq<Read>)
    requires |chunks| > 0 && chunks[0].Data?
    ensures Stream(Kept(chunks)) == CString(chunks[0].bytes) + Stream(Kept(chunks[1..]))
  {
    assert Kept(chunks)[1..] == Kept(chunks[1..]);
  }

  lemma CStringConcat(s: text, t: text)
    ensures CString(s + t) == if NulFree(s) then s + CString(t) else CString(s)
  {
    if NulFree(s) {
      BeforeUnique(s + t, 0, |s| + |CString(t)|);
      assert (s + t)[..|s| + |CString(t)|] == s + CString(t);
    } else {
      BeforeExtend(s, t, 0);
    }
  }

  lemma {:induction false} SegmentsIgnore(s: text, u: text, n: nat)
    requires NewlineFree(u)
    ensures Segments(s + u, n).0 == Segments(s, n).0
    decreases n
  {
    var line := Before(s, NEWLINE);
    if n == 0 {
    } else if |line| < |s| {
      BeforeExtend(s, u, NEWLINE);
      hide Before;
      var m := |line| + 1;
      assert (s + u)[m..] == s[m..] + u;
      SegmentsIgnore(s[m..], u, n - 1);
      hide NewlineFree;
    } else {
      BeforeUnique(s + u, NEWLINE, |s + u|);
    }
  }

  /** With no newline after a NUL the lines are the segments before the first NUL. */
  lemma NoNewlineAfterNul(s: text, chunks: seq<Read>, n: nat)
    requires AllData(chunks) && Stream(chunks) == s
    requires forall i: nat, j: nat :: !NulThenNewline(s, i, j)
    ensures ReceiveLines([], chunks, n).0 == Segments(CString(s), n).0
  {
    LinesOfKept(chunks, n);
    var u := KeptStream(chunks);
    var z := |CString(s)|;
    hide ReceiveLines, Segments, Stream, Kept;
    forall k | 0 <= k < |Behind(s)| ensures Behind(s)[k] != NEWLINE {
      assert Behind(s)[k] == s[z + k];
      assert !NulThenNewline(s, z, z + k);
    }
    SegmentsIgnore(CString(s), u, n);
  }

  /** So then two ways of cutting one stream into reads of any size give the same lines. */
  lemma ChunkIndependent(a: seq<Read>, b: seq<Read>, n: nat)
    requires AllData(a) && AllData(b) && Stream(a) == Stream(b)
    requires forall i: nat, j: nat :: !NulThenNewline(Stream(a), i, j)
    ensures ReceiveLines([], a, n).0 == ReceiveLines([], b, n).0
  {
    NoNewlineAfterNul(Stream(a), a, n);
    NoNewlineAfterNul(Stream(b), b, n);
  }

  // ---- a newline after a NUL ----------------------------------------------------------------

  /** The bytes of s that are not NUL. */
  function NonNuls(s: text): (t: text)
    ensures NulFree(t)
  {
    if |s| == 0 then []
    else if s[0] == 0 then NonNuls(s[1..])
    else [s[0]] + NonNuls(s[1..])
  }

  /** One read for each byte. */
  function Singles(s: text): (chunks: seq<Read>)
    ensures Delivered(chunks)
  {
    if |s| == 0 then [] else [Data([s[0]])] + Singles(s[1..])
  }

  lemma StreamCons(bytes: text, rest: seq<Read>)
    ensures Stream([Data(bytes)] + rest) == bytes + Stream(rest)
    ensures Stream(Kept([Data(bytes)] + rest)) == CString(bytes) + Stream(Kept(rest))
  {
    var chunks := [Data(bytes)] + rest;
    KeptFirst(chunks);
    hide Kept, CString;
    assert chunks[1..] == rest;
  }

  lemma {:induction false} SinglesStream(s: text)
    ensures Stream(Singles(s)) == s && Stream(Kept(Singles(s))) == NonNuls(s)
  {
    if |s| > 0 {
      var c, rest := s[0], s[1..];
      SinglesStream(rest);
      StreamCons([c], Singles(rest));
      BeforeUnique([c], 0, if c == 0 then 0 else 1);
      assert s == [c] + rest;
      assert Singles(s) == [Data([c])] + Singles(rest);
      hide Stream, Kept, Singles;
    }
  }

  lemma {:induction false} StreamConcat(a: seq<Read>, b: seq<Read>)
    ensures Stream(a + b) == Stream(a) + Stream(b)
  {
    if |a| == 0 {
      assert a + b == b;
    } else {
      assert (a + b)[1..] == a[1..] + b;
      StreamConcat(a[1..], b);
    }
  }

  lemma {:induction false} KeptConcat(a: seq<Read>, b: seq<Read>)
    ensures Kept(a + b) == Kept(a) + Kept(b)
  {
    hide CString;
    if |a| == 0 {
      assert a + b == b;
    } else {
      assert (a + b)[1..] == a[1..] + b;
      KeptConcat(a[1..], b);
    }
  }

  lemma {:induction false} NonNulsConcat(s: text, t: text)
    ensures NonNuls(s + t) == NonNuls(s) + NonNuls(t)
  {
    if |s| == 0 {
      assert s + t == t;
    } else {
      assert (s + t)[1..] == s[1..] + t;
      NonNulsConcat(s[1..], t);
    }
  }

  lemma {:induction false} NonNulsKeepNewline(s: text, j: nat)
    requires j < |s| && s[j] == NEWLINE
    ensures !NewlineFree(NonNuls(s))
  {
    var t := NonNuls(s);
    if j == 0 {
      assert t[0] == NEWLINE;
    } else {
      NonNulsKeepNewline(s[1..], j - 1);
      var u := NonNuls(s[1..]);
      var k :| 0 <= k < |u| && u[k] == NEWLINE;
      assert s[0] != 0 ==> t[k + 1] == NEWLINE;
    }
  }

  /** Bytes that lines take from a stream, their newlines included. */
  function Taken(lines: seq<text>): nat {
    if |lines| == 0 then 0 else |lines[0]| + 1 + Taken(lines[1..])
  }

  /** All the segments of a text end with its last newline. */
  predicate EndsAt(t: text, k: nat) {
    k <= |t| && NewlineFree(t[k..]) && (k > 0 ==> t[k - 1] == NEWLINE)
  }

  lemma EndsLater(t: text, m: nat, k: nat)
    requires 0 < m <= |t| && t[m - 1] == NEWLINE && EndsAt(t[m..], k)
    ensures EndsAt(t, m + k)
  {
    assert t[m + k..] == t[m..][k..];
    assert k > 0 ==> t[m + k - 1] == t[m..][k - 1];
  }

  lemma EndsNowhere(t: text)
    requires |Before(t, NEWLINE)| == |t|
    ensures EndsAt(t, 0)
  {
    assert t[0..] == t;
  }

  lemma TakenFirst(t: text, n: nat)
    requires n > 0
    ensures var m := |Before(t, NEWLINE)| + 1;
            Taken(Segments(t, n).0) == if m > |t| then 0 else m + Taken(Segments(t[m..], n - 1).0)
  {
    var line := Before(t, NEWLINE);
    if |line| < |t| {
      var lines := Segments(t[|line| + 1..], n - 1).0;
      hide Before;
      assert ([line] + lines)[1..] == lines;
    }
  }

  /** The segments of t end nowhere, or after a first line of m bytes. */
  lemma FirstLine(t: text, n: nat) returns (m: nat)
    requires n > 0
    ensures m == 0 ==> EndsAt(t, 0) && Taken(Segments(t, n).0) == 0
    ensures m > 0 ==> m <= |t| && t[m - 1] == NEWLINE && Taken(Segments(t, n).0) == m + Taken(Segments(t[m..], n - 1).0)
  {
    TakenFirst(t, n);
    hide Segments, Taken, EndsAt;
    m := |Before(t, NEWLINE)| + 1;
    if m > |t| {
      EndsNowhere(t);
      m := 0;
    }
  }

  lemma {:induction false} SegmentsTake(t: text, n: nat)
    requires n > |t|
    ensures EndsAt(t, Taken(Segments(t, n).0))
    decreases n
  {
    hide Segments, Taken, EndsAt;
    var m := FirstLine(t, n);
    if m > 0 {
      SegmentsTake(t[m..], n - 1);
      EndsLater(t, m, Taken(Segments(t[m..], n - 1).0));
    }
  }

  /** Dropping one byte changes the segments if it is a newline or one comes later. */
  lemma DroppedByte(x: text, c: byte, y: text, n: nat)
    requires c == NEWLINE || !NewlineFree(y)
    requires n > |x| + 1 + |y|
    ensures Segments(x + [c] + y, n).0 != Segments(x + y, n).0
  {
    var longer, shorter := x + [c] + y, x + y;
    SegmentsTake(longer, n);
    SegmentsTake(shorter, n);
    var k := Taken(Segments(longer, n).0);
    hide Segments;
    if k == Taken(Segments(shorter, n).0) {
      LastNewlineMoves(x, c, y, k);
    }
  }

  lemma LastNewlineMoves(x: text, c: byte, y: text, k: nat)
    requires c == NEWLINE || !NewlineFree(y)
    requires k <= |x + y| && (k > 0 ==> (x + y)[k - 1] == NEWLINE)
    ensures !NewlineFree((x + [c] + y)[k..])
  {
    var longer := x + [c] + y;
    if k > |x| {
      assert longer[k..][0] == y[k - 1 - |x|];
    } else if c == NEWLINE {
      assert longer[k..][|x| - k] == c;
    } else {
      var q :| 0 <= q < |y| && y[q] == NEWLINE;
      assert longer[k..][|x| + 1 + q - k] == y[q];
    }
  }

  /** The last NUL before a newline. */
  lemma {:induction false} LastNul(s: text, i: nat, j: nat) returns (k: nat)
    requires NulThenNewline(s, i, j)
    ensures k < j && s[k] == 0 && s[k + 1] != 0
    decreases j - i
  {
    if s[i + 1] != 0 { k := i; } else { k := LastNul(s, i + 1, j); }
  }

  /** A NUL and the byte after it in one read, all other bytes alone: that byte is lost. */
  function Paired(s: text, k: nat): (chunks: seq<Read>)
    requires k + 1 < |s|
    ensures Delivered(chunks)
  {
    Singles(s[..k]) + ([Data(s[k..k + 2])] + Singles(s[k + 2..]))
  }

  lemma PairedStream(s: text, k: nat)
    requires k + 1 < |s| && s[k] == 0
    ensures Stream(Paired(s, k)) == s
    ensures Stream(Kept(Paired(s, k))) == NonNuls(s[..k]) + NonNuls(s[k + 2..])
  {
    var x, pair, y := s[..k], s[k..k + 2], s[k + 2..];
    var first, later := Singles(x), [Data(pair)] + Singles(y);
    PairStream(pair, y);
    SinglesStream(x);
    StreamConcat(first, later);
    KeptConcat(first, later);
    StreamConcat(Kept(first), Kept(later));
    ThreeParts(s, k);
    hide Singles, NonNuls, Kept, Stream;
  }

  lemma ThreeParts(s: text, k: nat)
    requires k + 1 < |s|
    ensures s == s[..k] + (s[k..k + 2] + s[k + 2..])
  {
  }

  lemma PairStream(pair: text, y: text)
    requires |pair| > 0 && pair[0] == 0
    ensures Stream([Data(pair)] + Singles(y)) == pair + y
    ensures Stream(Kept([Data(pair)] + Singles(y))) == NonNuls(y)
  {
    StreamCons(pair, Singles(y));
    BeforeUnique(pair, 0, 0);
    SinglesStream(y);
    hide Singles, NonNuls, Kept, Stream;
  }

  lemma AssociateThree(x: text, c: text, y: text)
    ensures x + (c + y) == x + c + y
  {
  }

  lemma NonNulsSplit(s: text, k: nat)
    requires k + 1 < |s| && s[k] == 0 && s[k + 1] != 0
    ensures NonNuls(s) == NonNuls(s[..k]) + [s[k + 1]] + NonNuls(s[k + 2..])
  {
    var x, pair, y := s[..k], s[k..k + 2], s[k + 2..];
    NonNulsConcat(x, pair + y);
    NonNulsPair(pair, y);
    ThreeParts(s, k);
    AssociateThree(NonNuls(x), [pair[1]], NonNuls(y));
    hide NonNuls;
  }

  lemma NonNulsPair(pair: text, y: text)
    requires |pair| == 2 && pair[0] == 0 && pair[1] != 0
    ensures NonNuls(pair + y) == [pair[1]] + NonNuls(y)
  {
    assert (pair + y)[1..] == [pair[1]] + y;
    assert ([pair[1]] + y)[1..] == y;
  }

  /** With a newline after a NUL two ways of cutting give different lines. */
  lemma NewlineAfterNul(s: text, i: nat, j: nat)
    requires NulThenNewline(s, i, j)
    ensures !Independent(s)
  {
    var k := LastNul(s, i, j);
    var x, c, y := NonNuls(s[..k]), s[k + 1], NonNuls(s[k + 2..]);
    if k + 1 < j {
      NonNulsKeepNewline(s[k + 2..], j - k - 2);
    }
    var a, b, n := Singles(s), Paired(s, k), |s| + |x| + |y| + 2;
    PairedStream(s, k);
    NonNulsSplit(s, k);
    SinglesStream(s);
    LinesOfKept(a, n);
    LinesOfKept(b, n);
    DroppedByte(x, c, y, n);
    hide Singles, Paired, NonNuls, ReceiveLines, Segments, Stream, Kept;
    assert !SameLines(s, a, b, n);
  }

  /** The lines depend on the bytes alone if and only if no newline comes after a NUL. */
  lemma IndependentExact(s: text)
    ensures Independent(s) <==> forall i: nat, j: nat :: !NulThenNewline(s, i, j)
  {
    if i: nat, j: nat :| NulThenNewline(s, i, j) {
      NewlineAfterNul(s, i, j);
    } else {
      forall a: seq<Read>, b: seq<Read>, n: nat ensures SameLines(s, a, b, n) {
        if Delivered(a) && Delivered(b) && Stream(a) == s && Stream(b) == s {
          ChunkIndependent(a, b, n);
        }
      }
    }
  }
}
