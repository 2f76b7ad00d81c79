/** The Bech32 checksum register of segwit_addr.c: a degree-six code over GF(32),
    computed on a 30-bit register (section "Checksum" of BIP 173). */
module Polymod {
  import opened Bytes
  import opened Digits

  /** The low 30 bits, all that a register ever holds. */
  predicate Fits(x: bv32) {
    x < 0x40000000
  }

  function Xor(x: bv32, y: bv32): bv32 {
    x ^ y
  }

  function Term(b: bv32, g: bv32): bv32 {
    (0 - (b & 1)) & g
  }

  function Feedback(pre: bv32): bv32 {
    var b := pre >> 25;
    Term(b >> 0, 0x3b6a57b2) ^
    Term(b >> 1, 0x26508e6d) ^
    Term(b >> 2, 0x1ea119fa) ^
    Term(b >> 3, 0x3d4233dd) ^
    Term(b >> 4, 0x2a1462b3)
  }

  function Shifted(pre: bv32): bv32 {
    (pre & 0x1FFFFFF) << 5
  }

  /** bech32_polymod_step. */
  function PolymodStep(pre: bv32): bv32 {
    Xor(Shifted(pre), Feedback(pre))
  }

  /** A uint8_t widened to the register's uint32_t. */
  function Word(v: byte): bv32 {
    (v as bv8) as bv32
  }

  /** The register after absorbing the values vs, starting from chk. */
  function Absorb(chk: bv32, vs: seq<byte>): bv32 {
    if |vs| == 0 then chk
    else Xor(PolymodStep(Absorb(chk, vs[..|vs| - 1])), Word(vs[|vs| - 1]))
  }

  /** (chk >> ((5 - i) * 5)) & 0x1f. */
  function Field(chk: bv32, i: nat): (f: bv32)
    requires i < 6
    ensures f < 32
  {
    (match i
     case 0 => chk >> 25
     case 1 => chk >> 20
     case 2 => chk >> 15
     case 3 => chk >> 10
     case 4 => chk >> 5
     case _ => chk) & 0x1f
  }

  /** The i-th of the six 5-bit symbols of a register, most significant first. */
  function Symbol(chk: bv32, i: nat): (s: byte)
    requires i < 6
    ensures s < 32
  {
    Field(chk, i) as int
  }

  // ---- exclusive or ---------------------------------------------------------

  lemma XorEqual(x: bv32, y: bv32)
    ensures Xor(x, y) == 0 <==> x == y
  {
    assert x ^ y == 0 <==> x == y;
  }

  lemma XorZero(x: bv32)
    ensures Xor(x, 0) == x && Xor(0, x) == x
  {
  }

  lemma XorFits(x: bv32, y: bv32)
    requires Fits(x) && Fits(y)
    ensures Fits(Xor(x, y))
  {
  }

  lemma XorComm(a: bv32, b: bv32)
    ensures Xor(a, b) == Xor(b, a)
  {
  }

  lemma XorAssoc(a: bv32, b: bv32, c: bv32)
    ensures Xor(Xor(a, b), c) == Xor(a, Xor(b, c))
  {
  }

  lemma XorSwap(a: bv32, b: bv32, c: bv32, d: bv32)
    ensures Xor(Xor(a, b), Xor(c, d)) == Xor(Xor(a, c), Xor(b, d))
  {
    hide Xor;
    calc {
      Xor(Xor(a, b), Xor(c, d));
      { XorAssoc(a, b, Xor(c, d)); XorAssoc(b, c, d); }
      Xor(a, Xor(Xor(b, c), d));
      { XorComm(b, c); XorAssoc(c, b, d); }
      Xor(a, Xor(c, Xor(b, d)));
      { XorAssoc(a, c, Xor(b, d)); }
      Xor(Xor(a, c), Xor(b, d));
    }
  }

  lemma XorSolve(z: bv32, p: bv32, c: bv32)
    ensures Xor(z, p) == c <==> p == Xor(z, c)
  {
    XorTwice(z, p);
    XorTwice(z, c);
    hide Xor;
  }

  lemma XorTwice(z: bv32, p: bv32)
    ensures Xor(z, Xor(z, p)) == p
  {
  }

  lemma XorCancel(a: bv32, b: bv32, w: bv32)
    requires Xor(a, w) == Xor(b, w)
    ensures a == b
  {
  }

  // ---- one step -------------------------------------------------------------

  lemma FeedbackLinear(x: bv32, y: bv32)
    ensures Feedback(Xor(x, y)) == Xor(Feedback(x), Feedback(y))
  {
    assert Feedback(x ^ y) == Feedback(x) ^ Feedback(y);
  }

  lemma ShiftedLinear(x: bv32, y: bv32)
    ensures Shifted(Xor(x, y)) == Xor(Shifted(x), Shifted(y))
  {
  }

  lemma StepLinear(x: bv32, y: bv32)
    ensures PolymodStep(Xor(x, y)) == Xor(PolymodStep(x), PolymodStep(y))
  {
    hide Shifted, Feedback, Xor;
    FeedbackLinear(x, y);
    ShiftedLinear(x, y);
    XorSwap(Shifted(x), Shifted(y), Feedback(x), Feedback(y));
  }

  lemma StepFits(x: bv32, w: bv32)
    requires w < 32
    ensures Fits(PolymodStep(x)) && Fits(Xor(PolymodStep(x), w))
  {
  }

  lemma StepKernel(x: bv32)
    requires Fits(x) && PolymodStep(x) == 0
    ensures x == 0
  {
  }

  lemma StepZero()
    ensures PolymodStep(0) == 0 && Word(0) == 0
  {
  }

  lemma StepInjective(x: bv32, y: bv32)
    requires Fits(x) && Fits(y) && PolymodStep(x) == PolymodStep(y)
    ensures x == y
  {
    hide PolymodStep, Xor, Fits;
    StepLinear(x, y);
    XorEqual(PolymodStep(x), PolymodStep(y));
    XorEqual(x, y);
    XorFits(x, y);
    StepKernel(Xor(x, y));
  }

  // ---- symbols and registers ----------------------------------------------------

  lemma WordRange(v: byte)
    requires v < 32
    ensures Word(v) < 32 && Word(v) as int == v
  {
  }

  lemma WordOfField(f: bv32)
    requires f < 32
    ensures Word(f as int) == f
  {
  }

  /** Six symbols laid side by side in a register. */
  function PackWords(a: bv32, b: bv32, c: bv32, d: bv32, e: bv32, f: bv32): bv32 {
    (a << 25) ^ (b << 20) ^ (c << 15) ^ (d << 10) ^ (e << 5) ^ f
  }

  function Pack(ys: seq<byte>): bv32
    requires |ys| == 6
  {
    PackWords(Word(ys[0]), Word(ys[1]), Word(ys[2]), Word(ys[3]), Word(ys[4]), Word(ys[5]))
  }

  function Unpack(p: bv32): (ys: seq<byte>)
    ensures |ys| == 6 && AllBelow(ys, 32)
  {
    [Symbol(p, 0), Symbol(p, 1), Symbol(p, 2), Symbol(p, 3), Symbol(p, 4), Symbol(p, 5)]
  }

  lemma FieldsSpanRegister(p: bv32)
    requires Fits(p)
    ensures PackWords(Field(p, 0), Field(p, 1), Field(p, 2), Field(p, 3), Field(p, 4), Field(p, 5)) == p
  {
  }

  lemma FieldsOfPack(a: bv32, b: bv32, c: bv32, d: bv32, e: bv32, f: bv32)
    requires a < 32 && b < 32 && c < 32 && d < 32 && e < 32 && f < 32
    ensures var p := PackWords(a, b, c, d, e, f);
            Field(p, 0) == a && Field(p, 1) == b && Field(p, 2) == c &&
            Field(p, 3) == d && Field(p, 4) == e && Field(p, 5) == f
  {
  }

  lemma PackUnpack(p: bv32)
    requires Fits(p)
    ensures Pack(Unpack(p)) == p
  {
    hide Word, Field, PackWords, Fits;
    WordOfField(Field(p, 0));
    WordOfField(Field(p, 1));
    WordOfField(Field(p, 2));
    WordOfField(Field(p, 3));
    WordOfField(Field(p, 4));
    WordOfField(Field(p, 5));
    FieldsSpanRegister(p);
  }

  lemma WordsRange(ys: seq<byte>)
    requires AllBelow(ys, 32)
    ensures forall i :: 0 <= i < |ys| ==> Word(ys[i]) < 32 && Word(ys[i]) as int == ys[i]
  {
    hide Word;
    forall i | 0 <= i < |ys| ensures Word(ys[i]) < 32 && Word(ys[i]) as int == ys[i] {
      WordRange(ys[i]);
    }
  }

  lemma UnpackPack(ys: seq<byte>)
    requires |ys| == 6 && AllBelow(ys, 32)
    ensures Unpack(Pack(ys)) == ys
  {
    hide Word, Field, PackWords;
    WordsRange(ys);
    FieldsOfPack(Word(ys[0]), Word(ys[1]), Word(ys[2]), Word(ys[3]), Word(ys[4]), Word(ys[5]));
  }

  // ---- sequences of steps -----------------------------------------------------

  lemma AbsorbNext(chk: bv32, vs: seq<byte>, k: nat)
    requires k < |vs|
    ensures Absorb(chk, vs[..k + 1]) == Xor(PolymodStep(Absorb(chk, vs[..k])), Word(vs[k]))
  {
    hide PolymodStep, Word, Xor;
    assert vs[..k + 1][..k] == vs[..k];
  }

  lemma {:induction false} AbsorbConcat(chk: bv32, a: seq<byte>, b: seq<byte>)
    ensures Absorb(chk, a + b) == Absorb(Absorb(chk, a), b)
  {
    hide PolymodStep, Word, Xor;
    if |b| == 0 {
      assert a + b == a;
    } else {
      assert (a + b)[..|a + b| - 1] == a + b[..|b| - 1];
      AbsorbConcat(chk, a, b[..|b| - 1]);
    }
  }

  lemma {:induction false} AbsorbFits(chk: bv32, vs: seq<byte>)
    requires Fits(chk) && AllBelow(vs, 32)
    ensures Fits(Absorb(chk, vs))
  {
    hide PolymodStep, Word, Xor, Fits;
    if |vs| > 0 {
      var v := vs[|vs| - 1];
      WordRange(v);
      StepFits(Absorb(chk, vs[..|vs| - 1]), Word(v));
    }
  }

  /** Absorbing the same values never makes two different registers agree. */
  lemma {:induction false} AbsorbInjective(x: bv32, y: bv32, vs: seq<byte>)
    requires Fits(x) && Fits(y) && AllBelow(vs, 32)
    requires Absorb(x, vs) == Absorb(y, vs)
    ensures x == y
  {
    hide PolymodStep, Word, Xor, Fits;
    if |vs| > 0 {
      var hi := vs[..|vs| - 1];
      XorCancel(PolymodStep(Absorb(x, hi)), PolymodStep(Absorb(y, hi)), Word(vs[|vs| - 1]));
      AbsorbFits(x, hi);
      AbsorbFits(y, hi);
      StepInjective(Absorb(x, hi), Absorb(y, hi));
      AbsorbInjective(x, y, hi);
    }
  }

  /** What was in the register and what is absorbed contribute independently. */
  lemma {:induction false} AbsorbSplit(r: bv32, vs: seq<byte>)
    ensures Absorb(r, vs) == Xor(Absorb(r, Zeros(|vs|)), Absorb(0, vs))
  {
    hide PolymodStep, Word, Xor;
    if |vs| == 0 {
      XorZero(r);
    } else {
      var n := |vs| - 1;
      var hi, v := vs[..n], vs[n];
      AbsorbSplit(r, hi);
      assert Zeros(n + 1)[..n] == Zeros(n);
      var x, y := Absorb(r, Zeros(n)), Absorb(0, hi);
      StepLinear(x, y);
      StepZero();
      XorZero(Word(v));
      XorSwap(PolymodStep(x), PolymodStep(y), Word(0), Word(v));
    }
  }

  lemma SixSteps(a: bv32, b: bv32, c: bv32, d: bv32, e: bv32, f: bv32)
    requires a < 32 && b < 32 && c < 32 && d < 32 && e < 32 && f < 32
    ensures Xor(PolymodStep(Xor(PolymodStep(Xor(PolymodStep(Xor(PolymodStep(Xor(PolymodStep(
              Xor(PolymodStep(0), a)), b)), c)), d)), e)), f) == PackWords(a, b, c, d, e, f)
  {
  }

  /** Six symbols pass through an empty register without feedback. */
  lemma AbsorbSix(ys: seq<byte>)
    requires |ys| == 6 && AllBelow(ys, 32)
    ensures Absorb(0, ys) == Pack(ys)
  {
    hide PolymodStep, Word, Xor, PackWords;
    WordsRange(ys);
    SixSteps(Word(ys[0]), Word(ys[1]), Word(ys[2]), Word(ys[3]), Word(ys[4]), Word(ys[5]));
    assert ys[..0] == [];
    AbsorbNext(0, ys, 0);
    AbsorbNext(0, ys, 1);
    AbsorbNext(0, ys, 2);
    AbsorbNext(0, ys, 3);
    AbsorbNext(0, ys, 4);
    AbsorbNext(0, ys, 5);
    assert ys[..6] == ys;
  }

  // ---- what the checksum guarantees ---------------------------------------------

  /** The six symbols that bring the register r to the residue c. */
  function ChecksumSymbols(r: bv32, c: bv32): (ys: seq<byte>)
    ensures |ys| == 6 && AllBelow(ys, 32)
  {
    Unpack(Xor(Absorb(r, Zeros(6)), c))
  }

  /** Exactly one six-symbol suffix brings a register to a given residue. */
  lemma ChecksumExact(r: bv32, c: bv32, ys: seq<byte>)
    requires Fits(r) && Fits(c) && |ys| == 6 && AllBelow(ys, 32)
    ensures Absorb(r, ys) == c <==> ys == ChecksumSymbols(r, c)
  {
    hide PolymodStep, Word, Xor, Fits, Unpack, Pack, Absorb;
    var z := Absorb(r, Zeros(6));
    AbsorbSplit(r, ys);
    AbsorbSix(ys);
    XorSolve(z, Pack(ys), c);
    AbsorbFits(r, Zeros(6));
    XorFits(z, c);
    PackUnpack(Xor(z, c));
    UnpackPack(ys);
  }

  lemma {:induction false} AbsorbZeros(n: nat)
    ensures Absorb(0, Zeros(n)) == 0
  {
    hide PolymodStep, Word, Xor;
    if n > 0 {
      assert Zeros(n)[..n - 1] == Zeros(n - 1);
      AbsorbZeros(n - 1);
      StepZero();
      XorZero(0);
    }
  }

  lemma AbsorbWindow(v: seq<byte>)
    requires |v| <= 6 && AllBelow(v, 32)
    ensures Absorb(0, v) == Pack(Zeros(6 - |v|) + v)
  {
    hide PolymodStep, Word, Xor, Pack;
    AbsorbZeros(6 - |v|);
    AbsorbConcat(0, Zeros(6 - |v|), v);
    AbsorbSix(Zeros(6 - |v|) + v);
  }

  /** A register and a window of at most six symbols: the symbols can be read back. */
  lemma WindowInjective(p: bv32, v: seq<byte>, w: seq<byte>)
    requires AllBelow(v, 32) && AllBelow(w, 32) && |v| == |w| <= 6
    requires Absorb(p, v) == Absorb(p, w)
    ensures v == w
  {
    hide PolymodStep, Word, Xor, Pack, Unpack, Absorb;
    var n := |v|;
    AbsorbSplit(p, v);
    AbsorbSplit(p, w);
    XorSolve(Absorb(p, Zeros(n)), Absorb(0, v), Absorb(p, v));
    XorSolve(Absorb(p, Zeros(n)), Absorb(0, w), Absorb(p, v));
    AbsorbWindow(v);
    AbsorbWindow(w);
    UnpackPack(Zeros(6 - n) + v);
    UnpackPack(Zeros(6 - n) + w);
    assert (Zeros(6 - n) + v)[6 - n..] == v;
    assert (Zeros(6 - n) + w)[6 - n..] == w;
  }

  /** Two messages that agree outside a window of at most six symbols, and reach the
      same residue, are the same message. */
  lemma BurstDetected(r: bv32, pre: seq<byte>, v: seq<byte>, w: seq<byte>, post: seq<byte>)
    requires Fits(r) && AllBelow(pre, 32) && AllBelow(post, 32)
    requires AllBelow(v, 32) && AllBelow(w, 32) && |v| == |w| <= 6
    requires Absorb(r, pre + v + post) == Absorb(r, pre + w + post)
    ensures v == w
  {
    hide PolymodStep, Word, Xor, Fits, Absorb;
    var p := Absorb(r, pre);
    AbsorbConcat(r, pre + v, post);
    AbsorbConcat(r, pre + w, post);
    AbsorbConcat(r, pre, v);
    AbsorbConcat(r, pre, w);
    AbsorbFits(r, pre);
    AbsorbFits(p, v);
    AbsorbFits(p, w);
    AbsorbInjective(Absorb(p, v), Absorb(p, w), post);
    WindowInjective(p, v, w);
  }
}
