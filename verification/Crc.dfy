/** crc5, crc16 and crc16_false of crc.c. */
module Crc {
  import opened Arith
  import opened Sequences

  // ---- the five-bit register ------------------------------------------------------

  /** One bit enters the register (polynomial x^5 + x^2 + 1, most significant bit first). */
  function Step5(crc: bv8, bit: bv8): bv8 {
    var newBit := ((crc >> 4) ^ bit) & 1;
    (((crc << 1) | newBit) ^ (newBit << 2)) & 0x1F
  }

  predicate AreBits(bits: seq<bv8>) {
    forall i :: 0 <= i < |bits| ==> bits[i] == 0 || bits[i] == 1
  }

  /** The register after the bits, starting from crc. */
  function Register(crc: bv8, bits: seq<bv8>): bv8 {
    if |bits| == 0 then crc else Step5(Register(crc, bits[..|bits| - 1]), bits[|bits| - 1])
  }

  function TopBit(b: bv8): (bit: bv8)
    ensures bit == 0 || bit == 1
  {
    (b >> 7) & 1
  }

  function ShiftLeft(b: bv8): bv8 {
    b << 1
  }

  /** The top n bits of a byte, most significant first. */
  function TopBits(b: bv8, n: nat): (bits: seq<bv8>)
    ensures |bits| == n && AreBits(bits)
    decreases n
  {
    if n == 0 then [] else [TopBit(b)] + TopBits(ShiftLeft(b), n - 1)
  }

  function BitsOf(data: seq<bv8>): (bits: seq<bv8>)
    ensures |bits| == 8 * |data| && AreBits(bits)
  {
    if |data| == 0 then [] else BitsOf(data[..|data| - 1]) + TopBits(data[|data| - 1], 8)
  }

  /** What crc5 computes. */
  function Crc5Of(bits: seq<bv8>): bv8 {
    Register(0x1F, bits)
  }

  function Moved(b: bv8, n: nat): bv8
    decreases n
  {
    if n == 0 then b else Moved(ShiftLeft(b), n - 1)
  }

  lemma {:induction false} TopBitsAt(b: bv8, n: nat, i: nat)
    requires i < n
    ensures TopBits(b, n)[i] == TopBit(Moved(b, i))
    decreases n
  {
    hide TopBit, ShiftLeft;
    if i > 0 {
      TopBitsAt(ShiftLeft(b), n - 1, i - 1);
    }
  }

  lemma EachBit(b: bv8)
    ensures TopBit(Moved(b, 0)) == (b >> 7) & 1 && TopBit(Moved(b, 1)) == (b >> 6) & 1
    ensures TopBit(Moved(b, 2)) == (b >> 5) & 1 && TopBit(Moved(b, 3)) == (b >> 4) & 1
    ensures TopBit(Moved(b, 4)) == (b >> 3) & 1 && TopBit(Moved(b, 5)) == (b >> 2) & 1
    ensures TopBit(Moved(b, 6)) == (b >> 1) & 1 && TopBit(Moved(b, 7)) == b & 1
  {
  }

  /** The bits of a byte, most significant first. */
  lemma ByteBits(b: bv8)
    ensures var t := TopBits(b, 8);
            && t[0] == (b >> 7) & 1 && t[1] == (b >> 6) & 1 && t[2] == (b >> 5) & 1 && t[3] == (b >> 4) & 1
            && t[4] == (b >> 3) & 1 && t[5] == (b >> 2) & 1 && t[6] == (b >> 1) & 1 && t[7] == b & 1
  {
    EachBit(b);
    hide TopBits, TopBit, Moved;
    TopBitsAt(b, 8, 0);
    TopBitsAt(b, 8, 1);
    TopBitsAt(b, 8, 2);
    TopBitsAt(b, 8, 3);
    TopBitsAt(b, 8, 4);
    TopBitsAt(b, 8, 5);
    TopBitsAt(b, 8, 6);
    TopBitsAt(b, 8, 7);
  }

  /** They are the byte. */
  lemma ByteOfBits(b: bv8)
    ensures var t := TopBits(b, 8);
            b == (((t[0] << 7) | (t[1] << 6)) | ((t[2] << 5) | (t[3] << 4))) |
                 (((t[4] << 3) | (t[5] << 2)) | ((t[6] << 1) | t[7]))
  {
    ByteBits(b);
    BitsJoin(b);
    hide TopBits;
  }

  lemma BitsJoin(b: bv8)
    ensures b == (((((b >> 7) & 1) << 7) | (((b >> 6) & 1) << 6)) | ((((b >> 5) & 1) << 5) | (((b >> 4) & 1) << 4))) |
                 (((((b >> 3) & 1) << 3) | (((b >> 2) & 1) << 2)) | ((((b >> 1) & 1) << 1) | (b & 1)))
  {
  }

  /** The bits of some data are those of its bytes in turn. */
  lemma BitsInTurn(data: seq<bv8>, i: nat)
    requires i < |data|
    ensures BitsOf(data)[8 * i..8 * i + 8] == TopBits(data[i], 8)
    decreases |data|
  {
    hide *;
    BitsNext(data);
    var rest := data[..|data| - 1];
    if i < |data| - 1 {
      assert rest[i] == data[i];
      BitsInTurn(rest, i);
    }
    OneInTurn(BitsOf(rest), TopBits(data[|data| - 1], 8), |rest|, i, TopBits(data[i], 8));
  }

  lemma OneInTurn(s: seq<bv8>, t: seq<bv8>, n: nat, i: nat, part: seq<bv8>)
    requires |s| == 8 * n && |t| == 8 && i <= n
    requires if i < n then s[8 * i..8 * i + 8] == part else t == part
    ensures (s + t)[8 * i..8 * i + 8] == part
  {
    if i < n { EightOf(s, t, 8 * i); } else { LastEight(s, t); }
  }

  lemma EightOf(s: seq<bv8>, t: seq<bv8>, k: nat)
    requires k + 8 <= |s|
    ensures (s + t)[k..k + 8] == s[k..k + 8]
  {
  }

  lemma LastEight(s: seq<bv8>, t: seq<bv8>)
    requires |t| == 8
    ensures (s + t)[|s|..|s| + 8] == t
  {
  }

  lemma BitsNext(data: seq<bv8>)
    requires |data| > 0
    ensures BitsOf(data) == BitsOf(data[..|data| - 1]) + TopBits(data[|data| - 1], 8)
  {
    hide TopBits, AreBits;
  }

  /** So data can be told from its bits. */
  lemma BitsInjective(data: seq<bv8>, other: seq<bv8>)
    requires |data| == |other| && BitsOf(data) == BitsOf(other)
    ensures data == other
  {
    hide BitsOf, TopBits;
    forall i | 0 <= i < |data| ensures data[i] == other[i] {
      BitsInTurn(data, i);
      BitsInTurn(other, i);
      ByteOfBits(data[i]);
      ByteOfBits(other[i]);
    }
  }

  lemma NoBits()
    ensures Register(0x1F, BitsOf([])) == 0x1F
  {
  }

  lemma EightSteps(crc: bv8, b: bv8)
    ensures Register(crc, TopBits(b, 8)) ==
            Step5(Step5(Step5(Step5(Step5(Step5(Step5(Step5(crc, (b >> 7) & 1), (b >> 6) & 1), (b >> 5) & 1),
              (b >> 4) & 1), (b >> 3) & 1), (b >> 2) & 1), (b >> 1) & 1), b & 1)
  {
    hide Step5, TopBits;
    var t := TopBits(b, 8);
    ByteBits(b);
    RegisterStart(crc, t);
    RegisterNext(crc, t, 0);
    RegisterNext(crc, t, 1);
    RegisterNext(crc, t, 2);
    RegisterNext(crc, t, 3);
    RegisterNext(crc, t, 4);
    RegisterNext(crc, t, 5);
    RegisterNext(crc, t, 6);
    RegisterNext(crc, t, 7);
    hide Register;
    assert t[..8] == t;
  }

  lemma ByteKnown(data: seq<bv8>, crc: bv8, b: bv8, next: bv8)
    requires Crc5Of(BitsOf(data)) == crc
    requires Step5(Step5(Step5(Step5(Step5(Step5(Step5(Step5(crc, (b >> 7) & 1), (b >> 6) & 1), (b >> 5) & 1),
               (b >> 4) & 1), (b >> 3) & 1), (b >> 2) & 1), (b >> 1) & 1), b & 1) == next
    ensures Crc5Of(BitsOf(data + [b])) == next
  {
    hide Step5, Register, TopBits;
    EightSteps(crc, b);
    assert (data + [b])[..|data|] == data;
    RegisterConcat(0x1F, BitsOf(data), TopBits(b, 8));
  }

  /** The chip id request 55 AA 52 05 00 00 ends in 0A. */
  lemma ChipAddressCommand()
    ensures Crc5Of(BitsOf([0x52, 0x05, 0x00, 0x00])) == 0x0a
  {
    hide Register, BitsOf;
    var data: seq<bv8> := [];
    NoBits();
    ByteKnown(data, 0x1f, 0x52, 0x18);
    data := data + [0x52];
    ByteKnown(data, 0x18, 0x05, 0x18);
    data := data + [0x05];
    ByteKnown(data, 0x18, 0x00, 0x09);
    data := data + [0x00];
    ByteKnown(data, 0x09, 0x00, 0x0a);
    data := data + [0x00];
    assert data == [0x52, 0x05, 0x00, 0x00];
  }

  /** The chain inactive command 55 AA 53 05 00 00 ends in 03. */
  lemma ChainInactiveCommand()
    ensures Crc5Of(BitsOf([0x53, 0x05, 0x00, 0x00])) == 0x03
  {
    hide Register, BitsOf;
    var data: seq<bv8> := [];
    NoBits();
    ByteKnown(data, 0x1f, 0x53, 0x1d);
    data := data + [0x53];
    ByteKnown(data, 0x1d, 0x05, 0x04);
    data := data + [0x05];
    ByteKnown(data, 0x04, 0x00, 0x11);
    data := data + [0x00];
    ByteKnown(data, 0x11, 0x00, 0x03);
    data := data + [0x00];
    assert data == [0x53, 0x05, 0x00, 0x00];
  }

  // ---- the register as a linear machine -----------------------------------------------

  predicate Fits5(crc: bv8) { crc < 32 }

  function Xor(x: bv8, y: bv8): bv8 { x ^ y }

  lemma StepFits(crc: bv8, bit: bv8)
    ensures Fits5(Step5(crc, bit))
  {
  }

  lemma StepInjective(x: bv8, y: bv8, bit: bv8)
    requires Fits5(x) && Fits5(y) && Step5(x, bit) == Step5(y, bit)
    ensures x == y
  {
  }

  lemma StepLinear(x: bv8, y: bv8, bit: bv8)
    ensures Xor(Step5(x, bit), Step5(y, bit)) == Step5(Xor(x, y), 0)
  {
  }

  /** A flipped input bit flips the register in the pattern 00101. */
  lemma StepFlip(x: bv8, bit: bv8)
    ensures Xor(Step5(x, bit), Step5(x, bit ^ 1)) == 5
  {
  }

  lemma {:induction false} RegisterConcat(crc: bv8, a: seq<bv8>, b: seq<bv8>)
    ensures Register(crc, a + b) == Register(Register(crc, a), b)
  {
    hide Step5;
    if |b| == 0 {
      assert a + b == a;
    } else {
      assert (a + b)[..|a + b| - 1] == a + b[..|b| - 1];
      RegisterConcat(crc, a, b[..|b| - 1]);
    }
  }

  lemma {:induction false} RegisterFits(crc: bv8, bits: seq<bv8>)
    requires Fits5(crc)
    ensures Fits5(Register(crc, bits))
  {
    hide Step5, Fits5;
    if |bits| > 0 {
      StepFits(Register(crc, bits[..|bits| - 1]), bits[|bits| - 1]);
    }
  }

  lemma {:induction false} RegisterInjective(x: bv8, y: bv8, bits: seq<bv8>)
    requires Fits5(x) && Fits5(y) && Register(x, bits) == Register(y, bits)
    ensures x == y
  {
    hide Step5, Fits5;
    if |bits| > 0 {
      var rest := bits[..|bits| - 1];
      RegisterFits(x, rest);
      RegisterFits(y, rest);
      StepInjective(Register(x, rest), Register(y, rest), bits[|bits| - 1]);
      RegisterInjective(x, y, rest);
    }
  }

  /** The difference of two registers evolves as if no input arrived. */
  lemma {:induction false} RegisterDifference(x: bv8, y: bv8, bits: seq<bv8>)
    ensures Xor(Register(x, bits), Register(y, bits)) == Register(Xor(x, y), Repeat<bv8>(0, |bits|))
  {
    hide Step5, Xor;
    if |bits| > 0 {
      var rest := bits[..|bits| - 1];
      RegisterDifference(x, y, rest);
      assert Repeat<bv8>(0, |bits|)[..|rest|] == Repeat<bv8>(0, |rest|);
      StepLinear(Register(x, rest), Register(y, rest), bits[|bits| - 1]);
    }
  }

  // ---- residue and bursts -----------------------------------------------------------------

  /** The five bits of a register, most significant first. */
  function RegisterBits(crc: bv8): (bits: seq<bv8>)
    ensures |bits| == 5 && AreBits(bits)
  {
    [(crc >> 4) & 1, (crc >> 3) & 1, (crc >> 2) & 1, (crc >> 1) & 1, crc & 1]
  }

  lemma FiveSteps(r: bv8, a: bv8, b: bv8, c: bv8, d: bv8, e: bv8)
    requires Fits5(r) && a < 2 && b < 2 && c < 2 && d < 2 && e < 2
    ensures Step5(Step5(Step5(Step5(Step5(r, a), b), c), d), e) == 0 <==>
            a == (r >> 4) & 1 && b == (r >> 3) & 1 && c == (r >> 2) & 1 && d == (r >> 1) & 1 && e == r & 1
  {
  }

  lemma RegisterNext(crc: bv8, bits: seq<bv8>, i: nat)
    requires i < |bits|
    ensures Register(crc, bits[..i + 1]) == Step5(Register(crc, bits[..i]), bits[i])
  {
    hide Step5;
    assert bits[..i + 1][..i] == bits[..i];
  }

  lemma RegisterFive(r: bv8, bits: seq<bv8>)
    requires |bits| == 5
    ensures Register(r, bits) == Step5(Step5(Step5(Step5(Step5(r, bits[0]), bits[1]), bits[2]), bits[3]), bits[4])
  {
    hide Step5;
    RegisterNext(r, bits, 0);
    RegisterNext(r, bits, 1);
    RegisterNext(r, bits, 2);
    RegisterNext(r, bits, 3);
    RegisterNext(r, bits, 4);
    assert bits[..5] == bits && bits[..0] == [];
  }

  lemma TailExact(r: bv8, tail: seq<bv8>)
    requires Fits5(r) && AreBits(tail) && |tail| == 5
    ensures Register(r, tail) == 0 <==> tail == RegisterBits(r)
  {
    hide Step5, Register, Fits5;
    RegisterFive(r, tail);
    FiveSteps(r, tail[0], tail[1], tail[2], tail[3], tail[4]);
  }

  /** Residue: a frame's CRC is zero exactly when its last five bits are the register after
      the bits before them. */
  lemma ResidueExact(bits: seq<bv8>)
    requires AreBits(bits) && |bits| >= 5
    ensures Crc5Of(bits) == 0 <==> bits[|bits| - 5..] == RegisterBits(Crc5Of(bits[..|bits| - 5]))
  {
    hide Step5, Register, Fits5, RegisterBits;
    InitialFits();
    var head, tail := bits[..|bits| - 5], bits[|bits| - 5..];
    assert bits == head + tail;
    RegisterConcat(0x1F, head, tail);
    RegisterFits(0x1F, head);
    TailExact(Crc5Of(head), tail);
  }

  lemma InitialFits()
    ensures Fits5(0x1F)
  {
  }

  lemma FiveInjective(r: bv8, a: bv8, b: bv8, c: bv8, d: bv8, e: bv8, a': bv8, b': bv8, c': bv8, d': bv8, e': bv8)
    requires a < 2 && b < 2 && c < 2 && d < 2 && e < 2 && a' < 2 && b' < 2 && c' < 2 && d' < 2 && e' < 2
    requires Step5(Step5(Step5(Step5(Step5(r, a), b), c), d), e) ==
             Step5(Step5(Step5(Step5(Step5(r, a'), b'), c'), d'), e')
    ensures a == a' && b == b' && c == c' && d == d' && e == e'
  {
  }

  lemma FiveBitsInjective(r: bv8, p: seq<bv8>, q: seq<bv8>)
    requires AreBits(p) && AreBits(q) && |p| == |q| == 5 && Register(r, p) == Register(r, q)
    ensures p == q
  {
    hide Step5, Register;
    RegisterFive(r, p);
    RegisterFive(r, q);
    FiveInjective(r, p[0], p[1], p[2], p[3], p[4], q[0], q[1], q[2], q[3], q[4]);
  }

  lemma WindowInjective(r: bv8, v: seq<bv8>, w: seq<bv8>)
    requires AreBits(v) && AreBits(w) && |v| == |w| <= 5 && Register(r, v) == Register(r, w)
    ensures v == w
  {
    var z := Repeat<bv8>(0, 5 - |v|);
    hide Step5, Register;
    RegisterConcat(r, v, z);
    RegisterConcat(r, w, z);
    FiveBitsInjective(r, v + z, w + z);
    assert (v + z)[..|v|] == v && (w + z)[..|v|] == w;
  }

  /** Bursts: changing bits only inside a window of five consecutive bits of a valid frame
      always makes it fail the check. */
  lemma BurstDetected(pre: seq<bv8>, v: seq<bv8>, w: seq<bv8>, post: seq<bv8>)
    requires AreBits(v) && AreBits(w) && |v| == |w| <= 5 && v != w
    requires Crc5Of(pre + v + post) == 0
    ensures Crc5Of(pre + w + post) != 0
  {
    hide Step5, Register;
    var p := Register(0x1F, pre);
    RegisterConcat(0x1F, pre + v, post);
    RegisterConcat(0x1F, pre + w, post);
    RegisterConcat(0x1F, pre, v);
    RegisterConcat(0x1F, pre, w);
    RegisterFits(0x1F, pre);
    RegisterFits(p, v);
    RegisterFits(p, w);
    if Crc5Of(pre + w + post) == 0 {
      RegisterInjective(Register(p, v), Register(p, w), post);
      WindowInjective(p, v, w);
    }
  }

  // ---- two flipped bits --------------------------------------------------------------------

  /** A byte frame that passes the check fails it after any change inside five neighbouring bits. */
  lemma FrameBurst(data: seq<bv8>, other: seq<bv8>, p: nat)
    requires |data| == |other| && data != other && p + 5 <= 8 * |data|
    requires forall i :: 0 <= i < 8 * |data| && !(p <= i < p + 5) ==> BitsOf(data)[i] == BitsOf(other)[i]
    requires Crc5Of(BitsOf(data)) == 0
    ensures Crc5Of(BitsOf(other)) != 0
  {
    hide *;
    if BitsOf(data) == BitsOf(other) { BitsInjective(data, other); }
    PartBits(BitsOf(data), p);
    PartBits(BitsOf(other), p);
    PartDetected(BitsOf(data), BitsOf(other), p);
  }

  lemma PartDetected(s: seq<bv8>, t: seq<bv8>, p: nat)
    requires |s| == |t| && p + 5 <= |s| && s != t && Crc5Of(s) == 0
    requires AreBits(s[p..p + 5]) && AreBits(t[p..p + 5])
    requires forall i :: 0 <= i < |s| && !(p <= i < p + 5) ==> s[i] == t[i]
    ensures Crc5Of(t) != 0
  {
    hide *;
    var v, w := s[p..p + 5], t[p..p + 5];
    ThreeParts(s, p);
    ThreeParts(t, p);
    assert s[..p] == t[..p] && s[p + 5..] == t[p + 5..];
    BurstDetected(s[..p], v, w, s[p + 5..]);
  }

  lemma ThreeParts(s: seq<bv8>, p: nat)
    requires p + 5 <= |s|
    ensures s == s[..p] + s[p..p + 5] + s[p + 5..]
  {
  }

  lemma PartBits(s: seq<bv8>, p: nat)
    requires AreBits(s) && p + 5 <= |s|
    ensures AreBits(s[p..p + 5])
  {
  }

  /** The register 00101 left to itself for n steps. */
  function Orbit(n: nat): bv8 {
    if n == 0 then 5 else Step5(Orbit(n - 1), 0)
  }

  lemma OrbitEarly()
    ensures Orbit(1) == 10 && Orbit(2) == 20 && Orbit(3) == 13 && Orbit(4) == 26 && Orbit(5) == 17 &&
           Orbit(6) == 7 && Orbit(7) == 14 && Orbit(8) == 28 && Orbit(9) == 29 && Orbit(10) == 31 &&
           Orbit(11) == 27 && Orbit(12) == 19 && Orbit(13) == 3 && Orbit(14) == 6 && Orbit(15) == 12
  {
  }

  lemma OrbitLate()
    ensures Orbit(16) == 24 && Orbit(17) == 21 && Orbit(18) == 15 && Orbit(19) == 30 && Orbit(20) == 25 &&
           Orbit(21) == 23 && Orbit(22) == 11 && Orbit(23) == 22 && Orbit(24) == 9 && Orbit(25) == 18 &&
           Orbit(26) == 1 && Orbit(27) == 2 && Orbit(28) == 4 && Orbit(29) == 8 && Orbit(30) == 16 &&
           Orbit(31) == 5
  {
    OrbitEarly();
  }

  /** It comes back after 31 steps and not before. */
  lemma OrbitOnce(n: nat)
    requires 0 < n < 31
    ensures Orbit(n) != 5 && Orbit(31) == 5
  {
    hide Orbit;
    OrbitEarly();
    OrbitLate();
  }

  lemma {:induction false} OrbitPeriod(n: nat)
    ensures Orbit(n + 31) == Orbit(n)
  {
    hide Step5;
    if n == 0 {
      OrbitOnce(1);
    } else {
      OrbitPeriod(n - 1);
    }
  }

  lemma {:induction false} OrbitReturns(n: nat)
    ensures Orbit(n) == 5 <==> n % 31 == 0
  {
    if n >= 31 {
      OrbitPeriod(n - 31);
      OrbitReturns(n - 31);
      hide Orbit;
      ModShift(n - 31, 31);
    } else if n > 0 {
      hide Orbit;
      OrbitOnce(n);
    }
  }

  lemma {:induction false} OrbitIsRegister(n: nat)
    ensures Register(5, Repeat<bv8>(0, n)) == Orbit(n)
  {
    hide Step5;
    if n > 0 {
      OrbitIsRegister(n - 1);
      assert Repeat<bv8>(0, n)[..n - 1] == Repeat<bv8>(0, n - 1);
    }
  }

  /** Two flipped bits of a valid frame go unnoticed exactly when they are a multiple of 31
      positions apart. */
  lemma TwoFlipsExact(pre: seq<bv8>, b: bv8, mid: seq<bv8>, c: bv8, post: seq<bv8>)
    requires Crc5Of(pre + [b] + mid + [c] + post) == 0
    ensures Crc5Of(pre + [b ^ 1] + mid + [c ^ 1] + post) == 0 <==> (|mid| + 1) % 31 == 0
  {
    hide Step5, Register, Fits5, Xor;
    var p := Register(0x1F, pre);
    var x, y := Register(Step5(p, b), mid), Register(Step5(p, b ^ 1), mid);
    FrameSplit(pre, b, mid, c, post);
    FrameSplit(pre, b ^ 1, mid, c ^ 1, post);
    StepFlip(p, b);
    RegisterDifference(Step5(p, b), Step5(p, b ^ 1), mid);
    OrbitIsRegister(|mid|);
    OrbitReturns(|mid| + 1);
    FlipLast(x, y, c);
    StepFits(x, c);
    StepFits(y, c ^ 1);
    if Crc5Of(pre + [b ^ 1] + mid + [c ^ 1] + post) == 0 {
      RegisterInjective(Step5(x, c), Step5(y, c ^ 1), post);
    }
  }

  lemma FrameSplit(pre: seq<bv8>, b: bv8, mid: seq<bv8>, c: bv8, post: seq<bv8>)
    ensures Crc5Of(pre + [b] + mid + [c] + post) ==
            Register(Step5(Register(Step5(Register(0x1F, pre), b), mid), c), post)
  {
    hide Step5;
    RegisterConcat(0x1F, pre + [b] + mid + [c], post);
    RegisterConcat(0x1F, pre + [b] + mid, [c]);
    RegisterConcat(0x1F, pre + [b], mid);
    RegisterConcat(0x1F, pre, [b]);
    assert [b][..0] == [] && [c][..0] == [];
  }

  lemma FlipLast(x: bv8, y: bv8, c: bv8)
    ensures Step5(x, c) == Step5(y, c ^ 1) <==> Step5(Xor(x, y), 0) == 5
  {
  }

  // ---- the code -----------------------------------------------------------------------------

  /** The inner loop of crc5: the eight bits of one byte. */
  method FeedByte(start: bv8, byte: bv8) returns (crc: bv8)
    ensures crc == Register(start, TopBits(byte, 8))
  {
    hide Step5, TopBit, ShiftLeft, Register, TopBits;
    ghost var all := TopBits(byte, 8);
    var b := byte;
    crc := start;
    var bitCounter: nat := 0;
    RegisterStart(start, all);
    while bitCounter < 8
      invariant bitCounter <= 8 && TopBits(b, 8 - bitCounter) == all[bitCounter..]
      invariant crc == Register(start, all[..bitCounter])
    {
      TopBitsNext(b, 8 - bitCounter);
      assert all[bitCounter..][0] == all[bitCounter] && all[bitCounter..][1..] == all[bitCounter + 1..];
      RegisterNext(start, all, bitCounter);
      var bit := TopBit(b);
      b := ShiftLeft(b);
      crc := Step5(crc, bit);
      bitCounter := bitCounter + 1;
    }
    assert all[..8] == all;
  }

  lemma TopBitsNext(b: bv8, n: nat)
    requires n > 0
    ensures TopBits(b, n)[0] == TopBit(b) && TopBits(b, n)[1..] == TopBits(ShiftLeft(b), n - 1)
  {
    hide TopBit, ShiftLeft;
  }

  lemma RegisterStart(crc: bv8, bits: seq<bv8>)
    ensures Register(crc, bits[..0]) == crc
  {
  }

  /** crc5 over the bytes of a frame. */
  method Crc5(data: seq<bv8>) returns (crc: bv8)
    ensures crc == Crc5Of(BitsOf(data))
  {
    hide Register, TopBits;
    crc := 0x1F;
    var byteCounter: nat := 0;
    assert BitsOf(data[..0]) == [];
    RegisterStart(0x1F, []);
    while byteCounter < |data|
      invariant byteCounter <= |data| && crc == Crc5Of(BitsOf(data[..byteCounter]))
    {
      RegisterConcat(0x1F, BitsOf(data[..byteCounter]), TopBits(data[byteCounter], 8));
      assert data[..byteCounter + 1][..byteCounter] == data[..byteCounter];
      crc := FeedByte(crc, data[byteCounter]);
      byteCounter := byteCounter + 1;
    }
    assert data[..byteCounter] == data;
  }

  // ---- the table-driven sixteen-bit CRC --------------------------------------------------------

  type Table16 = t: seq<bv16> | |t| == 256 witness seq(256, _ => 0)

  /** (crc >> 8) ^ byte. */
  function Index(crc: bv16, b: bv8): bv8 {
    ((crc >> 8) as bv8) ^ b
  }

  function Entry(table: Table16, b: bv8): bv16 {
    table[b as int]
  }

  function Xor16(x: bv16, y: bv16): bv16 {
    x ^ y
  }

  function Step16(table: Table16, crc: bv16, b: bv8): bv16 {
    Xor16(Entry(table, Index(crc, b)), ShiftByte(crc))
  }

  /** The register without its top byte, moved up. */
  function ShiftByte(crc: bv16): bv16 {
    crc << 8
  }

  function AtTop(b: bv8): bv16 {
    (b as bv16) << 8
  }

  /** One byte at a time. */
  function Fold16(table: Table16, crc: bv16, data: seq<bv8>): bv16 {
    if |data| == 0 then crc else Step16(table, Fold16(table, crc, data[..|data| - 1]), data[|data| - 1])
  }

  lemma FoldNext(table: Table16, crc: bv16, data: seq<bv8>, i: nat)
    requires i < |data|
    ensures Fold16(table, crc, data[..i + 1]) == Step16(table, Fold16(table, crc, data[..i]), data[i])
  {
    hide Step16;
    assert data[..i + 1][..i] == data[..i];
  }

  /** One bit of the plain CRC-16 register (polynomial 0x1021, most significant first). */
  function Bit16(x: bv16): bv16 {
    Xor16(Doubled(x), Feedback16(x))
  }

  function Doubled(x: bv16): bv16 {
    x << 1
  }

  function Feedback16(x: bv16): bv16 {
    (0 - (x >> 15)) & 0x1021
  }

  function EightBits(x: bv16): bv16 {
    Bit16(Bit16(Bit16(Bit16(Bit16(Bit16(Bit16(Bit16(x))))))))
  }

  /** The plain form: a byte is added at the top and shifted through. */
  function Bitwise16(crc: bv16, data: seq<bv8>): bv16 {
    if |data| == 0 then crc
    else EightBits(Xor16(Bitwise16(crc, data[..|data| - 1]), AtTop(data[|data| - 1])))
  }

  /** Entry b of the table is what byte b leaves behind. */
  ghost predicate IsCcittTable(table: Table16) {
    forall b: bv8 :: Entry(table, b) == EightBits(AtTop(b))
  }

  function NineDigits(): seq<bv8> {
    [0x31, 0x32, 0x33, 0x34, 0x35, 0x36, 0x37, 0x38, 0x39]
  }

  lemma NoBytes(crc: bv16)
    ensures Bitwise16(crc, []) == crc
  {
  }

  lemma ByteKnown16(start: bv16, data: seq<bv8>, crc: bv16, b: bv8, next: bv16)
    requires Bitwise16(start, data) == crc && EightBits(Xor16(crc, AtTop(b))) == next
    ensures Bitwise16(start, data + [b]) == next
  {
    hide EightBits, Xor16, AtTop;
    assert (data + [b])[..|data|] == data;
  }

  /** The check values of the two CRCs for the text "123456789". */
  lemma NineDigitsFromZero()
    ensures Bitwise16(0x0000, NineDigits()) == 0x31c3
  {
    hide Bitwise16;
    var data: seq<bv8> := [];
    NoBytes(0x0000);
    ByteKnown16(0x0000, data, 0x0000, 0x31, 0x2672);
    data := data + [0x31];
    ByteKnown16(0x0000, data, 0x2672, 0x32, 0x20b5);
    data := data + [0x32];
    ByteKnown16(0x0000, data, 0x20b5, 0x33, 0x9752);
    data := data + [0x33];
    ByteKnown16(0x0000, data, 0x9752, 0x34, 0xd789);
    data := data + [0x34];
    ByteKnown16(0x0000, data, 0xd789, 0x35, 0x546c);
    data := data + [0x35];
    ByteKnown16(0x0000, data, 0x546c, 0x36, 0x20e4);
    data := data + [0x36];
    ByteKnown16(0x0000, data, 0x20e4, 0x37, 0x86d6);
    data := data + [0x37];
    ByteKnown16(0x0000, data, 0x86d6, 0x38, 0x9015);
    data := data + [0x38];
    ByteKnown16(0x0000, data, 0x9015, 0x39, 0x31c3);
    data := data + [0x39];
    assert data == NineDigits();
  }

  /** The same from all ones. */
  lemma NineDigitsFromOnes()
    ensures Bitwise16(0xffff, NineDigits()) == 0x29b1
  {
    hide Bitwise16;
    var data: seq<bv8> := [];
    NoBytes(0xffff);
    ByteKnown16(0xffff, data, 0xffff, 0x31, 0xc782);
    data := data + [0x31];
    ByteKnown16(0xffff, data, 0xc782, 0x32, 0x3dba);
    data := data + [0x32];
    ByteKnown16(0xffff, data, 0x3dba, 0x33, 0x5bce);
    data := data + [0x33];
    ByteKnown16(0xffff, data, 0x5bce, 0x34, 0x5349);
    data := data + [0x34];
    ByteKnown16(0xffff, data, 0x5349, 0x35, 0x4560);
    data := data + [0x35];
    ByteKnown16(0xffff, data, 0x4560, 0x36, 0x2ef4);
    data := data + [0x36];
    ByteKnown16(0xffff, data, 0x2ef4, 0x37, 0x7718);
    data := data + [0x37];
    ByteKnown16(0xffff, data, 0x7718, 0x38, 0xa12b);
    data := data + [0x38];
    ByteKnown16(0xffff, data, 0xa12b, 0x39, 0x29b1);
    data := data + [0x39];
    assert data == NineDigits();
  }

  lemma XorAssoc16(a: bv16, b: bv16, c: bv16)
    ensures Xor16(Xor16(a, b), c) == Xor16(a, Xor16(b, c)) && Xor16(a, b) == Xor16(b, a)
  {
  }

  lemma XorSwap16(a: bv16, b: bv16, c: bv16, d: bv16)
    ensures Xor16(Xor16(a, b), Xor16(c, d)) == Xor16(Xor16(a, c), Xor16(b, d))
  {
    hide Xor16;
    XorAssoc16(a, b, Xor16(c, d));
    XorAssoc16(b, c, d);
    XorAssoc16(c, b, d);
    XorAssoc16(a, c, Xor16(b, d));
  }

  lemma DoubledLinear(x: bv16, y: bv16)
    ensures Doubled(Xor16(x, y)) == Xor16(Doubled(x), Doubled(y))
  {
  }

  lemma Feedback16Linear(x: bv16, y: bv16)
    ensures Feedback16(Xor16(x, y)) == Xor16(Feedback16(x), Feedback16(y))
  {
  }

  lemma BitLinear(x: bv16, y: bv16)
    ensures Bit16(Xor16(x, y)) == Xor16(Bit16(x), Bit16(y))
  {
    hide Xor16, Doubled, Feedback16;
    DoubledLinear(x, y);
    Feedback16Linear(x, y);
    XorSwap16(Doubled(x), Doubled(y), Feedback16(x), Feedback16(y));
  }

  lemma EightLinear(x: bv16, y: bv16)
    ensures EightBits(Xor16(x, y)) == Xor16(EightBits(x), EightBits(y))
  {
    hide Bit16, Xor16;
    var x1, y1 := Bit16(x), Bit16(y);
    var x2, y2 := Bit16(x1), Bit16(y1);
    var x3, y3 := Bit16(x2), Bit16(y2);
    var x4, y4 := Bit16(x3), Bit16(y3);
    var x5, y5 := Bit16(x4), Bit16(y4);
    var x6, y6 := Bit16(x5), Bit16(y5);
    BitLinear(x, y);
    BitLinear(x1, y1);
    BitLinear(x2, y2);
    BitLinear(x3, y3);
    BitLinear(x4, y4);
    BitLinear(x5, y5);
    BitLinear(x6, y6);
    BitLinear(Bit16(x6), Bit16(y6));
  }

  /** A low byte reaches the top without feedback. */
  lemma LowByte(x: bv16)
    requires x < 0x100
    ensures EightBits(x) == ShiftByte(x)
  {
    assert Bit16(x) == x << 1;
    assert Bit16(x << 1) == x << 2;
    assert Bit16(x << 2) == x << 3;
    assert Bit16(x << 3) == x << 4;
    assert Bit16(x << 4) == x << 5;
    assert Bit16(x << 5) == x << 6;
    assert Bit16(x << 6) == x << 7;
    assert Bit16(x << 7) == x << 8;
  }

  /** A register with a byte added is the indexed byte at the top and the old low byte. */
  lemma IndexIsHighByte(crc: bv16, b: bv8)
    ensures Xor16(crc, AtTop(b)) == Xor16(AtTop(Index(crc, b)), crc & 0xFF)
  {
    assert crc ^ ((b as bv16) << 8) == (((((crc >> 8) as bv8) ^ b) as bv16) << 8) ^ (crc & 0xFF);
  }

  lemma LowByteShift(crc: bv16)
    ensures crc & 0xFF < 0x100 && ShiftByte(crc & 0xFF) == ShiftByte(crc)
  {
  }

  lemma TableStep(table: Table16, crc: bv16, b: bv8)
    requires IsCcittTable(table)
    ensures Step16(table, crc, b) == EightBits(Xor16(crc, AtTop(b)))
  {
    hide EightBits, Index, Xor16, AtTop, ShiftByte, Entry;
    IndexIsHighByte(crc, b);
    LowByteShift(crc);
    EightLinear(AtTop(Index(crc, b)), crc & 0xFF);
    LowByte(crc & 0xFF);
    assert Entry(table, Index(crc, b)) == EightBits(AtTop(Index(crc, b)));
  }

  /** With such a table the table-driven form computes the plain one. */
  lemma {:induction false} TableComputesCrc(table: Table16, crc: bv16, data: seq<bv8>)
    requires IsCcittTable(table)
    ensures Fold16(table, crc, data) == Bitwise16(crc, data)
  {
    hide EightBits, Step16, IsCcittTable, Xor16, AtTop;
    if |data| > 0 {
      TableComputesCrc(table, crc, data[..|data| - 1]);
      TableStep(table, Fold16(table, crc, data[..|data| - 1]), data[|data| - 1]);
    }
  }

  /** crc16, whose loop takes four bytes at a time and then the rest. */
  method Crc16(table: Table16, data: seq<bv8>) returns (crc: bv16)
    ensures crc == Fold16(table, 0, data)
  {
    hide Step16;
    crc := 0;
    var at: nat, len: nat := 0, |data|;
    assert Fold16(table, 0, data[..0]) == 0;
    while len >= 4
      invariant at + len == |data| && crc == Fold16(table, 0, data[..at])
    {
      FoldNext(table, 0, data, at);
      FoldNext(table, 0, data, at + 1);
      FoldNext(table, 0, data, at + 2);
      FoldNext(table, 0, data, at + 3);
      crc := Step16(table, crc, data[at]);
      crc := Step16(table, crc, data[at + 1]);
      crc := Step16(table, crc, data[at + 2]);
      crc := Step16(table, crc, data[at + 3]);
      at, len := at + 4, len - 4;
    }
    while len > 0
      invariant at + len == |data| && crc == Fold16(table, 0, data[..at])
    {
      FoldNext(table, 0, data, at);
      crc := Step16(table, crc, data[at]);
      at, len := at + 1, len - 1;
    }
    assert data[..at] == data;
  }

  /** crc16_false. */
  method Crc16False(table: Table16, data: seq<bv8>) returns (crc: bv16)
    ensures crc == Fold16(table, 0xFFFF, data)
  {
    hide Step16;
    crc := 0xFFFF;
    var at: nat, len: nat := 0, |data|;
    assert Fold16(table, 0xFFFF, data[..0]) == 0xFFFF;
    while len > 0
      invariant at + len == |data| && crc == Fold16(table, 0xFFFF, data[..at])
    {
      FoldNext(table, 0xFFFF, data, at);
      crc := Step16(table, crc, data[at]);
      at, len := at + 1, len - 1;
    }
    assert data[..at] == data;
  }
}
