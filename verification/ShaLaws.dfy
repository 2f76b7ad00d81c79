/** What the functions and constants of SHA-256 are, bit by bit and digit by digit, and a
    known answer of FIPS 180-4. */
module ShaLaws {
  import opened Arith
  import opened Sha256

  // ---- bits --------------------------------------------------------------------------------

  // A number i + n of a bit is taken modulo 32.

  function BitWord(x: bv32, i: bv5): bv32 {
    (x >> i) & 1
  }

  /** Bit i of a word. */
  predicate Bit(x: bv32, i: bv5) {
    BitWord(x, i) == 1
  }

  lemma BitRange(x: bv32, i: bv5)
    ensures BitWord(x, i) == 0 || BitWord(x, i) == 1
  {
  }

  lemma WordXor(x: bv32, y: bv32, i: bv5)
    ensures BitWord(Xor(x, y), i) == Xor(BitWord(x, i), BitWord(y, i))
  {
  }

  lemma BitXor(x: bv32, y: bv32, i: bv5)
    ensures Bit(Xor(x, y), i) == (Bit(x, i) != Bit(y, i))
  {
    WordXor(x, y, i);
    BitRange(x, i);
    BitRange(y, i);
    hide BitWord;
  }

  lemma BitAnd(x: bv32, y: bv32, i: bv5)
    ensures Bit(And(x, y), i) == (Bit(x, i) && Bit(y, i))
  {
  }

  lemma BitNot(x: bv32, i: bv5)
    ensures Bit(Not(x), i) == !Bit(x, i)
  {
  }

  /** A bit of Ch is that of y where x has a one, and that of z elsewhere. */
  lemma ChBits(x: bv32, y: bv32, z: bv32, i: bv5)
    ensures Bit(Ch(x, y, z), i) == if Bit(x, i) then Bit(y, i) else Bit(z, i)
  {
    BitXor(And(x, y), And(Not(x), z), i);
    BitAnd(x, y, i);
    BitAnd(Not(x), z, i);
    BitNot(x, i);
    hide Bit, Xor, And, Not;
  }

  /** A bit of Maj is set exactly when it is set in two of the words at least. */
  lemma MajBits(x: bv32, y: bv32, z: bv32, i: bv5)
    ensures Bit(Maj(x, y, z), i) <==>
              (Bit(x, i) && Bit(y, i)) || (Bit(x, i) && Bit(z, i)) || (Bit(y, i) && Bit(z, i))
  {
    BitXor(Xor(And(x, y), And(x, z)), And(y, z), i);
    BitXor(And(x, y), And(x, z), i);
    BitAnd(x, y, i);
    BitAnd(x, z, i);
    BitAnd(y, z, i);
    hide Bit, Xor, And;
  }

  lemma Rotr2Bits(x: bv32, i: bv5)
    ensures Bit(Rotr(x, 2), i) == Bit(x, i + 2)
  {
  }

  lemma Rotr6Bits(x: bv32, i: bv5)
    ensures Bit(Rotr(x, 6), i) == Bit(x, i + 6)
  {
  }

  lemma Rotr7Bits(x: bv32, i: bv5)
    ensures Bit(Rotr(x, 7), i) == Bit(x, i + 7)
  {
  }

  lemma Rotr11Bits(x: bv32, i: bv5)
    ensures Bit(Rotr(x, 11), i) == Bit(x, i + 11)
  {
  }

  lemma Rotr13Bits(x: bv32, i: bv5)
    ensures Bit(Rotr(x, 13), i) == Bit(x, i + 13)
  {
  }

  lemma Rotr17Bits(x: bv32, i: bv5)
    ensures Bit(Rotr(x, 17), i) == Bit(x, i + 17)
  {
  }

  lemma Rotr18Bits(x: bv32, i: bv5)
    ensures Bit(Rotr(x, 18), i) == Bit(x, i + 18)
  {
  }

  lemma Rotr19Bits(x: bv32, i: bv5)
    ensures Bit(Rotr(x, 19), i) == Bit(x, i + 19)
  {
  }

  lemma Rotr22Bits(x: bv32, i: bv5)
    ensures Bit(Rotr(x, 22), i) == Bit(x, i + 22)
  {
  }

  lemma Rotr25Bits(x: bv32, i: bv5)
    ensures Bit(Rotr(x, 25), i) == Bit(x, i + 25)
  {
  }

  lemma Shr3Bits(x: bv32, i: bv5)
    ensures Bit(Shr(x, 3), i) == (i < 29 && Bit(x, i + 3))
  {
  }

  lemma Shr10Bits(x: bv32, i: bv5)
    ensures Bit(Shr(x, 10), i) == (i < 22 && Bit(x, i + 10))
  {
  }

  lemma BigSigma0Bits(x: bv32, i: bv5)
    ensures Bit(BigSigma0(x), i) == ((Bit(x, i + 2) != Bit(x, i + 13)) != Bit(x, i + 22))
  {
    hide Bit, BitWord, Rotr, Xor, Shr;
    BitXor(Xor(Rotr(x, 2), Rotr(x, 13)), Rotr(x, 22), i);
    BitXor(Rotr(x, 2), Rotr(x, 13), i);
    Rotr2Bits(x, i);
    Rotr13Bits(x, i);
    Rotr22Bits(x, i);
  }

  lemma BigSigma1Bits(x: bv32, i: bv5)
    ensures Bit(BigSigma1(x), i) == ((Bit(x, i + 6) != Bit(x, i + 11)) != Bit(x, i + 25))
  {
    hide Bit, BitWord, Rotr, Xor, Shr;
    BitXor(Xor(Rotr(x, 6), Rotr(x, 11)), Rotr(x, 25), i);
    BitXor(Rotr(x, 6), Rotr(x, 11), i);
    Rotr6Bits(x, i);
    Rotr11Bits(x, i);
    Rotr25Bits(x, i);
  }

  lemma SmallSigma0Bits(x: bv32, i: bv5)
    ensures Bit(SmallSigma0(x), i) == ((Bit(x, i + 7) != Bit(x, i + 18)) != (i < 29 && Bit(x, i + 3)))
  {
    hide Bit, BitWord, Rotr, Xor, Shr;
    BitXor(Xor(Rotr(x, 7), Rotr(x, 18)), Shr(x, 3), i);
    BitXor(Rotr(x, 7), Rotr(x, 18), i);
    Rotr7Bits(x, i);
    Rotr18Bits(x, i);
    Shr3Bits(x, i);
  }

  lemma SmallSigma1Bits(x: bv32, i: bv5)
    ensures Bit(SmallSigma1(x), i) == ((Bit(x, i + 17) != Bit(x, i + 19)) != (i < 22 && Bit(x, i + 10)))
  {
    hide Bit, BitWord, Rotr, Xor, Shr;
    BitXor(Xor(Rotr(x, 17), Rotr(x, 19)), Shr(x, 10), i);
    BitXor(Rotr(x, 17), Rotr(x, 19), i);
    Rotr17Bits(x, i);
    Rotr19Bits(x, i);
    Shr10Bits(x, i);
  }

  // ---- evaluation in small steps -------------------------------------------------------------

  // The number t is hidden from the solver, which would unroll the recursions for it.

  predicate At(block: Block, t: nat, a: bv32, b: bv32, c: bv32, d: bv32, e: bv32, f: bv32, g: bv32, h: bv32)
    requires t <= 64
  {
    forall u: nat :: t <= u <= t ==> Rounds(INITIAL, block, u) == [a, b, c, d, e, f, g, h]
  }

  predicate Word(block: Block, t: nat, w: bv32) {
    forall u: nat :: t <= u <= t ==> W(block, u) == w
  }

  lemma FirstWord(block: Block, t: nat, b0: bv8, b1: bv8, b2: bv8, b3: bv8, w: bv32)
    requires t < 16 && block[4 * t] == b0 && block[4 * t + 1] == b1 && block[4 * t + 2] == b2 &&
        block[4 * t + 3] == b3
    requires LoadBe32(b0, b1, b2, b3) == w
    ensures Word(block, t, w)
  {
    hide LoadBe32;
  }

  lemma Start(block: Block)
    ensures At(block, 0, 0x6a09e667, 0xbb67ae85, 0x3c6ef372, 0xa54ff53a, 0x510e527f, 0x9b05688c, 0x1f83d9ab,
        0x5be0cd19)
  {
  }

  lemma Next(block: Block, t: nat, a: bv32, b: bv32, c: bv32, d: bv32, e: bv32, f: bv32, g: bv32, h: bv32,
             k: bv32, w: bv32, a': bv32, e': bv32)
    requires t < 64 && At(block, t, a, b, c, d, e, f, g, h) && K(t) == k && Word(block, t, w)
    requires Add(Add(Add(Add(Add(h, BigSigma1(e)), Ch(e, f, g)), k), w), Add(BigSigma0(a), Maj(a, b, c))) == a'
    requires Add(d, Add(Add(Add(Add(h, BigSigma1(e)), Ch(e, f, g)), k), w)) == e'
    ensures At(block, t + 1, a', a, b, c, e', e, f, g)
  {
    hide Add, BigSigma0, BigSigma1, Ch, Maj, K, W;
    forall u: nat | t + 1 <= u <= t + 1
      ensures Rounds(INITIAL, block, u) == [a', a, b, c, e', e, f, g] {
      assert Rounds(INITIAL, block, u - 1) == [a, b, c, d, e, f, g, h] && W(block, u - 1) == w;
    }
  }

  lemma NextKnown(block: Block, t: nat, w2: bv32, w7: bv32, w15: bv32, w16: bv32, w: bv32)
    requires t >= 16 && Word(block, t - 2, w2) && Word(block, t - 7, w7)
    requires Word(block, t - 15, w15) && Word(block, t - 16, w16) && NextWord(w2, w7, w15, w16) == w
    ensures Word(block, t, w)
  {
    hide NextWord;
    forall u: nat | t <= u <= t ensures W(block, u) == w {
      assert W(block, u - 2) == w2 && W(block, u - 7) == w7 && W(block, u - 15) == w15 && W(block, u - 16) == w16;
    }
  }

  lemma CubeRootKnown(t: nat, k: bv32, p: nat, n: nat, r: nat)
    requires t < 64 && K(t) == k && Prime(t) == p && n * 0x1_0000_0000 + k as nat == r
    requires Cube(r) <= p * 0x1_0000_0000_0000_0000_0000_0000 < Cube(r + 1)
    ensures exists n :: CubeRootBits(K(t), Prime(t), n)
  {
    hide Cube, K;
    assert CubeRootBits(k, p, n);
  }

  lemma Constants0()
    ensures K(0) == 0x428a2f98 && K(1) == 0x71374491 && K(2) == 0xb5c0fbcf && K(3) == 0xe9b5dba5
    ensures K(4) == 0x3956c25b && K(5) == 0x59f111f1 && K(6) == 0x923f82a4 && K(7) == 0xab1c5ed5
  {
  }

  lemma Constants8()
    ensures K(8) == 0xd807aa98 && K(9) == 0x12835b01 && K(10) == 0x243185be && K(11) == 0x550c7dc3
    ensures K(12) == 0x72be5d74 && K(13) == 0x80deb1fe && K(14) == 0x9bdc06a7 && K(15) == 0xc19bf174
  {
  }

  lemma Constants16()
    ensures K(16) == 0xe49b69c1 && K(17) == 0xefbe4786 && K(18) == 0x0fc19dc6 && K(19) == 0x240ca1cc
    ensures K(20) == 0x2de92c6f && K(21) == 0x4a7484aa && K(22) == 0x5cb0a9dc && K(23) == 0x76f988da
  {
  }

  lemma Constants24()
    ensures K(24) == 0x983e5152 && K(25) == 0xa831c66d && K(26) == 0xb00327c8 && K(27) == 0xbf597fc7
    ensures K(28) == 0xc6e00bf3 && K(29) == 0xd5a79147 && K(30) == 0x06ca6351 && K(31) == 0x14292967
  {
  }

  lemma Constants32()
    ensures K(32) == 0x27b70a85 && K(33) == 0x2e1b2138 && K(34) == 0x4d2c6dfc && K(35) == 0x53380d13
    ensures K(36) == 0x650a7354 && K(37) == 0x766a0abb && K(38) == 0x81c2c92e && K(39) == 0x92722c85
  {
  }

  lemma Constants40()
    ensures K(40) == 0xa2bfe8a1 && K(41) == 0xa81a664b && K(42) == 0xc24b8b70 && K(43) == 0xc76c51a3
    ensures K(44) == 0xd192e819 && K(45) == 0xd6990624 && K(46) == 0xf40e3585 && K(47) == 0x106aa070
  {
  }

  lemma Constants48()
    ensures K(48) == 0x19a4c116 && K(49) == 0x1e376c08 && K(50) == 0x2748774c && K(51) == 0x34b0bcb5
    ensures K(52) == 0x391c0cb3 && K(53) == 0x4ed8aa4a && K(54) == 0x5b9cca4f && K(55) == 0x682e6ff3
  {
  }

  lemma Constants56()
    ensures K(56) == 0x748f82ee && K(57) == 0x78a5636f && K(58) == 0x84c87814 && K(59) == 0x8cc70208
    ensures K(60) == 0x90befffa && K(61) == 0xa4506ceb && K(62) == 0xbef9a3f7 && K(63) == 0xc67178f2
  {
  }

  // ---- the constants -----------------------------------------------------------------------

  const PRIMES0: seq<nat> := [2, 3, 5, 7, 11, 13, 17, 19, 23, 29, 31, 37, 41, 43, 47, 53]
  const PRIMES16: seq<nat> := [59, 61, 67, 71, 73, 79, 83, 89, 97, 101, 103, 107, 109, 113, 127, 131]
  const PRIMES32: seq<nat> := [137, 139, 149, 151, 157, 163, 167, 173, 179, 181, 191, 193, 197, 199, 211, 223]
  const PRIMES48: seq<nat> := [227, 229, 233, 239, 241, 251, 257, 263, 269, 271, 277, 281, 283, 293, 307, 311]

  /** The first 64 primes. */
  function Prime(t: nat): nat
    requires t < 64
  {
    if t < 16 then PRIMES0[t] else if t < 32 then PRIMES16[t - 16] else if t < 48 then PRIMES32[t - 32]
    else PRIMES48[t - 48]
  }

  predicate IsPrime(n: nat) {
    n >= 2 && forall d :: 2 <= d < n ==> n % d != 0
  }

  /** A number below 18 * 18 that is not prime has a prime factor below 18. */
  lemma SmallFactor(n: nat, d: nat)
    requires 2 <= d < n < 324 && n % d == 0
    ensures n % 2 == 0 || n % 3 == 0 || n % 5 == 0 || n % 7 == 0 || n % 11 == 0 || n % 13 == 0 || n % 17 == 0
  {
    var q := n / d;
    DivModIdentity(n, d);
    if d <= 17 {
      FactorOf(n, d, q);
    } else {
      if q > 17 { ProductMono(18, q, 18, d); }
      if q < 2 { MulMono(q, 1, d); }
      FactorOf(n, q, d);
    }
  }

  lemma FactorOf(n: nat, e: nat, q: nat)
    requires 2 <= e <= 17 && (n == q * e || n == e * q)
    ensures n % 2 == 0 || n % 3 == 0 || n % 5 == 0 || n % 7 == 0 || n % 11 == 0 || n % 13 == 0 || n % 17 == 0
  {
    var f := if e % 2 == 0 then 2 else if e % 3 == 0 then 3 else e;
    var m := e / f;
    assert e == f * m by { assert e == 2 * (e / 2) || e == 3 * (e / 3) || f == e; }
    MulAssoc(q, m, f);
    assert n == (q * m) * f;
    DivModUnique(n, f, q * m, 0);
    assert f == 2 || f == 3 || f == 5 || f == 7 || f == 11 || f == 13 || f == 17;
  }

  predicate Sieved(n: nat) {
    n % 2 != 0 && n % 3 != 0 && n % 5 != 0 && n % 7 != 0 && n % 11 != 0 && n % 13 != 0 && n % 17 != 0
  }

  lemma SievedPrime(n: nat)
    requires 2 <= n < 324
    ensures Sieved(n) ==> IsPrime(n)
    ensures n > 17 && IsPrime(n) ==> Sieved(n)
  {
    if d :| 2 <= d < n && n % d == 0 {
      SmallFactor(n, d);
    }
  }

  /** p and q are neighbours among the primes. */
  predicate Neighbours(p: nat, q: nat) {
    IsPrime(p) && IsPrime(q) && p < q && forall n :: p < n < q ==> !IsPrime(n)
  }

  lemma Gap(p: nat, q: nat)
    requires 17 <= p < q < 324 && (p == 17 || Sieved(p)) && Sieved(q) && forall n :: p < n < q ==> !Sieved(n)
    ensures Neighbours(p, q)
  {
    SievedPrime(p);
    SievedPrime(q);
    forall n | p < n < q ensures !IsPrime(n) {
      SievedPrime(n);
    }
    hide IsPrime, Sieved;
    assert IsPrime(17) by { Seventeen(); }
  }

  lemma Seventeen()
    ensures IsPrime(17)
  {
  }

  lemma Primes0(t: nat)
    requires t < 6
    ensures Neighbours(Prime(t), Prime(t + 1))
  {
    assert 4 % 2 == 0 && 6 % 2 == 0 && 8 % 2 == 0 && 9 % 3 == 0 && 10 % 2 == 0;
    assert 12 % 2 == 0 && 14 % 2 == 0 && 15 % 3 == 0 && 16 % 2 == 0;
  }

  /** The list holds the first primes without a gap. */
  lemma PrimesInOrder(t: nat)
    requires t < 63
    ensures Prime(0) == 2 && Neighbours(Prime(t), Prime(t + 1))
  {
    hide Neighbours;
    if t < 6 { Primes0(t); } else if t < 13 { Primes6(t); } else if t < 20 { Primes13(t); }
        else if t < 27 { Primes20(t); } else if t < 34 { Primes27(t); } else if t < 41 { Primes34(t); }
        else if t < 48 { Primes41(t); } else if t < 55 { Primes48(t); } else if t < 62 { Primes55(t); }
        else if t < 63 { Primes62(t); }
  }

  lemma Primes6(t: nat)
    requires 6 <= t < 13
    ensures Neighbours(Prime(t), Prime(t + 1))
  {
    hide Neighbours;
    match t
    case 6 => Gap17();
    case 7 => Gap19();
    case 8 => Gap23();
    case 9 => Gap29();
    case 10 => Gap31();
    case 11 => Gap37();
    case _ => Gap41();
  }

  lemma Primes13(t: nat)
    requires 13 <= t < 20
    ensures Neighbours(Prime(t), Prime(t + 1))
  {
    hide Neighbours;
    match t
    case 13 => Gap43();
    case 14 => Gap47();
    case 15 => Gap53();
    case 16 => Gap59();
    case 17 => Gap61();
    case 18 => Gap67();
    case _ => Gap71();
  }

  lemma Primes20(t: nat)
    requires 20 <= t < 27
    ensures Neighbours(Prime(t), Prime(t + 1))
  {
    hide Neighbours;
    match t
    case 20 => Gap73();
    case 21 => Gap79();
    case 22 => Gap83();
    case 23 => Gap89();
    case 24 => Gap97();
    case 25 => Gap101();
    case _ => Gap103();
  }

  lemma Primes27(t: nat)
    requires 27 <= t < 34
    ensures Neighbours(Prime(t), Prime(t + 1))
  {
    hide Neighbours;
    match t
    case 27 => Gap107();
    case 28 => Gap109();
    case 29 => Gap113();
    case 30 => Gap127();
    case 31 => Gap131();
    case 32 => Gap137();
    case _ => Gap139();
  }

  lemma Primes34(t: nat)
    requires 34 <= t < 41
    ensures Neighbours(Prime(t), Prime(t + 1))
  {
    hide Neighbours;
    match t
    case 34 => Gap149();
    case 35 => Gap151();
    case 36 => Gap157();
    case 37 => Gap163();
    case 38 => Gap167();
    case 39 => Gap173();
    case _ => Gap179();
  }

  lemma Primes41(t: nat)
    requires 41 <= t < 48
    ensures Neighbours(Prime(t), Prime(t + 1))
  {
    hide Neighbours;
    match t
    case 41 => Gap181();
    case 42 => Gap191();
    case 43 => Gap193();
    case 44 => Gap197();
    case 45 => Gap199();
    case 46 => Gap211();
    case _ => Gap223();
  }

  lemma Primes48(t: nat)
    requires 48 <= t < 55
    ensures Neighbours(Prime(t), Prime(t + 1))
  {
    hide Neighbours;
    match t
    case 48 => Gap227();
    case 49 => Gap229();
    case 50 => Gap233();
    case 51 => Gap239();
    case 52 => Gap241();
    case 53 => Gap251();
    case _ => Gap257();
  }

  lemma Primes55(t: nat)
    requires 55 <= t < 62
    ensures Neighbours(Prime(t), Prime(t + 1))
  {
    hide Neighbours;
    match t
    case 55 => Gap263();
    case 56 => Gap269();
    case 57 => Gap271();
    case 58 => Gap277();
    case 59 => Gap281();
    case 60 => Gap283();
    case _ => Gap293();
  }

  lemma Primes62(t: nat)
    requires 62 <= t < 63
    ensures Neighbours(Prime(t), Prime(t + 1))
  {
    hide Neighbours;
    match t
    case _ => Gap307();
  }

  lemma Gap17()
    ensures Neighbours(17, 19)
  {
    hide Neighbours;
    Gap(17, 19);
  }

  lemma Gap19()
    ensures Neighbours(19, 23)
  {
    hide Neighbours;
    Gap(19, 23);
  }

  lemma Gap23()
    ensures Neighbours(23, 29)
  {
    hide Neighbours;
    assert 25 % 5 == 0 && 27 % 3 == 0;
    Gap(23, 29);
  }

  lemma Gap29()
    ensures Neighbours(29, 31)
  {
    hide Neighbours;
    Gap(29, 31);
  }

  lemma Gap31()
    ensures Neighbours(31, 37)
  {
    hide Neighbours;
    assert 33 % 3 == 0 && 35 % 5 == 0;
    Gap(31, 37);
  }

  lemma Gap37()
    ensures Neighbours(37, 41)
  {
    hide Neighbours;
    Gap(37, 41);
  }

  lemma Gap41()
    ensures Neighbours(41, 43)
  {
    hide Neighbours;
    Gap(41, 43);
  }

  lemma Gap43()
    ensures Neighbours(43, 47)
  {
    hide Neighbours;
    Gap(43, 47);
  }

  lemma Gap47()
    ensures Neighbours(47, 53)
  {
    hide Neighbours;
    assert 49 % 7 == 0 && 51 % 3 == 0;
    Gap(47, 53);
  }

  lemma Gap53()
    ensures Neighbours(53, 59)
  {
    hide Neighbours;
    assert 55 % 5 == 0 && 57 % 3 == 0;
    Gap(53, 59);
  }

  lemma Gap59()
    ensures Neighbours(59, 61)
  {
    hide Neighbours;
    Gap(59, 61);
  }

  lemma Gap61()
    ensures Neighbours(61, 67)
  {
    hide Neighbours;
    assert 63 % 3 == 0 && 65 % 5 == 0;
    Gap(61, 67);
  }

  lemma Gap67()
    ensures Neighbours(67, 71)
  {
    hide Neighbours;
    Gap(67, 71);
  }

  lemma Gap71()
    ensures Neighbours(71, 73)
  {
    hide Neighbours;
    Gap(71, 73);
  }

  lemma Gap73()
    ensures Neighbours(73, 79)
  {
    hide Neighbours;
    assert 75 % 3 == 0 && 77 % 7 == 0;
    Gap(73, 79);
  }

  lemma Gap79()
    ensures Neighbours(79, 83)
  {
    hide Neighbours;
    Gap(79, 83);
  }

  lemma Gap83()
    ensures Neighbours(83, 89)
  {
    hide Neighbours;
    assert 85 % 5 == 0 && 87 % 3 == 0;
    Gap(83, 89);
  }

  lemma Gap89()
    ensures Neighbours(89, 97)
  {
    hide Neighbours;
    assert 91 % 7 == 0 && 93 % 3 == 0 && 95 % 5 == 0;
    Gap(89, 97);
  }

  lemma Gap97()
    ensures Neighbours(97, 101)
  {
    hide Neighbours;
    Gap(97, 101);
  }

  lemma Gap101()
    ensures Neighbours(101, 103)
  {
    hide Neighbours;
    Gap(101, 103);
  }

  lemma Gap103()
    ensures Neighbours(103, 107)
  {
    hide Neighbours;
    Gap(103, 107);
  }

  lemma Gap107()
    ensures Neighbours(107, 109)
  {
    hide Neighbours;
    Gap(107, 109);
  }

  lemma Gap109()
    ensures Neighbours(109, 113)
  {
    hide Neighbours;
    Gap(109, 113);
  }

  lemma Gap113()
    ensures Neighbours(113, 127)
  {
    hide Neighbours;
    assert 115 % 5 == 0 && 117 % 3 == 0 && 119 % 7 == 0 && 121 % 11 == 0 && 123 % 3 == 0 && 125 % 5 == 0;
    Gap(113, 127);
  }

  lemma Gap127()
    ensures Neighbours(127, 131)
  {
    hide Neighbours;
    Gap(127, 131);
  }

  lemma Gap131()
    ensures Neighbours(131, 137)
  {
    hide Neighbours;
    assert 133 % 7 == 0 && 135 % 3 == 0;
    Gap(131, 137);
  }

  lemma Gap137()
    ensures Neighbours(137, 139)
  {
    hide Neighbours;
    Gap(137, 139);
  }

  lemma Gap139()
    ensures Neighbours(139, 149)
  {
    hide Neighbours;
    assert 141 % 3 == 0 && 143 % 11 == 0 && 145 % 5 == 0 && 147 % 3 == 0;
    Gap(139, 149);
  }

  lemma Gap149()
    ensures Neighbours(149, 151)
  {
    hide Neighbours;
    Gap(149, 151);
  }

  lemma Gap151()
    ensures Neighbours(151, 157)
  {
    hide Neighbours;
    assert 153 % 3 == 0 && 155 % 5 == 0;
    Gap(151, 157);
  }

  lemma Gap157()
    ensures Neighbours(157, 163)
  {
    hide Neighbours;
    assert 159 % 3 == 0 && 161 % 7 == 0;
    Gap(157, 163);
  }

  lemma Gap163()
    ensures Neighbours(163, 167)
  {
    hide Neighbours;
    Gap(163, 167);
  }

  lemma Gap167()
    ensures Neighbours(167, 173)
  {
    hide Neighbours;
    assert 169 % 13 == 0 && 171 % 3 == 0;
    Gap(167, 173);
  }

  lemma Gap173()
    ensures Neighbours(173, 179)
  {
    hide Neighbours;
    assert 175 % 5 == 0 && 177 % 3 == 0;
    Gap(173, 179);
  }

  lemma Gap179()
    ensures Neighbours(179, 181)
  {
    hide Neighbours;
    Gap(179, 181);
  }

  lemma Gap181()
    ensures Neighbours(181, 191)
  {
    hide Neighbours;
    assert 183 % 3 == 0 && 185 % 5 == 0 && 187 % 11 == 0 && 189 % 3 == 0;
    Gap(181, 191);
  }

  lemma Gap191()
    ensures Neighbours(191, 193)
  {
    hide Neighbours;
    Gap(191, 193);
  }

  lemma Gap193()
    ensures Neighbours(193, 197)
  {
    hide Neighbours;
    Gap(193, 197);
  }

  lemma Gap197()
    ensures Neighbours(197, 199)
  {
    hide Neighbours;
    Gap(197, 199);
  }

  lemma Gap199()
    ensures Neighbours(199, 211)
  {
    hide Neighbours;
    assert 201 % 3 == 0 && 203 % 7 == 0 && 205 % 5 == 0 && 207 % 3 == 0 && 209 % 11 == 0;
    Gap(199, 211);
  }

  lemma Gap211()
    ensures Neighbours(211, 223)
  {
    hide Neighbours;
    assert 213 % 3 == 0 && 215 % 5 == 0 && 217 % 7 == 0 && 219 % 3 == 0 && 221 % 13 == 0;
    Gap(211, 223);
  }

  lemma Gap223()
    ensures Neighbours(223, 227)
  {
    hide Neighbours;
    Gap(223, 227);
  }

  lemma Gap227()
    ensures Neighbours(227, 229)
  {
    hide Neighbours;
    Gap(227, 229);
  }

  lemma Gap229()
    ensures Neighbours(229, 233)
  {
    hide Neighbours;
    Gap(229, 233);
  }

  lemma Gap233()
    ensures Neighbours(233, 239)
  {
    hide Neighbours;
    assert 235 % 5 == 0 && 237 % 3 == 0;
    Gap(233, 239);
  }

  lemma Gap239()
    ensures Neighbours(239, 241)
  {
    hide Neighbours;
    Gap(239, 241);
  }

  lemma Gap241()
    ensures Neighbours(241, 251)
  {
    hide Neighbours;
    assert 243 % 3 == 0 && 245 % 5 == 0 && 247 % 13 == 0 && 249 % 3 == 0;
    Gap(241, 251);
  }

  lemma Gap251()
    ensures Neighbours(251, 257)
  {
    hide Neighbours;
    assert 253 % 11 == 0 && 255 % 3 == 0;
    Gap(251, 257);
  }

  lemma Gap257()
    ensures Neighbours(257, 263)
  {
    hide Neighbours;
    assert 259 % 7 == 0 && 261 % 3 == 0;
    Gap(257, 263);
  }

  lemma Gap263()
    ensures Neighbours(263, 269)
  {
    hide Neighbours;
    assert 265 % 5 == 0 && 267 % 3 == 0;
    Gap(263, 269);
  }

  lemma Gap269()
    ensures Neighbours(269, 271)
  {
    hide Neighbours;
    Gap(269, 271);
  }

  lemma Gap271()
    ensures Neighbours(271, 277)
  {
    hide Neighbours;
    assert 273 % 3 == 0 && 275 % 5 == 0;
    Gap(271, 277);
  }

  lemma Gap277()
    ensures Neighbours(277, 281)
  {
    hide Neighbours;
    Gap(277, 281);
  }

  lemma Gap281()
    ensures Neighbours(281, 283)
  {
    hide Neighbours;
    Gap(281, 283);
  }

  lemma Gap283()
    ensures Neighbours(283, 293)
  {
    hide Neighbours;
    assert 285 % 3 == 0 && 287 % 7 == 0 && 289 % 17 == 0 && 291 % 3 == 0;
    Gap(283, 293);
  }

  lemma Gap293()
    ensures Neighbours(293, 307)
  {
    hide Neighbours;
    assert 295 % 5 == 0 && 297 % 3 == 0 && 299 % 13 == 0 && 301 % 7 == 0 && 303 % 3 == 0 && 305 % 5 == 0;
    Gap(293, 307);
  }

  lemma Gap307()
    ensures Neighbours(307, 311)
  {
    hide Neighbours;
    Gap(307, 311);
  }

  function Cube(r: nat): nat {
    r * r * r
  }

  /** k holds the first 32 bits of the fractional part of the cube root of p. */
  predicate CubeRootBits(k: bv32, p: nat, n: nat) {
    var r := n * 0x1_0000_0000 + k as nat;
    Cube(r) <= p * 0x1_0000_0000_0000_0000_0000_0000 < Cube(r + 1)
  }

  /** k holds the first 32 bits of the fractional part of the square root of p. */
  predicate SquareRootBits(k: bv32, p: nat, n: nat) {
    var r := n * 0x1_0000_0000 + k as nat;
    r * r <= p * 0x1_0000_0000_0000_0000 < (r + 1) * (r + 1)
  }

  lemma Roots0(t: nat)
    requires 0 <= t < 16
    ensures exists n :: CubeRootBits(K(t), Prime(t), n)
  {
    Constants0();
    Constants8();
    hide K;
    match t
    case 0 => CubeRootKnown(0, 0x428a2f98, 2, 1, 0x1428a2f98);
    case 1 => CubeRootKnown(1, 0x71374491, 3, 1, 0x171374491);
    case 2 => CubeRootKnown(2, 0xb5c0fbcf, 5, 1, 0x1b5c0fbcf);
    case 3 => CubeRootKnown(3, 0xe9b5dba5, 7, 1, 0x1e9b5dba5);
    case 4 => CubeRootKnown(4, 0x3956c25b, 11, 2, 0x23956c25b);
    case 5 => CubeRootKnown(5, 0x59f111f1, 13, 2, 0x259f111f1);
    case 6 => CubeRootKnown(6, 0x923f82a4, 17, 2, 0x2923f82a4);
    case 7 => CubeRootKnown(7, 0xab1c5ed5, 19, 2, 0x2ab1c5ed5);
    case 8 => CubeRootKnown(8, 0xd807aa98, 23, 2, 0x2d807aa98);
    case 9 => CubeRootKnown(9, 0x12835b01, 29, 3, 0x312835b01);
    case 10 => CubeRootKnown(10, 0x243185be, 31, 3, 0x3243185be);
    case 11 => CubeRootKnown(11, 0x550c7dc3, 37, 3, 0x3550c7dc3);
    case 12 => CubeRootKnown(12, 0x72be5d74, 41, 3, 0x372be5d74);
    case 13 => CubeRootKnown(13, 0x80deb1fe, 43, 3, 0x380deb1fe);
    case 14 => CubeRootKnown(14, 0x9bdc06a7, 47, 3, 0x39bdc06a7);
    case _ => CubeRootKnown(15, 0xc19bf174, 53, 3, 0x3c19bf174);
  }

  lemma Roots16(t: nat)
    requires 16 <= t < 32
    ensures exists n :: CubeRootBits(K(t), Prime(t), n)
  {
    Constants16();
    Constants24();
    hide K;
    match t
    case 16 => CubeRootKnown(16, 0xe49b69c1, 59, 3, 0x3e49b69c1);
    case 17 => CubeRootKnown(17, 0xefbe4786, 61, 3, 0x3efbe4786);
    case 18 => CubeRootKnown(18, 0x0fc19dc6, 67, 4, 0x40fc19dc6);
    case 19 => CubeRootKnown(19, 0x240ca1cc, 71, 4, 0x4240ca1cc);
    case 20 => CubeRootKnown(20, 0x2de92c6f, 73, 4, 0x42de92c6f);
    case 21 => CubeRootKnown(21, 0x4a7484aa, 79, 4, 0x44a7484aa);
    case 22 => CubeRootKnown(22, 0x5cb0a9dc, 83, 4, 0x45cb0a9dc);
    case 23 => CubeRootKnown(23, 0x76f988da, 89, 4, 0x476f988da);
    case 24 => CubeRootKnown(24, 0x983e5152, 97, 4, 0x4983e5152);
    case 25 => CubeRootKnown(25, 0xa831c66d, 101, 4, 0x4a831c66d);
    case 26 => CubeRootKnown(26, 0xb00327c8, 103, 4, 0x4b00327c8);
    case 27 => CubeRootKnown(27, 0xbf597fc7, 107, 4, 0x4bf597fc7);
    case 28 => CubeRootKnown(28, 0xc6e00bf3, 109, 4, 0x4c6e00bf3);
    case 29 => CubeRootKnown(29, 0xd5a79147, 113, 4, 0x4d5a79147);
    case 30 => CubeRootKnown(30, 0x06ca6351, 127, 5, 0x506ca6351);
    case _ => CubeRootKnown(31, 0x14292967, 131, 5, 0x514292967);
  }

  lemma Roots32(t: nat)
    requires 32 <= t < 48
    ensures exists n :: CubeRootBits(K(t), Prime(t), n)
  {
    Constants32();
    Constants40();
    hide K;
    match t
    case 32 => CubeRootKnown(32, 0x27b70a85, 137, 5, 0x527b70a85);
    case 33 => CubeRootKnown(33, 0x2e1b2138, 139, 5, 0x52e1b2138);
    case 34 => CubeRootKnown(34, 0x4d2c6dfc, 149, 5, 0x54d2c6dfc);
    case 35 => CubeRootKnown(35, 0x53380d13, 151, 5, 0x553380d13);
    case 36 => CubeRootKnown(36, 0x650a7354, 157, 5, 0x5650a7354);
    case 37 => CubeRootKnown(37, 0x766a0abb, 163, 5, 0x5766a0abb);
    case 38 => CubeRootKnown(38, 0x81c2c92e, 167, 5, 0x581c2c92e);
    case 39 => CubeRootKnown(39, 0x92722c85, 173, 5, 0x592722c85);
    case 40 => CubeRootKnown(40, 0xa2bfe8a1, 179, 5, 0x5a2bfe8a1);
    case 41 => CubeRootKnown(41, 0xa81a664b, 181, 5, 0x5a81a664b);
    case 42 => CubeRootKnown(42, 0xc24b8b70, 191, 5, 0x5c24b8b70);
    case 43 => CubeRootKnown(43, 0xc76c51a3, 193, 5, 0x5c76c51a3);
    case 44 => CubeRootKnown(44, 0xd192e819, 197, 5, 0x5d192e819);
    case 45 => CubeRootKnown(45, 0xd6990624, 199, 5, 0x5d6990624);
    case 46 => CubeRootKnown(46, 0xf40e3585, 211, 5, 0x5f40e3585);
    case _ => CubeRootKnown(47, 0x106aa070, 223, 6, 0x6106aa070);
  }

  lemma Roots48(t: nat)
    requires 48 <= t < 64
    ensures exists n :: CubeRootBits(K(t), Prime(t), n)
  {
    Constants48();
    Constants56();
    hide K;
    match t
    case 48 => CubeRootKnown(48, 0x19a4c116, 227, 6, 0x619a4c116);
    case 49 => CubeRootKnown(49, 0x1e376c08, 229, 6, 0x61e376c08);
    case 50 => CubeRootKnown(50, 0x2748774c, 233, 6, 0x62748774c);
    case 51 => CubeRootKnown(51, 0x34b0bcb5, 239, 6, 0x634b0bcb5);
    case 52 => CubeRootKnown(52, 0x391c0cb3, 241, 6, 0x6391c0cb3);
    case 53 => CubeRootKnown(53, 0x4ed8aa4a, 251, 6, 0x64ed8aa4a);
    case 54 => CubeRootKnown(54, 0x5b9cca4f, 257, 6, 0x65b9cca4f);
    case 55 => CubeRootKnown(55, 0x682e6ff3, 263, 6, 0x6682e6ff3);
    case 56 => CubeRootKnown(56, 0x748f82ee, 269, 6, 0x6748f82ee);
    case 57 => CubeRootKnown(57, 0x78a5636f, 271, 6, 0x678a5636f);
    case 58 => CubeRootKnown(58, 0x84c87814, 277, 6, 0x684c87814);
    case 59 => CubeRootKnown(59, 0x8cc70208, 281, 6, 0x68cc70208);
    case 60 => CubeRootKnown(60, 0x90befffa, 283, 6, 0x690befffa);
    case 61 => CubeRootKnown(61, 0xa4506ceb, 293, 6, 0x6a4506ceb);
    case 62 => CubeRootKnown(62, 0xbef9a3f7, 307, 6, 0x6bef9a3f7);
    case _ => CubeRootKnown(63, 0xc67178f2, 311, 6, 0x6c67178f2);
  }

  /** The constants of the rounds are the fractional parts of the cube roots of the first 64 primes. */
  lemma RoundConstants(t: nat)
    requires t < 64
    ensures exists n :: CubeRootBits(K(t), Prime(t), n)
  {
    if t < 16 { Roots0(t); } else if t < 32 { Roots16(t); } else if t < 48 { Roots32(t); } else { Roots48(t); }
  }

  /** The state at the start is the fractional parts of the square roots of the first eight. */
  lemma InitialState(i: nat)
    requires i < 8
    ensures exists n :: SquareRootBits(INITIAL[i], Prime(i), n)
  {
    match i
    case 0 => SquareRootKnown(0, 0x6a09e667, 2, 1, 0x16a09e667);
    case 1 => SquareRootKnown(1, 0xbb67ae85, 3, 1, 0x1bb67ae85);
    case 2 => SquareRootKnown(2, 0x3c6ef372, 5, 2, 0x23c6ef372);
    case 3 => SquareRootKnown(3, 0xa54ff53a, 7, 2, 0x2a54ff53a);
    case 4 => SquareRootKnown(4, 0x510e527f, 11, 3, 0x3510e527f);
    case 5 => SquareRootKnown(5, 0x9b05688c, 13, 3, 0x39b05688c);
    case 6 => SquareRootKnown(6, 0x1f83d9ab, 17, 4, 0x41f83d9ab);
    case _ => SquareRootKnown(7, 0x5be0cd19, 19, 4, 0x45be0cd19);
  }

  lemma SquareRootKnown(i: nat, h: bv32, p: nat, n: nat, r: nat)
    requires i < 8 && INITIAL[i] == h && Prime(i) == p && n * 0x1_0000_0000 + h as nat == r
    requires r * r <= p * 0x1_0000_0000_0000_0000 < (r + 1) * (r + 1)
    ensures exists n :: SquareRootBits(INITIAL[i], Prime(i), n)
  {
    assert SquareRootBits(h, p, n);
    hide SquareRootBits;
  }

  /** The message "abc" and its padding. */
  function AbcBlock(): Block {
    [0x61, 0x62, 0x63, 0x80] + seq(59, _ => 0 as bv8) + [0x18]
  }

  lemma AbcBlockBytes()
    ensures AbcBlock()[0] == 0x61 && AbcBlock()[1] == 0x62 && AbcBlock()[2] == 0x63 && AbcBlock()[3] == 0x80
    ensures forall i :: 4 <= i < 63 ==> AbcBlock()[i] == 0
    ensures AbcBlock()[63] == 0x18
  {
  }

  lemma AbcBlockWords0()
    ensures Word(AbcBlock(), 0, 0x61626380) && Word(AbcBlock(), 1, 0x00000000) && Word(AbcBlock(), 2, 0x00000000)
    ensures Word(AbcBlock(), 3, 0x00000000) && Word(AbcBlock(), 4, 0x00000000) && Word(AbcBlock(), 5, 0x00000000)
    ensures Word(AbcBlock(), 6, 0x00000000) && Word(AbcBlock(), 7, 0x00000000) && Word(AbcBlock(), 8, 0x00000000)
    ensures Word(AbcBlock(), 9, 0x00000000) && Word(AbcBlock(), 10, 0x00000000) && Word(AbcBlock(), 11, 0x00000000)
    ensures Word(AbcBlock(), 12, 0x00000000) && Word(AbcBlock(), 13, 0x00000000) && Word(AbcBlock(), 14, 0x00000000)
    ensures Word(AbcBlock(), 15, 0x00000018)
  {
    hide W, Word;
    AbcBlockBytes();
    hide AbcBlock;
    FirstWord(AbcBlock(), 0, 0x61, 0x62, 0x63, 0x80, 0x61626380);
    FirstWord(AbcBlock(), 1, 0x00, 0x00, 0x00, 0x00, 0x00000000);
    FirstWord(AbcBlock(), 2, 0x00, 0x00, 0x00, 0x00, 0x00000000);
    FirstWord(AbcBlock(), 3, 0x00, 0x00, 0x00, 0x00, 0x00000000);
    FirstWord(AbcBlock(), 4, 0x00, 0x00, 0x00, 0x00, 0x00000000);
    FirstWord(AbcBlock(), 5, 0x00, 0x00, 0x00, 0x00, 0x00000000);
    FirstWord(AbcBlock(), 6, 0x00, 0x00, 0x00, 0x00, 0x00000000);
    FirstWord(AbcBlock(), 7, 0x00, 0x00, 0x00, 0x00, 0x00000000);
    FirstWord(AbcBlock(), 8, 0x00, 0x00, 0x00, 0x00, 0x00000000);
    FirstWord(AbcBlock(), 9, 0x00, 0x00, 0x00, 0x00, 0x00000000);
    FirstWord(AbcBlock(), 10, 0x00, 0x00, 0x00, 0x00, 0x00000000);
    FirstWord(AbcBlock(), 11, 0x00, 0x00, 0x00, 0x00, 0x00000000);
    FirstWord(AbcBlock(), 12, 0x00, 0x00, 0x00, 0x00, 0x00000000);
    FirstWord(AbcBlock(), 13, 0x00, 0x00, 0x00, 0x00, 0x00000000);
    FirstWord(AbcBlock(), 14, 0x00, 0x00, 0x00, 0x00, 0x00000000);
    FirstWord(AbcBlock(), 15, 0x00, 0x00, 0x00, 0x18, 0x00000018);
  }

  lemma AbcBlockWords16()
    ensures Word(AbcBlock(), 16, 0x61626380) && Word(AbcBlock(), 17, 0x000f0000) && Word(AbcBlock(), 18, 0x7da86405)
    ensures Word(AbcBlock(), 19, 0x600003c6) && Word(AbcBlock(), 20, 0x3e9d7b78) && Word(AbcBlock(), 21, 0x0183fc00)
    ensures Word(AbcBlock(), 22, 0x12dcbfdb) && Word(AbcBlock(), 23, 0xe2e2c38e)
  {
    hide W, Word;
    AbcBlockWords0();
    NextKnown(AbcBlock(), 16, 0x00000000, 0x00000000, 0x00000000, 0x61626380, 0x61626380);
    NextKnown(AbcBlock(), 17, 0x00000018, 0x00000000, 0x00000000, 0x00000000, 0x000f0000);
    NextKnown(AbcBlock(), 18, 0x61626380, 0x00000000, 0x00000000, 0x00000000, 0x7da86405);
    NextKnown(AbcBlock(), 19, 0x000f0000, 0x00000000, 0x00000000, 0x00000000, 0x600003c6);
    NextKnown(AbcBlock(), 20, 0x7da86405, 0x00000000, 0x00000000, 0x00000000, 0x3e9d7b78);
    NextKnown(AbcBlock(), 21, 0x600003c6, 0x00000000, 0x00000000, 0x00000000, 0x0183fc00);
    NextKnown(AbcBlock(), 22, 0x3e9d7b78, 0x00000018, 0x00000000, 0x00000000, 0x12dcbfdb);
    NextKnown(AbcBlock(), 23, 0x0183fc00, 0x61626380, 0x00000000, 0x00000000, 0xe2e2c38e);
  }

  lemma AbcBlockWords24()
    ensures Word(AbcBlock(), 24, 0xc8215c1a) && Word(AbcBlock(), 25, 0xb73679a2) && Word(AbcBlock(), 26, 0xe5bc3909)
    ensures Word(AbcBlock(), 27, 0x32663c5b) && Word(AbcBlock(), 28, 0x9d209d67) && Word(AbcBlock(), 29, 0xec8726cb)
    ensures Word(AbcBlock(), 30, 0x702138a4) && Word(AbcBlock(), 31, 0xd3b7973b)
  {
    hide W, Word;
    AbcBlockWords0();
    AbcBlockWords16();
    NextKnown(AbcBlock(), 24, 0x12dcbfdb, 0x000f0000, 0x00000000, 0x00000000, 0xc8215c1a);
    NextKnown(AbcBlock(), 25, 0xe2e2c38e, 0x7da86405, 0x00000000, 0x00000000, 0xb73679a2);
    NextKnown(AbcBlock(), 26, 0xc8215c1a, 0x600003c6, 0x00000000, 0x00000000, 0xe5bc3909);
    NextKnown(AbcBlock(), 27, 0xb73679a2, 0x3e9d7b78, 0x00000000, 0x00000000, 0x32663c5b);
    NextKnown(AbcBlock(), 28, 0xe5bc3909, 0x0183fc00, 0x00000000, 0x00000000, 0x9d209d67);
    NextKnown(AbcBlock(), 29, 0x32663c5b, 0x12dcbfdb, 0x00000000, 0x00000000, 0xec8726cb);
    NextKnown(AbcBlock(), 30, 0x9d209d67, 0xe2e2c38e, 0x00000018, 0x00000000, 0x702138a4);
    NextKnown(AbcBlock(), 31, 0xec8726cb, 0xc8215c1a, 0x61626380, 0x00000018, 0xd3b7973b);
  }

  lemma AbcBlockWords32()
    ensures Word(AbcBlock(), 32, 0x93f5997f) && Word(AbcBlock(), 33, 0x3b68ba73) && Word(AbcBlock(), 34, 0xaff4ffc1)
    ensures Word(AbcBlock(), 35, 0xf10a5c62) && Word(AbcBlock(), 36, 0x0a8b3996) && Word(AbcBlock(), 37, 0x72af830a)
    ensures Word(AbcBlock(), 38, 0x9409e33e) && Word(AbcBlock(), 39, 0x24641522)
  {
    hide W, Word;
    AbcBlockWords16();
    AbcBlockWords24();
    NextKnown(AbcBlock(), 32, 0x702138a4, 0xb73679a2, 0x000f0000, 0x61626380, 0x93f5997f);
    NextKnown(AbcBlock(), 33, 0xd3b7973b, 0xe5bc3909, 0x7da86405, 0x000f0000, 0x3b68ba73);
    NextKnown(AbcBlock(), 34, 0x93f5997f, 0x32663c5b, 0x600003c6, 0x7da86405, 0xaff4ffc1);
    NextKnown(AbcBlock(), 35, 0x3b68ba73, 0x9d209d67, 0x3e9d7b78, 0x600003c6, 0xf10a5c62);
    NextKnown(AbcBlock(), 36, 0xaff4ffc1, 0xec8726cb, 0x0183fc00, 0x3e9d7b78, 0x0a8b3996);
    NextKnown(AbcBlock(), 37, 0xf10a5c62, 0x702138a4, 0x12dcbfdb, 0x0183fc00, 0x72af830a);
    NextKnown(AbcBlock(), 38, 0x0a8b3996, 0xd3b7973b, 0xe2e2c38e, 0x12dcbfdb, 0x9409e33e);
    NextKnown(AbcBlock(), 39, 0x72af830a, 0x93f5997f, 0xc8215c1a, 0xe2e2c38e, 0x24641522);
  }

  lemma AbcBlockWords40()
    ensures Word(AbcBlock(), 40, 0x9f47bf94) && Word(AbcBlock(), 41, 0xf0a64f5a) && Word(AbcBlock(), 42, 0x3e246a79)
    ensures Word(AbcBlock(), 43, 0x27333ba3) && Word(AbcBlock(), 44, 0x0c4763f2) && Word(AbcBlock(), 45, 0x840abf27)
    ensures Word(AbcBlock(), 46, 0x7a290d5d) && Word(AbcBlock(), 47, 0x065c43da)
  {
    hide W, Word;
    AbcBlockWords24();
    AbcBlockWords32();
    NextKnown(AbcBlock(), 40, 0x9409e33e, 0x3b68ba73, 0xb73679a2, 0xc8215c1a, 0x9f47bf94);
    NextKnown(AbcBlock(), 41, 0x24641522, 0xaff4ffc1, 0xe5bc3909, 0xb73679a2, 0xf0a64f5a);
    NextKnown(AbcBlock(), 42, 0x9f47bf94, 0xf10a5c62, 0x32663c5b, 0xe5bc3909, 0x3e246a79);
    NextKnown(AbcBlock(), 43, 0xf0a64f5a, 0x0a8b3996, 0x9d209d67, 0x32663c5b, 0x27333ba3);
    NextKnown(AbcBlock(), 44, 0x3e246a79, 0x72af830a, 0xec8726cb, 0x9d209d67, 0x0c4763f2);
    NextKnown(AbcBlock(), 45, 0x27333ba3, 0x9409e33e, 0x702138a4, 0xec8726cb, 0x840abf27);
    NextKnown(AbcBlock(), 46, 0x0c4763f2, 0x24641522, 0xd3b7973b, 0x702138a4, 0x7a290d5d);
    NextKnown(AbcBlock(), 47, 0x840abf27, 0x9f47bf94, 0x93f5997f, 0xd3b7973b, 0x065c43da);
  }

  lemma AbcBlockWords48()
    ensures Word(AbcBlock(), 48, 0xfb3e89cb) && Word(AbcBlock(), 49, 0xcc7617db) && Word(AbcBlock(), 50, 0xb9e66c34)
    ensures Word(AbcBlock(), 51, 0xa9993667) && Word(AbcBlock(), 52, 0x84badedd) && Word(AbcBlock(), 53, 0xc21462bc)
    ensures Word(AbcBlock(), 54, 0x1487472c) && Word(AbcBlock(), 55, 0xb20f7a99)
  {
    hide W, Word;
    AbcBlockWords32();
    AbcBlockWords40();
    NextKnown(AbcBlock(), 48, 0x7a290d5d, 0xf0a64f5a, 0x3b68ba73, 0x93f5997f, 0xfb3e89cb);
    NextKnown(AbcBlock(), 49, 0x065c43da, 0x3e246a79, 0xaff4ffc1, 0x3b68ba73, 0xcc7617db);
    NextKnown(AbcBlock(), 50, 0xfb3e89cb, 0x27333ba3, 0xf10a5c62, 0xaff4ffc1, 0xb9e66c34);
    NextKnown(AbcBlock(), 51, 0xcc7617db, 0x0c4763f2, 0x0a8b3996, 0xf10a5c62, 0xa9993667);
    NextKnown(AbcBlock(), 52, 0xb9e66c34, 0x840abf27, 0x72af830a, 0x0a8b3996, 0x84badedd);
    NextKnown(AbcBlock(), 53, 0xa9993667, 0x7a290d5d, 0x9409e33e, 0x72af830a, 0xc21462bc);
    NextKnown(AbcBlock(), 54, 0x84badedd, 0x065c43da, 0x24641522, 0x9409e33e, 0x1487472c);
    NextKnown(AbcBlock(), 55, 0xc21462bc, 0xfb3e89cb, 0x9f47bf94, 0x24641522, 0xb20f7a99);
  }

  lemma AbcBlockWords56()
    ensures Word(AbcBlock(), 56, 0xef57b9cd) && Word(AbcBlock(), 57, 0xebe6b238) && Word(AbcBlock(), 58, 0x9fe3095e)
    ensures Word(AbcBlock(), 59, 0x78bc8d4b) && Word(AbcBlock(), 60, 0xa43fcf15) && Word(AbcBlock(), 61, 0x668b2ff8)
    ensures Word(AbcBlock(), 62, 0xeeaba2cc) && Word(AbcBlock(), 63, 0x12b1edeb)
  {
    hide W, Word;
    AbcBlockWords40();
    AbcBlockWords48();
    NextKnown(AbcBlock(), 56, 0x1487472c, 0xcc7617db, 0xf0a64f5a, 0x9f47bf94, 0xef57b9cd);
    NextKnown(AbcBlock(), 57, 0xb20f7a99, 0xb9e66c34, 0x3e246a79, 0xf0a64f5a, 0xebe6b238);
    NextKnown(AbcBlock(), 58, 0xef57b9cd, 0xa9993667, 0x27333ba3, 0x3e246a79, 0x9fe3095e);
    NextKnown(AbcBlock(), 59, 0xebe6b238, 0x84badedd, 0x0c4763f2, 0x27333ba3, 0x78bc8d4b);
    NextKnown(AbcBlock(), 60, 0x9fe3095e, 0xc21462bc, 0x840abf27, 0x0c4763f2, 0xa43fcf15);
    NextKnown(AbcBlock(), 61, 0x78bc8d4b, 0x1487472c, 0x7a290d5d, 0x840abf27, 0x668b2ff8);
    NextKnown(AbcBlock(), 62, 0xa43fcf15, 0xb20f7a99, 0x065c43da, 0x7a290d5d, 0xeeaba2cc);
    NextKnown(AbcBlock(), 63, 0x668b2ff8, 0xef57b9cd, 0xfb3e89cb, 0x065c43da, 0x12b1edeb);
  }

  lemma AbcBlockRounds8()
    ensures At(AbcBlock(), 8, 0x85a07b5f, 0xe5030380, 0x2b4209f5, 0x04409a6a, 0x0c657a79, 0x9b27a401, 0x714260ad,
        0x43ada245)
  {
    hide W, Round, Rounds, At, K, Word;
    Start(AbcBlock());
    Constants0();
    AbcBlockWords0();
    Next(AbcBlock(), 0, 0x6a09e667, 0xbb67ae85, 0x3c6ef372, 0xa54ff53a, 0x510e527f, 0x9b05688c, 0x1f83d9ab,
        0x5be0cd19,
         0x428a2f98, 0x61626380, 0x5d6aebcd, 0xfa2a4622);
    Next(AbcBlock(), 1, 0x5d6aebcd, 0x6a09e667, 0xbb67ae85, 0x3c6ef372, 0xfa2a4622, 0x510e527f, 0x9b05688c,
        0x1f83d9ab,
         0x71374491, 0x00000000, 0x5a6ad9ad, 0x78ce7989);
    Next(AbcBlock(), 2, 0x5a6ad9ad, 0x5d6aebcd, 0x6a09e667, 0xbb67ae85, 0x78ce7989, 0xfa2a4622, 0x510e527f,
        0x9b05688c,
         0xb5c0fbcf, 0x00000000, 0xc8c347a7, 0xf92939eb);
    Next(AbcBlock(), 3, 0xc8c347a7, 0x5a6ad9ad, 0x5d6aebcd, 0x6a09e667, 0xf92939eb, 0x78ce7989, 0xfa2a4622,
        0x510e527f,
         0xe9b5dba5, 0x00000000, 0xd550f666, 0x24e00850);
    Next(AbcBlock(), 4, 0xd550f666, 0xc8c347a7, 0x5a6ad9ad, 0x5d6aebcd, 0x24e00850, 0xf92939eb, 0x78ce7989,
        0xfa2a4622,
         0x3956c25b, 0x00000000, 0x04409a6a, 0x43ada245);
    Next(AbcBlock(), 5, 0x04409a6a, 0xd550f666, 0xc8c347a7, 0x5a6ad9ad, 0x43ada245, 0x24e00850, 0xf92939eb,
        0x78ce7989,
         0x59f111f1, 0x00000000, 0x2b4209f5, 0x714260ad);
    Next(AbcBlock(), 6, 0x2b4209f5, 0x04409a6a, 0xd550f666, 0xc8c347a7, 0x714260ad, 0x43ada245, 0x24e00850,
        0xf92939eb,
         0x923f82a4, 0x00000000, 0xe5030380, 0x9b27a401);
    Next(AbcBlock(), 7, 0xe5030380, 0x2b4209f5, 0x04409a6a, 0xd550f666, 0x9b27a401, 0x714260ad, 0x43ada245,
        0x24e00850,
         0xab1c5ed5, 0x00000000, 0x85a07b5f, 0x0c657a79);
  }

  lemma AbcBlockRounds16()
    ensures At(AbcBlock(), 16, 0xb0fa238e, 0xc0645fde, 0xd932eb16, 0x87912990, 0x07590dcd, 0x0b92f20c,
        0x745a48de, 0x1e578218)
  {
    hide W, Round, Rounds, At, K, Word;
    AbcBlockRounds8();
    Constants8();
    AbcBlockWords0();
    Next(AbcBlock(), 8, 0x85a07b5f, 0xe5030380, 0x2b4209f5, 0x04409a6a, 0x0c657a79, 0x9b27a401, 0x714260ad,
        0x43ada245,
         0xd807aa98, 0x00000000, 0x8e04ecb9, 0x32ca2d8c);
    Next(AbcBlock(), 9, 0x8e04ecb9, 0x85a07b5f, 0xe5030380, 0x2b4209f5, 0x32ca2d8c, 0x0c657a79, 0x9b27a401,
        0x714260ad,
         0x12835b01, 0x00000000, 0x8c87346b, 0x1cc92596);
    Next(AbcBlock(), 10, 0x8c87346b, 0x8e04ecb9, 0x85a07b5f, 0xe5030380, 0x1cc92596, 0x32ca2d8c, 0x0c657a79,
        0x9b27a401,
         0x243185be, 0x00000000, 0x4798a3f4, 0x436b23e8);
    Next(AbcBlock(), 11, 0x4798a3f4, 0x8c87346b, 0x8e04ecb9, 0x85a07b5f, 0x436b23e8, 0x1cc92596, 0x32ca2d8c,
        0x0c657a79,
         0x550c7dc3, 0x00000000, 0xf71fc5a9, 0x816fd6e9);
    Next(AbcBlock(), 12, 0xf71fc5a9, 0x4798a3f4, 0x8c87346b, 0x8e04ecb9, 0x816fd6e9, 0x436b23e8, 0x1cc92596,
        0x32ca2d8c,
         0x72be5d74, 0x00000000, 0x87912990, 0x1e578218);
    Next(AbcBlock(), 13, 0x87912990, 0xf71fc5a9, 0x4798a3f4, 0x8c87346b, 0x1e578218, 0x816fd6e9, 0x436b23e8,
        0x1cc92596,
         0x80deb1fe, 0x00000000, 0xd932eb16, 0x745a48de);
    Next(AbcBlock(), 14, 0xd932eb16, 0x87912990, 0xf71fc5a9, 0x4798a3f4, 0x745a48de, 0x1e578218, 0x816fd6e9,
        0x436b23e8,
         0x9bdc06a7, 0x00000000, 0xc0645fde, 0x0b92f20c);
    Next(AbcBlock(), 15, 0xc0645fde, 0xd932eb16, 0x87912990, 0xf71fc5a9, 0x0b92f20c, 0x745a48de, 0x1e578218,
        0x816fd6e9,
         0xc19bf174, 0x00000018, 0xb0fa238e, 0x07590dcd);
  }

  lemma AbcBlockRounds24()
    ensures At(AbcBlock(), 24, 0xc5d53d8d, 0xa7a3623f, 0xc2606d6d, 0x9dc68b63, 0xaa47c347, 0x49f5114a,
        0xe1257970, 0x8ada8930)
  {
    hide W, Round, Rounds, At, K, Word;
    AbcBlockRounds16();
    Constants16();
    AbcBlockWords16();
    Next(AbcBlock(), 16, 0xb0fa238e, 0xc0645fde, 0xd932eb16, 0x87912990, 0x07590dcd, 0x0b92f20c, 0x745a48de,
        0x1e578218,
         0xe49b69c1, 0x61626380, 0x21da9a9b, 0x8034229c);
    Next(AbcBlock(), 17, 0x21da9a9b, 0xb0fa238e, 0xc0645fde, 0xd932eb16, 0x8034229c, 0x07590dcd, 0x0b92f20c,
        0x745a48de,
         0xefbe4786, 0x000f0000, 0xc2fbd9d1, 0x846ee454);
    Next(AbcBlock(), 18, 0xc2fbd9d1, 0x21da9a9b, 0xb0fa238e, 0xc0645fde, 0x846ee454, 0x8034229c, 0x07590dcd,
        0x0b92f20c,
         0x0fc19dc6, 0x7da86405, 0xfe777bbf, 0xcc899961);
    Next(AbcBlock(), 19, 0xfe777bbf, 0xc2fbd9d1, 0x21da9a9b, 0xb0fa238e, 0xcc899961, 0x846ee454, 0x8034229c,
        0x07590dcd,
         0x240ca1cc, 0x600003c6, 0xe1f20c33, 0xb0638179);
    Next(AbcBlock(), 20, 0xe1f20c33, 0xfe777bbf, 0xc2fbd9d1, 0x21da9a9b, 0xb0638179, 0xcc899961, 0x846ee454,
        0x8034229c,
         0x2de92c6f, 0x3e9d7b78, 0x9dc68b63, 0x8ada8930);
    Next(AbcBlock(), 21, 0x9dc68b63, 0xe1f20c33, 0xfe777bbf, 0xc2fbd9d1, 0x8ada8930, 0xb0638179, 0xcc899961,
        0x846ee454,
         0x4a7484aa, 0x0183fc00, 0xc2606d6d, 0xe1257970);
    Next(AbcBlock(), 22, 0xc2606d6d, 0x9dc68b63, 0xe1f20c33, 0xfe777bbf, 0xe1257970, 0x8ada8930, 0xb0638179,
        0xcc899961,
         0x5cb0a9dc, 0x12dcbfdb, 0xa7a3623f, 0x49f5114a);
    Next(AbcBlock(), 23, 0xa7a3623f, 0xc2606d6d, 0x9dc68b63, 0xe1f20c33, 0x49f5114a, 0xe1257970, 0x8ada8930,
        0xb0638179,
         0x76f988da, 0xe2e2c38e, 0xc5d53d8d, 0xaa47c347);
  }

  lemma AbcBlockRounds32()
    ensures At(AbcBlock(), 32, 0x73b33bf5, 0xea992a22, 0xa0060b30, 0x363482c9, 0xba591112, 0x0109ab3a,
        0xade79437, 0x6112a3b7)
  {
    hide W, Round, Rounds, At, K, Word;
    AbcBlockRounds24();
    Constants24();
    AbcBlockWords24();
    Next(AbcBlock(), 24, 0xc5d53d8d, 0xa7a3623f, 0xc2606d6d, 0x9dc68b63, 0xaa47c347, 0x49f5114a, 0xe1257970,
        0x8ada8930,
         0x983e5152, 0xc8215c1a, 0x1c2c2838, 0x2823ef91);
    Next(AbcBlock(), 25, 0x1c2c2838, 0xc5d53d8d, 0xa7a3623f, 0xc2606d6d, 0x2823ef91, 0xaa47c347, 0x49f5114a,
        0xe1257970,
         0xa831c66d, 0xb73679a2, 0xcde8037d, 0x14383d8e);
    Next(AbcBlock(), 26, 0xcde8037d, 0x1c2c2838, 0xc5d53d8d, 0xa7a3623f, 0x14383d8e, 0x2823ef91, 0xaa47c347,
        0x49f5114a,
         0xb00327c8, 0xe5bc3909, 0xb62ec4bc, 0xc74c6516);
    Next(AbcBlock(), 27, 0xb62ec4bc, 0xcde8037d, 0x1c2c2838, 0xc5d53d8d, 0xc74c6516, 0x14383d8e, 0x2823ef91,
        0xaa47c347,
         0xbf597fc7, 0x32663c5b, 0x77d37528, 0xedffbff8);
    Next(AbcBlock(), 28, 0x77d37528, 0xb62ec4bc, 0xcde8037d, 0x1c2c2838, 0xedffbff8, 0xc74c6516, 0x14383d8e,
        0x2823ef91,
         0xc6e00bf3, 0x9d209d67, 0x363482c9, 0x6112a3b7);
    Next(AbcBlock(), 29, 0x363482c9, 0x77d37528, 0xb62ec4bc, 0xcde8037d, 0x6112a3b7, 0xedffbff8, 0xc74c6516,
        0x14383d8e,
         0xd5a79147, 0xec8726cb, 0xa0060b30, 0xade79437);
    Next(AbcBlock(), 30, 0xa0060b30, 0x363482c9, 0x77d37528, 0xb62ec4bc, 0xade79437, 0x6112a3b7, 0xedffbff8,
        0xc74c6516,
         0x06ca6351, 0x702138a4, 0xea992a22, 0x0109ab3a);
    Next(AbcBlock(), 31, 0xea992a22, 0xa0060b30, 0x363482c9, 0x77d37528, 0x0109ab3a, 0xade79437, 0x6112a3b7,
        0xedffbff8,
         0x14292967, 0xd3b7973b, 0x73b33bf5, 0xba591112);
  }

  lemma AbcBlockRounds40()
    ensures At(AbcBlock(), 40, 0x79ea687a, 0x6dc57a8a, 0x34df1604, 0x41a65cb1, 0x1efbc0a0, 0xf0781bc8,
        0xa507a53d, 0x0772a26b)
  {
    hide W, Round, Rounds, At, K, Word;
    AbcBlockRounds32();
    Constants32();
    AbcBlockWords32();
    Next(AbcBlock(), 32, 0x73b33bf5, 0xea992a22, 0xa0060b30, 0x363482c9, 0xba591112, 0x0109ab3a, 0xade79437,
        0x6112a3b7,
         0x27b70a85, 0x93f5997f, 0x98e12507, 0x9cd9f5f6);
    Next(AbcBlock(), 33, 0x98e12507, 0x73b33bf5, 0xea992a22, 0xa0060b30, 0x9cd9f5f6, 0xba591112, 0x0109ab3a,
        0xade79437,
         0x2e1b2138, 0x3b68ba73, 0xfe604df5, 0x59249dd3);
    Next(AbcBlock(), 34, 0xfe604df5, 0x98e12507, 0x73b33bf5, 0xea992a22, 0x59249dd3, 0x9cd9f5f6, 0xba591112,
        0x0109ab3a,
         0x4d2c6dfc, 0xaff4ffc1, 0xa9a7738c, 0x085f3833);
    Next(AbcBlock(), 35, 0xa9a7738c, 0xfe604df5, 0x98e12507, 0x73b33bf5, 0x085f3833, 0x59249dd3, 0x9cd9f5f6,
        0xba591112,
         0x53380d13, 0xf10a5c62, 0x65a0cfe4, 0xf4b002d6);
    Next(AbcBlock(), 36, 0x65a0cfe4, 0xa9a7738c, 0xfe604df5, 0x98e12507, 0xf4b002d6, 0x085f3833, 0x59249dd3,
        0x9cd9f5f6,
         0x650a7354, 0x0a8b3996, 0x41a65cb1, 0x0772a26b);
    Next(AbcBlock(), 37, 0x41a65cb1, 0x65a0cfe4, 0xa9a7738c, 0xfe604df5, 0x0772a26b, 0xf4b002d6, 0x085f3833,
        0x59249dd3,
         0x766a0abb, 0x72af830a, 0x34df1604, 0xa507a53d);
    Next(AbcBlock(), 38, 0x34df1604, 0x41a65cb1, 0x65a0cfe4, 0xa9a7738c, 0xa507a53d, 0x0772a26b, 0xf4b002d6,
        0x085f3833,
         0x81c2c92e, 0x9409e33e, 0x6dc57a8a, 0xf0781bc8);
    Next(AbcBlock(), 39, 0x6dc57a8a, 0x34df1604, 0x41a65cb1, 0x65a0cfe4, 0xf0781bc8, 0xa507a53d, 0x0772a26b,
        0xf4b002d6,
         0x92722c85, 0x24641522, 0x79ea687a, 0x1efbc0a0);
  }

  lemma AbcBlockRounds48()
    ensures At(AbcBlock(), 48, 0x4172328d, 0xa14c14b0, 0x72ab4b91, 0x26628815, 0xfecf0bc6, 0xd57b94a9,
        0xb7755da1, 0xa80f11f0)
  {
    hide W, Round, Rounds, At, K, Word;
    AbcBlockRounds40();
    Constants40();
    AbcBlockWords40();
    Next(AbcBlock(), 40, 0x79ea687a, 0x6dc57a8a, 0x34df1604, 0x41a65cb1, 0x1efbc0a0, 0xf0781bc8, 0xa507a53d,
        0x0772a26b,
         0xa2bfe8a1, 0x9f47bf94, 0xd6670766, 0x26352d63);
    Next(AbcBlock(), 41, 0xd6670766, 0x79ea687a, 0x6dc57a8a, 0x34df1604, 0x26352d63, 0x1efbc0a0, 0xf0781bc8,
        0xa507a53d,
         0xa81a664b, 0xf0a64f5a, 0xdf46652f, 0x838b2711);
    Next(AbcBlock(), 42, 0xdf46652f, 0xd6670766, 0x79ea687a, 0x6dc57a8a, 0x838b2711, 0x26352d63, 0x1efbc0a0,
        0xf0781bc8,
         0xc24b8b70, 0x3e246a79, 0x17aa0dfe, 0xdecd4715);
    Next(AbcBlock(), 43, 0x17aa0dfe, 0xdf46652f, 0xd6670766, 0x79ea687a, 0xdecd4715, 0x838b2711, 0x26352d63,
        0x1efbc0a0,
         0xc76c51a3, 0x27333ba3, 0x9d4baf93, 0xfda24c2e);
    Next(AbcBlock(), 44, 0x9d4baf93, 0x17aa0dfe, 0xdf46652f, 0xd6670766, 0xfda24c2e, 0xdecd4715, 0x838b2711,
        0x26352d63,
         0xd192e819, 0x0c4763f2, 0x26628815, 0xa80f11f0);
    Next(AbcBlock(), 45, 0x26628815, 0x9d4baf93, 0x17aa0dfe, 0xdf46652f, 0xa80f11f0, 0xfda24c2e, 0xdecd4715,
        0x838b2711,
         0xd6990624, 0x840abf27, 0x72ab4b91, 0xb7755da1);
    Next(AbcBlock(), 46, 0x72ab4b91, 0x26628815, 0x9d4baf93, 0x17aa0dfe, 0xb7755da1, 0xa80f11f0, 0xfda24c2e,
        0xdecd4715,
         0xf40e3585, 0x7a290d5d, 0xa14c14b0, 0xd57b94a9);
    Next(AbcBlock(), 47, 0xa14c14b0, 0x72ab4b91, 0x26628815, 0x9d4baf93, 0xd57b94a9, 0xb7755da1, 0xa80f11f0,
        0xfda24c2e,
         0x106aa070, 0x065c43da, 0x4172328d, 0xfecf0bc6);
  }

  lemma AbcBlockRounds56()
    ensures At(AbcBlock(), 56, 0x38cc9913, 0x3ec45cdb, 0xf5702fdb, 0x101fd28f, 0x54cb266b, 0xe50e1b4f,
        0x9f4787c3, 0x529e7d00)
  {
    hide W, Round, Rounds, At, K, Word;
    AbcBlockRounds48();
    Constants48();
    AbcBlockWords48();
    Next(AbcBlock(), 48, 0x4172328d, 0xa14c14b0, 0x72ab4b91, 0x26628815, 0xfecf0bc6, 0xd57b94a9, 0xb7755da1,
        0xa80f11f0,
         0x19a4c116, 0xfb3e89cb, 0x05757ceb, 0xbd714038);
    Next(AbcBlock(), 49, 0x05757ceb, 0x4172328d, 0xa14c14b0, 0x72ab4b91, 0xbd714038, 0xfecf0bc6, 0xd57b94a9,
        0xb7755da1,
         0x1e376c08, 0xcc7617db, 0xf11bfaa8, 0x6e5c390c);
    Next(AbcBlock(), 50, 0xf11bfaa8, 0x05757ceb, 0x4172328d, 0xa14c14b0, 0x6e5c390c, 0xbd714038, 0xfecf0bc6,
        0xd57b94a9,
         0x2748774c, 0xb9e66c34, 0x7a0508a1, 0x52f1ccf7);
    Next(AbcBlock(), 51, 0x7a0508a1, 0xf11bfaa8, 0x05757ceb, 0x4172328d, 0x52f1ccf7, 0x6e5c390c, 0xbd714038,
        0xfecf0bc6,
         0x34b0bcb5, 0xa9993667, 0x886e7a22, 0x49231c1e);
    Next(AbcBlock(), 52, 0x886e7a22, 0x7a0508a1, 0xf11bfaa8, 0x05757ceb, 0x49231c1e, 0x52f1ccf7, 0x6e5c390c,
        0xbd714038,
         0x391c0cb3, 0x84badedd, 0x101fd28f, 0x529e7d00);
    Next(AbcBlock(), 53, 0x101fd28f, 0x886e7a22, 0x7a0508a1, 0xf11bfaa8, 0x529e7d00, 0x49231c1e, 0x52f1ccf7,
        0x6e5c390c,
         0x4ed8aa4a, 0xc21462bc, 0xf5702fdb, 0x9f4787c3);
    Next(AbcBlock(), 54, 0xf5702fdb, 0x101fd28f, 0x886e7a22, 0x7a0508a1, 0x9f4787c3, 0x529e7d00, 0x49231c1e,
        0x52f1ccf7,
         0x5b9cca4f, 0x1487472c, 0x3ec45cdb, 0xe50e1b4f);
    Next(AbcBlock(), 55, 0x3ec45cdb, 0xf5702fdb, 0x101fd28f, 0x886e7a22, 0xe50e1b4f, 0x9f4787c3, 0x529e7d00,
        0x49231c1e,
         0x682e6ff3, 0xb20f7a99, 0x38cc9913, 0x54cb266b);
  }

  lemma AbcBlockRounds64()
    ensures At(AbcBlock(), 64, 0x506e3058, 0xd39a2165, 0x04d24d6c, 0xb85e2ce9, 0x5ef50f24, 0xfb121210,
        0x948d25b6, 0x961f4894)
  {
    hide W, Round, Rounds, At, K, Word;
    AbcBlockRounds56();
    Constants56();
    AbcBlockWords56();
    Next(AbcBlock(), 56, 0x38cc9913, 0x3ec45cdb, 0xf5702fdb, 0x101fd28f, 0x54cb266b, 0xe50e1b4f, 0x9f4787c3,
        0x529e7d00,
         0x748f82ee, 0xef57b9cd, 0xfcd1887b, 0x9b5e906c);
    Next(AbcBlock(), 57, 0xfcd1887b, 0x38cc9913, 0x3ec45cdb, 0xf5702fdb, 0x9b5e906c, 0x54cb266b, 0xe50e1b4f,
        0x9f4787c3,
         0x78a5636f, 0xebe6b238, 0xc062d46f, 0x7e44008e);
    Next(AbcBlock(), 58, 0xc062d46f, 0xfcd1887b, 0x38cc9913, 0x3ec45cdb, 0x7e44008e, 0x9b5e906c, 0x54cb266b,
        0xe50e1b4f,
         0x84c87814, 0x9fe3095e, 0xffb70472, 0x6d83bfc6);
    Next(AbcBlock(), 59, 0xffb70472, 0xc062d46f, 0xfcd1887b, 0x38cc9913, 0x6d83bfc6, 0x7e44008e, 0x9b5e906c,
        0x54cb266b,
         0x8cc70208, 0x78bc8d4b, 0xb6ae8fff, 0xb21bad3d);
    Next(AbcBlock(), 60, 0xb6ae8fff, 0xffb70472, 0xc062d46f, 0xfcd1887b, 0xb21bad3d, 0x6d83bfc6, 0x7e44008e,
        0x9b5e906c,
         0x90befffa, 0xa43fcf15, 0xb85e2ce9, 0x961f4894);
    Next(AbcBlock(), 61, 0xb85e2ce9, 0xb6ae8fff, 0xffb70472, 0xc062d46f, 0x961f4894, 0xb21bad3d, 0x6d83bfc6,
        0x7e44008e,
         0xa4506ceb, 0x668b2ff8, 0x04d24d6c, 0x948d25b6);
    Next(AbcBlock(), 62, 0x04d24d6c, 0xb85e2ce9, 0xb6ae8fff, 0xffb70472, 0x948d25b6, 0x961f4894, 0xb21bad3d,
        0x6d83bfc6,
         0xbef9a3f7, 0xeeaba2cc, 0xd39a2165, 0xfb121210);
    Next(AbcBlock(), 63, 0xd39a2165, 0x04d24d6c, 0xb85e2ce9, 0xb6ae8fff, 0xfb121210, 0x948d25b6, 0x961f4894,
        0xb21bad3d,
         0xc67178f2, 0x12b1edeb, 0x506e3058, 0x5ef50f24);
  }

  lemma AbcBlockCompressed()
    ensures Compress(INITIAL, AbcBlock()) == [0xba7816bf, 0x8f01cfea, 0x414140de, 0x5dae2223,
                                          0xb00361a3, 0x96177a9c, 0xb410ff61, 0xf20015ad]
  {
    hide W, Round, Rounds, K;
    AbcBlockRounds64();
  }

  // ---- "abc" ---------------------------------------------------------------------------------

  lemma LengthBytes(i: nat)
    requires i < 8
    ensures Be64(24)[i] == if i == 7 then 0x18 else 0
  {
    assert Shift(0) == 1;
    hide Shift;
    if i < 7 {
      ShiftGrows(7 - i);
      DivModUnique(24, Shift(7 - i), 0, 24);
    }
    assert (24 / Shift(7 - i)) % 256 == if i == 7 then 24 else 0;
  }

  lemma {:induction false} ShiftGrows(i: nat)
    requires i > 0
    ensures Shift(i) >= 256
  {
    if i > 1 { ShiftGrows(i - 1); }
  }

  lemma AbcPadding()
    ensures [0x61, 0x62, 0x63] + Padding(3) == AbcBlock()
  {
    hide Be64;
    forall i: nat | i < 8 ensures Be64(24)[i] == if i == 7 then 0x18 else 0 {
      LengthBytes(i);
    }
    assert Padding(3) == [0x80] + seq(52, i => 0) + Be64(24);
  }

  lemma WordNext(ws: seq<bv32>, w: bv32, bytes: seq<bv8>)
    requires Be32s(ws) == bytes
    ensures Be32s(ws + [w]) == bytes + Be32(w)
  {
    hide Be32;
    assert (ws + [w])[..|ws|] == ws;
  }

  lemma WordsOf(a: bv32, b: bv32, c: bv32, d: bv32, e: bv32, f: bv32, g: bv32, h: bv32)
    ensures Digest([a, b, c, d, e, f, g, h])
         == Be32(a) + Be32(b) + Be32(c) + Be32(d) + Be32(e) + Be32(f) + Be32(g) + Be32(h)
  {
    hide Be32;
    assert Be32s([]) == [];
    hide Be32s;
    FourMore([], [], a, b, c, d);
    assert [] + [a, b, c, d] == [a, b, c, d] && [] + Be32(a) == Be32(a);
    FourMore([a, b, c, d], Be32(a) + Be32(b) + Be32(c) + Be32(d), e, f, g, h);
    assert [a, b, c, d] + [e, f, g, h] == [a, b, c, d, e, f, g, h];
  }

  lemma FourMore(ws: seq<bv32>, bytes: seq<bv8>, e: bv32, f: bv32, g: bv32, h: bv32)
    requires Be32s(ws) == bytes
    ensures Be32s(ws + [e, f, g, h]) == bytes + Be32(e) + Be32(f) + Be32(g) + Be32(h)
  {
    hide Be32, Be32s;
    WordNext(ws, e, bytes);
    WordNext(ws + [e], f, bytes + Be32(e));
    WordNext(ws + [e] + [f], g, bytes + Be32(e) + Be32(f));
    WordNext(ws + [e] + [f] + [g], h, bytes + Be32(e) + Be32(f) + Be32(g));
    assert ws + [e] + [f] + [g] + [h] == ws + [e, f, g, h];
  }

  /** The example of one block of FIPS 180-4. */
  lemma AbcHash()
    ensures Hash([0x61, 0x62, 0x63])
         == [0xba, 0x78, 0x16, 0xbf, 0x8f, 0x01, 0xcf, 0xea]
          + [0x41, 0x41, 0x40, 0xde, 0x5d, 0xae, 0x22, 0x23]
          + [0xb0, 0x03, 0x61, 0xa3, 0x96, 0x17, 0x7a, 0x9c]
          + [0xb4, 0x10, 0xff, 0x61, 0xf2, 0x00, 0x15, 0xad]
  {
    hide *;
    var message: seq<bv8> := [0x61, 0x62, 0x63];
    AbcFinish(message);
    AbcDigest();
  }

  lemma AbcFinish(message: seq<bv8>)
    requires message == [0x61, 0x62, 0x63]
    ensures Hash(message) == Digest(Compress(INITIAL, AbcBlock()))
  {
    assert Whole(0);
    AbcPadding();
    hide Compress, Blocks, Padding, Digest, AbcBlock, Whole, Be32;
    FinishIs(INITIAL, 0, message);
    OneBlock(INITIAL, AbcBlock());
  }

  lemma AbcDigest()
    ensures Digest(Compress(INITIAL, AbcBlock()))
         == [0xba, 0x78, 0x16, 0xbf, 0x8f, 0x01, 0xcf, 0xea]
          + [0x41, 0x41, 0x40, 0xde, 0x5d, 0xae, 0x22, 0x23]
          + [0xb0, 0x03, 0x61, 0xa3, 0x96, 0x17, 0x7a, 0x9c]
          + [0xb4, 0x10, 0xff, 0x61, 0xf2, 0x00, 0x15, 0xad]
  {
    AbcBlockCompressed();
    hide Compress, Digest, Be32, Be32s, AbcBlock;
    WordsOf(0xba7816bf, 0x8f01cfea, 0x414140de, 0x5dae2223,
            0xb00361a3, 0x96177a9c, 0xb410ff61, 0xf20015ad);
    Bytes(0xba7816bf, 0xba, 0x78, 0x16, 0xbf);
    Bytes(0x8f01cfea, 0x8f, 0x01, 0xcf, 0xea);
    Bytes(0x414140de, 0x41, 0x41, 0x40, 0xde);
    Bytes(0x5dae2223, 0x5d, 0xae, 0x22, 0x23);
    Bytes(0xb00361a3, 0xb0, 0x03, 0x61, 0xa3);
    Bytes(0x96177a9c, 0x96, 0x17, 0x7a, 0x9c);
    Bytes(0xb410ff61, 0xb4, 0x10, 0xff, 0x61);
    Bytes(0xf20015ad, 0xf2, 0x00, 0x15, 0xad);
    assert Be32(0xba7816bf) + Be32(0x8f01cfea)
        == [0xba, 0x78, 0x16, 0xbf, 0x8f, 0x01, 0xcf, 0xea];
    assert Be32(0x414140de) + Be32(0x5dae2223)
        == [0x41, 0x41, 0x40, 0xde, 0x5d, 0xae, 0x22, 0x23];
    assert Be32(0xb00361a3) + Be32(0x96177a9c)
        == [0xb0, 0x03, 0x61, 0xa3, 0x96, 0x17, 0x7a, 0x9c];
    assert Be32(0xb410ff61) + Be32(0xf20015ad)
        == [0xb4, 0x10, 0xff, 0x61, 0xf2, 0x00, 0x15, 0xad];
    Pairs(Be32(0xba7816bf), Be32(0x8f01cfea), Be32(0x414140de), Be32(0x5dae2223), Be32(0xb00361a3),
        Be32(0x96177a9c), Be32(0xb410ff61), Be32(0xf20015ad));
  }

  lemma Pairs(a: seq<bv8>, b: seq<bv8>, c: seq<bv8>, d: seq<bv8>, e: seq<bv8>, f: seq<bv8>, g: seq<bv8>, h: seq<bv8>)
    ensures a + b + c + d + e + f + g + h == (a + b) + (c + d) + (e + f) + (g + h)
  {
  }

  lemma Bytes(v: bv32, a: bv8, b: bv8, c: bv8, d: bv8)
    requires Byte(v >> 24) == a && Byte(v >> 16) == b && Byte(v >> 8) == c && Byte(v) == d
    ensures Be32(v) == [a, b, c, d]
  {
    hide Byte;
  }
}
