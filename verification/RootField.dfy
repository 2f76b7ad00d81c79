/** The field in which the Bech32 generator has its roots, GF(1024), as far as it is needed:
    ten-bit words and the multiplication by one element b that generates the field. */
module RootField {
  import opened Arith
  import opened Polymod

  predicate Element(x: bv32) {
    x < 0x400
  }

  /** Multiplication by b, a root of x^10 + x^8 + x^5 + x + 1. */
  function Next(x: bv32): bv32 {
    Xor((x << 1) & 0x3ff, Term(x >> 9, 0x123))
  }

  /** Multiplication by the k-th power of b. */
  function Steps(x: bv32, k: nat): bv32
    decreases k
  {
    if k == 0 then x else Steps(Next(x), k - 1)
  }

  function Power(k: nat): bv32 {
    Steps(1, k)
  }

  function Half(m: bv32): bv32 {
    m >> 1
  }

  /** The first n bits of m select among x, b * x, b^2 * x and so on. */
  function Mul(m: bv32, x: bv32, n: nat): bv32
    decreases n
  {
    if n == 0 then 0 else Xor(Term(m, x), Mul(Half(m), Next(x), n - 1))
  }

  // ---- linearity ------------------------------------------------------------------------------

  lemma NextLinear(x: bv32, y: bv32)
    ensures Next(Xor(x, y)) == Xor(Next(x), Next(y))
  {
  }

  lemma NextElement(x: bv32)
    requires Element(x)
    ensures Element(Next(x)) && (Next(x) == 0 ==> x == 0)
  {
  }

  lemma TermCases(b: bv32, x: bv32, y: bv32)
    ensures (Term(b, x) == 0 && Term(b, y) == 0) || (Term(b, x) == x && Term(b, y) == y)
  {
    assert b & 1 == 0 || b & 1 == 1;
  }

  lemma ElementXor(x: bv32, y: bv32)
    requires Element(x) && Element(y)
    ensures Element(Xor(x, y))
  {
  }

  lemma {:induction false} StepsNext(x: bv32, k: nat)
    ensures Steps(x, k + 1) == Next(Steps(x, k))
    decreases k
  {
    hide Next;
    if k > 0 {
      StepsNext(Next(x), k - 1);
    }
  }

  lemma {:induction false} StepsAdd(x: bv32, j: nat, k: nat)
    ensures Steps(Steps(x, j), k) == Steps(x, j + k)
    decreases j
  {
    hide Next;
    if j > 0 {
      StepsAdd(Next(x), j - 1, k);
    }
  }

  lemma {:induction false} StepsLinear(x: bv32, y: bv32, k: nat)
    ensures Steps(Xor(x, y), k) == Xor(Steps(x, k), Steps(y, k))
    decreases k
  {
    hide Next, Xor;
    if k > 0 {
      NextLinear(x, y);
      StepsLinear(Next(x), Next(y), k - 1);
    }
  }

  lemma {:induction false} StepsElement(x: bv32, k: nat)
    requires Element(x)
    ensures Element(Steps(x, k)) && (Steps(x, k) == 0 ==> x == 0)
    decreases k
  {
    hide Next, Element;
    if k > 0 {
      NextElement(x);
      StepsElement(Next(x), k - 1);
    }
  }

  lemma {:induction false} StepsZero(k: nat)
    ensures Steps(0, k) == 0
  {
    if k > 0 {
      assert Next(0) == 0;
      StepsZero(k - 1);
    }
  }

  lemma StepsTerm(b: bv32, x: bv32, k: nat)
    ensures Steps(Term(b, x), k) == Term(b, Steps(x, k))
  {
    TermCases(b, x, Steps(x, k));
    StepsZero(k);
    hide Term, Steps;
  }

  lemma {:induction false} StepsTimes(x: bv32, k: nat, n: nat)
    requires Steps(x, k) == x
    ensures Steps(x, n * k) == x
  {
    if n > 0 {
      StepsTimes(x, k, n - 1);
      StepsAdd(x, (n - 1) * k, k);
      MulDistrib(n - 1, 1, k);
    }
  }

  // ---- products -------------------------------------------------------------------------------

  lemma {:induction false} MulNext(m: bv32, x: bv32, n: nat)
    ensures Mul(m, Next(x), n) == Next(Mul(m, x, n))
    decreases n
  {
    if n > 0 {
      MulNext(Half(m), Next(x), n - 1);
      NextLinear(Term(m, x), Mul(Half(m), Next(x), n - 1));
      StepsTerm(m, x, 1);
      hide Next, Xor, Term;
      assert Steps(x, 1) == Next(x) && Steps(Term(m, x), 1) == Next(Term(m, x));
    } else {
      assert Next(0) == 0;
    }
  }

  lemma {:induction false} MulLinear(m: bv32, x: bv32, y: bv32, n: nat)
    ensures Mul(m, Xor(x, y), n) == Xor(Mul(m, x, n), Mul(m, y, n))
    decreases n
  {
    if n > 0 {
      MulLinear(Half(m), Next(x), Next(y), n - 1);
      NextLinear(x, y);
      TermXor(m, x, y);
      XorSwap(Term(m, x), Term(m, y), Mul(Half(m), Next(x), n - 1), Mul(Half(m), Next(y), n - 1));
      hide Next, Xor, Term;
    } else {
      XorZero(0);
    }
  }

  lemma TermXor(b: bv32, x: bv32, y: bv32)
    ensures Term(b, Xor(x, y)) == Xor(Term(b, x), Term(b, y))
  {
    TermCases(b, x, y);
    TermCases(b, x, Xor(x, y));
    TermCases(b, y, Xor(x, y));
    hide Term;
    XorZero(x);
    XorZero(y);
    XorZero(0);
  }

  lemma {:induction false} MulZero(m: bv32, n: nat)
    ensures Mul(m, 0, n) == 0
    decreases n
  {
    if n > 0 {
      assert Next(0) == 0;
      MulZero(Half(m), n - 1);
      TermCases(m, 0, 0);
      XorZero(0);
      hide Next, Xor, Term;
    }
  }

  lemma MulTerm(m: bv32, b: bv32, x: bv32, n: nat)
    ensures Mul(m, Term(b, x), n) == Term(b, Mul(m, x, n))
  {
    TermCases(b, x, Mul(m, x, n));
    MulZero(m, n);
    hide Term, Mul;
  }

  function Drop(m: bv32, j: nat): bv32
    decreases j
  {
    if j == 0 then m else Drop(Half(m), j - 1)
  }

  /** Mul over all ten bits, half by half. */
  function Times(m: bv32, x: bv32): bv32 {
    Xor(Mul(m, x, 5), Mul(Drop(m, 5), Steps(x, 5), 5))
  }

  lemma {:induction false} MulSplit(m: bv32, x: bv32, j: nat, n: nat)
    ensures Mul(m, x, j + n) == Xor(Mul(m, x, j), Mul(Drop(m, j), Steps(x, j), n))
    decreases j
  {
    if j > 0 {
      MulSplit(Half(m), Next(x), j - 1, n);
      XorAssoc(Term(m, x), Mul(Half(m), Next(x), j - 1), Mul(Drop(Half(m), j - 1), Steps(Next(x), j - 1), n));
      hide Next, Xor, Term;
    } else {
      XorZero(Mul(m, x, n));
      hide Next, Xor, Term;
    }
  }

  lemma TimesIsMul(m: bv32, x: bv32)
    ensures Times(m, x) == Mul(m, x, 10)
  {
    MulSplit(m, x, 5, 5);
    hide Mul, Xor, Steps, Drop;
  }

  lemma LowBits(m: bv32)
    ensures Term(m, 1) == m & 1 && Term(Half(m), 2) == m & 2
    ensures Term(Half(Half(m)), 4) == m & 4
    ensures Term(Half(Half(Half(m))), 8) == m & 8
    ensures Term(Half(Half(Half(Half(m)))), 16) == m & 16
  {
  }

  lemma HighBits(m: bv32)
    ensures Term(m, 0x20) == (m & 1) << 5 && Term(Half(m), 0x40) == (m & 2) << 5
    ensures Term(Half(Half(m)), 0x80) == (m & 4) << 5
    ensures Term(Half(Half(Half(m))), 0x100) == (m & 8) << 5
    ensures Term(Half(Half(Half(Half(m)))), 0x200) == (m & 16) << 5
  {
  }

  lemma JoinBits(m: bv32)
    ensures Xor(m & 1, Xor(m & 2, Xor(m & 4, Xor(m & 8, Xor(m & 16, 0))))) == m & 0x1f
    ensures Xor((m & 1) << 5, Xor((m & 2) << 5, Xor((m & 4) << 5, Xor((m & 8) << 5, Xor((m & 16) << 5, 0)))))
         == (m & 0x1f) << 5
  {
  }

  lemma MulFive(m: bv32, x: bv32, x1: bv32, x2: bv32, x3: bv32, x4: bv32)
    requires Next(x) == x1 && Next(x1) == x2 && Next(x2) == x3 && Next(x3) == x4
    ensures Mul(m, x, 5) ==
            Xor(Term(m, x), Xor(Term(Half(m), x1), Xor(Term(Half(Half(m)), x2), Xor(Term(Half(Half(Half(m))), x3),
              Xor(Term(Half(Half(Half(Half(m)))), x4), 0)))))
  {
    hide Next, Xor, Term, Half;
    var m1 := Half(m);
    var m2 := Half(m1);
    var m3 := Half(m2);
    var m4 := Half(m3);
    assert Mul(m4, x4, 1) == Xor(Term(m4, x4), Mul(Half(m4), Next(x4), 0));
    assert Mul(m3, x3, 2) == Xor(Term(m3, x3), Mul(m4, x4, 1));
    assert Mul(m2, x2, 3) == Xor(Term(m2, x2), Mul(m3, x3, 2));
    assert Mul(m1, x1, 4) == Xor(Term(m1, x1), Mul(m2, x2, 3));
  }

  lemma HalvesJoin(x: bv32)
    requires Element(x)
    ensures Xor(x & 0x1f, (Drop(x, 5) & 0x1f) << 5) == x
  {
  }

  lemma FirstSteps()
    ensures Next(1) == 2 && Next(2) == 4 && Next(4) == 8 && Next(8) == 16 && Next(16) == 0x20
    ensures Next(0x20) == 0x40 && Next(0x40) == 0x80 && Next(0x80) == 0x100 && Next(0x100) == 0x200
    ensures Steps(1, 5) == 0x20
  {
  }

  lemma LowHalf(m: bv32)
    ensures Mul(m, 1, 5) == m & 0x1f
  {
    FirstSteps();
    hide Next, Mul, Steps, Xor, Term, Half;
    MulFive(m, 1, 2, 4, 8, 16);
    LowBits(m);
    JoinBits(m);
  }

  lemma HighHalf(m: bv32)
    ensures Mul(m, 0x20, 5) == (m & 0x1f) << 5
  {
    FirstSteps();
    hide Next, Mul, Steps, Xor, Term, Half;
    MulFive(m, 0x20, 0x40, 0x80, 0x100, 0x200);
    HighBits(m);
    JoinBits(m);
  }

  lemma MulOne(x: bv32)
    requires Element(x)
    ensures Mul(x, 1, 10) == x
  {
    TimesIsMul(x, 1);
    FirstSteps();
    HalvesJoin(x);
    LowHalf(x);
    HighHalf(Drop(x, 5));
    hide Drop, Next, Mul, Steps, Xor, Term;
  }

  /** Products can be taken in either order. */
  lemma {:induction false} MulSwap(d: bv32, k: nat, m: bv32, x: bv32, n: nat)
    ensures Mul(d, Mul(m, x, n), k) == Mul(m, Mul(d, x, k), n)
    decreases n
  {
    if n > 0 {
      MulLinear(d, Term(m, x), Mul(Half(m), Next(x), n - 1), k);
      MulTerm(d, m, x, k);
      MulSwap(d, k, Half(m), Next(x), n - 1);
      MulNext(d, x, k);
      hide Next, Xor, Term;
    } else {
      MulZero(d, k);
    }
  }

  /** A power of b times x is the combination of the multiples of that power that x selects. */
  lemma {:induction false} StepsIsMul(x: bv32, k: nat)
    requires Element(x)
    ensures Steps(x, k) == Mul(x, Power(k), 10)
  {
    if k == 0 {
      MulOne(x);
    } else {
      StepsIsMul(x, k - 1);
      StepsNext(x, k - 1);
      StepsNext(1, k - 1);
      MulNext(x, Power(k - 1), 10);
    }
  }

  lemma Product(j: nat, x: bv32, k: nat, y: bv32, z: bv32)
    requires Power(j) == x && Power(k) == y && Times(x, y) == z
    ensures Power(j + k) == z
  {
    assert Element(1);
    StepsElement(1, j);
    StepsAdd(1, j, k);
    StepsIsMul(x, k);
    TimesIsMul(x, y);
    hide Mul, Times;
  }

  lemma PowerOne()
    ensures Power(1) == 0x002
  {
  }

  lemma PowersTo4()
    ensures Power(2) == 0x004 && Power(3) == 0x008 && Power(4) == 0x010
  {
    hide Power;
    PowerOne();
    Product(1, 0x002, 1, 0x002, 0x004);
    Product(2, 0x004, 1, 0x002, 0x008);
    Product(2, 0x004, 2, 0x004, 0x010);
  }

  lemma PowersTo8()
    ensures Power(3) == 0x008 && Power(6) == 0x040 && Power(8) == 0x100
  {
    hide Power;
    PowersTo4();
    Product(4, 0x010, 2, 0x004, 0x040);
    Product(4, 0x010, 4, 0x010, 0x100);
  }

  lemma PowersTo32()
    ensures Power(16) == 0x119 && Power(24) == 0x3f0 && Power(32) == 0x058
  {
    hide Power;
    PowersTo8();
    Product(8, 0x100, 8, 0x100, 0x119);
    Product(16, 0x119, 8, 0x100, 0x3f0);
    Product(16, 0x119, 16, 0x119, 0x058);
  }

  lemma PowersTo64()
    ensures Power(25) == 0x2c3 && Power(26) == 0x0a5 && Power(33) == 0x0b0
    ensures Power(64) == 0x0ef
  {
    hide Power;
    PowerOne();
    PowersTo32();
    Product(24, 0x3f0, 1, 0x002, 0x2c3);
    Product(25, 0x2c3, 1, 0x002, 0x0a5);
    Product(32, 0x058, 1, 0x002, 0x0b0);
    Product(32, 0x058, 32, 0x058, 0x0ef);
  }

  lemma PowersOfRoots()
    ensures Power(144) == 0x2ba && Power(150) == 0x0a6 && Power(156) == 0x098
  {
    hide Power;
    PowersTo8();
    PowersTo32();
    PowersTo64();
    Product(64, 0x0ef, 64, 0x0ef, 0x346);
    Product(128, 0x346, 16, 0x119, 0x2ba);
    Product(144, 0x2ba, 6, 0x040, 0x0a6);
    Product(150, 0x0a6, 6, 0x040, 0x098);
  }

  lemma Power93()
    ensures Power(93) == 0x36a
  {
    hide Power;
    PowersTo8();
    PowersTo64();
    Product(64, 0x0ef, 26, 0x0a5, 0x3b4);
    Product(90, 0x3b4, 3, 0x008, 0x36a);
  }

  lemma Power320()
    ensures Power(320) == 0x27a
  {
    hide Power;
    PowersTo64();
    Product(64, 0x0ef, 64, 0x0ef, 0x346);
    Product(128, 0x346, 128, 0x346, 0x1e5);
    Product(256, 0x1e5, 64, 0x0ef, 0x27a);
  }

  lemma Power336()
    ensures Power(336) == 0x2c2
  {
    hide Power;
    PowersTo32();
    Power320();
    Product(320, 0x27a, 16, 0x119, 0x2c2);
  }

  lemma Power341()
    ensures Power(341) == 0x036
  {
    hide Power;
    PowerOne();
    PowersTo4();
    Power336();
    Product(336, 0x2c2, 4, 0x010, 0x01b);
    Product(340, 0x01b, 1, 0x002, 0x036);
  }

  lemma PowersToOrder()
    ensures Power(1023) == 0x001
  {
    hide Power;
    Power341();
    Product(341, 0x036, 341, 0x036, 0x037);
    Product(682, 0x037, 341, 0x036, 0x001);
  }

  // ---- the order of b ---------------------------------------------------------------------------

  /** No element but 0 is a multiple of itself by a power whose difference from 1 has an inverse. */
  lemma NoFixed(x: bv32, k: nat, c: bv32, g: bv32, inverse: bv32)
    requires Element(x) && Steps(x, k) == x && Power(k) == c && Xor(c, 1) == g && Times(inverse, g) == 1
    ensures x == 0
  {
    StepsIsMul(x, k);
    MulOne(x);
    TimesIsMul(inverse, g);
    MulLinear(x, c, 1, 10);
    XorEqual(x, x);
    MulSwap(inverse, 10, x, g, 10);
    MulZero(inverse, 10);
    hide Mul, Xor, Steps, Times;
  }

  lemma NoFixed33(x: bv32)
    requires Element(x) && Steps(x, 33) == x
    ensures x == 0
  {
    PowersTo64();
    NoFixed(x, 33, 0x0b0, 0x0b1, 0x0be);
  }

  lemma NoFixed93(x: bv32)
    requires Element(x) && Steps(x, 93) == x
    ensures x == 0
  {
    Power93();
    NoFixed(x, 93, 0x36a, 0x36b, 0x0d3);
  }

  lemma NoFixed341(x: bv32)
    requires Element(x) && Steps(x, 341) == x
    ensures x == 0
  {
    Power341();
    NoFixed(x, 341, 0x036, 0x037, 0x036);
  }

  /** 1023 is 3 * 11 * 31. */
  lemma Divisors(k: nat, q: nat)
    requires q * k == 1023 && q > 1
    ensures 33 % k == 0 || 93 % k == 0 || 341 % k == 0
  {
    if q > 31 {
      if k > 31 { ProductMono(32, q, 32, k); }
      SmallDivisor(k, q);
    } else {
      SmallDivisor(q, k);
    }
  }

  lemma SmallDivisor(k: nat, q: nat)
    requires k <= 31 && q * k == 1023
    ensures k == 1 || (k == 3 && q == 341) || (k == 11 && q == 93) || (k == 31 && q == 33)
  {
  }

  /** Fewer than 1023 steps bring no element back but 0. */
  lemma {:induction false} NoReturn(x: bv32, k: nat)
    requires Element(x) && Steps(x, k) == x && 0 < k < 1023
    ensures x == 0
    decreases k
  {
    var q, r := 1023 / k, 1023 % k;
    DivModIdentity(1023, k);
    StepsTimes(x, k, q);
    FullTurn(x);
    StepsAdd(x, q * k, r);
    hide Steps, Power;
    if r > 0 {
      NoReturn(x, r);
    } else {
      Divisors(k, q);
      var n := if 33 % k == 0 then 33 else if 93 % k == 0 then 93 else 341;
      DivModIdentity(n, k);
      StepsTimes(x, k, n / k);
      if n == 33 { NoFixed33(x); } else if n == 93 { NoFixed93(x); } else { NoFixed341(x); }
    }
  }

  lemma FullTurn(x: bv32)
    requires Element(x)
    ensures Steps(x, 1023) == x
  {
    PowersToOrder();
    StepsIsMul(x, 1023);
    MulOne(x);
    hide Steps, Mul, Power;
  }
}
