/** Scattered wrong symbols in a Bech32 data part. The generator of the code has three
    neighbouring powers of one field element among its roots, so no three symbols fewer
    than 1023 places apart, wrong in whatever way, leave the register as it was. */
module ScatteredErrors {
  import opened Bytes
  import opened Arith
  import opened Digits
  import opened Polymod
  import opened RootField

  // ---- a difference left to itself ----------------------------------------------------------

  /** The register after k steps without input. */
  function Orbit(r: bv32, k: nat): bv32
    decreases k
  {
    if k == 0 then r else Orbit(PolymodStep(r), k - 1)
  }

  lemma {:induction false} OrbitNext(r: bv32, k: nat)
    ensures Orbit(r, k + 1) == PolymodStep(Orbit(r, k))
    decreases k
  {
    hide PolymodStep;
    if k > 0 {
      OrbitNext(PolymodStep(r), k - 1);
    }
  }

  lemma {:induction false} OrbitFits(r: bv32, k: nat)
    requires Fits(r)
    ensures Fits(Orbit(r, k))
    decreases k
  {
    hide PolymodStep, Fits;
    if k > 0 {
      StepFits(r, 0);
      OrbitFits(PolymodStep(r), k - 1);
    }
  }

  // ---- symbols in the larger field --------------------------------------------------------------

  /** A symbol of GF(32) as an element of the larger field: five powers of an element of
      order 31, combined. */
  function Image(s: bv32): bv32 {
    Xor(Xor(Low(s), Term(s >> 3, 0x358)), Term(s >> 4, 0x0bf))
  }

  function Low(s: bv32): bv32 {
    Xor(Xor(Term(s >> 0, 0x001), Term(s >> 1, 0x00e)), Term(s >> 2, 0x054))
  }

  lemma ImageElement(s: bv32)
    ensures Element(Image(s))
  {
  }

  lemma ImageZero(s: bv32)
    requires s < 32
    ensures Image(s) == 0 <==> s == 0
  {
  }

  lemma LowLinear(s: bv32, t: bv32)
    ensures Low(Xor(s, t)) == Xor(Low(s), Low(t))
  {
  }

  lemma FourthLinear(s: bv32, t: bv32)
    ensures Term(Xor(s, t) >> 3, 0x358) == Xor(Term(s >> 3, 0x358), Term(t >> 3, 0x358))
  {
  }

  lemma FifthLinear(s: bv32, t: bv32)
    ensures Term(Xor(s, t) >> 4, 0x0bf) == Xor(Term(s >> 4, 0x0bf), Term(t >> 4, 0x0bf))
  {
  }

  lemma ImageLinear(s: bv32, t: bv32)
    ensures Image(Xor(s, t)) == Xor(Image(s), Image(t))
  {
    LowLinear(s, t);
    FourthLinear(s, t);
    FifthLinear(s, t);
    XorSwap(Low(s), Low(t), Term(s >> 3, 0x358), Term(t >> 3, 0x358));
    XorSwap(Xor(Low(s), Term(s >> 3, 0x358)), Xor(Low(t), Term(t >> 3, 0x358)),
            Term(s >> 4, 0x0bf), Term(t >> 4, 0x0bf));
    hide Low, Term, Xor;
  }

  // ---- registers at a root of the generator ----------------------------------------------------

  /** Six elements: the coefficients of a polynomial of degree five, the highest first. */
  datatype Elements = Six(a: bv32, b: bv32, c: bv32, d: bv32, e: bv32, f: bv32)

  /** What evaluating a polynomial goes through. */
  datatype Values = Five(v1: bv32, v2: bv32, v3: bv32, v4: bv32, v5: bv32)

  /** The value of a polynomial at the n-th power of b. */
  function Horner(n: nat, p: Elements): bv32 {
    Xor(Steps(Xor(Steps(Xor(Steps(Xor(Steps(Xor(Steps(p.a, n), p.b), n), p.c), n), p.d), n), p.e), n), p.f)
  }

  /** The six symbols of a register. */
  function Images(r: bv32): Elements {
    Six(Image(Field(r, 0)), Image(Field(r, 1)), Image(Field(r, 2)),
        Image(Field(r, 3)), Image(Field(r, 4)), Image(Field(r, 5)))
  }

  function Eval(n: nat, r: bv32): bv32 {
    Horner(n, Images(r))
  }

  predicate AllElements(p: Elements) {
    Element(p.a) && Element(p.b) && Element(p.c) && Element(p.d) && Element(p.e) && Element(p.f)
  }

  /** One turn of the evaluation. */
  lemma Fold(n: nat, p: bv32, x: bv32, s: bv32, y: bv32)
    requires Element(x) && Element(s) && Power(n) == p && Xor(Times(x, p), s) == y
    ensures Xor(Steps(x, n), s) == y && Element(y)
  {
    StepsIsMul(x, n);
    TimesIsMul(x, p);
    StepsElement(x, n);
    ElementXor(Steps(x, n), s);
    hide Times, Mul, Xor, Steps;
  }

  /** The value of r at a root is z times its sixth power, as if r were z * x^6. */
  predicate Rooted(n: nat, r: bv32, z: bv32) {
    Eval(n, r) == Steps(z, 6 * n)
  }

  lemma EvalIs(n: nat, p: bv32, p6: bv32, r: bv32, z: bv32, s: Elements, v: Values)
    requires Images(r) == s && Power(n) == p && Power(6 * n) == p6 && AllElements(s) && Element(z)
    requires Xor(Times(s.a, p), s.b) == v.v1 && Xor(Times(v.v1, p), s.c) == v.v2 && Xor(Times(v.v2, p), s.d) == v.v3
    requires Xor(Times(v.v3, p), s.e) == v.v4 && Xor(Times(v.v4, p), s.f) == v.v5 && Times(z, p6) == v.v5
    ensures Rooted(n, r, z)
  {
    hide Images, Power, Times, Xor, Steps, Element;
    Fold(n, p, s.a, s.b, v.v1);
    Fold(n, p, v.v1, s.c, v.v2);
    Fold(n, p, v.v2, s.d, v.v3);
    Fold(n, p, v.v3, s.e, v.v4);
    Fold(n, p, v.v4, s.f, v.v5);
    StepsIsMul(z, 6 * n);
    TimesIsMul(z, p6);
  }

  lemma Images0()
    ensures Images(0x3b6a57b2) == Six(0x3b2, 0x0e5, 0x0eb, 0x0ea, 0x3b2, 0x0b1)
  {
  }

  lemma Images1()
    ensures Images(0x26508e6d) == Six(0x0b0, 0x055, 0x001, 0x00f, 0x0b0, 0x30d)
  {
  }

  lemma Images2()
    ensures Images(0x1ea119fa) == Six(0x303, 0x356, 0x00e, 0x05a, 0x303, 0x3e9)
  {
  }

  lemma Images3()
    ensures Images(0x3d4233dd) == Six(0x3bd, 0x0eb, 0x054, 0x30c, 0x3bd, 0x3b2)
  {
  }

  lemma Images4()
    ensures Images(0x2a1462b3) == Six(0x0ea, 0x001, 0x358, 0x3e7, 0x0ea, 0x0b0)
  {
  }

  lemma Root24At0()
    ensures Rooted(24, 0x3b6a57b2, 0x001)
  {
    PowersTo32();
    PowersOfRoots();
    Images0();
    hide Power, Images, Rooted;
    EvalIs(24, 0x3f0, 0x2ba, 0x3b6a57b2, 0x001, Six(0x3b2, 0x0e5, 0x0eb, 0x0ea, 0x3b2, 0x0b1),
           Five(0x07d, 0x07d, 0x07c, 0x0d4, 0x2ba));
  }

  lemma Root24At1()
    ensures Rooted(24, 0x26508e6d, 0x00e)
  {
    PowersTo32();
    PowersOfRoots();
    Images1();
    hide Power, Images, Rooted;
    EvalIs(24, 0x3f0, 0x2ba, 0x26508e6d, 0x00e, Six(0x0b0, 0x055, 0x001, 0x00f, 0x0b0, 0x30d),
           Five(0x2e6, 0x2e6, 0x2e8, 0x17b, 0x1a5));
  }

  lemma Root24At2()
    ensures Rooted(24, 0x1ea119fa, 0x054)
  {
    PowersTo32();
    PowersOfRoots();
    Images2();
    hide Power, Images, Rooted;
    EvalIs(24, 0x3f0, 0x2ba, 0x1ea119fa, 0x054, Six(0x303, 0x356, 0x00e, 0x05a, 0x303, 0x3e9),
           Five(0x28d, 0x28d, 0x2d9, 0x3a7, 0x2b0));
  }

  lemma Root24At3()
    ensures Rooted(24, 0x3d4233dd, 0x358)
  {
    PowersTo32();
    PowersOfRoots();
    Images3();
    hide Power, Images, Rooted;
    EvalIs(24, 0x3f0, 0x2ba, 0x3d4233dd, 0x358, Six(0x3bd, 0x0eb, 0x054, 0x30c, 0x3bd, 0x3b2),
           Five(0x0af, 0x0af, 0x3f7, 0x066, 0x1c9));
  }

  lemma Root24At4()
    ensures Rooted(24, 0x2a1462b3, 0x0bf)
  {
    PowersTo32();
    PowersOfRoots();
    Images4();
    hide Power, Images, Rooted;
    EvalIs(24, 0x3f0, 0x2ba, 0x2a1462b3, 0x0bf, Six(0x0ea, 0x001, 0x358, 0x3e7, 0x0ea, 0x0b0),
           Five(0x3b9, 0x3b9, 0x306, 0x264, 0x0b8));
  }

  lemma Root25At0()
    ensures Rooted(25, 0x3b6a57b2, 0x001)
  {
    PowersTo64();
    PowersOfRoots();
    Images0();
    hide Power, Images, Rooted;
    EvalIs(25, 0x2c3, 0x0a6, 0x3b6a57b2, 0x001, Six(0x3b2, 0x0e5, 0x0eb, 0x0ea, 0x3b2, 0x0b1),
           Five(0x1d5, 0x3ad, 0x069, 0x3df, 0x0a6));
  }

  lemma Root25At1()
    ensures Rooted(25, 0x26508e6d, 0x00e)
  {
    PowersTo64();
    PowersOfRoots();
    Images1();
    hide Power, Images, Rooted;
    EvalIs(25, 0x2c3, 0x0a6, 0x26508e6d, 0x00e, Six(0x0b0, 0x055, 0x001, 0x00f, 0x0b0, 0x30d),
           Five(0x010, 0x00a, 0x23e, 0x2b6, 0x3c7));
  }

  lemma Root25At2()
    ensures Rooted(25, 0x1ea119fa, 0x054)
  {
    PowersTo64();
    PowersOfRoots();
    Images2();
    hide Power, Images, Rooted;
    EvalIs(25, 0x2c3, 0x0a6, 0x1ea119fa, 0x054, Six(0x303, 0x356, 0x00e, 0x05a, 0x303, 0x3e9),
           Five(0x0e0, 0x06c, 0x3be, 0x1ed, 0x226));
  }

  lemma Root25At3()
    ensures Rooted(25, 0x3d4233dd, 0x358)
  {
    PowersTo64();
    PowersOfRoots();
    Images3();
    hide Power, Images, Rooted;
    EvalIs(25, 0x2c3, 0x0a6, 0x3d4233dd, 0x358, Six(0x3bd, 0x0eb, 0x054, 0x30c, 0x3bd, 0x3b2),
           Five(0x063, 0x208, 0x0f8, 0x140, 0x32e));
  }

  lemma Root25At4()
    ensures Rooted(25, 0x2a1462b3, 0x0bf)
  {
    PowersTo64();
    PowersOfRoots();
    Images4();
    hide Power, Images, Rooted;
    EvalIs(25, 0x2c3, 0x0a6, 0x2a1462b3, 0x0bf, Six(0x0ea, 0x001, 0x358, 0x3e7, 0x0ea, 0x0b0),
           Five(0x252, 0x2ba, 0x0f3, 0x2e5, 0x23b));
  }

  lemma Root26At0()
    ensures Rooted(26, 0x3b6a57b2, 0x001)
  {
    PowersTo64();
    PowersOfRoots();
    Images0();
    hide Power, Images, Rooted;
    EvalIs(26, 0x0a5, 0x098, 0x3b6a57b2, 0x001, Six(0x3b2, 0x0e5, 0x0eb, 0x0ea, 0x3b2, 0x0b1),
           Five(0x285, 0x0aa, 0x137, 0x193, 0x098));
  }

  lemma Root26At1()
    ensures Rooted(26, 0x26508e6d, 0x00e)
  {
    PowersTo64();
    PowersOfRoots();
    Images1();
    hide Power, Images, Rooted;
    EvalIs(26, 0x0a5, 0x098, 0x26508e6d, 0x00e, Six(0x0b0, 0x055, 0x001, 0x00f, 0x0b0, 0x30d),
           Five(0x0df, 0x38f, 0x06f, 0x3b4, 0x2b3));
  }

  lemma Root26At2()
    ensures Rooted(26, 0x1ea119fa, 0x054)
  {
    PowersTo64();
    PowersOfRoots();
    Images2();
    hide Power, Images, Rooted;
    EvalIs(26, 0x0a5, 0x098, 0x1ea119fa, 0x054, Six(0x303, 0x356, 0x00e, 0x05a, 0x303, 0x3e9),
           Five(0x119, 0x1d6, 0x21a, 0x094, 0x1db));
  }

  lemma Root26At3()
    ensures Rooted(26, 0x3d4233dd, 0x358)
  {
    PowersTo64();
    PowersOfRoots();
    Images3();
    hide Power, Images, Rooted;
    EvalIs(26, 0x0a5, 0x098, 0x3d4233dd, 0x358, Six(0x3bd, 0x0eb, 0x054, 0x30c, 0x3bd, 0x3b2),
           Five(0x1fb, 0x002, 0x246, 0x2fb, 0x044));
  }

  lemma Root26At4()
    ensures Rooted(26, 0x2a1462b3, 0x0bf)
  {
    PowersTo64();
    PowersOfRoots();
    Images4();
    hide Power, Images, Rooted;
    EvalIs(26, 0x0a5, 0x098, 0x2a1462b3, 0x0bf, Six(0x0ea, 0x001, 0x358, 0x3e7, 0x0ea, 0x0b0),
           Five(0x184, 0x01c, 0x16e, 0x22b, 0x3b8));
  }

  lemma RootedAll(n: nat)
    requires 24 <= n <= 26
    ensures Rooted(n, 0x3b6a57b2, 0x001) && Rooted(n, 0x26508e6d, 0x00e) && Rooted(n, 0x1ea119fa, 0x054)
    ensures Rooted(n, 0x3d4233dd, 0x358) && Rooted(n, 0x2a1462b3, 0x0bf)
  {
    hide Rooted;
    if n == 24 {
      Root24At0(); Root24At1(); Root24At2(); Root24At3(); Root24At4();
    } else if n == 25 {
      Root25At0(); Root25At1(); Root25At2(); Root25At3(); Root25At4();
    } else {
      Root26At0(); Root26At1(); Root26At2(); Root26At3(); Root26At4();
    }
  }

  function XorAll(p: Elements, q: Elements): Elements {
    Six(Xor(p.a, q.a), Xor(p.b, q.b), Xor(p.c, q.c), Xor(p.d, q.d), Xor(p.e, q.e), Xor(p.f, q.f))
  }

  lemma TurnLinear(n: nat, x: bv32, y: bv32, s: bv32, t: bv32)
    ensures Xor(Steps(Xor(x, y), n), Xor(s, t)) == Xor(Xor(Steps(x, n), s), Xor(Steps(y, n), t))
  {
    StepsLinear(x, y, n);
    XorSwap(Steps(x, n), Steps(y, n), s, t);
  }

  lemma HornerLinear(n: nat, p: Elements, q: Elements)
    ensures Horner(n, XorAll(p, q)) == Xor(Horner(n, p), Horner(n, q))
  {
    hide Steps, Xor;
    TurnLinear(n, p.a, q.a, p.b, q.b);
    var x1, y1 := Xor(Steps(p.a, n), p.b), Xor(Steps(q.a, n), q.b);
    TurnLinear(n, x1, y1, p.c, q.c);
    var x2, y2 := Xor(Steps(x1, n), p.c), Xor(Steps(y1, n), q.c);
    TurnLinear(n, x2, y2, p.d, q.d);
    var x3, y3 := Xor(Steps(x2, n), p.d), Xor(Steps(y2, n), q.d);
    TurnLinear(n, x3, y3, p.e, q.e);
    var x4, y4 := Xor(Steps(x3, n), p.e), Xor(Steps(y3, n), q.e);
    TurnLinear(n, x4, y4, p.f, q.f);
  }

  lemma Field0Linear(r: bv32, q: bv32)
    ensures Field(Xor(r, q), 0) == Xor(Field(r, 0), Field(q, 0))
  {
  }

  lemma Field1Linear(r: bv32, q: bv32)
    ensures Field(Xor(r, q), 1) == Xor(Field(r, 1), Field(q, 1))
  {
  }

  lemma Field2Linear(r: bv32, q: bv32)
    ensures Field(Xor(r, q), 2) == Xor(Field(r, 2), Field(q, 2))
  {
  }

  lemma Field3Linear(r: bv32, q: bv32)
    ensures Field(Xor(r, q), 3) == Xor(Field(r, 3), Field(q, 3))
  {
  }

  lemma Field4Linear(r: bv32, q: bv32)
    ensures Field(Xor(r, q), 4) == Xor(Field(r, 4), Field(q, 4))
  {
  }

  lemma Field5Linear(r: bv32, q: bv32)
    ensures Field(Xor(r, q), 5) == Xor(Field(r, 5), Field(q, 5))
  {
  }

  lemma EvalLinear(n: nat, r: bv32, q: bv32)
    ensures Eval(n, Xor(r, q)) == Xor(Eval(n, r), Eval(n, q))
  {
    hide Horner, Field, Image, Xor;
    Field0Linear(r, q);
    Field1Linear(r, q);
    Field2Linear(r, q);
    Field3Linear(r, q);
    Field4Linear(r, q);
    Field5Linear(r, q);
    ImageLinear(Field(r, 0), Field(q, 0));
    ImageLinear(Field(r, 1), Field(q, 1));
    ImageLinear(Field(r, 2), Field(q, 2));
    ImageLinear(Field(r, 3), Field(q, 3));
    ImageLinear(Field(r, 4), Field(q, 4));
    ImageLinear(Field(r, 5), Field(q, 5));
    HornerLinear(n, Images(r), Images(q));
  }

  lemma SymbolFields(s: bv32)
    requires s < 32
    ensures Field(s, 0) == 0 && Field(s, 1) == 0 && Field(s, 2) == 0 && Field(s, 3) == 0 && Field(s, 4) == 0
    ensures Field(s, 5) == s
  {
  }

  /** A single symbol has its own value everywhere. */
  lemma EvalSymbol(n: nat, s: bv32)
    requires s < 32
    ensures Eval(n, s) == Image(s)
  {
    SymbolFields(s);
    ImageZero(0);
    StepsZero(n);
    XorZero(0);
    XorZero(Image(s));
    hide Field, Image, Xor, Steps;
  }

  lemma EvalTerm(n: nat, b: bv32, g: bv32)
    ensures Eval(n, Term(b, g)) == Term(b, Eval(n, g))
  {
    TermCases(b, g, Eval(n, g));
    EvalSymbol(n, 0);
    ImageZero(0);
    hide Term, Eval, Image;
  }

  lemma FeedbackParts(r: bv32)
    ensures var b := r >> 25;
            Feedback(r) == Sum(Term(b >> 0, 0x3b6a57b2), Term(b >> 1, 0x26508e6d), Term(b >> 2, 0x1ea119fa),
                               Term(b >> 3, 0x3d4233dd), Term(b >> 4, 0x2a1462b3))
    ensures Fits(r) ==> r >> 25 == Field(r, 0)
  {
  }

  lemma EvalPart(n: nat, b: bv32, g: bv32, z: bv32)
    requires Rooted(n, g, z)
    ensures Eval(n, Term(b, g)) == Steps(Term(b, z), 6 * n)
  {
    EvalTerm(n, b, g);
    StepsTerm(b, z, 6 * n);
    hide Term, Eval, Steps;
  }

  function Sum(t0: bv32, t1: bv32, t2: bv32, t3: bv32, t4: bv32): bv32 {
    Xor(Xor(Xor(Xor(t0, t1), t2), t3), t4)
  }

  lemma EvalSum(n: nat, t0: bv32, t1: bv32, t2: bv32, t3: bv32, t4: bv32)
    ensures Eval(n, Sum(t0, t1, t2, t3, t4))
         == Sum(Eval(n, t0), Eval(n, t1), Eval(n, t2), Eval(n, t3), Eval(n, t4))
  {
    hide Eval, Xor;
    EvalLinear(n, t0, t1);
    EvalLinear(n, Xor(t0, t1), t2);
    EvalLinear(n, Xor(Xor(t0, t1), t2), t3);
    EvalLinear(n, Xor(Xor(Xor(t0, t1), t2), t3), t4);
  }

  lemma StepsSum(k: nat, t0: bv32, t1: bv32, t2: bv32, t3: bv32, t4: bv32)
    ensures Steps(Sum(t0, t1, t2, t3, t4), k)
         == Sum(Steps(t0, k), Steps(t1, k), Steps(t2, k), Steps(t3, k), Steps(t4, k))
  {
    hide Steps, Xor;
    StepsLinear(t0, t1, k);
    StepsLinear(Xor(t0, t1), t2, k);
    StepsLinear(Xor(Xor(t0, t1), t2), t3, k);
    StepsLinear(Xor(Xor(Xor(t0, t1), t2), t3), t4, k);
  }

  lemma ImageParts(b: bv32)
    ensures Image(b) == Sum(Term(b >> 0, 0x001), Term(b >> 1, 0x00e), Term(b >> 2, 0x054),
                            Term(b >> 3, 0x358), Term(b >> 4, 0x0bf))
  {
    hide Term, Xor;
  }

  /** The generator vanishes at three powers of b: there the feedback of the top symbol has
      the value of that symbol six places up. */
  lemma EvalFeedback(n: nat, r: bv32)
    requires 24 <= n <= 26 && Fits(r)
    ensures Eval(n, Feedback(r)) == Steps(Image(Field(r, 0)), 6 * n)
  {
    var b := r >> 25;
    RootedAll(n);
    FeedbackParts(r);
    ImageParts(b);
    hide Rooted, Eval, Image, Term, Sum, Feedback, Field, Fits, Steps;
    EvalSum(n, Term(b >> 0, 0x3b6a57b2), Term(b >> 1, 0x26508e6d), Term(b >> 2, 0x1ea119fa),
            Term(b >> 3, 0x3d4233dd), Term(b >> 4, 0x2a1462b3));
    StepsSum(6 * n, Term(b >> 0, 0x001), Term(b >> 1, 0x00e), Term(b >> 2, 0x054),
             Term(b >> 3, 0x358), Term(b >> 4, 0x0bf));
    EvalPart(n, b >> 0, 0x3b6a57b2, 0x001);
    EvalPart(n, b >> 1, 0x26508e6d, 0x00e);
    EvalPart(n, b >> 2, 0x1ea119fa, 0x054);
    EvalPart(n, b >> 3, 0x3d4233dd, 0x358);
    EvalPart(n, b >> 4, 0x2a1462b3, 0x0bf);
  }

  lemma ShiftedFields(r: bv32)
    ensures Field(Shifted(r), 0) == Field(r, 1) && Field(Shifted(r), 1) == Field(r, 2)
    ensures Field(Shifted(r), 2) == Field(r, 3) && Field(Shifted(r), 3) == Field(r, 4)
    ensures Field(Shifted(r), 4) == Field(r, 5) && Field(Shifted(r), 5) == 0
  {
  }

  lemma HornerTop(n: nat, a: bv32)
    ensures Horner(n, Six(a, 0, 0, 0, 0, 0)) == Steps(a, 5 * n)
  {
    hide Steps;
    XorZero(Steps(a, n));
    XorZero(Steps(a, 2 * n));
    XorZero(Steps(a, 3 * n));
    XorZero(Steps(a, 4 * n));
    XorZero(Steps(a, 5 * n));
    StepsAdd(a, n, n);
    StepsAdd(a, 2 * n, n);
    StepsAdd(a, 3 * n, n);
    StepsAdd(a, 4 * n, n);
    hide Xor;
  }

  /** Moving the coefficients one place up multiplies the value by the n-th power of b. */
  lemma HornerNext(n: nat, p: Elements)
    ensures Steps(Horner(n, p), n) == Xor(Horner(n, Six(p.b, p.c, p.d, p.e, p.f, 0)), Steps(p.a, 6 * n))
  {
    var top, low := Six(p.a, 0, 0, 0, 0, 0), Six(0, p.b, p.c, p.d, p.e, p.f);
    assert XorAll(low, top) == p by {
      XorZero(p.a);
      XorZero(p.b);
      XorZero(p.c);
      XorZero(p.d);
      XorZero(p.e);
      XorZero(p.f);
    }
    HornerLinear(n, low, top);
    HornerTop(n, p.a);
    StepsAdd(p.a, 5 * n, n);
    StepsLinear(Horner(n, low), Horner(n, top), n);
    HornerLow(n, p);
    hide Horner, Steps, Xor, XorAll;
  }

  lemma HornerLow(n: nat, p: Elements)
    ensures Steps(Horner(n, Six(0, p.b, p.c, p.d, p.e, p.f)), n) == Horner(n, Six(p.b, p.c, p.d, p.e, p.f, 0))
  {
    StepsZero(n);
    XorZero(p.b);
    XorZero(Steps(Horner(n, Six(0, p.b, p.c, p.d, p.e, p.f)), n));
    hide Steps, Xor;
  }

  /** One step of the register multiplies its value at a root by that root. */
  lemma EvalStep(n: nat, r: bv32)
    requires 24 <= n <= 26 && Fits(r)
    ensures Eval(n, PolymodStep(r)) == Steps(Eval(n, r), n)
  {
    ShiftedFields(r);
    ImageZero(0);
    EvalFeedback(n, r);
    EvalLinear(n, Shifted(r), Feedback(r));
    HornerNext(n, Images(r));
    hide Horner, Steps, Xor, Field, Image, Shifted, Feedback;
  }

  lemma {:induction false} EvalOrbit(n: nat, r: bv32, k: nat)
    requires 24 <= n <= 26 && Fits(r)
    ensures Eval(n, Orbit(r, k)) == Steps(Eval(n, r), n * k)
  {
    hide Eval, PolymodStep, Fits;
    if k > 0 {
      OrbitNext(r, k - 1);
      OrbitFits(r, k - 1);
      EvalOrbit(n, r, k - 1);
      EvalStep(n, Orbit(r, k - 1));
      StepsAdd(Eval(n, r), n * (k - 1), n);
      MulDistrib(k - 1, 1, n);
    }
  }

  /** Three values at three neighbouring roots. */
  lemma ValuesAgree(n: nat, e1: bv32, a: nat, e2: bv32, b: nat, e3: bv32)
    requires 24 <= n <= 26 && e1 < 32 && e2 < 32 && e3 < 32 && Xor(Orbit(e1, a), Orbit(e2, b)) == e3
    ensures Xor(Steps(Image(e1), n * a), Steps(Image(e2), n * b)) == Image(e3)
  {
    SymbolFits(e1);
    SymbolFits(e2);
    EvalOrbit(n, e1, a);
    EvalOrbit(n, e2, b);
    EvalSymbol(n, e1);
    EvalSymbol(n, e2);
    EvalSymbol(n, e3);
    EvalLinear(n, Orbit(e1, a), Orbit(e2, b));
    hide Eval, Orbit, Image, Steps, Xor;
  }

  lemma SymbolFits(e: bv32)
    requires e < 32
    ensures Fits(e)
  {
  }

  // ---- no three differences cancel ------------------------------------------------------------------

  lemma SumsAgree(x: bv32, y: bv32, x': bv32, y': bv32)
    requires Xor(x, y) == Xor(x', y')
    ensures Xor(x, x') == Xor(y, y')
  {
    XorSwap(x, y, x', y');
    XorEqual(Xor(x, y), Xor(x', y'));
    XorEqual(Xor(x, x'), Xor(y, y'));
    hide Xor;
  }

  /** The argument of Vandermonde: elements u, v, w whose sums stay zero when u is multiplied
      by the powers a and 2a of b, and v by c and 2c, are all zero. */
  lemma Vandermonde(u: bv32, a: nat, v: bv32, c: nat, w: bv32)
    requires Element(u) && Element(v) && 0 < c < a < 1023
    requires Xor(u, v) == w && Xor(Steps(u, a), Steps(v, c)) == w && Xor(Steps(u, a + a), Steps(v, c + c)) == w
    ensures u == 0 && v == 0 && w == 0
  {
    var u1, v1, u2, v2 := Steps(u, a), Steps(v, c), Steps(u, a + a), Steps(v, c + c);
    var p := Xor(u, u1);
    SumsAgree(u, v, u1, v1);
    SumsAgree(u1, v1, u2, v2);
    StepsAdd(u, a, a);
    StepsAdd(v, c, c);
    StepsLinear(u, u1, a);
    StepsLinear(v, v1, c);
    StepsElement(u, a);
    ElementXor(u, u1);
    hide Xor, Steps, Element;
    SameMultiple(p, a, c);
    XorEqual(u, u1);
    XorEqual(v, v1);
    NoReturn(u, a);
    NoReturn(v, c);
    XorEqual(u, v);
  }

  lemma SameMultiple(p: bv32, a: nat, c: nat)
    requires Element(p) && c < a < 1023 && Steps(p, a) == Steps(p, c)
    ensures p == 0
  {
    hide Steps, Element, Xor;
    var q := Steps(p, a - c);
    StepsAdd(p, a - c, c);
    StepsElement(p, a - c);
    StepsLinear(q, p, c);
    XorEqual(Steps(q, c), Steps(p, c));
    ElementXor(q, p);
    StepsElement(Xor(q, p), c);
    XorEqual(q, p);
    NoReturn(p, a - c);
  }

  /** Three symbols, a and b places before the third, do not cancel unless all are zero. */
  lemma NoThreeCancel(e1: bv32, a: nat, e2: bv32, b: nat, e3: bv32)
    requires e1 < 32 && e2 < 32 && e3 < 32 && 0 < b < a < 1023
    requires Xor(Orbit(e1, a), Orbit(e2, b)) == e3
    ensures e1 == 0 && e2 == 0 && e3 == 0
  {
    var p, q := Image(e1), Image(e2);
    ValuesAgree(24, e1, a, e2, b, e3);
    ValuesAgree(25, e1, a, e2, b, e3);
    ValuesAgree(26, e1, a, e2, b, e3);
    ImageElement(e1);
    ImageElement(e2);
    ImageZero(e1);
    ImageZero(e2);
    ImageZero(e3);
    hide Image, Orbit, Steps, Xor, Element;
    StepsElement(p, 24 * a);
    StepsElement(q, 24 * b);
    StepsAdd(p, 24 * a, a);
    StepsAdd(q, 24 * b, b);
    StepsAdd(p, 24 * a, a + a);
    StepsAdd(q, 24 * b, b + b);
    Vandermonde(Steps(p, 24 * a), a, Steps(q, 24 * b), b, Image(e3));
  }

  lemma {:induction false} OrbitZero(k: nat)
    ensures Orbit(0, k) == 0
  {
    if k > 0 {
      StepZero();
      OrbitZero(k - 1);
    }
  }

  lemma {:induction false} OrbitLinear(x: bv32, y: bv32, k: nat)
    ensures Orbit(Xor(x, y), k) == Xor(Orbit(x, k), Orbit(y, k))
    decreases k
  {
    hide PolymodStep, Xor;
    if k > 0 {
      StepLinear(x, y);
      OrbitLinear(PolymodStep(x), PolymodStep(y), k - 1);
    }
  }

  lemma {:induction false} OrbitAdd(x: bv32, j: nat, k: nat)
    ensures Orbit(Orbit(x, j), k) == Orbit(x, j + k)
    decreases j
  {
    hide PolymodStep;
    if j > 0 {
      OrbitAdd(PolymodStep(x), j - 1, k);
    }
  }

  /** A single wrong symbol leaves a difference of more than one symbol at each of the next
      1022 steps. */
  lemma NeverOneSymbol(e: bv32, k: nat)
    requires 0 < e < 32 && 1 <= k <= 1022
    ensures Orbit(e, k) >= 32
  {
    hide Orbit, Xor;
    if Orbit(e, k) < 32 {
      XorZero(Orbit(e, k));
      if k > 1 {
        OrbitZero(1);
        NoThreeCancel(e, k, 0, 1, Orbit(e, k));
      } else {
        OrbitZero(2);
        NoThreeCancel(0, 2, e, 1, Orbit(e, k));
      }
    }
  }

  // ---- wrong symbols ----------------------------------------------------------------------------

  /** Absorbing the same values, the difference of two registers evolves by itself. */
  lemma {:induction false} DifferenceAlone(x: bv32, y: bv32, vs: seq<byte>)
    ensures Xor(Absorb(x, vs), Absorb(y, vs)) == Orbit(Xor(x, y), |vs|)
  {
    hide PolymodStep, Word, Xor;
    if |vs| > 0 {
      var n := |vs| - 1;
      var p, q, v := Absorb(x, vs[..n]), Absorb(y, vs[..n]), Word(vs[n]);
      DifferenceAlone(x, y, vs[..n]);
      OrbitNext(Xor(x, y), n);
      StepLinear(p, q);
      XorSwap(PolymodStep(p), v, PolymodStep(q), v);
      XorEqual(v, v);
      XorZero(Xor(PolymodStep(p), PolymodStep(q)));
    }
  }

  /** The difference of two symbols. */
  function Gap(a: byte, c: byte): bv32 {
    Xor(Word(a), Word(c))
  }

  lemma GapSmall(a: byte, c: byte)
    requires a < 32 && c < 32
    ensures Gap(a, c) < 32 && (Gap(a, c) == 0 <==> a == c)
  {
    WordRange(a);
    WordRange(c);
    XorEqual(Word(a), Word(c));
    XorSmall(Word(a), Word(c));
    hide Word, Xor;
  }

  lemma XorSmall(x: bv32, y: bv32)
    requires x < 32 && y < 32
    ensures Xor(x, y) < 32
  {
  }

  /** A pair of symbols adds its difference after one step. */
  lemma DifferenceNext(x: bv32, y: bv32, v: seq<byte>, a: byte, w: seq<byte>, c: byte, d: bv32)
    requires Xor(Absorb(x, v), Absorb(y, w)) == d
    ensures Xor(Absorb(x, v + [a]), Absorb(y, w + [c])) == Xor(Orbit(d, 1), Gap(a, c))
  {
    hide PolymodStep, Word, Xor;
    assert (v + [a])[..|v|] == v && (w + [c])[..|w|] == w;
    var p, q := Absorb(x, v), Absorb(y, w);
    OrbitNext(d, 0);
    StepLinear(p, q);
    XorSwap(PolymodStep(p), Word(a), PolymodStep(q), Word(c));
  }

  lemma DifferenceOver(x: bv32, y: bv32, v: seq<byte>, w: seq<byte>, vs: seq<byte>, d: bv32)
    requires Xor(Absorb(x, v), Absorb(y, w)) == d
    ensures Xor(Absorb(x, v + vs), Absorb(y, w + vs)) == Orbit(d, |vs|)
  {
    AbsorbConcat(x, v, vs);
    AbsorbConcat(y, w, vs);
    DifferenceAlone(Absorb(x, v), Absorb(y, w), vs);
    hide Absorb, Xor, Orbit;
  }

  /** Two symbols absorbed into one register, with the same values between them. */
  lemma PairDifference(p: bv32, a: byte, c: byte, mid: seq<byte>, b: byte, d: byte)
    ensures Xor(Absorb(p, [a] + mid + [b]), Absorb(p, [c] + mid + [d]))
         == Xor(Orbit(Gap(a, c), |mid| + 1), Gap(b, d))
  {
    hide Absorb, Xor, Orbit, Gap;
    XorEqual(Absorb(p, []), Absorb(p, []));
    DifferenceNext(p, p, [], a, [], c, 0);
    assert [] + [a] == [a] && [] + [c] == [c];
    OrbitZero(1);
    XorZero(Gap(a, c));
    DifferenceOver(p, p, [a], [c], mid, Gap(a, c));
    OrbitAdd(Gap(a, c), |mid|, 1);
    DifferenceNext(p, p, [a] + mid, b, [c] + mid, d, Orbit(Gap(a, c), |mid|));
  }

  lemma PairDetected(p: bv32, a: byte, c: byte, mid: seq<byte>, b: byte, d: byte)
    requires a < 32 && b < 32 && c < 32 && d < 32 && |mid| < 1022
    requires Absorb(p, [a] + mid + [b]) == Absorb(p, [c] + mid + [d])
    ensures a == c && b == d
  {
    hide Absorb, Xor, Orbit, Gap;
    PairDifference(p, a, c, mid, b, d);
    GapSmall(a, c);
    GapSmall(b, d);
    var k := |mid| + 1;
    XorEqual(Absorb(p, [a] + mid + [b]), Absorb(p, [c] + mid + [d]));
    XorEqual(Orbit(Gap(a, c), k), Gap(b, d));
    if Gap(a, c) == 0 {
      OrbitZero(k);
    } else {
      NeverOneSymbol(Gap(a, c), k);
    }
  }

  /** Three symbols, with the same values between them. */
  lemma TripleDetected(p: bv32, a: byte, a': byte, mid: seq<byte>, b: byte, b': byte,
                       next: seq<byte>, c: byte, c': byte)
    requires a < 32 && b < 32 && c < 32 && a' < 32 && b' < 32 && c' < 32 && |mid| + |next| < 1021
    requires Absorb(p, [a] + mid + [b] + next + [c]) == Absorb(p, [a'] + mid + [b'] + next + [c'])
    ensures a == a' && b == b' && c == c'
  {
    hide Absorb, Xor, Orbit, Gap;
    var v, w := [a] + mid + [b], [a'] + mid + [b'];
    var j, k := |mid| + 1, |next| + 1;
    var first, second, third := Gap(a, a'), Gap(b, b'), Gap(c, c');
    var d := Xor(Orbit(first, j), second);
    PairDifference(p, a, a', mid, b, b');
    DifferenceOver(p, p, v, w, next, d);
    DifferenceNext(p, p, v + next, c, w + next, c', Orbit(d, |next|));
    OrbitAdd(d, |next|, 1);
    OrbitLinear(Orbit(first, j), second, k);
    OrbitAdd(first, j, k);
    XorEqual(Absorb(p, v + next + [c]), Absorb(p, w + next + [c']));
    XorEqual(Orbit(d, k), third);
    GapSmall(a, a');
    GapSmall(b, b');
    GapSmall(c, c');
    NoThreeCancel(first, j + k, second, k, third);
  }

  /** Two messages with the same ends, and between them strings that no register absorbs alike. */
  lemma MiddleTells(r: bv32, pre: seq<byte>, v: seq<byte>, w: seq<byte>, post: seq<byte>)
    requires Fits(r) && AllBelow(pre, 32) && AllBelow(v, 32) && AllBelow(w, 32) && AllBelow(post, 32)
    requires Absorb(r, pre + v + post) == Absorb(r, pre + w + post)
    ensures Absorb(Absorb(r, pre), v) == Absorb(Absorb(r, pre), w)
  {
    hide PolymodStep, Word, Xor, Fits, Absorb;
    var p := Absorb(r, pre);
    AbsorbConcat(r, pre + v, post);
    AbsorbConcat(r, pre + w, post);
    AbsorbConcat(r, pre, v);
    AbsorbConcat(r, pre, w);
    AbsorbFits(r, pre);
    AbsorbFits(p, v);
    AbsorbFits(p, w);
    AbsorbInjective(Absorb(p, v), Absorb(p, w), post);
  }

  /** Two messages that differ in at most two symbols, fewer than 1023 places apart, and
      reach the same residue are the same message. */
  lemma TwoDetected(r: bv32, pre: seq<byte>, a: byte, c: byte, mid: seq<byte>, b: byte, d: byte, post: seq<byte>)
    requires Fits(r) && AllBelow(pre, 32) && AllBelow(mid, 32) && AllBelow(post, 32)
    requires a < 32 && b < 32 && c < 32 && d < 32 && |mid| < 1022
    requires Absorb(r, pre + ([a] + mid + [b]) + post) == Absorb(r, pre + ([c] + mid + [d]) + post)
    ensures a == c && b == d
  {
    hide Fits, Absorb;
    MiddleTells(r, pre, [a] + mid + [b], [c] + mid + [d], post);
    PairDetected(Absorb(r, pre), a, c, mid, b, d);
  }

  lemma TripleBelow(a: byte, mid: seq<byte>, b: byte, next: seq<byte>, c: byte)
    requires a < 32 && b < 32 && c < 32 && AllBelow(mid, 32) && AllBelow(next, 32)
    ensures AllBelow([a] + mid + [b] + next + [c], 32)
  {
  }

  /** The same for three symbols, the first and the last fewer than 1023 places apart. */
  lemma ThreeDetected(r: bv32, pre: seq<byte>, a: byte, a': byte, mid: seq<byte>, b: byte, b': byte,
                      next: seq<byte>, c: byte, c': byte, post: seq<byte>)
    requires Fits(r) && AllBelow(pre, 32) && AllBelow(mid, 32) && AllBelow(next, 32) && AllBelow(post, 32)
    requires a < 32 && b < 32 && c < 32 && a' < 32 && b' < 32 && c' < 32 && |mid| + |next| < 1021
    requires Absorb(r, pre + ([a] + mid + [b] + next + [c]) + post)
          == Absorb(r, pre + ([a'] + mid + [b'] + next + [c']) + post)
    ensures a == a' && b == b' && c == c'
  {
    hide Fits, Absorb;
    TripleBelow(a, mid, b, next, c);
    TripleBelow(a', mid, b', next, c');
    hide AllBelow;
    MiddleTells(r, pre, [a] + mid + [b] + next + [c], [a'] + mid + [b'] + next + [c'], post);
    TripleDetected(Absorb(r, pre), a, a', mid, b, b', next, c, c');
  }
}
