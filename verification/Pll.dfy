/** pll_get_parameters of pll.c: the search for divider settings close to a clock. Its
    floating-point values are real numbers here. */
module Pll {
  import opened Arith
  import opened Reals
  import opened Wrappers

  const FREQ_MULT: real := 25.0
  const FLT_MAX: real := 340282346638528859811704183484516925440.0
  const UINT16_MAX: nat := 65535
  const MAX_DIVIDER: nat := 98

  /** One setting of the dividers. */
  datatype Setting = Setting(refdiv: nat, postdiv1: nat, postdiv2: nat)

  predicate Legal(c: Setting) {
    1 <= c.refdiv <= 2 && 1 <= c.postdiv2 < c.postdiv1 <= 7
  }

  function Divider(c: Setting): nat {
    c.refdiv * c.postdiv1 * c.postdiv2
  }

  /** round() of a number above -0.5. */
  function Round(x: real): int {
    (x + 0.5).Floor
  }

  function Feedback(target: real, c: Setting): int {
    Round(target / FREQ_MULT * Divider(c) as real)
  }

  /** A clock whose rounded feedback divider fits a uint16_t whatever the setting. C does
      not define the conversion of any other. */
  predicate InRange(target: real) {
    -0.5 < target / FREQ_MULT * MAX_DIVIDER as real < 65535.5
  }

  /** The clock a feedback divider and a setting give. */
  function Clock(fb: int, c: Setting): real
    requires Divider(c) > 0
  {
    FREQ_MULT * fb as real / Divider(c) as real
  }

  function Frequency(target: real, c: Setting): real
    requires Divider(c) > 0
  {
    Clock(Feedback(target, c), c)
  }

  /** What the search compares: distance from the target, oscillator frequency, divider. */
  datatype Key = Key(diff: real, vco: real, postdiv: nat)

  function KeyOf(target: real, c: Setting): Key
    requires Legal(c)
  {
    DividerPositive(c);
    Key(Abs(target - Frequency(target, c)),
        FREQ_MULT * Feedback(target, c) as real / c.refdiv as real,
        c.postdiv1 * c.postdiv2)
  }

  /** Inside the ranges of the three loops. */
  predicate Looped(c: Setting) {
    1 <= c.refdiv <= 2 && 1 <= c.postdiv1 <= 7 && 1 <= c.postdiv2 <= 7
  }

  lemma DividerPositive(c: Setting)
    requires Looped(c)
    ensures 0 < Divider(c) <= MAX_DIVIDER
  {
    var a := c.refdiv * c.postdiv1;
    ProductMono(1, c.refdiv, 1, c.postdiv1);
    ProductMono(c.refdiv, 2, c.postdiv1, 7);
    ProductMono(1, a, 1, c.postdiv2);
    ProductMono(a, 14, c.postdiv2, 7);
  }

  predicate Close(x: real, y: real) {
    Abs(x - y) < EPSILON
  }

  /** Whether the search prefers k to the best it has. */
  predicate Replaces(k: Key, m: Key) {
    || k.diff < m.diff
    || (Close(k.diff, m.diff) && k.vco < m.vco)
    || (Close(k.diff, m.diff) && Close(k.vco, m.vco) && k.postdiv < m.postdiv)
  }

  predicate Candidate(target: real, fbMin: nat, fbMax: nat, c: Setting) {
    Legal(c) && fbMin <= Feedback(target, c) <= fbMax
  }

  // ---- what the search promises -----------------------------------------------------------

  /** Closest first, then the slowest oscillator, then the smallest post divider. */
  predicate AtMost(k: Key, m: Key) {
    || k.diff < m.diff
    || (k.diff == m.diff && k.vco < m.vco)
    || (k.diff == m.diff && k.vco == m.vco && k.postdiv <= m.postdiv)
  }

  /** No candidate is closer. */
  ghost predicate Closest(target: real, fbMin: nat, fbMax: nat, c: Setting) {
    Candidate(target, fbMin, fbMax, c) &&
    forall d :: Candidate(target, fbMin, fbMax, d) ==> KeyOf(target, c).diff <= KeyOf(target, d).diff
  }

  /** The candidate the search is meant to find, up to equal keys. */
  ghost predicate Foremost(target: real, fbMin: nat, fbMax: nat, c: Setting) {
    Candidate(target, fbMin, fbMax, c) &&
    forall d :: Candidate(target, fbMin, fbMax, d) ==> AtMost(KeyOf(target, c), KeyOf(target, d))
  }

  /** A closest candidate that the tie rules give up for no farther one tried after it. */
  ghost predicate Firm(target: real, fbMin: nat, fbMax: nat, c: Setting) {
    Closest(target, fbMin, fbMax, c) &&
    forall d :: Candidate(target, fbMin, fbMax, d) && Before(c, d) && KeyOf(target, c).diff < KeyOf(target, d).diff
                ==> !Replaces(KeyOf(target, d), KeyOf(target, c))
  }

  /** No candidate is farther than a closest one by less than EPSILON. */
  ghost predicate NearTieFree(target: real, fbMin: nat, fbMax: nat) {
    forall c, d :: Closest(target, fbMin, fbMax, c) && Candidate(target, fbMin, fbMax, d) &&
                   Close(KeyOf(target, c).diff, KeyOf(target, d).diff)
                   ==> KeyOf(target, c).diff == KeyOf(target, d).diff
  }

  /** Tried before the loops reach (refdiv, postdiv1, postdiv2). */
  predicate Tried(c: Setting, refdiv: nat, postdiv1: nat, postdiv2: nat) {
    c.refdiv > refdiv ||
    (c.refdiv == refdiv && (c.postdiv1 > postdiv1 || (c.postdiv1 == postdiv1 && c.postdiv2 > postdiv2)))
  }

  predicate Before(c: Setting, d: Setting) {
    Tried(c, d.refdiv, d.postdiv1, d.postdiv2)
  }

  /** best holds against everything tried. */
  ghost predicate Holds(target: real, fbMin: nat, fbMax: nat, best: Option<Setting>,
                        refdiv: nat, postdiv1: nat, postdiv2: nat)
  {
    && (best.Some? ==>
          Candidate(target, fbMin, fbMax, best.value) && Tried(best.value, refdiv, postdiv1, postdiv2))
    && forall c :: Candidate(target, fbMin, fbMax, c) && Tried(c, refdiv, postdiv1, postdiv2)
                   ==> best.Some? && Beats(target, fbMin, fbMax, best.value, c)
  }

  /** best is not farther than c by EPSILON, c has not replaced it since, and if c is firm,
      best is at least as good, and better if it came later. */
  ghost predicate Beats(target: real, fbMin: nat, fbMax: nat, best: Setting, c: Setting)
    requires Legal(best) && Legal(c)
  {
    && KeyOf(target, best).diff < KeyOf(target, c).diff + EPSILON
    && (Before(best, c) ==> !Replaces(KeyOf(target, c), KeyOf(target, best)))
    && (Firm(target, fbMin, fbMax, c) ==> AtMost(KeyOf(target, best), KeyOf(target, c)))
    && (Firm(target, fbMin, fbMax, c) && Before(c, best) ==> !AtMost(KeyOf(target, c), KeyOf(target, best)))
  }

  /** Oscillator frequencies are multiples of 12.5 MHz, so close ones are equal. */
  lemma CloseVco(target: real, c: Setting, d: Setting)
    requires Legal(c) && Legal(d) && Close(KeyOf(target, c).vco, KeyOf(target, d).vco)
    ensures KeyOf(target, c).vco == KeyOf(target, d).vco
  {
    var i, j := HalfSteps(target, c), HalfSteps(target, d);
    VcoSteps(target, c);
    VcoSteps(target, d);
    hide KeyOf, HalfSteps;
    assert Abs(12.5 * i as real - 12.5 * j as real) < EPSILON;
    assert i == j;
  }

  function HalfSteps(target: real, c: Setting): int {
    if c.refdiv == 1 then 2 * Feedback(target, c) else Feedback(target, c)
  }

  lemma VcoSteps(target: real, c: Setting)
    requires Legal(c)
    ensures KeyOf(target, c).vco == 12.5 * HalfSteps(target, c) as real
  {
    hide Feedback;
  }

  /** q is the clock of the feedback divider f over d. */
  predicate IsClock(q: real, f: int, d: nat) {
    0 < d <= MAX_DIVIDER && q * d as real == FREQ_MULT * f as real
  }

  /** Clocks closer than two EPSILON are equal: they are fractions with small denominators. */
  lemma CloseClocks(q: real, f: int, d: nat, q': real, f': int, d': nat)
    requires IsClock(q, f, d) && IsClock(q', f', d')
    requires Abs(q - q') < 2.0 * EPSILON
    ensures q == q'
  {
    var n, p := f * d' - f' * d, d as real * d' as real;
    CrossMultiply(q, f, d, q', f', d');
    ProductBounds(d, d');
    WholeGap(q - q', p, n);
  }

  lemma WholeGap(e: real, p: real, n: int)
    requires 0.0 < p <= 9604.0 && Abs(e) < 2.0 * EPSILON && e * p == FREQ_MULT * n as real
    ensures e == 0.0
  {
    SmallProduct(e, p);
    assert n == 0;
    ZeroProduct(e, p);
  }

  lemma CrossMultiply(q: real, f: int, d: nat, q': real, f': int, d': nat)
    requires IsClock(q, f, d) && IsClock(q', f', d')
    ensures (q - q') * (d as real * d' as real) == FREQ_MULT * (f * d' - f' * d) as real
  {
    var x, y := d as real, d' as real;
    assert q * (x * y) == (q * x) * y;
    assert q' * (x * y) == (q' * y) * x;
    assert (f * d') as real == f as real * y && (f' * d) as real == f' as real * x;
    Distribute(x * y, q, -q');
    assert (FREQ_MULT * f as real) * y == FREQ_MULT * (f as real * y);
    assert (FREQ_MULT * f' as real) * x == FREQ_MULT * (f' as real * x);
  }

  lemma ProductBounds(d: nat, d': nat)
    requires 0 < d <= MAX_DIVIDER && 0 < d' <= MAX_DIVIDER
    ensures 0.0 < d as real * d' as real <= 9604.0
  {
    ProductMono(1, d, 1, d');
    ProductMono(d, 98, d', 98);
    assert d as real * d' as real == (d * d') as real;
  }

  lemma SmallProduct(e: real, p: real)
    requires 0.0 < p <= 9604.0 && Abs(e) < 2.0 * EPSILON
    ensures -25.0 < e * p < 25.0
  {
    if e >= 0.0 {
      ProductBelow(e, p);
    } else {
      ProductBelow(-e, p);
      Negate(e, p);
    }
  }

  lemma ProductBelow(e: real, p: real)
    requires 0.0 < p <= 9604.0 && 0.0 <= e < 2.0 * EPSILON
    ensures 0.0 <= e * p <= e * 9604.0
  {
    NonNegative(e, p);
    NonNegative(e, 9604.0 - p);
    Distribute(e, p, 9604.0 - p);
  }

  lemma ZeroProduct(e: real, p: real)
    requires p > 0.0 && e * p == 0.0
    ensures e == 0.0
  {
  }

  lemma ClockTimes(fb: int, c: Setting)
    requires Divider(c) > 0
    ensures Clock(fb, c) * Divider(c) as real == FREQ_MULT * fb as real
  {
    hide Divider;
  }

  lemma DiffOf(target: real, c: Setting)
    requires Legal(c)
    ensures Divider(c) > 0
    ensures KeyOf(target, c).diff == Abs(target - Frequency(target, c))
    ensures IsClock(Frequency(target, c), Feedback(target, c), Divider(c))
  {
    DividerPositive(c);
    ClockTimes(Feedback(target, c), c);
    hide Divider, Feedback, Clock;
  }

  predicate Under(target: real, c: Setting)
    requires Legal(c)
  {
    DividerPositive(c);
    Frequency(target, c) <= target
  }

  /** On one side of the target, errors closer than two EPSILON are equal. */
  lemma SameSide(target: real, c: Setting, d: Setting)
    requires Legal(c) && Legal(d) && (Under(target, c) <==> Under(target, d))
    requires Abs(KeyOf(target, c).diff - KeyOf(target, d).diff) < 2.0 * EPSILON
    ensures KeyOf(target, c).diff == KeyOf(target, d).diff
  {
    DiffOf(target, c);
    DiffOf(target, d);
    var q, q' := Frequency(target, c), Frequency(target, d);
    var f, f' := Feedback(target, c), Feedback(target, d);
    hide Divider, Feedback, Frequency, KeyOf, IsClock;
    SameSideGap(target, q, q');
    CloseClocks(q, f, Divider(c), q', f', Divider(d));
  }

  lemma SameSideGap(t: real, q: real, q': real)
    requires (q <= t <==> q' <= t) && Abs(Abs(t - q) - Abs(t - q')) < 2.0 * EPSILON
    ensures Abs(q - q') < 2.0 * EPSILON
  {
  }

  /** So there are no three different errors within two EPSILON. */
  lemma NoThreeErrors(target: real, c: Setting, d: Setting, e: Setting)
    requires Legal(c) && Legal(d) && Legal(e)
    requires KeyOf(target, e).diff < KeyOf(target, c).diff + 2.0 * EPSILON
    ensures !(KeyOf(target, c).diff < KeyOf(target, d).diff < KeyOf(target, e).diff)
  {
    hide KeyOf, Under;
    if KeyOf(target, c).diff < KeyOf(target, d).diff < KeyOf(target, e).diff {
      if Under(target, c) == Under(target, d) {
        SameSide(target, c, d);
      } else if Under(target, d) == Under(target, e) {
        SameSide(target, d, e);
      } else {
        SameSide(target, c, e);
      }
    }
  }

  lemma AtMostTransitive(k: Key, m: Key, o: Key)
    requires AtMost(k, m) && AtMost(m, o)
    ensures AtMost(k, o)
  {
  }

  // ---- one setting ------------------------------------------------------------------------

  function Considered(target: real, fbMin: nat, fbMax: nat, best: Option<Setting>, c: Setting): (next: Option<Setting>)
    requires best.Some? ==> Legal(best.value)
    ensures next.Some? ==> Legal(next.value)
  {
    if Candidate(target, fbMin, fbMax, c) && (best.None? || Replaces(KeyOf(target, c), KeyOf(target, best.value)))
    then Some(c) else best
  }

  lemma StepKeeps(target: real, fbMin: nat, fbMax: nat, best: Option<Setting>, c: Setting)
    requires Holds(target, fbMin, fbMax, best, c.refdiv, c.postdiv1, c.postdiv2) && c.postdiv2 > 0
    ensures Holds(target, fbMin, fbMax, Considered(target, fbMin, fbMax, best, c),
                  c.refdiv, c.postdiv1, c.postdiv2 - 1)
  {
    var next := Considered(target, fbMin, fbMax, best, c);
    forall d | Candidate(target, fbMin, fbMax, d) && Tried(d, c.refdiv, c.postdiv1, c.postdiv2 - 1)
      ensures next.Some? && Beats(target, fbMin, fbMax, next.value, d)
    {
      hide Feedback, Replaces, AtMost, Firm, KeyOf;
      if d == c {
        NewOne(target, fbMin, fbMax, best, c);
      } else {
        assert Before(d, c);
        OldOne(target, fbMin, fbMax, best.value, c, d);
      }
    }
    hide Beats, KeyOf, Feedback;
  }

  lemma NewOne(target: real, fbMin: nat, fbMax: nat, best: Option<Setting>, c: Setting)
    requires Candidate(target, fbMin, fbMax, c)
    requires best.Some? ==> Candidate(target, fbMin, fbMax, best.value) && Before(best.value, c)
    ensures Considered(target, fbMin, fbMax, best, c).Some?
    ensures Beats(target, fbMin, fbMax, Considered(target, fbMin, fbMax, best, c).value, c)
  {
    hide Feedback, KeyOf, Candidate;
  }

  lemma OldOne(target: real, fbMin: nat, fbMax: nat, best: Setting, c: Setting, d: Setting)
    requires Candidate(target, fbMin, fbMax, best) && Candidate(target, fbMin, fbMax, d) && Before(d, c)
    requires Beats(target, fbMin, fbMax, best, d)
    ensures Beats(target, fbMin, fbMax, Considered(target, fbMin, fbMax, Some(best), c).value, d)
  {
    if Considered(target, fbMin, fbMax, Some(best), c) != Some(best) {
      assert KeyOf(target, c).diff < KeyOf(target, best).diff + EPSILON;
      NoThreeErrors(target, d, best, c);
      if Firm(target, fbMin, fbMax, d) {
        FirmStays(target, fbMin, fbMax, best, c, d);
      }
      hide KeyOf, Firm, AtMost, Feedback, Replaces;
    }
  }

  /** What replaces a setting at least as good as a firm one is at least as good itself. */
  lemma FirmStays(target: real, fbMin: nat, fbMax: nat, best: Setting, c: Setting, d: Setting)
    requires Candidate(target, fbMin, fbMax, best) && Candidate(target, fbMin, fbMax, c)
    requires Firm(target, fbMin, fbMax, d) && Before(d, c)
    requires AtMost(KeyOf(target, best), KeyOf(target, d)) && Replaces(KeyOf(target, c), KeyOf(target, best))
    ensures AtMost(KeyOf(target, c), KeyOf(target, d)) && !AtMost(KeyOf(target, d), KeyOf(target, c))
  {
    if Close(KeyOf(target, c).vco, KeyOf(target, best).vco) {
      CloseVco(target, c, best);
    }
    hide KeyOf, Feedback;
  }

  lemma NextRow(target: real, fbMin: nat, fbMax: nat, best: Option<Setting>, refdiv: nat, postdiv1: nat)
    requires postdiv1 > 0 && Holds(target, fbMin, fbMax, best, refdiv, postdiv1, 0)
    ensures Holds(target, fbMin, fbMax, best, refdiv, postdiv1 - 1, 7)
  {
    hide Beats, Feedback;
    forall c | Candidate(target, fbMin, fbMax, c) && Tried(c, refdiv, postdiv1 - 1, 7)
      ensures Tried(c, refdiv, postdiv1, 0) {
    }
  }

  lemma NextRefdiv(target: real, fbMin: nat, fbMax: nat, best: Option<Setting>, refdiv: nat)
    requires refdiv > 0 && Holds(target, fbMin, fbMax, best, refdiv, 0, 7)
    ensures Holds(target, fbMin, fbMax, best, refdiv - 1, 7, 7)
  {
    hide Beats, Feedback;
    forall c | Candidate(target, fbMin, fbMax, c) && Tried(c, refdiv - 1, 7, 7) ensures Tried(c, refdiv, 0, 7) {}
  }

  // ---- all settings -----------------------------------------------------------------------

  /** What is kept when the loops have come to refdiv and postdiv1 and have tried the second
      post dividers above postdiv2. */
  function Kept(target: real, fbMin: nat, fbMax: nat,
                refdiv: nat, postdiv1: nat, postdiv2: nat): (best: Option<Setting>)
    requires refdiv <= 2 && postdiv1 <= 7 && postdiv2 <= 7
    ensures best.Some? ==> Legal(best.value)
    decreases 2 - refdiv, 7 - postdiv1, 7 - postdiv2
  {
    if postdiv2 < 7 then
      Considered(target, fbMin, fbMax, Kept(target, fbMin, fbMax, refdiv, postdiv1, postdiv2 + 1),
                 Setting(refdiv, postdiv1, postdiv2 + 1))
    else if postdiv1 < 7 then Kept(target, fbMin, fbMax, refdiv, postdiv1 + 1, 0)
    else if refdiv < 2 then Kept(target, fbMin, fbMax, refdiv + 1, 0, 7)
    else None
  }

  /** What the search ends with. */
  function Result(target: real, fbMin: nat, fbMax: nat): (best: Option<Setting>)
    ensures best.Some? ==> Legal(best.value)
  {
    Kept(target, fbMin, fbMax, 0, 7, 7)
  }

  lemma {:induction false} KeptHolds(target: real, fbMin: nat, fbMax: nat, refdiv: nat, postdiv1: nat, postdiv2: nat)
    requires refdiv <= 2 && postdiv1 <= 7 && postdiv2 <= 7
    ensures Holds(target, fbMin, fbMax, Kept(target, fbMin, fbMax, refdiv, postdiv1, postdiv2),
                  refdiv, postdiv1, postdiv2)
    decreases 2 - refdiv, 7 - postdiv1, 7 - postdiv2
  {
    hide Holds, Considered;
    if postdiv2 < 7 {
      var best := Kept(target, fbMin, fbMax, refdiv, postdiv1, postdiv2 + 1);
      KeptHolds(target, fbMin, fbMax, refdiv, postdiv1, postdiv2 + 1);
      StepKeeps(target, fbMin, fbMax, best, Setting(refdiv, postdiv1, postdiv2 + 1));
    } else if postdiv1 < 7 {
      KeptHolds(target, fbMin, fbMax, refdiv, postdiv1 + 1, 0);
      NextRow(target, fbMin, fbMax, Kept(target, fbMin, fbMax, refdiv, postdiv1 + 1, 0), refdiv, postdiv1 + 1);
    } else if refdiv < 2 {
      KeptHolds(target, fbMin, fbMax, refdiv + 1, 0, 7);
      NextRefdiv(target, fbMin, fbMax, Kept(target, fbMin, fbMax, refdiv + 1, 0, 7), refdiv + 1);
    } else {
      Untried(target, fbMin, fbMax);
    }
  }

  lemma Untried(target: real, fbMin: nat, fbMax: nat)
    ensures Holds(target, fbMin, fbMax, None, 2, 7, 7)
  {
  }

  lemma AllTried(c: Setting)
    requires Legal(c)
    ensures Tried(c, 0, 7, 7)
  {
  }

  /** The result against any candidate. */
  lemma ResultBeats(target: real, fbMin: nat, fbMax: nat, d: Setting)
    requires Candidate(target, fbMin, fbMax, d)
    ensures var r := Result(target, fbMin, fbMax);
            r.Some? && Candidate(target, fbMin, fbMax, r.value) && Beats(target, fbMin, fbMax, r.value, d)
  {
    KeptHolds(target, fbMin, fbMax, 0, 7, 7);
    AllTried(d);
    hide Kept, Beats, Candidate, KeyOf;
  }

  lemma ResultExact(target: real, fbMin: nat, fbMax: nat)
    ensures Result(target, fbMin, fbMax).Some? <==> exists c :: Candidate(target, fbMin, fbMax, c)
    ensures Result(target, fbMin, fbMax).Some? ==> Candidate(target, fbMin, fbMax, Result(target, fbMin, fbMax).value)
  {
    KeptHolds(target, fbMin, fbMax, 0, 7, 7);
    hide Kept, Beats, Candidate;
    if c :| Candidate(target, fbMin, fbMax, c) {
      ResultBeats(target, fbMin, fbMax, c);
    }
  }

  /** The result is never farther than any candidate by EPSILON. */
  lemma WithinEpsilon(target: real, fbMin: nat, fbMax: nat, d: Setting)
    requires Candidate(target, fbMin, fbMax, d)
    ensures var r := Result(target, fbMin, fbMax);
            r.Some? && KeyOf(target, r.value).diff < KeyOf(target, d).diff + 0.0001
  {
    ResultBeats(target, fbMin, fbMax, d);
    hide Result, KeyOf, Candidate, Replaces, Firm;
  }

  lemma ClosestResultFirm(target: real, fbMin: nat, fbMax: nat)
    requires Result(target, fbMin, fbMax).Some?
    requires Closest(target, fbMin, fbMax, Result(target, fbMin, fbMax).value)
    ensures Firm(target, fbMin, fbMax, Result(target, fbMin, fbMax).value)
  {
    hide Result, KeyOf, Feedback, Replaces;
    forall d | Candidate(target, fbMin, fbMax, d)
      ensures Before(Result(target, fbMin, fbMax).value, d)
              ==> !Replaces(KeyOf(target, d), KeyOf(target, Result(target, fbMin, fbMax).value))
    {
      ResultBeats(target, fbMin, fbMax, d);
    }
  }

  /** The result is closest exactly when some closest candidate is firm. */
  lemma ClosestExact(target: real, fbMin: nat, fbMax: nat)
    requires Result(target, fbMin, fbMax).Some?
    ensures Closest(target, fbMin, fbMax, Result(target, fbMin, fbMax).value)
       <==> exists c :: Firm(target, fbMin, fbMax, c)
  {
    hide Result, KeyOf, Candidate, Replaces;
    if Closest(target, fbMin, fbMax, Result(target, fbMin, fbMax).value) {
      ClosestResultFirm(target, fbMin, fbMax);
    }
    if c :| Firm(target, fbMin, fbMax, c) {
      ResultBeats(target, fbMin, fbMax, c);
    }
  }

  /** And it is the one meant exactly when that one, or another with its key, is firm. */
  lemma ForemostExact(target: real, fbMin: nat, fbMax: nat)
    requires Result(target, fbMin, fbMax).Some?
    ensures Foremost(target, fbMin, fbMax, Result(target, fbMin, fbMax).value)
       <==> exists c :: Foremost(target, fbMin, fbMax, c) && Firm(target, fbMin, fbMax, c)
  {
    hide Result, KeyOf, Feedback, Replaces;
    var r := Result(target, fbMin, fbMax).value;
    if Foremost(target, fbMin, fbMax, r) {
      ClosestResultFirm(target, fbMin, fbMax);
    }
    if c :| Foremost(target, fbMin, fbMax, c) && Firm(target, fbMin, fbMax, c) {
      ResultBeats(target, fbMin, fbMax, c);
      forall d | Candidate(target, fbMin, fbMax, d) ensures AtMost(KeyOf(target, r), KeyOf(target, d)) {
        AtMostTransitive(KeyOf(target, r), KeyOf(target, c), KeyOf(target, d));
      }
    }
  }

  /** Of firm candidates with equal keys the first one tried is found. */
  lemma FirstOfEqual(target: real, fbMin: nat, fbMax: nat, c: Setting)
    requires Result(target, fbMin, fbMax).Some? && Firm(target, fbMin, fbMax, c)
    requires KeyOf(target, c) == KeyOf(target, Result(target, fbMin, fbMax).value)
    ensures c == Result(target, fbMin, fbMax).value || Before(Result(target, fbMin, fbMax).value, c)
  {
    ResultBeats(target, fbMin, fbMax, c);
    var r := Result(target, fbMin, fbMax).value;
    hide Result, KeyOf, Candidate, Replaces, Firm;
  }

  /** Without near ties every closest candidate is firm. */
  lemma NearTieFreeFirm(target: real, fbMin: nat, fbMax: nat, c: Setting)
    requires NearTieFree(target, fbMin, fbMax) && Closest(target, fbMin, fbMax, c)
    ensures Firm(target, fbMin, fbMax, c)
  {
    hide KeyOf, Candidate;
  }

  /** So the search then finds what it is meant to find. */
  lemma NearTieFreeForemost(target: real, fbMin: nat, fbMax: nat)
    requires NearTieFree(target, fbMin, fbMax) && Result(target, fbMin, fbMax).Some?
    ensures Foremost(target, fbMin, fbMax, Result(target, fbMin, fbMax).value)
  {
    var r := Result(target, fbMin, fbMax).value;
    ResultExact(target, fbMin, fbMax);
    hide Result, KeyOf, Candidate, Replaces, AtMost, NearTieFree;
    forall d | Candidate(target, fbMin, fbMax, d) ensures KeyOf(target, r).diff <= KeyOf(target, d).diff {
      if KeyOf(target, d).diff < KeyOf(target, r).diff {
        NearestBelow(target, fbMin, fbMax, d);
        NearTieAt(target, fbMin, fbMax, d, r);
      }
    }
    forall d | Candidate(target, fbMin, fbMax, d) ensures AtMost(KeyOf(target, r), KeyOf(target, d)) {
      ForemostOver(target, fbMin, fbMax, d);
    }
  }

  /** A candidate closer than the result is closest. */
  lemma NearestBelow(target: real, fbMin: nat, fbMax: nat, d: Setting)
    requires Candidate(target, fbMin, fbMax, d) && Result(target, fbMin, fbMax).Some?
    requires KeyOf(target, d).diff < KeyOf(target, Result(target, fbMin, fbMax).value).diff
    ensures Closest(target, fbMin, fbMax, d)
    ensures Close(KeyOf(target, d).diff, KeyOf(target, Result(target, fbMin, fbMax).value).diff)
  {
    var r := Result(target, fbMin, fbMax).value;
    hide Result, KeyOf;
    WithinEpsilon(target, fbMin, fbMax, d);
    forall e | Candidate(target, fbMin, fbMax, e) ensures KeyOf(target, d).diff <= KeyOf(target, e).diff {
      WithinEpsilon(target, fbMin, fbMax, e);
      NoThreeErrors(target, e, d, r);
    }
  }

  lemma NearTieAt(target: real, fbMin: nat, fbMax: nat, c: Setting, d: Setting)
    requires NearTieFree(target, fbMin, fbMax) && Closest(target, fbMin, fbMax, c)
    requires Candidate(target, fbMin, fbMax, d) && Close(KeyOf(target, c).diff, KeyOf(target, d).diff)
    ensures KeyOf(target, c).diff == KeyOf(target, d).diff
  {
  }

  lemma ForemostOver(target: real, fbMin: nat, fbMax: nat, d: Setting)
    requires NearTieFree(target, fbMin, fbMax) && Result(target, fbMin, fbMax).Some?
    requires Closest(target, fbMin, fbMax, Result(target, fbMin, fbMax).value) && Candidate(target, fbMin, fbMax, d)
    ensures AtMost(KeyOf(target, Result(target, fbMin, fbMax).value), KeyOf(target, d))
  {
    hide Result, KeyOf, Feedback, Replaces, NearTieFree, Firm;
    if KeyOf(target, d).diff == KeyOf(target, Result(target, fbMin, fbMax).value).diff {
      NearTieFreeFirm(target, fbMin, fbMax, d);
      ResultBeats(target, fbMin, fbMax, d);
    }
  }

  // ---- the search -------------------------------------------------------------------------

  /** The variables the loops keep. */
  datatype Best = Best(freq: real, refdiv: nat, feedback: int, postdiv1: nat, postdiv2: nat, key: Key)

  const NOTHING: Best := Best(0.0, 0, 0, 0, 0, Key(FLT_MAX, FLT_MAX, UINT16_MAX))

  ghost predicate Keeps(target: real, b: Best, best: Option<Setting>) {
    match best
    case None => b == NOTHING
    case Some(c) =>
      Legal(c) && Divider(c) > 0 &&
      b == Best(Frequency(target, c), c.refdiv, Feedback(target, c), c.postdiv1, c.postdiv2, KeyOf(target, c))
  }

  lemma FirstReplaces(target: real, fbMin: nat, fbMax: nat, c: Setting)
    requires InRange(target) && Candidate(target, fbMin, fbMax, c) && fbMax <= UINT16_MAX
    ensures Replaces(KeyOf(target, c), NOTHING.key)
  {
    DividerPositive(c);
    SmallQuotient(Feedback(target, c), Divider(c));
    hide Feedback, Divider;
  }

  lemma SmallQuotient(fb: int, divider: nat)
    requires 0 <= fb <= UINT16_MAX && divider > 0
    ensures 0.0 <= FREQ_MULT * fb as real / divider as real <= 1638375.0
  {
    var d := divider as real;
    var q := FREQ_MULT * fb as real / d;
    QuotientBound(FREQ_MULT * fb as real, d, q);
  }

  lemma QuotientBound(x: real, d: real, q: real)
    requires x >= 0.0 && d >= 1.0 && q == x / d
    ensures 0.0 <= q <= x
  {
    assert q * d == x;
    if q < 0.0 {
      Negative(q, d);
    } else {
      NonNegative(q, d - 1.0);
      assert q * d == q * (d - 1.0) + q;
    }
  }

  lemma Negative(x: real, y: real)
    requires y > 0.0
    ensures x < 0.0 ==> x * y < 0.0
  {
  }

  lemma NonNegative(x: real, y: real)
    requires x >= 0.0 && y >= 0.0
    ensures x * y >= 0.0
  {
  }

  /** The conversion to uint16_t loses nothing. */
  lemma FeedbackFits(target: real, c: Setting)
    requires InRange(target) && Looped(c)
    ensures 0 <= Feedback(target, c) <= UINT16_MAX
  {
    DividerPositive(c);
    var x, d := target / FREQ_MULT, Divider(c) as real;
    hide Divider;
    ProductBetween(x, d, MAX_DIVIDER as real);
    RoundFits(x * d);
  }

  lemma RoundFits(x: real)
    requires -0.5 < x < 65535.5
    ensures 0 <= Round(x) <= UINT16_MAX
  {
  }

  lemma ProductBetween(x: real, d: real, e: real)
    requires 0.0 < d <= e && -0.5 < x * e < 65535.5
    ensures -0.5 < x * d < 65535.5
  {
    var z := e - d;
    var p, q, r := x * d, x * z, x * e;
    assert r == p + q by { Distribute(x, d, z); assert e == d + z; }
    if x >= 0.0 {
      NonNegative(x, d);
      NonNegative(x, z);
    } else {
      Negative(x, d);
      Negate(x, z);
      NonNegative(-x, z);
    }
  }

  lemma Distribute(x: real, d: real, z: real)
    ensures x * (d + z) == x * d + x * z
  {
  }

  lemma Negate(x: real, z: real)
    ensures -x * z == -(x * z)
  {
  }

  method FeedbackDivider(target: real, refdiv: nat, postdiv1: nat, postdiv2: nat) returns (divider: nat, fbDivider: int)
    requires InRange(target) && Looped(Setting(refdiv, postdiv1, postdiv2))
    ensures divider == Divider(Setting(refdiv, postdiv1, postdiv2))
    ensures 0 <= fbDivider == Feedback(target, Setting(refdiv, postdiv1, postdiv2)) <= UINT16_MAX
  {
    FeedbackFits(target, Setting(refdiv, postdiv1, postdiv2));
    divider := refdiv * postdiv1 * postdiv2;
    assert divider == Divider(Setting(refdiv, postdiv1, postdiv2));
    hide Divider, InRange;
    fbDivider := Round(target / FREQ_MULT * divider as real);
  }

  method Measure(target: real, refdiv: nat, postdiv1: nat, postdiv2: nat, divider: nat, fbDivider: nat)
    returns (newFreq: real, currDiff: real, vcoFreq: real)
    requires var c := Setting(refdiv, postdiv1, postdiv2);
             Legal(c) && divider == Divider(c) && fbDivider == Feedback(target, c)
    ensures var c := Setting(refdiv, postdiv1, postdiv2);
            && Divider(c) > 0 && newFreq == Frequency(target, c)
            && Key(currDiff, vcoFreq, postdiv1 * postdiv2) == KeyOf(target, c)
  {
    DividerPositive(Setting(refdiv, postdiv1, postdiv2));
    hide Divider, Feedback;
    newFreq := FREQ_MULT * fbDivider as real / divider as real;
    currDiff := Abs(target - newFreq);
    vcoFreq := FREQ_MULT * fbDivider as real / refdiv as real;
  }

  /** The body of the innermost loop. */
  method Consider(target: real, fbMin: nat, fbMax: nat, b: Best, refdiv: nat, postdiv1: nat, postdiv2: nat,
                  ghost best: Option<Setting>) returns (next: Best)
    requires InRange(target) && fbMax <= UINT16_MAX
    requires Looped(Setting(refdiv, postdiv1, postdiv2)) && Keeps(target, b, best)
    ensures Keeps(target, next, Considered(target, fbMin, fbMax, best, Setting(refdiv, postdiv1, postdiv2)))
  {
    ghost var c := Setting(refdiv, postdiv1, postdiv2);
    hide Divider, Feedback, InRange, Frequency, KeyOf;
    var divider, fbDivider := FeedbackDivider(target, refdiv, postdiv1, postdiv2);
    next := b;
    if postdiv1 > postdiv2 && fbDivider >= fbMin && fbDivider <= fbMax {
      FirstReplaces(target, fbMin, fbMax, c);
      var newFreq, currDiff, vcoFreq := Measure(target, refdiv, postdiv1, postdiv2, divider, fbDivider);
      if || currDiff < b.key.diff
         || (Abs(currDiff - b.key.diff) < EPSILON && vcoFreq < b.key.vco)
         || (Abs(currDiff - b.key.diff) < EPSILON && Abs(vcoFreq - b.key.vco) < EPSILON &&
             postdiv1 * postdiv2 < b.key.postdiv) {
        next := Best(newFreq, refdiv, fbDivider, postdiv1, postdiv2, Key(currDiff, vcoFreq, postdiv1 * postdiv2));
      }
    }
  }

  /** The loop over the second post divider. */
  method SearchRow(target: real, fbMin: nat, fbMax: nat, b: Best, refdiv: nat, postdiv1: nat) returns (next: Best)
    requires InRange(target) && fbMax <= UINT16_MAX && 1 <= refdiv <= 2 && 1 <= postdiv1 <= 7
    requires Keeps(target, b, Kept(target, fbMin, fbMax, refdiv, postdiv1, 7))
    ensures Keeps(target, next, Kept(target, fbMin, fbMax, refdiv, postdiv1, 0))
  {
    hide Keeps, Considered;
    next := b;
    var postdiv2: nat := 7;
    while postdiv2 > 0
      invariant postdiv2 <= 7 && Keeps(target, next, Kept(target, fbMin, fbMax, refdiv, postdiv1, postdiv2))
    {
      ghost var best := Kept(target, fbMin, fbMax, refdiv, postdiv1, postdiv2);
      next := Consider(target, fbMin, fbMax, next, refdiv, postdiv1, postdiv2, best);
      postdiv2 := postdiv2 - 1;
    }
  }

  /** The three loops. */
  method Search(target: real, fbMin: nat, fbMax: nat) returns (b: Best)
    requires InRange(target) && fbMax <= UINT16_MAX
    ensures Keeps(target, b, Result(target, fbMin, fbMax))
  {
    hide Considered;
    b := NOTHING;
    var refdiv: nat := 2;
    while refdiv > 0
      invariant refdiv <= 2 && Keeps(target, b, Kept(target, fbMin, fbMax, refdiv, 7, 7))
    {
      hide Keeps;
      var postdiv1: nat := 7;
      while postdiv1 > 0
        invariant postdiv1 <= 7 && Keeps(target, b, Kept(target, fbMin, fbMax, refdiv, postdiv1, 7))
      {
        b := SearchRow(target, fbMin, fbMax, b, refdiv, postdiv1);
        postdiv1 := postdiv1 - 1;
      }
      refdiv := refdiv - 1;
    }
  }

  // ---- pll_get_parameters --------------------------------------------------------------------

  datatype Outputs = Outputs(fbDivider: nat, refdiv: nat, postdiv1: nat, postdiv2: nat, actualFreq: real)

  /** Nothing, or the clock of some dividers that can be programmed. */
  ghost predicate Derived(freq: real) {
    freq == 0.0 || exists fb: nat, c :: DerivedFrom(freq, fb, c)
  }

  predicate DerivedFrom(freq: real, fb: nat, c: Setting) {
    1 <= fb <= UINT16_MAX && Legal(c) && Divider(c) > 0 && freq == Clock(fb, c)
  }

  lemma DerivedPositive(freq: real)
    requires Derived(freq)
    ensures freq >= 0.0 && (freq > 0.0 <==> exists fb: nat, c :: DerivedFrom(freq, fb, c))
  {
    forall fb: nat, c | DerivedFrom(freq, fb, c) ensures freq > 0.0 {
      ClockPositive(fb, c);
    }
    hide DerivedFrom;
  }

  class Solver {
    /** s_last_solved_freq. */
    var lastSolvedFreq: real

    ghost predicate Valid()
      reads this
    {
      Derived(lastSolvedFreq)
    }

    constructor ()
      ensures Valid() && lastSolvedFreq == 0.0
    {
      lastSolvedFreq := 0.0;
    }

    /** pll_get_last_solved_frequency: valid exactly if what it gives is the clock of some
        legal dividers; otherwise it gives zero. */
    method GetLastSolvedFrequency() returns (freq: real, ok: bool)
      requires Valid()
      ensures ok <==> exists fb: nat, c :: DerivedFrom(freq, fb, c)
      ensures freq == lastSolvedFreq && (!ok ==> freq == 0.0)
    {
      DerivedPositive(lastSolvedFreq);
      freq, ok := lastSolvedFreq, lastSolvedFreq > 0.0;
    }

    /** pll_get_parameters. */
    method GetParameters(target: real, fbMin: nat, fbMax: nat) returns (ok: bool, out: Outputs)
      requires Valid() && InRange(target) && fbMax <= UINT16_MAX
      modifies this
      ensures Valid() && lastSolvedFreq == out.actualFreq
      ensures ok <==> Solvable(target, fbMin, fbMax)
      ensures fbMin >= 1 ==> (ok <==> exists c :: Candidate(target, fbMin, fbMax, c))
      ensures !ok ==> out == Outputs(0, 0, 0, 0, 0.0)
      ensures ok ==> Solves(target, fbMin, fbMax, out, Setting(out.refdiv, out.postdiv1, out.postdiv2))
    {
      var b := Search(target, fbMin, fbMax);
      SearchSolves(target, fbMin, fbMax, b);
      hide Keeps, Solves, Candidate, Solvable, DerivedFrom;
      if b.freq <= 0.0 {
        lastSolvedFreq := 0.0;
        return false, Outputs(0, 0, 0, 0, 0.0);
      }
      lastSolvedFreq := b.freq;
      ok, out := true, Outputs(b.feedback % 256, b.refdiv, b.postdiv1, b.postdiv2, b.freq);
    }
  }

  /** A candidate whose clock is not zero. */
  predicate Runs(target: real, fbMin: nat, fbMax: nat, c: Setting) {
    Candidate(target, fbMin, fbMax, c) && Feedback(target, c) >= 1
  }

  /** The last setting the loops try, with the smallest divider. */
  const LAST: Setting := Setting(1, 2, 1)

  /** There is a candidate with a clock and, when the last setting is a candidate without one,
      it is closer than no clock at all by EPSILON or more. */
  ghost predicate Solvable(target: real, fbMin: nat, fbMax: nat) {
    exists c :: Runs(target, fbMin, fbMax, c) &&
                (fbMin == 0 && Feedback(target, LAST) == 0 ==> KeyOf(target, c).diff + EPSILON <= Abs(target))
  }

  /** out programs the result c of the search: its clock is reported, its feedback divider cut
      to a byte. It is not farther from the target than any candidate by EPSILON, it is closest
      exactly when a closest candidate is firm, and the one meant exactly when that is. */
  ghost predicate Solves(target: real, fbMin: nat, fbMax: nat, out: Outputs, c: Setting) {
    && Result(target, fbMin, fbMax) == Some(c) && Candidate(target, fbMin, fbMax, c) && Divider(c) > 0
    && out == Outputs(Feedback(target, c) % 256, c.refdiv, c.postdiv1, c.postdiv2, Frequency(target, c))
    && (forall d :: Candidate(target, fbMin, fbMax, d)
                    ==> Abs(target - out.actualFreq) < KeyOf(target, d).diff + EPSILON)
    && (Closest(target, fbMin, fbMax, c) <==> exists d :: Firm(target, fbMin, fbMax, d))
    && (Foremost(target, fbMin, fbMax, c) <==>
          exists d :: Foremost(target, fbMin, fbMax, d) && Firm(target, fbMin, fbMax, d))
    && (NearTieFree(target, fbMin, fbMax) ==> Foremost(target, fbMin, fbMax, c))
  }

  lemma SearchSolves(target: real, fbMin: nat, fbMax: nat, b: Best)
    requires InRange(target) && fbMax <= UINT16_MAX && Keeps(target, b, Result(target, fbMin, fbMax))
    ensures b.freq > 0.0 <==> Solvable(target, fbMin, fbMax)
    ensures fbMin >= 1 ==> (Solvable(target, fbMin, fbMax) <==> exists c :: Candidate(target, fbMin, fbMax, c))
    ensures Derived(if b.freq <= 0.0 then 0.0 else b.freq)
    ensures b.freq > 0.0 ==>
              b.feedback >= 0 &&
              Solves(target, fbMin, fbMax, Outputs(b.feedback % 256, b.refdiv, b.postdiv1, b.postdiv2, b.freq),
                     Setting(b.refdiv, b.postdiv1, b.postdiv2))
  {
    SolvableExact(target, fbMin, fbMax);
    ResultExact(target, fbMin, fbMax);
    var r := Result(target, fbMin, fbMax);
    if r.Some? {
      var c := r.value;
      hide Result, Feedback, Divider, Clock, KeyOf, Solvable, Solves;
      ClockPositive(Feedback(target, c), c);
      if b.freq > 0.0 {
        assert DerivedFrom(b.freq, Feedback(target, c), c);
        ResultSolves(target, fbMin, fbMax, c);
      }
    } else {
      hide Result, Solvable, Solves;
    }
  }

  lemma ResultSolves(target: real, fbMin: nat, fbMax: nat, c: Setting)
    requires Result(target, fbMin, fbMax) == Some(c) && Candidate(target, fbMin, fbMax, c) && Divider(c) > 0
    requires Feedback(target, c) >= 0
    ensures Solves(target, fbMin, fbMax,
                   Outputs(Feedback(target, c) % 256, c.refdiv, c.postdiv1, c.postdiv2, Frequency(target, c)), c)
  {
    ClosestExact(target, fbMin, fbMax);
    ForemostExact(target, fbMin, fbMax);
    if NearTieFree(target, fbMin, fbMax) { NearTieFreeForemost(target, fbMin, fbMax); }
    assert KeyOf(target, c).diff == Abs(target - Frequency(target, c));
    hide Result, Closest, Foremost, Firm, NearTieFree, Candidate, KeyOf, Frequency, Feedback, Divider;
    forall d | Candidate(target, fbMin, fbMax, d) ensures KeyOf(target, c).diff < KeyOf(target, d).diff + EPSILON {
      WithinEpsilon(target, fbMin, fbMax, d);
    }
  }

  /** When the search comes back with a clock. */
  lemma SolvableExact(target: real, fbMin: nat, fbMax: nat)
    ensures var r := Result(target, fbMin, fbMax);
            (r.Some? && Feedback(target, r.value) >= 1) <==> Solvable(target, fbMin, fbMax)
    ensures fbMin >= 1 ==> (Solvable(target, fbMin, fbMax) <==> exists c :: Candidate(target, fbMin, fbMax, c))
  {
    ResultExact(target, fbMin, fbMax);
    var r := Result(target, fbMin, fbMax);
    if r.Some? && Feedback(target, r.value) >= 1 && fbMin == 0 && Feedback(target, LAST) == 0 {
      ClockBeatsLast(target, fbMax, r.value);
    }
    if r.Some? && Feedback(target, r.value) >= 1 {
      hide Feedback, KeyOf, Result;
      assert Runs(target, fbMin, fbMax, r.value);
    }
    if c :| Runs(target, fbMin, fbMax, c) &&
            (fbMin == 0 && Feedback(target, LAST) == 0 ==> KeyOf(target, c).diff + EPSILON <= Abs(target)) {
      WithinEpsilon(target, fbMin, fbMax, c);
      if Feedback(target, r.value) == 0 {
        LastSmallest(target, r.value);
        NoClock(target, r.value);
      }
    }
    hide Feedback, KeyOf, Result;
    assert forall c :: fbMin >= 1 && Candidate(target, fbMin, fbMax, c) ==> Runs(target, fbMin, fbMax, c);
  }

  /** A result with a clock was not given up for the last setting, which has none. */
  lemma ClockBeatsLast(target: real, fbMax: nat, r: Setting)
    requires Result(target, 0, fbMax) == Some(r) && Feedback(target, r) >= 1 && Feedback(target, LAST) == 0
    ensures KeyOf(target, r).diff + EPSILON <= Abs(target)
  {
    hide Result;
    assert Candidate(target, 0, fbMax, LAST);
    ResultBeats(target, 0, fbMax, LAST);
    assert Before(r, LAST);
    NoClock(target, LAST);
    VcoSteps(target, LAST);
    VcoSteps(target, r);
    hide KeyOf, Feedback;
  }

  /** Where any setting has no clock, the last one has none. */
  lemma LastSmallest(target: real, c: Setting)
    requires Legal(c) && Feedback(target, c) == 0
    ensures Feedback(target, LAST) == 0
  {
    DividerPositive(c);
    assert Divider(c) >= 2;
    assert Divider(LAST) == 2;
    var x, d := target / FREQ_MULT, Divider(c) as real;
    hide Divider;
    Distribute(x, 2.0, d - 2.0);
    if x >= 0.0 {
      NonNegative(x, d - 2.0);
    } else {
      Negate(x, d - 2.0);
      NonNegative(-x, d - 2.0);
    }
  }

  lemma ClockPositive(fb: int, c: Setting)
    requires Divider(c) > 0
    ensures Clock(fb, c) > 0.0 <==> fb >= 1
  {
    var d := Divider(c) as real;
    var q := FREQ_MULT * fb as real / d;
    hide Divider;
    assert q * d == FREQ_MULT * fb as real;
    assert -q * d == -(q * d);
    if q > 0.0 { Negative(-q, d); } else { NonNegative(-q, d); }
  }

  /** Without feedback the distance is the whole target. */
  lemma NoClock(target: real, c: Setting)
    requires Legal(c) && Feedback(target, c) == 0
    ensures KeyOf(target, c).diff == Abs(target)
  {
    DividerPositive(c);
    hide Divider, Feedback;
  }

  /** With a feedback minimum of zero a request can have candidates and yet no solution. */
  lemma NoSolutionAtZero(fbMax: nat, c: Setting)
    requires Legal(c)
    ensures Candidate(0.0, 0, fbMax, c) && forall d :: !Runs(0.0, 0, fbMax, d)
  {
    hide Divider;
  }

  lemma ClockInjective(fb: int, fb': int, c: Setting)
    requires Divider(c) > 0 && Clock(fb, c) == Clock(fb', c)
    ensures fb == fb'
  {
    var d := Divider(c) as real;
    hide Divider;
    assert Clock(fb, c) * d == FREQ_MULT * fb as real;
    assert Clock(fb', c) * d == FREQ_MULT * fb' as real;
  }

  /** The feedback divider is reported in a byte: the reported dividers give the reported
      clock exactly when it fits. */
  lemma ReportedDividersExact(target: real, fbMin: nat, fbMax: nat, c: Setting)
    requires Candidate(target, fbMin, fbMax, c) && Divider(c) > 0
    ensures Clock(Feedback(target, c) % 256, c) == Frequency(target, c) <==> Feedback(target, c) < 256
  {
    hide Divider, Feedback, Clock;
    if Clock(Feedback(target, c) % 256, c) == Frequency(target, c) {
      ClockInjective(Feedback(target, c) % 256, Feedback(target, c), c);
    }
  }

  // ---- what the numbers are --------------------------------------------------------------------

  /** The feedback divider is the whole number next to what the target asks for. */
  lemma FeedbackNearest(target: real, c: Setting)
    ensures Abs(target / 25.0 * (c.refdiv * c.postdiv1 * c.postdiv2) as real - Feedback(target, c) as real) <= 0.5
  {
    var x := target / FREQ_MULT * Divider(c) as real;
    hide Divider;
    assert Round(x) as real <= x + 0.5 < Round(x) as real + 1.0;
  }

  /** What is compared, and what is tried. */
  lemma KeyExact(target: real, c: Setting)
    requires Legal(c)
    ensures 0 < c.refdiv * c.postdiv1 * c.postdiv2
    ensures var fb := Feedback(target, c) as real;
            KeyOf(target, c) == Key(Abs(target - 25.0 * fb / (c.refdiv * c.postdiv1 * c.postdiv2) as real),
                                    25.0 * fb / c.refdiv as real, c.postdiv1 * c.postdiv2)
  {
    DividerPositive(c);
    hide Feedback;
  }

  lemma CandidateExact(target: real, fbMin: nat, fbMax: nat, c: Setting)
    ensures Candidate(target, fbMin, fbMax, c) <==>
              (c.refdiv == 1 || c.refdiv == 2) && 1 <= c.postdiv2 < c.postdiv1 <= 7 &&
              fbMin <= Feedback(target, c) <= fbMax
  {
    hide Feedback;
  }

  // 450 MHz is a whole number of steps for every divider, so no candidate is off at all.

  lemma FeedbackAt450(d: nat)
    ensures Round(450.0 / FREQ_MULT * d as real) == 18 * d
  {
    assert 450.0 / FREQ_MULT * d as real == (18 * d) as real;
  }

  lemma ClockAt450(q: real, f: int, d: nat)
    requires IsClock(q, f, d) && f == 18 * d
    ensures q == 450.0
  {
    assert f as real == 18.0 * d as real;
    Distribute(d as real, q, -450.0);
    ZeroProduct(q - 450.0, d as real);
  }

  lemma VcoAt450(f: int, refdiv: nat, p: nat)
    requires (refdiv == 1 || refdiv == 2) && f == 18 * (refdiv * p)
    ensures FREQ_MULT * f as real / refdiv as real == 450.0 * p as real
  {
  }

  lemma ExactAt450(c: Setting)
    requires Candidate(450.0, 60, 200, c)
    ensures Feedback(450.0, c) == 18 * Divider(c) && KeyOf(450.0, c).diff == 0.0
    ensures KeyOf(450.0, c).vco == 450.0 * (c.postdiv1 * c.postdiv2) as real
  {
    DiffOf(450.0, c);
    VcoOf(450.0, c);
    FeedbackAt450(Divider(c));
    var d, f, q := Divider(c), Feedback(450.0, c), Frequency(450.0, c);
    DividerIs(c);
    hide Divider, Feedback, Frequency, KeyOf, IsClock;
    ClockAt450(q, f, d);
    VcoAt450(f, c.refdiv, c.postdiv1 * c.postdiv2);
  }

  lemma DividerIs(c: Setting)
    ensures Divider(c) == c.refdiv * (c.postdiv1 * c.postdiv2)
  {
    MulAssoc(c.refdiv, c.postdiv1, c.postdiv2);
  }

  /** With the bounds 60 to 200 the search finds reference divider 2, post dividers 2 and 1, and
      feedback divider 72 for 450 MHz. */
  lemma ResultAt450()
    ensures Result(450.0, 60, 200) == Some(Setting(2, 2, 1)) && Feedback(450.0, Setting(2, 2, 1)) == 72
  {
    hide Result;
    var c := Setting(2, 2, 1);
    assert Candidate(450.0, 60, 200, c);
    ResultBeats(450.0, 60, 200, c);
    var r := Result(450.0, 60, 200).value;
    NoTiesAt450();
    NearTieFreeForemost(450.0, 60, 200);
    ExactAt450(c);
    ExactAt450(r);
    SmallestAt450(r);
  }

  lemma NoTiesAt450()
    ensures NearTieFree(450.0, 60, 200)
  {
    forall c, d | Closest(450.0, 60, 200, c) && Candidate(450.0, 60, 200, d)
      ensures KeyOf(450.0, c).diff == KeyOf(450.0, d).diff {
      ExactAt450(c);
      ExactAt450(d);
    }
    hide KeyOf, Candidate, Closest;
  }

  lemma SmallestAt450(r: Setting)
    requires Candidate(450.0, 60, 200, r) && r.postdiv1 * r.postdiv2 <= 2
    ensures r == Setting(2, 2, 1)
  {
    ExactAt450(r);
    assert r.postdiv1 == 2 && r.postdiv2 == 1;
  }

  // ---- a near tie ----------------------------------------------------------------------------

  /** About 400.8929 MHz. */
  const TIE: real := 70156257.0 / 175000.0

  /** With the bounds of the BM1366 driver only dividers 9 to 14 are in range, and only 14
      gives another clock than 400 MHz. */
  lemma TieClocks(c: Setting)
    requires Candidate(TIE, 144, 235, c)
    ensures 10 <= Divider(c) <= 14
    ensures if Divider(c) == 14 then Feedback(TIE, c) == 225 else Feedback(TIE, c) == 16 * Divider(c)
  {
    TieDividers(c);
    var d := Divider(c);
    hide Divider;
    TieFeedback(d, Feedback(TIE, c));
  }

  lemma TieFeedback(d: nat, fb: int)
    requires fb == Round(TIE / FREQ_MULT * d as real) && 144 <= fb <= 235 && d != 9
    ensures 10 <= d <= 14 && fb == if d == 14 then 225 else 16 * d
  {
  }

  /** No product of different factors from 1 to 7, doubled or not, is 9. */
  lemma TieDividers(c: Setting)
    requires Legal(c)
    ensures Divider(c) != 9
    ensures Divider(c) == 14 ==> c == Setting(2, 7, 1) || c == Setting(1, 7, 2)
  {
  }

  lemma TieKey(c: Setting)
    requires Candidate(TIE, 144, 235, c)
    ensures KeyOf(TIE, c).diff == if Divider(c) == 14 then 25.0 * 225.0 / 14.0 - TIE else TIE - 400.0
    ensures KeyOf(TIE, c).vco == FREQ_MULT * Feedback(TIE, c) as real / c.refdiv as real
  {
    TieClocks(c);
    DiffOf(TIE, c);
    VcoOf(TIE, c);
    var d, f, q := Divider(c), Feedback(TIE, c), Frequency(TIE, c);
    hide Divider, Feedback, Frequency, KeyOf, IsClock;
    TieFrequency(q, f, d);
  }

  lemma TieFrequency(q: real, f: int, d: nat)
    requires IsClock(q, f, d) && 10 <= d <= 14 && f == if d == 14 then 225 else 16 * d
    ensures q == if d == 14 then 25.0 * 225.0 / 14.0 else 400.0
  {
    if d != 14 {
      EqualQuotient(q, d);
    }
  }

  lemma VcoOf(target: real, c: Setting)
    requires Legal(c)
    ensures KeyOf(target, c).vco == FREQ_MULT * Feedback(target, c) as real / c.refdiv as real
  {
    hide Feedback;
  }

  lemma EqualQuotient(q: real, d: nat)
    requires d > 0 && q * d as real == FREQ_MULT * (16 * d) as real
    ensures q == 400.0
  {
    assert (q - 400.0) * d as real == 0.0;
    ZeroProduct(q - 400.0, d as real);
  }

  lemma TieCandidates()
    ensures Candidate(TIE, 144, 235, Setting(2, 7, 1)) && Candidate(TIE, 144, 235, Setting(2, 5, 1))
    ensures Candidate(TIE, 144, 235, Setting(1, 7, 2)) && Candidate(TIE, 144, 235, Setting(1, 5, 2))
  {
  }

  /** Both closest settings are given up for later ones that are farther and slower. */
  lemma TieNotFirm(c: Setting)
    ensures !Firm(TIE, 144, 235, c)
  {
    TieCandidates();
    if Candidate(TIE, 144, 235, c) {
      TieDividers(c);
      if Divider(c) == 14 {
        GivenUp(c, Setting(c.refdiv, 5, c.postdiv2));
      } else {
        TieKey(Setting(2, 7, 1));
        TieKey(c);
        assert Divider(Setting(2, 7, 1)) == 14;
        hide Divider, Feedback, KeyOf;
      }
    }
  }

  lemma GivenUp(c: Setting, d: Setting)
    requires Candidate(TIE, 144, 235, c) && Candidate(TIE, 144, 235, d)
    requires Divider(c) == 14 && Divider(d) == 10 && c.refdiv == d.refdiv && Before(c, d)
    ensures !Firm(TIE, 144, 235, c)
  {
    TieKey(c);
    TieKey(d);
    TieClocks(c);
    TieClocks(d);
    hide Divider, Feedback, KeyOf;
  }

  /** So the search misses the closest setting there. What it ends with gives 400 MHz, as
      (2, 5, 1) does with half the oscillator frequency or less. */
  lemma ClosestMissed()
    ensures var r := Result(TIE, 144, 235);
            && r.Some? && Legal(r.value)
            && KeyOf(TIE, Setting(2, 7, 1)).diff < KeyOf(TIE, r.value).diff
            && KeyOf(TIE, Setting(2, 5, 1)).diff == KeyOf(TIE, r.value).diff
            && 2.0 * KeyOf(TIE, Setting(2, 5, 1)).vco <= KeyOf(TIE, r.value).vco
  {
    hide Result, Divider, Feedback, KeyOf, Replaces, Firm, Closest;
    TieCandidates();
    ResultBeats(TIE, 144, 235, Setting(2, 7, 1));
    var r := Result(TIE, 144, 235).value;
    TieFarther(r);
    TieSecond(r);
    TieSpeeds(r);
  }

  lemma TieSpeeds(r: Setting)
    requires Candidate(TIE, 144, 235, r) && r.refdiv == 1 && Divider(r) != 14
    ensures KeyOf(TIE, Setting(2, 7, 1)).diff < KeyOf(TIE, r).diff
    ensures KeyOf(TIE, Setting(2, 5, 1)).diff == KeyOf(TIE, r).diff
    ensures 2.0 * KeyOf(TIE, Setting(2, 5, 1)).vco <= KeyOf(TIE, r).vco
  {
    TieCandidates();
    TieKey(Setting(2, 7, 1));
    TieKey(Setting(2, 5, 1));
    TieKey(r);
    TieClocks(Setting(2, 5, 1));
    TieClocks(r);
    assert Divider(Setting(2, 7, 1)) == 14 && Divider(Setting(2, 5, 1)) == 10;
    hide Divider, Feedback, KeyOf;
  }

  /** The result comes from the second turn of the outer loop: a result of the first would
      have been given up for (1, 7, 2). */
  lemma TieSecond(r: Setting)
    requires Result(TIE, 144, 235) == Some(r) && Candidate(TIE, 144, 235, r) && Divider(r) != 14
    ensures r.refdiv == 1
  {
    hide Result;
    var d := Setting(1, 7, 2);
    TieCandidates();
    ResultBeats(TIE, 144, 235, d);
    TieKey(d);
    TieKey(r);
    assert Divider(d) == 14;
    hide Divider, Feedback, KeyOf, Firm;
    assert r.refdiv == 2 ==> Before(r, d);
  }

  lemma TieFarther(r: Setting)
    requires Result(TIE, 144, 235) == Some(r) && Candidate(TIE, 144, 235, r)
    ensures Divider(r) != 14
  {
    hide Result, Divider, Feedback, KeyOf, Firm;
    ClosestExact(TIE, 144, 235);
    forall c ensures !Firm(TIE, 144, 235, c) {
      TieNotFirm(c);
    }
    var d :| Candidate(TIE, 144, 235, d) && KeyOf(TIE, d).diff < KeyOf(TIE, r).diff;
    TieKey(d);
    TieKey(r);
  }
}
