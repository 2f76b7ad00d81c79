/** Positional numerals, most significant digit first, as the regrouping loops and
    the Base58 codec read and write them. */
module Digits {
  import opened Arith
  import opened Sequences

  function Pow(b: nat, e: nat): (p: nat)
    ensures b > 0 ==> p > 0
  {
    if e == 0 then 1 else Pow(b, e - 1) * b
  }

  predicate AllBelow(ds: seq<nat>, base: nat) {
    forall i :: 0 <= i < |ds| ==> ds[i] < base
  }

  function Value(ds: seq<nat>, base: nat): nat {
    if |ds| == 0 then 0 else Value(ds[..|ds| - 1], base) * base + ds[|ds| - 1]
  }

  /** The n-digit numeral of v modulo base^n, leading zeros included. */
  function DigitsOf(v: nat, base: nat, n: nat): (ds: seq<nat>)
    requires base > 0
    ensures |ds| == n && AllBelow(ds, base)
    decreases n
  {
    if n == 0 then [] else
      DigitsOf(v / base, base, n - 1) + [v % base]
  }

  lemma ValueSnoc(ds: seq<nat>, d: nat, base: nat)
    ensures Value(ds + [d], base) == Value(ds, base) * base + d
  {
    assert (ds + [d])[..|ds|] == ds;
  }

  lemma {:induction false} PowAdd(b: nat, m: nat, n: nat)
    ensures Pow(b, m + n) == Pow(b, m) * Pow(b, n)
  {
    if n > 0 {
      PowAdd(b, m, n - 1);
      MulAssoc(Pow(b, m), Pow(b, n - 1), b);
    }
  }

  lemma {:induction false} ValueBelowPow(ds: seq<nat>, base: nat)
    requires AllBelow(ds, base)
    ensures Value(ds, base) < Pow(base, |ds|)
  {
    if |ds| > 0 {
      var hi := ds[..|ds| - 1];
      ValueBelowPow(hi, base);
      MulMono(Value(hi, base) + 1, Pow(base, |hi|), base);
      MulDistrib(Value(hi, base), 1, base);
    }
  }

  lemma {:induction false} DigitsOfValue(ds: seq<nat>, base: nat)
    requires base > 0 && AllBelow(ds, base)
    ensures DigitsOf(Value(ds, base), base, |ds|) == ds
  {
    if |ds| > 0 {
      var hi := ds[..|ds| - 1];
      DigitsOfValue(hi, base);
      DivModUnique(Value(ds, base), base, Value(hi, base), ds[|ds| - 1]);
      assert ds == hi + [ds[|ds| - 1]];
    }
  }

  lemma {:induction false} ValueOfDigits(v: nat, base: nat, n: nat)
    requires base > 0 && v < Pow(base, n)
    ensures Value(DigitsOf(v, base, n), base) == v
    decreases n
  {
    if n > 0 {
      DivNat(v, base);
      DivBelow(v, Pow(base, n - 1), base);
      ValueOfDigits(v / base, base, n - 1);
      DivModIdentity(v, base);
      ValueSnoc(DigitsOf(v / base, base, n - 1), v % base, base);
    }
  }

  lemma {:induction false} ValueConcat(a: seq<nat>, b: seq<nat>, base: nat)
    ensures Value(a + b, base) == Value(a, base) * Pow(base, |b|) + Value(b, base)
  {
    if |b| == 0 {
      assert a + b == a;
    } else {
      var c, d := b[..|b| - 1], b[|b| - 1];
      ValueConcat(a, c, base);
      assert a + b == (a + c) + [d];
      ValueSnoc(a + c, d, base);
      MulDistrib(Value(a, base) * Pow(base, |c|), Value(c, base), base);
      MulAssoc(Value(a, base), Pow(base, |c|), base);
    }
  }

  function Zeros(n: nat): (z: seq<nat>)
    ensures |z| == n && forall i :: 0 <= i < n ==> z[i] == 0
  {
    Repeat(0, n)
  }

  lemma {:induction false} ValueZeros(n: nat, base: nat)
    ensures Value(Zeros(n), base) == 0
  {
    if n > 0 {
      ValueZeros(n - 1, base);
      assert Zeros(n)[..n - 1] == Zeros(n - 1);
    }
  }

  lemma ValueLeadingZeros(z: nat, ds: seq<nat>, base: nat)
    ensures Value(Zeros(z) + ds, base) == Value(ds, base)
  {
    ValueConcat(Zeros(z), ds, base);
    ValueZeros(z, base);
  }

  lemma ValueCons(d: nat, ds: seq<nat>, base: nat)
    ensures Value([d] + ds, base) == d * Pow(base, |ds|) + Value(ds, base)
  {
    ValueConcat([d], ds, base);
    assert [d][..0] == [];
  }

  lemma ValuePrefix(ds: seq<nat>, k: nat, base: nat)
    requires base > 0 && k <= |ds|
    ensures Value(ds[..k], base) <= Value(ds, base)
  {
    hide Pow, Value;
    ValueConcat(ds[..k], ds[k..], base);
    assert ds == ds[..k] + ds[k..];
    MulMono(1, Pow(base, |ds| - k), Value(ds[..k], base));
  }

  function LeadingZeros(ds: seq<nat>): (n: nat)
    ensures n <= |ds|
    ensures forall i :: 0 <= i < n ==> ds[i] == 0
    ensures n < |ds| ==> ds[n] != 0
  {
    if |ds| == 0 || ds[0] != 0 then 0 else 1 + LeadingZeros(ds[1..])
  }

  function Strip(ds: seq<nat>): seq<nat> {
    ds[LeadingZeros(ds)..]
  }

  lemma LeadingZerosUnique(ds: seq<nat>, n: nat)
    requires n <= |ds|
    requires forall i :: 0 <= i < n ==> ds[i] == 0
    requires n < |ds| ==> ds[n] != 0
    ensures LeadingZeros(ds) == n
  {
    var m := LeadingZeros(ds);
    assert m < |ds| ==> ds[m] != 0;
  }

  lemma StripPad(ds: seq<nat>, base: nat)
    ensures ds == Zeros(LeadingZeros(ds)) + Strip(ds)
    ensures Value(Strip(ds), base) == Value(ds, base)
  {
    assert ds == Zeros(LeadingZeros(ds)) + Strip(ds);
    ValueLeadingZeros(LeadingZeros(ds), Strip(ds), base);
  }

  lemma {:induction false} PowMono(base: nat, m: nat, n: nat)
    requires base > 0 && m <= n
    ensures Pow(base, m) <= Pow(base, n)
  {
    PowAdd(base, m, n - m);
    MulMono(1, Pow(base, n - m), Pow(base, m));
  }

  lemma StrippedLarge(ds: seq<nat>, base: nat)
    requires base > 0 && |ds| > 0 && ds[0] != 0
    ensures Value(ds, base) >= Pow(base, |ds| - 1)
  {
    assert ds == [ds[0]] + ds[1..];
    ValueCons(ds[0], ds[1..], base);
    MulMono(1, ds[0], Pow(base, |ds| - 1));
  }

  lemma StrippedFits(ds: seq<nat>, base: nat, n: nat)
    requires base > 0 && LeadingZeros(ds) == 0 && Value(ds, base) < Pow(base, n)
    ensures |ds| <= n
  {
    hide Pow, Value;
    if |ds| > n {
      StrippedLarge(ds, base);
      PowMono(base, n, |ds| - 1);
    }
  }

  lemma StripHead(ds: seq<nat>)
    ensures |Strip(ds)| == |ds| - LeadingZeros(ds) && (|Strip(ds)| > 0 ==> Strip(ds)[0] != 0)
    ensures forall base: nat :: AllBelow(ds, base) ==> AllBelow(Strip(ds), base)
  {
  }

  /** A numeral has at least z leading zeros exactly when its value fits the other digits. */
  lemma LeadingZerosExact(ds: seq<nat>, base: nat, z: nat)
    requires base > 0 && AllBelow(ds, base)
    ensures z <= LeadingZeros(ds) <==> z <= |ds| && Value(ds, base) < Pow(base, |ds| - z)
  {
    hide Pow, Value;
    var lz := LeadingZeros(ds);
    StripPad(ds, base);
    var rest := Strip(ds);
    StripHead(ds);
    hide Strip, LeadingZeros;
    if z <= lz {
      ValueBelowPow(rest, base);
      PowMono(base, |rest|, |ds| - z);
    } else if z <= |ds| {
      StrippedLarge(rest, base);
      PowMono(base, |ds| - z, |rest| - 1);
    }
  }

  /** A numeral without leading zeros is the stripped form of every wide enough numeral
      of its value. */
  lemma StripUnique(ds: seq<nat>, base: nat, n: nat)
    requires base > 0 && AllBelow(ds, base) && LeadingZeros(ds) == 0 && Value(ds, base) < Pow(base, n)
    ensures |ds| <= n && DigitsOf(Value(ds, base), base, n) == Zeros(n - |ds|) + ds
    ensures Strip(DigitsOf(Value(ds, base), base, n)) == ds
  {
    hide Pow, Value, DigitsOf, Strip, LeadingZeros, AllBelow;
    StrippedFits(ds, base, n);
    StripPadded(n - |ds|, ds, base);
  }

  lemma StripPadded(z: nat, ds: seq<nat>, base: nat)
    requires base > 0 && AllBelow(ds, base) && LeadingZeros(ds) == 0
    ensures DigitsOf(Value(ds, base), base, z + |ds|) == Zeros(z) + ds
    ensures Strip(DigitsOf(Value(ds, base), base, z + |ds|)) == ds
  {
    hide Pow, Value, DigitsOf, Strip, LeadingZeros, AllBelow, Zeros;
    PaddedDigits(z, ds, base);
    StripZeros(z, ds);
  }

  lemma PaddedDigits(z: nat, ds: seq<nat>, base: nat)
    requires base > 0 && AllBelow(ds, base)
    ensures DigitsOf(Value(ds, base), base, z + |ds|) == Zeros(z) + ds
  {
    hide Pow, Value, DigitsOf;
    ValueLeadingZeros(z, ds, base);
    DigitsOfValue(Zeros(z) + ds, base);
  }

  lemma StripZeros(z: nat, ds: seq<nat>)
    requires LeadingZeros(ds) == 0
    ensures LeadingZeros(Zeros(z) + ds) == z && Strip(Zeros(z) + ds) == ds
  {
    var padded := Zeros(z) + ds;
    assert |ds| > 0 ==> ds[0] != 0 && padded[z] == ds[0];
    LeadingZerosUnique(padded, z);
  }

  /** The digit at position k, by division. */
  lemma {:induction false} DigitAt(v: nat, base: nat, n: nat, k: nat)
    requires base > 0 && k < n
    ensures v / Pow(base, n - 1 - k) >= 0
    ensures DigitsOf(v, base, n)[k] == (v / Pow(base, n - 1 - k)) % base
    decreases n
  {
    var p := Pow(base, n - 1 - k);
    DivNat(v, p);
    if k < n - 1 {
      DivNat(v, base);
      DigitAt(v / base, base, n - 1, k);
      DivDiv(v, base, Pow(base, n - 2 - k));
    }
  }
}
