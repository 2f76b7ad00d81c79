/** convert_bits of segwit_addr.c. */
module BitRegroup {
  import opened Wrappers
  import opened Arith
  import opened Digits

  const WORD_SIZE: nat := 0x1_0000_0000  // val is a uint32_t

  function P2(n: nat): (p: nat)
    ensures p > 0
  {
    Pow(2, n)
  }

  lemma P2Add(m: nat, n: nat)
    ensures P2(m + n) == P2(m) * P2(n)
  {
    PowAdd(2, m, n);
  }

  lemma {:induction false} PowOfPow(a: nat, n: nat)
    ensures Pow(P2(a), n) == P2(a * n)
  {
    if n > 0 {
      PowOfPow(a, n - 1);
      MulDistrib(n - 1, 1, a);
      P2Add(a * (n - 1), a);
    }
  }

  lemma P2Values()
    ensures P2(5) == 32 && P2(8) == 256
  {
    assert P2(2) == 4;
    assert P2(4) == 16;
    assert P2(6) == 64;
  }

  lemma P2Word()
    ensures P2(32) == WORD_SIZE
  {
    P2Values();
    P2Add(8, 8);
    P2Add(16, 16);
  }

  // ---- what regrouping means ---------------------------------------------------

  /** Read input as one big-endian string of inbits-bit groups and cut it into
      outbits-bit groups: padded with zero bits on the right, or, unpadded, refused
      unless the leftover is shorter than an input group and all zero. */
  function Regroup(input: seq<nat>, inbits: nat, outbits: nat, pad: bool): (r: Option<seq<nat>>)
    requires outbits > 0
    ensures r.Some? ==> AllBelow(r.value, P2(outbits))
  {
    if pad then Some(Filled(input, inbits, outbits)) else Cut(input, inbits, outbits)
  }

  function Filled(input: seq<nat>, inbits: nat, outbits: nat): (r: seq<nat>)
    requires outbits > 0
    ensures AllBelow(r, P2(outbits))
  {
    var total := |input| * inbits;
    var v, spare := Value(input, P2(inbits)), total % outbits;
    DivNat(total, outbits);
    hide Pow, P2, Value, DigitsOf;
    var fill := if spare > 0 then outbits - spare else 0;
    DigitsOf(v * P2(fill), P2(outbits), total / outbits + (if spare > 0 then 1 else 0))
  }

  function Cut(input: seq<nat>, inbits: nat, outbits: nat): (r: Option<seq<nat>>)
    requires outbits > 0
    ensures r.Some? ==> AllBelow(r.value, P2(outbits))
  {
    var total := |input| * inbits;
    var v, spare := Value(input, P2(inbits)), total % outbits;
    DivNat(total, outbits);
    DivNat(v, P2(spare));
    hide Pow, P2, Value, DigitsOf;
    if spare >= inbits || v % P2(spare) != 0 then None
    else Some(DigitsOf(v / P2(spare), P2(outbits), total / outbits))
  }

  lemma ValueBelow(ds: seq<nat>, w: nat)
    requires AllBelow(ds, P2(w))
    ensures Value(ds, P2(w)) < P2(|ds| * w)
  {
    ValueBelowPow(ds, P2(w));
    PowOfPow(w, |ds|);
  }

  lemma DigitsRecover(v: nat, w: nat, n: nat)
    requires v < P2(n * w)
    ensures Value(DigitsOf(v, P2(w), n), P2(w)) == v
  {
    PowOfPow(w, n);
    ValueOfDigits(v, P2(w), n);
  }

  /** n bytes take m symbols, the last of them filled up with fill bits. */
  lemma PadShape(n: nat, spare: nat, fill: nat, m: nat)
    requires spare == (n * 8) % 5 && fill == (if spare > 0 then 5 - spare else 0)
    requires m == n * 8 / 5 + if spare > 0 then 1 else 0
    ensures m * 5 == n * 8 + fill && (m * 5) % 8 == fill && m * 5 / 8 == n
  {
    DivModIdentity(n * 8, 5);
    DivModUnique(m * 5, 8, n, fill);
  }

  /** The symbols of n padded bytes spell their value, shifted over the fill bits. */
  lemma PadValue(prog: seq<nat>, fill: nat, m: nat)
    requires AllBelow(prog, 256) && m * 5 == |prog| * 8 + fill
    ensures var v := Value(prog, 256) * P2(fill);
            v >= 0 && Value(DigitsOf(v, 32, m), 32) == v
  {
    hide Pow, P2, Value, DigitsOf, AllBelow;
    P2Values();
    var v := Value(prog, 256);
    ValueBelow(prog, 8);
    P2Add(|prog| * 8, fill);
    MulMono(v + 1, P2(|prog| * 8), P2(fill));
    MulDistrib(v, 1, P2(fill));
    DigitsRecover(v * P2(fill), 5, m);
  }

  /** Padding a byte string into symbols and cutting it back loses nothing. */
  lemma UnpadAfterPad(prog: seq<nat>)
    requires AllBelow(prog, 256)
    ensures var s := Regroup(prog, 8, 5, true).value;
            AllBelow(s, 32) && Regroup(s, 5, 8, false) == Some(prog)
  {
    P2Values();
    var n := |prog|;
    var v, spare := Value(prog, 256), (n * 8) % 5;
    var fill := if spare > 0 then 5 - spare else 0;
    var m := n * 8 / 5 + if spare > 0 then 1 else 0;
    hide Pow, P2, Value, DigitsOf, AllBelow;
    PadShape(n, spare, fill, m);
    PadValue(prog, fill, m);
    DivModUnique(v * P2(fill), P2(fill), v, 0);
    DigitsOfValue(prog, 256);
  }

  /** The quotient of an accepted symbol string fits the bytes it is cut into. */
  lemma UnpadQuotient(s: seq<nat>, n: nat, spare: nat)
    requires AllBelow(s, 32) && n * 8 + spare == |s| * 5
    ensures var v := Value(s, 32) / P2(spare);
            v >= 0 && Value(DigitsOf(v, 256, n), 256) == v
  {
    hide Pow, P2, Value;
    P2Values();
    var w := Value(s, 32);
    ValueBelow(s, 5);
    P2Add(n * 8, spare);
    DivNat(w, P2(spare));
    DivBelow(w, P2(n * 8), P2(spare));
    DigitsRecover(w / P2(spare), 8, n);
  }

  /** m symbols with a short leftover give n bytes, which fill m symbols but for that leftover. */
  lemma UnpadShape(m: nat, spare: nat, n: nat)
    requires spare == (m * 5) % 8 && n == m * 5 / 8 && spare < 5
    ensures spare == 0 ==> (n * 8) % 5 == 0 && n * 8 / 5 == m
    ensures spare > 0 ==> (n * 8) % 5 == 5 - spare && n * 8 / 5 == m - 1
  {
    DivModIdentity(m * 5, 8);
    if spare > 0 {
      DivModUnique(n * 8, 5, m - 1, 5 - spare);
    }
  }

  /** Symbols that can be cut into bytes are the padding of those bytes. */
  lemma PadAfterUnpad(s: seq<nat>)
    requires AllBelow(s, 32) && Regroup(s, 5, 8, false).Some?
    ensures Regroup(Regroup(s, 5, 8, false).value, 8, 5, true) == Some(s)
  {
    hide Pow, P2, Value, DigitsOf, AllBelow;
    P2Values();
    var spare, n := (|s| * 5) % 8, |s| * 5 / 8;
    var w := Value(s, 32);
    UnpadQuotient(s, n, spare);
    DivModIdentity(w, P2(spare));
    UnpadShape(|s|, spare, n);
    P2Zero();
    DigitsOfValue(s, 32);
  }

  lemma P2Zero()
    ensures P2(0) == 1
  {
  }

  // ---- bit by bit ------------------------------------------------------------------

  /** The k-th bit of a string of w-bit groups, each with its most significant bit first. */
  function BitAt(s: seq<nat>, w: nat, k: nat): nat
    requires w > 0 && k < |s| * w
  {
    DivBelow(k, |s|, w);
    DivNat(k, w);
    DivNat(s[k / w], P2(w - 1 - k % w));
    (s[k / w] / P2(w - 1 - k % w)) % 2
  }

  /** Bit e of a number, the least significant one being bit 0. */
  function BitOf(v: nat, e: nat): nat {
    DivNat(v, P2(e));
    (v / P2(e)) % 2
  }

  lemma BitHigh(v: nat, d: nat, w: nat, e: nat)
    requires d < P2(w)
    ensures BitOf(v * P2(w) + d, e + w) == BitOf(v, e)
  {
    P2Add(e, w);
    DivDiv(v * P2(w) + d, P2(w), P2(e));
    DivModUnique(v * P2(w) + d, P2(w), v, d);
    hide P2;
  }

  lemma BitLow(v: nat, d: nat, w: nat, e: nat)
    requires d < P2(w) && e < w
    ensures BitOf(v * P2(w) + d, e) == BitOf(d, e)
  {
    var p := P2(e);
    var h := v * P2(w - e);
    P2Add(e, w - e);
    P2Add(w - e - 1, 1);
    DivModIdentity(d, p);
    DivNat(d, p);
    MulAssoc(v, P2(w - e), p);
    MulDistrib(h, d / p, p);
    DivModUnique(v * P2(w) + d, p, h + d / p, d % p);
    MulAssoc(v, P2(w - e - 1), 2);
    EvenSum(v * P2(w - e - 1), d / p);
  }

  lemma EvenSum(a: nat, b: nat)
    ensures (a * 2 + b) % 2 == b % 2
  {
  }

  /** The value of a string of groups has the bits of the string. */
  lemma {:induction false} BitOfValue(s: seq<nat>, w: nat, k: nat)
    requires w > 0 && AllBelow(s, P2(w)) && k < |s| * w
    ensures BitOf(Value(s, P2(w)), |s| * w - 1 - k) == BitAt(s, w, k)
  {
    var hi, d := s[..|s| - 1], s[|s| - 1];
    MulDistrib(|hi|, 1, w);
    if k < |hi| * w {
      BitOfValue(hi, w, k);
      DivBelow(k, |hi|, w);
      DivNat(k, w);
      BitHigh(Value(hi, P2(w)), d, w, |hi| * w - 1 - k);
      hide P2, Value, BitOf;
      assert s[k / w] == hi[k / w];
    } else {
      var j := k - |hi| * w;
      DivModUnique(k, w, |hi|, j);
      BitLow(Value(hi, P2(w)), d, w, w - 1 - j);
    }
  }

  lemma BitShifted(v: nat, fill: nat, e: nat)
    ensures BitOf(v * P2(fill), e) == if e < fill then 0 else BitOf(v, e - fill)
  {
    hide P2, BitOf;
    if e < fill {
      BitLow(v, 0, fill, e);
      BitZero(e);
    } else {
      BitHigh(v, 0, fill, e - fill);
    }
  }

  lemma BitZero(e: nat)
    ensures BitOf(0, e) == 0
  {
    DivModUnique(0, P2(e), 0, 0);
    hide P2;
  }

  /** The zero bits that n bytes take to fill up the last symbol. */
  function Fill(n: nat): nat {
    if (n * 8) % 5 > 0 then 5 - (n * 8) % 5 else 0
  }

  /** The symbols that n bytes take. */
  function SymbolCount(n: nat): nat {
    n * 8 / 5 + if (n * 8) % 5 > 0 then 1 else 0
  }

  lemma SymbolsShape(n: nat)
    ensures SymbolCount(n) * 5 == n * 8 + Fill(n) && SymbolCount(n) == (n * 8 + 4) / 5
  {
    PadShape(n, (n * 8) % 5, Fill(n), SymbolCount(n));
    DivModUnique(n * 8 + 4, 5, SymbolCount(n), 4 - Fill(n));
  }

  lemma PadIs(prog: seq<nat>, fill: nat, m: nat)
    requires fill == Fill(|prog|) && m == SymbolCount(|prog|)
    ensures Regroup(prog, 8, 5, true) == Some(DigitsOf(Value(prog, P2(8)) * P2(fill), P2(5), m))
  {
    hide Pow, P2, Value, DigitsOf, AllBelow;
  }

  lemma PadSpells(prog: seq<nat>)
    requires AllBelow(prog, 256)
    ensures var s := Regroup(prog, 8, 5, true).value;
            AllBelow(s, 32) && |s| * 5 == |prog| * 8 + Fill(|prog|) && |s| == (|prog| * 8 + 4) / 5 &&
            Value(s, 32) == Value(prog, 256) * P2(Fill(|prog|))
  {
    P2Values();
    PadIs(prog, Fill(|prog|), SymbolCount(|prog|));
    SymbolsShape(|prog|);
    hide Filled, Cut, Pow, P2, Value, DigitsOf, AllBelow, Fill, SymbolCount;
    PadValue(prog, Fill(|prog|), SymbolCount(|prog|));
  }

  /** Padding into symbols keeps every bit in its place and adds zeros at the end. */
  lemma PadBits(prog: seq<nat>, k: nat)
    requires AllBelow(prog, 256)
    ensures var s := Regroup(prog, 8, 5, true).value;
            |s| == (|prog| * 8 + 4) / 5 &&
            (k < |s| * 5 ==> BitAt(s, 5, k) == if k < |prog| * 8 then BitAt(prog, 8, k) else 0)
  {
    var s := Regroup(prog, 8, 5, true).value;
    PadSpells(prog);
    P2Values();
    hide Regroup, Pow, P2, Value, AllBelow, BitOf, Fill;
    if k < |s| * 5 {
      BitOfValue(s, 5, k);
      BitShifted(Value(prog, 256), Fill(|prog|), |s| * 5 - 1 - k);
      if k < |prog| * 8 { BitOfValue(prog, 8, k); }
      hide BitAt;
    }
  }

  // ---- the loop --------------------------------------------------------------------

  lemma ModOfMod(v: nat, m: nat, n: nat)
    requires m > 0 && n > 0 && m * n > 0
    ensures (v % (m * n)) % m == v % m
  {
    var d, w := v / (m * n), v % (m * n);
    DivModIdentity(v, m * n);
    DivModIdentity(w, m);
    var e, f := w / m, w % m;
    MulAssoc(d, n, m);
    MulDistrib(d * n, e, m);
    assert d * (m * n) == (d * n) * m by { assert m * n == n * m; }
    DivModUnique(v, m, d * n + e, f);
  }

  lemma ScaleMod(val: nat, x: nat, p: nat, a: nat)
    requires x < a && p > 0
    ensures p * a > 0 && (val * a + x) % (p * a) == (val % p) * a + x
  {
    var q, r := val / p, val % p;
    DivModIdentity(val, p);
    MulDistrib(q * p, r, a);
    MulAssoc(q, p, a);
    MulMono(r + 1, p, a);
    MulDistrib(r, 1, a);
    DivModUnique(val * a + x, p * a, q, r * a + x);
  }

  /** Shifting x in keeps the pending low bits, whatever falls off the top of the word. */
  lemma ShiftIn(val: nat, x: nat, bits: nat, width: nat)
    requires x < P2(width) && bits + width <= 32
    ensures ((val * P2(width) + x) % WORD_SIZE) % P2(bits + width) == (val % P2(bits)) * P2(width) + x
  {
    hide P2;
    var top := 32 - (bits + width);
    P2Add(bits, width);
    P2Add(bits + width, top);
    P2Word();
    ScaleMod(val, x, P2(bits), P2(width));
    ModOfMod(val * P2(width) + x, P2(bits + width), P2(top));
  }

  /** Reading out the top group of the pending bits leaves the bits below it. */
  lemma ShiftOut(val: nat, bits: nat, width: nat)
    ensures val % P2(bits + width) == ((val / P2(bits)) % P2(width)) * P2(bits) + val % P2(bits)
  {
    var p, b := P2(bits), P2(width);
    P2Add(bits, width);
    var q, r := val / p, val % p;
    DivModIdentity(val, p);
    DivNat(val, p);
    var s, d := q / b, q % b;
    DivModIdentity(q, b);
    MulDistrib(s * b, d, p);
    MulAssoc(s, b, p);
    MulMono(d + 1, b, p);
    MulDistrib(d, 1, p);
    assert b * p == p * b;
    DivModUnique(val, b * p, s, d * p + r);
  }

  /** The groups written and the bits pending spell the number total. */
  predicate Spells(out: seq<nat>, outbits: nat, val: nat, bits: nat, total: nat) {
    AllBelow(out, P2(outbits)) && Value(out, P2(outbits)) * P2(bits) + val % P2(bits) == total
  }

  /** One group moves from the pending bits to the output. */
  lemma EmitGroup(out: seq<nat>, val: nat, bits: nat, width: nat, total: nat)
    requires Spells(out, width, val, bits + width, total)
    ensures val / P2(bits) >= 0 && 0 <= (val / P2(bits)) % P2(width)
    ensures Spells(out + [(val / P2(bits)) % P2(width)], width, val, bits, total)
  {
    DivNat(val, P2(bits));
    DivNat(val / P2(bits), P2(width));
    var d := (val / P2(bits)) % P2(width);
    var v, b, p := Value(out, P2(width)), P2(width), P2(bits);
    ShiftOut(val, bits, width);
    P2Add(bits, width);
    ValueSnoc(out, d, b);
    hide P2, Value, Pow;
    MulDistrib(v * b, d, p);
    MulAssoc(v, b, p);
    assert b * p == p * b;
  }

  /** One input value joins the pending bits. */
  lemma TakeInput(out: seq<nat>, taken: seq<nat>, x: nat, val: nat, bits: nat, inbits: nat, outbits: nat)
    requires x < P2(inbits) && bits + inbits <= 32
    requires Spells(out, outbits, val, bits, Value(taken, P2(inbits)))
    ensures Spells(out, outbits, (val * P2(inbits) + x) % WORD_SIZE, bits + inbits, Value(taken + [x], P2(inbits)))
  {
    hide P2, Value, Pow;
    var v, p, a := Value(out, P2(outbits)), P2(bits), P2(inbits);
    ShiftIn(val, x, bits, inbits);
    ValueSnoc(taken, x, a);
    P2Add(bits, inbits);
    MulDistrib(v * p, val % p, a);
    MulAssoc(v, p, a);
  }

  /** The inner loop of convert_bits: write out every complete group. */
  method EmitGroups(val: nat, bits: nat, outbits: nat, out: seq<nat>, ghost total: nat)
      returns (rest: nat, output: seq<nat>)
    requires outbits > 0 && Spells(out, outbits, val, bits, total)
    ensures rest < outbits && |output| * outbits + rest == |out| * outbits + bits
    ensures Spells(output, outbits, val, rest, total)
  {
    hide Pow, P2, Value, Spells;
    rest, output := bits, out;
    while rest >= outbits
      invariant |output| * outbits + rest == |out| * outbits + bits
      invariant Spells(output, outbits, val, rest, total)
    {
      rest := rest - outbits;
      EmitGroup(output, val, rest, outbits, total);
      MulDistrib(|output|, 1, outbits);
      output := output + [(val / P2(rest)) % P2(outbits)];
    }
  }

  /** The end of convert_bits: pad the pending bits, or insist that they are zero. */
  method Finish(out: seq<nat>, val: nat, bits: nat, ghost input: seq<nat>, inbits: nat, outbits: nat, pad: bool)
      returns (ok: bool, output: seq<nat>)
    requires 1 <= inbits <= 8 && bits < outbits <= 8
    requires |out| * outbits + bits == |input| * inbits
    requires Spells(out, outbits, val, bits, Value(input, P2(inbits)))
    ensures ok == Regroup(input, inbits, outbits, pad).Some?
    ensures ok ==> output == Regroup(input, inbits, outbits, pad).value
  {
    hide Pow, P2, Value;
    DivModUnique(|input| * inbits, outbits, |out|, bits);
    DivNat(val, P2(bits));
    ShiftIn(val, 0, bits, outbits - bits);
    var rest := ((val * P2(outbits - bits)) % WORD_SIZE) % P2(outbits);
    output := out;
    if pad {
      PadResult(out, val % P2(bits), bits, input, inbits, outbits);
      if bits > 0 {
        output := output + [rest];
      }
    } else {
      MulZero(val % P2(bits), P2(outbits - bits));
      DivModUnique(Value(input, P2(inbits)), P2(bits), Value(out, P2(outbits)), val % P2(bits));
      if rest != 0 || bits >= inbits {
        return false, output;
      }
      DigitsOfValue(out, P2(outbits));
    }
    ok := true;
  }

  /** convert_bits. The output buffer and its length are the sequence out. */
  method ConvertBits(input: seq<nat>, outbits: nat, inbits: nat, pad: bool) returns (ok: bool, out: seq<nat>)
    requires 1 <= inbits <= 8 && 1 <= outbits <= 8 && AllBelow(input, P2(inbits))
    ensures ok == Regroup(input, inbits, outbits, pad).Some?
    ensures ok ==> out == Regroup(input, inbits, outbits, pad).value
  {
    hide Pow, P2, Value, Spells, Regroup;
    var val: nat, bits: nat, k: nat := 0, 0, 0;
    out := [];
    StartEmpty(input, inbits, outbits);
    while k < |input|
      invariant k <= |input| && bits < outbits && |out| * outbits + bits == k * inbits
      invariant Spells(out, outbits, val, bits, Value(input[..k], P2(inbits)))
    {
      TakeInput(out, input[..k], input[k], val, bits, inbits, outbits);
      assert input[..k + 1] == input[..k] + [input[k]];
      MulDistrib(k, 1, inbits);
      val := (val * P2(inbits) + input[k]) % WORD_SIZE;
      bits := bits + inbits;
      k := k + 1;
      bits, out := EmitGroups(val, bits, outbits, out, Value(input[..k], P2(inbits)));
    }
    assert input[..k] == input;
    ok, out := Finish(out, val, bits, input, inbits, outbits, pad);
  }

  lemma StartEmpty(input: seq<nat>, inbits: nat, outbits: nat)
    ensures Spells([], outbits, 0, 0, Value(input[..0], P2(inbits)))
  {
  }

  lemma MulZero(r: nat, p: nat)
    requires p > 0
    ensures r * p == 0 <==> r == 0
  {
    if r > 0 {
      MulMono(1, r, p);
    }
  }

  lemma ScaleSum(v: nat, p: nat, r: nat, f: nat, n: nat)
    requires v * p + r == n && r < p && f > 0
    ensures n * f == v * (p * f) + r * f && 0 <= r * f < p * f
  {
    MulDistrib(v * p, r, f);
    MulAssoc(v, p, f);
    MulMono(r + 1, p, f);
    MulDistrib(r, 1, f);
  }

  lemma PadResult(out: seq<nat>, r: nat, bits: nat, input: seq<nat>, inbits: nat, outbits: nat)
    requires bits < outbits && AllBelow(out, P2(outbits)) && r < P2(bits)
    requires (|input| * inbits) / outbits == |out| && (|input| * inbits) % outbits == bits
    requires Value(out, P2(outbits)) * P2(bits) + r == Value(input, P2(inbits))
    ensures Regroup(input, inbits, outbits, true) ==
            Some(if bits > 0 then out + [r * P2(outbits - bits)] else out)
  {
    hide P2, Pow, Value;
    var b := P2(outbits);
    if bits > 0 {
      var f := P2(outbits - bits);
      P2Add(bits, outbits - bits);
      ScaleSum(Value(out, b), P2(bits), r, f, Value(input, P2(inbits)));
      ValueSnoc(out, r * f, b);
      DigitsOfValue(out + [r * f], b);
    } else {
      P2Zero();
      DigitsOfValue(out, b);
    }
  }
}
