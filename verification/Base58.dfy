/** b58enc and b58tobin of base58.c. The SHA-256 checks around them stay outside. */
module Base58 {
  import opened Wrappers
  import opened Bytes
  import opened Arith
  import opened Digits

  // ---- the alphabet -----------------------------------------------------------

  const DIGITS: seq<byte> := [49, 50, 51, 52, 53, 54, 55, 56, 57]
  const A_TO_R: seq<byte> := [65, 66, 67, 68, 69, 70, 71, 72, 74, 75, 76, 77, 78, 80, 81]
  const S_TO_H: seq<byte> := [82, 83, 84, 85, 86, 87, 88, 89, 90, 97, 98, 99, 100, 101, 102, 103, 104]
  const I_TO_Z: seq<byte> := [105, 106, 107, 109, 110, 111, 112, 113, 114, 115, 116, 117, 118, 119, 120, 121, 122]

  /** b58digits_ordered. */
  function Alphabet(d: nat): byte
    requires d < 58
  {
    if d < 9 then DIGITS[d]
    else if d < 24 then A_TO_R[d - 9]
    else if d < 41 then S_TO_H[d - 24]
    else I_TO_Z[d - 41]
  }

  const ONE: byte := 49  // '1', the digit zero

  const MAP_DIGITS: seq<int> := [-1, 0, 1, 2, 3, 4, 5, 6, 7, 8, -1, -1, -1, -1, -1, -1]
  const MAP_A_TO_O: seq<int> := [-1, 9, 10, 11, 12, 13, 14, 15, 16, -1, 17, 18, 19, 20, 21, -1]
  const MAP_P_TO_Z: seq<int> := [22, 23, 24, 25, 26, 27, 28, 29, 30, 31, 32, -1, -1, -1, -1, -1]
  const MAP_LOWER_A_TO_O: seq<int> := [-1, 33, 34, 35, 36, 37, 38, 39, 40, 41, 42, 43, -1, 44, 45, 46]
  const MAP_LOWER_P_TO_Z: seq<int> := [47, 48, 49, 50, 51, 52, 53, 54, 55, 56, 57, -1, -1, -1, -1, -1]

  /** b58digits_map behind its high-bit guard: the digit of a character, or -1. */
  function DigitOf(c: byte): int {
    if 48 <= c < 64 then MAP_DIGITS[c - 48]
    else if 64 <= c < 80 then MAP_A_TO_O[c - 64]
    else if 80 <= c < 96 then MAP_P_TO_Z[c - 80]
    else if 96 <= c < 112 then MAP_LOWER_A_TO_O[c - 96]
    else if 112 <= c < 128 then MAP_LOWER_P_TO_Z[c - 112]
    else -1
  }

  lemma DigitOfAlphabet(d: nat)
    requires d < 58
    ensures DigitOf(Alphabet(d)) == d && (Alphabet(d) == ONE <==> d == 0) && Alphabet(d) != 0
  {
    hide DigitOf, Alphabet;
    if d < 24 {
      DigitOfAlphabetLow(d);
    } else {
      DigitOfAlphabetHigh(d);
    }
  }

  lemma DigitOfAlphabetLow(d: nat)
    requires d < 24
    ensures DigitOf(Alphabet(d)) == d && (Alphabet(d) == ONE <==> d == 0) && Alphabet(d) != 0
  {
  }

  lemma DigitOfAlphabetHigh(d: nat)
    requires 24 <= d < 58
    ensures DigitOf(Alphabet(d)) == d && Alphabet(d) != ONE && Alphabet(d) != 0
  {
  }

  lemma AlphabetOfDigitLow(c: byte)
    requires DigitOf(c) != -1 && c < 80
    ensures 0 <= DigitOf(c) < 58 && Alphabet(DigitOf(c)) == c
  {
    assert c >= 48;
  }

  lemma AlphabetOfDigitMiddle(c: byte)
    requires DigitOf(c) != -1 && 80 <= c < 112
    ensures 0 <= DigitOf(c) < 58 && Alphabet(DigitOf(c)) == c
  {
  }

  lemma AlphabetOfDigitHigh(c: byte)
    requires DigitOf(c) != -1 && 112 <= c
    ensures 0 <= DigitOf(c) < 58 && Alphabet(DigitOf(c)) == c
  {
    assert c < 128;
  }

  lemma AlphabetOfDigit(c: byte)
    requires DigitOf(c) != -1
    ensures 0 <= DigitOf(c) < 58 && Alphabet(DigitOf(c)) == c
  {
    hide DigitOf, Alphabet;
    if c < 80 {
      AlphabetOfDigitLow(c);
    } else if c < 112 {
      AlphabetOfDigitMiddle(c);
    } else {
      AlphabetOfDigitHigh(c);
    }
  }

  /** The alphabet is the digits, capitals and small letters without 0, I, O and l ... */
  lemma AlphabetExact(c: byte)
    ensures DigitOf(c) != -1 <==>
            (48 <= c <= 57 || 65 <= c <= 90 || 97 <= c <= 122) && c != 48 && c != 73 && c != 79 && c != 108
  {
  }

  lemma AlphabetSteps(d: nat)
    requires d < 57
    ensures Alphabet(d) < Alphabet(d + 1)
  {
  }

  /** ... in the order of their codes. */
  lemma {:induction false} AlphabetAscends(d: nat, e: nat)
    requires d < e < 58
    ensures Alphabet(d) < Alphabet(e)
    decreases e
  {
    hide Alphabet;
    AlphabetSteps(e - 1);
    if d < e - 1 {
      AlphabetAscends(d, e - 1);
    }
  }

  // ---- what the two functions compute ----------------------------------------------

  function DigitChars(ds: seq<nat>): (s: seq<byte>)
    requires AllBelow(ds, 58)
    ensures |s| == |ds|
  {
    seq(|ds|, i requires 0 <= i < |ds| => Alphabet(ds[i]))
  }

  predicate AllDigits(s: seq<byte>) {
    forall i :: 0 <= i < |s| ==> DigitOf(s[i]) != -1
  }

  function DigitsIn(s: seq<byte>): (ds: seq<nat>)
    requires AllDigits(s)
    ensures |ds| == |s| && AllBelow(ds, 58)
    ensures forall i :: 0 <= i < |s| ==> ds[i] == DigitOf(s[i])
  {
    forall i | 0 <= i < |s| ensures 0 <= DigitOf(s[i]) < 58 { AlphabetOfDigit(s[i]); }
    seq(|s|, i requires 0 <= i < |s| && DigitOf(s[i]) >= 0 => DigitOf(s[i]))
  }

  /** The working buffer b58enc allots to n significant bytes. */
  function BufferSize(n: nat): nat {
    n * 138 / 100 + 1
  }

  /** The text b58enc writes: a '1' for each leading zero byte, then the numeral. */
  function Encode(data: seq<byte>): (text: seq<byte>) {
    var z := LeadingZeros(data);
    StripBelow(DigitsOf(Value(data, 256), 58, BufferSize(|data| - z)), 58);
    DigitChars(Zeros(z) + Strip(DigitsOf(Value(data, 256), 58, BufferSize(|data| - z))))
  }

  lemma StripBelow(ds: seq<nat>, base: nat)
    requires base > 0 && AllBelow(ds, base)
    ensures AllBelow(Strip(ds), base) && forall z: nat :: AllBelow(Zeros(z) + Strip(ds), base)
  {
  }

  datatype Binary = Binary(size: nat, bin: seq<nat>)

  /** What b58tobin leaves in a buffer of binsz bytes, and the size it reports. */
  function Decode(binsz: nat, text: seq<byte>): Option<Binary> {
    if !AllDigits(text) || Value(DigitsIn(text), 58) >= Pow(256, binsz) then None
    else
      var bin := DigitsOf(Value(DigitsIn(text), 58), 256, binsz);
      Some(Binary(binsz - LeadingZeros(bin) + LeadingZeros(DigitsIn(text)), bin))
  }

  // ---- the buffer bound -------------------------------------------------------------

  lemma EightBytes()
    ensures Pow(256, 8) <= Pow(58, 11)
  {
    assert Pow(256, 8) == 18446744073709551616;
    assert Pow(58, 5) == 656356768;
    assert Pow(58, 11) == 24986644000165537792;
  }

  lemma SmallBuffers(n: nat)
    requires n < 4
    ensures Pow(256, n) <= Pow(58, BufferSize(n))
  {
    assert Pow(256, 1) == 256 && Pow(256, 2) == 65536 && Pow(256, 3) == 16777216;
    assert Pow(58, 2) == 3364 && Pow(58, 3) == 195112 && Pow(58, 5) == 656356768;
  }

  lemma MediumBuffers(n: nat)
    requires 4 <= n < 8
    ensures Pow(256, n) <= Pow(58, BufferSize(n))
  {
    MediumPowers256();
    MediumPowers58();
    hide Pow;
  }

  lemma MediumPowers256()
    ensures Pow(256, 4) == 4294967296 && Pow(256, 5) == 1099511627776
    ensures Pow(256, 6) == 281474976710656 && Pow(256, 7) == 72057594037927936
  {
  }

  lemma MediumPowers58()
    ensures Pow(58, 6) == 38068692544 && Pow(58, 7) == 2207984167552
    ensures Pow(58, 9) == 7427658739644928 && Pow(58, 10) == 430804206899405824
  {
  }

  lemma BufferGrows(m: nat)
    ensures BufferSize(m) + 11 <= BufferSize(m + 8)
  {
  }

  lemma {:induction false} BufferEnough(n: nat)
    ensures Pow(256, n) <= Pow(58, BufferSize(n))
  {
    hide Pow, BufferSize;
    if n < 4 {
      SmallBuffers(n);
    } else if n < 8 {
      MediumBuffers(n);
    } else {
      var m, s := n - 8, BufferSize(n - 8);
      BufferEnough(m);
      EightBytes();
      PowAdd(256, m, 8);
      PowAdd(58, s, 11);
      ProductMono(Pow(256, m), Pow(58, s), Pow(256, 8), Pow(58, 11));
      BufferGrows(m);
      PowMono(58, s + 11, BufferSize(n));
    }
  }

  /** 138/100 of the byte count, plus one, is always enough base-58 digits. */
  lemma BufferBound(n: nat)
    ensures BufferSize(n) == n * 138 / 100 + 1 && Pow(256, n) <= Pow(58, n * 138 / 100 + 1)
  {
    hide Pow;
    BufferEnough(n);
  }

  lemma ValueFitsBuffer(data: seq<byte>)
    ensures Value(data, 256) < Pow(58, BufferSize(|data| - LeadingZeros(data)))
    ensures Value(data, 256) == Value(Strip(data), 256)
  {
    BytesBelow(data);
    hide Pow, Value, Strip, LeadingZeros, BufferSize, AllBelow;
    StripPad(data, 256);
    StripHead(data);
    ValueBelowPow(Strip(data), 256);
    BufferBound(|data| - LeadingZeros(data));
  }

  // ---- decoding undoes encoding -------------------------------------------------------

  lemma DigitsInChars(ds: seq<nat>)
    requires AllBelow(ds, 58)
    ensures AllDigits(DigitChars(ds)) && DigitsIn(DigitChars(ds)) == ds
  {
    hide DigitOf, Alphabet;
    forall i | 0 <= i < |ds| ensures DigitOf(Alphabet(ds[i])) == ds[i] {
      DigitOfAlphabet(ds[i]);
    }
  }

  lemma CharsOfDigits(s: seq<byte>)
    requires AllDigits(s)
    ensures DigitChars(DigitsIn(s)) == s
  {
    hide DigitOf, Alphabet;
    forall i | 0 <= i < |s| ensures Alphabet(DigitsIn(s)[i]) == s[i] {
      AlphabetOfDigit(s[i]);
    }
  }

  /** The text is the one numeral of the bytes' value with as many leading zeros as the
      bytes have. */
  lemma EncodeMeaning(data: seq<byte>)
    ensures AllDigits(Encode(data))
    ensures var ds := DigitsIn(Encode(data));
            LeadingZeros(ds) == LeadingZeros(data) && Value(ds, 58) == Value(data, 256)
  {
    hide Pow, Value, DigitsOf, Strip, LeadingZeros, BufferSize;
    var z, v := LeadingZeros(data), Value(data, 256);
    var buf := DigitsOf(v, 58, BufferSize(|data| - z));
    StripBelow(buf, 58);
    hide AllBelow;
    DigitsInChars(Zeros(z) + Strip(buf));
    ValueFitsBuffer(data);
    ValueOfDigits(v, 58, BufferSize(|data| - z));
    StripPad(buf, 58);
    ValueLeadingZeros(z, Strip(buf), 58);
    StripStripped(buf);
    StripZeros(z, Strip(buf));
  }

  lemma StripStripped(ds: seq<nat>)
    ensures LeadingZeros(Strip(ds)) == 0
  {
    LeadingZerosUnique(Strip(ds), 0);
  }

  lemma SmallerFits(v: nat, m: nat, n: nat)
    requires v < Pow(256, m) && m <= n
    ensures v < Pow(256, n)
  {
    PowMono(256, m, n);
  }

  lemma BytesBelow(data: seq<byte>)
    ensures AllBelow(data, 256)
  {
  }

  lemma LeadingZerosPad(z: nat, ds: seq<nat>)
    ensures LeadingZeros(Zeros(z) + ds) == z + LeadingZeros(ds)
  {
    var s := Zeros(z) + ds;
    forall i | 0 <= i < z + LeadingZeros(ds) ensures s[i] == 0 {
      if i >= z { assert s[i] == ds[i - z]; }
    }
    LeadingZerosUnique(s, z + LeadingZeros(ds));
  }

  /** Round trip: decoding an encoding into any buffer at least as long as the bytes
      succeeds, reports their number and right-aligns them. */
  lemma DecodeOfEncode(data: seq<byte>, binsz: nat)
    requires |data| <= binsz
    ensures Decode(binsz, Encode(data)) == Some(Binary(|data|, Zeros(binsz - |data|) + data))
  {
    hide Pow, Value, DigitsOf, Encode, LeadingZeros;
    EncodeMeaning(data);
    BytesBelow(data);
    ValueBelowPow(data, 256);
    SmallerFits(Value(data, 256), |data|, binsz);
    PaddedDigits(binsz - |data|, data, 256);
    LeadingZerosPad(binsz - |data|, data);
  }

  /** And it is the only such numeral. */
  lemma EncodeUnique(data: seq<byte>, ds: seq<nat>)
    requires AllBelow(ds, 58) && LeadingZeros(ds) == LeadingZeros(data) && Value(ds, 58) == Value(data, 256)
    ensures Encode(data) == DigitChars(ds)
  {
    hide Pow, Value, DigitsOf, Strip;
    ValueFitsBuffer(data);
    StripPad(ds, 58);
    StripStripped(ds);
    StripBelow(ds, 58);
    StripUnique(Strip(ds), 58, BufferSize(|data| - LeadingZeros(data)));
  }

  /** What a caller can check: the numeral has digits only, and leading zeros and value
      together fit the output. */
  predicate FitsOutput(binsz: nat, text: seq<byte>) {
    AllDigits(text) &&
    var z := LeadingZeros(DigitsIn(text));
    z <= binsz && Value(DigitsIn(text), 58) < Pow(256, binsz - z)
  }

  /** Exactly then does b58tobin succeed and report no more bytes than there are. */
  lemma DecodeFits(binsz: nat, text: seq<byte>)
    ensures Decode(binsz, text).Some? && Decode(binsz, text).value.size <= binsz <==> FitsOutput(binsz, text)
  {
    hide Pow, Value, DigitsOf, DigitOf;
    if AllDigits(text) {
      var z, v := LeadingZeros(DigitsIn(text)), Value(DigitsIn(text), 58);
      hide LeadingZeros;
      if v < Pow(256, binsz) {
        ValueOfDigits(v, 256, binsz);
        LeadingZerosExact(DigitsOf(v, 256, binsz), 256, z);
      } else if z <= binsz {
        PowMono(256, binsz - z, binsz);
      }
    }
  }

  /** For every text: it is accepted if and only if it has digits only and a value below 256 to
      the power binsz. Then the output has that value, and the size reported is the leading zeros
      of the text and the bytes after the output's own. */
  lemma DecodeAccepts(binsz: nat, text: seq<byte>)
    ensures Decode(binsz, text).Some? <==> AllDigits(text) && Value(DigitsIn(text), 58) < Pow(256, binsz)
    ensures Decode(binsz, text).Some? ==>
              var d := Decode(binsz, text).value;
              AllBelow(d.bin, 256) && |d.bin| == binsz && Value(d.bin, 256) == Value(DigitsIn(text), 58) &&
              d.size + LeadingZeros(d.bin) == binsz + LeadingZeros(DigitsIn(text))
  {
    hide Pow, Value, DigitsOf, DigitOf;
    if Decode(binsz, text).Some? {
      ValueOfDigits(Value(DigitsIn(text), 58), 256, binsz);
    }
  }

  /** Two zeros do not fit one byte, yet b58tobin succeeds and reports two. */
  lemma ZerosBeyondOutput()
    ensures !FitsOutput(1, [ONE, ONE]) && Decode(1, [ONE, ONE]) == Some(Binary(2, [0]))
  {
    var text := [ONE, ONE];
    OneIsZero();
    DigitOfAlphabet(0);
    assert DigitsIn(text) == Zeros(2);
    ValueZeros(2, 58);
    LeadingZerosUnique(Zeros(2), 2);
    LeadingZerosUnique([0], 1);
    assert Pow(256, 1) == 256;
    assert DigitsOf(0, 256, 1) == [0];
  }

  /** The bytes b58tobin reports have the leading zeros and the value of the text. */
  lemma DecodeMeaning(binsz: nat, text: seq<byte>)
    requires FitsOutput(binsz, text)
    ensures Decode(binsz, text).Some? && Decode(binsz, text).value.size <= binsz
    ensures var d := Decode(binsz, text).value;
            AllBelow(d.bin, 256) && |d.bin| == binsz &&
            LeadingZeros(d.bin[binsz - d.size..]) == LeadingZeros(DigitsIn(text)) &&
            Value(d.bin[binsz - d.size..], 256) == Value(DigitsIn(text), 58)
  {
    DecodeFits(binsz, text);
    hide Pow, Value, DigitsOf, FitsOutput;
    var z := LeadingZeros(DigitsIn(text));
    var d := Decode(binsz, text).value;
    var lz := LeadingZeros(d.bin);
    assert binsz - d.size == lz - z;
    LeadingZerosSuffix(d.bin, lz - z);
    ValueOfDigits(Value(DigitsIn(text), 58), 256, binsz);
    ValueSuffix(d.bin, lz - z);
  }

  /** Converse: what fits the output decodes to bytes whose encoding it is. */
  lemma EncodeOfDecode(binsz: nat, text: seq<byte>)
    requires FitsOutput(binsz, text)
    ensures Decode(binsz, text).Some? && Decode(binsz, text).value.size <= binsz
    ensures var d := Decode(binsz, text).value;
            AllBelow(d.bin, 256) && |d.bin| == binsz &&
            Encode(d.bin[binsz - d.size..]) == text
  {
    hide Decode, Encode, Value, LeadingZeros;
    DecodeMeaning(binsz, text);
    var d := Decode(binsz, text).value;
    EncodeUnique(d.bin[binsz - d.size..], DigitsIn(text));
    CharsOfDigits(text);
  }

  lemma LeadingZerosSuffix(ds: seq<nat>, k: nat)
    requires k <= LeadingZeros(ds)
    ensures LeadingZeros(ds[k..]) == LeadingZeros(ds) - k
  {
    LeadingZerosUnique(ds[k..], LeadingZeros(ds) - k);
  }

  lemma ValueSuffix(ds: seq<nat>, k: nat)
    requires k <= LeadingZeros(ds)
    ensures Value(ds[k..], 256) == Value(ds, 256)
  {
    hide Value;
    assert ds == Zeros(k) + ds[k..];
    ValueLeadingZeros(k, ds[k..], 256);
  }

  // ---- the code -------------------------------------------------------------------------

  /** One cell of a multiply-and-add sweep over a numeral. */
  lemma CarryStep(hi: nat, d: nat, mult: nat, carry: nat, base: nat, w: nat, low: nat)
    requires base > 0
    ensures var t := d * mult + carry;
            t / base >= 0 &&
            ((hi * base + d) * mult + carry) * w + low == (hi * mult + t / base) * (w * base) + ((t % base) * w + low)
  {
    var t := d * mult + carry;
    var q, r := t / base, t % base;
    DivModIdentity(t, base);
    DivNat(t, base);
    calc {
      (hi * base + d) * mult + carry;
      {
        MulDistrib(hi * base, d, mult);
        MulAssoc(hi, base, mult);
        MulAssoc(hi, mult, base);
        assert base * mult == mult * base;
      }
      (hi * mult) * base + (q * base + r);
      { MulDistrib(hi * mult, q, base); }
      (hi * mult + q) * base + r;
    }
    MulDistrib((hi * mult + q) * base, r, w);
    MulAssoc(hi * mult + q, base, w);
    assert base * w == w * base;
  }

  /** The sweep invariant: cells above j are as before, those below are done. */
  ghost predicate Swept(before: seq<nat>, cells: seq<nat>, base: nat, mult: nat, j: nat, carry: nat, total: nat)
  {
    j <= |before| == |cells| && AllBelow(cells, base) && cells[..j] == before[..j] &&
    (Value(before[..j], base) * mult + carry) * Pow(base, |cells| - j) + Value(cells[j..], base) == total
  }

  lemma SweepCell(before: seq<nat>, cells: seq<nat>, base: nat, mult: nat, j: nat, carry: nat, total: nat)
    requires base > 0 && j > 0 && Swept(before, cells, base, mult, j, carry, total)
    ensures var t := cells[j - 1] * mult + carry;
            t >= 0 && t / base >= 0 && 0 <= t % base < base &&
            Swept(before, cells[j - 1 := t % base], base, mult, j - 1, t / base, total)
  {
    hide Value, Pow;
    var d := cells[j - 1];
    var t := d * mult + carry;
    DivNat(t, base);
    assert before[..j] == before[..j - 1] + [d] by { assert cells[..j][j - 1] == before[..j][j - 1]; }
    ValueSnoc(before[..j - 1], d, base);
    var k := |cells| - j;
    CarryStep(Value(before[..j - 1], base), d, mult, carry, base, Pow(base, k), Value(cells[j..], base));
    var next := cells[j - 1 := t % base];
    assert next[j - 1..] == [t % base] + cells[j..];
    ValueCons(t % base, cells[j..], base);
    assert Pow(base, k + 1) == Pow(base, k) * base by { PowSucc(base, k); }
    assert next[..j - 1] == before[..j - 1] by { assert cells[..j][..j - 1] == before[..j][..j - 1]; }
  }

  lemma PowSucc(base: nat, k: nat)
    ensures Pow(base, k + 1) == Pow(base, k) * base
  {
  }

  lemma SweepStart(before: seq<nat>, base: nat, mult: nat, carry: nat)
    requires AllBelow(before, base)
    ensures Swept(before, before, base, mult, |before|, carry, Value(before, base) * mult + carry)
  {
    assert before[..|before|] == before;
    assert before[|before|..] == [];
  }

  /** A sweep that ran out of cells without overflowing leaves no carry. */
  lemma SweepEnd(before: seq<nat>, cells: seq<nat>, base: nat, mult: nat, carry: nat, total: nat)
    requires base > 0 && Swept(before, cells, base, mult, 0, carry, total)
    ensures total == carry * Pow(base, |cells|) + Value(cells, base)
    ensures total < Pow(base, |cells|) <==> carry == 0
  {
    hide Pow;
    assert cells[0..] == cells && before[..0] == [];
    assert Value([], base) == 0;
    ValueBelowPow(cells, base);
    if carry > 0 {
      MulMono(1, carry, Pow(base, |cells|));
    }
  }

  /** A sweep with no carry left may stop where the remaining cells are zero. */
  lemma SweepStop(before: seq<nat>, cells: seq<nat>, base: nat, mult: nat, j: nat, total: nat)
    requires Swept(before, cells, base, mult, j, 0, total)
    requires forall k :: 0 <= k < j ==> cells[k] == 0
    ensures Value(cells, base) == total
  {
    hide Pow;
    assert before[..j] == Zeros(j);
    ValueZeros(j, base);
    assert cells == Zeros(j) + cells[j..];
    ValueLeadingZeros(j, cells[j..], base);
  }

  /** The inner loop of b58enc: buf becomes 256 * buf + byte. The returned index is the
      caller's next value of high. */
  method AddByte(buf: array<nat>, b: byte, high: nat) returns (next: nat)
    requires high < buf.Length && AllBelow(buf[..], 58)
    requires forall k :: 0 <= k <= high ==> buf[k] == 0
    requires Value(buf[..], 58) * 256 + b < Pow(58, buf.Length)
    modifies buf
    ensures AllBelow(buf[..], 58) && Value(buf[..], 58) == Value(old(buf[..]), 58) * 256 + b
    ensures next < buf.Length && (next > 0 ==> forall k :: 0 <= k <= next ==> buf[k] == 0)
  {
    hide Value, Pow, Swept;
    ghost var before := buf[..];
    ghost var total := Value(before, 58) * 256 + b;
    var carry: nat := b;
    var j: nat := buf.Length - 1;
    SweepStart(before, 58, 256, b);
    while j > high || carry != 0
      invariant j < buf.Length && Swept(before, buf[..], 58, 256, j + 1, carry, total)
      invariant forall k :: 0 <= k <= high && k <= j ==> buf[k] == 0
      decreases j
    {
      SweepCell(before, buf[..], 58, 256, j + 1, carry, total);
      ghost var was := buf[..];
      carry := carry + 256 * buf[j];
      buf[j] := carry % 58;
      carry := carry / 58;
      assert buf[..] == was[j := buf[j]];
      if j == 0 {
        SweepEnd(before, buf[..], 58, 256, carry, total);
        SweptBelow(before, buf[..], 58, 256, 0, carry, total);
        return 0;
      }
      j := j - 1;
    }
    SweepStop(before, buf[..], 58, 256, j + 1, total);
    SweptBelow(before, buf[..], 58, 256, j + 1, carry, total);
    next := j;
  }

  lemma SweptBelow(before: seq<nat>, cells: seq<nat>, base: nat, mult: nat, j: nat, carry: nat, total: nat)
    requires Swept(before, cells, base, mult, j, carry, total)
    ensures AllBelow(cells, base)
  {
  }

  /** While bytes are still to come the top digit is zero, so that restarting the sweep
      at index 0 skips no digit. */
  lemma TopDigitZero(cells: seq<nat>, m: nat, n: nat)
    requires |cells| == BufferSize(n) && AllBelow(cells, 58) && m < n && Value(cells, 58) < Pow(256, m)
    ensures cells[0] == 0
  {
    hide Pow, Value;
    var size := |cells|;
    if cells[0] != 0 {
      StrippedLarge(cells, 58);
      BufferBound(n);
      PowMono(256, m + 1, n);
      PowSucc(256, m);
      PowSucc(58, size - 1);
      MulMono(Pow(58, size - 1) + 1, Pow(256, m), 256);
    }
  }

  lemma NextByte(data: seq<byte>, z: nat, i: nat)
    requires z <= i < |data| && z == LeadingZeros(data)
    ensures Value(data[z..i + 1], 256) == Value(data[z..i], 256) * 256 + data[i]
    ensures Value(data[z..i], 256) < Pow(256, i - z) && Value(data[z..i + 1], 256) < Pow(256, i + 1 - z)
    ensures Value(data[z..i + 1], 256) < Pow(58, BufferSize(|data| - z))
  {
    hide Pow, Value;
    assert data[z..i + 1] == data[z..i] + [data[i]];
    ValueSnoc(data[z..i], data[i], 256);
    ValueBelowPow(data[z..i], 256);
    ValueBelowPow(data[z..i + 1], 256);
    PowMono(256, i + 1 - z, |data| - z);
    BufferBound(|data| - z);
  }

  /** The outer loop of b58enc: the significant bytes as a base-58 numeral. */
  method ToBase58(data: seq<byte>, zcount: nat) returns (buf: array<nat>)
    requires zcount == LeadingZeros(data)
    ensures fresh(buf) && buf.Length == BufferSize(|data| - zcount)
    ensures buf[..] == DigitsOf(Value(data, 256), 58, buf.Length)
  {
    hide Value, Pow, DigitsOf;
    var n := |data|;
    var bufSize := (n - zcount) * 138 / 100 + 1;
    buf := new nat[bufSize](_ => 0);
    assert buf[..] == Zeros(bufSize);
    ValueZeros(bufSize, 58);
    EmptyValue();
    assert data[zcount..zcount] == [];
    var i: nat, high: nat := zcount, bufSize - 1;
    while i < n
      invariant zcount <= i <= n && high < bufSize
      invariant AllBelow(buf[..], 58) && Value(buf[..], 58) == Value(data[zcount..i], 256)
      invariant i < n ==> forall k :: 0 <= k <= high ==> buf[k] == 0
    {
      NextByte(data, zcount, i);
      high := AddByte(buf, data[i], high);
      i := i + 1;
      if i < n {
        TopDigitZero(buf[..], i - zcount, n - zcount);
        assert buf[0] == buf[..][0];
      }
    }
    assert data[zcount..n] == Strip(data);
    ValueFitsBuffer(data);
    DigitsOfValue(buf[..], 58);
  }

  /** Counts leading zeros, as b58enc does before its numeral and b58tobin after it. */
  method CountZeros(ds: seq<nat>) returns (n: nat)
    ensures n == LeadingZeros(ds)
  {
    n := 0;
    while n < |ds| && ds[n] == 0
      invariant n <= |ds| && forall k :: 0 <= k < n ==> ds[k] == 0
    {
      n := n + 1;
    }
    LeadingZerosUnique(ds, n);
  }

  /** The writing loop of b58enc. */
  method WriteChars(zcount: nat, buf: array<nat>, start: nat) returns (b58: seq<byte>)
    requires start <= buf.Length && AllBelow(buf[..], 58)
    ensures AllBelow(Zeros(zcount) + buf[start..], 58)
    ensures b58 == DigitChars(Zeros(zcount) + buf[start..])
  {
    ghost var shown := Zeros(zcount) + buf[start..];
    b58 := seq(zcount, _ => ONE);
    OneIsZero();
    var i, j := zcount, start;
    while j < buf.Length
      invariant j <= buf.Length && |b58| == i && i - zcount == j - start
      invariant b58 == DigitChars(shown)[..i]
    {
      assert shown[i] == buf[j];
      b58 := b58 + [Alphabet(buf[j])];
      i, j := i + 1, j + 1;
    }
  }

  lemma EncodeFromBuffer(data: seq<byte>, zcount: nat, buf: seq<nat>, j: nat)
    requires zcount == LeadingZeros(data) && j == LeadingZeros(buf)
    requires buf == DigitsOf(Value(data, 256), 58, BufferSize(|data| - zcount))
    ensures AllBelow(Zeros(zcount) + buf[j..], 58) && Encode(data) == DigitChars(Zeros(zcount) + buf[j..])
  {
    hide Value, DigitsOf, LeadingZeros, DigitChars;
    StripBelow(buf, 58);
  }

  /** b58enc into a buffer of b58sz bytes; size is the final *b58sz. */
  method B58Enc(data: seq<byte>, b58sz: nat) returns (ok: bool, size: nat, b58: seq<byte>)
    ensures size == |Encode(data)| + 1 && ok == (size <= b58sz)
    ensures ok ==> b58 == Encode(data)
  {
    hide Value, Pow, DigitsOf, Encode, DigitChars, LeadingZeros, BufferSize;
    var zcount := CountZeros(data);
    var buf := ToBase58(data, zcount);
    var j := CountZeros(buf[..]);
    EncodeFromBuffer(data, zcount, buf[..], j);
    assert buf[..][j..] == buf[j..];
    size := zcount + buf.Length - j + 1;
    if b58sz <= zcount + buf.Length - j {
      return false, size, [];
    }
    b58 := WriteChars(zcount, buf, j);
    ok := true;
  }

  lemma EmptyValue()
    ensures Value([], 256) == 0
  {
  }

  lemma OneIsZero()
    ensures Alphabet(0) == ONE
  {
  }

  const WORD: nat := 0x1_0000_0000  // outi holds uint32_t words

  /** The inner loop of b58tobin: outi becomes 58 * outi + c, the overflow is returned. */
  method AddDigit(outi: array<nat>, digit: nat) returns (c: nat)
    requires AllBelow(outi[..], WORD)
    modifies outi
    ensures AllBelow(outi[..], WORD)
    ensures Value(old(outi[..]), WORD) * 58 + digit == c * Pow(WORD, outi.Length) + Value(outi[..], WORD)
  {
    hide Value, Pow, Swept;
    ghost var before := outi[..];
    ghost var total := Value(before, WORD) * 58 + digit;
    c := digit;
    var j: nat := outi.Length;
    SweepStart(before, WORD, 58, c);
    while j > 0
      invariant j <= outi.Length && Swept(before, outi[..], WORD, 58, j, c, total)
    {
      SweepCell(before, outi[..], WORD, 58, j, c, total);
      ghost var was := outi[..];
      j := j - 1;
      var t := outi[j] * 58 + c;
      c := t / WORD;
      outi[j] := t % WORD;
      assert outi[..] == was[j := outi[j]];
    }
    SweepEnd(before, outi[..], WORD, 58, c, total);
    SweptBelow(before, outi[..], WORD, 58, 0, c, total);
  }

  lemma {:induction false} PowOfWord(n: nat)
    ensures Pow(WORD, n) == Pow(256, 4 * n)
  {
    if n > 0 {
      PowOfWord(n - 1);
      PowAdd(256, 4 * (n - 1), 4);
      assert Pow(256, 4) == WORD;
    }
  }

  /** Without words the digit itself is carried out, and the first one is not zero. */
  lemma CarryIsDigit(before: seq<nat>, words: seq<nat>, digit: nat, c: nat)
    requires before == words == [] && Value(before, WORD) * 58 + digit == c * Pow(WORD, 0) + Value(words, WORD)
    ensures c == digit
  {
  }

  lemma DigitNotZero(ch: byte)
    requires DigitOf(ch) != -1 && ch != ONE
    ensures DigitOf(ch) > 0
  {
    OneIsZero();
    AlphabetOfDigit(ch);
  }

  /** The overflow tests of b58tobin, carry out of the top word and bits above bytesleft
      bytes in it, say together that the numeral needs more than binsz bytes. */
  lemma OverflowTests(words: seq<nat>, c: nat, total: nat, binsz: nat)
    requires |words| == (binsz + 3) / 4 && AllBelow(words, WORD)
    requires total == c * Pow(WORD, |words|) + Value(words, WORD)
    ensures var left := binsz % 4;
            (c == 0 && (left > 0 ==> words[0] < Pow(256, left))) <==> total < Pow(256, binsz)
  {
    hide Pow, Value;
    var left, n := binsz % 4, |words|;
    PowOfWord(n);
    if c > 0 {
      MulMono(1, c, Pow(WORD, n));
      PowMono(256, binsz, 4 * n);
    } else {
      ValueBelowPow(words, WORD);
      hide AllBelow;
      if left > 0 { TopWordTest(words, left, binsz); }
    }
  }

  lemma TopWordTest(words: seq<nat>, left: nat, binsz: nat)
    requires AllBelow(words, WORD) && |words| > 0 && binsz == left + 4 * (|words| - 1)
    ensures words[0] < Pow(256, left) <==> Value(words, WORD) < Pow(256, binsz)
  {
    hide Pow, Value;
    var top, rest := words[0], words[1..];
    assert words == [top] + rest;
    ValueCons(top, rest, WORD);
    ValueBelowPow(rest, WORD);
    PowOfWord(|rest|);
    PowAdd(256, left, 4 * |rest|);
    hide AllBelow;
    TopWord(top, Value(rest, WORD), Pow(WORD, |rest|), Pow(256, left));
  }

  lemma TopWord(top: nat, low: nat, w: nat, bound: nat)
    requires low < w
    ensures top * w + low < bound * w <==> top < bound
  {
    if top < bound {
      MulMono(top + 1, bound, w);
      MulDistrib(top, 1, w);
    } else {
      MulMono(bound, top, w);
    }
  }

  /** The byte-writing loop of b58tobin for one word. */
  method WriteWord(w: nat, count: nat, bin: seq<nat>) returns (out: seq<nat>)
    ensures out == bin + DigitsOf(w, 256, count)
  {
    hide Pow, DigitsOf;
    out := bin;
    var i: nat := count;
    while i > 0
      invariant i <= count && out == bin + DigitsOf(w, 256, count)[..count - i]
    {
      DigitAt(w, 256, count, count - i);
      out := out + [(w / Pow(256, i - 1)) % 256];
      i := i - 1;
    }
  }

  lemma WordBytes(bin: seq<nat>, w: nat, count: nat, v: nat)
    requires AllBelow(bin, 256) && w < Pow(256, count)
    requires v == Value(bin, 256) * Pow(256, count) + w
    ensures AllBelow(bin + DigitsOf(w, 256, count), 256)
    ensures Value(bin + DigitsOf(w, 256, count), 256) == v
  {
    hide Pow, Value, DigitsOf;
    ValueConcat(bin, DigitsOf(w, 256, count), 256);
    ValueOfDigits(w, 256, count);
  }

  /** The first word, when it is a short one, has no more bytes than the output leaves it. */
  predicate TopFits(words: seq<nat>, binsz: nat) {
    binsz % 4 > 0 ==> |words| > 0 && words[0] < Pow(256, binsz % 4)
  }

  /** The words hold the text's value. */
  predicate ReadAs(words: seq<nat>, text: seq<byte>) {
    AllDigits(text) && AllBelow(words, WORD) && Value(words, WORD) == Value(DigitsIn(text), 58)
  }

  /** The words written out as bytes are the numeral in base 256. */
  method WriteWords(outi: array<nat>, binsz: nat) returns (bin: seq<nat>)
    requires outi.Length == (binsz + 3) / 4 && AllBelow(outi[..], WORD) && TopFits(outi[..], binsz)
    ensures bin == DigitsOf(Value(outi[..], WORD), 256, binsz)
  {
    hide Pow, Value, DigitsOf;
    var bytesLeft := binsz % 4;
    var j: nat := 0;
    bin := [];
    WordPow();
    NoWords(outi[..]);
    if bytesLeft > 0 {
      OneWord(outi[0]);
      bin := WriteWord(outi[0], bytesLeft, bin);
      WordBytes([], outi[0], bytesLeft, outi[0]);
      assert outi[..1] == [outi[0]];
      j := 1;
    }
    while j < outi.Length
      invariant j <= outi.Length && AllBelow(bin, 256) && |bin| == binsz - 4 * (outi.Length - j)
      invariant Value(bin, 256) == Value(outi[..j], WORD)
    {
      assert outi[..j + 1] == outi[..j] + [outi[j]];
      ValueSnoc(outi[..j], outi[j], WORD);
      WordBytes(bin, outi[j], 4, Value(outi[..j + 1], WORD));
      bin := WriteWord(outi[j], 4, bin);
      j := j + 1;
    }
    assert outi[..j] == outi[..];
    DigitsOfValue(bin, 256);
  }

  lemma WordPow()
    ensures Pow(256, 4) == WORD
  {
  }

  lemma NoWords(words: seq<nat>)
    ensures Value([], 256) == 0 && Value(words[..0], WORD) == 0
  {
  }

  lemma OneWord(word: nat)
    ensures Value([word], WORD) == word
  {
    assert [word][..0] == [];
  }

  /** The digit loop of b58tobin, after the leading '1's. */
  method ReadDigits(text: seq<byte>, start: nat, binsz: nat, outi: array<nat>) returns (ok: bool)
    requires outi.Length == (binsz + 3) / 4 && outi[..] == Zeros(outi.Length)
    requires start <= |text| && forall k :: 0 <= k < start ==> text[k] == ONE
    requires start < |text| ==> text[start] != ONE
    modifies outi
    ensures ok == Decode(binsz, text).Some?
    ensures ok ==> ReadAs(outi[..], text) && TopFits(outi[..], binsz)
  {
    hide Value, Pow, DigitsOf, DigitOf;
    var bytesLeft := binsz % 4;
    ValueZeros(outi.Length, WORD);
    OnesAreZeros(text, start);
    PowPositive(bytesLeft);
    var i := start;
    while i < |text|
      invariant start <= i <= |text| && AllDigits(text[..i]) && AllBelow(outi[..], WORD)
      invariant Value(outi[..], WORD) == Value(DigitsIn(text[..i]), 58)
      invariant bytesLeft > 0 ==> outi[0] < Pow(256, bytesLeft)
      invariant outi.Length == 0 ==> i == start
    {
      var digit := DigitOf(text[i]);
      if digit == -1 { return false; }
      AlphabetOfDigit(text[i]);
      if text[i] != ONE { DigitNotZero(text[i]); }
      DigitsInNext(text, i);
      ghost var before := outi[..];
      var c := AddDigit(outi, digit);
      if outi.Length == 0 { CarryIsDigit(before, outi[..], digit, c); }
      OverflowTests(outi[..], c, Value(DigitsIn(text[..i + 1]), 58), binsz);
      if c != 0 {
        PrefixTooLarge(text, i + 1, binsz);
        return false;
      }
      var top := outi[0];
      if bytesLeft > 0 && top >= Pow(256, bytesLeft) {
        PrefixTooLarge(text, i + 1, binsz);
        return false;
      }
      ZeroCarry(c, Pow(WORD, outi.Length));
      i := i + 1;
    }
    assert text[..|text|] == text;
    OverflowTests(outi[..], 0, Value(DigitsIn(text), 58), binsz);
    ok := true;
  }

  /** b58tobin. The text is the first b58sz bytes or, for b58sz 0, all up to the terminator;
      None is the return value false. */
  method B58ToBin(binsz: nat, b58: seq<byte>, b58sz: nat) returns (r: Option<Binary>)
    requires b58sz <= |b58| && (b58sz == 0 ==> forall i :: 0 <= i < |b58| ==> b58[i] != 0)
    ensures r == Decode(binsz, if b58sz == 0 then b58 else b58[..b58sz])
  {
    hide Value, Pow, DigitOf, DigitsOf, LeadingZeros, DigitsIn;
    var text := if b58sz == 0 then b58 else b58[..b58sz];
    var outi := new nat[(binsz + 3) / 4](_ => 0);
    assert outi[..] == Zeros(outi.Length);
    var zeroCount: nat := 0;
    while zeroCount < |text| && text[zeroCount] == ONE
      invariant zeroCount <= |text| && forall k :: 0 <= k < zeroCount ==> text[k] == ONE
    {
      zeroCount := zeroCount + 1;
    }
    var ok := ReadDigits(text, zeroCount, binsz, outi);
    if !ok { return None; }
    LeadingOnes(text, zeroCount);
    var bin := WriteWords(outi, binsz);
    var skipped := CountZeros(bin);
    r := Some(Binary(binsz - skipped + zeroCount, bin));
  }

  lemma ZeroCarry(c: nat, p: nat)
    ensures c == 0 ==> c * p == 0
  {
  }

  lemma PowPositive(n: nat)
    ensures Pow(256, n) > 0
  {
  }

  lemma OnesAreZeros(text: seq<byte>, n: nat)
    requires n <= |text| && forall k :: 0 <= k < n ==> text[k] == ONE
    ensures AllDigits(text[..n]) && Value(DigitsIn(text[..n]), 58) == 0
  {
    hide DigitOf, Alphabet;
    OneIsZero();
    DigitOfAlphabet(0);
    assert DigitsIn(text[..n]) == Zeros(n);
    ValueZeros(n, 58);
  }

  lemma LeadingOnes(text: seq<byte>, n: nat)
    requires n <= |text| && AllDigits(text)
    requires forall k :: 0 <= k < n ==> text[k] == ONE
    requires n < |text| ==> text[n] != ONE
    ensures LeadingZeros(DigitsIn(text)) == n
  {
    hide DigitOf, Alphabet;
    OneIsZero();
    DigitOfAlphabet(0);
    if n < |text| {
      AlphabetOfDigit(text[n]);
    }
    LeadingZerosUnique(DigitsIn(text), n);
  }

  lemma DigitsInNext(text: seq<byte>, i: nat)
    requires i < |text| && AllDigits(text[..i]) && DigitOf(text[i]) != -1
    ensures AllDigits(text[..i + 1])
    ensures Value(DigitsIn(text[..i + 1]), 58) == Value(DigitsIn(text[..i]), 58) * 58 + DigitOf(text[i])
  {
    hide DigitOf, Value;
    AlphabetOfDigit(text[i]);
    assert text[..i + 1] == text[..i] + [text[i]];
    assert DigitsIn(text[..i + 1]) == DigitsIn(text[..i]) + [DigitOf(text[i])];
    ValueSnoc(DigitsIn(text[..i]), DigitOf(text[i]), 58);
  }

  lemma PrefixTooLarge(text: seq<byte>, i: nat, binsz: nat)
    requires i <= |text| && AllDigits(text[..i]) && Value(DigitsIn(text[..i]), 58) >= Pow(256, binsz)
    ensures Decode(binsz, text) == None
  {
    hide Value, Pow, DigitOf;
    if AllDigits(text) {
      assert DigitsIn(text[..i]) == DigitsIn(text)[..i];
      ValuePrefix(DigitsIn(text), i, 58);
    }
  }
}
