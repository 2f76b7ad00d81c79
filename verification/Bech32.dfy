/** bech32_encode and bech32_decode of segwit_addr.c (BIP 173 and BIP 350). */
module Bech32 {
  import opened Wrappers
  import opened Bytes
  import opened Digits
  import opened Polymod
  import opened ScatteredErrors

  datatype Encoding = Bech32 | Bech32m
  datatype Decoded = Decoded(enc: Encoding, hrp: seq<byte>, data: seq<byte>)

  function FinalConstant(enc: Encoding): bv32 {
    match enc
    case Bech32 => 1
    case Bech32m => 0x2bc830a3
  }

  // ---- characters -----------------------------------------------------------

  const SEPARATOR: byte := 49  // '1'

  const CHARSET: seq<byte> := [
    113, 112, 122, 114, 121,  57, 120,  56, 103, 102,  50, 116, 118, 100, 119,  48,
    115,  51, 106, 110,  53,  52, 107, 104,  99, 101,  54, 109, 117,  97,  55, 108
  ]

  const REV_DIGITS: seq<int> := [15, -1, 10, 17, 21, 20, 26, 30,  7,  5, -1, -1, -1, -1, -1, -1]
  const REV_A_TO_O: seq<int> := [-1, 29, -1, 24, 13, 25,  9,  8, 23, -1, 18, 22, 31, 27, 19, -1]
  const REV_P_TO_Z: seq<int> := [ 1,  0,  3, 16, 11, 28, 12, 14,  6,  4,  2, -1, -1, -1, -1, -1]

  /** The symbol a character stands for, or -1: charset_rev behind its 0x80 guard. */
  function CharsetRev(c: byte): int {
    if 48 <= c < 64 then REV_DIGITS[c - 48]
    else if 64 <= c < 80 then REV_A_TO_O[c - 64]
    else if 80 <= c < 96 then REV_P_TO_Z[c - 80]
    else if 96 <= c < 112 then REV_A_TO_O[c - 96]
    else if 112 <= c < 128 then REV_P_TO_Z[c - 112]
    else -1
  }

  predicate IsLower(c: byte) { 97 <= c <= 122 }

  predicate IsUpper(c: byte) { 65 <= c <= 90 }

  predicate IsHrpChar(c: byte) { 33 <= c <= 126 }

  function Lower(c: byte): byte {
    if IsUpper(c) then c + 32 else c
  }

  function LowerAll(s: seq<byte>): (t: seq<byte>)
    ensures |t| == |s|
  {
    seq(|s|, i requires 0 <= i < |s| => Lower(s[i]))
  }

  predicate HasLower(s: seq<byte>) { exists i :: 0 <= i < |s| && IsLower(s[i]) }

  predicate HasUpper(s: seq<byte>) { exists i :: 0 <= i < |s| && IsUpper(s[i]) }

  predicate AllHrpChars(s: seq<byte>) { forall i :: 0 <= i < |s| ==> IsHrpChar(s[i]) }

  predicate AllSymbolChars(s: seq<byte>) { forall i :: 0 <= i < |s| ==> CharsetRev(s[i]) != -1 }

  lemma CharsetRevOfCharset(v: byte)
    requires v < 32
    ensures CharsetRev(CHARSET[v]) == v
  {
  }

  lemma CharsetRevDigits(c: byte)
    requires CharsetRev(c) != -1 && c < 80
    ensures 0 <= CharsetRev(c) < 32 && CHARSET[CharsetRev(c)] == Lower(c) && c != 0 && c != SEPARATOR
  {
    assert 48 <= c;
  }

  lemma CharsetRevLetters(c: byte)
    requires CharsetRev(c) != -1 && c >= 80
    ensures 0 <= CharsetRev(c) < 32 && CHARSET[CharsetRev(c)] == Lower(c)
  {
    assert c < 128;
  }

  lemma CharsetOfCharsetRev(c: byte)
    requires CharsetRev(c) != -1
    ensures 0 <= CharsetRev(c) < 32 && CHARSET[CharsetRev(c)] == Lower(c)
    ensures c != 0 && c != SEPARATOR
  {
    hide CharsetRev;
    if c < 80 {
      CharsetRevDigits(c);
    } else {
      CharsetRevLetters(c);
    }
  }

  lemma CharsetPlain(v: byte)
    requires v < 32
    ensures CHARSET[v] != SEPARATOR && CHARSET[v] != 0 && !IsUpper(CHARSET[v])
  {
  }

  function Chars(vs: seq<byte>): (s: seq<byte>)
    requires AllBelow(vs, 32)
    ensures |s| == |vs|
  {
    seq(|vs|, i requires 0 <= i < |vs| => CHARSET[vs[i]])
  }

  function Symbols(s: seq<byte>): (vs: seq<byte>)
    requires AllSymbolChars(s)
    ensures |vs| == |s| && AllBelow(vs, 32)
  {
    forall i | 0 <= i < |s| ensures 0 <= CharsetRev(s[i]) < 32 { CharsetOfCharsetRev(s[i]); }
    seq(|s|, i requires 0 <= i < |s| && 0 <= CharsetRev(s[i]) < 32 => CharsetRev(s[i]))
  }

  lemma SymbolsOfChars(vs: seq<byte>)
    requires AllBelow(vs, 32)
    ensures AllSymbolChars(Chars(vs)) && Symbols(Chars(vs)) == vs
  {
    hide CharsetRev;
    forall i | 0 <= i < |vs| ensures CharsetRev(CHARSET[vs[i]]) == vs[i] {
      CharsetRevOfCharset(vs[i]);
    }
  }

  lemma CharsOfSymbols(s: seq<byte>)
    requires AllSymbolChars(s)
    ensures Chars(Symbols(s)) == LowerAll(s)
  {
    hide CharsetRev;
    forall i | 0 <= i < |s| ensures CHARSET[Symbols(s)[i]] == Lower(s[i]) {
      CharsetOfCharsetRev(s[i]);
    }
  }

  // ---- the specification -------------------------------------------------------

  /** The human-readable part as the checksum sees it: high bits, zero, low bits. */
  function HrpExpand(hrp: seq<byte>): (vs: seq<byte>)
    ensures |vs| == 2 * |hrp| + 1 && AllBelow(vs, 32)
  {
    seq(|hrp|, i requires 0 <= i < |hrp| => hrp[i] / 32) + [0] +
    seq(|hrp|, i requires 0 <= i < |hrp| => hrp[i] % 32)
  }

  function Residue(hrp: seq<byte>, vs: seq<byte>): bv32 {
    Absorb(1, HrpExpand(hrp) + vs)
  }

  function Checksum(hrp: seq<byte>, data: seq<byte>, enc: Encoding): (ck: seq<byte>)
    ensures |ck| == 6 && AllBelow(ck, 32)
  {
    ChecksumSymbols(Residue(hrp, data), FinalConstant(enc))
  }

  predicate IsEncodableHrp(hrp: seq<byte>) {
    forall i :: 0 <= i < |hrp| ==> IsHrpChar(hrp[i]) && !IsUpper(hrp[i])
  }

  function Encode(hrp: cstring, data: seq<byte>, enc: Encoding): Option<seq<byte>> {
    if !IsEncodableHrp(hrp) || |hrp| + 7 + |data| > 90 || !AllBelow(data, 32) then None
    else Some(hrp + [SEPARATOR] + Chars(data + Checksum(hrp, data, enc)))
  }

  lemma EncodeExact(hrp: cstring, data: seq<byte>, enc: Encoding)
    ensures Encode(hrp, data, enc).Some? <==> IsEncodableHrp(hrp) && |hrp| + 7 + |data| <= 90 && AllBelow(data, 32)
  {
  }

  lemma EncodableExact(hrp: seq<byte>)
    ensures IsEncodableHrp(hrp) <==>
            forall i :: 0 <= i < |hrp| ==> 33 <= hrp[i] <= 126 && !(65 <= hrp[i] <= 90)
  {
  }

  /** How many characters follow the last separator (all of them when there is none). */
  function TailLength(s: seq<byte>): (n: nat)
    ensures n <= |s|
  {
    if |s| == 0 || s[|s| - 1] == SEPARATOR then 0 else 1 + TailLength(s[..|s| - 1])
  }

  function EncodingOf(residue: bv32): Option<Encoding> {
    if residue == FinalConstant(Bech32) then Some(Bech32)
    else if residue == FinalConstant(Bech32m) then Some(Bech32m)
    else None
  }

  function Decode(input: cstring): Option<Decoded> {
    var n, k := |input|, TailLength(input);
    if n < 8 || n > 90 || 1 + k >= n || k < 6 then None else
    var head, tail := input[..n - 1 - k], input[n - k..];
    if !AllHrpChars(head) || !AllSymbolChars(tail) || (HasLower(input) && HasUpper(input)) then None else
    var hrp, vs := LowerAll(head), Symbols(tail);
    match EncodingOf(Residue(hrp, vs))
    case None => None
    case Some(enc) => Some(Decoded(enc, hrp, vs[..k - 6]))
  }

  // ---- round trips ----------------------------------------------------------------

  lemma ResidueConcat(hrp: seq<byte>, vs: seq<byte>, ys: seq<byte>)
    ensures Residue(hrp, vs + ys) == Absorb(Residue(hrp, vs), ys)
  {
    hide Absorb;
    assert HrpExpand(hrp) + (vs + ys) == (HrpExpand(hrp) + vs) + ys;
    AbsorbConcat(1, HrpExpand(hrp) + vs, ys);
  }

  lemma ConstantsFit(enc: Encoding)
    ensures Fits(1) && Fits(FinalConstant(enc)) && EncodingOf(FinalConstant(enc)) == Some(enc)
  {
  }

  /** A data part is accepted under enc exactly when its last six symbols are the checksum. */
  lemma ResidueExact(hrp: seq<byte>, data: seq<byte>, ys: seq<byte>, enc: Encoding)
    requires AllBelow(data, 32) && |ys| == 6 && AllBelow(ys, 32)
    ensures Residue(hrp, data + ys) == FinalConstant(enc) <==> ys == Checksum(hrp, data, enc)
  {
    hide Absorb, FinalConstant, Fits, ChecksumSymbols, EncodingOf;
    ConstantsFit(enc);
    AbsorbFits(1, HrpExpand(hrp) + data);
    ResidueConcat(hrp, data, ys);
    ChecksumExact(Residue(hrp, data), FinalConstant(enc), ys);
  }

  lemma {:induction false} TailLengthExact(head: seq<byte>, tail: seq<byte>)
    requires forall i :: 0 <= i < |tail| ==> tail[i] != SEPARATOR
    ensures TailLength(head + [SEPARATOR] + tail) == |tail|
  {
    var s := head + [SEPARATOR] + tail;
    if |tail| > 0 {
      assert s[..|s| - 1] == head + [SEPARATOR] + tail[..|tail| - 1];
      TailLengthExact(head, tail[..|tail| - 1]);
    }
  }

  lemma {:induction false} TailLengthSeparator(s: seq<byte>)
    requires TailLength(s) < |s|
    ensures s[|s| - 1 - TailLength(s)] == SEPARATOR
  {
    if s[|s| - 1] != SEPARATOR {
      TailLengthSeparator(s[..|s| - 1]);
    }
  }

  lemma SeparatorPlain()
    ensures IsHrpChar(SEPARATOR) && !IsUpper(SEPARATOR) && Lower(SEPARATOR) == SEPARATOR
  {
  }

  /** The decoder splits well-formed lower-case text where the encoder joined it. */
  lemma SplitOfJoin(hrp: cstring, vs: seq<byte>)
    requires IsEncodableHrp(hrp) && AllBelow(vs, 32)
    ensures var t := hrp + [SEPARATOR] + Chars(vs);
            (forall i :: 0 <= i < |t| ==> t[i] != 0) && !HasUpper(t) &&
            TailLength(t) == |vs| && t[..|t| - 1 - |vs|] == hrp && t[|t| - |vs|..] == Chars(vs)
  {
    hide CharsetRev, IsUpper, IsHrpChar;
    SeparatorPlain();
    var tail := Chars(vs);
    forall i | 0 <= i < |vs| ensures tail[i] != SEPARATOR && tail[i] != 0 && !IsUpper(tail[i]) {
      CharsetPlain(vs[i]);
    }
    TailLengthExact(hrp, tail);
  }

  /** Encoded text decodes to what was encoded, except that an empty human-readable
      part, which the encoder takes, is refused by the decoder. */
  lemma DecodeOfEncode(hrp: cstring, data: seq<byte>, enc: Encoding)
    requires Encode(hrp, data, enc).Some?
    ensures var t := Encode(hrp, data, enc).value;
            (forall i :: 0 <= i < |t| ==> t[i] != 0) &&
            Decode(t) == if hrp == [] then None else Some(Decoded(enc, hrp, data))
  {
    hide CharsetRev, Absorb, FinalConstant, EncodingOf, Residue, Checksum, IsUpper, HrpExpand, IsHrpChar,
      TailLength, HasUpper, HasLower, Chars, Symbols;
    var ck := Checksum(hrp, data, enc);
    var vs := data + ck;
    SplitOfJoin(hrp, vs);
    if hrp != [] {
      SymbolsOfChars(vs);
      EncodableFixed(hrp);
      ResidueExact(hrp, data, ck, enc);
      ConstantsFit(enc);
      assert vs[..|vs| - 6] == data;
    }
  }

  lemma EncodableFixed(hrp: seq<byte>)
    requires IsEncodableHrp(hrp)
    ensures AllHrpChars(hrp) && LowerAll(hrp) == hrp
  {
  }

  lemma LowerHrp(s: seq<byte>)
    requires AllHrpChars(s)
    ensures IsEncodableHrp(LowerAll(s))
    ensures forall i :: 0 <= i < |s| ==> LowerAll(s)[i] != 0
  {
  }

  lemma EncodingOfExact(r: bv32)
    requires EncodingOf(r).Some?
    ensures r == FinalConstant(EncodingOf(r).value)
  {
  }

  /** Accepted text is, up to case, the only text for its contents. */
  lemma EncodeOfDecode(input: cstring)
    requires Decode(input).Some?
    ensures var d := Decode(input).value;
            d.hrp != [] && (forall i :: 0 <= i < |d.hrp| ==> d.hrp[i] != 0) && AllBelow(d.data, 32) &&
            Encode(d.hrp, d.data, d.enc) == Some(LowerAll(input))
  {
    hide CharsetRev, Absorb, FinalConstant, EncodingOf, Residue, Checksum, IsUpper, HrpExpand, IsHrpChar, Lower,
      IsEncodableHrp, HasUpper, HasLower;
    var n, k := |input|, TailLength(input);
    var head, tail := input[..n - 1 - k], input[n - k..];
    var hrp, vs := LowerAll(head), Symbols(tail);
    EncodingOfExact(Residue(hrp, vs));
    var enc := EncodingOf(Residue(hrp, vs)).value;
    assert vs == vs[..k - 6] + vs[k - 6..];
    ResidueExact(hrp, vs[..k - 6], vs[k - 6..], enc);
    CharsOfSymbols(tail);
    TailLengthSeparator(input);
    SeparatorPlain();
    LowerHrp(head);
    assert LowerAll(input) == hrp + [SEPARATOR] + LowerAll(tail);
  }

  // ---- what is accepted ----------------------------------------------------------------

  lemma CharsetRevCase(c: byte)
    ensures CharsetRev(Lower(c)) == CharsetRev(c)
  {
  }

  lemma LowerTwice(c: byte)
    ensures Lower(Lower(c)) == Lower(c) && (Lower(c) == SEPARATOR <==> c == SEPARATOR)
    ensures IsHrpChar(Lower(c)) <==> IsHrpChar(c)
  {
  }

  lemma {:induction false} TailLengthLower(s: seq<byte>)
    ensures TailLength(LowerAll(s)) == TailLength(s)
  {
    hide Lower;
    if |s| > 0 {
      LowerTwice(s[|s| - 1]);
      assert LowerAll(s)[..|s| - 1] == LowerAll(s[..|s| - 1]);
      TailLengthLower(s[..|s| - 1]);
    }
  }

  lemma SymbolsLower(s: seq<byte>)
    ensures AllSymbolChars(LowerAll(s)) <==> AllSymbolChars(s)
    ensures AllSymbolChars(s) ==> Symbols(LowerAll(s)) == Symbols(s)
  {
    hide CharsetRev, Lower;
    forall i | 0 <= i < |s| ensures CharsetRev(LowerAll(s)[i]) == CharsetRev(s[i]) {
      CharsetRevCase(s[i]);
    }
    assert forall i :: 0 <= i < |s| ==> CharsetRev(s[i]) == CharsetRev(LowerAll(s)[i]);
  }

  lemma HrpLower(s: seq<byte>)
    ensures AllHrpChars(LowerAll(s)) <==> AllHrpChars(s)
    ensures LowerAll(LowerAll(s)) == LowerAll(s)
  {
    hide Lower, IsHrpChar;
    forall i | 0 <= i < |s|
      ensures (IsHrpChar(LowerAll(s)[i]) <==> IsHrpChar(s[i])) && Lower(LowerAll(s)[i]) == LowerAll(s)[i] {
      LowerTwice(s[i]);
    }
    assert forall i :: 0 <= i < |s| ==> (IsHrpChar(s[i]) <==> IsHrpChar(LowerAll(s)[i]));
  }

  /** Lower and upper case in one text. */
  predicate Mixed(s: seq<byte>) {
    exists i, j :: 0 <= i < |s| && 0 <= j < |s| && 97 <= s[i] <= 122 && 65 <= s[j] <= 90
  }

  lemma MixedExact(s: seq<byte>)
    ensures Mixed(s) <==> HasLower(s) && HasUpper(s)
    ensures !HasUpper(LowerAll(s))
  {
    if HasLower(s) && HasUpper(s) {
      var i :| 0 <= i < |s| && IsLower(s[i]);
      var j :| 0 <= j < |s| && IsUpper(s[j]);
      assert 97 <= s[i] <= 122 && 65 <= s[j] <= 90;
    }
  }

  /** Case matters to the decoder only in that it must not be mixed. */
  lemma DecodeLower(input: cstring, t: cstring)
    requires t == LowerAll(input)
    ensures Decode(input) == if Mixed(input) then None else Decode(t)
  {
    MixedExact(input);
    TailLengthLower(input);
    hide Lower, HasLower, HasUpper, Mixed, IsHrpChar, CharsetRev, Residue, EncodingOf, TailLength, Symbols;
    var n, k := |input|, TailLength(input);
    if 1 + k < n {
      var head, tail := input[..n - 1 - k], input[n - k..];
      assert t[..n - 1 - k] == LowerAll(head) && t[n - k..] == LowerAll(tail);
      HrpLower(head);
      SymbolsLower(tail);
      hide AllHrpChars, AllSymbolChars;
    }
  }

  lemma LowerPlain(input: cstring)
    ensures forall i :: 0 <= i < |input| ==> LowerAll(input)[i] != 0
  {
  }

  /** The decoder accepts exactly the encodings under a human-readable part, written in one case. */
  lemma DecodeExact(input: cstring)
    ensures Decode(input).Some? <==>
              !Mixed(input) && exists hrp: cstring, data, enc ::
                                 hrp != [] && Encode(hrp, data, enc) == Some(LowerAll(input))
  {
    hide Decode, Encode, Mixed, LowerAll;
    LowerPlain(input);
    var t: cstring := LowerAll(input);
    DecodeLower(input, t);
    if Decode(input).Some? {
      var d := Decode(input).value;
      EncodeOfDecode(input);
      var hrp: cstring := d.hrp;
      assert Encode(hrp, d.data, d.enc) == Some(t);
    } else if hrp: cstring, data, enc :| hrp != [] && Encode(hrp, data, enc) == Some(t) {
      DecodeOfEncode(hrp, data, enc);
    }
  }

  lemma AfterStepsFits(r: bv32)
    ensures Fits(Absorb(r, Zeros(6)))
  {
    hide PolymodStep, Xor, Fits, Word;
    assert Zeros(6)[5] == 0;
    StepZero();
    StepFits(Absorb(r, Zeros(6)[..5]), 0);
  }

  lemma XorVariants(z: bv32)
    ensures Xor(Xor(z, FinalConstant(Bech32m)), Xor(z, FinalConstant(Bech32))) == Xor(0x2bc830a3, 1)
  {
  }

  /** The checksums of the two variants differ by one fixed word. */
  lemma VariantsDiffer(hrp: seq<byte>, data: seq<byte>)
    ensures Xor(Pack(Checksum(hrp, data, Bech32m)), Pack(Checksum(hrp, data, Bech32))) == Xor(0x2bc830a3, 1)
  {
    var z := Absorb(Residue(hrp, data), Zeros(6));
    AfterStepsFits(Residue(hrp, data));
    ConstantsFit(Bech32);
    ConstantsFit(Bech32m);
    XorVariants(z);
    hide Absorb, Xor, Pack, Unpack, Fits, Residue, FinalConstant;
    XorFits(z, FinalConstant(Bech32));
    XorFits(z, FinalConstant(Bech32m));
    PackUnpack(Xor(z, FinalConstant(Bech32)));
    PackUnpack(Xor(z, FinalConstant(Bech32m)));
  }

  /** The last six characters bring the text to the constant of its variant. */
  lemma KnownAnswer(hrp: cstring, data: seq<byte>, ys: seq<byte>, enc: Encoding)
    requires IsEncodableHrp(hrp) && |hrp| + 7 + |data| <= 90 && AllBelow(data, 32)
    requires |ys| == 6 && AllBelow(ys, 32) && Residue(hrp, data + ys) == FinalConstant(enc)
    ensures Encode(hrp, data, enc) == Some(hrp + [SEPARATOR] + Chars(data + ys))
  {
    ResidueExact(hrp, data, ys, enc);
    hide Residue, Checksum, FinalConstant;
  }

  // ---- error detection ---------------------------------------------------------------

  lemma SameSymbol(c: byte, d: byte)
    requires CharsetRev(c) != -1 && CharsetRev(d) != -1 && Lower(c) == Lower(d)
    ensures CharsetRev(c) == CharsetRev(d)
  {
    hide CharsetRev, Lower;
    CharsetOfCharsetRev(c);
    CharsetOfCharsetRev(d);
    CharsetRevOfCharset(CharsetRev(c));
    CharsetRevOfCharset(CharsetRev(d));
  }

  lemma DataBurst(hrp: seq<byte>, v: seq<byte>, w: seq<byte>, p: nat, q: nat)
    requires |v| == |w| && AllBelow(v, 32) && AllBelow(w, 32) && p <= q <= |v| && q <= p + 6
    requires forall i :: 0 <= i < |v| && !(p <= i < q) ==> v[i] == w[i]
    requires Residue(hrp, v) == Residue(hrp, w)
    ensures v == w
  {
    hide Absorb, Fits, HrpExpand;
    ConstantsFit(Bech32);
    var pre := HrpExpand(hrp) + v[..p];
    assert HrpExpand(hrp) + v == pre + v[p..q] + v[q..];
    assert HrpExpand(hrp) + w == pre + w[p..q] + v[q..];
    BurstDetected(1, pre, v[p..q], w[p..q], v[q..]);
    assert v == v[..p] + v[p..q] + v[q..];
    assert w == v[..p] + w[p..q] + v[q..];
  }

  lemma DataPair(hrp: seq<byte>, v: seq<byte>, w: seq<byte>, p: nat, q: nat)
    requires |v| == |w| <= 96 && AllBelow(v, 32) && AllBelow(w, 32) && p < q < |v|
    requires forall i :: 0 <= i < |v| && i != p && i != q ==> v[i] == w[i]
    requires Residue(hrp, v) == Residue(hrp, w)
    ensures v == w
  {
    hide Absorb, Fits, HrpExpand;
    ConstantsFit(Bech32);
    var pre := HrpExpand(hrp) + v[..p];
    var mid := v[p + 1..q];
    assert HrpExpand(hrp) + v == pre + ([v[p]] + mid + [v[q]]) + v[q + 1..];
    assert HrpExpand(hrp) + w == pre + ([w[p]] + mid + [w[q]]) + v[q + 1..];
    TwoDetected(1, pre, v[p], w[p], mid, v[q], w[q], v[q + 1..]);
  }

  lemma DataTriple(hrp: seq<byte>, v: seq<byte>, w: seq<byte>, p: nat, q: nat, o: nat)
    requires |v| == |w| <= 96 && AllBelow(v, 32) && AllBelow(w, 32) && p < q < o < |v|
    requires forall i :: 0 <= i < |v| && i != p && i != q && i != o ==> v[i] == w[i]
    requires Residue(hrp, v) == Residue(hrp, w)
    ensures v == w
  {
    hide Absorb, Fits, HrpExpand;
    ConstantsFit(Bech32);
    var pre := HrpExpand(hrp) + v[..p];
    var mid, next, post := v[p + 1..q], v[q + 1..o], v[o + 1..];
    TripleParts(v, v, p, q, o);
    TripleParts(w, v, p, q, o);
    assert HrpExpand(hrp) + v == pre + ([v[p]] + mid + [v[q]] + next + [v[o]]) + post;
    assert HrpExpand(hrp) + w == pre + ([w[p]] + mid + [w[q]] + next + [w[o]]) + post;
    ThreeDetected(1, pre, v[p], w[p], mid, v[q], w[q], next, v[o], w[o], post);
  }

  lemma TripleParts(w: seq<byte>, v: seq<byte>, p: nat, q: nat, o: nat)
    requires |v| == |w| && p < q < o < |v|
    requires forall i :: 0 <= i < |v| && i != p && i != q && i != o ==> v[i] == w[i]
    ensures w == v[..p] + ([w[p]] + v[p + 1..q] + [w[q]] + v[q + 1..o] + [w[o]]) + v[o + 1..]
  {
    assert w[..p] == v[..p] && w[p + 1..q] == v[p + 1..q] && w[q + 1..o] == v[q + 1..o] && w[o + 1..] == v[o + 1..];
    assert w == w[..p] + ([w[p]] + w[p + 1..q] + [w[q]] + w[q + 1..o] + [w[o]]) + w[o + 1..];
  }

  /** Characters that agree up to case stand for the same symbol. */
  lemma SameSymbols(s: seq<byte>, t: seq<byte>, i: nat)
    requires |s| == |t| && AllSymbolChars(s) && AllSymbolChars(t) && i < |s| && Lower(s[i]) == Lower(t[i])
    ensures Symbols(s)[i] == Symbols(t)[i]
  {
    hide CharsetRev, Lower, Symbols;
    SymbolsAt(s, i);
    SymbolsAt(t, i);
    SameSymbol(s[i], t[i]);
  }

  lemma TailBurst(hrp: seq<byte>, s: seq<byte>, t: seq<byte>, p: nat, q: nat)
    requires |s| == |t| && AllSymbolChars(s) && AllSymbolChars(t) && p <= q <= |s| && q <= p + 6
    requires forall i :: 0 <= i < |s| && !(p <= i < q) ==> Lower(s[i]) == Lower(t[i])
    requires Residue(hrp, Symbols(s)) == Residue(hrp, Symbols(t))
    ensures LowerAll(s) == LowerAll(t)
  {
    hide CharsetRev, Residue, Lower, Symbols;
    forall i | 0 <= i < |s| && !(p <= i < q) ensures Symbols(s)[i] == Symbols(t)[i] {
      SameSymbols(s, t, i);
    }
    DataBurst(hrp, Symbols(s), Symbols(t), p, q);
    CharsOfSymbols(s);
    CharsOfSymbols(t);
  }

  lemma TailPair(hrp: seq<byte>, s: seq<byte>, t: seq<byte>, p: nat, q: nat)
    requires |s| == |t| <= 96 && AllSymbolChars(s) && AllSymbolChars(t) && p < q < |s|
    requires forall i :: 0 <= i < |s| && i != p && i != q ==> Lower(s[i]) == Lower(t[i])
    requires Residue(hrp, Symbols(s)) == Residue(hrp, Symbols(t))
    ensures LowerAll(s) == LowerAll(t)
  {
    hide CharsetRev, Residue, Lower, Symbols;
    forall i | 0 <= i < |s| && i != p && i != q ensures Symbols(s)[i] == Symbols(t)[i] {
      SameSymbols(s, t, i);
    }
    DataPair(hrp, Symbols(s), Symbols(t), p, q);
    CharsOfSymbols(s);
    CharsOfSymbols(t);
  }

  lemma TailTriple(hrp: seq<byte>, s: seq<byte>, t: seq<byte>, p: nat, q: nat, o: nat)
    requires |s| == |t| <= 96 && AllSymbolChars(s) && AllSymbolChars(t) && p < q < o < |s|
    requires forall i :: 0 <= i < |s| && i != p && i != q && i != o ==> Lower(s[i]) == Lower(t[i])
    requires Residue(hrp, Symbols(s)) == Residue(hrp, Symbols(t))
    ensures LowerAll(s) == LowerAll(t)
  {
    hide CharsetRev, Residue, Lower, Symbols;
    forall i | 0 <= i < |s| && i != p && i != q && i != o ensures Symbols(s)[i] == Symbols(t)[i] {
      SameSymbols(s, t, i);
    }
    DataTriple(hrp, Symbols(s), Symbols(t), p, q, o);
    CharsOfSymbols(s);
    CharsOfSymbols(t);
  }

  lemma DecodeParts(a: cstring)
    requires Decode(a).Some?
    ensures var k := TailLength(a);
            k < |a| && AllSymbolChars(a[|a| - k..]) && |Decode(a).value.hrp| == |a| - 1 - k &&
            Residue(Decode(a).value.hrp, Symbols(a[|a| - k..])) == FinalConstant(Decode(a).value.enc) &&
            LowerAll(a) == Decode(a).value.hrp + [SEPARATOR] + LowerAll(a[|a| - k..])
  {
    hide CharsetRev, Absorb, FinalConstant, EncodingOf, HrpExpand, Lower, Residue, HasLower, HasUpper, Symbols,
      AllHrpChars;
    var k := TailLength(a);
    EncodingOfExact(Residue(Decode(a).value.hrp, Symbols(a[|a| - k..])));
    TailLengthSeparator(a);
    SeparatorPlain();
    assert LowerAll(a)[..|a| - 1 - k] == LowerAll(a[..|a| - 1 - k]);
  }

  /** Two accepted texts with the same variant, human-readable part and length cannot
      differ, other than in case, only inside one window of six data characters. */
  lemma BurstRejected(a: cstring, b: cstring, p: nat, q: nat)
    requires Decode(a).Some? && Decode(b).Some? && |a| == |b|
    requires Decode(a).value.enc == Decode(b).value.enc && Decode(a).value.hrp == Decode(b).value.hrp
    requires |a| - TailLength(a) <= p <= q <= |a| && q <= p + 6
    requires forall i :: 0 <= i < |a| && !(p <= i < q) ==> Lower(a[i]) == Lower(b[i])
    ensures LowerAll(a) == LowerAll(b)
  {
    hide Decode, CharsetRev, Lower, Residue, TailLength, Symbols, FinalConstant;
    DecodeParts(a);
    DecodeParts(b);
    var m := |a| - TailLength(a);
    TailBurst(Decode(a).value.hrp, a[m..], b[m..], p - m, q - m);
  }

  /** Nor can they differ, other than in case, only in two data characters, wherever these stand. */
  lemma PairRejected(a: cstring, b: cstring, p: nat, q: nat)
    requires Decode(a).Some? && Decode(b).Some? && |a| == |b|
    requires Decode(a).value.enc == Decode(b).value.enc && Decode(a).value.hrp == Decode(b).value.hrp
    requires |a| - TailLength(a) <= p < q < |a|
    requires forall i :: 0 <= i < |a| && i != p && i != q ==> Lower(a[i]) == Lower(b[i])
    ensures LowerAll(a) == LowerAll(b)
  {
    hide Decode, CharsetRev, Lower, Residue, TailLength, Symbols, FinalConstant;
    DecodeParts(a);
    DecodeParts(b);
    DecodeLength(a);
    var m := |a| - TailLength(a);
    TailPair(Decode(a).value.hrp, a[m..], b[m..], p - m, q - m);
  }

  /** Nor only in three. */
  lemma TripleRejected(a: cstring, b: cstring, p: nat, q: nat, o: nat)
    requires Decode(a).Some? && Decode(b).Some? && |a| == |b|
    requires Decode(a).value.enc == Decode(b).value.enc && Decode(a).value.hrp == Decode(b).value.hrp
    requires |a| - TailLength(a) <= p < q < o < |a|
    requires forall i :: 0 <= i < |a| && i != p && i != q && i != o ==> Lower(a[i]) == Lower(b[i])
    ensures LowerAll(a) == LowerAll(b)
  {
    hide Decode, CharsetRev, Lower, Residue, TailLength, Symbols, FinalConstant;
    DecodeParts(a);
    DecodeParts(b);
    DecodeLength(a);
    var m := |a| - TailLength(a);
    TailTriple(Decode(a).value.hrp, a[m..], b[m..], p - m, q - m, o - m);
  }

  lemma DecodeLength(a: cstring)
    requires Decode(a).Some?
    ensures |a| <= 90
  {
  }

  lemma SymbolsAt(s: seq<byte>, i: nat)
    requires AllSymbolChars(s) && i < |s|
    ensures CharsetRev(s[i]) != -1 && Symbols(s)[i] == CharsetRev(s[i])
  {
    hide CharsetRev;
    CharsetOfCharsetRev(s[i]);
  }

  // ---- the code ------------------------------------------------------------------------

  lemma ResidueNext(chk: bv32, vs: seq<byte>, k: nat)
    requires k < |vs| && chk == Absorb(1, vs[..k])
    ensures Absorb(1, vs[..k + 1]) == Xor(PolymodStep(chk), Word(vs[k]))
    ensures vs[k] == 0 ==> Absorb(1, vs[..k + 1]) == PolymodStep(chk)
  {
    hide Absorb, PolymodStep, Word, Xor;
    AbsorbNext(1, vs, k);
    StepZero();
    XorZero(PolymodStep(chk));
  }

  /** The first loop of bech32_encode: refuse bad characters, absorb the high bits. */
  method AbsorbHighBits(hrp: cstring) returns (ok: bool, chk: bv32)
    ensures ok == IsEncodableHrp(hrp)
    ensures ok ==> chk == Absorb(1, HrpExpand(hrp)[..|hrp|])
  {
    hide Absorb, PolymodStep, Word, Xor, HrpExpand, IsHrpChar, IsUpper;
    HrpExpandAt(hrp);
    chk := 1;
    var i := 0;
    EmptyAbsorb(1, HrpExpand(hrp));
    while i < |hrp|
      invariant i <= |hrp|
      invariant chk == Absorb(1, HrpExpand(hrp)[..i])
      invariant IsEncodableHrp(hrp[..i])
    {
      var ch := hrp[i];
      if !IsHrpChar(ch) { return false, chk; }
      if IsUpper(ch) { return false, chk; }
      ResidueNext(chk, HrpExpand(hrp), i);
      chk := Xor(PolymodStep(chk), Word(ch / 32));
      i := i + 1;
    }
    ok := true;
  }

  /** The second pass over the human-readable part: a zero, then the low bits. */
  method AbsorbLowBits(hrp: seq<byte>, start: bv32) returns (chk: bv32)
    requires start == Absorb(1, HrpExpand(hrp)[..|hrp|])
    ensures chk == Absorb(1, HrpExpand(hrp))
  {
    hide Absorb, PolymodStep, Word, Xor, HrpExpand;
    HrpExpandAt(hrp);
    ResidueNext(start, HrpExpand(hrp), |hrp|);
    chk := PolymodStep(start);
    var i := 0;
    while i < |hrp|
      invariant i <= |hrp|
      invariant chk == Absorb(1, HrpExpand(hrp)[..|hrp| + 1 + i])
    {
      ResidueNext(chk, HrpExpand(hrp), |hrp| + 1 + i);
      chk := Xor(PolymodStep(chk), Word(hrp[i] % 32));
      i := i + 1;
    }
    assert HrpExpand(hrp)[..|hrp| + 1 + |hrp|] == HrpExpand(hrp);
  }

  /** The last two loops of bech32_encode: six zero steps, then six checksum characters. */
  method WriteChecksum(r: bv32, enc: Encoding) returns (text: seq<byte>)
    ensures text == Chars(ChecksumSymbols(r, FinalConstant(enc)))
  {
    hide Absorb, FinalConstant, PolymodStep, Xor, Symbol;
    var chk := r;
    var i := 0;
    EmptyAbsorb(r, Zeros(6));
    while i < 6
      invariant i <= 6
      invariant chk == Absorb(r, Zeros(6)[..i])
    {
      AbsorbNext(r, Zeros(6), i);
      StepZero();
      XorZero(PolymodStep(chk));
      chk := PolymodStep(chk);
      i := i + 1;
    }
    assert Zeros(6)[..6] == Zeros(6);
    chk := Xor(chk, FinalConstant(enc));
    ghost var ck := ChecksumSymbols(r, FinalConstant(enc));
    text := [];
    i := 0;
    while i < 6
      invariant i <= 6
      invariant text == Chars(ck[..i])
    {
      assert ck[..i + 1] == ck[..i] + [Symbol(chk, i)];
      text := text + [CHARSET[Symbol(chk, i)]];
      i := i + 1;
    }
    assert ck[..6] == ck;
  }

  /** The second loop of bech32_encode over the data. */
  method WriteData(hrp: cstring, data: seq<byte>, start: bv32) returns (ok: bool, chk: bv32, chars: seq<byte>)
    requires start == Absorb(1, HrpExpand(hrp))
    ensures ok == AllBelow(data, 32)
    ensures ok ==> chk == Residue(hrp, data) && chars == Chars(data)
  {
    hide Absorb, PolymodStep, Word, Xor, HrpExpand;
    chk, chars := start, [];
    var i := 0;
    assert HrpExpand(hrp) + data[..0] == HrpExpand(hrp);
    while i < |data|
      invariant i <= |data| && AllBelow(data[..i], 32)
      invariant chk == Residue(hrp, data[..i]) && chars == Chars(data[..i])
    {
      if data[i] / 32 != 0 { return false, chk, chars; }
      ResidueSnoc(hrp, data[..i], data[i]);
      assert data[..i + 1] == data[..i] + [data[i]];
      chk := Xor(PolymodStep(chk), Word(data[i]));
      chars := chars + [CHARSET[data[i]]];
      i := i + 1;
    }
    assert data[..|data|] == data;
    ok := true;
  }

  /** bech32_encode: ok is the C return value, output the text it wrote. */
  method Bech32Encode(hrp: cstring, data: seq<byte>, enc: Encoding) returns (ok: bool, output: seq<byte>)
    ensures ok == Encode(hrp, data, enc).Some?
    ensures ok ==> output == Encode(hrp, data, enc).value
  {
    hide Absorb, FinalConstant, PolymodStep, Word, Xor, HrpExpand, IsEncodableHrp, ChecksumSymbols, AllBelow;
    output := [];
    var chk, chars;
    ok, chk := AbsorbHighBits(hrp);
    if !ok { return false, output; }
    if |hrp| + 7 + |data| > 90 { return false, output; }
    chk := AbsorbLowBits(hrp, chk);
    ok, chk, chars := WriteData(hrp, data, chk);
    if !ok { return false, output; }
    var text := WriteChecksum(chk, enc);
    CharsConcat(data, Checksum(hrp, data, enc));
    output := hrp + [SEPARATOR] + chars + text;
  }

  lemma CharsConcat(v: seq<byte>, w: seq<byte>)
    requires AllBelow(v, 32) && AllBelow(w, 32)
    ensures AllBelow(v + w, 32) && Chars(v + w) == Chars(v) + Chars(w)
  {
  }

  lemma ResidueSnoc(hrp: seq<byte>, vs: seq<byte>, v: byte)
    ensures Residue(hrp, vs + [v]) == Xor(PolymodStep(Residue(hrp, vs)), Word(v))
  {
    hide Absorb, HrpExpand, PolymodStep, Xor, Word;
    var full := HrpExpand(hrp) + vs + [v];
    assert full == HrpExpand(hrp) + (vs + [v]);
    assert full[..|full| - 1] == HrpExpand(hrp) + vs;
    AbsorbNext(1, full, |full| - 1);
    assert full[..|full|] == full;
  }

  lemma EmptyAbsorb(chk: bv32, vs: seq<byte>)
    ensures Absorb(chk, vs[..0]) == chk
  {
  }

  lemma HrpExpandAt(hrp: seq<byte>)
    ensures forall i :: 0 <= i < |hrp| ==> HrpExpand(hrp)[i] == hrp[i] / 32
    ensures HrpExpand(hrp)[|hrp|] == 0
    ensures forall i :: 0 <= i < |hrp| ==> HrpExpand(hrp)[|hrp| + 1 + i] == hrp[i] % 32
  {
  }

  lemma LowerBits(c: byte)
    ensures Lower(c) % 32 == c % 32
  {
  }

  lemma CaseOfParts(head: seq<byte>, tail: seq<byte>)
    ensures HasLower(head + [SEPARATOR] + tail) == (HasLower(head) || HasLower(tail))
    ensures HasUpper(head + [SEPARATOR] + tail) == (HasUpper(head) || HasUpper(tail))
  {
    var s := head + [SEPARATOR] + tail;
    forall i | 0 <= i < |head| ensures s[i] == head[i] {}
    forall i | 0 <= i < |tail| ensures s[|head| + 1 + i] == tail[i] {}
  }

  lemma CaseNext(s: seq<byte>, i: nat)
    requires i < |s|
    ensures HasLower(s[..i + 1]) == (HasLower(s[..i]) || IsLower(s[i]))
    ensures HasUpper(s[..i + 1]) == (HasUpper(s[..i]) || IsUpper(s[i]))
  {
    assert forall j :: 0 <= j < i ==> s[..i][j] == s[..i + 1][j];
    assert s[..i + 1][i] == s[i];
  }

  lemma TailLengthStep(s: seq<byte>, k: nat)
    requires k <= |s|
    requires forall i :: |s| - k <= i < |s| ==> s[i] != SEPARATOR
    ensures TailLength(s) >= k
    ensures k == |s| || s[|s| - 1 - k] == SEPARATOR ==> TailLength(s) == k
  {
    if k > 0 {
      TailLengthStep(s[..|s| - 1], k - 1);
    }
  }

  /** The backward scan of bech32_decode for the separator. */
  method FindSeparator(input: cstring) returns (dataLen: nat)
    ensures dataLen == TailLength(input)
  {
    var inputLen := |input|;
    dataLen := 0;
    while dataLen < inputLen && input[inputLen - 1 - dataLen] != SEPARATOR
      invariant dataLen <= inputLen
      invariant forall i :: inputLen - dataLen <= i < inputLen ==> input[i] != SEPARATOR
    {
      dataLen := dataLen + 1;
    }
    TailLengthStep(input, dataLen);
  }

  /** The first loop of bech32_decode over the human-readable part. */
  method ReadHrp(head: seq<byte>)
      returns (ok: bool, hrp: seq<byte>, chk: bv32, haveLower: bool, haveUpper: bool)
    ensures ok == AllHrpChars(head)
    ensures ok ==> hrp == LowerAll(head) && chk == Absorb(1, HrpExpand(hrp)[..|hrp|])
    ensures ok ==> haveLower == HasLower(head) && haveUpper == HasUpper(head)
  {
    hide Absorb, PolymodStep, Word, Xor, HrpExpand, IsHrpChar, IsUpper, IsLower, HasLower, HasUpper, Lower;
    haveLower, haveUpper := false, false;
    chk, hrp := 1, [];
    ghost var expand := HrpExpand(LowerAll(head));
    HrpExpandAt(LowerAll(head));
    EmptyAbsorb(1, expand);
    EmptyCase(head);
    var i := 0;
    while i < |head|
      invariant i <= |head|
      invariant AllHrpChars(head[..i])
      invariant haveLower == HasLower(head[..i]) && haveUpper == HasUpper(head[..i])
      invariant hrp == LowerAll(head)[..i]
      invariant chk == Absorb(1, expand[..i])
    {
      var ch := head[i];
      if !IsHrpChar(ch) { return false, hrp, chk, haveLower, haveUpper; }
      CaseNext(head, i);
      LowerUpper(ch);
      if IsLower(ch) {
        haveLower := true;
      } else if IsUpper(ch) {
        haveUpper := true;
        ch := Lower(ch);
      }
      hrp := hrp + [ch];
      ResidueNext(chk, expand, i);
      chk := Xor(PolymodStep(chk), Word(ch / 32));
      i := i + 1;
    }
    assert head[..|head|] == head;
    ok := true;
  }

  /** The second loop, which masks the characters as they stand in the input. */
  method AbsorbInputLowBits(head: seq<byte>, start: bv32) returns (chk: bv32)
    requires start == Absorb(1, HrpExpand(LowerAll(head))[..|head|])
    ensures chk == Absorb(1, HrpExpand(LowerAll(head)))
  {
    hide Absorb, PolymodStep, Word, Xor, HrpExpand, Lower;
    ghost var expand := HrpExpand(LowerAll(head));
    HrpExpandAt(LowerAll(head));
    ResidueNext(start, expand, |head|);
    chk := PolymodStep(start);
    var i := 0;
    while i < |head|
      invariant i <= |head|
      invariant chk == Absorb(1, expand[..|head| + 1 + i])
    {
      LowerBits(head[i]);
      assert expand[|LowerAll(head)| + 1 + i] == LowerAll(head)[i] % 32;
      ResidueNext(chk, expand, |head| + 1 + i);
      chk := Xor(PolymodStep(chk), Word(head[i] % 32));
      i := i + 1;
    }
    assert expand[..|head| + 1 + |head|] == expand;
  }

  /** The last loop of bech32_decode: data holds all but the last six symbols. */
  method ReadData(tail: seq<byte>, hrp: seq<byte>, start: bv32)
      returns (ok: bool, data: seq<byte>, chk: bv32, haveLower: bool, haveUpper: bool)
    requires |tail| >= 6 && start == Absorb(1, HrpExpand(hrp))
    ensures ok == AllSymbolChars(tail)
    ensures ok ==> data == Symbols(tail)[..|tail| - 6] && chk == Residue(hrp, Symbols(tail))
    ensures ok ==> haveLower == HasLower(tail) && haveUpper == HasUpper(tail)
  {
    hide CharsetRev, Absorb, PolymodStep, Word, Xor, HrpExpand, IsUpper, IsLower, HasLower, HasUpper;
    ghost var vs: seq<byte> := [];
    assert HrpExpand(hrp) + vs == HrpExpand(hrp);
    chk, data, haveLower, haveUpper := start, [], false, false;
    EmptyCase(tail);
    var i := 0;
    while i < |tail|
      invariant i <= |tail|
      invariant AllSymbolChars(tail[..i]) && vs == Symbols(tail[..i])
      invariant haveLower == HasLower(tail[..i]) && haveUpper == HasUpper(tail[..i])
      invariant chk == Residue(hrp, vs)
      invariant data == vs[..if i + 6 < |tail| then i else |tail| - 6]
    {
      var v := CharsetRev(tail[i]);
      CaseNext(tail, i);
      if IsLower(tail[i]) { haveLower := true; }
      if IsUpper(tail[i]) { haveUpper := true; }
      if v == -1 { return false, data, chk, haveLower, haveUpper; }
      CharsetOfCharsetRev(tail[i]);
      SymbolsNext(tail, i);
      ResidueSnoc(hrp, vs, v);
      vs := vs + [v];
      chk := Xor(PolymodStep(chk), Word(v));
      if i + 6 < |tail| {
        data := data + [v];
      }
      i := i + 1;
    }
    assert tail[..|tail|] == tail;
    ok := true;
  }

  /** bech32_decode: None stands for BECH32_ENCODING_NONE. */
  method Bech32Decode(input: cstring) returns (r: Option<Decoded>)
    ensures r == Decode(input)
  {
    hide CharsetRev, Absorb, FinalConstant, HrpExpand, HasLower, HasUpper, EncodingOf, TailLength, Lower, Residue,
      AllHrpChars, AllSymbolChars, Symbols;
    var inputLen := |input|;
    if inputLen < 8 || inputLen > 90 { return None; }
    var dataLen := FindSeparator(input);
    if 1 + dataLen >= inputLen || dataLen < 6 { return None; }
    var hrpLen := inputLen - (1 + dataLen);
    var head, tail := input[..hrpLen], input[hrpLen + 1..];
    TailLengthSeparator(input);
    assert input == head + [SEPARATOR] + tail;
    CaseOfParts(head, tail);
    var ok, hrp, chk, headLower, headUpper := ReadHrp(head);
    if !ok { return None; }
    chk := AbsorbInputLowBits(head, chk);
    var data, tailLower, tailUpper;
    ok, data, chk, tailLower, tailUpper := ReadData(tail, hrp, chk);
    if !ok { return None; }
    if (headLower || tailLower) && (headUpper || tailUpper) { return None; }
    EncodingOfCases(chk);
    if chk == FinalConstant(Bech32) {
      r := Some(Decoded(Bech32, hrp, data));
    } else if chk == FinalConstant(Bech32m) {
      r := Some(Decoded(Bech32m, hrp, data));
    } else {
      r := None;
    }
  }

  lemma EncodingOfCases(r: bv32)
    ensures EncodingOf(r) == if r == FinalConstant(Bech32) then Some(Bech32)
                             else if r == FinalConstant(Bech32m) then Some(Bech32m) else None
  {
  }

  lemma EmptyCase(s: seq<byte>)
    ensures !HasLower(s[..0]) && !HasUpper(s[..0])
  {
  }

  lemma LowerUpper(c: byte)
    ensures !(IsLower(c) && IsUpper(c)) && (!IsUpper(c) ==> Lower(c) == c)
  {
  }

  lemma SymbolsNext(s: seq<byte>, k: nat)
    requires k < |s| && AllSymbolChars(s[..k]) && CharsetRev(s[k]) != -1
    ensures AllSymbolChars(s[..k + 1]) && Symbols(s[..k + 1]) == Symbols(s[..k]) + [CharsetRev(s[k])]
  {
    hide CharsetRev;
    assert s[..k + 1] == s[..k] + [s[k]];
  }
}
