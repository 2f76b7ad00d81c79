/** Known answers of the address codecs: those of components/stratum/test/test_bech32.c and of
    BIP 173 and BIP 350. They fix the generator, the character set and the two constants. */
module AddressVectors {
  import opened Wrappers
  import opened Bytes
  import opened Arith
  import opened Digits
  import opened Polymod
  import opened Bech32
  import opened BitRegroup
  import opened SegwitAddr

  /** The bytes of a text. */
  function Ascii(s: string): (t: seq<byte>)
    ensures |t| == |s|
  {
    seq(|s|, i requires 0 <= i < |s| => (s[i] as int) % 256)
  }

  // ---- evaluation in small steps -------------------------------------------------------------

  lemma Absorb1(x: bv32, s: seq<byte>, r: bv32, a: byte, t: bv32)
    requires Absorb(x, s) == r && Xor(PolymodStep(r), Word(a)) == t
    ensures Absorb(x, s + [a]) == t
  {
    hide PolymodStep, Xor, Word;
    assert (s + [a])[..|s|] == s;
  }

  lemma Absorb5(x: bv32, a: byte, b: byte, c: byte, d: byte, e: byte, t: bv32)
    requires Xor(PolymodStep(Xor(PolymodStep(Xor(PolymodStep(Xor(PolymodStep(Xor(
               PolymodStep(x), Word(a))), Word(b))), Word(c))), Word(d))), Word(e)) == t
    ensures Absorb(x, [a, b, c, d, e]) == t
  {
    hide PolymodStep, Xor, Word;
    var ra := Xor(PolymodStep(x), Word(a));
    var rb := Xor(PolymodStep(ra), Word(b));
    var rc := Xor(PolymodStep(rb), Word(c));
    var rd := Xor(PolymodStep(rc), Word(d));
    Absorb1(x, [], x, a, ra);
    Absorb1(x, [] + [a], ra, b, rb);
    Absorb1(x, [] + [a] + [b], rb, c, rc);
    Absorb1(x, [] + [a] + [b] + [c], rc, d, rd);
    Absorb1(x, [] + [a] + [b] + [c] + [d], rd, e, t);
    assert [] + [a] + [b] + [c] + [d] + [e] == [a, b, c, d, e];
  }

  /** What has been read of a data part: n symbols that take the register from x to r, have
      the value v, and are written as the text. */
  predicate Read(x: bv32, s: seq<byte>, n: nat, r: bv32, v: nat, text: string) {
    |s| == n && AllBelow(s, 32) && Absorb(x, s) == r && Value(s, 32) == v && Chars(s) == Ascii(text)
  }

  lemma ReadNothing(x: bv32)
    ensures Read(x, [], 0, x, 0, "")
  {
  }

  lemma PlainHrp(s: string)
    requires forall i :: 0 <= i < |s| ==> 'a' <= s[i] <= 'z'
    ensures IsEncodableHrp(Ascii(s)) && forall i :: 0 <= i < |s| ==> Ascii(s)[i] != 0
  {
  }

  lemma AsciiConcat(s: string, t: string)
    ensures Ascii(s + t) == Ascii(s) + Ascii(t)
  {
  }

  lemma CharsConcat2(s: seq<byte>, t: seq<byte>)
    requires AllBelow(s + t, 32)
    ensures AllBelow(s, 32) && AllBelow(t, 32) && Chars(s + t) == Chars(s) + Chars(t)
  {
    assert forall i :: 0 <= i < |s| ==> s[i] == (s + t)[i];
    assert forall i :: 0 <= i < |t| ==> t[i] == (s + t)[|s| + i];
  }

  /** A data part read to the constant of its variant ends in its checksum. */
  lemma ReadAnswer(hrp: cstring, data: seq<byte>, ys: seq<byte>, enc: Encoding,
                   first: bv32, n: nat, v: nat, text: string)
    requires IsEncodableHrp(hrp) && |hrp| + 1 + n <= 90 && |ys| == 6 && Absorb(1, HrpExpand(hrp)) == first
    requires Read(first, data + ys, n, FinalConstant(enc), v, text)
    ensures Encode(hrp, data, enc) == Some(hrp + Ascii("1" + text))
  {
    hide Absorb, HrpExpand, FinalConstant, Value;
    CharsConcat2(data, ys);
    AbsorbConcat(1, HrpExpand(hrp), data + ys);
    KnownAnswer(hrp, data, ys, enc);
    AsciiConcat("1", text);
    assert Ascii("1") == [SEPARATOR];
    assert hrp + [SEPARATOR] + Chars(data + ys) == hrp + ([SEPARATOR] + Chars(data + ys));
  }

  lemma Read1(x: bv32, s: seq<byte>, n: nat, r: bv32, v: nat, text: string, a: byte, t: bv32, w: nat, c: char)
    requires Read(x, s, n, r, v, text) && a < 32 && Xor(PolymodStep(r), Word(a)) == t && v * 32 + a == w
    requires CHARSET[a] == (c as int) % 256
    ensures Read(x, s + [a], n + 1, t, w, text + [c])
  {
    hide PolymodStep, Xor, Word, Absorb, Value;
    Absorb1(x, s, r, a, t);
    ValueSnoc(s, a, 32);
    assert Chars(s + [a]) == Chars(s) + Chars([a]);
    assert Ascii(text + [c]) == Ascii(text) + Ascii([c]);
    assert Chars([a]) == Ascii([c]);
  }

  lemma Read5(x: bv32, s: seq<byte>, n: nat, r: bv32, v: nat, text: string,
              a: byte, b: byte, c: byte, d: byte, e: byte, t: bv32, w: nat, piece: string)
    requires Read(x, s, n, r, v, text) && a < 32 && b < 32 && c < 32 && d < 32 && e < 32
    requires Xor(PolymodStep(Xor(PolymodStep(Xor(PolymodStep(Xor(PolymodStep(Xor(
               PolymodStep(r), Word(a))), Word(b))), Word(c))), Word(d))), Word(e)) == t
    requires ((((v * 32 + a) * 32 + b) * 32 + c) * 32 + d) * 32 + e == w
    requires |piece| == 5 && CHARSET[a] == (piece[0] as int) % 256 && CHARSET[b] == (piece[1] as int) % 256
    requires CHARSET[c] == (piece[2] as int) % 256 && CHARSET[d] == (piece[3] as int) % 256
    requires CHARSET[e] == (piece[4] as int) % 256
    ensures Read(x, s + [a, b, c, d, e], n + 5, t, w, text + piece)
  {
    hide PolymodStep, Xor, Word, Read;
    var ra, va := Xor(PolymodStep(r), Word(a)), v * 32 + a;
    var rb, vb := Xor(PolymodStep(ra), Word(b)), va * 32 + b;
    var rc, vc := Xor(PolymodStep(rb), Word(c)), vb * 32 + c;
    var rd, vd := Xor(PolymodStep(rc), Word(d)), vc * 32 + d;
    Read1(x, s, n, r, v, text, a, ra, va, piece[0]);
    Read1(x, s + [a], n + 1, ra, va, text + [piece[0]], b, rb, vb, piece[1]);
    Read1(x, s + [a] + [b], n + 2, rb, vb, text + [piece[0]] + [piece[1]], c, rc, vc, piece[2]);
    var q := text + [piece[0]] + [piece[1]] + [piece[2]];
    Read1(x, s + [a] + [b] + [c], n + 3, rc, vc, q, d, rd, vd, piece[3]);
    Read1(x, s + [a] + [b] + [c] + [d], n + 4, rd, vd, q + [piece[3]], e, t, w, piece[4]);
    assert s + [a] + [b] + [c] + [d] + [e] == s + [a, b, c, d, e];
    assert q + [piece[3]] + [piece[4]] == text + piece;
  }

  lemma EmptyAbsorb1()
    ensures Absorb(1, []) == 1
  {
  }

  lemma HrpWordsA()
    ensures HrpExpand(Ascii("a")) == [3, 0, 1]
  {
  }

  lemma ExpandedA()
    ensures Absorb(1, HrpExpand(Ascii("a"))) == 0x00008c01
  {
    HrpWordsA();
    hide Absorb, HrpExpand;
    EmptyAbsorb1();
    var s: seq<byte> := [];
    Absorb1(1, s, 0x00000001, 3, 0x00000023);
    s := s + [3];
    Absorb1(1, s, 0x00000023, 0, 0x00000460);
    s := s + [0];
    Absorb1(1, s, 0x00000460, 1, 0x00008c01);
    s := s + [1];
    assert s == [3, 0, 1];
  }

  lemma HrpWordsAbcdef()
    ensures HrpExpand(Ascii("abcdef")) == [3, 3, 3, 3, 3, 3, 0, 1, 2, 3, 4, 5, 6]
  {
  }

  lemma ExpandedAbcdef()
    ensures Absorb(1, HrpExpand(Ascii("abcdef"))) == 0x3be80e6a
  {
    HrpWordsAbcdef();
    hide Absorb, HrpExpand;
    EmptyAbsorb1();
    var s: seq<byte> := [];
    Absorb5(0x00000001, 3, 3, 3, 3, 3, 0x02318c63);
    AbsorbConcat(1, s, [3, 3, 3, 3, 3]);
    s := s + [3, 3, 3, 3, 3];
    Absorb5(0x02318c63, 3, 0, 1, 2, 3, 0x08d50561);
    AbsorbConcat(1, s, [3, 0, 1, 2, 3]);
    s := s + [3, 0, 1, 2, 3];
    Absorb1(1, s, 0x08d50561, 4, 0x0401b5de);
    s := s + [4];
    Absorb1(1, s, 0x0401b5de, 5, 0x266635a8);
    s := s + [5];
    Absorb1(1, s, 0x266635a8, 6, 0x3be80e6a);
    s := s + [6];
    assert s == [3, 3, 3, 3, 3, 3, 0, 1, 2, 3, 4, 5, 6];
  }

  lemma ShortAnswerPart0(s: seq<byte>, text: string) returns (t: seq<byte>)
    requires Read(0x00008c01, s, 0, 0x00008c01, 0x0, text)
    ensures Read(0x00008c01, t, 5, 0x24622766, 0xae67f4, text + "2uel5")
    ensures t == s + [10, 28, 25, 31, 20]
  {
    hide Read, Absorb, Value, Chars, Ascii, AllBelow;
    t := s;
    Read5(0x00008c01, t, 0, 0x00008c01, 0x0, text, 10, 28, 25, 31, 20,
          0x24622766, 0xae67f4, "2uel5");
    t := t + [10, 28, 25, 31, 20];
    assert text + "2uel5" == text + "2uel5";
  }

  lemma ShortAnswerPart1(s: seq<byte>, text: string) returns (t: seq<byte>)
    requires Read(0x00008c01, s, 5, 0x24622766, 0xae67f4, text)
    ensures Read(0x00008c01, t, 6, 0x00000001, 0x15ccfe9f, text + "l")
    ensures t == s + [31]
  {
    hide Read, Absorb, Value, Chars, Ascii, AllBelow;
    t := s;
    Read1(0x00008c01, t, 5, 0x24622766, 0xae67f4, text, 31,
          0x00000001, 0x15ccfe9f, 'l');
    t := t + [31];
    assert text + "l" == text + "l";
  }

  lemma ShortAnswer()
    ensures Encode(Ascii("a"), [], Bech32) == Some(Ascii("a") + Ascii("1" + ("2uel5" + "l")))
  {
    hide Read, Absorb, HrpExpand;
    PlainHrp("a");
    ExpandedA();
    ReadNothing(0x00008c01);
    var text := "";
    var s: seq<byte> := [];
    s := ShortAnswerPart0(s, text);
    text := text + "2uel5";
    s := ShortAnswerPart1(s, text);
    text := text + "l";
    assert s == [] + [10, 28, 25, 31, 20, 31];
    assert text == "2uel5" + "l";
    ReadAnswer(Ascii("a"), [], [10, 28, 25, 31, 20, 31], Bech32, 0x00008c01, 6, 0x15ccfe9f, text);
  }

  lemma ShortVariantAnswerPart0(s: seq<byte>, text: string) returns (t: seq<byte>)
    requires Read(0x00008c01, s, 0, 0x00008c01, 0x0, text)
    ensures Read(0x00008c01, t, 5, 0x253c66e3, 0x1f02671, text + "lqfn3")
    ensures t == s + [31, 0, 9, 19, 17]
  {
    hide Read, Absorb, Value, Chars, Ascii, AllBelow;
    t := s;
    Read5(0x00008c01, t, 0, 0x00008c01, 0x0, text, 31, 0, 9, 19, 17,
          0x253c66e3, 0x1f02671, "lqfn3");
    t := t + [31, 0, 9, 19, 17];
    assert text + "lqfn3" == text + "lqfn3";
  }

  lemma ShortVariantAnswerPart1(s: seq<byte>, text: string) returns (t: seq<byte>)
    requires Read(0x00008c01, s, 5, 0x253c66e3, 0x1f02671, text)
    ensures Read(0x00008c01, t, 6, 0x2bc830a3, 0x3e04ce3d, text + "a")
    ensures t == s + [29]
  {
    hide Read, Absorb, Value, Chars, Ascii, AllBelow;
    t := s;
    Read1(0x00008c01, t, 5, 0x253c66e3, 0x1f02671, text, 29,
          0x2bc830a3, 0x3e04ce3d, 'a');
    t := t + [29];
    assert text + "a" == text + "a";
  }

  lemma ShortVariantAnswer()
    ensures Encode(Ascii("a"), [], Bech32m) == Some(Ascii("a") + Ascii("1" + ("lqfn3" + "a")))
  {
    hide Read, Absorb, HrpExpand;
    PlainHrp("a");
    ExpandedA();
    ReadNothing(0x00008c01);
    var text := "";
    var s: seq<byte> := [];
    s := ShortVariantAnswerPart0(s, text);
    text := text + "lqfn3";
    s := ShortVariantAnswerPart1(s, text);
    text := text + "a";
    assert s == [] + [31, 0, 9, 19, 17, 29];
    assert text == "lqfn3" + "a";
    ReadAnswer(Ascii("a"), [], [31, 0, 9, 19, 17, 29], Bech32m, 0x00008c01, 6, 0x3e04ce3d, text);
  }

  /** 31, 30 and so on down to 0: every symbol once. */
  function Descending(): (data: seq<byte>)
    ensures |data| == 32
  {
    seq(32, i requires 0 <= i < 32 => 31 - i)
  }

  lemma EverySymbolAnswerPart0(s: seq<byte>, text: string) returns (t: seq<byte>)
    requires Read(0x3be80e6a, s, 0, 0x3be80e6a, 0x0, text)
    ensures Read(0x3be80e6a, t, 5, 0x2924984c, 0x1ff779b, text + "l7aum")
    ensures t == s + [31, 30, 29, 28, 27]
  {
    hide Read, Absorb, Value, Chars, Ascii, AllBelow;
    t := s;
    Read5(0x3be80e6a, t, 0, 0x3be80e6a, 0x0, text, 31, 30, 29, 28, 27,
          0x2924984c, 0x1ff779b, "l7aum");
    t := t + [31, 30, 29, 28, 27];
    assert text + "l7aum" == text + "l7aum";
  }

  lemma EverySymbolAnswerPart1(s: seq<byte>, text: string) returns (t: seq<byte>)
    requires Read(0x3be80e6a, s, 5, 0x2924984c, 0x1ff779b, text)
    ensures Read(0x3be80e6a, t, 15, 0x3592b937, 0x7fdde6f59c5ed5a4e51, text + "6echk45nj3")
    ensures t == s + [26, 25, 24, 23, 22, 21, 20, 19, 18, 17]
  {
    hide Read, Absorb, Value, Chars, Ascii, AllBelow;
    t := s;
    Read5(0x3be80e6a, t, 5, 0x2924984c, 0x1ff779b, text, 26, 25, 24, 23, 22,
          0x0a23f9a9, 0x3feef37ace2f6, "6echk");
    t := t + [26, 25, 24, 23, 22];
    Read5(0x3be80e6a, t, 10, 0x0a23f9a9, 0x3feef37ace2f6, text + "6echk", 21, 20, 19, 18, 17,
          0x3592b937, 0x7fdde6f59c5ed5a4e51, "45nj3");
    t := t + [21, 20, 19, 18, 17];
    assert text + "6echk" + "45nj3" == text + "6echk45nj3";
  }

  lemma EverySymbolAnswerPart2(s: seq<byte>, text: string) returns (t: seq<byte>)
    requires Read(0x3be80e6a, s, 15, 0x3592b937, 0x7fdde6f59c5ed5a4e51, text)
    ensures Read(0x3be80e6a, t, 20, 0x368f29a6, 0xffbbcdeb38bdab49ca307b9ac, text + "s0wdv")
    ensures t == s + [16, 15, 14, 13, 12]
  {
    hide Read, Absorb, Value, Chars, Ascii, AllBelow;
    t := s;
    Read5(0x3be80e6a, t, 15, 0x3592b937, 0x7fdde6f59c5ed5a4e51, text, 16, 15, 14, 13, 12,
          0x368f29a6, 0xffbbcdeb38bdab49ca307b9ac, "s0wdv");
    t := t + [16, 15, 14, 13, 12];
    assert text + "s0wdv" == text + "s0wdv";
  }

  lemma EverySymbolAnswerPart3(s: seq<byte>, text: string) returns (t: seq<byte>)
    requires Read(0x3be80e6a, s, 20, 0x368f29a6, 0xffbbcdeb38bdab49ca307b9ac, text)
    ensures Read(0x3be80e6a, t, 30, 0x134815c3, 0x3feef37ace2f6ad2728c1ee6b16a4a0e629062, text + "t2fg8x9yrz")
    ensures t == s + [11, 10, 9, 8, 7, 6, 5, 4, 3, 2]
  {
    hide Read, Absorb, Value, Chars, Ascii, AllBelow;
    t := s;
    Read5(0x3be80e6a, t, 20, 0x368f29a6, 0xffbbcdeb38bdab49ca307b9ac, text, 11, 10, 9, 8, 7,
          0x21b09d45, 0x1ff779bd6717b56939460f7358b52507, "t2fg8");
    t := t + [11, 10, 9, 8, 7];
    Read5(0x3be80e6a, t, 25, 0x21b09d45, 0x1ff779bd6717b56939460f7358b52507, text + "t2fg8", 6, 5, 4, 3, 2,
          0x134815c3, 0x3feef37ace2f6ad2728c1ee6b16a4a0e629062, "x9yrz");
    t := t + [6, 5, 4, 3, 2];
    assert text + "t2fg8" + "x9yrz" == text + "t2fg8x9yrz";
  }

  lemma EverySymbolAnswerPart4(s: seq<byte>, text: string) returns (t: seq<byte>)
    requires Read(0x3be80e6a, s, 30, 0x134815c3, 0x3feef37ace2f6ad2728c1ee6b16a4a0e629062, text)
    ensures Read(0x3be80e6a, t, 38, 0x2bc830a3, 0x3feef37ace2f6ad2728c1ee6b16a4a0e6290620804d88c86, text + "pqzd3ryx")
    ensures t == s + [1, 0, 2, 13, 17, 3, 4, 6]
  {
    hide Read, Absorb, Value, Chars, Ascii, AllBelow;
    t := s;
    Read5(0x3be80e6a, t, 30, 0x134815c3, 0x3feef37ace2f6ad2728c1ee6b16a4a0e629062, text, 1, 0, 2, 13, 17,
          0x06ea0669, 0x7fdde6f59c5ed5a4e5183dcd62d4941cc520c41009b1, "pqzd3");
    t := t + [1, 0, 2, 13, 17];
    Read1(0x3be80e6a, t, 35, 0x06ea0669, 0x7fdde6f59c5ed5a4e5183dcd62d4941cc520c41009b1, text + "pqzd3", 3,
          0x007a14fc, 0xffbbcdeb38bdab49ca307b9ac5a928398a41882013623, 'r');
    t := t + [3];
    Read1(0x3be80e6a, t, 36, 0x007a14fc, 0xffbbcdeb38bdab49ca307b9ac5a928398a41882013623, text + "pqzd3" + "r", 4,
          0x0f429f84, 0x1ff779bd6717b56939460f7358b5250731483104026c464, 'y');
    t := t + [4];
    Read1(0x3be80e6a, t, 37, 0x0f429f84, 0x1ff779bd6717b56939460f7358b5250731483104026c464, text + "pqzd3" +
          "r" + "y", 6,
          0x2bc830a3, 0x3feef37ace2f6ad2728c1ee6b16a4a0e6290620804d88c86, 'x');
    t := t + [6];
    assert text + "pqzd3" + "r" + "y" + "x" == text + "pqzd3ryx";
  }

  lemma EverySymbolAnswer()
    ensures Encode(Ascii("abcdef"), Descending(), Bech32m) == Some(Ascii("abcdef") + Ascii("1" + ("l7aum" +
          "6echk45nj3" + "s0wdv" + "t2fg8x9yrz" + "pqzd3ryx")))
  {
    hide Read, Absorb, HrpExpand;
    PlainHrp("abcdef");
    ExpandedAbcdef();
    ReadNothing(0x3be80e6a);
    var text := "";
    var s: seq<byte> := [];
    s := EverySymbolAnswerPart0(s, text);
    text := text + "l7aum";
    s := EverySymbolAnswerPart1(s, text);
    text := text + "6echk45nj3";
    s := EverySymbolAnswerPart2(s, text);
    text := text + "s0wdv";
    s := EverySymbolAnswerPart3(s, text);
    text := text + "t2fg8x9yrz";
    s := EverySymbolAnswerPart4(s, text);
    text := text + "pqzd3ryx";
    assert s == Descending() + [2, 13, 17, 3, 4, 6];
    assert text == "l7aum" + "6echk45nj3" + "s0wdv" + "t2fg8x9yrz" + "pqzd3ryx";
    ReadAnswer(Ascii("abcdef"), Descending(), [2, 13, 17, 3, 4, 6], Bech32m, 0x3be80e6a, 38,
          0x3feef37ace2f6ad2728c1ee6b16a4a0e6290620804d88c86, text);
  }

  // ---- addresses -------------------------------------------------------------------------------

  lemma PowersOf256()
    ensures Pow(256, 20) == 0x1_0000000000000000000000000000000000000000
    ensures Pow(256, 32) == 0x1_0000000000000000000000000000000000000000000000000000000000000000
  {
    assert Pow(256, 4) == 0x1_00000000;
    PowAdd(256, 4, 4);
    PowAdd(256, 8, 8);
    PowAdd(256, 16, 4);
    PowAdd(256, 16, 16);
  }

  /** The n bytes of a number are a program of that value. */
  lemma ProgramValue(v: nat, n: nat)
    requires n == 20 || n == 32
    requires v < if n == 20 then 0x1_0000000000000000000000000000000000000000
                 else 0x1_0000000000000000000000000000000000000000000000000000000000000000
    ensures |DigitsOf(v, 256, n)| == n && AllBelow(DigitsOf(v, 256, n), 256) && Value(DigitsOf(v, 256, n), 256) == v
  {
    PowersOf256();
    ValueOfDigits(v, 256, n);
    hide Pow, Value, DigitsOf;
  }

  lemma SixDigits()
    ensures Pow(32, 6) == 0x4000_0000
  {
  }

  /** The symbols of a program are those of its value with the fill bits. */
  lemma RegroupKnown(prog: seq<nat>, data: seq<nat>)
    requires AllBelow(prog, 256) && AllBelow(data, 32) && |data| == (|prog| * 8 + 4) / 5
    requires Value(data, 32) == Value(prog, 256) * P2(Fill(|prog|))
    ensures Regroup(prog, 8, 5, true) == Some(data)
  {
    PadSpells(prog);
    PaddingAlwaysPossible(prog);
    var s := Regroup(prog, 8, 5, true).value;
    hide Regroup, Value, P2, Fill;
    DigitsOfValue(s, 32);
    DigitsOfValue(data, 32);
  }

  lemma FillValues()
    ensures P2(Fill(20)) == 1 && P2(Fill(32)) == 16
  {
    assert P2(4) == 16;
    assert P2(0) == 1;
  }

  /** An address read to the constant of its version, its symbols being those of the program. */
  lemma AddressAnswer(hrp: cstring, witver: nat, prog: seq<byte>, s: seq<byte>, enc: Encoding,
                      first: bv32, x: bv32, w: nat, c: nat, text: string)
    requires IsEncodableHrp(hrp) && |hrp| == 2 && Absorb(1, HrpExpand(hrp)) == first
    requires witver <= 16 && enc == (if witver > 0 then Bech32m else Bech32)
    requires (|prog| == 20 || |prog| == 32) && AllBelow(prog, 256) && |s| == (|prog| * 8 + 4) / 5 + 6
    requires Absorb(first, [witver]) == x && Read(x, s, |s|, FinalConstant(enc), w * 0x4000_0000 + c, text)
    requires c < 0x4000_0000 && w == Value(prog, 256) * P2(Fill(|prog|))
    ensures SegwitEncode(hrp, witver, prog) == Some(hrp + [SEPARATOR] + ([CHARSET[witver]] + Ascii(text)))
  {
    hide *;
    var m := |s| - 6;
    var data, ys := s[..m], s[m..];
    assert s == data + ys;
    ReadParts(x, s, |s|, FinalConstant(enc), w * 0x4000_0000 + c, text);
    DataValue(data, ys, w, c);
    RegroupKnown(prog, data);
    AbsorbConcat(1, HrpExpand(hrp), [witver] + s);
    AbsorbConcat(first, [witver], s);
    AddressText(hrp, witver, data, ys, enc, text);
    EncodeKnown(hrp, witver, prog, data, enc);
  }

  lemma ReadParts(x: bv32, s: seq<byte>, n: nat, r: bv32, v: nat, text: string)
    requires Read(x, s, n, r, v, text)
    ensures AllBelow(s, 32) && Absorb(x, s) == r && Value(s, 32) == v && Chars(s) == Ascii(text)
  {
    hide Absorb, Value, Chars, Ascii, AllBelow;
  }

  lemma EncodeKnown(hrp: cstring, witver: nat, prog: seq<byte>, data: seq<byte>, enc: Encoding)
    requires witver <= 16 && enc == (if witver > 0 then Bech32m else Bech32) && (|prog| == 20 || |prog| == 32)
    requires Regroup(prog, 8, 5, true) == Some(data)
    ensures SegwitEncode(hrp, witver, prog) == Encode(hrp, [witver] + data, enc)
  {
    hide Regroup, Encode;
    assert DataPart(witver, prog) == [witver] + data;
  }

  lemma DataValue(data: seq<nat>, ys: seq<nat>, w: nat, c: nat)
    requires AllBelow(data + ys, 32) && |ys| == 6 && c < 0x4000_0000 && Value(data + ys, 32) == w * 0x4000_0000 + c
    ensures AllBelow(data, 32) && AllBelow(ys, 32) && Value(data, 32) == w
  {
    assert forall i :: 0 <= i < |data| ==> data[i] == (data + ys)[i];
    assert forall i :: 0 <= i < |ys| ==> ys[i] == (data + ys)[|data| + i];
    SixDigits();
    ValueConcat(data, ys, 32);
    ValueBelowPow(ys, 32);
    DivModUnique(Value(data + ys, 32), 0x4000_0000, w, c);
    DivModUnique(Value(data + ys, 32), 0x4000_0000, Value(data, 32), Value(ys, 32));
    hide Value, Pow;
  }

  lemma AddressText(hrp: cstring, witver: byte, data: seq<byte>, ys: seq<byte>, enc: Encoding, text: string)
    requires IsEncodableHrp(hrp) && |hrp| == 2 && |data| <= 60 && witver < 32 && AllBelow(data + ys, 32)
    requires |ys| == 6 && Absorb(1, HrpExpand(hrp) + ([witver] + (data + ys))) == FinalConstant(enc)
    requires Chars(data + ys) == Ascii(text)
    ensures Encode(hrp, [witver] + data, enc) == Some(hrp + [SEPARATOR] + ([CHARSET[witver]] + Ascii(text)))
  {
    hide *;
    CharsConcat2(data, ys);
    SymbolFirst(witver, data + ys);
    SymbolFirst(witver, data);
    CharsConcat2([witver], data + ys);
    OneChar(witver);
    assert ([witver] + data) + ys == [witver] + (data + ys);
    ResidueIs(hrp, ([witver] + data) + ys);
    KnownAnswer(hrp, [witver] + data, ys, enc);
  }

  lemma SymbolFirst(witver: byte, s: seq<byte>)
    requires witver < 32 && AllBelow(s, 32)
    ensures AllBelow([witver] + s, 32)
  {
  }

  lemma OneChar(v: byte)
    requires v < 32
    ensures Chars([v]) == [CHARSET[v]]
  {
  }

  lemma ResidueIs(hrp: seq<byte>, vs: seq<byte>)
    ensures Residue(hrp, vs) == Absorb(1, HrpExpand(hrp) + vs)
  {
  }

  lemma AddressStart0()
    ensures Ascii("bc1q") == Ascii("bc") + [SEPARATOR] + [CHARSET[0]]
  {
  }

  lemma AddressStart1()
    ensures Ascii("bc1p") == Ascii("bc") + [SEPARATOR] + [CHARSET[1]]
  {
  }

  lemma Joined(a: seq<byte>, b: seq<byte>, c: seq<byte>, d: seq<byte>)
    ensures a + b + (c + d) == (a + b + c) + d
  {
  }

  lemma HrpWordsBc()
    ensures HrpExpand(Ascii("bc")) == [3, 3, 0, 2, 3]
  {
  }

  lemma ExpandedBc()
    ensures Absorb(1, HrpExpand(Ascii("bc"))) == 0x02318043
  {
    HrpWordsBc();
    hide Absorb, HrpExpand;
    EmptyAbsorb1();
    var s: seq<byte> := [];
    Absorb5(0x00000001, 3, 3, 0, 2, 3, 0x02318043);
    AbsorbConcat(1, s, [3, 3, 0, 2, 3]);
    s := s + [3, 3, 0, 2, 3];
    assert s == [3, 3, 0, 2, 3];
  }

  lemma FirstSymbol(r: bv32, witver: byte, x: bv32)
    requires Xor(PolymodStep(r), Word(witver)) == x
    ensures Absorb(r, [witver]) == x
  {
    hide PolymodStep, Xor, Word;
    assert Absorb(r, []) == r;
    Absorb1(r, [], r, witver, x);
    assert [] + [witver] == [witver];
  }

  lemma ReadLength(x: bv32, s: seq<byte>, n: nat, r: bv32, v: nat, text: string)
    requires Read(x, s, n, r, v, text)
    ensures |s| == n
  {
    hide Absorb, Value;
  }

  lemma KeyHashAddressPart0(s: seq<byte>, text: string) returns (t: seq<byte>)
    requires Read(0x3d5a5fd2, s, 0, 0x3d5a5fd2, 0x0, text)
    ensures Read(0x3d5a5fd2, t, 5, 0x10ba6f47, 0x1017bda, text + "sz776")
    ensures t == s + [16, 2, 30, 30, 26]
  {
    hide Read, Absorb, Value, Chars, Ascii, AllBelow;
    t := s;
    Read5(0x3d5a5fd2, t, 0, 0x3d5a5fd2, 0x0, text, 16, 2, 30, 30, 26,
          0x10ba6f47, 0x1017bda, "sz776");
    t := t + [16, 2, 30, 30, 26];
    assert text + "sz776" == text + "sz776";
  }

  lemma KeyHashAddressPart1(s: seq<byte>, text: string) returns (t: seq<byte>)
    requires Read(0x3d5a5fd2, s, 5, 0x10ba6f47, 0x1017bda, text)
    ensures Read(0x3d5a5fd2, t, 15, 0x31c47b4a, 0x405ef69bf1fc350d2a3, text + "dlrlp4p54r")
    ensures t == s + [13, 31, 3, 31, 1, 21, 1, 20, 21, 3]
  {
    hide Read, Absorb, Value, Chars, Ascii, AllBelow;
    t := s;
    Read5(0x3d5a5fd2, t, 5, 0x10ba6f47, 0x1017bda, text, 13, 31, 3, 31, 1,
          0x39e4314a, 0x202f7b4df8fe1, "dlrlp");
    t := t + [13, 31, 3, 31, 1];
    Read5(0x3d5a5fd2, t, 10, 0x39e4314a, 0x202f7b4df8fe1, text + "dlrlp", 21, 1, 20, 21, 3,
          0x31c47b4a, 0x405ef69bf1fc350d2a3, "4p54r");
    t := t + [21, 1, 20, 21, 3];
    assert text + "dlrlp" + "4p54r" == text + "dlrlp4p54r";
  }

  lemma KeyHashAddressPart2(s: seq<byte>, text: string) returns (t: seq<byte>)
    requires Read(0x3d5a5fd2, s, 15, 0x31c47b4a, 0x405ef69bf1fc350d2a3, text)
    ensures Read(0x3d5a5fd2, t, 20, 0x1dc2cae2, 0x80bded37e3f86a1a546e099b1, text + "wpxd3")
    ensures t == s + [14, 1, 6, 13, 17]
  {
    hide Read, Absorb, Value, Chars, Ascii, AllBelow;
    t := s;
    Read5(0x3d5a5fd2, t, 15, 0x31c47b4a, 0x405ef69bf1fc350d2a3, text, 14, 1, 6, 13, 17,
          0x1dc2cae2, 0x80bded37e3f86a1a546e099b1, "wpxd3");
    t := t + [14, 1, 6, 13, 17];
    assert text + "wpxd3" == text + "wpxd3";
  }

  lemma KeyHashAddressPart3(s: seq<byte>, text: string) returns (t: seq<byte>)
    requires Read(0x3d5a5fd2, s, 20, 0x1dc2cae2, 0x80bded37e3f86a1a546e099b1, text)
    ensures Read(0x3d5a5fd2, t, 30, 0x38938ac7, 0x202f7b4df8fe1a86951b8266c578ac0a1574e1, text + "tc4s9p2a8p")
    ensures t == s + [11, 24, 21, 16, 5, 1, 10, 29, 7, 1]
  {
    hide Read, Absorb, Value, Chars, Ascii, AllBelow;
    t := s;
    Read5(0x3d5a5fd2, t, 20, 0x1dc2cae2, 0x80bded37e3f86a1a546e099b1, text, 11, 24, 21, 16, 5,
          0x18c4a088, 0x1017bda6fc7f0d434a8dc13362bc5605, "tc4s9");
    t := t + [11, 24, 21, 16, 5];
    Read5(0x3d5a5fd2, t, 25, 0x18c4a088, 0x1017bda6fc7f0d434a8dc13362bc5605, text + "tc4s9", 1, 10, 29, 7, 1,
          0x38938ac7, 0x202f7b4df8fe1a86951b8266c578ac0a1574e1, "p2a8p");
    t := t + [1, 10, 29, 7, 1];
    assert text + "tc4s9" + "p2a8p" == text + "tc4s9p2a8p";
  }

  lemma KeyHashAddressPart4(s: seq<byte>, text: string) returns (t: seq<byte>)
    requires Read(0x3d5a5fd2, s, 30, 0x38938ac7, 0x202f7b4df8fe1a86951b8266c578ac0a1574e1, text)
    ensures Read(0x3d5a5fd2, t, 38, 0x00000001, 0x202f7b4df8fe1a86951b8266c578ac0a1574e10f319231b8, text + "puceyvdc")
    ensures t == s + [1, 28, 24, 25, 4, 12, 13, 24]
  {
    hide Read, Absorb, Value, Chars, Ascii, AllBelow;
    t := s;
    Read5(0x3d5a5fd2, t, 30, 0x38938ac7, 0x202f7b4df8fe1a86951b8266c578ac0a1574e1, text, 1, 28, 24, 25, 4,
          0x0393a5b4, 0x405ef69bf1fc350d2a3704cd8af158142ae9c21e6324, "pucey");
    t := t + [1, 28, 24, 25, 4];
    Read1(0x3d5a5fd2, t, 35, 0x0393a5b4, 0x405ef69bf1fc350d2a3704cd8af158142ae9c21e6324, text + "pucey", 12,
          0x091ee13e, 0x80bded37e3f86a1a546e099b15e2b02855d3843cc648c, 'v');
    t := t + [12];
    Read1(0x3d5a5fd2, t, 36, 0x091ee13e, 0x80bded37e3f86a1a546e099b15e2b02855d3843cc648c, text + "pucey" + "v", 13,
          0x3d7d3e37, 0x1017bda6fc7f0d434a8dc13362bc56050aba708798c918d, 'd');
    t := t + [13];
    Read1(0x3d5a5fd2, t, 37, 0x3d7d3e37, 0x1017bda6fc7f0d434a8dc13362bc56050aba708798c918d, text + "pucey" +
          "v" + "d", 24,
          0x00000001, 0x202f7b4df8fe1a86951b8266c578ac0a1574e10f319231b8, 'c');
    t := t + [24];
    assert text + "pucey" + "v" + "d" + "c" == text + "puceyvdc";
  }

  /** A P2WPKH address. */
  lemma KeyHashAddress()
    ensures SegwitEncode(Ascii("bc"), 0, DigitsOf(0x80bded37e3f86a1a546e099b15e2b02855d3843c, 256, 20))
         == Some(Ascii("bc1q") + Ascii("sz776" + "dlrlp4p54r" + "wpxd3" + "tc4s9p2a8p" + "puceyvdc"))
  {
    hide Read, Absorb, HrpExpand, Value, DigitsOf, Pow, P2, Fill, SegwitEncode, FinalConstant;
    PlainHrp("bc");
    ExpandedBc();
    ReadNothing(0x3d5a5fd2);
    var text := "";
    var s: seq<byte> := [];
    s := KeyHashAddressPart0(s, text);
    text := text + "sz776";
    s := KeyHashAddressPart1(s, text);
    text := text + "dlrlp4p54r";
    s := KeyHashAddressPart2(s, text);
    text := text + "wpxd3";
    s := KeyHashAddressPart3(s, text);
    text := text + "tc4s9p2a8p";
    s := KeyHashAddressPart4(s, text);
    text := text + "puceyvdc";
    assert text == "sz776" + "dlrlp4p54r" + "wpxd3" + "tc4s9p2a8p" + "puceyvdc";
    ProgramValue(0x80bded37e3f86a1a546e099b15e2b02855d3843c, 20);
    FillValues();
    FirstSymbol(0x02318043, 0, 0x3d5a5fd2);
    KeyHashAddressEnds();
    ReadLength(0x3d5a5fd2, s, 38, 0x00000001, 0x202f7b4df8fe1a86951b8266c578ac0a1574e10f319231b8, text);
    AddressAnswer(Ascii("bc"), 0, DigitsOf(0x80bded37e3f86a1a546e099b15e2b02855d3843c, 256, 20), s, Bech32,
          0x02318043, 0x3d5a5fd2,
                  0x80bded37e3f86a1a546e099b15e2b02855d3843c, 0x319231b8, text);
    AddressStart0();
    Joined(Ascii("bc"), [SEPARATOR], [CHARSET[0]], Ascii(text));
  }

  lemma KeyHashAddressEnds()
    ensures FinalConstant(Bech32) == 0x00000001
    ensures 0x202f7b4df8fe1a86951b8266c578ac0a1574e10f319231b8
         == 0x80bded37e3f86a1a546e099b15e2b02855d3843c * 0x4000_0000 + 0x319231b8
    ensures 0x80bded37e3f86a1a546e099b15e2b02855d3843c
         == 0x80bded37e3f86a1a546e099b15e2b02855d3843c * 1
  {
  }

  lemma TaprootAddressPart0(s: seq<byte>, text: string) returns (t: seq<byte>)
    requires Read(0x3d5a5fd3, s, 0, 0x3d5a5fd3, 0x0, text)
    ensures Read(0x3d5a5fd3, t, 5, 0x13486851, 0xf37ccc, text + "0xlxv")
    ensures t == s + [15, 6, 31, 6, 12]
  {
    hide Read, Absorb, Value, Chars, Ascii, AllBelow;
    t := s;
    Read5(0x3d5a5fd3, t, 0, 0x3d5a5fd3, 0x0, text, 15, 6, 31, 6, 12,
          0x13486851, 0xf37ccc, "0xlxv");
    t := t + [15, 6, 31, 6, 12];
    assert text + "0xlxv" == text + "0xlxv";
  }

  lemma TaprootAddressPart1(s: seq<byte>, text: string) returns (t: seq<byte>)
    requires Read(0x3d5a5fd3, s, 5, 0x13486851, 0xf37ccc, text)
    ensures Read(0x3d5a5fd3, t, 15, 0x3ae73ed1, 0x3cdf333f7cee5dd62ad, text + "lhemja6c4d")
    ensures t == s + [31, 23, 25, 27, 18, 29, 26, 24, 21, 13]
  {
    hide Read, Absorb, Value, Chars, Ascii, AllBelow;
    t := s;
    Read5(0x3d5a5fd3, t, 5, 0x13486851, 0xf37ccc, text, 31, 23, 25, 27, 18,
          0x0242565d, 0x1e6f999fbe772, "lhemj");
    t := t + [31, 23, 25, 27, 18];
    Read5(0x3d5a5fd3, t, 10, 0x0242565d, 0x1e6f999fbe772, text + "lhemj", 29, 26, 24, 21, 13,
          0x3ae73ed1, 0x3cdf333f7cee5dd62ad, "a6c4d");
    t := t + [29, 26, 24, 21, 13];
    assert text + "lhemj" + "a6c4d" == text + "lhemja6c4d";
  }

  lemma TaprootAddressPart2(s: seq<byte>, text: string) returns (t: seq<byte>)
    requires Read(0x3d5a5fd3, s, 15, 0x3ae73ed1, 0x3cdf333f7cee5dd62ad, text)
    ensures Read(0x3d5a5fd3, t, 20, 0x28a11127, 0x79be667ef9dcbbac55a06295c, text + "qv22u")
    ensures t == s + [0, 12, 10, 10, 28]
  {
    hide Read, Absorb, Value, Chars, Ascii, AllBelow;
    t := s;
    Read5(0x3d5a5fd3, t, 15, 0x3ae73ed1, 0x3cdf333f7cee5dd62ad, text, 0, 12, 10, 10, 28,
          0x28a11127, 0x79be667ef9dcbbac55a06295c, "qv22u");
    t := t + [0, 12, 10, 10, 28];
    assert text + "qv22u" == text + "qv22u";
  }

  lemma TaprootAddressPart3(s: seq<byte>, text: string) returns (t: seq<byte>)
    requires Read(0x3d5a5fd3, s, 20, 0x28a11127, 0x79be667ef9dcbbac55a06295c, text)
    ensures Read(0x3d5a5fd3, t, 30, 0x1e901646, 0x1e6f999fbe772eeb156818a573a1c2c1c0a6ff, text + "apctqupfhl")
    ensures t == s + [29, 1, 24, 11, 0, 28, 1, 9, 23, 31]
  {
    hide Read, Absorb, Value, Chars, Ascii, AllBelow;
    t := s;
    Read5(0x3d5a5fd3, t, 20, 0x28a11127, 0x79be667ef9dcbbac55a06295c, text, 29, 1, 24, 11, 0,
          0x32321393, 0xf37cccfdf3b97758ab40c52b9d0e160, "apctq");
    t := t + [29, 1, 24, 11, 0];
    Read5(0x3d5a5fd3, t, 25, 0x32321393, 0xf37cccfdf3b97758ab40c52b9d0e160, text + "apctq", 28, 1, 9, 23, 31,
          0x1e901646, 0x1e6f999fbe772eeb156818a573a1c2c1c0a6ff, "upfhl");
    t := t + [28, 1, 9, 23, 31];
    assert text + "apctq" + "upfhl" == text + "apctqupfhl";
  }

  lemma TaprootAddressPart4(s: seq<byte>, text: string) returns (t: seq<byte>)
    requires Read(0x3d5a5fd3, s, 30, 0x1e901646, 0x1e6f999fbe772eeb156818a573a1c2c1c0a6ff, text)
    ensures Read(0x3d5a5fd3, t, 40, 0x0a95576c, 0x79be667ef9dcbbac55a06295ce870b07029bfcdb2dce28d959, text +
          "xm9h8z3k2e")
    ensures t == s + [6, 27, 5, 23, 7, 2, 17, 22, 10, 25]
  {
    hide Read, Absorb, Value, Chars, Ascii, AllBelow;
    t := s;
    Read5(0x3d5a5fd3, t, 30, 0x1e901646, 0x1e6f999fbe772eeb156818a573a1c2c1c0a6ff, text, 6, 27, 5, 23, 7,
          0x3680a496, 0x3cdf333f7cee5dd62ad0314ae7438583814dfe6d96e7, "xm9h8");
    t := t + [6, 27, 5, 23, 7];
    Read5(0x3d5a5fd3, t, 35, 0x3680a496, 0x3cdf333f7cee5dd62ad0314ae7438583814dfe6d96e7, text + "xm9h8", 2, 17, 22,
          10, 25,
          0x0a95576c, 0x79be667ef9dcbbac55a06295ce870b07029bfcdb2dce28d959, "z3k2e");
    t := t + [2, 17, 22, 10, 25];
    assert text + "xm9h8" + "z3k2e" == text + "xm9h8z3k2e";
  }

  lemma TaprootAddressPart5(s: seq<byte>, text: string) returns (t: seq<byte>)
    requires Read(0x3d5a5fd3, s, 40, 0x0a95576c, 0x79be667ef9dcbbac55a06295ce870b07029bfcdb2dce28d959, text)
    ensures Read(0x3d5a5fd3, t, 50, 0x12fff0fd, 0x1e6f999fbe772eeb156818a573a1c2c1c0a6ff36cb738a36567ca056c5be05e,
          text + "72q4k9hcz7")
    ensures t == s + [30, 10, 0, 21, 22, 5, 23, 24, 2, 30]
  {
    hide Read, Absorb, Value, Chars, Ascii, AllBelow;
    t := s;
    Read5(0x3d5a5fd3, t, 40, 0x0a95576c, 0x79be667ef9dcbbac55a06295ce870b07029bfcdb2dce28d959, text, 30, 10, 0, 21,
          22,
          0x039d96df, 0xf37cccfdf3b97758ab40c52b9d0e160e0537f9b65b9c51b2b3e502b6, "72q4k");
    t := t + [30, 10, 0, 21, 22];
    Read5(0x3d5a5fd3, t, 45, 0x039d96df, 0xf37cccfdf3b97758ab40c52b9d0e160e0537f9b65b9c51b2b3e502b6, text +
          "72q4k", 5, 23, 24, 2, 30,
          0x12fff0fd, 0x1e6f999fbe772eeb156818a573a1c2c1c0a6ff36cb738a36567ca056c5be05e, "9hcz7");
    t := t + [5, 23, 24, 2, 30];
    assert text + "72q4k" + "9hcz7" == text + "72q4k9hcz7";
  }

  lemma TaprootAddressPart6(s: seq<byte>, text: string) returns (t: seq<byte>)
    requires Read(0x3d5a5fd3, s, 50, 0x12fff0fd, 0x1e6f999fbe772eeb156818a573a1c2c1c0a6ff36cb738a36567ca056c5be05e,
          text)
    ensures Read(0x3d5a5fd3, t, 58, 0x2bc830a3,
          0x1e6f999fbe772eeb156818a573a1c2c1c0a6ff36cb738a36567ca056c5be05e60056a4a4f, text + "vqzk5jj0")
    ensures t == s + [12, 0, 2, 22, 20, 18, 18, 15]
  {
    hide Read, Absorb, Value, Chars, Ascii, AllBelow;
    t := s;
    Read5(0x3d5a5fd3, t, 50, 0x12fff0fd, 0x1e6f999fbe772eeb156818a573a1c2c1c0a6ff36cb738a36567ca056c5be05e, text,
          12, 0, 2, 22, 20,
          0x3f921ee9, 0x3cdf333f7cee5dd62ad0314ae7438583814dfe6d96e7146cacf940ad8b7c0bcc00ad4, "vqzk5");
    t := t + [12, 0, 2, 22, 20];
    Read1(0x3d5a5fd3, t, 55, 0x3f921ee9, 0x3cdf333f7cee5dd62ad0314ae7438583814dfe6d96e7146cacf940ad8b7c0bcc00ad4,
          text + "vqzk5", 18,
          0x268e4c79, 0x79be667ef9dcbbac55a06295ce870b07029bfcdb2dce28d959f2815b16f81798015a92, 'j');
    t := t + [18];
    Read1(0x3d5a5fd3, t, 56, 0x268e4c79, 0x79be667ef9dcbbac55a06295ce870b07029bfcdb2dce28d959f2815b16f81798015a92,
          text + "vqzk5" + "j", 18,
          0x26e7345e, 0xf37cccfdf3b97758ab40c52b9d0e160e0537f9b65b9c51b2b3e502b62df02f3002b5252, 'j');
    t := t + [18];
    Read1(0x3d5a5fd3, t, 57, 0x26e7345e, 0xf37cccfdf3b97758ab40c52b9d0e160e0537f9b65b9c51b2b3e502b62df02f3002b5252,
          text + "vqzk5" + "j" + "j", 15,
          0x2bc830a3, 0x1e6f999fbe772eeb156818a573a1c2c1c0a6ff36cb738a36567ca056c5be05e60056a4a4f, '0');
    t := t + [15];
    assert text + "vqzk5" + "j" + "j" + "0" == text + "vqzk5jj0";
  }

  /** A P2TR address. */
  lemma TaprootAddress()
    ensures SegwitEncode(Ascii("bc"), 1,
          DigitsOf(0x79be667ef9dcbbac55a06295ce870b07029bfcdb2dce28d959f2815b16f81798, 256, 32))
         == Some(Ascii("bc1p") + Ascii("0xlxv" + "lhemja6c4d" + "qv22u" + "apctqupfhl" + "xm9h8z3k2e" +
               "72q4k9hcz7" + "vqzk5jj0"))
  {
    hide Read, Absorb, HrpExpand, Value, DigitsOf, Pow, P2, Fill, SegwitEncode, FinalConstant;
    PlainHrp("bc");
    ExpandedBc();
    ReadNothing(0x3d5a5fd3);
    var text := "";
    var s: seq<byte> := [];
    s := TaprootAddressPart0(s, text);
    text := text + "0xlxv";
    s := TaprootAddressPart1(s, text);
    text := text + "lhemja6c4d";
    s := TaprootAddressPart2(s, text);
    text := text + "qv22u";
    s := TaprootAddressPart3(s, text);
    text := text + "apctqupfhl";
    s := TaprootAddressPart4(s, text);
    text := text + "xm9h8z3k2e";
    s := TaprootAddressPart5(s, text);
    text := text + "72q4k9hcz7";
    s := TaprootAddressPart6(s, text);
    text := text + "vqzk5jj0";
    assert text == "0xlxv" + "lhemja6c4d" + "qv22u" + "apctqupfhl" + "xm9h8z3k2e" + "72q4k9hcz7" + "vqzk5jj0";
    ProgramValue(0x79be667ef9dcbbac55a06295ce870b07029bfcdb2dce28d959f2815b16f81798, 32);
    FillValues();
    FirstSymbol(0x02318043, 1, 0x3d5a5fd3);
    TaprootAddressEnds();
    ReadLength(0x3d5a5fd3, s, 58, 0x2bc830a3,
          0x1e6f999fbe772eeb156818a573a1c2c1c0a6ff36cb738a36567ca056c5be05e60056a4a4f, text);
    AddressAnswer(Ascii("bc"), 1, DigitsOf(0x79be667ef9dcbbac55a06295ce870b07029bfcdb2dce28d959f2815b16f81798, 256,
          32), s, Bech32m, 0x02318043, 0x3d5a5fd3,
                  0x79be667ef9dcbbac55a06295ce870b07029bfcdb2dce28d959f2815b16f817980, 0x56a4a4f, text);
    AddressStart1();
    Joined(Ascii("bc"), [SEPARATOR], [CHARSET[1]], Ascii(text));
  }

  lemma TaprootAddressEnds()
    ensures FinalConstant(Bech32m) == 0x2bc830a3
    ensures 0x1e6f999fbe772eeb156818a573a1c2c1c0a6ff36cb738a36567ca056c5be05e60056a4a4f
         == 0x79be667ef9dcbbac55a06295ce870b07029bfcdb2dce28d959f2815b16f817980 * 0x4000_0000 + 0x56a4a4f
    ensures 0x79be667ef9dcbbac55a06295ce870b07029bfcdb2dce28d959f2815b16f817980
         == 0x79be667ef9dcbbac55a06295ce870b07029bfcdb2dce28d959f2815b16f81798 * 16
  {
  }

}
