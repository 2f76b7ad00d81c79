/** segwit_addr_encode and segwit_addr_decode of segwit_addr.c. */
module SegwitAddr {
  import opened Wrappers
  import opened Bytes
  import opened Digits
  import opened Bech32
  import opened BitRegroup

  /** strncmp(a, b, 84) == 0. */
  predicate SameFirst84(a: cstring, b: seq<byte>) {
    (if |a| > 84 then a[..84] else a) == (if |b| > 84 then b[..84] else b)
  }

  function EncodingForVersion(witver: int): Encoding {
    if witver > 0 then Bech32m else Bech32
  }

  /** The data part: the version narrowed to a byte, then the regrouped program. */
  function DataPart(witver: int, witprog: seq<byte>): seq<nat> {
    [witver % 256] + Regroup(witprog, 8, 5, true).value
  }

  lemma DataPartShape(witver: int, witprog: seq<byte>)
    ensures |DataPart(witver, witprog)| == (|witprog| * 8 + 4) / 5 + 1
    ensures AllBelow(DataPart(witver, witprog), 256)
    ensures AllBelow(DataPart(witver, witprog)[1..], 32)
  {
    hide P2, Pow, Value, DigitsOf;
    P2Values();
    var s := Regroup(witprog, 8, 5, true).value;
    assert DataPart(witver, witprog)[1..] == s;
    var total := |witprog| * 8;
    assert |s| == total / 5 + if total % 5 > 0 then 1 else 0;
  }

  lemma PaddingAlwaysPossible(witprog: seq<byte>)
    ensures Regroup(witprog, 8, 5, true).Some?
  {
  }

  predicate ProgramLengthOk(witver: int, n: nat) {
    2 <= n <= 40 && (witver == 0 ==> n == 20 || n == 32)
  }

  function SegwitEncode(hrp: cstring, witver: int, witprog: seq<byte>): Option<seq<byte>> {
    if witver > 16 || !ProgramLengthOk(witver, |witprog|) then None
    else
      DataPartShape(witver, witprog);
      Encode(hrp, DataPart(witver, witprog), EncodingForVersion(witver))
  }

  datatype Program = Program(witver: int, witprog: seq<byte>)

  function SegwitDecode(hrp: cstring, addr: cstring): Option<Program> {
    match Decode(addr)
    case None => None
    case Some(d) =>
      if |d.data| == 0 || |d.data| > 65 || !SameFirst84(hrp, d.hrp) then None
      else if d.data[0] > 16 || d.enc != EncodingForVersion(d.data[0]) then None
      else match Regroup(d.data[1..], 5, 8, false)
           case None => None
           case Some(prog) =>
             P2Values();
             if !ProgramLengthOk(d.data[0], |prog|) then None else Some(Program(d.data[0], prog))
  }

  lemma DecodedHrpShort(addr: cstring)
    requires Decode(addr).Some?
    ensures |Decode(addr).value.hrp| < 84 && AllBelow(Decode(addr).value.data, 32)
  {
    hide Regroup;
    EncodeOfDecode(addr);
  }

  /** The comparison of the human-readable parts is equality: the decoded one is short. */
  lemma SameHrp(hrp: cstring, addr: cstring)
    requires Decode(addr).Some?
    ensures SameFirst84(hrp, Decode(addr).value.hrp) <==> hrp == Decode(addr).value.hrp
  {
    hide Decode;
    DecodedHrpShort(addr);
  }

  /** Round trip. Whenever an address is produced, decoding it with the same
      human-readable part gives back the version and program exactly when that part is
      not empty and the version is not negative. (The decoder refuses an empty part; a
      negative version is narrowed to a byte before it is written.) */
  lemma DecodeOfSegwitEncode(hrp: cstring, witver: int, witprog: seq<byte>)
    requires SegwitEncode(hrp, witver, witprog).Some?
    ensures var t := SegwitEncode(hrp, witver, witprog).value;
            (forall i :: 0 <= i < |t| ==> t[i] != 0) &&
            (SegwitDecode(hrp, t) == Some(Program(witver, witprog)) <==> hrp != [] && witver >= 0)
  {
    hide Decode, Encode, P2, Pow, Value, DigitsOf, Regroup;
    P2Values();
    var data, enc := DataPart(witver, witprog), EncodingForVersion(witver);
    DataPartShape(witver, witprog);
    DecodeOfEncode(hrp, data, enc);
    var t := SegwitEncode(hrp, witver, witprog).value;
    if hrp != [] {
      SameHrp(hrp, t);
      UnpadAfterPad(witprog);
      PaddingAlwaysPossible(witprog);
      assert data[1..] == Regroup(witprog, 8, 5, true).value;
    }
  }

  /** What the encoder accepts. */
  lemma SegwitEncodeExact(hrp: cstring, witver: int, witprog: seq<byte>)
    ensures SegwitEncode(hrp, witver, witprog).Some? <==>
              witver <= 16 && witver % 256 < 32 &&
              2 <= |witprog| <= 40 && (witver == 0 ==> |witprog| == 20 || |witprog| == 32) &&
              |hrp| + 8 + (|witprog| * 8 + 4) / 5 <= 90 &&
              forall i :: 0 <= i < |hrp| ==> 33 <= hrp[i] <= 126 && !(65 <= hrp[i] <= 90)
  {
    EncodableExact(hrp);
    LengthExact(witver, |witprog|);
    hide Regroup, IsEncodableHrp, IsHrpChar, IsUpper, Chars, Checksum, ProgramLengthOk;
    if witver <= 16 && ProgramLengthOk(witver, |witprog|) {
      DataPartShape(witver, witprog);
      var data := DataPart(witver, witprog);
      assert data == [witver % 256] + data[1..];
      EncodeExact(hrp, data, EncodingForVersion(witver));
      FirstBelow(data, 32);
    }
  }

  lemma LengthExact(witver: int, n: nat)
    ensures ProgramLengthOk(witver, n) <==> 2 <= n <= 40 && (witver == 0 ==> n == 20 || n == 32)
  {
  }

  lemma FirstBelow(data: seq<nat>, base: nat)
    requires |data| > 0 && AllBelow(data[1..], base)
    ensures AllBelow(data, base) <==> data[0] < base
  {
    assert forall i :: 0 < i < |data| ==> data[i] == data[1..][i - 1];
  }

  /** An address with an empty human-readable part is written and cannot be read. */
  lemma EmptyPrefixLost(witprog: seq<byte>)
    requires |witprog| == 20
    ensures exists t: cstring :: SegwitEncode([], 0, witprog) == Some(t) &&
                                 SegwitDecode([], t) != Some(Program(0, witprog))
  {
    SegwitEncodeExact([], 0, witprog);
    DecodeOfSegwitEncode([], 0, witprog);
    hide SegwitEncode, SegwitDecode;
    var t: cstring := SegwitEncode([], 0, witprog).value;
    assert SegwitDecode([], t) != Some(Program(0, witprog));
  }

  /** The version -256 is written, as version 0. */
  lemma NegativeVersionIsZero(hrp: cstring, witprog: seq<byte>)
    requires |witprog| == 20
    ensures SegwitEncode(hrp, -256, witprog) == SegwitEncode(hrp, 0, witprog)
    ensures IsEncodableHrp(hrp) && |hrp| <= 50 ==> SegwitEncode(hrp, -256, witprog).Some?
  {
    SegwitEncodeExact(hrp, -256, witprog);
    hide Encode, Regroup;
    assert DataPart(-256, witprog) == DataPart(0, witprog);
  }

  /** Canonicity. Every accepted address is, up to letter case, the encoding of what it
      decodes to. */
  lemma SegwitEncodeOfDecode(hrp: cstring, addr: cstring)
    requires SegwitDecode(hrp, addr).Some?
    ensures var p := SegwitDecode(hrp, addr).value;
            SegwitEncode(hrp, p.witver, p.witprog) == Some(LowerAll(addr))
  {
    hide Decode, Encode, P2, Pow, Value, DigitsOf, Regroup, LowerAll;
    P2Values();
    var d := Decode(addr).value;
    EncodeOfDecode(addr);
    SameHrp(hrp, addr);
    DecodedHrpShort(addr);
    PadAfterUnpad(d.data[1..]);
    assert d.data == [d.data[0]] + d.data[1..];
    var p := SegwitDecode(hrp, addr).value;
    assert DataPart(p.witver, p.witprog) == d.data;
  }

  /** An address starts with its version, and is a Bech32m text exactly from version 1 on. */
  lemma SegwitVariant(hrp: cstring, witver: int, witprog: seq<byte>)
    requires SegwitEncode(hrp, witver, witprog).Some? && hrp != []
    ensures exists t: cstring, d :: SegwitEncode(hrp, witver, witprog) == Some(t) && Decode(t) == Some(d) &&
              d.hrp == hrp && |d.data| > 0 && d.data[0] == witver % 256 && (d.enc == Bech32m <==> witver >= 1)
  {
    DataPartShape(witver, witprog);
    var data, enc := DataPart(witver, witprog), EncodingForVersion(witver);
    hide Decode, Encode, Regroup;
    DecodeOfEncode(hrp, data, enc);
    var t: cstring := SegwitEncode(hrp, witver, witprog).value;
    assert Decode(t) == Some(Decoded(enc, hrp, data));
  }

  /** Exactly the encodings under the given human-readable part are accepted, in either case. */
  lemma SegwitDecodeExact(hrp: cstring, addr: cstring)
    ensures SegwitDecode(hrp, addr).Some? <==>
              hrp != [] && !Mixed(addr) &&
              exists witver: nat, prog :: SegwitEncode(hrp, witver, prog) == Some(LowerAll(addr))
  {
    LowerPlain(addr);
    var t: cstring := LowerAll(addr);
    DecodeLower(addr, t);
    hide Decode, Encode, LowerAll, Mixed, Regroup;
    if SegwitDecode(hrp, addr).Some? {
      DecodeExact(addr);
      EncodeOfDecode(addr);
      SameHrp(hrp, addr);
      SegwitEncodeOfDecode(hrp, addr);
      var p := SegwitDecode(hrp, addr).value;
      assert SegwitEncode(hrp, p.witver, p.witprog) == Some(t);
    }
    if witver: nat, prog :| SegwitEncode(hrp, witver, prog) == Some(t) {
      DecodeOfSegwitEncode(hrp, witver, prog);
      hide SegwitEncode;
    }
  }

  /** So two addresses accepted with one human-readable part for the same version and
      program are the same address up to letter case. */
  lemma SegwitAddressUnique(hrp: cstring, a: cstring, b: cstring)
    requires SegwitDecode(hrp, a).Some? && SegwitDecode(hrp, a) == SegwitDecode(hrp, b)
    ensures LowerAll(a) == LowerAll(b)
  {
    hide SegwitDecode, SegwitEncode, LowerAll;
    SegwitEncodeOfDecode(hrp, a);
    SegwitEncodeOfDecode(hrp, b);
  }

  /** No accepted address turns into another accepted address of the same kind (version
      zero or not) by changing, other than in case, only characters inside one window
      of six characters of its data part. */
  lemma SegwitBurstRejected(hrp: cstring, a: cstring, b: cstring, p: nat, q: nat)
    requires SegwitDecode(hrp, a).Some? && SegwitDecode(hrp, b).Some? && |a| == |b|
    requires SegwitDecode(hrp, a).value.witver > 0 <==> SegwitDecode(hrp, b).value.witver > 0
    requires |a| - TailLength(a) <= p <= q <= |a| && q <= p + 6
    requires forall i :: 0 <= i < |a| && !(p <= i < q) ==> Lower(a[i]) == Lower(b[i])
    ensures LowerAll(a) == LowerAll(b)
  {
    hide Decode, TailLength, LowerAll, Lower, Regroup;
    SameHrp(hrp, a);
    SameHrp(hrp, b);
    BurstRejected(a, b, p, q);
  }

  /** Nor by changing, other than in case, any two characters of its data part. */
  lemma SegwitPairRejected(hrp: cstring, a: cstring, b: cstring, p: nat, q: nat)
    requires SegwitDecode(hrp, a).Some? && SegwitDecode(hrp, b).Some? && |a| == |b|
    requires SegwitDecode(hrp, a).value.witver > 0 <==> SegwitDecode(hrp, b).value.witver > 0
    requires |a| - TailLength(a) <= p < q < |a|
    requires forall i :: 0 <= i < |a| && i != p && i != q ==> Lower(a[i]) == Lower(b[i])
    ensures LowerAll(a) == LowerAll(b)
  {
    hide Decode, TailLength, LowerAll, Lower, Regroup;
    SameHrp(hrp, a);
    SameHrp(hrp, b);
    PairRejected(a, b, p, q);
  }

  /** Nor any three. */
  lemma SegwitTripleRejected(hrp: cstring, a: cstring, b: cstring, p: nat, q: nat, o: nat)
    requires SegwitDecode(hrp, a).Some? && SegwitDecode(hrp, b).Some? && |a| == |b|
    requires SegwitDecode(hrp, a).value.witver > 0 <==> SegwitDecode(hrp, b).value.witver > 0
    requires |a| - TailLength(a) <= p < q < o < |a|
    requires forall i :: 0 <= i < |a| && i != p && i != q && i != o ==> Lower(a[i]) == Lower(b[i])
    ensures LowerAll(a) == LowerAll(b)
  {
    hide Decode, TailLength, LowerAll, Lower, Regroup;
    SameHrp(hrp, a);
    SameHrp(hrp, b);
    TripleRejected(a, b, p, q, o);
  }

  /** segwit_addr_encode. */
  method SegwitAddrEncode(hrp: cstring, witver: int, witprog: seq<byte>) returns (ok: bool, output: seq<byte>)
    ensures ok == SegwitEncode(hrp, witver, witprog).Some?
    ensures ok ==> output == SegwitEncode(hrp, witver, witprog).value
  {
    hide P2, Pow, Value, Regroup, Encode, DigitsOf;
    P2Values();
    DataPartShape(witver, witprog);
    output := [];
    var enc := Bech32;
    if witver > 16 { return false, output; }
    if witver == 0 && |witprog| != 20 && |witprog| != 32 { return false, output; }
    if |witprog| < 2 || |witprog| > 40 { return false, output; }
    if witver > 0 { enc := Bech32m; }
    var _, symbols := ConvertBits(witprog, 5, 8, true);
    PaddingAlwaysPossible(witprog);
    var data := [witver % 256] + symbols;
    ok, output := Bech32Encode(hrp, data, enc);
  }

  /** segwit_addr_decode: None is the return value 0. */
  method SegwitAddrDecode(hrp: cstring, addr: cstring) returns (r: Option<Program>)
    ensures r == SegwitDecode(hrp, addr)
  {
    hide P2, Pow, Value, Regroup, Decode, DigitsOf;
    P2Values();
    var decoded := Bech32Decode(addr);
    if decoded.None? { return None; }
    DecodedHrpShort(addr);
    var enc, hrpActual, data := decoded.value.enc, decoded.value.hrp, decoded.value.data;
    if |data| == 0 || |data| > 65 { return None; }
    if !SameFirst84(hrp, hrpActual) { return None; }
    if data[0] > 16 { return None; }
    if data[0] == 0 && enc != Bech32 { return None; }
    if data[0] > 0 && enc != Bech32m { return None; }
    var ok, witdata := ConvertBits(data[1..], 8, 5, false);
    if !ok { return None; }
    if |witdata| < 2 || |witdata| > 40 { return None; }
    if data[0] == 0 && |witdata| != 20 && |witdata| != 32 { return None; }
    r := Some(Program(data[0], witdata));
  }
}
