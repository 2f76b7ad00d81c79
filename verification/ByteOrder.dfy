/** Byte and hexadecimal conversions of utils.c. */
module ByteOrder {
  import opened Bytes

  // ---- 32-byte values as eight words -----------------------------------------------------

  type Hash256 = s: seq<bv8> | |s| == 32 witness seq(32, i => 0)

  /** The eight words in the opposite order, each word's bytes as they were. */
  function ReverseWords(s: Hash256): Hash256 {
    seq(32, k requires 0 <= k < 32 => s[4 * (7 - k / 4) + k % 4])
  }

  /** Each word's bytes in the opposite order, the words where they were. */
  function SwapWords(s: Hash256): Hash256 {
    seq(32, k requires 0 <= k < 32 => s[4 * (k / 4) + (3 - k % 4)])
  }

  function ReverseBytes(s: Hash256): Hash256 {
    seq(32, k requires 0 <= k < 32 => s[31 - k])
  }

  /** Both reversals undo themselves, and together they reverse all 32 bytes. */
  lemma ReversalsUndo(s: Hash256)
    ensures ReverseWords(ReverseWords(s)) == s
    ensures SwapWords(SwapWords(s)) == s
    ensures ReverseWords(SwapWords(s)) == ReverseBytes(s) == SwapWords(ReverseWords(s))
  {
    WordsTwice(s);
    SwapTwice(s);
    SwapThenWords(s);
    WordsThenSwap(s);
    hide ReverseWords, SwapWords, ReverseBytes;
  }

  lemma WordsTwice(s: Hash256)
    ensures ReverseWords(ReverseWords(s)) == s
  {
  }

  lemma SwapTwice(s: Hash256)
    ensures SwapWords(SwapWords(s)) == s
  {
  }

  lemma SwapThenWords(s: Hash256)
    ensures ReverseWords(SwapWords(s)) == ReverseBytes(s)
  {
  }

  lemma WordsThenSwap(s: Hash256)
    ensures SwapWords(ReverseWords(s)) == ReverseBytes(s)
  {
  }

  lemma LastWordFirst(s: Hash256)
    ensures ReverseWords(s)[..4] == s[28..]
  {
  }

  /** Word i of the one is word 7 - i of the other. */
  lemma WordsReversed(s: Hash256, i: nat)
    requires i < 8
    ensures ReverseWords(s)[4 * i..4 * i + 4] == s[28 - 4 * i..32 - 4 * i]
  {
  }

  /** Word i of the one has the bytes of word i of the other, the last one first. */
  lemma WordsSwapped(s: Hash256, i: nat)
    requires i < 8
    ensures SwapWords(s)[4 * i..4 * i + 4] == [s[4 * i + 3], s[4 * i + 2], s[4 * i + 1], s[4 * i]]
  {
  }

  /** d[i] = s[j] for uint32_t pointers into src and dest. */
  method CopyWord(src: array<bv8>, from: nat, dest: array<bv8>, at: nat)
    requires src != dest && from + 4 <= src.Length && at + 4 <= dest.Length
    modifies dest
    ensures dest[..at + 4] == old(dest[..at]) + src[..][from..from + 4]
    ensures forall k :: at + 4 <= k < dest.Length ==> dest[k] == old(dest[k])
  {
    dest[at] := src[from];
    dest[at + 1] := src[from + 1];
    dest[at + 2] := src[from + 2];
    dest[at + 3] := src[from + 3];
  }

  lemma WordByWord(before: seq<bv8>, s: Hash256)
    ensures before + s[28..32] + s[24..28] + s[20..24] + s[16..20] + s[12..16] + s[8..12] + s[4..8] + s[0..4]
         == before + ReverseWords(s)
  {
  }

  /** reverse_32bit_words, writing at an offset of dest. The buffers must not overlap. */
  method Reverse32BitWords(src: array<bv8>, dest: array<bv8>, at: nat)
    requires src != dest && src.Length == 32 && at + 32 <= dest.Length
    modifies dest
    ensures dest[..at + 32] == old(dest[..at]) + ReverseWords(src[..])
    ensures dest[at + 32..] == old(dest[at + 32..])
  {
    ghost var s: Hash256 := src[..];
    WordByWord(dest[..at], s);
    hide ReverseWords;
    CopyWord(src, 28, dest, at);
    CopyWord(src, 24, dest, at + 4);
    CopyWord(src, 20, dest, at + 8);
    CopyWord(src, 16, dest, at + 12);
    CopyWord(src, 12, dest, at + 16);
    CopyWord(src, 8, dest, at + 20);
    CopyWord(src, 4, dest, at + 24);
    CopyWord(src, 0, dest, at + 28);
  }

  /** s with its first words swapped, up to a position. */
  ghost function SwappedTo(s: Hash256, at: nat): seq<bv8>
    requires at <= 32
  {
    SwapWords(s)[..at] + s[at..]
  }

  lemma SwapEnds(s: Hash256)
    ensures SwappedTo(s, 0) == s && SwappedTo(s, 32) == SwapWords(s)
  {
    hide SwapWords;
  }

  lemma SwapOne(s: Hash256, at: nat)
    requires at % 4 == 0 && at + 4 <= 32
    ensures SwappedTo(s, at + 4) == SwappedTo(s, at)[..at] + [s[at + 3], s[at + 2], s[at + 1], s[at]] + s[at + 4..]
  {
  }

  /** __builtin_bswap32 of the word at a position, the ones before it being swapped. */
  method SwapWord(data: array<bv8>, at: nat, ghost was: Hash256)
    requires at % 4 == 0 && at + 4 <= 32 == data.Length && data[..] == SwappedTo(was, at)
    modifies data
    ensures data[..] == SwappedTo(was, at + 4)
  {
    hide SwapWords;
    SwapOne(was, at);
    data[at], data[at + 1], data[at + 2], data[at + 3] := data[at + 3], data[at + 2], data[at + 1], data[at];
  }

  /** reverse_endianness_per_word. */
  method ReverseEndiannessPerWord(data: array<bv8>)
    requires data.Length == 32
    modifies data
    ensures data[..] == SwapWords(old(data[..]))
  {
    ghost var was: Hash256 := data[..];
    SwapEnds(was);
    hide SwapWords, SwappedTo;
    SwapWord(data, 0, was);
    SwapWord(data, 4, was);
    SwapWord(data, 8, was);
    SwapWord(data, 12, was);
    SwapWord(data, 16, was);
    SwapWord(data, 20, was);
    SwapWord(data, 24, was);
    SwapWord(data, 28, was);
  }

  // ---- hexadecimal -----------------------------------------------------------------------

  /** hex_val_table: every other character counts as zero. */
  function HexVal(c: byte): (v: bv8)
    ensures v < 16
  {
    if 48 <= c <= 57 then (c - 48) as bv8
    else if 97 <= c <= 102 then (c - 87) as bv8
    else if 65 <= c <= 70 then (c - 55) as bv8
    else 0
  }

  /** hex_table. */
  function HexChar(v: bv8): (c: byte)
    requires v < 16
    ensures c != 0
  {
    if v < 10 then v as nat + 48 else v as nat + 87
  }

  function Pair(high: bv8, low: bv8): bv8 {
    (high << 4) | low
  }

  /** The bytes a hexadecimal text stands for; a digit left over is a high one. */
  function HexBytes(hex: cstring): (bytes: seq<bv8>)
    ensures |bytes| == (|hex| + 1) / 2
  {
    if |hex| == 0 then []
    else if |hex| == 1 then [Pair(HexVal(hex[0]), 0)]
    else [Pair(HexVal(hex[0]), HexVal(hex[1]))] + HexBytes(hex[2..])
  }

  function HexText(bytes: seq<bv8>): (hex: cstring)
    ensures |hex| == 2 * |bytes|
  {
    if |bytes| == 0 then []
    else [HexChar(bytes[0] >> 4), HexChar(bytes[0] & 0x0F)] + HexText(bytes[1..])
  }

  lemma HexDigitBack(v: bv8)
    requires v < 16
    ensures HexVal(HexChar(v)) == v
  {
  }

  lemma NibblesBack(b: bv8)
    ensures b >> 4 < 16 && b & 0x0F < 16 && Pair(b >> 4, b & 0x0F) == b
  {
  }

  /** Digits are written in small letters and read in either case. */
  lemma HexAlphabet(v: bv8)
    requires v < 16
    ensures HexChar(v) == "0123456789abcdef"[v as nat] as nat
    ensures HexVal("0123456789abcdef"[v as nat] as nat) == HexVal("0123456789ABCDEF"[v as nat] as nat) == v
  {
  }

  /** Two digits are a byte, the first one counting sixteen. */
  lemma PairValue(high: bv8, low: bv8)
    requires high < 16 && low < 16
    ensures Pair(high, low) as nat == 16 * high as nat + low as nat
  {
  }

  /** Reading back what bin2hex wrote gives the bytes. */
  lemma {:induction false} HexRoundTrip(bytes: seq<bv8>)
    ensures HexBytes(HexText(bytes)) == bytes
  {
    if |bytes| != 0 {
      var hex := HexText(bytes);
      NibblesBack(bytes[0]);
      HexDigitBack(bytes[0] >> 4);
      HexDigitBack(bytes[0] & 0x0F);
      hide HexVal, HexChar, Pair;
      assert hex[2..] == HexText(bytes[1..]);
      HexRoundTrip(bytes[1..]);
    }
  }

  method WriteByte(b: bv8, hex: array<byte>, at: nat)
    requires at + 2 <= hex.Length
    modifies hex
    ensures b >> 4 < 16 && b & 0x0F < 16
    ensures hex[..at + 2] == old(hex[..at]) + [HexChar(b >> 4), HexChar(b & 0x0F)]
  {
    NibblesBack(b);
    hide HexChar;
    hex[at] := HexChar(b >> 4);
    hex[at + 1] := HexChar(b & 0x0F);
  }

  /** bin2hex: text and terminator, or nothing when the buffer is too short for both. */
  method Bin2Hex(buf: array<bv8>, bufLen: nat, hex: array<byte>, hexLen: nat) returns (written: nat)
    requires bufLen <= buf.Length && hexLen <= hex.Length && (hex as object) != buf
    modifies hex
    ensures written == if hexLen <= 2 * bufLen then 0 else 2 * bufLen
    ensures hexLen <= 2 * bufLen ==> hex[..] == old(hex[..])
    ensures hexLen > 2 * bufLen ==> hex[..2 * bufLen] == HexText(buf[..bufLen]) && hex[2 * bufLen] == 0
  {
    if hexLen <= bufLen * 2 {
      return 0;
    }
    hide HexChar, HexText;
    NoText();
    ghost var bytes := buf[..bufLen];
    for i: nat := 0 to bufLen
      invariant buf[..bufLen] == bytes
      invariant hex[..2 * i] == HexText(bytes[..i])
    {
      WriteByte(buf[i], hex, 2 * i);
      HexTextAppend(bytes[..i], bytes[i]);
      assert bytes[..i + 1] == bytes[..i] + [bytes[i]];
    }
    assert bytes[..bufLen] == bytes;
    hex[2 * bufLen] := 0;
    written := 2 * bufLen;
  }

  lemma NoText()
    ensures HexText([]) == []
  {
  }

  lemma {:induction false} HexTextAppend(bytes: seq<bv8>, b: bv8)
    requires b >> 4 < 16 && b & 0x0F < 16
    ensures HexText(bytes + [b]) == HexText(bytes) + [HexChar(b >> 4), HexChar(b & 0x0F)]
  {
    hide HexChar;
    if |bytes| != 0 {
      assert (bytes + [b])[1..] == bytes[1..] + [b];
      HexTextAppend(bytes[1..], b);
    }
  }

  /** hex2bin: as many bytes as the text gives and the buffer takes. */
  method Hex2Bin(hex: cstring, bin: array<bv8>, binLen: nat) returns (len: nat)
    requires binLen <= bin.Length
    modifies bin
    ensures len == if |HexBytes(hex)| < binLen then |HexBytes(hex)| else binLen
    ensures bin[..len] == HexBytes(hex)[..len] && bin[len..] == old(bin[len..])
  {
    hide HexVal, Pair, HexBytes;
    ghost var all := HexBytes(hex);
    len := 0;
    var rest := hex;
    while len < binLen && |rest| > 0
      invariant len <= binLen && len <= |all| && HexBytes(rest) == all[len..]
      invariant bin[..len] == all[..len]
      invariant forall k :: len <= k < bin.Length ==> bin[k] == old(bin[k])
      decreases |rest|
    {
      FirstByte(rest, all, len);
      AllUpTo(all, len);
      if |rest| == 1 {
        bin[len] := Pair(HexVal(rest[0]), 0);
        len := len + 1;
        assert bin[..len] == bin[..len - 1] + [bin[len - 1]];
        break;
      }
      bin[len] := Pair(HexVal(rest[0]), HexVal(rest[1]));
      len := len + 1;
      rest := rest[2..];
      assert bin[..len] == bin[..len - 1] + [bin[len - 1]];
    }
  }

  lemma AllUpTo(all: seq<bv8>, len: nat)
    requires len < |all|
    ensures all[..len + 1] == all[..len] + [all[len]]
  {
  }

  lemma FirstByte(rest: cstring, all: seq<bv8>, len: nat)
    requires len <= |all| && HexBytes(rest) == all[len..] && |rest| > 0
    ensures len < |all| && all[len] == Pair(HexVal(rest[0]), if |rest| == 1 then 0 else HexVal(rest[1]))
    ensures |rest| == 1 ==> len + 1 == |all|
    ensures |rest| > 1 ==> HexBytes(rest[2..]) == all[len + 1..]
  {
    hide HexVal, Pair;
    assert all[len] == HexBytes(rest)[0];
    assert all[len + 1..] == HexBytes(rest)[1..];
  }
}
