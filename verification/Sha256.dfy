/** The compression function of utils.c beside SHA-256 as FIPS 180-4 defines it, and the
    word reversals that prepare its inputs and outputs. */
module Sha256 {

  // ---- FIPS 180-4, section 4: functions and constants ----------------------------------

  /** sha256_rotr. */
  function Rotr(value: bv32, shift: bv6): bv32
    requires 0 < shift < 32
  {
    (value >> shift) | (value << (32 - shift))
  }

  /** Addition modulo 2^32, the sum of two uint32_t. */
  function Add(x: bv32, y: bv32): bv32 { x + y }

  function Xor(x: bv32, y: bv32): bv32 { x ^ y }

  function And(x: bv32, y: bv32): bv32 { x & y }

  function Not(x: bv32): bv32 { !x }

  function Ch(x: bv32, y: bv32, z: bv32): bv32 { Xor(And(x, y), And(Not(x), z)) }

  function Maj(x: bv32, y: bv32, z: bv32): bv32 { Xor(Xor(And(x, y), And(x, z)), And(y, z)) }

  function BigSigma0(x: bv32): bv32 { Xor(Xor(Rotr(x, 2), Rotr(x, 13)), Rotr(x, 22)) }

  function BigSigma1(x: bv32): bv32 { Xor(Xor(Rotr(x, 6), Rotr(x, 11)), Rotr(x, 25)) }

  function Shr(value: bv32, shift: bv6): bv32
    requires 0 < shift < 32
  {
    value >> shift
  }

  function SmallSigma0(x: bv32): bv32 { Xor(Xor(Rotr(x, 7), Rotr(x, 18)), Shr(x, 3)) }

  function SmallSigma1(x: bv32): bv32 { Xor(Xor(Rotr(x, 17), Rotr(x, 19)), Shr(x, 10)) }

  const K0: seq<bv32> := [
    0x428a2f98, 0x71374491, 0xb5c0fbcf, 0xe9b5dba5, 0x3956c25b, 0x59f111f1, 0x923f82a4, 0xab1c5ed5,
    0xd807aa98, 0x12835b01, 0x243185be, 0x550c7dc3, 0x72be5d74, 0x80deb1fe, 0x9bdc06a7, 0xc19bf174]
  const K1: seq<bv32> := [
    0xe49b69c1, 0xefbe4786, 0x0fc19dc6, 0x240ca1cc, 0x2de92c6f, 0x4a7484aa, 0x5cb0a9dc, 0x76f988da,
    0x983e5152, 0xa831c66d, 0xb00327c8, 0xbf597fc7, 0xc6e00bf3, 0xd5a79147, 0x06ca6351, 0x14292967]
  const K2: seq<bv32> := [
    0x27b70a85, 0x2e1b2138, 0x4d2c6dfc, 0x53380d13, 0x650a7354, 0x766a0abb, 0x81c2c92e, 0x92722c85,
    0xa2bfe8a1, 0xa81a664b, 0xc24b8b70, 0xc76c51a3, 0xd192e819, 0xd6990624, 0xf40e3585, 0x106aa070]
  const K3: seq<bv32> := [
    0x19a4c116, 0x1e376c08, 0x2748774c, 0x34b0bcb5, 0x391c0cb3, 0x4ed8aa4a, 0x5b9cca4f, 0x682e6ff3,
    0x748f82ee, 0x78a5636f, 0x84c87814, 0x8cc70208, 0x90befffa, 0xa4506ceb, 0xbef9a3f7, 0xc67178f2]

  function K(t: nat): bv32
    requires t < 64
  {
    if t < 16 then K0[t] else if t < 32 then K1[t - 16] else if t < 48 then K2[t - 32] else K3[t - 48]
  }

  /** The eight working variables a to h, or the hash value between blocks. */
  type State = s: seq<bv32> | |s| == 8 witness [0, 0, 0, 0, 0, 0, 0, 0]

  /** Section 5.3.3. */
  const INITIAL: State := [
    0x6a09e667, 0xbb67ae85, 0x3c6ef372, 0xa54ff53a, 0x510e527f, 0x9b05688c, 0x1f83d9ab, 0x5be0cd19]

  // ---- section 6.2.2: one block ----------------------------------------------------------

  type Block = s: seq<bv8> | |s| == 64 witness seq(64, i => 0)

  /** sha256_load_be32. */
  function LoadBe32(b0: bv8, b1: bv8, b2: bv8, b3: bv8): bv32 {
    (((b0 as bv32 << 24) | (b1 as bv32 << 16)) | (b2 as bv32 << 8)) | b3 as bv32
  }

  function WordAt(data: seq<bv8>, i: nat): bv32
    requires 4 * i + 4 <= |data|
  {
    LoadBe32(data[4 * i], data[4 * i + 1], data[4 * i + 2], data[4 * i + 3])
  }

  function NextWord(w2: bv32, w7: bv32, w15: bv32, w16: bv32): bv32 {
    SmallSigma1(w2) + w7 + SmallSigma0(w15) + w16
  }

  /** The message schedule. */
  function W(block: Block, t: nat): bv32
    decreases t
  {
    if t < 16 then WordAt(block, t)
    else NextWord(W(block, t - 2), W(block, t - 7), W(block, t - 15), W(block, t - 16))
  }

  function Round(s: State, k: bv32, w: bv32): State {
    var t1 := Add(Add(Add(Add(s[7], BigSigma1(s[4])), Ch(s[4], s[5], s[6])), k), w);
    var t2 := Add(BigSigma0(s[0]), Maj(s[0], s[1], s[2]));
    [Add(t1, t2), s[0], s[1], s[2], Add(s[3], t1), s[4], s[5], s[6]]
  }

  function Rounds(s: State, block: Block, t: nat): State
    requires t <= 64
  {
    if t == 0 then s else Round(Rounds(s, block, t - 1), K(t - 1), W(block, t - 1))
  }

  function Plus(s: State, r: State): State {
    seq(8, i requires 0 <= i < 8 => Add(s[i], r[i]))
  }

  /** Sixty-four rounds, as many as the block has bytes. */
  function Compress(s: State, block: Block): State {
    Plus(s, Rounds(s, block, |block|))
  }

  // ---- states as bytes -------------------------------------------------------------------

  function Byte(value: bv32): bv8 {
    (value & 0xFF) as bv8
  }

  /** sha256_store_be32. */
  function Be32(value: bv32): (bytes: seq<bv8>)
    ensures |bytes| == 4
  {
    [Byte(value >> 24), Byte(value >> 16), Byte(value >> 8), Byte(value)]
  }

  function Be32s(words: seq<bv32>): (bytes: seq<bv8>)
    ensures |bytes| == 4 * |words|
  {
    if |words| == 0 then [] else Be32s(words[..|words| - 1]) + Be32(words[|words| - 1])
  }

  function Digest(s: State): (bytes: seq<bv8>)
    ensures |bytes| == 32
  {
    Be32s(s)
  }

  /** The state a 32-byte digest stands for. */
  function StateOf(bytes: seq<bv8>): State
    requires |bytes| == 32
  {
    seq(8, i requires 0 <= i < 8 => WordAt(bytes, i))
  }

  lemma LoadAfterStore(value: bv32)
    ensures LoadBe32(Byte(value >> 24), Byte(value >> 16), Byte(value >> 8), Byte(value)) == value
  {
  }

  lemma WordAppended(before: seq<bv8>, value: bv32)
    requires |before| % 4 == 0
    ensures WordAt(before + Be32(value), |before| / 4) == value
  {
    LoadAfterStore(value);
    hide LoadBe32, Byte;
  }

  lemma WordBefore(before: seq<bv8>, after: seq<bv8>, i: nat)
    requires 4 * i + 4 <= |before|
    ensures WordAt(before + after, i) == WordAt(before, i)
  {
    hide LoadBe32;
  }

  lemma {:induction false} WordOfBe32s(words: seq<bv32>, i: nat)
    requires i < |words|
    ensures WordAt(Be32s(words), i) == words[i]
  {
    var n := |words| - 1;
    WordAppended(Be32s(words[..n]), words[n]);
    if i < n {
      WordOfBe32s(words[..n], i);
      WordBefore(Be32s(words[..n]), Be32(words[n]), i);
    }
    hide WordAt, Be32;
  }

  /** Reading a digest back gives the state it was written from. */
  lemma StateOfDigest(s: State)
    ensures StateOf(Digest(s)) == s
  {
    forall i | 0 <= i < 8 ensures WordAt(Digest(s), i) == s[i] {
      WordOfBe32s(s, i);
    }
    hide WordAt, Be32s;
  }

  // ---- section 5 and 6.2: a whole message --------------------------------------------------

  /** A whole number of blocks. */
  predicate Whole(n: int) {
    n % 64 == 0
  }

  function Be64(n: nat): (bytes: seq<bv8>)
    ensures |bytes| == 8
  {
    seq(8, i requires 0 <= i < 8 => (n / Shift(7 - i) % 256) as bv8)
  }

  function Shift(i: nat): (p: nat)
    ensures p > 0
  {
    if i == 0 then 1 else 256 * Shift(i - 1)
  }

  /** The padding of a message of n bytes. */
  function Padding(n: nat): (pad: seq<bv8>)
    ensures Whole(n + |pad|)
  {
    [0x80] + seq((55 - n) % 64, i => 0) + Be64(8 * n % 0x1_0000_0000_0000_0000)
  }

  function Blocks(s: State, data: seq<bv8>): State
    requires Whole(|data|)
    decreases |data|
  {
    hide Compress;
    if |data| == 0 then s else Blocks(Compress(s, data[..64]), data[64..])
  }

  lemma WholeRest(done: nat, rest: nat)
    requires Whole(done) && Whole(done + rest)
    ensures Whole(rest)
  {
  }

  /** The hash of a message that ends in rest, when s is the state after the bytes done. */
  function Finish(s: State, done: nat, rest: seq<bv8>): (digest: seq<bv8>)
    requires Whole(done)
    ensures |digest| == 32
  {
    hide Compress, Digest, Blocks, Padding, Whole;
    var pad := Padding(done + |rest|);
    WholeRest(done, |rest| + |pad|);
    Digest(Blocks(s, rest + pad))
  }

  lemma FinishIs(s: State, done: nat, rest: seq<bv8>)
    requires Whole(done)
    ensures Whole(|rest| + |Padding(done + |rest|)|)
    ensures Finish(s, done, rest) == Digest(Blocks(s, rest + Padding(done + |rest|)))
  {
    hide Padding, Digest, Blocks, Whole;
    WholeRest(done, |rest| + |Padding(done + |rest|)|);
  }

  function Hash(message: seq<bv8>): (digest: seq<bv8>)
    ensures |digest| == 32
  {
    hide Finish;
    Finish(INITIAL, 0, message)
  }

  lemma {:induction false} BlocksConcat(s: State, a: seq<bv8>, b: seq<bv8>)
    requires Whole(|a|) && Whole(|b|)
    ensures Blocks(s, a + b) == Blocks(Blocks(s, a), b)
    decreases |a|
  {
    hide Compress;
    if |a| == 0 {
      assert a + b == b;
    } else {
      assert (a + b)[..64] == a[..64] && (a + b)[64..] == a[64..] + b;
      BlocksConcat(Compress(s, a[..64]), a[64..], b);
    }
  }

  lemma ResumeBlocks(s: State, message: seq<bv8>, head: seq<bv8>, rest: seq<bv8>, pad: seq<bv8>)
    requires message == head + rest
    requires Whole(|head|) && Whole(|rest| + |pad|) && Whole(|message| + |pad|)
    ensures Blocks(s, message + pad) == Blocks(Blocks(s, head), rest + pad)
  {
    hide Blocks, Whole;
    assert message + pad == head + (rest + pad);
    BlocksConcat(s, head, rest + pad);
  }

  lemma FinishResumes(s: State, head: seq<bv8>, rest: seq<bv8>)
    requires Whole(0) && Whole(|head|)
    ensures Finish(s, 0, head + rest) == Finish(Blocks(s, head), |head|, rest)
  {
    hide Blocks, Digest, Finish, Padding, Whole;
    var message := head + rest;
    FinishIs(s, 0, message);
    FinishIs(Blocks(s, head), |head|, rest);
    ResumeBlocks(s, message, head, rest, Padding(|message|));
  }

  /** Hashing may stop after any whole number of blocks and go on from the state alone. */
  lemma HashResumes(head: seq<bv8>, rest: seq<bv8>)
    requires Whole(|head|)
    ensures Hash(head + rest) == Finish(Blocks(INITIAL, head), |head|, rest)
  {
    assert Whole(0);
    hide Blocks, Finish, Whole;
    FinishResumes(INITIAL, head, rest);
  }

  lemma OneBlock(s: State, block: Block)
    ensures Blocks(s, block) == Compress(s, block)
  {
    hide Compress;
    assert block[..64] == block && block[64..] == [];
    assert Blocks(Compress(s, block), []) == Compress(s, block);
  }

  // ---- midstate_sha256_bin ------------------------------------------------------------------

  /** The additions of the schedule in the order the loop makes them. */
  function LoopWord(w16: bv32, w15: bv32, w7: bv32, w2: bv32): bv32 {
    var s0 := SmallSigma0(w15);
    var s1 := SmallSigma1(w2);
    w16 + s0 + w7 + s1
  }

  lemma SumOrder(a: bv32, b: bv32, c: bv32, d: bv32)
    ensures a + b + c + d == d + c + b + a
  {
  }

  lemma LoopWordIsNextWord(w16: bv32, w15: bv32, w7: bv32, w2: bv32)
    ensures LoopWord(w16, w15, w7, w2) == NextWord(w2, w7, w15, w16)
  {
    hide Add, SmallSigma0, SmallSigma1;
    SumOrder(w16, SmallSigma0(w15), w7, SmallSigma1(w2));
  }

  /** The first n words of an array are those of the schedule. */
  ghost predicate Filled(words: seq<bv32>, block: Block, n: nat) {
    n <= |words| && forall t :: 0 <= t < n ==> words[t] == W(block, t)
  }

  lemma FilledOne(words: seq<bv32>, block: Block, n: nat, word: bv32)
    requires Filled(words, block, n) && n < |words| && word == W(block, n)
    ensures Filled(words[n := word], block, n + 1)
  {
    hide W;
  }

  lemma LaterWord(block: Block, t: nat, w16: bv32, w15: bv32, w7: bv32, w2: bv32)
    requires t >= 16
    requires w16 == W(block, t - 16) && w15 == W(block, t - 15) && w7 == W(block, t - 7) && w2 == W(block, t - 2)
    ensures LoopWord(w16, w15, w7, w2) == W(block, t)
  {
    LoopWordIsNextWord(w16, w15, w7, w2);
    hide WordAt, NextWord, LoopWord;
  }

  lemma FilledByLoop(words: seq<bv32>, block: Block, n: nat)
    requires Filled(words, block, n) && 16 <= n < |words|
    ensures Filled(words[n := LoopWord(words[n - 16], words[n - 15], words[n - 7], words[n - 2])], block, n + 1)
  {
    hide W, LoopWord;
    LaterWord(block, n, words[n - 16], words[n - 15], words[n - 7], words[n - 2]);
    FilledOne(words, block, n, LoopWord(words[n - 16], words[n - 15], words[n - 7], words[n - 2]));
  }

  lemma FilledByLoad(words: seq<bv32>, block: Block, n: nat)
    requires Filled(words, block, n) && n < 16 <= |words|
    ensures Filled(words[n := WordAt(block, n)], block, n + 1)
  {
    hide WordAt, NextWord;
    FilledOne(words, block, n, WordAt(block, n));
  }

  /** The schedule array of a block. */
  method Schedule(data: array<bv8>) returns (schedule: array<bv32>)
    requires data.Length >= 64
    ensures fresh(schedule) && schedule.Length == 64 && Filled(schedule[..], data[..64], 64)
  {
    schedule := new bv32[64];
    ghost var block: Block := data[..64];
    hide Filled, LoadBe32, LoopWord;
    Unfilled(schedule[..], block);
    for i: nat := 0 to 16
      invariant Filled(schedule[..], block, i)
    {
      FilledByLoad(schedule[..], block, i);
      schedule[i] := LoadBe32(data[4 * i], data[4 * i + 1], data[4 * i + 2], data[4 * i + 3]);
    }
    for i: nat := 16 to 64
      invariant Filled(schedule[..], block, i)
    {
      FilledByLoop(schedule[..], block, i);
      schedule[i] := LoopWord(schedule[i - 16], schedule[i - 15], schedule[i - 7], schedule[i - 2]);
    }
  }

  lemma Unfilled(words: seq<bv32>, block: Block)
    ensures Filled(words, block, 0)
  {
  }

  lemma NoRounds(s: State, block: Block)
    ensures Rounds(s, block, 0) == s
  {
  }

  lemma OneRound(s: State, block: Block, t: nat)
    requires t < 64
    ensures Rounds(s, block, t + 1) == Round(Rounds(s, block, t), K(t), W(block, t))
  {
    hide Round, K, W;
  }

  method RunRounds(schedule: array<bv32>, ghost block: Block) returns (working: seq<bv32>)
    requires schedule.Length == 64 && Filled(schedule[..], block, 64)
    ensures working == Rounds(INITIAL, block, |block|)
  {
    hide Rounds, Add, W, Ch, Maj, BigSigma0, BigSigma1, K;
    var a, b, c, d := INITIAL[0], INITIAL[1], INITIAL[2], INITIAL[3];
    var e, f, g, h := INITIAL[4], INITIAL[5], INITIAL[6], INITIAL[7];
    NoRounds(INITIAL, block);
    for i := 0 to schedule.Length
      invariant [a, b, c, d, e, f, g, h] == Rounds(INITIAL, block, i)
    {
      OneRound(INITIAL, block, i);
      var temp1 := Add(Add(Add(Add(h, BigSigma1(e)), Ch(e, f, g)), K(i)), schedule[i]);
      var temp2 := Add(BigSigma0(a), Maj(a, b, c));
      h := g;
      g := f;
      f := e;
      e := Add(d, temp1);
      d := c;
      c := b;
      b := a;
      a := Add(temp1, temp2);
    }
    working := [a, b, c, d, e, f, g, h];
  }

  lemma NoWords()
    ensures Be32s([]) == []
  {
  }

  lemma OneMoreWord(words: seq<bv32>, i: nat)
    requires i < |words|
    ensures Be32s(words[..i + 1]) == Be32s(words[..i]) + Be32(words[i])
  {
    hide Be32;
    assert words[..i + 1][..i] == words[..i];
  }

  method StoreBe32(value: bv32, dest: array<bv8>, at: nat)
    requires at + 4 <= dest.Length
    modifies dest
    ensures dest[..at + 4] == old(dest[..at]) + Be32(value)
    ensures dest[at + 4..] == old(dest[at + 4..])
  {
    hide Byte;
    dest[at] := Byte(value >> 24);
    dest[at + 1] := Byte(value >> 16);
    dest[at + 2] := Byte(value >> 8);
    dest[at + 3] := Byte(value);
  }

  /** Writes eight sums big-endian. */
  method StoreWords(working: State, dest: array<bv8>)
    requires dest.Length == 32
    modifies dest
    ensures dest[..] == Digest(Plus(INITIAL, working))
  {
    hide Add, Be32, Be32s;
    ghost var words := Plus(INITIAL, working);
    NoWords();
    for i: nat := 0 to 8
      invariant dest[..4 * i] == Be32s(words[..i])
    {
      StoreBe32(Add(INITIAL[i], working[i]), dest, 4 * i);
      OneMoreWord(words, i);
    }
    assert words[..8] == words;
    assert dest[..32] == dest[..];
  }

  /** midstate_sha256_bin: the compression of one block from the initial state, or zeros
      for anything but a block. */
  method MidstateSha256Bin(data: array?<bv8>, dataLen: nat, dest: array<bv8>)
    requires dest.Length == 32
    requires data != null ==> dataLen <= data.Length
    modifies dest
    ensures dest[..] ==
            if data == null || dataLen != 64 then seq(32, i => 0)
            else Digest(Compress(INITIAL, old(data[..64])))
  {
    if data == null || dataLen != 64 {
      for i := 0 to 32
        invariant forall j :: 0 <= j < i ==> dest[j] == 0
      {
        dest[i] := 0;
      }
      return;
    }
    ghost var block: Block := data[..64];
    var schedule := Schedule(data);
    var working := RunRounds(schedule, block);
    StoreWords(working, dest);
  }
}
