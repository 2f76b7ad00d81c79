/** construct_bm_job and test_nonce_value of mining.c, with the version the BM1397 driver
    rebuilds for a found nonce. */
module Mining {
  import opened Bytes
  import opened ByteOrder
  import opened Arith
  import opened Digits
  import opened Sha256
  import opened VersionRolling

  // ---- the header a job stands for ---------------------------------------------------------

  /** The bytes of a uint32_t in memory. */
  function Le32(value: bv32): (bytes: seq<bv8>)
    ensures |bytes| == 4
  {
    [Byte(value), Byte(value >> 8), Byte(value >> 16), Byte(value >> 24)]
  }

  /** The first 64 bytes of a block header. */
  function FirstBlock(version: bv32, prevHash: Hash256, merkleRoot: Hash256): Block {
    Le32(version) + prevHash + merkleRoot[..28]
  }

  /** The compression of a first block. */
  function MidstateOf(block: Block): Hash256 {
    Digest(Compress(INITIAL, block))
  }

  /** How a job stores the midstate of a version. */
  function StoredMidstate(version: bv32, prevHash: Hash256, merkleRoot: Hash256): Hash256 {
    ReverseWords(MidstateOf(FirstBlock(version, prevHash, merkleRoot)))
  }

  /** What a finished bm_job holds. The midstates are those it claims. */
  datatype JobView = JobView(version: bv32, versionMask: bv32, ntime: bv32, target: bv32,
                             prevBlockHash: Hash256, merkleRoot: Hash256, midstates: seq<Hash256>)

  /** Midstate i of a job belongs to the version rolled i times. */
  ghost predicate WellBuilt(j: JobView) {
    forall i :: 0 <= i < |j.midstates| ==> MidstateFits(j, i)
  }

  predicate MidstateFits(j: JobView, i: nat)
    requires i < |j.midstates|
  {
    var version := Roll(j.version, j.versionMask, i);
    j.midstates[i] == StoredMidstate(version, ReverseWords(j.prevBlockHash), ReverseWords(j.merkleRoot))
  }

  /** The header test_nonce_value hashes. */
  function Header(j: JobView, nonce: bv32, version: bv32): (header: seq<bv8>)
    ensures |header| == 80
  {
    Le32(version) + ReverseWords(j.prevBlockHash) + ReverseWords(j.merkleRoot)
    + Le32(j.ntime) + Le32(j.target) + Le32(nonce)
  }

  /** The double hash worked out from what the job packet carries: a stored midstate, the
      first four bytes of the stored merkle root, the time, the target and a nonce. */
  function PacketHash(midstate: Hash256, merkle4: seq<bv8>, ntime: bv32, nbits: bv32, nonce: bv32): seq<bv8>
    requires |merkle4| == 4
  {
    var tail := merkle4 + Le32(ntime) + Le32(nbits) + Le32(nonce);
    hide Finish, Le32, ReverseWords;
    assert Whole(64);
    Hash(Finish(StateOf(ReverseWords(midstate)), 64, tail))
  }

  lemma HeaderSplits(j: JobView, nonce: bv32, version: bv32)
    ensures Header(j, nonce, version) ==
            FirstBlock(version, ReverseWords(j.prevBlockHash), ReverseWords(j.merkleRoot))
            + (j.merkleRoot[..4] + Le32(j.ntime) + Le32(j.target) + Le32(nonce))
  {
    LastWordFirst(j.merkleRoot);
    hide Le32;
    var root := ReverseWords(j.merkleRoot);
    ReversalsUndo(j.merkleRoot);
    LastWordFirst(root);
    hide ReverseWords;
    assert root == root[..28] + root[28..];
  }

  /** A job stores a midstate from its last word to its first. */
  lemma StoredWords(version: bv32, prevHash: Hash256, merkleRoot: Hash256, i: nat)
    requires i < 8
    ensures StoredMidstate(version, prevHash, merkleRoot)[4 * i..4 * i + 4]
         == MidstateOf(FirstBlock(version, prevHash, merkleRoot))[28 - 4 * i..32 - 4 * i]
  {
    hide MidstateOf, FirstBlock;
    WordsReversed(MidstateOf(FirstBlock(version, prevHash, merkleRoot)), i);
    hide ReverseWords;
  }

  /** The hash test_nonce_value computes for a rebuilt version is the one that follows from
      the midstate with the same index. */
  lemma MidstateAgrees(j: JobView, i: nat, nonce: bv32)
    requires WellBuilt(j) && i < |j.midstates|
    ensures Hash(Hash(Header(j, nonce, Roll(j.version, j.versionMask, i))))
         == PacketHash(j.midstates[i], j.merkleRoot[..4], j.ntime, j.target, nonce)
  {
    var version := Roll(j.version, j.versionMask, i);
    var block := FirstBlock(version, ReverseWords(j.prevBlockHash), ReverseWords(j.merkleRoot));
    var tail := j.merkleRoot[..4] + Le32(j.ntime) + Le32(j.target) + Le32(nonce);
    assert MidstateFits(j, i);
    assert Whole(64);
    HeaderSplits(j, nonce, version);
    ReversalsUndo(MidstateOf(block));
    StateOfDigest(Compress(INITIAL, block));
    hide Compress, Digest, Finish, Hash, Blocks, Whole, FirstBlock, ReverseWords, Header, Le32, StateOf, Roll;
    OneBlock(INITIAL, block);
    HashResumes(block, tail);
  }

  // ---- building a job -------------------------------------------------------------------

  datatype Notify = Notify(prevBlockHash: cstring, version: bv32, target: bv32, ntime: bv32)

  /** bm_job, without its strings. */
  class BmJob {
    var version: bv32
    var versionMask: bv32
    var ntime: bv32
    var target: bv32
    var startingNonce: bv32
    var numMidstates: nat
    var poolDiff: real
    const prevBlockHash: array<bv8>
    const merkleRoot: array<bv8>
    const midstate: array<bv8>
    const midstate1: array<bv8>
    const midstate2: array<bv8>
    const midstate3: array<bv8>

    constructor ()
      ensures Valid() && fresh(Buffers())
    {
      prevBlockHash := new bv8[32];
      merkleRoot := new bv8[32];
      midstate := new bv8[32];
      midstate1 := new bv8[32];
      midstate2 := new bv8[32];
      midstate3 := new bv8[32];
    }

    /** Six buffers of 32 bytes, none of them inside another. */
    predicate Valid() {
      && prevBlockHash.Length == merkleRoot.Length == midstate.Length == 32
      && midstate1.Length == midstate2.Length == midstate3.Length == 32
      && prevBlockHash !in {merkleRoot, midstate, midstate1, midstate2, midstate3}
      && merkleRoot !in {midstate, midstate1, midstate2, midstate3}
      && midstate !in {midstate1, midstate2, midstate3}
      && midstate1 !in {midstate2, midstate3}
      && midstate2 != midstate3
    }

    function Buffers(): set<array<bv8>> {
      {prevBlockHash, merkleRoot, midstate, midstate1, midstate2, midstate3}
    }

    function View(): JobView
      requires Valid()
      reads this, Buffers()
    {
      JobView(version, versionMask, ntime, target, prevBlockHash[..], merkleRoot[..],
              if numMidstates == 4 then [midstate[..], midstate1[..], midstate2[..], midstate3[..]] else [midstate[..]])
    }
  }

  method StoreLe32(value: bv32, dest: array<bv8>, at: nat)
    requires at + 4 <= dest.Length
    modifies dest
    ensures dest[..at + 4] == old(dest[..at]) + Le32(value)
    ensures forall k :: at + 4 <= k < dest.Length ==> dest[k] == old(dest[k])
  {
    hide Byte;
    dest[at] := Byte(value);
    dest[at + 1] := Byte(value >> 8);
    dest[at + 2] := Byte(value >> 16);
    dest[at + 3] := Byte(value >> 24);
  }

  /** One round of construct_bm_job: the version goes into the block, and the block's
      midstate, words reversed, into the job. */
  method StoreMidstate(version: bv32, midstateData: array<bv8>, dest: array<bv8>,
                       ghost prev: Hash256, ghost root: Hash256)
    requires midstateData != dest && midstateData.Length == 64 && dest.Length == 32
    requires midstateData[4..] == prev + root[..28]
    modifies midstateData, dest
    ensures midstateData[4..] == prev + root[..28]
    ensures dest[..] == StoredMidstate(version, prev, root)
  {
    hide Le32, ReverseWords, Compress, Digest;
    StoreLe32(version, midstateData, 0);
    assert midstateData[4..] == prev + root[..28];
    assert midstateData[..64] == midstateData[..4] + midstateData[4..];
    assert midstateData[..64] == FirstBlock(version, prev, root);
    var midstate := new bv8[32];
    MidstateSha256Bin(midstateData, 64, midstate);
    Reverse32BitWords(midstate, dest, 0);
    assert dest[..32] == dest[..];
  }

  /** The 32 bytes a text gives, with whatever the buffer held in the place of missing ones. */
  method HashOfHex(hex: cstring) returns (bytes: array<bv8>)
    ensures fresh(bytes) && bytes.Length == 32
    ensures |hex| >= 63 ==> bytes[..] == HexBytes(hex)[..32]
  {
    hide HexBytes;
    bytes := new bv8[32];
    var len := Hex2Bin(hex, bytes, 32);
    if |hex| >= 63 {
      assert bytes[..len] == bytes[..];
    }
  }

  /** The previous block hash of a notify, each word swapped, into prev, and with its words
      reversed as well into the job. */
  method StorePrevHash(hex: cstring, dest: array<bv8>) returns (prev: array<bv8>)
    requires dest.Length == 32
    modifies dest
    ensures fresh(prev) && prev.Length == 32
    ensures dest[..] == ReverseWords(prev[..])
    ensures |hex| >= 63 ==> dest[..] == ReverseBytes(HexBytes(hex)[..32])
  {
    hide ReverseWords, SwapWords, ReverseBytes, HexBytes;
    prev := HashOfHex(hex);
    ReversalsUndo(prev[..]);
    ReverseEndiannessPerWord(prev);
    Reverse32BitWords(prev, dest, 0);
    assert dest[..32] == dest[..];
  }

  /** The part of the first block that no version touches. */
  method BlockTail(prevBlockHash: array<bv8>, merkleRoot: array<bv8>) returns (midstateData: array<bv8>)
    requires prevBlockHash.Length == merkleRoot.Length == 32
    ensures fresh(midstateData) && midstateData.Length == 64
    ensures midstateData[4..] == prevBlockHash[..] + merkleRoot[..28]
  {
    midstateData := new bv8[64];
    forall k | 0 <= k < 32 {
      midstateData[4 + k] := prevBlockHash[k];
    }
    forall k | 0 <= k < 28 {
      midstateData[36 + k] := merkleRoot[k];
    }
  }

  /** The three further midstates. */
  method StoreRolled(version: bv32, versionMask: bv32, midstateData: array<bv8>, newJob: BmJob,
                     ghost prev: Hash256, ghost root: Hash256)
    requires newJob.Valid() && midstateData !in newJob.Buffers() && midstateData.Length == 64
    requires midstateData[4..] == prev + root[..28]
    modifies midstateData, newJob.midstate1, newJob.midstate2, newJob.midstate3
    ensures newJob.midstate1[..] == StoredMidstate(Roll(version, versionMask, 1), prev, root)
    ensures newJob.midstate2[..] == StoredMidstate(Roll(version, versionMask, 2), prev, root)
    ensures newJob.midstate3[..] == StoredMidstate(Roll(version, versionMask, 3), prev, root)
  {
    RollUnfolds(version, versionMask);
    hide IncrementBitmask, Roll, StoredMidstate;
    var rolledVersion := IncrementBitmask(version, versionMask);
    StoreMidstate(rolledVersion, midstateData, newJob.midstate1, prev, root);
    rolledVersion := IncrementBitmask(rolledVersion, versionMask);
    StoreMidstate(rolledVersion, midstateData, newJob.midstate2, prev, root);
    rolledVersion := IncrementBitmask(rolledVersion, versionMask);
    StoreMidstate(rolledVersion, midstateData, newJob.midstate3, prev, root);
  }

  lemma OneBuilt(j: JobView, mask: bv32)
    requires j.midstates == [StoredMidstate(j.version, ReverseWords(j.prevBlockHash), ReverseWords(j.merkleRoot))]
    ensures WellBuilt(j.(versionMask := mask))
  {
    RollUnfolds(j.version, mask);
    hide Roll, StoredMidstate, ReverseWords;
  }

  lemma BuiltAt(j: JobView, mask: bv32, i: nat, version: bv32)
    requires i < |j.midstates| && version == Roll(j.version, mask, i)
    requires j.midstates[i] == StoredMidstate(version, ReverseWords(j.prevBlockHash), ReverseWords(j.merkleRoot))
    ensures MidstateFits(j.(versionMask := mask), i)
  {
    hide Roll, StoredMidstate, ReverseWords;
  }

  lemma FourBuilt(j: JobView, mask: bv32)
    requires |j.midstates| == 4
    requires var prev, root := ReverseWords(j.prevBlockHash), ReverseWords(j.merkleRoot);
             && j.midstates[0] == StoredMidstate(j.version, prev, root)
             && j.midstates[1] == StoredMidstate(Roll(j.version, mask, 1), prev, root)
             && j.midstates[2] == StoredMidstate(Roll(j.version, mask, 2), prev, root)
             && j.midstates[3] == StoredMidstate(Roll(j.version, mask, 3), prev, root)
    ensures WellBuilt(j.(versionMask := mask))
  {
    RollUnfolds(j.version, mask);
    hide Roll, StoredMidstate, ReverseWords, IncrementBitmask, MidstateFits;
    BuiltAt(j, mask, 0, j.version);
    BuiltAt(j, mask, 1, Roll(j.version, mask, 1));
    BuiltAt(j, mask, 2, Roll(j.version, mask, 2));
    BuiltAt(j, mask, 3, Roll(j.version, mask, 3));
  }

  /** The midstates of construct_bm_job: one, or the base one and three rolled ones. */
  method StoreMidstates(versionMask: bv32, rolledMidstates: bool, midstateData: array<bv8>, newJob: BmJob,
                        ghost prev: Hash256, ghost root: Hash256)
    requires newJob.Valid() && midstateData !in newJob.Buffers() && midstateData.Length == 64
    requires midstateData[4..] == prev + root[..28]
    requires newJob.prevBlockHash[..] == ReverseWords(prev) && newJob.merkleRoot[..] == ReverseWords(root)
    modifies newJob`numMidstates, midstateData, newJob.midstate, newJob.midstate1, newJob.midstate2, newJob.midstate3
    ensures newJob.numMidstates == if versionMask != 0 && rolledMidstates then 4 else 1
    ensures WellBuilt(newJob.View().(versionMask := versionMask))
  {
    ReversalsUndo(prev);
    ReversalsUndo(root);
    hide ReverseWords, ReverseBytes, SwapWords, StoredMidstate, WellBuilt, IncrementBitmask, Roll;
    StoreMidstate(newJob.version, midstateData, newJob.midstate, prev, root);
    if versionMask != 0 && rolledMidstates {
      StoreRolled(newJob.version, versionMask, midstateData, newJob, prev, root);
      newJob.numMidstates := 4;
      FourBuilt(newJob.View(), versionMask);
    } else {
      newJob.numMidstates := 1;
      OneBuilt(newJob.View(), versionMask);
    }
  }

  /** construct_bm_job. Bytes the previous-hash text does not give stay as the stack left
      them, in the job and in the hashed block alike. */
  method ConstructBmJob(params: Notify, merkleRoot: array<bv8>, versionMask: bv32, difficulty: real,
                        rolledMidstates: bool, newJob: BmJob)
    requires newJob.Valid() && merkleRoot.Length == 32 && merkleRoot !in newJob.Buffers()
    modifies newJob, newJob.Buffers()
    ensures newJob.version == params.version && newJob.target == params.target && newJob.ntime == params.ntime
    ensures newJob.startingNonce == 0 && newJob.poolDiff == difficulty && newJob.versionMask == old(newJob.versionMask)
    ensures newJob.merkleRoot[..] == ReverseWords(merkleRoot[..])
    ensures |params.prevBlockHash| >= 63 ==>
              newJob.prevBlockHash[..] == ReverseBytes(HexBytes(params.prevBlockHash)[..32])
    ensures newJob.numMidstates == if versionMask != 0 && rolledMidstates then 4 else 1
    ensures WellBuilt(newJob.View().(versionMask := versionMask))
  {
    newJob.version := params.version;
    newJob.target := params.target;
    newJob.ntime := params.ntime;
    newJob.startingNonce := 0;
    newJob.poolDiff := difficulty;
    Reverse32BitWords(merkleRoot, newJob.merkleRoot, 0);
    assert newJob.merkleRoot[..32] == newJob.merkleRoot[..];
    var prevBlockHash := StorePrevHash(params.prevBlockHash, newJob.prevBlockHash);
    var midstateData := BlockTail(prevBlockHash, merkleRoot);
    ghost var prev: Hash256, root: Hash256 := prevBlockHash[..], merkleRoot[..];
    hide ReverseWords, ReverseBytes, HexBytes, StoredMidstate, WellBuilt;
    StoreMidstates(versionMask, rolledMidstates, midstateData, newJob, prev, root);
  }

  /** Two masks under which a version rolls alike, n times. */
  predicate RollAlike(version: bv32, mask: bv32, later: bv32, n: nat) {
    forall i :: 0 <= i < n ==> Roll(version, mask, i) == Roll(version, later, i)
  }

  lemma BuiltUnder(j: JobView, mask: bv32, later: bv32)
    requires WellBuilt(j.(versionMask := mask)) && RollAlike(j.version, mask, later, |j.midstates|)
    ensures WellBuilt(j.(versionMask := later))
  {
    hide Roll, StoredMidstate, ReverseWords;
    forall i | 0 <= i < |j.midstates| ensures MidstateFits(j.(versionMask := later), i) {
      assert MidstateFits(j.(versionMask := mask), i);
    }
  }

  /** generate_work reads the mask twice from state another task may change: once to roll the
      midstates with, once to keep in the job. */
  method GenerateJob(params: Notify, merkleRoot: array<bv8>, versionMask: bv32, versionMaskLater: bv32,
                     difficulty: real, rolledMidstates: bool) returns (nextJob: BmJob)
    requires merkleRoot.Length == 32
    ensures fresh(nextJob) && nextJob.Valid()
    ensures nextJob.version == params.version && nextJob.versionMask == versionMaskLater
    ensures nextJob.numMidstates == if versionMask != 0 && rolledMidstates then 4 else 1
    ensures RollAlike(params.version, versionMask, versionMaskLater, nextJob.numMidstates) ==> WellBuilt(nextJob.View())
  {
    hide WellBuilt, RollAlike, ReverseWords, ReverseBytes, HexBytes;
    nextJob := new BmJob();
    ConstructBmJob(params, merkleRoot, versionMask, difficulty, rolledMidstates, nextJob);
    ghost var built := nextJob.View();
    nextJob.versionMask := versionMaskLater;
    assert nextJob.View() == built.(versionMask := versionMaskLater);
    if RollAlike(params.version, versionMask, versionMaskLater, nextJob.numMidstates) {
      BuiltUnder(built, versionMask, versionMaskLater);
    }
  }

  /** A job with one midstate and a mask that has not changed are both well built. */
  lemma AlikeCases(version: bv32, mask: bv32, later: bv32)
    ensures RollAlike(version, mask, later, 1) && (forall n: nat :: RollAlike(version, mask, mask, n))
  {
    RollUnfolds(version, mask);
    RollUnfolds(version, later);
    hide IncrementBitmask;
  }

  /** When the mask is turned off between the two reads, the version rebuilt for midstate 1
      is not the one that was hashed. */
  lemma MaskChangeBreaksRoll()
    ensures !RollAlike(0x20000000, 0x1fffe000, 0, 4)
  {
    RollUnfolds(0x20000000, 0x1fffe000);
    RollUnfolds(0x20000000, 0);
    assert Roll(0x20000000, 0x1fffe000, 1) != Roll(0x20000000, 0, 1);
  }

  // ---- judging a nonce --------------------------------------------------------------------

  /** A hash read as the little-endian number it stands for. */
  function LeValue(bytes: seq<bv8>): nat {
    if |bytes| == 0 then 0 else bytes[0] as nat + 256 * LeValue(bytes[1..])
  }

  lemma LeValueFirst(bytes: seq<bv8>)
    requires |bytes| > 0
    ensures LeValue(bytes) == bytes[0] as nat + 256 * LeValue(bytes[1..])
  {
  }

  lemma {:induction false} LeValueSplit(bytes: seq<bv8>, n: nat)
    requires n <= |bytes|
    ensures LeValue(bytes) == LeValue(bytes[..n]) + Pow(256, n) * LeValue(bytes[n..])
    decreases n
  {
    if n > 0 {
      LeValueSplit(bytes[1..], n - 1);
      assert bytes[..n][1..] == bytes[1..][..n - 1];
      assert bytes[1..][n - 1..] == bytes[n..];
      LeValueFirst(bytes[..n]);
      LeValueFirst(bytes);
      hide LeValue;
      MulAssoc(256, Pow(256, n - 1), LeValue(bytes[n..]));
    }
  }

  // A word is read through its halves, whose values the solver can compare.

  function High(v: bv32): bv16 {
    (v >> 16) as bv16
  }

  function Low(v: bv32): bv16 {
    (v & 0xffff) as bv16
  }

  /** The value of a word. */
  function Number(v: bv32): nat {
    High(v) as nat * 0x1_0000 + Low(v) as nat
  }

  lemma HalfValue(h: bv16)
    ensures h as nat == ((h >> 8) as bv8) as nat * 256 + ((h & 0xff) as bv8) as nat
  {
  }

  lemma BytesOfHalves(v: bv32)
    ensures Byte(v) == (Low(v) & 0xff) as bv8 && Byte(v >> 8) == (Low(v) >> 8) as bv8
    ensures Byte(v >> 16) == (High(v) & 0xff) as bv8 && Byte(v >> 24) == (High(v) >> 8) as bv8
  {
  }

  lemma LeValueFour(a: bv8, b: bv8, c: bv8, d: bv8)
    ensures LeValue([a, b, c, d]) == a as nat + 256 * (b as nat + 256 * (c as nat + 256 * d as nat))
  {
    LeValueFirst([a, b, c, d]);
    LeValueFirst([b, c, d]);
    LeValueFirst([c, d]);
    LeValueFirst([d]);
    assert LeValue([]) == 0;
    hide LeValue;
    assert [a, b, c, d][1..] == [b, c, d] && [b, c, d][1..] == [c, d] && [c, d][1..] == [d] && [d][1..] == [];
  }

  /** The bytes of a word in memory read as the little-endian number are its value. */
  lemma Le32Value(v: bv32)
    ensures LeValue(Le32(v)) == Number(v)
  {
    BytesOfHalves(v);
    HalfValue(High(v));
    HalfValue(Low(v));
    hide Byte, High, Low;
    LeValueFour(Byte(v), Byte(v >> 8), Byte(v >> 16), Byte(v >> 24));
    hide LeValue;
  }

  /** The six fields of a header, each by its value or word by word. */
  lemma HeaderFields(j: JobView, nonce: bv32, version: bv32)
    ensures var h := Header(j, nonce, version);
            && LeValue(h[..4]) == Number(version) && LeValue(h[68..72]) == Number(j.ntime)
            && LeValue(h[72..76]) == Number(j.target) && LeValue(h[76..80]) == Number(nonce)
            && (forall i: nat :: i < 8 ==> h[4 + 4 * i..8 + 4 * i] == j.prevBlockHash[28 - 4 * i..32 - 4 * i])
            && (forall i: nat :: i < 8 ==> h[36 + 4 * i..40 + 4 * i] == j.merkleRoot[28 - 4 * i..32 - 4 * i])
  {
    Le32Value(version);
    Le32Value(j.ntime);
    Le32Value(j.target);
    Le32Value(nonce);
    hide Le32, LeValue, Number, ReverseWords;
    var h := Header(j, nonce, version);
    Parts(Le32(version), ReverseWords(j.prevBlockHash), ReverseWords(j.merkleRoot),
          Le32(j.ntime), Le32(j.target), Le32(nonce));
    hide Header;
    forall i: nat | i < 8 ensures h[4 + 4 * i..8 + 4 * i] == j.prevBlockHash[28 - 4 * i..32 - 4 * i] {
      WordsReversed(j.prevBlockHash, i);
      PartOfPart(h, 4, ReverseWords(j.prevBlockHash), 4 * i);
    }
    forall i: nat | i < 8 ensures h[36 + 4 * i..40 + 4 * i] == j.merkleRoot[28 - 4 * i..32 - 4 * i] {
      WordsReversed(j.merkleRoot, i);
      PartOfPart(h, 36, ReverseWords(j.merkleRoot), 4 * i);
    }
  }

  lemma Parts(a: seq<bv8>, b: seq<bv8>, c: seq<bv8>, d: seq<bv8>, e: seq<bv8>, f: seq<bv8>)
    requires |a| == |d| == |e| == |f| == 4 && |b| == |c| == 32
    ensures var h := a + b + c + d + e + f;
            h[..4] == a && h[4..36] == b && h[36..68] == c && h[68..72] == d && h[72..76] == e && h[76..80] == f
  {
  }

  lemma PartOfPart(h: seq<bv8>, at: nat, part: seq<bv8>, k: nat)
    requires at + |part| <= |h| && h[at..at + |part|] == part && k + 4 <= |part|
    ensures h[at + k..at + k + 4] == part[k..k + 4]
  {
    var u, v := h[at + k..at + k + 4], part[k..k + 4];
    forall i | 0 <= i < 4 ensures u[i] == v[i] {
      assert part[k + i] == h[at + (k + i)];
    }
  }

  const BITS64 := 0x1_0000000000000000
  const BITS128 := BITS64 * BITS64
  const BITS192 := BITS64 * BITS128
  const TRUEDIFFONE: real := 26959535291011309493156476344723991336010898738574164086137773096960.0
  const UINT32_MAX: real := 4294967295.0

  lemma Pow8()
    ensures Pow(256, 8) == BITS64
  {
  }

  /** le256todouble: four 64-bit words, the most significant first. */
  method Le256ToDouble(target: Hash256) returns (dcut64: real)
    ensures dcut64 == LeValue(target) as real
  {
    hide LeValue, Pow;
    dcut64 := LeValue(target[24..]) as real * BITS192 as real;
    dcut64 := dcut64 + LeValue(target[16..24]) as real * BITS128 as real;
    dcut64 := dcut64 + LeValue(target[8..16]) as real * BITS64 as real;
    dcut64 := dcut64 + LeValue(target[..8]) as real;
    Pow8();
    LeValueSplit(target, 8);
    LeValueSplit(target[8..], 8);
    LeValueSplit(target[16..], 8);
    assert target[8..][..8] == target[8..16] && target[8..][8..] == target[16..];
    assert target[16..][..8] == target[16..24] && target[16..][8..] == target[24..];
  }

  /** hash_to_pdiff of a hash with this value. */
  function Pdiff(value: nat): real {
    if value == 0 then UINT32_MAX else TRUEDIFFONE / value as real
  }

  /** A hash reaches difficulty d exactly when d times its value stays within the target of
      difficulty one. */
  lemma PdiffExact(value: nat, d: real)
    requires value > 0
    ensures d <= Pdiff(value) <==>
            d * value as real <= 0xffff_0000000000000000000000000000000000000000000000000000 as real
  {
    QuotientExact(TRUEDIFFONE, value as real, d);
  }

  lemma PdiffOfZero()
    ensures Pdiff(0) == 4294967295.0
  {
  }

  lemma QuotientExact(t: real, v: real, d: real)
    requires v > 0.0
    ensures d <= t / v <==> d * v <= t
  {
    assert t / v * v == t;
    if d <= t / v {
      assert d * v <= t / v * v;
    } else {
      assert d * v > t / v * v;
    }
  }

  /** A smaller hash is worth at least as much, down to the hash zero. */
  lemma PdiffAntitone(v: nat, w: nat)
    requires 0 < v <= w
    ensures Pdiff(w) <= Pdiff(v)
  {
    PdiffExact(w, Pdiff(w));
    PdiffExact(v, Pdiff(w));
    hide Pdiff;
    assert 0.0 <= Pdiff(w) by { PdiffExact(w, 0.0); }
    assert Pdiff(w) * v as real <= Pdiff(w) * w as real;
  }

  /** hash_to_pdiff. */
  method HashToPdiff(hash: Hash256) returns (diff: real)
    ensures diff == Pdiff(LeValue(hash))
  {
    hide LeValue;
    var s64 := Le256ToDouble(hash);
    if s64 == 0.0 { return UINT32_MAX; }
    diff := TRUEDIFFONE / s64;
  }

  /** The header test_nonce_value puts together. */
  method BuildHeader(job: BmJob, nonce: bv32, rolledVersion: bv32) returns (header: array<bv8>)
    requires job.Valid()
    ensures fresh(header) && header[..] == Header(job.View(), nonce, rolledVersion)
  {
    hide Le32, ReverseWords;
    header := new bv8[80];
    StoreLe32(rolledVersion, header, 0);
    assert header[..4] == Le32(rolledVersion);
    Reverse32BitWords(job.prevBlockHash, header, 4);
    ghost var hashes := Le32(rolledVersion) + ReverseWords(job.prevBlockHash[..]);
    assert header[..36] == hashes;
    Reverse32BitWords(job.merkleRoot, header, 36);
    hashes := hashes + ReverseWords(job.merkleRoot[..]);
    assert header[..68] == hashes;
    StoreLe32(job.ntime, header, 68);
    StoreLe32(job.target, header, 72);
    StoreLe32(nonce, header, 76);
    assert header[..80] == header[..];
  }

  /** test_nonce_value. */
  method TestNonceValue(job: BmJob, nonce: bv32, rolledVersion: bv32) returns (diff: real)
    requires job.Valid()
    ensures diff == Pdiff(LeValue(Hash(Hash(Header(job.View(), nonce, rolledVersion)))))
  {
    hide Header, Hash, LeValue, Pdiff;
    var header := BuildHeader(job, nonce, rolledVersion);
    diff := HashToPdiff(Hash(Hash(header[..])));
  }

  /** A result frame names a job and a midstate. The driver rebuilds the version from the
      job's own version and mask; when the job has that midstate, the difficulty found is
      that of the hash which follows from the midstate the chip was given. */
  method JudgeResult(job: BmJob, midstateIndex: nat, nonce: bv32) returns (rolledVersion: bv32, diff: real)
    requires job.Valid()
    ensures rolledVersion == Roll(job.version, job.versionMask, midstateIndex)
    ensures diff == Pdiff(LeValue(Hash(Hash(Header(job.View(), nonce, rolledVersion)))))
    ensures WellBuilt(job.View()) && midstateIndex < |job.View().midstates| ==>
              diff == Pdiff(LeValue(PacketHash(job.View().midstates[midstateIndex], job.merkleRoot[..4],
                                               job.ntime, job.target, nonce)))
  {
    hide PacketHash, Header, WellBuilt, LeValue, Pdiff, Hash;
    rolledVersion := RollVersion(job.version, job.versionMask, midstateIndex);
    diff := TestNonceValue(job, nonce, rolledVersion);
    if WellBuilt(job.View()) && midstateIndex < |job.View().midstates| {
      MidstateAgrees(job.View(), midstateIndex, nonce);
      assert job.View().merkleRoot[..4] == job.merkleRoot[..4];
    }
  }
}
