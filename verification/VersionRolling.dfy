/** increment_bitmask of mining.c: stepping a block version through the bits of a mask. */
module VersionRolling {

  /** The lowest bit of a mask (zero for the empty mask). */
  function Lowest(mask: bv32): bv32 {
    mask & (0 - mask)
  }

  function Next(bit: bv32): bv32 {
    bit << 1
  }

  function Carry(value: bv32, mask: bv32): bv32 {
    (value & mask) + Lowest(mask)
  }

  function Overflow(value: bv32, mask: bv32): bv32 {
    Carry(value, mask) & !mask
  }

  function Replaced(value: bv32, mask: bv32): bv32 {
    (value & !mask) | (Carry(value, mask) & mask)
  }

  /** Where the carry goes: the mask of the next level. */
  function CarryMask(value: bv32, mask: bv32): bv32 {
    Next(Overflow(value, mask))
  }

  /** The two lowest bits a level can settle for good, and everything below them. */
  function Settled(mask: bv32): bv32 {
    (Lowest(mask) << 2) - 1
  }

  /** Each level works at least two bits further up than the one before. */
  lemma LowestQuadruples(value: bv32, mask: bv32)
    requires mask != 0
    ensures CarryMask(value, mask) & Settled(mask) == 0
  {
  }

  lemma MaskShrinks(value: bv32, mask: bv32)
    requires mask != 0
    ensures 0 - Lowest(CarryMask(value, mask)) < 0 - Lowest(mask)
  {
  }

  /** increment_bitmask. */
  function IncrementBitmask(value: bv32, mask: bv32): bv32
    decreases 0 - Lowest(mask)
  {
    if mask == 0 then value
    else if Overflow(value, mask) == 0 then Replaced(value, mask)
    else
      MaskShrinks(value, mask);
      IncrementBitmask(Replaced(value, mask), CarryMask(value, mask))
  }

  predicate Agree(x: bv32, y: bv32, bits: bv32) {
    x & bits == y & bits
  }

  // The three quantities of a level, as relations between words.

  predicate Raises(carry: bv32, value: bv32, mask: bv32, unit: bv32) {
    carry == (value & mask) + unit
  }

  predicate Overflows(over: bv32, carry: bv32, mask: bv32) {
    over == carry & !mask
  }

  predicate Merges(replaced: bv32, value: bv32, mask: bv32, carry: bv32) {
    Agree(replaced, value, !mask) && Agree(replaced, carry, mask)
  }

  lemma Level(value: bv32, mask: bv32)
    ensures Raises(Carry(value, mask), value, mask, Lowest(mask))
    ensures Overflows(Overflow(value, mask), Carry(value, mask), mask)
    ensures Merges(Replaced(value, mask), value, mask, Carry(value, mask))
  {
    LevelRaises(value, mask);
    LevelOverflows(value, mask);
    ReplacedKeeps(value, mask);
    ReplacedTakes(value, mask);
    hide Lowest, Carry, Overflow, Replaced, Raises, Overflows, Agree;
  }

  lemma LevelRaises(value: bv32, mask: bv32)
    ensures Raises(Carry(value, mask), value, mask, Lowest(mask))
  {
    hide Lowest;
  }

  lemma LevelOverflows(value: bv32, mask: bv32)
    ensures Overflows(Overflow(value, mask), Carry(value, mask), mask)
  {
    hide Carry;
  }

  lemma ReplacedKeeps(value: bv32, mask: bv32)
    ensures Agree(Replaced(value, mask), value, !mask)
  {
    hide Carry;
  }

  lemma ReplacedTakes(value: bv32, mask: bv32)
    ensures Agree(Replaced(value, mask), Carry(value, mask), mask)
  {
    hide Carry;
  }

  // ---- what one step does ---------------------------------------------------------

  /** Carries only move up: the first level settles its two lowest bits and what is
      below them. */
  lemma {:induction false} SettledAtOnce(value: bv32, mask: bv32)
    requires mask != 0
    ensures Agree(IncrementBitmask(value, mask), Replaced(value, mask), Settled(mask))
    decreases 0 - Lowest(mask)
  {
    hide Lowest, Next, Carry, Overflow, Replaced, CarryMask, Settled;
    var carryMask := CarryMask(value, mask);
    if Overflow(value, mask) != 0 && carryMask != 0 {
      hide Agree;
      MaskShrinks(value, mask);
      LowestQuadruples(value, mask);
      SettledAtOnce(Replaced(value, mask), carryMask);
      SettledBelow(IncrementBitmask(value, mask), Replaced(value, mask), mask, carryMask);
    }
  }

  lemma SettledBelow(next: bv32, value: bv32, mask: bv32, carryMask: bv32)
    requires mask != 0 && carryMask != 0 && carryMask & Settled(mask) == 0
    requires Agree(next, Replaced(value, carryMask), Settled(carryMask))
    ensures Agree(next, value, Settled(mask))
  {
    KeptBelow(value, carryMask, Settled(mask));
    SettledGrows(mask, carryMask);
  }

  lemma KeptBelow(value: bv32, mask: bv32, below: bv32)
    requires mask & below == 0 && below & (below + 1) == 0
    ensures Agree(Replaced(value, mask), value, below)
  {
  }

  lemma SettledGrows(mask: bv32, carryMask: bv32)
    requires mask != 0 && carryMask != 0 && carryMask & Settled(mask) == 0
    ensures Settled(mask) & Settled(carryMask) == Settled(mask) && Settled(mask) & (Settled(mask) + 1) == 0
  {
  }

  lemma AddFlips(x: bv32, low: bv32, sum: bv32)
    requires IsBit(low) && sum == x + low
    ensures sum & low == !x & low
  {
    BitOrNot(x, low);
    BitOrNot(sum, low);
    if sum & low == low {
      TakeAway(sum, low);
    }
  }

  lemma BitOrNot(x: bv32, low: bv32)
    requires IsBit(low)
    ensures x & low == 0 || x & low == low
  {
  }

  lemma TakeAway(x: bv32, low: bv32)
    requires x & low == low
    ensures (x - low) & low == 0
  {
  }

  predicate IsBit(bit: bv32) {
    bit != 0 && bit & (bit - 1) == 0
  }

  predicate Inside(bits: bv32, mask: bv32) {
    mask & bits == bits
  }

  predicate Outside(bits: bv32, mask: bv32) {
    mask & bits == 0
  }

  lemma LowestIsBit(mask: bv32)
    requires mask != 0
    ensures IsBit(Lowest(mask)) && Inside(Lowest(mask), mask)
  {
  }

  /** The lowest bit of the mask always flips. */
  lemma LowestFlips(value: bv32, mask: bv32)
    requires mask != 0
    ensures Agree(IncrementBitmask(value, mask), !value, Lowest(mask))
  {
    SettledAtOnce(value, mask);
    LowestIsBit(mask);
    Level(value, mask);
    hide IncrementBitmask, Lowest, Settled, Agree, Raises, Overflows, Merges, Carry, Overflow, Replaced;
    var low := Lowest(mask);
    FlipSurvives(value, mask, low, Carry(value, mask), Replaced(value, mask));
    NarrowAgree(IncrementBitmask(value, mask), Replaced(value, mask), Settled(mask), low);
    AgreeChain(IncrementBitmask(value, mask), Replaced(value, mask), !value, low);
  }

  lemma FlipSurvives(value: bv32, mask: bv32, low: bv32, carry: bv32, replaced: bv32)
    requires IsBit(low) && Inside(low, mask)
    requires Raises(carry, value, mask, low) && Merges(replaced, value, mask, carry)
    ensures Agree(replaced, !value, low)
  {
    hide Raises, Merges, Agree;
    CarryFlips(value, mask, low, carry);
    FlipMerged(value, mask, low, carry, replaced);
  }

  lemma CarryFlips(value: bv32, mask: bv32, low: bv32, carry: bv32)
    requires IsBit(low) && Raises(carry, value, mask, low)
    ensures Agree(carry, !(value & mask), low)
  {
    AddFlips(value & mask, low, carry);
  }

  lemma FlipMerged(value: bv32, mask: bv32, low: bv32, carry: bv32, replaced: bv32)
    requires Inside(low, mask) && Agree(carry, !(value & mask), low)
    requires Merges(replaced, value, mask, carry)
    ensures Agree(replaced, !value, low)
  {
  }

  lemma NarrowAgree(x: bv32, y: bv32, bits: bv32, fewer: bv32)
    requires Agree(x, y, bits) && Inside(fewer, bits)
    ensures Agree(x, y, fewer)
  {
  }

  // ---- a mask of adjacent bits -------------------------------------------------------

  predicate Contiguous(mask: bv32) {
    mask != 0 && (mask + Lowest(mask)) & mask == 0
  }

  /** The bits BIP 320 leaves to miners are adjacent. */
  lemma AdjacentBits()
    ensures Contiguous(0x1fffe000) && Contiguous(1) && Contiguous(0xffffffff)
    ensures !Contiguous(0x1fff6000) && !Contiguous(0)
  {
  }

  /** Where the carry out of a full run lands: two bits above the run's top. */
  function Landing(mask: bv32): bv32 {
    Next(mask + Lowest(mask))
  }

  /** Within a run of adjacent mask bits a step adds one unit of the lowest bit to the
      field and leaves every other bit of the version alone. A full field makes the
      version leave the mask, unless the bit the carry lands on lies beyond bit 31. */
  lemma StepWithinMask(value: bv32, mask: bv32)
    requires Contiguous(mask)
    ensures value & mask != mask ==> IncrementBitmask(value, mask) & mask == (value & mask) + Lowest(mask)
    ensures Agree(IncrementBitmask(value, mask), value, !mask)
            <==> value & mask != mask || Landing(mask) == 0
  {
    if value & mask != mask {
      StepWithRoom(value, mask);
    } else {
      StepWhenFull(value, mask);
    }
  }

  lemma StepWithRoom(value: bv32, mask: bv32)
    requires Contiguous(mask) && value & mask != mask
    ensures IncrementBitmask(value, mask) & mask == (value & mask) + Lowest(mask)
    ensures Agree(IncrementBitmask(value, mask), value, !mask)
  {
    RoomLeft(value, mask);
    FieldCounts(value, mask);
    ReplacedKeeps(value, mask);
    hide Overflow, Replaced, Lowest, Agree, Carry;
  }

  lemma StepWhenFull(value: bv32, mask: bv32)
    requires Contiguous(mask) && value & mask == mask
    ensures Agree(IncrementBitmask(value, mask), value, !mask) <==> Landing(mask) == 0
  {
    hide Agree, Lowest, Replaced, Overflow, Carry, CarryMask, Landing, Contiguous;
    FieldFull(value, mask);
    ReplacedKeeps(value, mask);
    CarryEnds(value, mask);
    hide IncrementBitmask;
    if Landing(mask) != 0 {
      LowestFlips(Replaced(value, mask), Landing(mask));
      FlipShows(IncrementBitmask(Replaced(value, mask), Landing(mask)), value, mask);
    }
  }

  lemma CarryEnds(value: bv32, mask: bv32)
    requires mask != 0 && (CarryMask(value, mask) != 0 ==> Overflow(value, mask) != 0)
    ensures IncrementBitmask(value, mask) ==
            if CarryMask(value, mask) == 0 then Replaced(value, mask)
            else IncrementBitmask(Replaced(value, mask), CarryMask(value, mask))
  {
    hide Lowest, Replaced, Overflow, Carry, CarryMask;
  }

  lemma RoomLeft(value: bv32, mask: bv32)
    requires Contiguous(mask) && value & mask != mask
    ensures Overflow(value, mask) == 0
  {
  }

  lemma FieldCounts(value: bv32, mask: bv32)
    requires Overflow(value, mask) == 0
    ensures Raises(Replaced(value, mask) & mask, value, mask, Lowest(mask))
  {
    Level(value, mask);
    hide Lowest, Raises, Overflows, Merges, Overflow, Carry, Replaced;
    MergedField(value, mask, Carry(value, mask), Replaced(value, mask));
  }

  lemma MergedField(value: bv32, mask: bv32, carry: bv32, replaced: bv32)
    requires Overflows(0, carry, mask) && Merges(replaced, value, mask, carry)
    ensures replaced & mask == carry
  {
  }

  lemma FieldFull(value: bv32, mask: bv32)
    requires Contiguous(mask) && value & mask == mask
    ensures CarryMask(value, mask) == Landing(mask)
    ensures mask != 0 && (CarryMask(value, mask) != 0 ==> Overflow(value, mask) != 0)
  {
  }

  lemma FlipShows(next: bv32, value: bv32, mask: bv32)
    requires Contiguous(mask)
    requires Landing(mask) != 0
    requires Agree(next, !Replaced(value, mask), Lowest(Landing(mask)))
    ensures !Agree(next, value, !mask)
  {
    BeyondMask(mask);
    ReplacedKeeps(value, mask);
    hide Replaced, Contiguous, Lowest, Landing;
    var bit := Lowest(Landing(mask));
    BitDiffers(next, Replaced(value, mask), value, mask, bit);
  }

  lemma BeyondMask(mask: bv32)
    requires Contiguous(mask) && Landing(mask) != 0
    ensures Lowest(Landing(mask)) != 0 && mask & Lowest(Landing(mask)) == 0
  {
  }

  lemma BitDiffers(next: bv32, replaced: bv32, value: bv32, mask: bv32, bit: bv32)
    requires bit != 0 && Outside(bit, mask)
    requires Agree(next, !replaced, bit) && Agree(replaced, value, !mask)
    ensures !Agree(next, value, !mask)
  {
  }

  // ---- the versions of one job ---------------------------------------------------------

  /** The version after n steps. */
  function Roll(value: bv32, mask: bv32, n: nat): bv32
  {
    if n == 0 then value else IncrementBitmask(Roll(value, mask, n - 1), mask)
  }

  /** The version of a found nonce is rebuilt from the job's version and its midstate
      index. */
  method RollVersion(version: bv32, mask: bv32, midstateIndex: nat) returns (rolled: bv32)
    ensures rolled == Roll(version, mask, midstateIndex)
  {
    rolled := version;
    for i := 0 to midstateIndex
      invariant rolled == Roll(version, mask, i)
    {
      rolled := IncrementBitmask(rolled, mask);
    }
  }

  /** A bit at 29 or below, or both of the top two. */
  predicate FourVersions(mask: bv32) {
    mask & 0x3FFFFFFF != 0 || mask == 0xC0000000
  }

  /** The four versions of a job are pairwise different exactly for these masks. */
  lemma VersionsDistinct(value: bv32, mask: bv32)
    ensures (forall i: nat, j: nat :: i < j < 4 ==> Roll(value, mask, i) != Roll(value, mask, j))
       <==> FourVersions(mask)
  {
    RollUnfolds(value, mask);
    hide IncrementBitmask, Roll;
    if FourVersions(mask) {
      FourDiffer(value, mask);
      hide FourVersions;
    } else {
      TwoSteps(value, mask);
      hide FourVersions;
      var i: nat, j: nat := 0, 2;
      assert Roll(value, mask, i) == Roll(value, mask, j);
    }
  }

  /** A mask of sixteen adjacent bits counts up. */
  lemma RollExample()
    ensures Roll(0x20000004, 0x00ffff00, 1) == 0x20000104 && Roll(0x20000004, 0x00ffff00, 2) == 0x20000204
    ensures Roll(0x20000004, 0x00ffff00, 3) == 0x20000304
  {
    RollUnfolds(0x20000004, 0x00ffff00);
    assert IncrementBitmask(0x20000004, 0x00ffff00) == 0x20000104;
    assert IncrementBitmask(0x20000104, 0x00ffff00) == 0x20000204;
    assert IncrementBitmask(0x20000204, 0x00ffff00) == 0x20000304;
  }

  lemma RollUnfolds(value: bv32, mask: bv32)
    ensures Roll(value, mask, 0) == value
    ensures Roll(value, mask, 1) == IncrementBitmask(value, mask)
    ensures Roll(value, mask, 2) == IncrementBitmask(IncrementBitmask(value, mask), mask)
    ensures Roll(value, mask, 3) == IncrementBitmask(Roll(value, mask, 2), mask)
  {
    hide IncrementBitmask;
  }

  lemma FourDiffer(value: bv32, mask: bv32)
    requires FourVersions(mask)
    ensures Roll(value, mask, 0) != Roll(value, mask, 1) && Roll(value, mask, 1) != Roll(value, mask, 2)
    ensures Roll(value, mask, 2) != Roll(value, mask, 3) && Roll(value, mask, 0) != Roll(value, mask, 2)
    ensures Roll(value, mask, 1) != Roll(value, mask, 3) && Roll(value, mask, 0) != Roll(value, mask, 3)
  {
    assert mask != 0;
    RollUnfolds(value, mask);
    hide IncrementBitmask, Roll, FourVersions, Agree, Lowest;
    var v1, v2, v3 := Roll(value, mask, 1), Roll(value, mask, 2), Roll(value, mask, 3);
    TwoSteps(value, mask);
    TwoSteps(v1, mask);
    StepChanges(value, v1, mask);
    StepChanges(v1, v2, mask);
    StepChanges(v2, v3, mask);
    ThreeFlips(value, v1, v2, v3, mask);
  }

  lemma StepChanges(value: bv32, next: bv32, mask: bv32)
    requires mask != 0 && next == IncrementBitmask(value, mask)
    ensures Agree(next, !value, Lowest(mask)) && next != value
  {
    hide IncrementBitmask;
    LowestFlips(value, mask);
    LowestIsBit(mask);
    hide Lowest;
  }

  lemma ThreeFlips(v0: bv32, v1: bv32, v2: bv32, v3: bv32, mask: bv32)
    requires mask != 0
    requires Agree(v1, !v0, Lowest(mask)) && Agree(v2, !v1, Lowest(mask)) && Agree(v3, !v2, Lowest(mask))
    ensures v3 != v0
  {
    LowestIsBit(mask);
    hide Lowest;
  }

  /** Two steps lead back to the start exactly when the mask has room for fewer than
      four versions. */
  lemma TwoSteps(value: bv32, mask: bv32)
    ensures IncrementBitmask(IncrementBitmask(value, mask), mask) == value <==> !FourVersions(mask)
  {
    MaskCases(mask);
    hide IncrementBitmask, FourVersions, Lowest, Next;
    if mask == 0 {
      NoMask(value);
    } else if mask == 0x80000000 {
      TopBitAlone(value);
    } else if !Outside(Next(Lowest(mask)), mask) {
      TwoStepsPaired(value, mask);
    } else {
      TwoStepsLone(value, mask);
    }
  }

  lemma NoMask(value: bv32)
    ensures IncrementBitmask(IncrementBitmask(value, 0), 0) == value
  {
  }

  lemma TopBitAlone(value: bv32)
    ensures IncrementBitmask(IncrementBitmask(value, 0x80000000), 0x80000000) == value
  {
    TopBitFlips(value);
    TopBitFlips(value ^ 0x80000000);
    hide IncrementBitmask;
  }

  lemma TopBitFlips(value: bv32)
    ensures IncrementBitmask(value, 0x80000000) == value ^ 0x80000000
  {
  }

  lemma MaskCases(mask: bv32)
    ensures mask == 0 || mask == 0x80000000 ==> !FourVersions(mask)
    ensures mask != 0 && mask != 0x80000000 ==> Next(Lowest(mask)) != 0
    ensures mask != 0 && mask != 0x80000000 ==>
              (FourVersions(mask) <==> !Outside(Next(Lowest(mask)), mask) || Next(Next(Lowest(mask))) != 0)
  {
  }

  // -- two adjacent lowest bits

  /** The second bit after adding one unit at the first. */
  function Carried(value: bv32, low: bv32): bv32 {
    value ^ ((value & low) << 1)
  }

  /** With its two lowest bits adjacent, a mask counts modulo four on them. */
  lemma TwoStepsPaired(value: bv32, mask: bv32)
    requires mask != 0 && !Outside(Next(Lowest(mask)), mask)
    ensures IncrementBitmask(IncrementBitmask(value, mask), mask) != value
  {
    LowestIsBit(mask);
    SecondIsSettled(mask);
    hide IncrementBitmask, Lowest, Next, Carried, Agree;
    var next := IncrementBitmask(value, mask);
    SecondBit(value, mask);
    SecondBit(next, mask);
    LowestFlips(value, mask);
    BothBits(value, next, IncrementBitmask(next, mask), Lowest(mask));
  }

  lemma BothBits(v0: bv32, v1: bv32, v2: bv32, low: bv32)
    requires IsBit(low) && Next(low) != 0
    requires Agree(v1, Carried(v0, low), Next(low)) && Agree(v2, Carried(v1, low), Next(low))
    requires Agree(v1, !v0, low)
    ensures v2 != v0
  {
  }

  lemma SecondBit(value: bv32, mask: bv32)
    requires mask != 0 && !Outside(Next(Lowest(mask)), mask)
    ensures Agree(IncrementBitmask(value, mask), Carried(value, Lowest(mask)), Next(Lowest(mask)))
  {
    LowestIsBit(mask);
    SecondIsSettled(mask);
    Level(value, mask);
    hide IncrementBitmask, Lowest, Settled, Agree, Next, Carried, Raises, Overflows, Merges, Carry, Overflow, Replaced;
    var low := Lowest(mask);
    SettledAtOnce(value, mask);
    CarrySurvives(value, mask, low, Carry(value, mask), Replaced(value, mask));
    NarrowAgree(IncrementBitmask(value, mask), Replaced(value, mask), Settled(mask), Next(low));
    AgreeChain(IncrementBitmask(value, mask), Replaced(value, mask), Carried(value, low), Next(low));
  }

  lemma AgreeChain(x: bv32, y: bv32, z: bv32, bits: bv32)
    requires Agree(x, y, bits) && Agree(y, z, bits)
    ensures Agree(x, z, bits)
  {
  }

  lemma SecondIsSettled(mask: bv32)
    requires mask != 0 && !Outside(Next(Lowest(mask)), mask)
    ensures Inside(Next(Lowest(mask)), Settled(mask))
    ensures Inside(Next(Lowest(mask)), mask)
  {
  }

  lemma CarrySurvives(value: bv32, mask: bv32, low: bv32, carry: bv32, replaced: bv32)
    requires IsBit(low) && Inside(low, mask) && Inside(Next(low), mask)
    requires Raises(carry, value, mask, low) && Merges(replaced, value, mask, carry)
    ensures Agree(replaced, Carried(value, low), Next(low))
  {
    hide Raises, Merges, Agree, Carried, Next;
    CarryCarries(value, mask, low, carry);
    CarryMerged(value, mask, low, carry, replaced);
  }

  lemma CarryCarries(value: bv32, mask: bv32, low: bv32, carry: bv32)
    requires IsBit(low) && Raises(carry, value, mask, low)
    ensures Agree(carry, Carried(value & mask, low), Next(low))
  {
  }

  lemma CarryMerged(value: bv32, mask: bv32, low: bv32, carry: bv32, replaced: bv32)
    requires Inside(low, mask) && Inside(Next(low), mask)
    requires Agree(carry, Carried(value & mask, low), Next(low)) && Merges(replaced, value, mask, carry)
    ensures Agree(replaced, Carried(value, low), Next(low))
  {
  }

  // -- a lone lowest bit

  function With(value: bv32, bit: bv32): bv32 { value | bit }

  function Without(value: bv32, bit: bv32): bv32 { value & !bit }

  predicate Has(value: bv32, bit: bv32) { value & bit != 0 }

  lemma WithWithout(value: bv32, bit: bv32)
    requires IsBit(bit)
    ensures Has(With(value, bit), bit) && !Has(Without(value, bit), bit)
    ensures if Has(value, bit) then With(Without(value, bit), bit) == value else Without(With(value, bit), bit) == value
  {
    NowHas(value, bit);
    hide With, Without, Has;
    if Has(value, bit) { ClearThenSet(value, bit); } else { SetThenClear(value, bit); }
  }

  lemma NowHas(value: bv32, bit: bv32)
    requires bit != 0
    ensures Has(With(value, bit), bit) && !Has(Without(value, bit), bit)
  {
  }

  lemma ClearThenSet(value: bv32, bit: bv32)
    requires Has(value, bit) && IsBit(bit)
    ensures With(Without(value, bit), bit) == value
  {
  }

  lemma SetThenClear(value: bv32, bit: bv32)
    requires !Has(value, bit)
    ensures Without(With(value, bit), bit) == value
  {
  }

  lemma WithInjective(x: bv32, y: bv32, bit: bv32)
    requires !Has(x, bit) && !Has(y, bit) && With(x, bit) == With(y, bit)
    ensures x == y
  {
  }

  /** It toggles, and each time it is cleared the count goes on two bits further up. */
  lemma LoneStep(value: bv32, mask: bv32)
    requires mask != 0 && Next(Lowest(mask)) != 0 && Outside(Next(Lowest(mask)), mask)
    ensures IncrementBitmask(value, mask) ==
            if !Has(value, Lowest(mask)) then With(value, Lowest(mask))
            else if Next(Next(Lowest(mask))) == 0 then Without(value, Lowest(mask))
            else IncrementBitmask(Without(value, Lowest(mask)), Next(Next(Lowest(mask))))
  {
    LoneCarry(value, mask);
    hide IncrementBitmask, Lowest, Carry, Overflow, Replaced, CarryMask, With, Without, Has;
    CarryEnds(value, mask);
  }

  lemma LoneCarry(value: bv32, mask: bv32)
    requires mask != 0 && Next(Lowest(mask)) != 0 && Outside(Next(Lowest(mask)), mask)
    ensures CarryMask(value, mask) != 0 ==> Overflow(value, mask) != 0
    ensures Has(value, Lowest(mask)) ==>
              CarryMask(value, mask) == Next(Next(Lowest(mask))) &&
              Replaced(value, mask) == Without(value, Lowest(mask))
    ensures !Has(value, Lowest(mask)) ==>
              CarryMask(value, mask) == 0 && Replaced(value, mask) == With(value, Lowest(mask))
  {
    LowestIsBit(mask);
    NextOfZero();
    Level(value, mask);
    NextOfNonzero(Overflow(value, mask));
    hide Lowest, Next, With, Without, Has, Carry, Overflow, Replaced, Raises, Overflows, Merges;
    var carry, over, replaced := Carry(value, mask), Overflow(value, mask), Replaced(value, mask);
    if Has(value, Lowest(mask)) {
      LoneSet(value, mask, Lowest(mask), carry, over, replaced);
    } else {
      LoneClear(value, mask, Lowest(mask), carry, over, replaced);
    }
  }

  lemma NextOfZero()
    ensures Next(0) == 0
  {
  }

  lemma NextOfNonzero(bit: bv32)
    ensures Next(bit) != 0 ==> bit != 0
  {
  }

  /** carry is the masked field with low set. */
  predicate Sets(carry: bv32, value: bv32, mask: bv32, low: bv32) {
    carry == (value & mask) | low
  }

  /** carry is the masked field with its unit moved from low to second. */
  predicate Moves(carry: bv32, value: bv32, mask: bv32, low: bv32, second: bv32) {
    carry == ((value & mask) & !low) | second
  }

  lemma LoneClear(value: bv32, mask: bv32, low: bv32, carry: bv32, over: bv32, replaced: bv32)
    requires Inside(low, mask) && !Has(value, low)
    requires Raises(carry, value, mask, low) && Overflows(over, carry, mask) && Merges(replaced, value, mask, carry)
    ensures over == 0 && replaced == With(value, low)
  {
    hide Raises, Overflows, Merges, Sets, Has, With;
    CarryClear(value, mask, low, carry);
    ClearStays(value, mask, low, carry, over);
    ClearMerges(value, mask, low, carry, replaced);
  }

  lemma CarryClear(value: bv32, mask: bv32, low: bv32, carry: bv32)
    requires Raises(carry, value, mask, low) && !Has(value, low)
    ensures Sets(carry, value, mask, low)
  {
  }

  lemma ClearStays(value: bv32, mask: bv32, low: bv32, carry: bv32, over: bv32)
    requires Inside(low, mask) && Sets(carry, value, mask, low) && Overflows(over, carry, mask)
    ensures over == 0
  {
  }

  lemma ClearMerges(value: bv32, mask: bv32, low: bv32, carry: bv32, replaced: bv32)
    requires Inside(low, mask) && Sets(carry, value, mask, low) && Merges(replaced, value, mask, carry)
    ensures replaced == With(value, low)
  {
  }

  lemma LoneSet(value: bv32, mask: bv32, low: bv32, carry: bv32, over: bv32, replaced: bv32)
    requires IsBit(low) && Inside(low, mask) && Has(value, low) && Outside(Next(low), mask)
    requires Raises(carry, value, mask, low) && Overflows(over, carry, mask) && Merges(replaced, value, mask, carry)
    ensures over == Next(low) && replaced == Without(value, low)
  {
    hide Raises, Overflows, Merges, Moves, Has, Without, Next;
    CarrySet(value, mask, low, carry);
    SetOverflows(value, mask, low, Next(low), carry, over);
    SetMerges(value, mask, low, Next(low), carry, replaced);
  }

  lemma CarrySet(value: bv32, mask: bv32, low: bv32, carry: bv32)
    requires IsBit(low) && Inside(low, mask) && Has(value, low) && Outside(Next(low), mask)
    requires Raises(carry, value, mask, low)
    ensures Moves(carry, value, mask, low, Next(low))
  {
  }

  lemma SetOverflows(value: bv32, mask: bv32, low: bv32, second: bv32, carry: bv32, over: bv32)
    requires Outside(second, mask) && Moves(carry, value, mask, low, second) && Overflows(over, carry, mask)
    ensures over == second
  {
  }

  lemma SetMerges(value: bv32, mask: bv32, low: bv32, second: bv32, carry: bv32, replaced: bv32)
    requires Inside(low, mask) && Outside(second, mask)
    requires Moves(carry, value, mask, low, second) && Merges(replaced, value, mask, carry)
    ensures replaced == Without(value, low)
  {
  }

  lemma TwoStepsLone(value: bv32, mask: bv32)
    requires mask != 0 && Next(Lowest(mask)) != 0 && Outside(Next(Lowest(mask)), mask)
    ensures IncrementBitmask(IncrementBitmask(value, mask), mask) == value <==> Next(Next(Lowest(mask))) == 0
  {
    LowestIsBit(mask);
    ShiftedAbove(mask);
    hide IncrementBitmask, Lowest, Next, With, Without, Has, Agree;
    var low := Lowest(mask);
    var up := Next(Next(low));
    var next := IncrementBitmask(value, mask);
    LoneStep(value, mask);
    LoneStep(next, mask);
    WithWithout(value, low);
    if !Has(value, low) {
      if up != 0 { StepChanges(value, IncrementBitmask(value, up), up); }
    } else if up != 0 {
      var cleared := Without(value, low);
      StepChanges(cleared, next, up);
      BitKept(cleared, next, up, low);
      if With(next, low) == With(cleared, low) { WithInjective(next, cleared, low); }
    }
  }

  lemma ShiftedAbove(mask: bv32)
    requires mask != 0
    ensures Outside(UpTo(Lowest(mask)), Next(Next(Lowest(mask))))
  {
  }

  /** The bit and everything below it. */
  function UpTo(low: bv32): bv32 {
    low | (low - 1)
  }

  lemma BitKept(value: bv32, next: bv32, mask: bv32, low: bv32)
    requires mask != 0 && next == IncrementBitmask(value, mask)
    requires IsBit(low) && Outside(UpTo(low), mask) && !Has(value, low)
    ensures !Has(next, low)
  {
    SettledAtOnce(value, mask);
    hide IncrementBitmask;
    KeptBelow(value, mask, UpTo(low));
    BelowIsSettled(mask, low);
    hide Settled, Replaced;
    BitSame(value, next, Replaced(value, mask), Settled(mask), low);
  }

  lemma BelowIsSettled(mask: bv32, low: bv32)
    requires mask != 0 && IsBit(low) && Outside(UpTo(low), mask)
    ensures Inside(UpTo(low), Settled(mask))
  {
  }

  lemma BitSame(value: bv32, next: bv32, replaced: bv32, settled: bv32, low: bv32)
    requires Agree(next, replaced, settled) && Agree(replaced, value, UpTo(low))
    requires Inside(UpTo(low), settled)
    requires !Has(value, low)
    ensures !Has(next, low)
  {
  }
}
