# Verified models of the miner firmware

This project models the algorithmic parts of an ESP32 Bitcoin miner firmware in Dafny and proves what they
are for. Each module follows one source file, or one protocol that several files share.

| module | models | central results |
|---|---|---|
| `Polymod`, `RootField`, `ScatteredErrors`, `Bech32`, `BitRegroup`, `SegwitAddr`, `AddressVectors` | Bech32, Bech32m and segwit addresses (BIP 173, BIP 350) | both round trips, uniqueness of addresses, known addresses, detection of changed runs of up to six symbols and of any three changed symbols |
| `Base58` (with `Digits`, `Arith`) | Base58 in both directions | the 138/100 buffer bound, exact values, both round trips |
| `NvsConfig` | the settings cache with its write-behind queue | a set is in the cache when it returns; coherence of cache, queue and store in every interleaving, exactly for tables without shared names; what a reload and a loss of power leave |
| `JobSlots` | job ids and slots of the BM1366, BM1370 and BM1397 drivers | no stale slot survives a clean, a returned id byte finds exactly its own job, jobs are freed exactly once |
| `LogBuffer` (with `RingCells`) | the persistent log ring, its reader and its flusher | the ring holds the newest bytes of an unbounded log; readers and flusher lose only what is counted |
| `WorkQueue` | the bounded blocking queue | first in, first out over every run; who can be left waiting |
| `LineFramer`, `LineChunks` | splitting the pool connection into lines | lines depend on the bytes received and not on how they arrive exactly when no newline follows a NUL |
| `VirtualBoard` | the board simulation's queue, slots and share filter | stale work is purged exactly, every result is counted where the events before it say, no early duplicates |
| `Crc` | CRC-5 and the two CRC-16s | which frames pass, which errors are caught, table form equals bit form |
| `Sha256`, `ShaLaws`, `ByteOrder`, `VersionRolling`, `Mining` | SHA-256 compression (FIPS 180-4), byte orders, hexadecimal, version rolling, job headers, difficulty | the functions and constants of FIPS 180-4; a job's midstates lead to the hash the firmware recomputes; when the four versions differ |
| `Pll`, `FrequencyTransition` | the clock divider search and the frequency ramp | the search misses the best by less than one EPSILON, and when it finds it; ramps are monotone, bounded and complete |

Functions give the meaning of an operation, methods follow the C loops and are proved equal to those
functions, and lemmas state what the functions promise. Objects that the firmware updates in place are
classes whose `Valid` predicate every method keeps. Tasks that run against each other are state machines: a
run is a sequence of steps that are enabled one after the other, and results hold after every run.

The models use unbounded naturals for counters and lengths, `bv8`, `bv16` and `bv32` where the source
depends on machine words, and real numbers for floating point.

Where a promise does not hold as stated, the project says exactly when it does, with the one exception that the
last item names:

* The lines of a pool stream are the same under every splitting into reads if and only if no newline comes
  after a NUL byte: a NUL drops the rest of its read, and with it a newline, or not, as the reads happen to fall.
* A segwit address decodes to what was encoded if and only if the human-readable part is not empty and the
  version is not negative: an empty part is encoded and cannot be decoded, and a negative `witver` is narrowed
  to a byte, so that -256 is written as version 0.
* A Base58 text is decoded to no more bytes than the output holds if and only if its characters are all digits
  and its leading zeros and its value fit together; the source checks the value only, and reports two bytes
  for `11` in a buffer of one.
* The id byte of a result leads into the tables of 128 jobs if and only if the chip is a BM1370 or the byte is
  below 0x80: the masks of the BM1366 and BM1397 drivers keep the high bit. Every byte that a chip makes from an
  id it was sent is below.
* A string setting survives a reload if and only if it is not empty or its default is empty too: the loader
  takes an empty stored string for an absent one.
* The cache agrees with queue and store in every run if and only if no two cells are stored under one name. That
  none are follows from checks on the table of settings.
* `queue_clear` empties the queue but signals one producer. It breaks the rule that a waiting producer's
  place is never left unclaimed exactly when several producers wait and fewer than `QUEUE_SIZE - 1` others
  have been woken before.
* Rolling a version keeps it inside a mask of adjacent bits as long as the field is not full; from a full
  field it stays inside only if the carry falls off the top. The four versions of a job are pairwise
  different exactly for masks with a bit at position 29 or below, or with both top bits.
* Two flipped bits escape CRC-5 exactly when their distance is a multiple of 31.
* A clean notify empties the simulated board exactly when nothing on it carries the new epoch. In a run that
  enqueues work only under epochs reached so far it always does.
* The divider search returns a closest setting if and only if some closest candidate would not be replaced by any
  farther one tried after it: a later setting that is worse by less than EPSILON replaces a closer one if its
  oscillator is slower. About 400.8929 MHz is a clock at which the BM1366's bounds make it miss. It comes back with
  a clock if and only if a candidate has one and, where the last setting has the clock 0, is closer than no clock
  by EPSILON. That no candidate is almost closest is sufficient for the intended setting, not necessary.
* The reported dividers give the reported clock exactly when the feedback divider fits a byte, as the bounds that
  the drivers pass ensure.
* A job is built and judged under one version mask, although the mask is read twice, if the two values read roll
  its version alike. This is shown in one direction only: where they do not, the versions differ, and that their
  hashes do cannot be proved. A mask turned off in between is an example.

## Model

| member | source | states |
|---|---|---|
| Polymod.StepLinear | components/stratum/segwit_addr.c:28-36 | one checksum step is linear over GF(2) |
| Polymod.StepInjective | components/stratum/segwit_addr.c:28-36 | a step loses no information on 30-bit registers |
| Polymod.AbsorbInjective | components/stratum/segwit_addr.c:77-81 | two registers that agree after the same symbols agreed before them |
| Polymod.AbsorbSplit | components/stratum/segwit_addr.c:77-81 | the register splits into the effect of its start and the effect of the symbols |
| Polymod.ChecksumExact | components/stratum/segwit_addr.c:82-88 | six symbols bring a register to a constant if and only if they are the ones the encoder writes |
| Polymod.WindowInjective | components/stratum/segwit_addr.c:127-142 | up to six symbols are determined by the register they leave |
| Polymod.BurstDetected | components/stratum/segwit_addr.c:127-142 | changing a run of up to six symbols always changes the final register |
| RootField.NoReturn | components/stratum/segwit_addr.c:28-36 | in the field of the generator's roots fewer than 1023 multiplications by the element b bring nothing back but 0 |
| ScatteredErrors.EvalStep | components/stratum/segwit_addr.c:28-36 | one checksum step multiplies the register's value at three neighbouring roots by the root: the generator vanishes there |
| ScatteredErrors.NoThreeCancel | components/stratum/segwit_addr.c:28-36 | three symbol differences fewer than 1023 steps apart never cancel |
| ScatteredErrors.NeverOneSymbol | components/stratum/segwit_addr.c:28-36 | a wrong symbol leaves a difference of more than one symbol at each of the next 1022 steps |
| ScatteredErrors.DifferenceAlone | components/stratum/segwit_addr.c:127-142 | the difference of two registers that absorb the same symbols evolves by the steps alone |
| ScatteredErrors.TwoDetected | components/stratum/segwit_addr.c:127-142 | changing one or two symbols fewer than 1023 places apart always changes the final register |
| ScatteredErrors.ThreeDetected | components/stratum/segwit_addr.c:127-142 | so does changing up to three |
| Bech32.ResidueExact | components/stratum/segwit_addr.c:82-88 | the residue of data and six symbols is a variant's constant if and only if they are its checksum |
| Bech32.VariantsDiffer | components/stratum/segwit_addr.c:38-42 | for every prefix and data the two checksums differ by the word 0x2bc830a3 xor 1 |
| Bech32.EncodableExact | components/stratum/segwit_addr.c:60-66 | a prefix can be encoded if and only if it is of printable characters without capitals |
| Bech32.EncodeExact | components/stratum/segwit_addr.c:57-91 | the encoder accepts encodable prefixes with data of five bits each, up to 90 characters in all, and nothing else |
| Bech32.TailLengthExact | components/stratum/segwit_addr.c:103-105 | the data part runs back to the last separator |
| Bech32.SplitOfJoin | components/stratum/segwit_addr.c:72-88 | an encoded text splits back into its two parts and is lower case |
| Bech32.DecodeOfEncode | components/stratum/segwit_addr.c:57-154 | decoding an encoding gives variant, human-readable part and data, unless that part is empty |
| Bech32.EncodeOfDecode | components/stratum/segwit_addr.c:57-154 | every accepted text re-encodes to its own lower-case form |
| Bech32.DecodeExact | components/stratum/segwit_addr.c:93-154 | a text is accepted if and only if, in small letters, it is an encoding under a prefix that is not empty, and it does not mix small letters and capitals |
| Bech32.BurstRejected | components/stratum/segwit_addr.c:93-154 | two accepted texts of one variant and prefix never differ within six neighbouring symbols only |
| Bech32.PairRejected | components/stratum/segwit_addr.c:93-154 | two accepted texts of one variant and prefix never differ in two data characters only, wherever these stand |
| Bech32.TripleRejected | components/stratum/segwit_addr.c:93-154 | nor in three |
| Bech32.WriteData | components/stratum/segwit_addr.c:77-81 | refuses data beyond five bits, absorbs the rest and writes its characters |
| Bech32.AbsorbHighBits | components/stratum/segwit_addr.c:60-69 | accepts exactly the encodable prefixes and absorbs their high bits |
| Bech32.AbsorbLowBits | components/stratum/segwit_addr.c:71-75 | the register after the expanded prefix |
| Bech32.WriteChecksum | components/stratum/segwit_addr.c:82-88 | the six checksum characters |
| Bech32.Bech32Encode | components/stratum/segwit_addr.c:57-91 | the loops succeed exactly when an encoding exists and write it |
| Bech32.FindSeparator | components/stratum/segwit_addr.c:102-105 | the length after the last separator |
| Bech32.ReadHrp | components/stratum/segwit_addr.c:111-125 | accepts printable prefixes, lowers them, absorbs their high bits and tracks case |
| Bech32.AbsorbInputLowBits | components/stratum/segwit_addr.c:126-129 | absorbing the low bits of the text as typed equals absorbing those of its lower-case form |
| Bech32.ReadData | components/stratum/segwit_addr.c:130-143 | accepts exactly the charset, returns all but six symbols and the full residue |
| Bech32.Bech32Decode | components/stratum/segwit_addr.c:93-154 | the loops compute the specified decoding, rejections included |
| BitRegroup.UnpadAfterPad | components/stratum/segwit_addr.c:156-176 | regrouping bytes to five bits with padding and back without gives the bytes |
| BitRegroup.PadBits | components/stratum/segwit_addr.c:156-176 | padding into symbols of five bits keeps every bit in its place and adds zeros at the end |
| BitRegroup.PadAfterUnpad | components/stratum/segwit_addr.c:156-176 | accepted five-bit groups are the padded regrouping of the bytes they give: the padding is zero and short |
| BitRegroup.EmitGroups | components/stratum/segwit_addr.c:163-166 | emitting groups keeps the value of what is emitted and what is left |
| BitRegroup.Finish | components/stratum/segwit_addr.c:168-175 | pads, or rejects exactly the remainders the specification rejects |
| BitRegroup.ConvertBits | components/stratum/segwit_addr.c:156-176 | the loops compute the specified regrouping |
| SegwitAddr.SameHrp | components/stratum/segwit_addr.c:199 | comparing 84 characters compares the whole human-readable part |
| SegwitAddr.DecodeOfSegwitEncode | components/stratum/segwit_addr.c:178-209 | an encoded program decodes to itself if and only if the prefix is not empty and the version not negative |
| SegwitAddr.SegwitEncodeExact | components/stratum/segwit_addr.c:178-190 | accepts exactly the versions 0 to 16 in their low byte, programs of 2 to 40 bytes, 20 or 32 for version 0, an encodable prefix and at most 90 characters |
| SegwitAddr.SegwitVariant | components/stratum/segwit_addr.c:178-190 | an address begins with its version, and is a Bech32m text if and only if that is 1 or above |
| SegwitAddr.EmptyPrefixLost | components/stratum/segwit_addr.c:178-209 | an address with an empty prefix is written and does not come back |
| SegwitAddr.NegativeVersionIsZero | components/stratum/segwit_addr.c:178-190 | the version -256 is written as version 0 |
| SegwitAddr.SegwitEncodeOfDecode | components/stratum/segwit_addr.c:178-209 | every accepted address re-encodes to its lower-case form |
| SegwitAddr.SegwitAddressUnique | components/stratum/segwit_addr.c:192-209 | one program has one address up to case |
| SegwitAddr.SegwitDecodeExact | components/stratum/segwit_addr.c:192-209 | an address is accepted if and only if, in small letters, it is an encoding of some program under the given prefix, and it does not mix cases |
| SegwitAddr.SegwitBurstRejected | components/stratum/segwit_addr.c:192-209 | two accepted addresses of one variant never differ within six neighbouring characters only |
| SegwitAddr.SegwitPairRejected | components/stratum/segwit_addr.c:192-209 | two accepted addresses of one variant never differ in two data characters only |
| SegwitAddr.SegwitTripleRejected | components/stratum/segwit_addr.c:192-209 | nor in three |
| SegwitAddr.SegwitAddrEncode | components/stratum/segwit_addr.c:178-190 | the checks, regrouping and encoding in the source's order give the specified address |
| SegwitAddr.SegwitAddrDecode | components/stratum/segwit_addr.c:192-209 | the checks in the source's order give the specified decoding |
| AddressVectors.ShortAnswer | components/stratum/segwit_addr.c:57-91 | "a" without data is a12uel5l |
| AddressVectors.ShortVariantAnswer | components/stratum/segwit_addr.c:57-91 | as Bech32m it is a1lqfn3a |
| AddressVectors.EverySymbolAnswer | components/stratum/segwit_addr.c:57-91 | "abcdef" with all 32 symbols, as Bech32m: fixes the character set and the generator |
| AddressVectors.KeyHashAddress | components/stratum/test/test_bech32.c:6-19 | the witness key hash address of the unit test |
| AddressVectors.TaprootAddress | components/stratum/segwit_addr.c:178-190 | the version 1 address of BIP 350 with the prefix bc |
| Base58.BufferBound | components/stratum/base58.c:155 | n bytes fit the digits that n * 138 / 100 + 1 provides |
| Base58.ValueFitsBuffer | components/stratum/base58.c:152-157 | the buffer can hold the value of the whole input |
| Base58.SweepEnd | components/stratum/base58.c:161-170 | a full sweep leaves a carry exactly when the number does not fit |
| Base58.SweepStop | components/stratum/base58.c:161 | stopping at carry zero is right when only zero digits remain above |
| Base58.TopDigitZero | components/stratum/base58.c:159-171 | the top digit stays zero until the last byte, so the shortcut index never wraps early |
| Base58.AddByte | components/stratum/base58.c:161-170 | one sweep turns value v into 256 * v + byte, loses no carry and keeps the digits above the shortcut zero |
| Base58.ToBase58 | components/stratum/base58.c:155-171 | the buffer ends as the exact base-58 digits of the input |
| Base58.CountZeros | components/stratum/base58.c:152-153 | the number of leading zeros |
| Base58.WriteChars | components/stratum/base58.c:181-185 | one character for each leading zero and each digit |
| Base58.B58Enc | components/stratum/base58.c:145-189 | the text and its size, or the size needed when the buffer is too small |
| Base58.EncodeMeaning | components/stratum/base58.c:145-189 | the text has the input's leading zeros and the input's value |
| Base58.EncodeUnique | components/stratum/base58.c:145-189 | no other digits have that value and those leading zeros |
| Base58.AlphabetExact | components/stratum/base58.c:23-32 | the digits are the ASCII digits and letters without 0, I, O and l |
| Base58.AlphabetAscends | components/stratum/base58.c:143 | larger digits have larger character codes |
| Base58.AddDigit | components/stratum/base58.c:72-78 | one sweep turns v into 58 * v + digit modulo the words, with the carry as quotient |
| Base58.OverflowTests | components/stratum/base58.c:79-84 | the two tests together mean exactly that the value fits the output bytes |
| Base58.ReadDigits | components/stratum/base58.c:64-85 | the words hold the text's value, or the text is rejected for a bad digit or for size |
| Base58.WriteWord | components/stratum/base58.c:89-99 | a word as big-endian bytes |
| Base58.WriteWords | components/stratum/base58.c:87-100 | the words as exactly the output's bytes |
| Base58.B58ToBin | components/stratum/base58.c:39-113 | output, reported size and rejections are the specified ones |
| Base58.DecodeFits | components/stratum/base58.c:39-113 | a text is accepted with no more bytes than the output holds if and only if it is all digits and its leading zeros and value fit |
| Base58.DecodeAccepts | components/stratum/base58.c:39-113 | for every text: accepted if and only if it is all digits and its value is below 256 to the size of the output; the output has that value, and what size is reported |
| Base58.ZerosBeyondOutput | components/stratum/base58.c:103-110 | two ones and an output of one byte: accepted, with a reported size of two |
| Base58.DecodeMeaning | components/stratum/base58.c:39-113 | for every text that fits, the reported bytes have its leading zeros and value |
| Base58.DecodeOfEncode | components/stratum/base58.c:39-189 | decoding an encoding gives the bytes, right-aligned, with their original length |
| Base58.EncodeOfDecode | components/stratum/base58.c:39-189 | every text that fits is the encoding of what it reports |
| NvsConfig.IndexedNamesDistinct | main/nvs_config.c:189-198 | different indices of one setting have different key names when the names fit |
| NvsConfig.CheckedInjective | main/nvs_config.c:189-198 | names that fit, differ, and are not each other's indexed forms make all stored names different |
| NvsConfig.CellsExact | main/nvs_config.c:184-187 | a setting has as many cells as its array has elements, or one |
| NvsConfig.WidthExact | main/nvs_config.c:189-198 | an index is written with the digits that the last index counted from zero has, five at most |
| NvsConfig.KeyNameExamples | main/nvs_config.c:189-198 | pool_1 for the first of three, pool_07 for the seventh of twelve |
| NvsConfig.KeyNameLimits | main/nvs_config.c:189-198 | a plain setting keeps its name, and a name is cut to 15 characters |
| NvsConfig.SharedNameBreaks | main/nvs_config.c:382-435 | for any two cells with one stored name, of whatever kinds, a run exists that leaves one of them incoherent |
| NvsConfig.CoherenceExact | main/nvs_config.c:382-435 | every run keeps every cell coherent if and only if no two cells share a stored name |
| NvsConfig.ReadYourWrite | main/nvs_config.c:627-748 | from every state, a set of a valid value is in the cache when it returns and changes no other cell; a string may be compared first and written next |
| NvsConfig.RunFollowsSets | main/nvs_config.c:627-748 | over every run, by the list of events alone: each cell holds the value of its last completed set, or what was loaded |
| NvsConfig.SendExact | main/nvs_config.c:563 | a setter waits for the queue exactly while 50 updates are in it |
| NvsConfig.StoredDurable | main/nvs_config.c:475-559 | a stored value loads back if and only if it is not an empty string with a non-empty default |
| NvsConfig.LoadedDurable | main/nvs_config.c:475-559 | whatever is loaded would survive being stored and loaded again |
| NvsConfig.LoadedIsSet | main/nvs_config.c:464-560 | a setting counts as set after the load if and only if the store holds a value of its kind, not an empty string, for one of its cells |
| NvsConfig.BooleansStored | main/nvs_config.c:413-415 | true is stored as 1 and false as 0 |
| NvsConfig.RunCoherent | main/nvs_config.c:382-435 | in every interleaving, replaying what is in hand, queued and pending over the store gives the cache |
| NvsConfig.StoreIsPrefix | main/nvs_config.c:382-435 | at any point of any run, whatever the names, the store is the first one with the oldest accepted updates saved in order, and the rest are in flight |
| NvsConfig.ReloadExact | main/nvs_config.c:462-561 | with nothing in flight a reload reproduces a cell if and only if its value is durable |
| NvsConfig.EmptyStringLost | main/nvs_config.c:462-561 | a run that saves an empty string, after which a reload gives the default |
| NvsConfig.ReloadReproduces | main/nvs_config.c:462-561 | with nothing in flight and durable values a reload reproduces the whole cache |
| NvsConfig.ConfigCache.Load | main/nvs_config.c:462-563 | the load loops build the cache the specification derives from the store |
| NvsConfig.ConfigCache.LoadSetting | main/nvs_config.c:464-560 | one setting's values and its is_set flag |
| NvsConfig.ConfigCache.SetScalar | main/nvs_config.c:731-748 | a scalar setter updates the cache and owes an update unless nothing changes |
| NvsConfig.ConfigCache.CompareString | main/nvs_config.c:627-640 | the first critical section of a string setter only compares |
| NvsConfig.ConfigCache.WriteString | main/nvs_config.c:657-664 | the second critical section stores the string and owes an update |
| NvsConfig.ConfigCache.SendUpdate | main/nvs_config.c:664-667 | the owed update joins the queue's end |
| NvsConfig.ConfigCache.ReceiveUpdate | main/nvs_config.c:386 | the writer takes the oldest update |
| NvsConfig.ConfigCache.SaveUpdate | main/nvs_config.c:387-425 | the writer stores an update of the right type under its key name |
| NvsConfig.ConfigCache.GetScalar | main/nvs_config.c:714-729 | the cached scalar exactly for a key of that type |
| NvsConfig.ConfigCache.GetString | main/nvs_config.c:589-604 | the cached string exactly for a key of one string |
| NvsConfig.ConfigCache.GetStringIndexed | main/nvs_config.c:606-625 | the cached string exactly for an index of an array of strings |
| JobSlots.IdExact | components/asic/bm1370.c:473 | the id after n sends, as a multiple of four on a window of 16 or 32 |
| JobSlots.IdsDistinct | components/asic/bm1366.c:401 | ids repeat after exactly 16 sends, 32 on the BM1397 |
| JobSlots.IdMultipleOfFour | main/system.c:441 | every id is one the cleaning stride visits |
| JobSlots.RunInv | components/asic/bm1370.c:470-540 | over every interleaving the slots hold exactly the newest jobs and the valid ones were sent since the last clean |
| JobSlots.HistoryExact | components/asic/bm1370.c:470-495 | over every run the jobs sent are those begun, in order, and those cleaned are the ones committed before the last clean |
| JobSlots.ValidSlotSafe | components/asic/bm1370.c:533-540 | a valid slot holds a job sent since the last clean and lies on the cleaning stride |
| JobSlots.CleanEmpties | main/system.c:440-444 | after a clean no lookup finds a job |
| JobSlots.LookupFindsOwnJob | components/asic/bm1397.c:338-348 | the id of a recent job finds that job, or nothing if it was cleaned |
| JobSlots.JobIdOfIdByte | components/asic/bm1370.c:525 | masking a returned id byte gives back the id that was sent |
| JobSlots.ResultFindsOwnJob | components/asic/bm1366.c:453-468 | over every run, the byte a chip makes from the id of a recent job, whatever its low bits, leads to that job, or to none if it was cleaned |
| JobSlots.LateResult | components/asic/bm1366.c:453-468 | the byte made from the id of any job ever sent leads to the newest job sent a whole number of windows later, or to none if that was cleaned; to its own exactly within the window |
| JobSlots.IdInTable | components/asic/bm1366.c:453-462 | the masked byte is a table index if and only if the chip is a BM1370 or the byte is below 0x80 |
| JobSlots.IdBeyondTable | components/asic/bm1397.c:328-339 | the byte 0x80 leads one past the end of the tables |
| JobSlots.CommitEvicts | components/asic/bm1370.c:487-493 | a send releases exactly the job sent one window earlier |
| JobSlots.JobsConserved | components/asic/bm1370.c:487-493 | jobs are released in the order sent, and every other job sent is still in its slot |
| JobSlots.JobsInOneSlot | components/asic/bm1370.c:487-493 | a kept job occupies one slot and no slot holds anything else |
| JobSlots.JobTables.constructor | main/system.c:298-299 | both tables start empty |
| JobSlots.JobTables.BeginSend | components/asic/bm1370.c:473-474 | a send first advances the id |
| JobSlots.JobTables.CommitSend | components/asic/bm1370.c:487-493 | under the lock the old job is freed, the new one stored and marked valid |
| JobSlots.JobTables.SnapshotJob | components/asic/bm1370.c:533-540 | the lookup result of the specification |
| JobSlots.JobTables.CleanJobs | main/system.c:440-444 | the loop clears every fourth flag and nothing else |
| LogBuffer.CellAfterWrite | main/log_buffer.c:51-64 | after a write each position in the window is in its cell, across the wrap |
| LogBuffer.RingAfterWrite | main/log_buffer.c:51-64 | the ring of a log becomes the ring of the longer log |
| LogBuffer.ReadIsSlice | main/log_buffer.c:292-318 | a read is the longest slice of the log within the given length with a newline at most at its end, empty only at the log's end |
| LogBuffer.ReadResumes | main/log_buffer.c:270-290 | a reader that was not lapped resumes where it stopped, or at the end of a log that is shorter; a lapped one after the first newline among the oldest 4096 bytes kept, or at the oldest byte if there is none |
| LogBuffer.ReaderInOrder | main/log_buffer.c:257-322 | over a run of writes and reads from any position the slices are in order, and a read leaves out nothing, or bytes overwritten and after them at most the rest of one line |
| LogBuffer.RunLog | main/log_buffer.c:47-69 | over such a run the log is what was written, in order |
| LogBuffer.ReaderComplete | main/log_buffer.c:257-322 | from any position, a reader that never skips gets every byte once |
| LogBuffer.FlushBalanced | main/log_buffer.c:76-120 | one flush step keeps printed and dropped bytes equal to the distance moved |
| LogBuffer.FlushConserves | main/log_buffer.c:71-125 | over every run, position minus boot position is printed plus dropped, and output is the log minus the dropped intervals in order |
| LogBuffer.FlusherLog | main/log_buffer.c:47-69 | over such a run the log is what was logged, in order |
| LogBuffer.FlushCatchesUp | main/log_buffer.c:81-102 | one step reaches the log's end exactly when at most 512 bytes are left to print, and prints 512 otherwise; it drops exactly what the ring no longer holds |
| LogBuffer.RingLog.RingWrite | main/log_buffer.c:47-69 | appends to the log and keeps ring and header consistent, for any data that two copies can place |
| LogBuffer.RingLog.Write | main/log_buffer.c:167-169 | a log call appends its text |
| LogBuffer.RingLog.CopyOut | main/log_buffer.c:93-100 | copying in one or two pieces gives the log's slice |
| LogBuffer.RingLog.FlushOnce | main/log_buffer.c:76-120 | the task's loop body is the specified flush step |
| LogBuffer.RingLog.FindNewline | main/log_buffer.c:296-305 | the length up to and including the first newline |
| LogBuffer.RingLog.FindStart | main/log_buffer.c:267-290 | clamping and resynchronising give the specified start |
| LogBuffer.RingLog.ReadAbsolute | main/log_buffer.c:257-322 | bytes and new position are the specified ones |
| LogBuffer.RingLog.ColdStart | main/log_buffer.c:204-213 | a bad header empties the log |
| LogBuffer.RingLog.Boot | main/log_buffer.c:202-222 | the log is kept, and the restart line appended, if and only if the magic is 0xB17A5E10 and the checksum right; flushing starts at the end either way |
| LogBuffer.MagicDetected | main/log_buffer.c:30-36 | the header checksum tells any other magic |
| LogBuffer.LowWordDetected | main/log_buffer.c:30-36 | and any other low word of the total |
| LogBuffer.HighWordDetected | main/log_buffer.c:30-36 | and any other high word |
| WorkQueue.Ring.constructor | main/work_queue.c:7-16 | an empty queue |
| WorkQueue.Ring.PutTail | main/work_queue.c:27-29 | appends the item |
| WorkQueue.Ring.Enqueue | main/work_queue.c:18-33 | one pass through the loop is the machine's step: waits exactly when full, else appends and signals a consumer |
| WorkQueue.Ring.TakeHead | main/work_queue.c:44-46 | removes and returns the oldest item |
| WorkQueue.Ring.Dequeue | main/work_queue.c:35-52 | one pass is the machine's step: the oldest item and a signal to a producer, or none and a wait exactly when empty |
| WorkQueue.Ring.FreeAll | main/work_queue.c:95-105 | frees every item in order |
| WorkQueue.Ring.Clear | main/work_queue.c:91-109 | the machine's clear: frees every item in order and signals one producer |
| WorkQueue.FirstInFirstOut | main/work_queue.c:18-109 | over every run, items taken or freed and then the ring's content are the items enqueued, in order, never more than twelve in the ring |
| WorkQueue.EnqueueExact | main/work_queue.c:18-33 | a producer that enters waits exactly when twelve items are in the ring |
| WorkQueue.ItemsConserved | main/work_queue.c:18-109 | over every run, every item brought is in the ring, taken or freed, or with a producer that waits or was woken |
| WorkQueue.ConsumersConserved | main/work_queue.c:18-109 | over every run, every consumer that came and did not give up has an item, waits or was woken |
| WorkQueue.AlwaysEnabled | main/work_queue.c:18-109 | only the lock holds a thread up that enters or was woken, and who waits may wake up by itself or time out |
| WorkQueue.RunWakeups | main/work_queue.c:22-49 | while a consumer waits every queued item has a woken consumer; while a producer waits one is woken or the queue is not empty |
| WorkQueue.NeverAllAsleep | main/work_queue.c:18-109 | producers and consumers never all wait with no wake-up under way |
| WorkQueue.OneProducerOneConsumer | main/work_queue.c:18-109 | one producer and one consumer never both wait |
| WorkQueue.StepProducers | main/work_queue.c:91-108 | a step leaves a waiting producer's place unclaimed if and only if it is a clear with several waiters and too few producers woken before |
| WorkQueue.RunProducers | main/work_queue.c:91-108 | without such clears every free place has a woken producer while any waits |
| WorkQueue.ClearLeavesProducerWaiting | main/work_queue.c:91-108 | a run in which a clear leaves one producer waiting at an empty queue with one woken |
| LineFramer.ReceiveByStream | components/stratum/stratum_api.c:158-214 | what a call returns and keeps depends on the bytes received only |
| LineFramer.LinesAreSegments | components/stratum/stratum_api.c:158-214 | the n-th call returns the n-th segment and the buffer keeps the undelivered rest |
| LineFramer.SegmentsExact | components/stratum/stratum_api.c:199-212 | segments and rest are the text, no segment has a newline in it, and with fewer segments than asked for the rest has none |
| LineFramer.ErrorDropsLine | components/stratum/stratum_api.c:167-192 | a failed read drops the line that had begun, and nothing that comes later |
| LineChunks.IndependentExact | components/stratum/stratum_api.c:158-214 | all ways of splitting a stream into reads give the same lines if and only if no newline comes after a NUL |
| LineChunks.NoNewlineAfterNul | components/stratum/stratum_api.c:158-214 | then the lines are those of the stream up to its first NUL |
| LineChunks.NewlineAfterNul | components/stratum/stratum_api.c:193-203 | otherwise two ways of splitting give different lines |
| LineChunks.ChunkIndependent | components/stratum/stratum_api.c:167-197 | two ways of splitting one stream with no newline after a NUL give the same lines, call by call |
| LineFramer.NulDropsTail | components/stratum/stratum_api.c:193-196 | a NUL ends what is kept of its read |
| LineFramer.NulDependsOnChunks | components/stratum/stratum_api.c:193-196 | one stream whose first line depends on the splitting |
| LineFramer.StrLen | components/stratum/stratum_api.c:200 | the length of the text in a buffer |
| LineFramer.FindNewline | components/stratum/stratum_api.c:201-203 | the length before the first newline |
| LineFramer.JsonRpcBuffer.Initialize | components/stratum/stratum_api.c:95-106 | an empty buffer |
| LineFramer.JsonRpcBuffer.Reserve | components/stratum/stratum_api.c:132-156 | room for the bytes and a terminator, the text kept |
| LineFramer.JsonRpcBuffer.Append | components/stratum/stratum_api.c:195 | appends the read up to its first NUL |
| LineFramer.JsonRpcBuffer.TakeLine | components/stratum/stratum_api.c:199-212 | returns the first line and keeps the rest |
| LineFramer.JsonRpcBuffer.MoveToFront | components/stratum/stratum_api.c:205-211 | the rest moves to the front, with its terminator |
| LineFramer.JsonRpcBuffer.ReceiveLine | components/stratum/stratum_api.c:158-214 | result, remaining text and unread input are the specified ones |
| VirtualBoard.CleanNotifyExact | simulation/virtual_board.c:371-460 | a clean notify empties queue and slots if and only if nothing carries the new epoch |
| VirtualBoard.PurgeMarks | simulation/virtual_board.c:451-459 | the purge invalidates and marks stale exactly the slots of other epochs |
| VirtualBoard.KeepEpochConcat | simulation/virtual_board.c:433-449 | the purge keeps the queue's order |
| VirtualBoard.NoFutureWorkKept | simulation/virtual_board.c:385-417 | steps that enqueue work of epochs reached so far keep all work at or below the current epoch |
| VirtualBoard.CleanNotifyEmpties | simulation/virtual_board.c:371-460 | after such a run a clean notify leaves no work, also when the counter wraps |
| VirtualBoard.FutureWorkStays | simulation/virtual_board.c:371-417 | work enqueued under the next epoch outlives the clean notify that opens it |
| VirtualBoard.RunNoZeroWork | simulation/virtual_board.c:385-390 | no work ever carries epoch 0 |
| VirtualBoard.ResultsCounted | simulation/virtual_board.c:543-574 | every result raises exactly one of the four counts (which one: VirtualBoard.VerdictExact) |
| VirtualBoard.VerdictExact | simulation/virtual_board.c:543-574 | after every run, where a result is counted, by the list of events alone: an error for a bad checksum; else stale unless its slot is there and holds work of the current epoch; else a duplicate if and only if an equal share is among the last 64 accepted; else it is accepted |
| VirtualBoard.ErrorsExact | simulation/virtual_board.c:543-547 | over every run the errors are the results with a bad checksum |
| VirtualBoard.HolderExact | simulation/virtual_board.c:385-417 | over every run a slot holds the last work put there, unless a clean since found it of another epoch |
| VirtualBoard.WaitingExact | simulation/virtual_board.c:385-460 | over every run the queue is the work enqueued, not taken, and of the epoch of every clean since, in order |
| VirtualBoard.EpochExact | simulation/virtual_board.c:371-383 | the epoch counts the notifies modulo 2 to the power 32 |
| VirtualBoard.DuplicateExact | simulation/virtual_board.c:517-529 | the filter knows exactly the last 64 accepted shares |
| VirtualBoard.AcceptKeepsSharesOk | simulation/virtual_board.c:561-573 | accepting a share the filter passed keeps the sharing rules |
| VirtualBoard.SharesAlwaysOk | simulation/virtual_board.c:543-574 | accepted shares carry the epoch of their time, and equal ones have at least 64 others between them |
| VirtualBoard.CacheHit | simulation/virtual_board.c:518-527 | a matching cell is one of the last 64 accepted shares |
| VirtualBoard.CacheMiss | simulation/virtual_board.c:518-528 | without a matching cell the share is none of them |
| VirtualBoard.CacheRecord | simulation/virtual_board.c:531-541 | recording keeps the cache equal to the last 64 accepted shares |
| VirtualBoard.SimBoard.PutInQueue | simulation/virtual_board.c:398-403 | appends to the circular queue |
| VirtualBoard.SimBoard.WorkEnqueue | simulation/virtual_board.c:385-417 | queue, slot, violation count and result are the specified ones |
| VirtualBoard.SimBoard.WorkDequeue | simulation/virtual_board.c:419-429 | the oldest item, or none |
| VirtualBoard.SimBoard.CompactOne | simulation/virtual_board.c:438-446 | one turn of the loop keeps the cells compacted up to it |
| VirtualBoard.SimBoard.CompactCells | simulation/virtual_board.c:433-447 | the in-place loop leaves exactly the matching items, in order, across the wrap |
| VirtualBoard.SimBoard.CompactQueue | simulation/virtual_board.c:433-449 | the queue becomes those items |
| VirtualBoard.SimBoard.CleanSlots | simulation/virtual_board.c:451-459 | the slot loop leaves valid exactly the slots of the epoch and marks the rest stale |
| VirtualBoard.SimBoard.WorkCleanStale | simulation/virtual_board.c:431-460 | queue and slots keep exactly the work of the epoch |
| VirtualBoard.SimBoard.JobReceiveNotify | simulation/virtual_board.c:371-383 | the epoch advances and a clean notify purges |
| VirtualBoard.SimBoard.IsDuplicateShare | simulation/virtual_board.c:517-529 | true exactly for one of the last 64 accepted shares |
| VirtualBoard.SimBoard.RecordShare | simulation/virtual_board.c:531-541 | the share becomes the newest accepted one |
| VirtualBoard.SimBoard.JudgeShare | simulation/virtual_board.c:561-573 | counts a duplicate or accepts and records |
| VirtualBoard.SimBoard.ProcessAsicResult | simulation/virtual_board.c:543-574 | the whole board afterwards, and whether the share was accepted |
| Crc.ResidueExact | components/asic/crc.c:6-24 | a frame has CRC zero if and only if its last five bits are the register before them |
| Crc.BurstDetected | components/asic/asic_common.c:189 | a valid frame fails the check after any change within five neighbouring bits |
| Crc.FrameBurst | components/asic/asic_common.c:189 | the same of frames of bytes, whose bits are read most significant first |
| Crc.ByteOfBits | components/asic/crc.c:12-21 | the eight bits fed from a byte are its bits, most significant first |
| Crc.BitsInTurn | components/asic/crc.c:12-21 | the bits of a frame are those of its bytes in turn |
| Crc.BitsInjective | components/asic/crc.c:12-21 | frames of equal bits are equal |
| Crc.ChipAddressCommand | components/asic/test/test_packet_validation.c:8-11 | the CRC-5 of 52 05 00 00 is 0x0A |
| Crc.ChainInactiveCommand | components/asic/test/test_packet_validation.c:13-15 | the CRC-5 of 53 05 00 00 is 0x03 |
| Crc.OrbitReturns | components/asic/crc.c:12-21 | a single flipped bit returns to the same register pattern every 31 bits |
| Crc.TwoFlipsExact | components/asic/asic_common.c:189 | two flipped bits go unnoticed if and only if their distance is a multiple of 31 |
| Crc.FeedByte | components/asic/crc.c:12-21 | eight bits of a byte, most significant first |
| Crc.Crc5 | components/asic/crc.c:6-24 | the register after all bits of the data |
| Crc.TableStep | components/asic/crc.c:50-52 | with the CCITT table one look-up is eight steps of the bitwise register |
| Crc.TableComputesCrc | components/asic/crc.c:46-55 | with the CCITT table the loop is the bitwise CRC |
| Crc.NineDigitsFromZero | components/asic/crc.c:27-44 | from zero the CRC-16 of the digits 1 to 9 is 0x31C3 |
| Crc.NineDigitsFromOnes | components/asic/crc.c:46-55 | from all ones it is 0x29B1 |
| Crc.Crc16 | components/asic/crc.c:27-44 | the unrolled loop equals the byte-at-a-time one for every table and length |
| Crc.Crc16False | components/asic/crc.c:46-55 | the byte-at-a-time loop from all ones |
| Sha256.StateOfDigest | components/stratum/utils.c:99-113 | loading what was stored big-endian gives the state back |
| ShaLaws.ChBits | components/stratum/utils.c:171 | a bit of the choice is that of the second word where the first has one, else that of the third |
| ShaLaws.MajBits | components/stratum/utils.c:174 | a bit of the majority is set if and only if it is in at least two of the words |
| ShaLaws.BigSigma0Bits | components/stratum/utils.c:173 | a bit of the first sum is the xor of those 2, 13 and 22 places on |
| ShaLaws.BigSigma1Bits | components/stratum/utils.c:170 | of the second, 6, 11 and 25 |
| ShaLaws.SmallSigma0Bits | components/stratum/utils.c:151-153 | of the first schedule term, 7 and 18, and 3 within the word |
| ShaLaws.SmallSigma1Bits | components/stratum/utils.c:154-156 | of the second, 17 and 19, and 10 within the word |
| ShaLaws.RoundConstants | components/stratum/utils.c:115-132 | the constants are the first 32 bits of the fractional parts of the cube roots of the first 64 primes |
| ShaLaws.InitialState | components/stratum/utils.c:134-137 | the initial state is that of the square roots of the first eight |
| ShaLaws.PrimesInOrder | components/stratum/utils.c:115-132 | the primes meant are all primes, in order |
| ShaLaws.AbcHash | components/stratum/utils.c:139-191 | the one-block example of FIPS 180-4 |
| Sha256.LoopWordIsNextWord | components/stratum/utils.c:149-157 | the loop's order of additions gives the schedule word of section 6.2.2 of FIPS 180-4 |
| Sha256.Schedule | components/stratum/utils.c:146-157 | the array is the message schedule |
| Sha256.RunRounds | components/stratum/utils.c:159-185 | the working variables after all 64 rounds |
| Sha256.StoreBe32 | components/stratum/utils.c:107-113 | four big-endian bytes at a position |
| Sha256.StoreWords | components/stratum/utils.c:187-190 | the sums with the initial state, big-endian |
| Sha256.MidstateSha256Bin | components/stratum/utils.c:139-191 | the compression of one block from the initial state, or zeros for any other input |
| Sha256.HashResumes | components/stratum/utils.c:77-85 | hashing from the state after whole blocks gives the hash of the whole message |
| ByteOrder.ReversalsUndo | components/stratum/utils.c:193-220 | both word operations undo themselves and together reverse all bytes |
| ByteOrder.WordsReversed | components/stratum/utils.c:193-206 | word i of the one is word 7 - i of the other |
| ByteOrder.WordsSwapped | components/stratum/utils.c:208-220 | each word has its bytes in the opposite order |
| ByteOrder.Reverse32BitWords | components/stratum/utils.c:193-206 | the eight words reversed at an offset, nothing else changed |
| ByteOrder.ReverseEndiannessPerWord | components/stratum/utils.c:208-220 | each word's bytes reversed in place |
| ByteOrder.HexRoundTrip | components/stratum/utils.c:22-50 | reading back a hexadecimal text gives the bytes |
| ByteOrder.HexAlphabet | components/stratum/utils.c:10-20 | digits are written in small letters and read in either case |
| ByteOrder.PairValue | components/stratum/utils.c:36-50 | the first of two digits counts sixteen |
| ByteOrder.Bin2Hex | components/stratum/utils.c:22-34 | text and terminator, or nothing when they do not fit |
| ByteOrder.Hex2Bin | components/stratum/utils.c:36-50 | as many bytes as text and buffer allow, a lone digit counting as a high one |
| VersionRolling.LowestQuadruples | components/stratum/mining.c:180-185 | the mask of a recursive call starts at least two bits higher |
| VersionRolling.MaskShrinks | components/stratum/mining.c:180-185 | so the recursion ends |
| VersionRolling.SettledAtOnce | components/stratum/mining.c:170-188 | recursive calls leave the two lowest positions and all below as the first level set them |
| VersionRolling.LowestFlips | components/stratum/mining.c:170-188 | every increment flips the lowest mask bit |
| VersionRolling.AdjacentBits | components/stratum/mining.c:170-188 | the mask of BIP 320 is one of adjacent bits, a mask with a gap is not |
| VersionRolling.StepWithinMask | components/stratum/mining.c:170-188 | within a run of bits the field counts up by one unit; other bits change if and only if the field is full and the carry stays in the word |
| VersionRolling.TwoSteps | components/stratum/mining.c:170-188 | two increments lead back to the start exactly for masks without room for four versions |
| VersionRolling.VersionsDistinct | components/stratum/mining.c:98-114 | the four versions of a job are pairwise different exactly for masks with a bit at 29 or below or both top bits |
| VersionRolling.RollExample | components/stratum/mining.c:170-188 | under the mask 0x00ffff00 three rolls count 0x20000004 up to 0x20000304 |
| VersionRolling.RollVersion | components/asic/bm1397.c:349-353 | the driver's loop rolls the version once for each midstate index |
| Mining.HeaderSplits | components/stratum/mining.c:161-166 | the hashed header is the midstate's block followed by what the job packet carries |
| Mining.HeaderFields | components/stratum/mining.c:157-162 | version, time, target and nonce of a header read little-endian are their values; hash and root are the job's, word by word from the last |
| Mining.Le32Value | components/stratum/mining.c:157-162 | the bytes of a word in memory, read little-endian, are its value |
| Mining.StoredWords | components/stratum/mining.c:93-96 | a job stores its midstate from the last word to the first |
| Mining.MidstateAgrees | components/stratum/mining.c:72-168 | for each claimed midstate the hash that follows from it is the hash recomputed for the rebuilt version |
| Mining.StoreMidstate | components/stratum/mining.c:93-96 | version into the block, compression of the block, words reversed into the job |
| Mining.StorePrevHash | components/stratum/mining.c:81-84 | the job holds the given hash with all its bytes reversed, and the block the hash it belongs to |
| Mining.StoreRolled | components/stratum/mining.c:100-113 | the three further midstates belong to versions rolled once, twice and three times |
| Mining.ConstructBmJob | components/stratum/mining.c:72-120 | all fields of the job, and midstates that fit its header under the mask used |
| Mining.GenerateJob | main/tasks/create_jobs_task.c:288-296 | the job's midstates fit its header under the mask it keeps when both masks read roll its version alike |
| Mining.AlikeCases | main/tasks/create_jobs_task.c:291-296 | they do for equal masks and for jobs with one midstate |
| Mining.MaskChangeBreaksRoll | main/tasks/create_jobs_task.c:291-296 | and do not for a mask turned off between the reads |
| Mining.Le256ToDouble | components/stratum/utils.c:228-246 | the four words are summed to the hash's little-endian value |
| Mining.PdiffExact | components/stratum/mining.c:137-142 | a hash reaches a difficulty if and only if its value times that difficulty is at most 0xffff times 2 to the power 208 |
| Mining.PdiffOfZero | components/stratum/mining.c:140 | the hash zero is worth 4294967295 |
| Mining.PdiffAntitone | components/stratum/mining.c:137-142 | smaller hashes are worth at least as much |
| Mining.HashToPdiff | components/stratum/mining.c:137-142 | the difficulty of the hash's value, with the value for zero |
| Mining.BuildHeader | components/stratum/mining.c:157-162 | the 80 header bytes |
| Mining.TestNonceValue | components/stratum/mining.c:146-168 | the difficulty of the double hash of the header |
| Mining.JudgeResult | components/asic/bm1397.c:346-353 | the rebuilt version and its difficulty; for a claimed midstate it is that of the hash which follows from the midstate the chip was given |
| Pll.CloseVco | components/asic/pll.c:47-54 | oscillator frequencies closer than EPSILON are equal |
| Pll.NoThreeErrors | components/asic/pll.c:41-64 | three different distances from one target never lie within two EPSILON |
| Pll.StepKeeps | components/asic/pll.c:44-64 | trying one more setting keeps what the best holds against everything tried |
| Pll.Consider | components/asic/pll.c:41-64 | the loop body replaces the best exactly when the specification does |
| Pll.KeptHolds | components/asic/pll.c:38-68 | at every point of the loops the setting kept is within EPSILON of all tried, none tried since replaces it, and it is at least as good as any firm one |
| Pll.Search | components/asic/pll.c:38-68 | the loops end with the setting that trying all 98 in their order gives |
| Pll.FeedbackDivider | components/asic/pll.c:36-39 | the rounded feedback divider survives its 16-bit cast, and is never negative |
| Pll.FeedbackNearest | components/asic/pll.c:42 | it is within one half of what the target asks for |
| Pll.CandidateExact | components/asic/pll.c:38-44 | tried are reference dividers 1 and 2 and post dividers 1 to 7, the first greater than the second, with a feedback divider within the bounds |
| Pll.KeyExact | components/asic/pll.c:45-47 | clock, oscillator and divider of a setting from a base of 25 MHz |
| Pll.ResultAt450 | components/asic/test/test_pll.c:5-16 | for 450 MHz within 60 to 200 the search finds feedback divider 72, reference divider 2 and post dividers 2 and 1 |
| Pll.WithinEpsilon | components/asic/pll.c:41-64 | the result is less than one EPSILON farther than any candidate |
| Pll.ClosestExact | components/asic/pll.c:41-64 | the result is closest if and only if some closest candidate is replaced by no farther one tried after it |
| Pll.ForemostExact | components/asic/pll.c:47-54 | it is the one meant, closest, then slowest, then smallest, if and only if a candidate with that key is replaced by no farther one tried after it |
| Pll.FirstOfEqual | components/asic/pll.c:47-54 | of the candidates with its key that no farther one tried later replaces, the result is the first one tried |
| Pll.NearTieFreeForemost | components/asic/pll.c:47-54 | it is when no candidate is almost but not quite closest |
| Pll.ClosestMissed | components/asic/pll.c:41-64 | about 400.8929 MHz within 144 to 235: the result is not closest, and its oscillator runs at least twice as fast as needed for its clock |
| Pll.SolvableExact | components/asic/pll.c:57-81 | for any feedback minimum, a clock is found if and only if a candidate has one and no last setting without one replaces it |
| Pll.Solver.GetParameters | components/asic/pll.c:28-105 | success exactly as above; then the search's result, less than EPSILON farther than any candidate, closest and as intended exactly as above |
| Pll.Solver.GetLastSolvedFrequency | components/asic/pll.c:19-26 | reports success if and only if its value is the clock of a legal setting with a positive 16-bit feedback divider |
| Pll.NoSolutionAtZero | components/asic/pll.c:41-81 | with a feedback minimum of 0 a candidate for the target 0 exists and gives no clock |
| Pll.ReportedDividersExact | components/asic/pll.c:28-60 | the reported dividers give the reported clock if and only if the feedback divider fits the byte it is reported in |
| FrequencyTransition.Monotone | components/asic/frequency_transition_bmXX.c:33-49 | the requests of a steady ramp run one way and never pass the target |
| FrequencyTransition.Chip.Climb | components/asic/frequency_transition_bmXX.c:33-44 | the loop ends on the target's whole step, one step at a time |
| FrequencyTransition.Chip.Transition | components/asic/frequency_transition_bmXX.c:13-53 | requests move to the target by at most 6.25 MHz each without overshoot, all but the last on multiples of 6.25 MHz, and end within 0.0001 of it; none are made exactly when the start is |

## Left out

- JobSlots.JobTables.SnapshotJob: takes the id bytes that lead into the tables (JobSlots.IdInTable); what the C arrays hold beyond their ends is no part of the model.
- JobSlots.CommitEvicts: jobs are values here, so sharing of heap memory between slots and snapshots is not captured.
- LogBuffer.RingLog.Write: takes what two copies can place in the ring; C does not define the copy of anything longer.
- LogBuffer.RingLog.RingWrite: likewise.
- NvsConfig.RunCoherent: assumes what NvsConfig.CoherenceExact shows to be necessary, and that writes to the store succeed.
- NvsConfig.ReloadExact: under the same assumptions.
- NvsConfig.ReloadReproduces: under the same assumptions.
- NvsConfig.ConfigCache.Load: float settings and the legacy keys that stand in for absent ones are not modelled.
- NvsConfig.ConfigCache.LoadSetting: likewise.
- NvsConfig.ConfigCache.SaveUpdate: likewise, with the mirror writes to legacy keys and failing writes.
- LineFramer.JsonRpcBuffer.Initialize: the table of request times, which only measures response times, is not modelled.
- VirtualBoard.SimBoard.JobReceiveNotify: job id and difficulty, which nothing else on the board reads, are not recorded.
- VirtualBoard.CleanNotifyEmpties: speaks of runs up to the wrap of the 32-bit epoch; VirtualBoard.CleanNotifyExact holds after it as well.
- WorkQueue.FirstInFirstOut: blocking is a step of the machine, and a method call is one pass through the waiting loop.
- Crc.TableComputesCrc: the 256 literal table entries are represented by the property that they form the CCITT table.
- Pll.Solver.GetParameters: targets are those whose feedback divider fits 16 bits, since C does not define the cast of others.
- Pll.FeedbackDivider: for the same targets.
- Pll.Consider: for the same targets.
- Pll.Search: for the same targets.
- Mining.GenerateJob: the strings of the job are not modelled; that different headers have different hashes is not provable, so a change of masks is shown to change the versions, not the hashes.
- Mining.TestNonceValue: the hash backend does not fail, and the difficulty is a real number.
- Sha256.HashResumes: the hardware hash backend is taken to compute SHA-256 and not to fail.
- ByteOrder.Reverse32BitWords: source and destination are distinct buffers, as at every call.
- Floating point: frequencies, difficulties and PLL values are real numbers, so rounding of `float` and `double` is not captured.
- Counters of 64 bits, buffer lengths and C `int` sizes are unbounded here.
- Heap failures, logging, cache maintenance, timeouts, UART and websocket traffic, and waiting for mutexes beyond the steps named.
- Methods that have no C function of their own hold one loop or branch of the function their row cites.
- The Base58 checksum layer, the register responses of the chips and the BM1397 repeated-nonce filter.
- The guarantee of BIP 173 for four scattered errors; up to three anywhere and runs of up to six symbols are covered.
- Legacy migration of settings and fallback keys, JSON parsing, TLS, network recovery, the display and web interfaces, sensors and fans.
- The BM1373 driver, whose slot accesses are not all under the lock, and the BM1368 driver, whose slot logic repeats the BM1370's.
- The coinbase decoder and the validation of notify messages, which only add per-field cases.
- The simulation's network states, whose finite table adds no argument.
