# Verified core of a RISC-V emulator

A Dafny 4.11 model of five parts of the majordomo emulator, with proofs that each
does what it is for. `dafny verify dfyconfig.toml` checks the whole project.

- **Soft floating point** (`Bits`, `Ieee754`, `StickyBits`, `RoundPack`,
  `Normalize`, `Fields`, `WordArith`, `Addition`, `Multiplication`, `Fma`,
  `Comparison`, `Conversion`, `FloatLaws`, `FloatFacts`). The reference in `Ieee754.dfy` says, for an exact
  quotient or square root, which word and which flags IEEE 754-2008 asks for in
  each of the five modes (sections 4.3, 5.4.1, 6.3, 7.2 and 7.4 to 7.6). Add,
  subtract, multiply, divide, square root, fused multiply-add and the conversions
  are proved to return exactly that, for every operand, over a format with any
  valid mantissa and exponent size; the three instantiated formats are among them.
  The half-word mul_u, divrem_u and sqrtrem_u that these proofs go through are not
  the variants compiled where a wider native type exists.
  The one idea behind all of it is `StandsFor`: a mantissa with a sticky bit
  compares like the exact value with every grid point that rounding looks at.
  `FloatLaws` shows that the reference means what it should: the result is the best
  value of the format in the sense of its mode. `FloatFacts` adds when NaNs come out,
  what 1 and 0 do, and the words themselves.
- **The Robin Hood table** (`SlotLaws`, `RobinHood`, `TableRuns`). The arrays of
  pairs and info bytes are changed in place, as in the source; the ghost field
  `contents` is the mathematical map, and every operation is proved to change it as
  a map would, or, on overflow, to keep the stated part of it.
- **The hart's memory port** (`Pmp`, `Paging`, `Tlb`, `HartPort`, `PortBits`,
  `HartRuns`, `PermissionRuns`, `Reservations`). Every operation of `Hart` keeps: unless the caches are stale,
  each cached translation agrees with the walk. A hit then is the reference access,
  without any cache, exactly when the PMP allows it, and with page-granular ranges
  loads, stores and fetches always are. The ghost field `stale` is set, and this is
  part of the contracts, by nothing but a store to a page-table word behind a cached
  translation, or a trap or `mret` that changes MPP under MPRV while the privilege
  stays. `PortBits` says what each bit of a register or page-table entry does, with
  the masks written out, and `PermissionRuns` shows it in runs from reset.
- **The recovery ROM** (`Rv64`, `BootRom`, `Recovery`, `SavedHart`, `RomBuilder`,
  `RomFacts`).
  A compiler proof: the words that `create_boot_rom` writes, run by the
  interpreter's own semantics of those instructions, rebuild the saved hart.
- **LiveCache** (`LruStack`, `LiveCache`, `CacheBank`) and the **carry-less
  multiply** loops (`Clmul`).

## What the proofs turned up

- `cvt_sf64_sf32` and its siblings drop the normalized mantissa of a subnormal
  (include/softfp_template.h:994). The result is still the correct rounding,
  because a wide subnormal is far below half the least narrow one
  (`Conversion.NarrowSf`).
- The start value of `sqrtrem_u` is not always an upper bound, as its comment says
  (`WordArith.StartMisses`). The loop gives the floor of the root exactly when it
  is (`WordArith.SqrtremU`), and it is for the operands `sqrt_sf` passes
  (`WordArith.OneWordCovers`).
- `insert_move` calls its overflow error impossible. It is taken exactly when the
  keys moved so far are crammed: for some a and b at least b - a + 127 of them have
  homes from a to b (`RobinHood.Table.InsertMove`, `RobinHood.Table.UsedUp`). So a
  rehash loses the pairs not yet moved exactly when a used slot comes after crammed
  keys (`RobinHood.Table.RehashPowerOfTwo`): 127 keys with one hash will do, or 64 at
  each of two neighbouring homes. `TableRuns.LossRun` builds such a table by
  insertions.
- A new key fits whenever the limit is not reached, nothing is allocated yet, or the
  info bytes can be halved. Otherwise the table is stuck, or has to be rehashed; the
  predicate `Overflows` says exactly when that fails (`RobinHood.Table.DoInsert`).
- The 128th key with one hash never fits (`RobinHood.Table.OneHash`,
  `TableRuns.CollidingRun`). Erasing does not switch the limit on again, so a table
  can be empty and yet refuse every key (`TableRuns.StuckRun`).
- The PMP range test takes an access around an empty range as a match
  (`Pmp.TouchesExactly`).
- The read and write caches check the PMP for the access and not for the page; the
  code cache checks the page, but a page around a small range passes
  (`Tlb.FinePmpSplitsPage`). So with ranges that are not page granular a hit can go
  against the PMP, for loads (`HartRuns.FineReadRun`) and for fetches
  (`HartRuns.FineFetchRun`). `Tlb.HitVerdict` says exactly when it does.
- A trap or `mret` under MPRV that keeps the privilege changes the privilege of
  data accesses without a flush, and the next load can hit an entry of the old
  privilege (`HartRuns.MretRun`, `HartRuns.TrapRun`, `HartRuns.SuperpageRun`).
- MPRV reaches fetches too: below machine mode, with MPP machine mode, the
  page-table reads of a translated fetch pass the PMP as machine mode
  (`PermissionRuns.TableReadRun`). `PortBits.HartFetch` and
  `PortBits.HartFetchExactly` say exactly when a fetch is that of the hart's own
  privilege.
- After reset a store-conditional to address 0 goes through although nothing was
  reserved, and 2^64 foreign stores would go unseen (`Reservations.ScPasses` says
  exactly when one goes through, `Reservations.Atomic` when it was guarded).
- The first access to LiveCache gets stamp 0, which the dump takes for "never
  used" (`CacheBank.FirstAccess`); the result about the dump is stated for non-zero
  stamps.
- LiveCache masks the tag with the number of sets less one. A size that gives no
  power of two leaves sets unused; the results hold for every number of sets.
- The layout comment in `create_boot_rom` gives 512 bytes of boot data. The code
  writes more and has room for it; its "ROM is too small" exit is never taken. That
  is for the ROM without the LiveCache warm-up code that a LIVECACHE build appends.

## Model

| member | source | states |
|---|---|---|
| RoundPack.RoundsToUnique | include/softfp_template.h:118-178 | the reference rounding is a function: the exact value, mode, sign and incoming flags fix the word and the flags |
| RoundPack.RshiftRnd | include/softfp_template.h:104-116 | the coded shift, for every distance, is the sticky shift on numbers (quotient with its low bit forced when anything was lost) |
| StickyBits.ShiftRight | include/softfp_template.h:104-116 | after a sticky shift the mantissa still compares like the exact value with every grid point that rounding looks at |
| RoundPack.RoundBitsCorrect | include/softfp_template.h:121-158 | adding the mode's addend, cutting and clearing a tie is exactly the choice each of the five modes makes for the exact value, and the cut bits are non-zero exactly when it is inexact |
| RoundPack.TinyIff | include/softfp_template.h:137-143 | the coded subnormal test is tininess after rounding, with an unbounded exponent, of the exact value |
| RoundPack.OverflowIff | include/softfp_template.h:159-166 | the exponent test after the carry is overflow of the rounded magnitude |
| RoundPack.PackRounding | include/softfp_template.h:151-178 | rounding, renormalizing, overflow to infinity or the largest finite value, and packing deliver the correctly rounded word with overflow, underflow and inexact |
| RoundPack.RoundPackSf | include/softfp_template.h:118-178 | for every sign, exponent, normalized or zero mantissa and mode: word and flags are the correct rounding of any exact value the mantissa stands for |
| Normalize.NormalizeSf | include/softfp_template.h:181-189 | normalizing and rounding a one-word mantissa is the correct rounding of what it stands for |
| Normalize.Normalize2Sf | include/softfp_template.h:192-217 | the same for a two-word mantissa, the low word folded into a sticky bit |
| Normalize.NormalizeSubnormal | include/softfp_template.h:290-295 | a subnormal fraction is moved to the hidden-bit position and the exponent keeps its value |
| WordArith.MulU | include/softfp_template.h:310-332 | the half-word products and carries give both words of the exact double-width product |
| WordArith.DivremU | include/softfp_template.h:571-588 | shift-and-subtract gives quotient and remainder of the two-word dividend whenever the high word is below the divisor, with the 1-bit overflow of the shifted remainder handled |
| WordArith.SqrtremU | include/softfp_template.h:689-715 | Newton's iteration ends at the floor of the square root exactly when its start is not below it, no sum wraps, and inexact is reported exactly for non-squares |
| WordArith.OneWordCovers | include/softfp_template.h:693-703 | the start is not below the root when one of the two words is zero, as the caller passes them |
| WordArith.StartMisses | include/softfp_template.h:693-703 | with both words in use the bound in the comment can fail, for every word size |
| WordArith.SumWraps | include/softfp_template.h:706-710 | the bound on the operands is tight: at 2^(2w - 2) - 1 the second sum of quotient and estimate is 2^w |
| Addition.AddSf | include/softfp_template.h:230-283 | result and flags are those of the correctly rounded exact sum for all operands: NaNs, infinities, signed zeros, subnormals and cancellation |
| Addition.SubSf | include/softfp_template.h:286-288 | the same for the exact difference |
| Addition.AddCommutes | include/softfp_template.h:230-283 | swapping the operands changes neither the word nor the flags |
| Multiplication.MulSf | include/softfp_template.h:338-385 | result and flags are those of the correctly rounded exact product, subnormals included |
| Multiplication.DivSf | include/softfp_template.h:592-654 | result and flags are those of the correctly rounded exact quotient, with division by zero |
| Multiplication.SqrtSf | include/softfp_template.h:719-764 | result and flags are those of the correctly rounded exact square root |
| Fma.ShiftRight2 | include/softfp_template.h:507-524 | aligning the smaller two-word term keeps a sticky bit; the branch that drops the low word's own sticky bit is harmless because the high word is not zero |
| Fma.AddTerms | include/softfp_template.h:489-557 | adding or subtracting the aligned two-word terms gives a mantissa that stands for the exact a*b+c |
| Fma.FmaFinite | include/softfp_template.h:430-557 | for finite operands the result and flags are one rounding of the exact a*b+c, with the operand swap, every alignment case and the sign of an exact zero |
| Fma.FmaSf | include/softfp_template.h:388-558 | one rounding of a*b+c for all operands, with the invalid cases and infinities |
| Comparison.InfinityIsLargest | include/softfp_template.h:768-893 | the magnitude order of bit patterns, infinity on top, is the order of the numbers |
| Comparison.EqQuietSf | include/softfp_template.h:840-851 | equality of the real values with both zeros equal; false and possibly invalid for NaNs |
| Comparison.LeSf | include/softfp_template.h:853-872 | holds exactly when the real values are so ordered; invalid for every NaN |
| Comparison.LtSf | include/softfp_template.h:874-893 | holds exactly when the real values are strictly so ordered |
| Comparison.MinSf | include/softfp_template.h:768-802 | the operand that is not above the other, with -0 below +0, and the NaN rules |
| Comparison.MaxSf | include/softfp_template.h:804-838 | the operand that is not below the other, with -0 below +0, and the NaN rules |
| Conversion.CvtSfI | include/softfp_template_icvt.h:54-119 | the correctly rounded integer with inexact, or saturation with only invalid, for every word, mode, width and signedness |
| Conversion.CvtISf | include/softfp_template_icvt.h:130-155 | the correctly rounded float of every signed or unsigned integer |
| Conversion.IntegerRoundTrip | include/softfp_template_icvt.h:54-163 | an exactly representable integer comes back from float and raises nothing, in any two modes |
| Conversion.WidenSf | include/softfp_template.h:941-970 | widening is exact and keeps signs, infinities and subnormal values; a NaN exactly for a NaN; a signalling NaN raises invalid |
| Conversion.NarrowSf | include/softfp_template.h:973-1003 | narrowing is the correct rounding; the subnormal branch, whose normalized mantissa is dropped at line 994, still rounds correctly |
| Conversion.WidenNarrow | include/softfp_template.h:941-1003 | narrow after wide is the identity on every non-NaN in every mode |
| Conversion.Instances | include/softfp_template.h:939-1070 | every instantiated pair of formats and integer widths meets the conditions of the conversion results |
| FloatLaws.RoundsToBest | include/softfp_template.h:118-178 | what the reference delivers is a word of the sign and never a NaN; it is infinite exactly from the stated threshold of the mode on; otherwise it is the largest value not above, the least not below, or no value is closer and ties go to even or away; inexact exactly when it was not met; invalid and division by zero untouched |
| FloatLaws.QuietNan | include/softfp_template.h:92-92 | the NaN that operations return is a positive NaN that is not signalling |
| FloatFacts.NanIsQuiet | include/softfp_template.h:249-254 | so is every NaN result, and invalid is raised exactly for a signalling operand |
| FloatFacts.SumNan | include/softfp_template.h:230-283 | a sum is a NaN exactly for a NaN operand or infinities of opposite signs; invalid exactly for a signalling operand or a NaN out of none |
| FloatFacts.DifferenceNan | include/softfp_template.h:286-288 | a difference is a NaN exactly for a NaN operand or infinities of one sign |
| FloatFacts.ProductNan | include/softfp_template.h:338-385 | a product is a NaN exactly for a NaN operand or zero times infinity |
| FloatFacts.QuotientNan | include/softfp_template.h:592-654 | a quotient is a NaN exactly for a NaN operand, two zeros or two infinities; division by zero is raised exactly for a finite value that is not zero over zero |
| FloatFacts.RootNan | include/softfp_template.h:719-764 | a square root is a NaN exactly for a NaN or a negative operand other than -0 |
| FloatFacts.FusedNan | include/softfp_template.h:388-558 | a fused multiply-add is a NaN exactly for a NaN operand, zero times infinity, or opposite infinities to add |
| FloatFacts.InfinityAbsorbs | include/softfp_template.h:230-283 | infinity plus, times and over a finite value is infinite with the right sign, and a finite value over it is zero |
| FloatFacts.TimesOne | include/softfp_template.h:338-385 | a * 1 is a, in every mode, with no flag |
| FloatFacts.TimesMinusOne | include/softfp_template.h:338-385 | a * -1 is -a |
| FloatFacts.OverOne | include/softfp_template.h:592-654 | a / 1 is a |
| FloatFacts.OverItself | include/softfp_template.h:592-654 | a / a is 1 |
| FloatFacts.PlusZero | include/softfp_template.h:230-283 | a + 0 is a, for either zero and a that is not zero |
| FloatFacts.MinusItself | include/softfp_template.h:286-288 | a - a is +0, or -0 when rounding down |
| FloatFacts.MinusIsPlusNegated | include/softfp_template.h:286-288 | a - b is a + -b |
| FloatFacts.RootOfOne | include/softfp_template.h:719-764 | the square root of 1 is 1 |
| FloatFacts.FusedWithOne | include/softfp_template.h:388-558 | a * 1 + c has the word and the flags of a + c |
| FloatFacts.FusedWithZero | include/softfp_template.h:388-558 | a * b + 0 has the word and the flags of a * b, unless that is zero |
| FloatFacts.Words32 | include/softfp_template.h:62-92 | the words of 1, the zeros, the infinities, the largest finite values and the quiet NaN 0x7FC00000 |
| FloatFacts.Words64 | include/softfp_template.h:62-92 | the same for binary64, with the quiet NaN 0x7FF8000000000000 |
| FloatFacts.Words128 | include/softfp_template.h:62-92 | the same for binary128 |
| FloatFacts.NanWords | include/softfp_template.h:214-228 | of the words after infinity the lower half is signalling and the upper half quiet |
| FloatFacts.MinMaxNan | include/softfp_template.h:768-838 | minimum and maximum are a NaN exactly for two NaN operands, and never signalling |
| FloatFacts.NarrowNan | include/softfp_template.h:973-1003 | narrowing gives a NaN exactly for a NaN, and a quiet one |
| FloatFacts.IntegerRange | include/softfp_template_icvt.h:54-119 | results lie in 0 to 2^n - 1 or -2^(n-1) to 2^(n-1) - 1; NaN and infinities give the bounds with only invalid |
| FloatFacts.IntegerExact | include/softfp_template_icvt.h:54-119 | every integer in the range converts to itself with no flag |
| SlotLaws.ProbeStep | gold/robin_hood.hpp:1236-1255 | the probe counter after a step, and its range at home and further on |
| SlotLaws.NoEarlyStop | gold/robin_hood.hpp:1310-1334 | a present key keeps every byte on its probe path at or above the counter, so stopping at the first smaller byte is safe |
| SlotLaws.Insertion | gold/robin_hood.hpp:1338-1376 | moving the slots up to the first empty one and writing the pair keeps byte order, key placement and adds exactly the pair to the map |
| SlotLaws.Erasure | gold/robin_hood.hpp:1282-1303 | closing the gap keeps byte order and placement and removes exactly the key |
| SlotLaws.Halving | gold/robin_hood.hpp:2157-2182 | halving all bytes is recomputing them for the halved increment: the same pairs at the same places |
| SlotLaws.LastSlotEmpty | gold/robin_hood.hpp:1921-1931 | within the load limit the last slot is empty, so the search for an empty slot stays in the buffer |
| SlotLaws.FullRun | gold/robin_hood.hpp:1338-1349 | a byte without room at the smallest increment ends a run of at least 127 used slots that starts at the home of its key |
| SlotLaws.CrowdedRun | gold/robin_hood.hpp:1333-1338 | so a table with such a byte has at least 127 pairs |
| SlotLaws.WindowBound | gold/robin_hood.hpp:1236-1255 | keys with homes from a to b are at most b - a + 127; with that many the increment is used up and a byte has no room; for one home, 127 |
| SlotLaws.RunTo | gold/robin_hood.hpp:1338-1376 | along a run of used slots the homes never fall, and none is before the start of the run |
| SlotLaws.CrammedFills | gold/robin_hood.hpp:1333-1338 | crammed keys, b - a + 127 or more with homes from some a to some b, use up the increment and fill a byte |
| SlotLaws.FullIsCrammed | gold/robin_hood.hpp:1333-1338 | and a byte is full at the least increment only for crammed keys |
| SlotLaws.MovedAll | gold/robin_hood.hpp:1970-1990 | when every old slot has been moved the new map equals the old one |
| SlotLaws.LeftIsSub | gold/robin_hood.hpp:1970-1990 | what a failed rehash leaves, the pairs before some used slot, is a strictly smaller part of the map |
| RobinHood.Table.constructor | gold/robin_hood.hpp:1236-1248 | an empty table whose lookups read the bytes of the zero mask |
| RobinHood.Table.FindIdx | gold/robin_hood.hpp:1308-1334 | the slot of the key exactly when it is present, else the number of slots, despite two probes a turn and the early stop; no index leaves the buffer |
| RobinHood.Table.ShiftUp | gold/robin_hood.hpp:1264-1280 | every slot between moves up by one with its byte one step further; the limit is switched off exactly when a byte loses its room |
| RobinHood.Table.CloseGap | gold/robin_hood.hpp:1282-1303 | the slots after the gap move down until one is empty or at home |
| RobinHood.Table.Erase | gold/robin_hood.hpp:1836-1854 | the map without the key, and 1 exactly when it was there; limit and increment stay, so a stuck table stays stuck |
| RobinHood.Table.Place | gold/robin_hood.hpp:2072-2101 | the map with the new pair, every invariant kept, and no byte above 255 |
| RobinHood.Table.InsertMove | gold/robin_hood.hpp:1333-1376 | adds a new pair, or leaves the map as it is, exactly when the limit is switched off and the increment is used up, which is exactly when the keys are crammed |
| RobinHood.Table.UsedUp | gold/robin_hood.hpp:1333-1338 | the limit is switched off and the increment used up exactly when the keys are crammed for the buckets of the table |
| RobinHood.Table.OneHash | gold/robin_hood.hpp:1236-1255 | in every table at most 127 keys have one hash; with 127 the limit is switched off and the increment used up |
| RobinHood.Table.HalveWord | gold/robin_hood.hpp:2172-2176 | eight bytes as one word, shifted and masked, are the eight halved bytes |
| RobinHood.Table.TryIncreaseInfo | gold/robin_hood.hpp:2157-2182 | the same map with half the increment; refused exactly at increment 2 or less |
| RobinHood.Table.InitData | gold/robin_hood.hpp:2030-2047 | an empty valid table of the given number of buckets |
| RobinHood.Table.RehashPowerOfTwo | gold/robin_hood.hpp:1970-1997 | exactly the same map in the new buckets, or failure that keeps exactly the pairs before some used slot, 127 or more; it fails exactly when some used slot comes after keys that are crammed for the new buckets |
| RobinHood.Table.IncreaseSize | gold/robin_hood.hpp:2184-2204 | the same map with a smaller (deficit, increment) pair and the same verdict on a new key; fails exactly from the stuck state, which stays with its map, or when a needed rehash loses pairs, which leaves the stated part |
| RobinHood.Table.OverflowNeeds | gold/robin_hood.hpp:2184-2204 | a new key does not fit only in a stuck table, where none does, or with a needed rehash and at least 127 pairs |
| RobinHood.Table.ProbeKey | gold/robin_hood.hpp:1257-1262 | skipping smaller bytes and comparing equal ones finds the key, or the place where it belongs |
| RobinHood.Table.DoInsert | gold/robin_hood.hpp:2106-2154 | the retry loop ends: existing exactly when the key was there; overflow exactly when it was not and the table is stuck, or has to be rehashed and loses pairs, or stays crammed with no second doubling or after it; else the map with the pair; overflow loses nothing or keeps 127 pairs or more, and the 128th key with one hash always overflows |
| RobinHood.Table.Store | gold/robin_hood.hpp:2050-2102 | operator[] and an assignment: the map updated at the key, or overflow under exactly the same condition, with what it leaves; the arrays are the same or new |
| TableRuns.CollidingRun | gold/robin_hood.hpp:2106-2154 | for every hash that gives 128 keys one value: 127 go in, the 128th overflows, and the map still holds the 127 |
| TableRuns.StuckRun | gold/robin_hood.hpp:2184-2204 | after erasing those 127 keys the table is empty and stuck, and any key overflows |
| TableRuns.LossRun | gold/robin_hood.hpp:1862-1874 | a table of 128 pairs, built by insertions, for which rehashing to twice the buckets takes the branch marked impossible and loses a pair |
| Pmp.MergeCfg | src/riscv_cpu.cpp:1858-1869 | each byte of the new register: locked bytes keep their value, the others take the written one, reserved bits cleared |
| Pmp.CfgWrite | src/riscv_cpu.cpp:1850-1873 | the effect of a pmpcfg write; pmpcfg2 is ignored with eight entries |
| Pmp.AddrWrite | src/riscv_cpu.cpp:1875-1909 | a pmpaddr write is ignored exactly when out of range, locked, or below a locked TOR entry |
| Pmp.WrittenValid | src/riscv_cpu.cpp:1850-1909 | every write keeps the registers in range and the reserved bits clear |
| Pmp.LockedForever | src/riscv_cpu.cpp:1850-1909 | over every run of CSR writes a locked entry keeps its byte, its address, for TOR the address before it, and its decoded range |
| Pmp.NapotRegion | src/riscv_cpu.cpp:1606-1628 | k trailing ones select the naturally aligned region of 2^(k+3) bytes |
| Pmp.UnpackNapot | src/riscv_cpu.cpp:1606-1628 | the coded mask arithmetic gives that region, and neither overflow guard is reached for 38-bit registers |
| Pmp.UnpackPmpaddrs | src/riscv_cpu.cpp:1580-1633 | the decoded list is the switched-on entries in order with their ranges |
| Pmp.AccessOk | src/riscv_cpu.cpp:245-271 | the verdict of the scan is that of the lowest-numbered matching raw entry, or machine mode only |
| Pmp.TouchesExactly | src/riscv_cpu.cpp:260-264 | the range test finds an overlap exactly, except that an access around an empty range also matches |
| Pmp.EmptyRangeMatches | src/riscv_cpu.cpp:260-264 | the exception is real: an empty range matches an aligned 8-byte access |
| PortBits.CfgBits | include/riscv.h:172-182 | R, W and X are bits 0, 1 and 2 of a configuration byte, the mode is 0x18, the lock 0x80, and 0x60 is cleared |
| PortBits.CfgByteBits | src/riscv_cpu.cpp:1584-1588 | the byte of entry i is bits 8i to 8i + 7 of pmpcfg0 |
| PortBits.CfgWriteBits | src/riscv_cpu.cpp:1850-1873 | a pmpcfg write keeps locked bytes and masks the others with 0x9F |
| PortBits.AddrWriteBits | src/riscv_cpu.cpp:1875-1909 | a pmpaddr write keeps 38 bits, in one of eight registers, unless locked or below a locked TOR entry |
| PortBits.EntryDecides | src/riscv_cpu.cpp:260-268 | the lowest matching entry allows an access exactly when its bit 1, 2 or 4 is set, or for machine mode when 0x80 is clear |
| PermissionRuns.OneBitRun | src/riscv_cpu.cpp:260-268 | from reset, user mode under one NAPOT entry: 0x19 allows only the load, 0x1A only the store, 0x1C only the fetch |
| PermissionRuns.TorRun | src/riscv_cpu.cpp:1580-1633 | from reset, user mode under one TOR entry loads exactly from its lower bound on and below its upper bound |
| PermissionRuns.PriorityRun | src/riscv_cpu.cpp:260-268 | from reset, user mode under two overlapping entries: the lower one decides |
| Paging.LoadStored | src/riscv_cpu.cpp:324-351 | a load gives back what was stored |
| Paging.CanonicalAsCoded | src/riscv_cpu.cpp:446-450 | the shift-and-compare test is canonical form of the virtual page |
| Paging.LeafCheck | src/riscv_cpu.cpp:475-513 | the ordered checks on a leaf are the conjunction of encoding, privilege, SUM, MXR, permission, alignment as coded, A and D |
| Paging.WalkTables | src/riscv_cpu.cpp:456-537 | the loop over levels is the recursive walk of the virtual page, plus the page offset |
| Paging.GetPhysAddr | src/riscv_cpu.cpp:423-538 | translation, page fault or access fault for every address, mode and privilege |
| Paging.WalkIffPath | src/riscv_cpu.cpp:456-537 | a page is mapped to a base exactly when a chain of valid non-leaf entries leads from the root to a leaf that permits the access and has that base |
| Paging.WalkFrame | src/riscv_cpu.cpp:456-537 | the walk depends on memory only through the page-table words it reads |
| Paging.WalkAligned | src/riscv_cpu.cpp:529-530 | a mapped page is a whole page inside the 64-bit address space |
| PortBits.LoadedByte | src/riscv_cpu.cpp:324-351 | memory is little-endian: byte i of a load is the byte at that distance |
| PortBits.StoredByte | src/riscv_cpu.cpp:324-351 | and byte i of a stored value goes there |
| PortBits.SatpBits | src/riscv_cpu.cpp:439-453 | the mode is bits 60 to 63 of satp, the root table 4096 times bits 0 to 43 |
| PortBits.SatpWriteBits | src/riscv_cpu.cpp:1717-1727 | a satp write keeps the bits of 0xF0000FFFFFFFFFFF |
| PortBits.LeafLaw | src/riscv_cpu.cpp:475-513 | a leaf permits an access exactly by its bits: V and A, R or X under MXR, W and D, or X, no W without R, U by mode and SUM, and the page-number bits the code tests at each level |
| PortBits.PteFields | src/riscv_cpu.cpp:473-474 | the page number of an entry is 1/1024 of it, and a leaf of level j replaces its low 9j bits by those of the virtual page |
| PortBits.WalkStep | src/riscv_cpu.cpp:456-537 | one step of the walk by the bits of the entry in memory: fault, leaf, next table or page fault |
| PermissionRuns.LeafRun | src/riscv_cpu.cpp:475-513 | from reset under Sv39, for every address of the first gigabyte: a read-only, an execute-only and a supervisor page allow exactly their accesses in user and supervisor mode |
| Tlb.PageVerdict | src/riscv_cpu.cpp:245-271 | page-granular ranges give one verdict for all accesses inside a page |
| Tlb.FinePmpSplitsPage | src/riscv_cpu.cpp:641-650 | with one NA4 entry and all others off, loads, stores and fetches at two words of one page get different verdicts, and the whole-page test of the code cache passes |
| Tlb.HitVerdict | src/riscv_cpu.cpp:354-403 | on a hit of a mapped entry the reference access gives the cached address exactly when the PMP allows this access, and an access fault otherwise |
| Tlb.HitIsReference | src/riscv_cpu.cpp:354-403 | so with page-granular ranges a hit gives the address and verdict of the full walk, PMP check and memory map |
| Tlb.FillIsOk | src/riscv_cpu.cpp:641-650 | a completed slow access writes a correct entry, with the wrapped 64-bit addend, whatever the PMP granularity |
| Tlb.StoreKeeps | src/riscv_cpu.cpp:736-760 | a store to none of the page-table words behind the entries keeps every entry correct |
| HartPort.Hart.constructor | src/riscv_cpu.cpp:893-899 | machine mode, no translation, no PMP entry, empty caches |
| HartPort.Hart.FlushAll | src/riscv_cpu.cpp:893-903 | every entry of the three caches is invalid |
| HartPort.Hart.SfenceVma | include/majordomo_template.h:1974-1988 | the caches are empty and current |
| HartPort.Hart.SetMstatus | src/riscv_cpu.cpp:1251-1262 | keeps the caches current through any change of MPRV, SUM, MXR and MPP, and empties them when MPRV changes |
| HartPort.Hart.WriteSstatus | src/riscv_cpu.cpp:1694-1694 | the same through sstatus, which changes SIE, SPIE, SPP, SUM and MXR and nothing else |
| HartPort.Hart.WriteSatp | src/riscv_cpu.cpp:1717-1727 | satp changes only to a known mode, the caches are flushed, TVM makes it illegal |
| HartPort.Hart.WritePmpCfg | src/riscv_cpu.cpp:1850-1873 | the register write, decoded ranges and caches stay consistent |
| HartPort.Hart.WritePmpAddr | src/riscv_cpu.cpp:1875-1909 | the register write, decoded ranges and caches stay consistent |
| HartPort.Hart.SetPriv | src/riscv_cpu.cpp:1981-1986 | a change of privilege empties the caches, otherwise they stay as they are |
| HartPort.VectorLaw | src/riscv_cpu.cpp:2071-2077 | a vectored interrupt goes to four times its number behind the base, everything else to the base |
| HartPort.NextVector | src/riscv_cpu.cpp:2071-2077 | neighbouring interrupts land four bytes apart |
| HartPort.Hart.DelegationBits | src/riscv_cpu.cpp:2030-2039 | exceptions are delegated by their bit of medeleg alone, interrupts by theirs of mideleg, and none from machine mode |
| HartPort.Hart.RaiseException | src/riscv_cpu.cpp:1988-2077 | cause, epc, tval, status and privilege of a delegated or machine trap, and pc: the base of stvec or mtvec, plus four times the number for a vectored interrupt; the caches go stale exactly for a machine trap from machine mode under MPRV with another MPP |
| HartPort.Hart.HandleSret | src/riscv_cpu.cpp:2081-2092 | the new status, privilege and pc; never makes the caches stale |
| HartPort.Hart.HandleMret | src/riscv_cpu.cpp:2094-2105 | the new status, privilege and pc; stale exactly when MPRV is set, the privilege stays and MPP was not user |
| HartPort.Hart.HandleDret | src/riscv_cpu.cpp:2107-2112 | the privilege from dcsr, pc from dpc, debug mode left and the counters running; the caches are stale only if they were and the privilege stays |
| HartPort.Hart.TrapAndReturn | src/riscv_cpu.cpp:1988-2105 | a trap followed by the return of its level gives back the privilege, the interrupt enables and the canonical pc |
| HartPort.Hart.Slow | src/riscv_cpu.cpp:541-786 | the slow path is the reference access, and the cache afterwards is the old one with exactly the filled slot |
| HartPort.Hart.Port | src/riscv_cpu.cpp:354-403 | a hit gives the cached address and leaves the cache alone, a miss is the reference access with its fill; unless the caches are stale a hit is the reference exactly when the PMP allows this access |
| HartPort.Hart.TargetRead | src/riscv_cpu.cpp:356-379 | a load has the outcome of the reference access and the data at its physical address |
| HartPort.Hart.FetchU16 | src/riscv_cpu.cpp:871-891 | the same for an instruction fetch |
| HartPort.Hart.TargetWrite | src/riscv_cpu.cpp:381-403 | the same for a store; the caches go stale exactly when it hits a page-table word behind one of them |
| HartPort.Hart.WriteRam | src/riscv_cpu.cpp:736-760 | the same for a store by any other agent |
| PortBits.DataPrivilege | src/riscv_cpu.cpp:423-432 | loads and stores do not depend on the privilege of code |
| PortBits.HartData | src/riscv_cpu.cpp:423-432 | a hart's loads and stores are those of MPP when MPRV is set and of its own privilege otherwise |
| PortBits.FetchPrivilege | src/riscv_cpu.cpp:423-432 | fetches do not depend on the privilege of data, unless they are translated and one of the two is machine mode |
| PortBits.HartFetch | src/riscv_cpu.cpp:423-432 | a hart's fetches are those of its own privilege, whatever MPRV and MPP are, except for translated ones below machine mode with MPP machine mode |
| PortBits.HartFetchExactly | src/riscv_cpu.cpp:251-257 | in that case they are exactly when its own privilege may read the page tables, or the fetch faults anyway |
| PermissionRuns.MprvFetchRun | src/riscv_cpu.cpp:423-432 | from reset, machine mode with MPRV set and MPP user fetches as machine mode and loads as user mode |
| PermissionRuns.TableReadRun | src/riscv_cpu.cpp:251-257 | the exception is real: user mode after dret with MPRV set and MPP machine mode fetches through a table it may not read, and faults after mret |
| PermissionRuns.ResetRun | src/riscv_cpu.cpp:809-815 | after reset machine mode reaches RAM and every other address below the physical limit by loads and stores, and RAM alone by fetches; past the limit all three fault |
| HartRuns.FineReadRun | src/riscv_cpu.cpp:356-379 | a run from reset in which a load hits and goes through although the PMP forbids it |
| HartRuns.FineFetchRun | src/riscv_cpu.cpp:818-824 | the same for an instruction fetch, past the whole-page test |
| HartRuns.MretRun | src/riscv_cpu.cpp:2094-2105 | a run from reset in which mret under MPRV keeps the privilege and the next load hits an entry of machine mode although it would fault |
| HartRuns.TrapRun | src/riscv_cpu.cpp:2055-2075 | for every hart in machine mode under MPRV with a translated load: after a machine trap the same load hits the old translation and is wrong |
| HartRuns.SuperpageRun | src/riscv_cpu.cpp:2055-2075 | such a hart exists: a run from reset with a page table in memory |
| Reservations.SeqnoCounts | include/majordomo_template.h:2021-2053 | over every interleaving the reservation number lags behind memory's by the RAM stores of other harts, modulo 2^64 |
| Reservations.ScPasses | include/majordomo_template.h:2038-2053 | exactly when a store-conditional goes through |
| Reservations.Atomic | include/riscv_cpu.h:302-312 | a successful store-conditional was preceded by its load-reserved with no RAM store by another hart in between, exactly when its hart reserved since reset and fewer than 2^64 foreign stores followed; always so below 2^64 operations and away from address 0 |
| Reservations.UnreservedScPasses | include/majordomo_template.h:2038-2053 | after reset a store-conditional to address 0 goes through with nothing reserved |
| Reservations.CounterCounts | include/majordomo_template.h:2021-2053 | a counter changed only by load-reserved and store-conditional of one more holds its first value plus the successful ones, in every run whose successes are sound in that sense |
| Reservations.ShortIsSound | include/majordomo_template.h:2021-2053 | that is every run below 2^64 operations with the counter not at address 0 |
| Reservations.CounterFails | include/majordomo_template.h:2038-2053 | and at address 0 it fails: an unreserved store-conditional sets a counter of 5 to 1 |
| Rv64.Fields | src/riscv_cpu.cpp:2445-2475 | the fields the interpreter cuts out of a word are those the encoder put in |
| Rv64.PcRelative | src/riscv_cpu.cpp:2449-2467 | auipc and addi with the carry repair add exactly the offset, for every offset below 2^31 - 2^11 |
| Rv64.WriteHolds | src/riscv_cpu.cpp:1694-1820 | whatever is written, a CSR then holds a value that a restore reproduces |
| Rv64.TrapHolds | src/riscv_cpu.cpp:2043-2055 | and so does a trap: the canonical epc of an aligned pc, a cause within the mask with or without the interrupt bit, and any tval |
| RomFacts.KnownWords | src/riscv_cpu.cpp:2445-2475 | the encoders give the words the manual has for auipc, addi, ld, sd, fld, csrw, csrr and li |
| RomFacts.RomLoads | src/riscv_cpu.cpp:2564-2573 | a load from the ROM is a little-endian load of its eight bytes from memory |
| RomFacts.DataLoads | src/riscv_cpu.cpp:2552-2562 | the two words of a constant are that 64-bit value in memory |
| RomFacts.CanonicalLaw | src/riscv_cpu.cpp:103-107 | truncation copies bit 48 into all bits above it, keeps those below, and does not change canonical values |
| RomFacts.WritableBits | src/riscv_cpu.cpp:1694-1820 | what a write of all ones leaves in each restored CSR |
| BootRom.LoadRuns | src/riscv_cpu.cpp:2552-2573 | auipc, addi and ld load the 64-bit constant laid out in the data area |
| BootRom.Csr64Runs | src/riscv_cpu.cpp:2552-2562 | the four words leave the constant in x1 and in the CSR, as legalized |
| BootRom.HangRuns | src/riscv_cpu.cpp:2596-2604 | hart 0 leaves the prologue by the branch over the wait loop |
| BootRom.ItemRuns | src/riscv_cpu.cpp:2445-2604 | every emitted item, run by the interpreter, has its stated effect and falls through to the next word |
| Recovery.ProgramRuns | include/majordomo_template.h:1838-1949 | running the words of any list of items has their effects in order |
| Recovery.CsrLeft | src/riscv_cpu.cpp:2552-2562 | the last item that writes a CSR decides its value |
| SavedHart.ItemsOk | src/riscv_cpu.cpp:2606-2752 | every item made for a saved hart can run in machine debug mode, with or without floating point |
| SavedHart.TailLeft | src/riscv_cpu.cpp:2740-2748 | x1 survives the satp restore through dscratch |
| SavedHart.IoLeft | src/riscv_cpu.cpp:2575-2594 | a program stores outside the ROM exactly what its store items say, in order |
| SavedHart.StoresAre | src/riscv_cpu.cpp:2733-2740 | for a saved hart these are timecmp and mtime of the CLINT |
| SavedHart.ProgramLeaves | src/riscv_cpu.cpp:2606-2752 | after all items: dpc, the privilege in dcsr, x1 to x31, satp and the trap CSRs hold the saved values, and timecmp and mtime were stored |
| SavedHart.Recovered | src/riscv_cpu.cpp:2606-2761 | for every saved hart the ROM, run from its first word in debug mode, ends at dret with pc, privilege, x1 to x31, satp and the trap CSRs as saved, having stored timecmp and mtime to the CLINT and nothing else |
| RomBuilder.Builder.CreateCsr64Recovery | src/riscv_cpu.cpp:2552-2562 | its four code words and two data words are appended |
| RomBuilder.Builder.CreateCsr12Recovery | src/riscv_cpu.cpp:2477-2480 | its two code words are appended |
| RomBuilder.Builder.CreateRegRecovery | src/riscv_cpu.cpp:2564-2573 | its three code words and two data words are appended |
| RomBuilder.Builder.CreateIo64Recovery | src/riscv_cpu.cpp:2575-2594 | its seven code words and four data words are appended |
| RomBuilder.Builder.CreateHangNonzeroHart | src/riscv_cpu.cpp:2596-2604 | its four code words are appended |
| RomBuilder.Builder.CreateBootRom | src/riscv_cpu.cpp:2606-2761 | it gives up only for the hypervisor level, never because the ROM is too small, and the ROM it writes rebuilds the saved hart on every machine and from every fresh hart |
| LruStack.TouchIsRecent | include/LiveCacheCore.h:447-572 | one access turns the most recent distinct tags of a set into the most recent distinct tags |
| LruStack.RecentFacts | include/LiveCacheCore.h:447-572 | the recency stack holds exactly the accessed tags, each once |
| LruStack.RecentByLast | include/LiveCacheCore.h:447-572 | the recency stack is ordered by last access |
| LruStack.SetOfPower | include/LiveCacheCore.h:269-281 | masking the tag is the remainder by the number of sets when that is a power of two |
| LiveCache.MoreWays | include/LiveCacheCore.h:447-572 | over every run, more ways with the same sets give no fewer hits |
| LiveCache.OneLine | include/LiveCacheCore.h:447-572 | a tag is in at most one line |
| LiveCache.AccessKeeps | src/LiveCache.cpp:96-130 | every access keeps: each set holds the last distinct tags in order, references are a permutation of the lines, stamps are last accesses, flags are writes since the fill |
| CacheBank.Cache.HitsOrdered | src/LiveCache.cpp:96-130 | two caches with equal sets and the same accesses: the counters of hits are ordered like the numbers of ways, those of misses the other way |
| CacheBank.Cache.constructor | include/LiveCacheCore.h:413-443 | the empty cache, with its geometry, range and fresh references and tags, satisfies the invariant whatever the uninitialised stamps and flags are |
| CacheBank.Cache.MoveToFront | include/LiveCacheCore.h:476-485 | the reference goes to the front and the ones before it move up by one |
| CacheBank.Cache.FindLine | include/LiveCacheCore.h:447-488 | a hit exactly when the tag is in its set, and its way moves to the front |
| CacheBank.Cache.FindLine2Replace | include/LiveCacheCore.h:491-572 | the way of the tag, or the least recent one, moves to the front |
| CacheBank.Cache.Read | src/LiveCache.cpp:96-111 | the access is recorded as a read, a hit exactly when the tag is among the last distinct ones of its set; the counters stay the hits and misses of the run |
| CacheBank.Cache.Write | src/LiveCache.cpp:113-130 | the same for a write |
| CacheBank.MergeSort | src/LiveCache.cpp:165-202 | sorted by stamp and a permutation |
| CacheBank.Cache.Traverse | src/LiveCache.cpp:132-163 | every held tag with a non-zero stamp once, in strictly increasing last-access order, bit 0 set exactly when written since its fill |
| CacheBank.FirstAccess | src/LiveCache.cpp:132-163 | the first line is held after one read, and the dump is empty |
| CacheBank.SecondAccess | src/LiveCache.cpp:132-163 | after a read and an access to another line the dump is the address of that line, with bit 0 set for a write |
| Clmul.ClmulLow | include/majordomo_template.h:284-291 | the low word of the carry-less product |
| Clmul.ClmulHigh | include/majordomo_template.h:293-300 | the high word of the carry-less product |
| Clmul.ClmulReversed | include/majordomo_template.h:302-309 | the carry-less product shifted right by one bit less than a word |
| Clmul.TwoWords | include/majordomo_template.h:284-309 | the product of two words has at most 2w - 1 bits: the low and high words make it up, the top bit of the high word is zero, and the reversed product loses nothing |
| Clmul.ProductCommutes | include/majordomo_template.h:284-309 | the carry-less product is commutative |
| Clmul.ProductBits | include/majordomo_template.h:284-309 | each bit of the product is the parity of its partial products |

## Left out

- WordArith.SqrtremU: leaves out operands from 2^(2w - 2) - 1 on, for words of w bits, where the sum of quotient and estimate no longer fits a word (WordArith.SumWraps); its only caller stays below.
- Reservations.CounterCounts: is stated for runs whose successful store-conditionals are sound, which leaves out the counter at virtual address 0 (Reservations.CounterFails) and reservations older than 2^64 foreign stores.
- Paging.PhysRead64: a page-table entry in a device range counts as an access fault; the source reads a null host address there.
- HartPort.Hart.Port: breakpoint triggers are not part of it, and accesses are aligned, as in the default configuration.
- HartPort.Hart.FetchU16: a 32-bit fetch across two pages is not modelled.
- SavedHart.Recovered: MPRV is clear and the PMP lets machine mode use the ROM and the CLINT while it runs, so that loads from the ROM do not fault; interrupts stay off. Nothing is claimed about floating-point registers, whose upper halves the source takes from integer registers, about counters, interrupt enables, PMP registers, or CSRs restored through a 12-bit immediate other than the privilege in dcsr.
- CacheBank.Cache.Traverse: returns a sequence where the source allocates an array.
- Rv64.Step: only the instructions of the recovery ROM; floating-point registers have no state, and stores outside the ROM are recorded without the devices behind them.
- Reservations.Step: every hart's translation is fixed during a run, and memory is a map of words; partly overlapping stores count as stores, not as bytes.
- The `F_ULONG` variants of mul_u, divrem_u and sqrtrem_u, which use a wider native type, and fclass.
- Host addresses, allocation, node pools, iterators, copying and moving in the hash table; the 64-bit limit on the number of buckets; reserve, clear and the 64-bit mixing of user hashes. The hash is an arbitrary function.
- Memory of the table by size_t: bucket counts are unbounded numbers, so a table larger than the address space is not an error here.
- HartPort.Hart.Slow: an access to a device ends with the device outcome; the data and effects of devices are not modelled.
- Entry to debug mode and the choice of the pending interrupt; hart state is one hart, other harts appear as stores by others.
- The counters mcycle, minstret and insn_counter, which the repository's own documentation calls wrong.
- Conformance of the superpage alignment test: the walk is modelled as coded, with one bit per level.
- xorIndex, the RANDOM and LRUp policies, the direct-mapped variant, log2i and roundUpPower2 in LiveCache: only easy members.
- The LiveCache warm-up code in the recovery ROM of a LIVECACHE build.
- Vector instructions, the other bit-manipulation instructions, compressed instructions and the rest of the interpreter.
- Devices, PLIC, CLINT, HTIF, files, terminals, network, ELF, JSON, FDT, options, tracing and logging: input and output.
- Gold_data, Gold_core and the golden memory model above the table.
