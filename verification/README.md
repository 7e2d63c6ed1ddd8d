# Verified models of the AM applications and runtime

This project models the parts of the repository whose correctness is not visible from any one
function, in Dafny, in the form in which the C and C++ code has them: objects whose methods update
fields in place, arrays, and loops. Each method is proved against a specification function or
predicate, and what the code is for is proved about that specification. A specification that a method shares with its proof has laws
beside it that do not name it: in numbers, by fields, or as what a whole run comes to.

| component | files |
|---|---|
| CoreMark list engine: an in-place merge sort whose comparators write to what they compare, and the benchmark around it | `coremark_runs.dfy`, `coremark_list.dfy`, `coremark_bench.dfy` |
| CoreMark token machine and checksum | `coremark_state.dfy`, `coremark_crc.dfy` |
| 64-bit division out of 32-bit words | `int64.dfy` |
| Typing game: a recycled node pool that is safe because letters do not live long | `typing_pool.dfy`, `typing_screen.dfy`, `typing_game.dfy` |
| Native address spaces: page lists, flags and host mappings | `vme.dfy` |
| memcpy and memmove | `memory.dfy` |
| LiteNES: lazy flags and unmasked registers against eager ones, over programs as bytes; two ways of advancing the video address; lookup tables against decoding | `mos6502.dfy`, `mos6502_laws.dfy`, `litenes_opcodes.dfy`, `litenes_cpu.dfy`, `litenes_opt_cpu.dfy`, `litenes_runs.dfy`, `litenes_programs.dfy`, `litenes_ppu_io.dfy`, `litenes_opt_ppu.dfy` |
| FCEUX: picture address registers kept twice, resampler, square wave, program banking, bit-reversal table | `ppu_address.dfy`, `resampler.dfy`, `square_wave.dfy`, `cart.dfy`, `bitrev.dfy` |
| Native audio ring buffer, as a queue and under interleaved threads | `audio.dfy`, `audio_threads.dfy` |
| Powers of two and bitwise operators on natural numbers; sequences without repetitions | `bits.dfy`, `sequences.dfy` |

## How to read the models

- A machine word is the natural number of its bit pattern. Wrap-around, truncation and signed
  readings are written out wherever the code depends on them. `And`, `Or`, `Xor`, `Clz` and `Ctz`
  are defined bit by bit in `bits.dfy`.
- Pointers are object references. A ghost parameter such as `ns` names the nodes of a list in order;
  `c` names a rearrangement of them by positions. Ghost values are never read by the code.
- A loop whose body is long is cut into methods, one per step; the ghost parameters carry the loop
  invariant across the cut.
- A 6502 program is the bytes of the cartridge, from the reset vector on; `litenes_opcodes.dfy` decodes
  them.
- What the hardware, the operating system or another file supplies is a parameter: key states,
  random numbers, the results of the other benchmarks inside `calc_func`, the host mapping calls
  (a map), page allocation (a fresh zeroed object), filter coefficients (any array).

## Where the code and its own comments differ

- `core_bench_list` says that the list is back in its original state at the end. It is, exactly if
  it was sorted by index, every data word had its low byte equal to its high byte, and data with
  equal indices are in their original order when the last sort begins
  (`CoreMarkBench.CoreBenchList`; `RepeatedIndicesMayNotReturn` has an input that is not restored).
- `core_bench_state` says that the corruption is undone if both seeds are equal. It is not for a byte
  that the first pass turns into a comma, which the second pass skips (`CoreMarkState.CorruptedTwice`
  has the exact condition, `NotAlwaysRestored` an input).
- `memcpy` says that it first aligns `dst`. Copying `dst % 8` bytes aligns it exactly if `dst` is a
  multiple of 4 (`KlibMemory.PrologueAligns8`); the copy is right all the same.
- `core_list_find` is said to search by index if the index is not 0; the code does so if it is not negative.
- `__clzsi2` returns the position of the top set bit, which is never the number of leading zeroes
  (`Int64Division.ClzSi2`). The division is modelled over `__builtin_clz` as documented by GCC.
- The comment in the division loop compares `r >= d`. The sign mask that replaces the comparison is
  right exactly if `d` exceeds `r` by at most 2^63, so a start shift with `(n >> sr) < d` is not
  enough for the loop: it divides exactly if `d <= 2^63 + (n >> (sr - 1))`. Every start shift that
  `__udivmoddi4` computes meets this.
- The optimised CPU of LiteNES does not mask PC. Its counter and the 16-bit one of the eager CPU stay
  equal exactly if the next address is inside the memory (`LiteNesRuns.CountersAgree`). A return from
  address 0xFFFF leads to 0x10000, where the eager CPU wraps to 0 (`LiteNesRuns.ReturnsDiffer`).
- The eager CPU runs the unofficial opcodes that do nothing, and the optimised one stops at them
  (apps/litenes_opt/src/cpu.c:853). They are no instructions of the model.
- The addressing modes of the eager CPU load the operand of every instruction, also of a store or a
  jump, and reading a device has effects. `STA $2007` is a read and a write there and only a write on
  the optimised CPU (`Mos6502.StoreToDevice`; `Mos6502.AccessesAgree` has the exact condition). The two
  picture units make up for it: the eager one advances its address at reads only, the optimised one at
  writes too. They use the same addresses as long as loads and stores of $2007 are not mixed without
  setting the address again (`LiteNesPpuIo.TargetsAgree`).
- The eager picture unit tests `PPUADDR > 0x1FFF || PPUADDR < 0x4000`, which is always true, where the
  optimised one has `&&`; a store to the pattern tables goes to a second address as well, which shows
  unless the byte was there already (`LiteNesPpuIo.PatternStoresDiffer`).
- The updates of `count` in the sound buffer are a load and a store each, in two threads. An update can
  be lost (`AudioThreads.UpdatesGetLost`), and the buffer stays a queue, from which the
  callback takes no more than it was asked for, exactly if no thread relies on a value of `count` that
  has changed (`AudioThreads.QueueIffNeverStale`).
- `setprg4r` of a chip of 2 KiB maps a page behind the chip, since its mask is all ones and it has no
  second branch (`Cart.Bus.SetPrg4r`).
- am/src/native/README.md:80 says that `_map()` updates a mapping. Mapping a listed address again
  relinks its node and closes the list to a cycle (`NativeVme.Machine.Map`).

## Model

| member | source | states |
|---|---|---|
| CoreMarkList.CachingKeepsTheBackup | apps/coremark/src/core_list_join.c:63-94 | caching a 7-bit result sets the cache bit, can be read back, and keeps what `cmp_idx` rebuilds |
| CoreMarkList.CalcFunc | apps/coremark/src/core_list_join.c:63-95 | the value of a datum is fixed on first evaluation: a cached word and the results block stay as they are; otherwise the two bytes of the result enter the checksum, a zero `crcstate` or `crcmatrix` is set by its own kind only, and 7 bits are cached over an unchanged backup byte |
| CoreMarkList.Crc16 | apps/coremark/src/core_util.c:166-178 | the checksum of the two bytes of a word, the low one first |
| CoreMarkList.CmpComplexData | apps/coremark/src/core_list_join.c:101-105 | both data end up cached with their backups kept, and the result is the difference of the cached keys |
| CoreMarkList.CmpIdxData | apps/coremark/src/core_list_join.c:112-118 | without a results block both data words are rebuilt from their backups; the result is the difference of the indices |
| MergeRuns.TakingFromP | apps/coremark/src/core_list_join.c:457-465 | a node from p may come next if it is not above the next of q: the output stays sorted and stable and the pending links stay apart from it |
| MergeRuns.TakingFromQ | apps/coremark/src/core_list_join.c:457-469 | a node from q may come next if p is used up or its next key is strictly above |
| MergeRuns.PassEnds | apps/coremark/src/core_list_join.c:432-492 | one pass turns runs of one size into runs of twice that size over the same nodes, in fewer runs |
| CoreMarkList.MergeTwoRuns | apps/coremark/src/core_list_join.c:454-478 | two neighbouring runs are relinked into one stable run behind what is linked already, by the keys the comparisons settled; the rest of the list is untouched |
| CoreMarkList.MergePass | apps/coremark/src/core_list_join.c:433-484 | a whole pass over the list links all nodes into sorted runs of twice the size, ended by NULL, and counts its merges |
| CoreMarkList.CoreListMergesort | apps/coremark/src/core_list_join.c:426-496 | on every non-empty acyclic list the sort ends, the result is a list of exactly the same nodes, sorted stably by the keys that are in the heap afterwards, and with two nodes or more every datum has been looked at |
| CoreMarkList.ListIsInjective | apps/coremark/src/core_list_join.c:426-496 | a chain of next pointers that ends in NULL visits no node twice |
| CoreMarkList.SortIsByTheKeysInTheHeap | apps/coremark/src/core_list_join.c:63-118 | an order by the keys found during the sort is an order by the final data words, although the comparator wrote them on the way |
| CoreMarkList.StableSortIsUnique | apps/coremark/src/core_list_join.c:463-465 | there is one stable sorted arrangement only, so the result of the sort is determined by the final keys |
| CoreMarkList.SortedStablyMeans | apps/coremark/src/core_list_join.c:101-118 | a stable order by the one comparator is one by the seven cached bits, by the other one by the indices, ties by the place before |
| CoreMarkBench.CoreListFind | apps/coremark/src/core_list_join.c:370-380 | the first match by index, or by the low byte if the index is negative; NULL exactly if there is none |
| CoreMarkBench.CoreListReverse | apps/coremark/src/core_list_join.c:395-404 | in-place reversal, for the empty list too |
| CoreMarkBench.SpliceToHead | apps/coremark/src/core_list_join.c:157-162 | the node behind the found one moves behind the head, also where the found node is the head |
| CoreMarkBench.CoreListRemove | apps/coremark/src/core_list_join.c:316-327 | the next node leaves the list and takes the datum of the item with it |
| CoreMarkBench.CoreListUndoRemove | apps/coremark/src/core_list_join.c:345-355 | the removed node is back behind the modified one and the data are exchanged |
| CoreMarkBench.FindRound | apps/coremark/src/core_list_join.c:144-165 | one round: the list is reversed, and on success spliced, exactly where the first match is; and what the return value gains |
| CoreMarkBench.FindLoop | apps/coremark/src/core_list_join.c:135-170 | the find loop as a whole: list, counters, the index looked for and the return value are those of seed3 rounds over the words and indices of the data |
| CoreMarkBench.GainIsBits | apps/coremark/src/core_list_join.c:150-155 | a found word counts if its bits 0 and 9 are set, the word behind the head of the reversed list if its bit 8 is |
| CoreMarkBench.RoundsCount | apps/coremark/src/core_list_join.c:144-166 | each round counts as found or as missed; an index that is not negative goes up by one a round and wraps at 0x7fff |
| CoreMarkBench.SearchInVain | apps/coremark/src/core_list_join.c:144-170 | n rounds that find nothing leave the list reversed for odd n, and gain bit 8 of the second word of each reversed list |
| CoreMarkBench.SearchWithSuccess | apps/coremark/src/core_list_join.c:144-166 | a round that finds the datum at k leaves the list reversed, with the datum before the found one in the second place |
| CoreMarkBench.RemoveAndUndo | apps/coremark/src/core_list_join.c:174-186 | remove, search, checksum and undo together leave every link and every datum in place; the result is the checksum of a string that has the head word, low byte first, once for every node from the first match of the shortened list on, or from the second node on if there is none |
| CoreMarkBench.Checksum | apps/coremark/src/core_list_join.c:179-182 | the checksum of a string that has the word of the head, not of the finder, low byte first, once per node from the finder on |
| CoreMarkBench.SortingByIndexIsIdentity | apps/coremark/src/core_list_join.c:187-188 | sorting a rearrangement by index gives the original order back exactly if that was sorted by index and data with equal indices stand in their original order in the rearrangement |
| CoreMarkBench.SortedFromIsUnique | apps/coremark/src/core_list_join.c:463-465 | by given keys there is one stable result of sorting a rearrangement |
| CoreMarkBench.DistinctAreInOrder | apps/coremark/src/core_list_join.c:187-188 | for distinct indices the condition on equal indices holds always |
| CoreMarkBench.RepeatedIndicesMayNotReturn | apps/coremark/src/core_list_join.c:132-199 | a sorted and fresh list with a repeated index, and a rearrangement of it by the first sort, from which the sort by index does not lead back |
| CoreMarkBench.RebuildingRestores | apps/coremark/src/core_list_join.c:112-118 | rebuilt words are the original words exactly if each of these had equal bytes |
| CoreMarkBench.OneHeapOneOrder | apps/coremark/src/core_list_join.c:187-188 | the nodes form at most one list from one head |
| CoreMarkBench.Restoration | apps/coremark/src/core_list_join.c:125-131 | after the sort by index the original list and words are back if and only if they were sorted by index and fresh, and equal indices stood in their original order before that sort |
| CoreMarkBench.CoreBenchList | apps/coremark/src/core_list_join.c:132-199 | on every list of three nodes or more: every node keeps its datum, the list is sorted stably by index from the order after the first sort, every word is rebuilt from its kept backup; list, links and words are as before if and only if they were sorted by index with equal bytes and the first sort left equal indices in their order; the return value is the checksum, from the value of the find rounds on, of one string: the head word after the first sort, once for every node that the search over the shortened list leaves, and the head word after the second sort, once for every node but the first |
| CoreMarkState.RunIsSignedDigits | apps/coremark/src/core_state.c:194-234 | the machine is in INT exactly after `[+-]?d+` |
| CoreMarkState.RunIsFloat | apps/coremark/src/core_state.c:194-244 | the machine is in FLOAT exactly after `[+-]?d*.d*` |
| CoreMarkState.RunIsScientific | apps/coremark/src/core_state.c:235-270 | the machine is in SCIENTIFIC exactly after a float, an E, a sign and digits; likewise S2 and EXPONENT |
| CoreMarkState.Symbol | apps/coremark/src/core_state.c:194-273 | one turn of the switch: next state and transition counts |
| CoreMarkState.Transition | apps/coremark/src/core_state.c:184-277 | one token is cut off: its text ends where the machine became invalid, at a comma that is skipped, or at the final zero; it advances unless it starts at the zero; state and counts are those of the text |
| CoreMarkState.TokenIsUnique | apps/coremark/src/core_state.c:188-193 | there is one way only to cut off a token |
| CoreMarkState.Scan | apps/coremark/src/core_state.c:59-67 | the loop ends; tokens make up all bytes before the zero; final and transition counts are the tally of these tokens |
| CoreMarkState.TokensAreUnique | apps/coremark/src/core_state.c:59-67 | a text is taken apart into tokens in one way only, so the tally is a function of the text |
| CoreMarkState.TallyAddsUp | apps/coremark/src/core_state.c:59-67 | the final counts add up to the number of tokens |
| CoreMarkState.CountsAre | apps/coremark/src/core_state.c:194-273 | the transition counts of a text: a state counts once if the machine goes through it and leaves it, SCIENTIFIC never, and INVALID if it is entered from START or from SCIENTIFIC |
| CoreMarkState.TalliesAre | apps/coremark/src/core_state.c:59-67 | each final count is the number of texts that end in its state, each transition count the number of texts that count for it |
| CoreMarkState.FlipTwice | apps/coremark/src/core_state.c:70-74 | corrupting a byte twice restores it exactly if it is a comma, or the seeds are equal and the first pass did not make a comma of it |
| CoreMarkState.CorruptedTwice | apps/coremark/src/core_state.c:87-92 | corrupting a block twice restores it exactly if that holds of each visited byte |
| CoreMarkState.NotAlwaysRestored | apps/coremark/src/core_state.c:88 | a text with its final zero and two equal seeds for which the corruption is not undone |
| CoreMarkState.Corrupt | apps/coremark/src/core_state.c:69-74 | every step-th byte of the block that is no comma is xored with the seed, no other byte changes |
| CoreMarkState.BenchState | apps/coremark/src/core_state.c:43-99 | both scans and both corruptions: the checksum of the tallies of both texts, and the buffer is as before exactly if it is restorable |
| CoreMarkState.CountBytesAre | apps/coremark/src/core_state.c:94-97 | the string of the checksum has the final count and the transition count of each state in turn, each in four bytes from the lowest |
| CoreMarkState.StateOrder | apps/coremark/include/coremark.h:121-131 | the states are counted in the order of the enumeration |
| CoreMarkState.BothTalliesAddUp | apps/coremark/src/core_state.c:59-79 | the final counts of both scans add up to the tokens of both texts |
| CoreMarkCrc.StepInCode | apps/coremark/src/core_util.c:148-162 | xor with 0x4002, shift and setting bit 15 is the reflected division step by x^16+x^15+x^2+1 |
| CoreMarkCrc.StepToggles | apps/coremark/src/core_util.c:148-162 | in numbers: halve, and if the low bit of the state is not that of the message, toggle bits 0, 13 and 15 |
| CoreMarkCrc.Turn | apps/coremark/src/core_util.c:148-162 | one turn of the loop is one division step |
| CoreMarkCrc.Crcu8 | apps/coremark/src/core_util.c:142-165 | eight turns divide by the polynomial, low bit first |
| CoreMarkCrc.Crcu32 | apps/coremark/src/core_util.c:171-175 | a 32-bit word is four bytes, lowest first |
| CoreMarkCrc.CrcIsLinear | apps/coremark/src/core_util.c:142-178 | the checksum of messages of equal length is linear over xor in message and seed together |
| CoreMarkCrc.StepAndBack | apps/coremark/src/core_util.c:148-162 | a step is a bijection on the 16-bit state |
| CoreMarkCrc.Crc8IsInjective | apps/coremark/src/core_util.c:142-165 | two bytes lead to the same state exactly if state xor byte is the same: injective in the byte, bijective in the state |
| CoreMarkCrc.CrcKeepsDifferences | apps/coremark/src/core_util.c:142-178 | any message maps different seeds to different checksums |
| CoreMarkCrc.OneByteIsDetected | apps/coremark/src/core_util.c:142-178 | messages that differ in exactly one byte never share a checksum |
| CoreMarkCrc.CheckValue | apps/coremark/src/core_util.c:142-178 | the digits 1 to 9 have the checksum 0xBB3D |
| CoreMarkCrc.ChecksumAppended | apps/coremark/src/core_util.c:142-178 | a message followed by its checksum, low byte first, has the checksum 0 |
| Int64Division.UDivModDi4 | libs/klib/src/int64.c:65-273 | for every a and every b other than 0: a = q * b + r with r < b, in all the special cases and in the loop |
| Int64Division.SignMaskComparesExactly | libs/klib/src/int64.c:258-267 | the mask is the comparison r >= d exactly if d <= r + 2^63 |
| Int64Division.ShiftSubtract | libs/klib/src/int64.c:250-272 | from every start shift 1..63 with (n >> sr) < d the loop divides if and only if d <= 2^63 + (n >> (sr - 1)) |
| Int64Division.NotEveryShiftWorks | libs/klib/src/int64.c:244-251 | a dividend, divisor and start shift with (n >> sr) < d for which it does not |
| Int64Division.BringDown | libs/klib/src/int64.c:253-257 | a shift of the 128-bit pair over four words brings the next bit of n down and makes room for a quotient bit |
| Int64Division.ShiftLeft128 | libs/klib/src/int64.c:253-257 | the four shifted words are the shift of the pair, with the carry in the lowest bit |
| Int64Division.DivideByWide | libs/klib/src/int64.c:212-242 | both high halves in use: quotient 0 if the divisor is longer, else a start shift for which the loop divides |
| Int64Division.DivideByHigh | libs/klib/src/int64.c:111-160 | the low half of the divisor empty: division of the high halves, power of two, or the loop |
| Int64Division.DivideByLow | libs/klib/src/int64.c:163-211 | a 32-bit divisor: power of two, or the loop from a start shift below, at or above 32 |
| Int64Division.PowerOfTwoDivision | libs/klib/src/int64.c:130-139 | d & (d - 1) == 0 means a power of two, for which mask and shift are remainder and quotient |
| Int64Division.DivDi3 | libs/klib/src/int64.c:19-29 | truncated division, wrapped to 64 bits; right for every pair except the least number by -1 |
| Int64Division.ModDi3 | libs/klib/src/int64.c:43-54 | the remainder of the truncated division with the sign of the dividend, for every pair |
| Int64Division.DivModDi4 | libs/klib/src/int64.c:33-39 | quotient and remainder together; the remainder is right even where the quotient wraps |
| Int64Division.TruncatedDivisionIsUnique | libs/klib/src/int64.c:19-54 | section 6.5.5 of ISO/IEC 9899:2011 leaves one quotient only |
| Int64Division.OverflowIsTheOnlyMiss | libs/klib/src/int64.c:19-29 | the wrapped quotient is wrong exactly for the least number by -1 |
| Int64Division.ClzSi2 | libs/klib/src/int64.c:289-294 | it returns the position of the top set bit, never the number of leading zeroes |
| TypingPool.FlyRemove | apps/typing/game.h:84-88 | unlinking the k-th node leaves the doubly linked list of the others; the node keeps its own links, which the loop reads afterwards |
| TypingPool.Pool.FlyNew | apps/typing/game.h:57-71 | the node is none of those in use exactly if the free list is not empty or nothing is in use; the pool is linked up exactly if the free list is empty |
| TypingPool.Pool.FlyFree | apps/typing/game.h:89-92 | the node moves from the list in use to the front of the free list |
| TypingGame.TrackContinues | apps/typing/game.c:85-102 | a letter on its track (falling from 0 by 1, then rising by 3) is gone by the 257th update; it leaves at the top only after a hit, at the bottom only without one |
| TypingGame.FewBirths | apps/typing/game.c:36-41 | at most 26 letters can have been created within one life span, at most 25 just before a new one |
| TypingGame.Game.CreateNewLetter | apps/typing/game.c:68-83 | in every reachable state a node that is not live comes to the front, with a place, a speed of 1 and a released key |
| TypingGame.Game.UpdateLetterPos | apps/typing/game.c:85-102 | every letter moves by its speed; exactly those at 0 to 192 stay, in order; hits and misses grow by the numbers of letters above and below |
| TypingGame.Game.FindTarget | apps/typing/game.c:104-112 | the first of the lowest falling letters whose key is down; none exactly if there is no such letter |
| TypingGame.Game.UpdateKeypress | apps/typing/game.c:104-119 | exactly the target turns round and its key is released |
| TypingGame.Game.StrikeLetters | apps/typing/game.c:34 | the loop ends; every key that is down strikes exactly the first of the lowest falling letters with its text, which turns to -3, and is released; all other letters and keys stay as they are |
| TypingGame.Game.Frame | apps/typing/game.c:26-41 | every letter keeps place and text, has speed -3 if its key is down and it is the first of the lowest falling letters with its text, keeps its speed otherwise, moves by that speed, and stays exactly at 0 to 192; hits and misses grow by the numbers of letters above and below; every tenth frame brings a letter; what the player sees is the next screen |
| TypingGame.Game.ValidMeansBounded | apps/typing/game.c:51-102 | at most 26 letters live, the pool linked up at most once, created = live + hit + miss, struck = hit + the letters on their way up |
| TypingGame.Play | apps/typing/game.c:13-49 | over every run, for all key states and random numbers: the letters in their order, the keys, hits and misses are those of the run of screens; one letter was created per 10 frames; the hits are the struck letters that have left; the bounds hold |
| TypingScreen.NobodyPlays | apps/typing/game.c:26-102 | without a key, after any number of frames: a letter of every tenth frame is on the screen, a place lower each frame, until it is lost after 192; the number of letters, their places and the misses in figures, no hit |
| TypingScreen.FirstHit | apps/typing/game.c:26-102 | if the key of the first letter is down in frame 11 the letter leaves at the top and counts as a hit; if and only if |
| TypingScreen.OneOfTwo | apps/typing/game.c:104-119 | of two falling letters with one text only the lower one is struck; with two texts each by its own key |
| TypingScreen.EachLetterFlies | apps/typing/game.c:34-41 | one frame of the specification, letter by letter: the rule for the speed, and the move |
| NativeVme.PagesAreListed | am/src/native/vme.c:5-14 | a page list with distinct addresses, read as a map, has exactly its nodes as entries |
| NativeVme.RelinkingCloses | am/src/native/vme.c:86-89 | moving a node that is listed to the front without unlinking it leaves no list at all: the chain never ends |
| NativeVme.Machine.Protect | am/src/native/vme.c:28-33 | a new space starts with an empty list and no mapping; the others are unchanged |
| NativeVme.Machine.Map | am/src/native/vme.c:67-96 | the space is still a list after the call if and only if the address was not mapped in it; then exactly one entry is added, and enforced at once in the current space |
| NativeVme.Machine.Switch | am/src/native/vme.c:38-65 | the host ends up with exactly the mappings of the new space and the flags with its nodes; nothing happens before `_vme_init` |
| NativeVme.Machine.ListsAreDisjoint | am/src/native/vme.c:5-14 | no node is in two lists or twice in one, no head is in a list, and a flagged node is mapped on the host as it says |
| NativeVme.Machine.ListOf | am/src/native/vme.c:13-14 | each list is acyclic and holds exactly the addresses of its space |
| NativeVme.Run | am/src/native/vme.c:21-96 | every run of protect, map of a new address and switch keeps the invariant and leaves the spaces that a map per space describes, the current one enforced |
| KlibMemory.CopiedUpIsMoved | libs/klib/src/string.c:163-165 | copying upwards byte by byte moves the block if the destination does not start inside the source |
| KlibMemory.WhenCopiedUpIsMoved | libs/klib/src/string.c:83-95 | it moves the block if and only if the blocks do not overlap that way or the source repeats with the distance: the guard of `memmove` |
| KlibMemory.GateKeepsApart | libs/klib/src/string.c:101-132 | a distance that is a multiple of the word size is zero, negative or at least a word, so no word is read after it was half overwritten |
| KlibMemory.PrologueAligns8 | libs/klib/src/string.c:104-107 | copying dst % 8 bytes aligns dst exactly if it was a multiple of 4 |
| KlibMemory.PrologueAligns4 | libs/klib/src/string.c:133-136 | copying dst % 4 bytes aligns dst exactly if it was a multiple of 2 |
| KlibMemory.CopyUnit | libs/klib/src/string.c:110-123 | a word access copies as its bytes one by one would, at the distance that the gate leaves |
| KlibMemory.Memcpy | libs/klib/src/string.c:97-165 | for every overlap, alignment and length the effect is that of copying byte by byte upwards |
| KlibMemory.Memmove | libs/klib/src/string.c:83-95 | the destination holds the old source for every overlap and alignment, and nothing else changes (section 7.24.2.2 of ISO/IEC 9899:2011) |
| Mos6502.UnpackedIsPacked | apps/litenes_opt/src/cpu.c:424-439 | packing the flags into P and unpacking them restores the state |
| Mos6502.PackedIsUnpacked | apps/litenes_opt/src/cpu.c:485-495 | unpacking a byte and packing it gives the byte |
| Mos6502.OverflowRule | apps/litenes/src/cpu.c:99-105 | the sign rule of the code is signed overflow, bit 8 the carry |
| Mos6502.BorrowRule | apps/litenes/src/cpu.c:109-115 | the same for subtraction: signed overflow, and bit 8 of the wrapped difference the borrow |
| Mos6502Laws.SumWithCarry | apps/litenes/src/cpu.c:99-105 | carry and A together are the sum of A, operand and carry |
| Mos6502Laws.DifferenceWithBorrow | apps/litenes/src/cpu.c:109-115 | A less 256 for a missing carry is the difference |
| Mos6502Laws.SignedResults | apps/litenes/src/cpu.c:99-115 | V is set exactly if the signed result is not the signed sum or difference |
| Mos6502Laws.ComparisonOf | apps/litenes/src/cpu.c:249-251 | a comparison sets carry, zero and sign of the difference and keeps the registers |
| Mos6502Laws.LogicBitByBit | apps/litenes/src/cpu.c:119-125 | and, or and exclusive or, bit by bit |
| Mos6502Laws.ShiftWithCarry | apps/litenes/src/cpu.c:131-181 | a shift to the left doubles, one to the right halves, with the carry at the other end |
| Mos6502Laws.ShiftOfA | apps/litenes/src/cpu.c:126-181 | the shifts of A do to A what the others do to memory |
| Mos6502Laws.RotationsUndo | apps/litenes/src/cpu.c:159-181 | rotating to and fro restores byte and carry |
| Mos6502Laws.CountByOne | apps/litenes/src/cpu.c:255-269 | memory goes up or down by one, around the byte |
| Mos6502Laws.RegisterByOne | apps/litenes/src/cpu.c:260-271 | so do X and Y |
| Mos6502Laws.LoadOf | apps/litenes/src/cpu.c:185-187 | each load changes its own registers, zero and sign |
| Mos6502Laws.LoadedIsStored | apps/litenes/src/cpu.c:185-193 | each store writes what its load has loaded |
| Mos6502Laws.TransferLoads | apps/litenes/src/cpu.c:197-202 | a transfer is a load of what the other register would store; TXS sets no flags |
| Mos6502Laws.FlagInstruction | apps/litenes/src/cpu.c:239-245 | each flag instruction changes its flag alone |
| Mos6502Laws.BranchAfterComparison | apps/litenes/src/cpu.c:206-216 | after a comparison or a subtraction the branches see the order of the operands |
| Mos6502Laws.BranchesInPairs | apps/litenes/src/cpu.c:206-216 | of each pair of branches one is taken |
| Mos6502Laws.BitsShown | apps/litenes/src/cpu.c:120-123 | BIT shows bits 7 and 6 of the operand and whether it has a bit in common with A |
| Mos6502Laws.PushAndPull | apps/litenes/src/cpu.c:275-278 | PLA gets what PHA pushed, and the stack pointer is back |
| Mos6502Laws.FlagsPushAndPull | apps/litenes/src/cpu.c:275-278 | PHP and PLP give all flags back but two |
| Mos6502Laws.CallAndReturn | apps/litenes/src/cpu.c:224-225 | RTS goes behind its JSR, with registers, flags and stack pointer as they were |
| Mos6502Laws.InterruptAndReturn | apps/litenes/src/cpu.c:578-586 | RTI goes to the instruction before which the interrupt came, with all flags but one |
| Mos6502Laws.BreakAndReturn | apps/litenes/src/cpu.c:229-235 | RTI after BRK goes to the counter that BRK has pushed |
| Mos6502.CounterIs | apps/litenes/src/cpu-addressing.c:14-101 | the next counter in numbers for every instruction: behind its one, two or three bytes, at the target, the branch, what the stack says, or `read(0xFFFA) + 256 * read(0xFFFB)` |
| Opcodes.AccumulatorGroup | apps/litenes/src/cpu.c:334-485 | bits 5 to 7 of an opcode that ends in 01 choose the operation, bits 2 to 4 the mode; only the store of an immediate operand is missing |
| Opcodes.ShiftGroup | apps/litenes/src/cpu.c:334-485 | the opcodes of the shifts, by operation and mode |
| Opcodes.CountGroup | apps/litenes/src/cpu.c:334-485 | the opcodes of INC and DEC |
| Opcodes.LoadXGroup | apps/litenes/src/cpu.c:334-485 | the opcodes of LDX, which is indexed by Y |
| Opcodes.LoadYGroup | apps/litenes/src/cpu.c:334-485 | the opcodes of LDY, which is indexed by X |
| Opcodes.StoreIndexGroup | apps/litenes/src/cpu.c:334-485 | the opcodes of STX and STY |
| Opcodes.CompareGroup | apps/litenes/src/cpu.c:334-485 | the opcodes of CPX, CPY and BIT |
| Opcodes.BranchGroup | apps/litenes/src/cpu.c:334-485 | the opcodes of the branches, by flag and value |
| Opcodes.FlagColumn | apps/litenes/src/cpu.c:334-485 | the opcodes that change flags |
| Opcodes.StackColumn | apps/litenes/src/cpu.c:334-485 | the opcodes that end in 8: the stack, Y and X |
| Opcodes.TransferColumn | apps/litenes/src/cpu.c:334-485 | the opcodes that end in A, behind the shifts |
| Opcodes.JumpColumn | apps/litenes/src/cpu.c:334-485 | the opcodes of jumps, calls, returns and BRK |
| Opcodes.UnofficialGroup | apps/litenes/src/cpu.c:487-538 | the unofficial opcodes of the model: LAX and the second SBC |
| Opcodes.SizeMeans | apps/litenes/src/cpu-addressing.c:14-101 | a mode has one byte of operand if and only if its address depends on the low byte of the operand alone |
| Mos6502.AccessesAgree | apps/litenes_opt/src/cpu.c:118-179 | a CPU that loads the operand of every instruction accesses the devices as one that loads it only for use if and only if the instruction is neither a store nor a jump to a device; otherwise by one read more |
| Mos6502.StoreToDevice | apps/litenes/src/cpu.c:191 | STA $2007: a read and then a write of A on the eager CPU, the write alone on the optimised one |
| LiteNes.Cpu.OpAdc | apps/litenes/src/cpu.c:99-105 | the eager handler computes sum, carry, signed overflow, zero and sign |
| LiteNes.Cpu.OpSbc | apps/litenes/src/cpu.c:109-115 | the eager handler computes the difference with its flags |
| LiteNes.Cpu.Execute | apps/litenes/src/cpu.c:95-271 | every base register, arithmetic, logic, shift, load, store, transfer, flag and compare handler does what the specification says |
| LiteNes.Cpu.EffectiveAddress | apps/litenes/src/cpu-addressing.c:14-101 | all eight addressing modes: sums wrap in the zero page or at 16 bits, pointers wrap in the zero page |
| LiteNes.Cpu.ExecuteMemory | apps/litenes/src/cpu-addressing.c:32-101 | an operation on memory: registers, flags and RAM, and the accesses to devices in order, the load of the operand first, also for stores |
| LiteNes.Cpu.LoadPointer | apps/litenes/src/cpu-addressing.c:70-83 | the indirect jump takes the high byte of its target from the same page |
| LiteNes.Cpu.OpBranch | apps/litenes/src/cpu-addressing.c:58-68 | a taken branch adds its signed offset to the address of the next instruction, modulo 2^16 |
| LiteNes.Cpu.Step | apps/litenes/src/cpu.c:592-606 | any instruction (memory, stack, branch, jump, subroutine, interrupt) does a step of the specification: registers, flags, RAM, and all accesses to devices in order, with address and value; the 16-bit PC in numbers, by the bytes of the mode, the branch, the stack or the vector at 0xFFFA |
| LiteNes.Cpu.Interrupt | apps/litenes/src/cpu.c:578-586 | the interrupt pushes PC and flags, sets I and clears the unused flag |
| LiteNesOpt.Cpu.ComputeN | apps/litenes_opt/src/cpu.c:253-258 | bringing the negative flag up to date changes nothing that the program can see |
| LiteNesOpt.LazyBits | apps/litenes_opt/src/cpu.c:223-247 | the marker in bit 25 disturbs neither the zero test nor bit 7 |
| LiteNesOpt.Cpu.OpAdc | apps/litenes_opt/src/cpu.c:270-276 | with an unmasked A and lazy flags the visible state is that of the specification |
| LiteNesOpt.Cpu.OpSbc | apps/litenes_opt/src/cpu.c:280-286 | the same for subtraction, wrapped at 32 bits |
| LiteNesOpt.Cpu.OpShift | apps/litenes_opt/src/cpu.c:300-357 | the same for shifts and rotations whose results are not masked |
| LiteNesOpt.Cpu.OpPhp | apps/litenes_opt/src/cpu.c:485 | the pushed byte is that of the eager CPU, computed from lazy flags |
| LiteNesOpt.Cpu.OpPlp | apps/litenes_opt/src/cpu.c:488-495 | the pulled flags are adopted by the lazy word |
| LiteNesOpt.Cpu.OpRti | apps/litenes_opt/src/cpu.c:433-439 | flags and PC are restored as in the eager CPU |
| LiteNesOpt.Cpu.Test | apps/litenes_opt/src/cpu.c:399-411 | every branch decides as the specification does, and leaves the visible state alone |
| LiteNesOpt.IndexedWord | apps/litenes_opt/src/cpu.c:67-79 | an absolute-indexed address from an unmasked register is right if and only if bits 8 to 15 of the register are zero |
| LiteNesOpt.IndexedByte | apps/litenes_opt/src/cpu.c:46-58 | a zero-page address from an unmasked register is always right |
| LiteNesOpt.EndOfZeroPage | apps/litenes_opt/src/cpu.c:109-117 | (zp),Y at 255 takes the high byte from 256 instead of 0: the address is right exactly if the two bytes are equal |
| LiteNesOpt.Cpu.EffectiveAddress | apps/litenes_opt/src/cpu.c:40-118 | the address is that of the specification if and only if no dirty register indexes absolutely and no pointer is read across the end of the zero page where the bytes at 0 and 256 differ; the mode (zp,X) asserts false |
| LiteNesOpt.Cpu.Step | apps/litenes_opt/src/cpu.c:635-645 | any instruction does a step of the specification on the visible state, with a PC of 32 bits that is not masked, in numbers; the accesses to devices are those that are needed, without the load of an operand that is not used |
| LiteNesRuns.ExecAlike | apps/litenes_opt/src/cpu.c:384-389 | in states that may differ in Z and SP an operation does the same; every one that updates the flags makes Z agree, TXS makes SP agree |
| LiteNesRuns.StepAlike | apps/litenes_opt/src/cpu.c:399-495 | so does any instruction that reads Z or SP only if they are known to agree, with the same next address and the same accesses |
| LiteNesRuns.CountersAgree | apps/litenes_opt/src/cpu.c:391-439 | a PC of 16 bits and one of 32 stay equal if and only if the next address is inside the memory |
| LiteNesRuns.OutputsAgree | apps/litenes_opt/src/cpu.c:118-179 | over a run the accesses of both CPUs are the same if and only if nothing is stored to a device and nothing jumps to one |
| LiteNesRuns.RunBoth | apps/litenes_opt/src/cpu.c:635-645 | on any cartridge, whose bytes are decoded where the counters are, with any interrupts and any answers of the devices, both CPUs make the run of the specification: equal PC, states equal but for Z and SP until these have been set, each the accesses of its kind; these are the same if and only if nothing is stored to a device; they stop only before an opcode outside of the model, a stack wrap, an address that the two decode differently, an absolute index whose register is dirty, a pointer across the end of the zero page, (zp,X), a PC that leaves the memory or the cartridge, or a use of Z or SP that is not set |
| LiteNesRuns.PowerUp | apps/litenes_opt/src/cpu.c:571-585 | after power-up and reset both are at the reset vector; they differ in SP (0xFD against 0xFFFFFFFD) and in Z, and in nothing else |
| LiteNesRuns.RunFromPowerUp | apps/litenes_opt/src/cpu.c:571-585 | hence every run from the address `rom(0xFFFC) + 256 * rom(0xFFFD)` on, under any prefix that uses neither Z nor SP |
| LiteNesPrograms.EncodingIsLong | apps/litenes/src/cpu-addressing.c:14-101 | the counter moves on by as many bytes as decide the instruction, no more and no less |
| LiteNesPrograms.StraightLine | apps/litenes/src/cpu.c:592-606 | of any program without jumps that lies in the cartridge byte after byte, each instruction is run in turn, with the counter at its first byte |
| LiteNesPrograms.AddsWords | apps/litenes/src/cpu.c:592-606 | the 13 bytes of CLC, LDA, ADC, STA, LDA, ADC, STA add two 16-bit words of the zero page, for all places and values |
| LiteNesPrograms.SubtractsWords | apps/litenes/src/cpu.c:592-606 | those with SEC and SBC subtract them |
| LiteNesPrograms.CopiesBlock | apps/litenes/src/cpu.c:592-606 | the 11 bytes of LDX, LDA abs,X, STA abs,X, DEX, BNE copy any block of up to 255 bytes within the RAM, and the counter ends behind them |
| LiteNesRuns.ReturnToZero | apps/litenes/src/cpu.c:225 | LDA #$FF; PHA; PHA; RTS at 0x8000 with an empty stack: safe, and the next address is 0x10000 |
| LiteNesRuns.ReturnsDiffer | apps/litenes_opt/src/cpu.c:420 | after that program PC is 0 in the eager CPU and 0x10000 in the optimised one |
| LiteNesRuns.PushAddressAgrees | apps/litenes_opt/src/cpu.c:214 | a push address agrees exactly if SP is below 256 |
| LiteNesPpuIo.EagerPpu.IoRead | apps/litenes/src/ppu.c:316-355 | the first read of $2007 leaves the address, every later one advances it; $2002 and $2006 make the next one the first |
| LiteNesPpuIo.EagerPpu.IoWrite | apps/litenes/src/ppu.c:357-402 | a write to $2007 goes to the address and to its mirror, and does not advance |
| LiteNesPpuIo.LazyPpu.IoRead | apps/litenes_opt/src/ppu.c:531-567 | reads behave alike, with the address kept below 0x4000 |
| LiteNesPpuIo.LazyPpu.IoWrite | apps/litenes_opt/src/ppu.c:569-617 | a write to $2007 advances, and goes to the mirror in the name tables only |
| LiteNesPpuIo.StepAgrees | apps/litenes_opt/src/ppu.c:531-617 | a store of the eager CPU, which reads the port and then writes it, and a store of the optimised one, which only writes it, keep the addresses related and the video memories equal; a load gets the same byte |
| LiteNesPpuIo.TargetsAgree | apps/litenes_opt/src/ppu.c:543-617 | once set, the two addresses used by an access to $2007 are equal if and only if it is a load and no store came between, or a store and no load or change of the step did |
| LiteNesPpuIo.PatternStoresDiffer | apps/litenes/src/ppu.c:392-398 | after a store to the pattern tables the two video memories are equal if and only if the mirrored byte was the stored one |
| LiteNesPpuIo.RunPorts | apps/litenes_opt/src/ppu.c:531-617 | over any program of port accesses that is allowed in this sense: equal video memories, equal loaded bytes |
| LiteNesPpuIo.AddressIsSet | apps/litenes/src/ppu.c:316-402 | after a load of $2002, two stores to $2006 set both addresses to the two bytes, the high one first |
| LiteNesPpuIo.StepIsSet | apps/litenes/src/ppu.c:33 | bit 2 of $2000 decides between 1 and 32 |
| LiteNesPpuIo.LoadsMoveOn | apps/litenes/src/ppu.c:335-352 | the first load of $2007 stays, each later one goes a step further, in both units |
| LiteNesPpuIo.StoreIsFound | apps/litenes_opt/src/ppu.c:607-615 | a byte stored to a name table or the palette is found at its address and at its mirror, and all else is unchanged |
| LiteNesPpuIo.PaletteMirrors | apps/litenes/src/ppu.c:72-85 | the palette repeats every 32 bytes, and its entries 16, 20, 24 and 28 are 0, 4, 8 and 12 |
| LiteNesPpuIo.MirrorIsNextTable | apps/litenes/src/ppu.c:429-432 | the mirror is 0x400 or 0x800 further, or back |
| LiteNesOptPpu.MakeColours | apps/litenes_opt/src/ppu.c:170-181 | XHL holds the two-bit colour for every pair of plane bytes and every x |
| LiteNesOptPpu.ColourIs | apps/litenes/src/ppu.c:410-419 | by arithmetic: the bit of the high plane is worth 2, that of the low plane 1, the leftmost pixel first |
| LiteNesOptPpu.MakeIndex | apps/litenes_opt/src/ppu.c:188-198 | the re-organised pattern table holds both plane bytes of every tile row |
| LiteNesOptPpu.Lookup | apps/litenes/src/ppu.c:410-419 | the two-level lookup is the direct decoding of the two plane bytes, for every pattern memory, bank, tile, row and column |
| LiteNesOptPpu.CoveringIsExact | apps/litenes_opt/src/ppu.c:251-268 | the specified list of a line has exactly the sprites with y < 0xEF that begin at the line or less than their height above it, in index order |
| LiteNesOptPpu.MakeSpriteLists | apps/litenes_opt/src/ppu.c:251-268 | every scanline list is that list, for every sprite table and both heights, with no slot overflow |
| PpuAddress.NextLineIs | apps/fceux/src/ppu.cpp:201-212 | the step to the next line by counters: fine row, coarse row, wrap at 29 with a change of the name table, wrap at 31 without |
| PpuAddress.PpuRegs.IncrementVs | apps/fceux/src/ppu.cpp:201-212 | the counters step to the next line |
| PpuAddress.StepLine | apps/fceux/src/ppu.cpp:1195-1211 | so does the packed word, by masks and the xors with 0x7000, 0xBA0, 0x3e0 of the code, modulo 2^15 |
| PpuAddress.LastRowXor | apps/fceux/src/ppu.cpp:1201-1202 | in row 29 the xor with 0xBA0 clears the coarse row and changes the name table |
| PpuAddress.NextTileIs | apps/fceux/src/ppu.cpp:191-199 | the step to the next tile by counters: coarse column, wrap with a change of the name table |
| PpuAddress.PpuRegs.IncrementHsc | apps/fceux/src/ppu.cpp:191-199 | the counters step to the next tile |
| PpuAddress.StepTile | apps/fceux/src/pputile.inc:49-54 | so does the packed word, by its xor with 0x41F at the last column |
| PpuAddress.PpuRegs.ClockCounters | apps/fceux/src/ppu.cpp:249-271 | the daisy-chained counters are one 15-bit counter that advances by 1 or 32 |
| PpuAddress.Ppu.B2000 | apps/fceux/src/ppu.cpp:848-862 | both forms get the name table bits, and no other |
| PpuAddress.Ppu.B2005 | apps/fceux/src/ppu.cpp:906-925 | both forms get horizontal scroll at the first and vertical scroll at the second write |
| PpuAddress.Ppu.B2006 | apps/fceux/src/ppu.cpp:928-958 | both forms get the address in two halves, the second write takes it over |
| PpuAddress.Ppu.StartLine | apps/fceux/src/ppu.cpp:1186-1193 | the horizontal reload changes the horizontal fields only, in both forms |
| PpuAddress.Ppu.A2007 | apps/fceux/src/ppu.cpp:822-841 | the packed form steps by its own guard (scanline < 240), the counters by theirs (0 <= sl < 241); the two stay equal if and only if the guards decide alike |
| PpuAddress.Ppu.B2007 | apps/fceux/src/ppu.cpp:960-1005 | a write access keeps both forms equal if and only if it is outside the picture: the packed form ignores the picture |
| PpuAddress.NextLineIsFar | apps/fceux/src/ppu.cpp:237-247 | a step to the next line is never a step by 1 or 32 |
| PpuAddress.Ppu.AccessAgrees | apps/fceux/src/ppu.cpp:214-220 | the addresses computed from the counters are the low bits of the packed word |
| PpuAddress.Ppu.EndTile | apps/fceux/src/pputile.inc:49-54 | the end of a tile keeps both forms equal |
| PpuAddress.Ppu.AttributeAgrees | apps/fceux/src/ppu.cpp:228-230 | the attribute address computed from the counters is that computed from the packed word |
| PpuAddress.Perform | apps/fceux/src/ppu.cpp:822-1211 | each event leaves TempAddr, RefreshAddr modulo 0x8000, XOffset and vtoggle as its fields say, and the two forms equal exactly if it is common to both |
| PpuAddress.LinesCount | apps/fceux/src/ppu.cpp:1195-1211 | within a name table n line ends lead n lines down |
| PpuAddress.EightLines | apps/fceux/src/ppu.cpp:1195-1211 | eight line ends from fine row 0 lead to the next row, after row 29 to the top of the other name table, after row 31 of the same |
| PpuAddress.TwoPictures | apps/fceux/src/ppu.cpp:1195-1211 | 240 line ends from the top lead to the top of the other name table, 480 back |
| PpuAddress.TilesCount | apps/fceux/src/pputile.inc:49-54 | n tile ends advance column and horizontal name table, as one number of six bits, by n |
| PpuAddress.LineOfTiles | apps/fceux/src/pputile.inc:49-54 | 32 tile ends lead to the same column of the other name table, 64 back |
| PpuAddress.LineReturns | apps/fceux/src/ppu.cpp:1186-1193 | after any number of tiles the reload restores column and horizontal name table |
| PpuAddress.AddressWritten | apps/fceux/src/ppu.cpp:928-958 | two writes to $2006 set RefreshAddr to 256 * (a % 64) + b |
| PpuAddress.ScrollWritten | apps/fceux/src/ppu.cpp:906-925 | two writes to $2005 set column, fine column, row and fine row |
| PpuAddress.PictureSetUp | apps/fceux/src/ppu.cpp:848-925 | writes to $2000 and $2005 and the top of the picture: all fields of the start address |
| PpuAddress.AccessesCount | apps/fceux/src/ppu.cpp:836-841 | n accesses outside the picture advance the address by n or by 32 n |
| PpuAddress.Run | apps/fceux/src/ppu.cpp:142-272 | over any sequence of register writes, accesses, tile ends, line ends and reloads both forms agree after every prefix if and only if each $2007 read is guarded alike and no $2007 write falls in the picture; the first event that breaks this makes them differ; and the packed registers are, event by event, those that the fields of the addresses say |
| BitReversal.RevReverses | apps/fceux/src/ppu.cpp:72-92 | bit j of the reversal is bit n - 1 - j |
| BitReversal.RevIsInvolution | apps/fceux/src/ppu.cpp:72-92 | reversing twice is the identity, so the table is a permutation |
| BitReversal.RevOfUpperHalf | apps/fceux/src/ppu.cpp:86-91 | the step of the doubling loop |
| BitReversal.MakeTable | apps/fceux/src/ppu.cpp:75-92 | for any number of bits the loop fills each of the 2^b entries with the reversal of its index |
| Resampler.Filter.constructor | apps/fceux/src/filter.cpp:165-194 | the coefficients are filled symmetrically |
| Resampler.Filter.NeoFilterSound | apps/fceux/src/filter.cpp:93-163 | the outputs are the filter window, accumulated in 32-bit words, at mrindex, mrindex + mrratio and so on: at a whole position the window there, between two a value between both windows; every read in bounds, smoothed by the levels carried over; the new index keeps the position exact; 32-bit positions do not wrap if the input and one step fit |
| Resampler.ImpulseResponse | apps/fceux/src/filter.cpp:111-137 | a single sample comes through the coefficient that is as far from the front as the sample is from the end of the window |
| Resampler.WholePosition | apps/fceux/src/filter.cpp:119 | at a whole position the output is the window there, divided by 2048 |
| Resampler.Interpolates | apps/fceux/src/filter.cpp:119 | between two whole positions the output moves in one direction from the first window to the second, and reaches it at the next position |
| Resampler.TapsFit | apps/fceux/src/filter.cpp:88-91 | samples of at most m do not overflow the filter: the wrapped 32-bit sum is the exact one if m times each coefficient and the sum of all taps stay in range |
| Resampler.FilteredFits | apps/fceux/src/filter.cpp:119 | the weighted mean of two windows in 64 bits, shifted by 27, always fits into 32 bits |
| Resampler.Filter.SexyFilter | apps/fceux/src/filter.cpp:47-80 | in place, with two running levels that live on: the smoothed samples, clipped to 16 bits |
| Resampler.LevelsMove | apps/fceux/src/filter.cpp:63-65 | each level moves towards its aim by the share that its factor is of 65536 |
| Resampler.SteadyInputIsSilent | apps/fceux/src/filter.cpp:61-78 | at rest on a steady input the levels stay and nothing is heard |
| Resampler.HeardIsTheRest | apps/fceux/src/filter.cpp:69-73 | what is heard is what the sample lacks of both levels, in whole units, clipped |
| Resampler.LowMoves | apps/fceux/src/filter.cpp:20-45 | the second filter moves an eighth of the way and stays where the sample is |
| Resampler.OneSample | apps/fceux/src/filter.cpp:20-80 | a sample is heard through the levels that it has moved, then through the second filter if that is on |
| Resampler.SmoothedInParts | apps/fceux/src/filter.cpp:49-80 | smoothing in parts is smoothing at once, because the levels are carried over |
| Resampler.LoweredInParts | apps/fceux/src/filter.cpp:20-45 | the same for the second low-pass filter |
| Resampler.WordsSuffice | apps/fceux/src/filter.cpp:104-107 | 40000 samples and one step fit into 32 bits at every rate from 71 Hz on |
| Resampler.FilteredShifted | apps/fceux/src/filter.cpp:111-137 | the window depends on the samples, not on where the buffer starts |
| Resampler.OutputsAppended | apps/fceux/src/filter.cpp:143-154 | outputs of the next flush continue those before without drift |
| Resampler.Sound.Flush | apps/fceux/src/sound.cpp:1049-1056 | after a flush the k-th output since the start is the smoothed filter of the whole stream at start + k * mrratio, at or between the windows there, and all outputs due are out |
| Resampler.Sound.CarryOver | apps/fceux/src/sound.cpp:1051-1052 | the last samples come to the front, the rest is silence |
| Resampler.FramingDoesNotMatter | apps/fceux/src/sound.cpp:1037-1057 | two runs over the same stream, however cut into flushes, have the same outputs, before and after the smoothing |
| SquareWave.NextSample | apps/fceux/src/sound.cpp:609-621 | the closed form of duty step and counter steps as the loop body does, and the counter stays positive |
| SquareWave.Continues | apps/fceux/src/sound.cpp:605-624 | starting the wave from its own later state continues it |
| SquareWave.PeriodIsHigh | apps/fceux/src/sound.cpp:605-621 | of the samples of a period, wherever it starts, as many eighths are high as the threshold says |
| SquareWave.ShareOfPeriod | apps/fceux/src/sound.cpp:61 | the four duty settings are high for an eighth, a quarter, a half and three quarters of the period |
| SquareWave.Square.Render | apps/fceux/src/sound.cpp:571-628 | every sample gains the amplitude of the registers exactly in the high part of its duty step; a channel whose frequency, sweep or length counter forbids sound only moves its time |
| SquareWave.AudibleMeans | apps/fceux/src/sound.cpp:170-180 | the bit test of the sweep forbids exactly those 11-bit frequencies whose upward sweep would leave 11 bits |
| SquareWave.AmplitudeIsScaled | apps/fceux/src/sound.cpp:588-598 | the test for full volume only saves the scaling: the amplitude is scaled by the volume at every setting |
| SquareWave.RenderInParts | apps/fceux/src/sound.cpp:571-628 | rendering in two parts gives the samples and counters of rendering at once, for all registers |
| Cart.MaskIsModulo | apps/fceux/src/cart.cpp:107-118 | for a power-of-two size masking a bank number is a remainder |
| Cart.PagesAgree | apps/fceux/src/cart.cpp:167-211 | both branches of the mapping functions lead every page to (V * bank + page) modulo the size, although V << 2..4 wraps |
| Cart.Bus.SetPagePtr | apps/fceux/src/cart.cpp:75-89 | exactly the pages of the window change |
| Cart.Bus.SetPrg | apps/fceux/src/cart.cpp:167-211 | `setprg8r`, `setprg16r` and `setprg32r`: the same address map for large and small chips, the pages outside the window unchanged |
| Cart.Bus.SetPrg2r | apps/fceux/src/cart.cpp:149-152 | the modular address map for every power-of-two chip of 2 KiB or more |
| Cart.Bus.SetPrg4r | apps/fceux/src/cart.cpp:158-161 | the modular address map if and only if the chip has 4 KiB or more, or none |
| Cart.SecondPageIsWrong | apps/fceux/src/cart.cpp:158-161 | on a chip of 2 KiB the second page never leads to its target |
| Cart.Bus.WindowIsModular | apps/fceux/src/cart.cpp:132-134 | an access at offset o of the window leads to byte (V * bank + o) modulo the size |
| Cart.Bus.Read | apps/fceux/src/cart.cpp:132-134 | the byte that the page pointer leads to |
| Cart.Bus.Write | apps/fceux/src/cart.cpp:136-140 | a write to RAM changes that byte only and is seen through every alias; a write to ROM changes nothing |
| AudioBuffer.RingSplits | am/src/native/devices/audio.c:12-27 | the ring is what is read plus the ring from the new tail, for reads across the end too |
| AudioBuffer.RingGrows | am/src/native/devices/audio.c:29-45 | writing across the end appends to the ring |
| AudioBuffer.Audio.Indices | am/src/native/devices/audio.c:9-10 | head = (tail + count) modulo the size |
| AudioBuffer.Audio.AudioPlay | am/src/native/devices/audio.c:12-27 | the oldest bytes leave the queue in order, the rest of the stream is zero |
| AudioBuffer.Audio.AudioWrite | am/src/native/devices/audio.c:29-45 | as many bytes as fit are appended; bytes accepted = bytes played + contents, always |
| AudioThreads.StepKeeps | am/src/native/devices/audio.c:12-45 | any single step of either thread (a byte copied, an index moved, a load or a store of `count`) keeps the queue, and lets the callback take no more than it was asked for, if and only if it does not rely on a value of `count` that has changed |
| AudioThreads.QueueIffNeverStale | am/src/native/devices/audio.c:12-45 | over every interleaving of the two threads the buffer is such a queue after each step if and only if no step relies on an old value of `count` |
| AudioThreads.AtomicUpdatesSuffice | am/src/native/devices/audio.c:12-45 | if the updates of `count` and the test of the callback are atomic, every interleaving of all else keeps the queue |
| AudioThreads.ValidMeansQueue | am/src/native/devices/audio.c:12-45 | then the bytes played are a prefix of the bytes accepted, and 0 <= count <= size |
| AudioThreads.OutsideIsRing | am/src/native/devices/audio.c:8-10 | while neither thread is inside its function, what waits are the `count` bytes from `tail` on |
| AudioThreads.PlaysAtOnce | am/src/native/devices/audio.c:12-27 | wherever the writer is, a callback that is not interrupted plays the oldest bytes, as many as it is asked for or all that `count` counts, and moves tail and count by as many |
| AudioThreads.WritesAtOnce | am/src/native/devices/audio.c:29-45 | wherever the callback is, a request that is not interrupted accepts its first bytes, all or as many as there is room for |
| AudioThreads.UpdatesGetLost | am/src/native/devices/audio.c:25 | an interleaving that starts from the empty buffer and loses a byte |

## Left out

- CoreMarkBench.CoreBenchList: the words after the first sort, and so its order, are those that the other benchmarks leave in the caches; they are outputs of the specification.
- CoreMarkList.CalcFunc: takes the results of the state and matrix benchmarks as arbitrary words; only their place in the cache and the checksum is modelled.
- CoreMarkState.BenchState: requires what the code needs of its input, a zero byte in the memory before and after the corruption and a positive step; counters are unbounded, their low 32 bits enter the checksum.
- Int64Division.UDivModDi4: excludes division by 0, for which the code itself divides by 0.
- NativeVme.Run: allows only maps of an address that is new in its space, since any other breaks the list (see Machine.Map); allocation gives fresh zeroed pages; one CPU only.
- LiteNesRuns.RunBoth: cycle counts and the unofficial opcodes except LAX and the second SBC are not modelled, nor that the optimised CPU ends its time slice at a jump to itself. What the devices answer is a parameter of each step, common to both CPUs; `LiteNesPpuIo` relates the devices themselves.
- PpuAddress.Run: the pattern fetches of the two renderers, which use the fine row only, are not modelled.
- Resampler.Filter.NeoFilterSound: the callback by which a sound expansion adds its samples (`NeoFill`) is foreign code; the factors of the smoothing are constants of a run, and its 64-bit accumulators are unbounded.
- SquareWave.Square.Render: a sample is an unbounded integer, and the registers do not change during a call.
- Cart.Bus.SetPrg: chips have a power of two of at least 2 KiB; CHR banking and the mappers are left out.
- AudioBuffer.Audio.AudioPlay: is one step, which `AudioThreads` takes apart; lengths are not negative.
- AudioThreads.QueueIffNeverStale: memory is sequentially consistent, and `memcpy` copies its bytes in ascending order.
- LiteNesPpuIo.RunPorts: the other ports, sprites, scrolling and the status bits have nothing to do with the address and are left out; whether the unit is ready does not change during a run. Allowed are only programs that set the address again where the units would use different ones.
- TypingGame.Play: the screen, the clock and the keyboard queue are left out; key states are given once per frame.
- KlibMemory.Memcpy: unaligned word accesses are taken to work, as they do on the supported machines; memory is one array. `memset`, `strncpy`, `memcmp` and the other string functions would only add easy members.
- Initialisation of the CoreMark list, the matrix benchmark, Dhrystone, STREAM, microbench: data set-up and plain nested loops.
- Drawing, palettes, ROM images, device registers, boot code, signals, inline assembly: interfaces to hardware or to foreign code.
