# Heat-bath CI determinant strings

A model of the determinant-string toolkit of the heat-bath selected
configuration-interaction solver in `hci/hci.py`, and of the step that
enlarges the determinant space between iterations.

A spin string is an array of unsigned 64-bit words (`Bits.Word`, a natural
number below 2^64). Word `-1-g` of the array holds orbitals `64g .. 64g+63`,
and orbital `64g+b` is bit `b` of that word. `DetStrings.Occupied(s, o)` states
this once. Every string operation is specified in terms of it.

The model is split into modules:

- `Bits` covers `&`, `^`, `1 << b`, the `numpy.uint64` cast with its wrap-around, `bin(w).count('1')` and `find1`.
- `Lists` holds general list facts: ascending lists, lists without repeats, `numpy.where`, and fancy indexing (`Pick`).
- `DetStrings` covers `toggle_bit`, `orblst2str`, `str2orblst` and `str_diff`. Each is a method over an array or sequence, proved equal to a specification function. Separate lemmas state what the function means.
- `Excitation` covers `excitation_level`, both as written and corrected.
- `CreDes` covers `cre_des_sign`, both as written and corrected.
- `ArgUnique` covers `argunique`, with `order` and `qsort_idx`.
- `Grouping` covers `argunique_with_t`.
- `Enlarge` covers the filter, merge, deduplication and zero-extension steps of `enlarge_space`. The candidates that `select_strs_ctypes` proposes are an input. A root without candidates makes `numpy.vstack` raise, which `Enlarge.Outcome` records.

Two behaviours of the code worth noting:

- `cre_des_sign` gives the same sign for `(p, q)` and `(q, p)`.
- `enlarge_space` returns its rows re-sorted by `numpy.unique`, not in their old order. Each coefficient follows its row.

## Model

| member | source | states |
|---|---|---|
| Bits.ToWord | hci/hci.py:187-190 | the `numpy.uint64` cast of a Python integer: unchanged below 2^64, wrapped by 2^64 when negative |
| Bits.RangeBit | hci/hci.py:187-190 | `(1 << hi) - (1 << lo)` has exactly the bits `lo .. hi-1` set |
| Bits.LowBit | hci/hci.py:178 | `(1 << b) - 1` has exactly the bits below `b` set |
| Bits.MaskedPopCount | hci/hci.py:178 | the popcount of `w & m` is the number of set bits of `w` among the bits set in `m` |
| Bits.XorWordBits | hci/hci.py:262 | each bit of `a ^ b` is set exactly when one of `a`, `b` has it |
| Bits.AndWordBits | hci/hci.py:263-264 | each bit of `a & b` is set exactly when both have it |
| Bits.Find1Spec | hci/hci.py:281-282 | `find1(w)` lists every set bit of `w` once, ascending, nothing else, and has popcount(w) entries, all below 64 |
| DetStrings.OccupiedInWord | hci/hci.py:284-287 | orbital `64g+b` is bit `b` of word `-1-g` |
| DetStrings.OccupiedDetermines | hci/hci.py:284-288 | two strings of one length with the same occupied orbitals are equal |
| DetStrings.ToggledOccupied | hci/hci.py:284-288 | flipping orbital `place` changes that orbital's occupation and no other |
| DetStrings.ToggleTwice | hci/hci.py:284-288 | toggling the same orbital twice restores the string |
| DetStrings.ToggleBit | hci/hci.py:284-288 | `toggle_bit` updates the word array in place to the toggled string |
| DetStrings.TestBit | hci/hci.py:490 | `s & uint64(1 << i)` is non-zero exactly when bit `i` is set |
| DetStrings.TogglesOccupied | hci/hci.py:498-499 | after toggling every orbital of a list, an orbital has changed exactly when it occurs an odd number of times in the list |
| DetStrings.Encode | hci/hci.py:495-500 | the encoded string has `(norb+63)//64` words |
| DetStrings.EncodeOccupied | hci/hci.py:495-500 | a list without repeats encodes to the string that occupies exactly its orbitals |
| DetStrings.BelowNorbFits | hci/hci.py:496 | orbitals below `norb` fit in `(norb+63)//64` words |
| DetStrings.OrbLst2Str | hci/hci.py:495-500 | `orblst2str` returns a fresh zero-filled array with the list's orbitals toggled, that is, the encoding |
| DetStrings.WordOrbitalsSpec | hci/hci.py:488 | one word's occupied orbitals, shifted by its offset, ascending, are exactly the occupied orbitals of that word |
| DetStrings.OrbitalsSpec | hci/hci.py:481-493 | the occupied list is ascending, holds exactly the occupied orbitals, and has one entry per set bit |
| DetStrings.VirtualsSpec | hci/hci.py:489-491 | the virtual list is ascending and holds exactly the unoccupied orbitals below `norb` that the string covers |
| DetStrings.WordVirtualScan | hci/hci.py:489-491 | the inner loop yields the unset bits among the lowest `min(64, norb-off)` bits, shifted by `off` |
| DetStrings.Str2OrbLst | hci/hci.py:481-493 | `str2orblst` returns the occupied list and the virtual list |
| DetStrings.OccVirPartition | hci/hci.py:481-493 | with no bit set at or above `norb`: every orbital below `norb` is in exactly one list, the lists are disjoint, and `len(vir) == norb - len(occ)` |
| DetStrings.RoundTrip | hci/hci.py:495-500 | decoding the encoding of distinct orbitals below `norb` gives the list sorted: ascending, with the same elements |
| DetStrings.LackingOccupied | hci/hci.py:262-263 | `(s0 ^ s1) & s0`, word by word, occupies the orbitals that `s0` has and `s1` lacks |
| DetStrings.GainingIsLacking | hci/hci.py:262-264 | the created orbitals of `(s0, s1)` are the annihilated orbitals of `(s1, s0)` |
| DetStrings.DiffSpec | hci/hci.py:256-266 | `des` is ascending and holds exactly the orbitals occupied only in `s0`; `cre` is ascending and holds exactly those occupied only in `s1` |
| DetStrings.StrDiff | hci/hci.py:256-266 | `str_diff` returns the pair that `Diff` specifies |
| DetStrings.DiffSwap | hci/hci.py:256-266 | swapping the strings swaps `des` and `cre` |
| DetStrings.DiffApplies | hci/hci.py:256-266 | `des` and `cre` are disjoint, and toggling all of them turns `s0` into `s1` |
| DetStrings.FlipDifference | hci/hci.py:256-266 | toggling, once each, exactly the orbitals where two strings differ turns one into the other |
| Excitation.TotalPopCount | hci/hci.py:270-273 | with `nelec` omitted, it is the number of set bits of the string |
| Excitation.LowWordsPopCount | hci/hci.py:277-278 | the loop over `string[nset-g:]` counts the electrons in orbitals `0 .. 64g-1` |
| Excitation.ExcitationLevel | hci/hci.py:268-279 | `excitation_level` as written: `nelec` minus the tail count of word `-1-g` minus the lower words |
| Excitation.AsWrittenLevel | hci/hci.py:275-276 | as written, the level is the number of holes below `nelec` when `nelec % 64 != 0`, and falls short by the electrons of `nelec .. nelec+63` otherwise |
| Excitation.ExcitationLevelCorrected | hci/hci.py:268-279 | the corrected method returns the number of holes below `nelec` for every `nelec` |
| Excitation.CorrectedIsLevel | hci/hci.py:275-276 | the corrected count is the number of holes below `nelec` |
| Excitation.LevelCountsExcited | hci/hci.py:268-279 | with `nelec` electrons in all, the holes below `nelec` equal the electrons at or above it |
| Excitation.ReferenceLevel | hci/hci.py:539-540 | the reference string `orblst2str(range(nelec), norb)` has level 0, both intended and as written, matching the seed levels `[0, 0]` |
| Excitation.ExcitationCounterexample | hci/hci.py:275-276 | the string `[1, 0xFFFF_FFFF_FFFF_FFFE]` has 64 electrons and is singly excited, but the code reports level 0 |
| CreDes.RangeMaskCount | hci/hci.py:187-191 | the mask `(1 << hi) - (1 << lo)` counts bits `lo .. hi-1` |
| CreDes.LowMaskCount | hci/hci.py:178 | the mask `(1 << b) - 1` counts bits `0 .. b-1` |
| CreDes.WrapMaskCount | hci/hci.py:187-191 | for `p == q` the mask wraps to bits `b .. 63` |
| CreDes.HighMaskCount | hci/hci.py:187-191 | a negative mask `-(1 << b)` wraps to bits `b .. 63` |
| CreDes.GroupsBetween | hci/hci.py:176-177 | the loop counts the occupied orbitals of the word groups strictly between the two groups |
| CreDes.CrossCount | hci/hci.py:174-185 | the cross-group count as written: the groups between, the upper word's low bits, and the lower word's shifted value |
| CreDes.SameMaskCount | hci/hci.py:186-191 | the shared-group mask selects the bits strictly between `pb` and `qb` |
| CreDes.SameCount | hci/hci.py:186-191 | the shared-group count as written, masking `string[pg]` |
| CreDes.CreDesSign | hci/hci.py:169-196 | `cre_des_sign` as written, and its result is always 1 or -1 |
| CreDes.SignSymmetric | hci/hci.py:169-196 | the code's sign is the same for `(p, q)` and `(q, p)` |
| CreDes.IntendedSignSymmetric | hci/hci.py:169-196 | the parity of the orbitals strictly between is symmetric as well |
| CreDes.SingleWordSign | hci/hci.py:186-196 | for a one-word string and `p != q` the code returns the parity sign, and -1 exactly when an odd number of orbitals lie strictly between `p` and `q` |
| CreDes.LowerPart | hci/hci.py:179 | orbitals above bit `lb` of group `lg` split into the rest of that word and the groups above |
| CreDes.UpperPart | hci/hci.py:178 | orbitals below bit `hb` of group `hg` split into the groups below and the low bits of that word |
| CreDes.CrossBetween | hci/hci.py:174-185 | the orbitals strictly between are the lower word's rest, the groups between, and the upper word's low bits |
| CreDes.CrossMaskSum | hci/hci.py:174-185 | the same, term by term, counted with masks |
| CreDes.CrossCountCorrected | hci/hci.py:174-185 | with the lower word's popcount in place of its value, the cross-group count is the number of orbitals strictly between |
| CreDes.GroupMaskBetween | hci/hci.py:187-191 | within one group, the mask for bits `lo+1 .. hi-1` counts the orbitals strictly between |
| CreDes.SameMaskBetween | hci/hci.py:186-191 | the shared-group mask applied to word `-1-pg` counts the orbitals strictly between `p` and `q` |
| CreDes.SameCountCorrected | hci/hci.py:186-191 | masking word `-1-pg` gives the number of orbitals strictly between, and 0 for `p == q` |
| CreDes.CreDesSignCorrected | hci/hci.py:169-196 | the corrected sign is the parity of the orbitals strictly between, for strings of any length |
| CreDes.CrossWordCounterexample | hci/hci.py:179 | on the string `[0, 6]`, moving an electron from orbital 0 to 65 passes two electrons, but the code returns -1 |
| CreDes.SameWordCounterexample | hci/hci.py:191 | on a two-word string, orbitals 64 and 66 have one electron between them, but the code returns 1 |
| CreDes.SameOrbitalCounterexample | hci/hci.py:189-191 | on the string `[1]`, no orbital lies between orbital 0 and itself, but the code returns -1 |
| ArgUnique.Order | hci/hci.py:199-205 | `order(x, y)` is the lexicographic comparison from the first word |
| ArgUnique.CompareOrder | hci/hci.py:199-205 | on rows of one length, `order` answers -1, 0 or 1, is antisymmetric, and is 0 exactly on equal rows |
| ArgUnique.CompareTrans | hci/hci.py:199-205 | "below" under `order` is transitive |
| ArgUnique.SelectMembers | hci/hci.py:213-219 | `group_lt`/`group_gt` hold exactly the indices whose rows compare -1/1 to the pivot row |
| ArgUnique.SelectOrdered | hci/hci.py:213-219 | the partition keeps the order of the index list |
| ArgUnique.QsortIdx | hci/hci.py:206-220 | `qsort_idx` partitions around the last index, then recurses on both sides |
| ArgUnique.QsortMembers | hci/hci.py:206-220 | the sort returns only indices from its input |
| ArgUnique.JoinSorted | hci/hci.py:220 | sorted runs below and above the pivot join into one sorted run |
| ArgUnique.QsortSorted | hci/hci.py:206-220 | the rows at the returned indices are strictly ascending under `order` |
| ArgUnique.QsortCovers | hci/hci.py:206-220 | every input row equals the row at some returned index |
| ArgUnique.QsortKeepsLast | hci/hci.py:211-219 | each returned index is the last occurrence of its row in the index list, because equal rows are dropped in favour of the pivot |
| ArgUnique.ArgUnique | hci/hci.py:198-221 | `argunique` sorts `range(len(strs))` |
| ArgUnique.ArgUniqueValid | hci/hci.py:198-221 | the returned indices are in range |
| ArgUnique.ArgUniqueNoRepeats | hci/hci.py:198-221 | no two returned indices name equal rows |
| ArgUnique.ArgUniqueCovers | hci/hci.py:198-221 | every row equals the row at a returned index |
| ArgUnique.ArgUniqueSpec | hci/hci.py:198-221 | the result is in range, strictly ascending under `order`, has no repeated row, covers every row (so each row equals the row at exactly one returned index), and each index is the last occurrence of its row |
| Grouping.Int32 | hci/hci.py:246 | the `int32` cast lands in `[-2^31, 2^31)` and differs from its input by a multiple of 2^32 |
| Grouping.KeyOrder | hci/hci.py:246-247 | the `int64` view orders level pairs by `tb`, then by `ta` read as unsigned, and two keys are equal exactly when both cast levels are |
| Grouping.InsertSpec | hci/hci.py:250 | inserting keeps the key list ascending and adds exactly the new key |
| Grouping.UniqueSpec | hci/hci.py:250 | `numpy.unique` of the keys is ascending and holds exactly the keys that occur |
| Lists.PositionsSpec | hci/hci.py:251 | `numpy.where(t_ab == ti)` lists exactly the positions holding `ti` |
| Lists.PositionsIncreasing | hci/hci.py:251 | those positions are ascending |
| Lists.PickDistinct | hci/hci.py:253 | rows without repeats, indexed by ascending positions, still have no repeats |
| Grouping.PositionsValid | hci/hci.py:251 | the positions index rows |
| Grouping.GroupPartValid | hci/hci.py:251-253 | one group holds indices of rows with its key |
| Grouping.GroupPartDistinct | hci/hci.py:251-253 | no two indices of one group name equal rows |
| Grouping.GroupPartCovers | hci/hci.py:251-253 | every row with the group's key is represented by an index with that key and an equal row |
| Grouping.GroupsValid | hci/hci.py:250-254 | the stacked groups hold indices of rows whose keys are among the unique keys |
| Grouping.GroupsOrdered | hci/hci.py:250-254 | the stacked groups come in ascending key order, with no row twice within a key |
| Grouping.GroupsCover | hci/hci.py:250-254 | every row whose key is listed is represented |
| Grouping.ArgUniqueWithT | hci/hci.py:242-254 | `argunique_with_t` returns the groups of the ascending unique keys, each deduplicated by `argunique`, stacked; empty input gives empty output |
| Grouping.ArgUniqueWithTSpec | hci/hci.py:242-254 | the result is in key order, no two indices with one key name equal rows, and every row is represented by an index with its key and an equal row |
| Enlarge.LEBytesRoundTrip | hci/hci.py:467 | reading back the little-endian bytes of a number that fits gives the number |
| Enlarge.WordBytes | hci/hci.py:467 | a `uint64` fills eight bytes |
| Enlarge.RowBytesInjective | hci/hci.py:467 | two rows of one width with the same byte view are the same row |
| Enlarge.DescendingSpec | hci/hci.py:468 | the descending positions name every row once |
| Enlarge.UniqueFirstValid | hci/hci.py:468 | the positions `numpy.unique` reports name rows |
| Enlarge.UniqueFirstSorted | hci/hci.py:468 | the reported rows are strictly ascending in byte order, so no two are equal |
| Enlarge.UniqueFirstCovers | hci/hci.py:468 | every row equals a reported row |
| Enlarge.UniqueFirstIsFirst | hci/hci.py:468 | each reported position is the first occurrence of its row |
| Enlarge.CutoffMask | hci/hci.py:449-451 | `cidx[i]` holds exactly when some root's coefficient on row `i` exceeds the cutoff in magnitude |
| Enlarge.Kept | hci/hci.py:453-456 | the rows that `cidx` keeps are in range |
| Enlarge.MergeCandidates | hci/hci.py:458-464 | `vstack` raises exactly when some root has no candidate (`select_strs_ctypes` then returns a three-dimensional empty array, hci/hci.py:337-338); otherwise, after the loop, `strs_new` is the kept rows plus the LAST root's candidates, while `ts_new` is the kept levels plus every root's candidate levels |
| Enlarge.ExtendCoefficients | hci/hci.py:470-474 | each root's coefficients are zero-extended to the merged length and then reindexed by `tmpidx` |
| Enlarge.EnlargeSpace | hci/hci.py:440-479 | `enlarge_space` as written, for any number of roots: it raises exactly when some root has no candidate, and otherwise returns `Enlarged` |
| Enlarge.FinishDistinct | hci/hci.py:467-479 | after deduplication no row appears twice |
| Enlarge.FinishKeepsOld | hci/hci.py:470-479 | a row of the old part, which has no repeats, comes out with its own coefficient and levels |
| Enlarge.FinishNewZero | hci/hci.py:470-474 | a row that is not in the old part comes out with coefficient 0 |
| Enlarge.FinishCovers | hci/hci.py:467-479 | every merged row comes out |
| Enlarge.FinishLevelsFollow | hci/hci.py:476-477 | when rows and levels are aligned, each row comes out with a level paired to it in the merge |
| Enlarge.FinishRows | hci/hci.py:476 | only merged rows come out |
| Enlarge.KeptDistinct | hci/hci.py:453 | the kept rows have no repeats when the input rows have none |
| Enlarge.EnlargeDistinct | hci/hci.py:467-479 | no determinant comes out twice |
| Enlarge.EnlargeKeepsOld | hci/hci.py:449-479 | a determinant on which some root's coefficient exceeds the cutoff stays, with each root's old coefficient and its levels |
| Enlarge.EnlargeNewZero | hci/hci.py:470-474 | a determinant that is not an old one kept by the cutoff comes out with coefficient 0 |
| Enlarge.EnlargeDrops | hci/hci.py:449-456 | a determinant on which every root's coefficient is at most the cutoff is dropped, unless the last root proposes it again |
| Enlarge.EnlargeAddsLast | hci/hci.py:463 | every candidate of the last root comes out |
| Enlarge.EnlargeSingleRootLevels | hci/hci.py:458-477 | with one root, each determinant comes out with the levels supplied with it |
| Enlarge.EnlargeLosesCandidates | hci/hci.py:463 | with two or more roots, a new candidate of an earlier root that the last root does not propose is lost |
| Enlarge.EnlargeMislabels | hci/hci.py:463-464 | with two or more roots, a new first candidate of the last root comes out with coefficient 0 but with the first root's first candidate levels |
| Enlarge.EnlargeCorrectedAddsAll | hci/hci.py:460-464 | with `strs_new` accumulating as `ts_new` does, every candidate of every root comes out |
| Enlarge.EnlargeCorrectedLevels | hci/hci.py:460-477 | with `strs_new` accumulating, each determinant comes out with levels supplied with it, for any number of roots |

## Left out

- `argunique_ctypes` (hci/hci.py:223-240) calls a foreign kernel. It is modelled by the Python `argunique` that the source keeps beside it (hci/hci.py:198-221, called in the commented line 252). Which duplicate the kernel keeps, and in what order, is not modelled.
- `select_strs_ctypes` and `contract_2e_ctypes` are foreign kernels. The candidate rows and levels of each root are an input (`Enlarge.Candidates`).
- The commented-out Python `select_strs` and `contract_2e`, `make_hdiag` (floating-point sums), the `kernel_float_space` driver and its Davidson solver, `to_fci`/`from_fci`, the `__main__` demo and logging: floating point, external libraries or dead code.
- Coefficients are real numbers, not IEEE doubles. The cutoff (`ci_coeff_cutoff`, 0.5e-3 at hci/hci.py:645) is a parameter.
- `_SCIvector` is a record of coefficients, rows and levels (`Enlarge.SCIVector`). Its numpy subclass behaviour is not modelled.
- `numpy.unique(..., return_index=True)` on the `void` row view is modelled as the same deduplicating quicksort, run over the byte view of the rows with the positions in descending order. The model proves the properties the code relies on: ascending byte order, no repeats, every row covered, first occurrence reported. NumPy's own sorting algorithm is not modelled.
- Rows of `enlarge_space` are one sequence of words (alpha and beta words concatenated, as `hf_str` builds them). Levels are pairs of integers.
- A coefficient vector whose length differs from the number of rows makes NumPy raise an error. The model requires matching shapes (`Enlarge.Shaped`) instead.
- Strings in `ArgUnique` and `Grouping` are rows of natural numbers, which covers the `uint64` words.
- `cre_des_sign` and `excitation_level` index words by negative Python indices. Their methods require the indexed words to exist; the source raises `IndexError` otherwise.
- `numpy.uint64` shifts by 64 or more are taken to give 0 (`CreDes.ShiftRight`).
- DetStrings.ToggleBit: requires the word `place // 64` to exist; the source raises `IndexError` at hci/hci.py:287 when it does not.
- DetStrings.OrbLst2Str: requires every orbital to fit the string (`Fits`); the source raises `IndexError` in `toggle_bit` (hci/hci.py:287) for an orbital beyond it.
- DetStrings.StrDiff: requires both strings to have the same length; the source raises `IndexError` at hci/hci.py:262 when `string1` is shorter, and indexes a longer `string1` from the front, ignoring its extra words.
- CreDes.CrossCount, CreDes.SameCount and CreDes.CreDesSign: `n1` is an exact integer and a negative mask wraps modulo 2^64. Under NumPy 1.x, a Python integer plus a `numpy.uint64` (hci/hci.py:179, 185) is a `float64`, which loses the parity of `n1` once the shifted word reaches 2^53. Under NumPy 2, `numpy.uint64` of a negative number (hci/hci.py:188, 190, for `p == q`) raises instead of wrapping. Neither behaviour is modelled.
- Enlarge.RowBytes: the byte view is little-endian, as on the hosts NumPy usually runs on. On a big-endian host the `void` view, and with it the order `numpy.unique` returns, differs.

## Findings

| source | as written | input that shows it | evidently intended | confidence | as-written member | corrected member |
|---|---|---|---|---|---|---|
| hci/hci.py:275-276 | `bin(string[-1-g])[-b:]` with `b == 0` is the whole binary string, so when `nelec % 64 == 0` every bit of word `-1-g` is counted | `string = [1, 0xFFFF_FFFF_FFFF_FFFE]`, `nelec = 64`: orbital 0 empty, orbital 64 filled, level 1 expected, 0 returned | count only bits `0 .. nelec%64-1` of word `-1-g` | not executed | Excitation.ExcitationCounterexample | Excitation.ExcitationLevelCorrected |
| hci/hci.py:179, hci/hci.py:185 | the lower group's word shifted right is added as a VALUE, not as its popcount | `string = [0, 6]`, `p = 65`, `q = 0`: two electrons between, sign 1 expected, -1 returned | add `bin(word >> (b+1)).count('1')` | not executed | CreDes.CrossWordCounterexample | CreDes.CreDesSignCorrected |
| hci/hci.py:191 | the shared-group mask is applied to `string[pg]`, counted from the front of the array | `string = [2, 0]` (orbital 65 occupied), `p = 64`, `q = 66`: one electron between, sign -1 expected, 1 returned | apply the mask to `string[-1-pg]` | not executed | CreDes.SameWordCounterexample | CreDes.CreDesSignCorrected |
| hci/hci.py:189-191 | for `p == q` the mask `(1 << qb) - (1 << (pb+1))` is negative and wraps to bits `pb .. 63`, so `n1` counts the orbital itself and the orbitals above it in its word | `string = [1]`, `p = q = 0`: no electron between, sign 1 expected, -1 returned | no orbital between, so `n1 = 0` | not executed | CreDes.SameOrbitalCounterexample | CreDes.CreDesSignCorrected |
| hci/hci.py:463 | `strs_new = vstack((strs, str_add))` rebuilds from the kept rows on every root, while `ts_new` accumulates | two roots, root 0 proposes a new row `A` that root 1 does not: `A` is lost, and root 1's first new row is labelled with root 0's first levels | `strs_new = vstack((strs_new, str_add))` | not executed | Enlarge.EnlargeLosesCandidates | Enlarge.EnlargeCorrectedAddsAll |
