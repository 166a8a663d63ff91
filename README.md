# hop_analyze core, modelled in Dafny

Two post-processing scripts for tight-binding output are modelled here:

- `cf.py` reads a hopping listing, finds the on-site block of an atom pair, analyses it and pairs spin-up with spin-down eigenvectors.
- `print_hop.py` cuts a hopping listing into blocks, summarises each block by its largest matrix element and groups the rows by distance.

The model covers the parts of the two scripts that are line scanning, string rewriting, combinatorics and matrix bookkeeping. Floating-point linear algebra and printing are not part of it.

Modules:

| module | file | what it models |
|---|---|---|
| `Reals` | reals.dfy | absolute value and maximum on the reals standing for Python floats, and the matrix type |
| `Orders` | orders.dfy | strictly increasing index lists, and Python's `<` on lists as a strict order |
| `Wrappers` | wrappers.dfy | `Option`, for the `None`-or-value results of the scripts |
| `Text` | text.dfy | `str.strip()`, `str.isspace()`, `str.lower()` on ASCII, and `str.replace(" ", "")` |
| `FloatTokens` | float_tokens.dfy | `FLOAT_RE` (cf.py) and `NUM_RE` (print_hop.py) as one hand-written scanner. It covers `findall`, `search` and the `D`→`E` rewrite, with `float()` as the exact decimal value of a token. |
| `OnsiteBlock` | onsite_block.dfy | `parse_floats_from_line`, `nearly_zero_vec`, `atoms_match` and `find_onsite_block` |
| `BlockAnalysis` | block_analysis.dfy | the front half of `analyze_block` and the index selection of `dominant_desc` |
| `Permutations` | permutations.dfy | `itertools.permutations(range(n))`, in the library's order |
| `OverlapPairing` | overlap_pairing.dfy | `pair_by_overlap` |
| `PairLabel` | pair_label.dfy | `clean_pair_label` |
| `HopBlocks` | hop_blocks.dfy | the generator `parse_blocks` |
| `HopStats` | hop_stats.dfy | `max_abs_from_lines` and `group_by_distance` |

Imperative code keeps its loops:
- the cursor loops of `find_onsite_block`, which are split into methods along its nested `while` loops;
- the token loop of `parse_floats_from_line`;
- the permutation loop of `pair_by_overlap`;
- the per-line state machine of `parse_blocks`;
- the nested loops of `max_abs_from_lines`;
- the grouping loop of `group_by_distance`.

Each loop is a method proved against a function that says what it computes. The properties the scripts promise are proved about those functions.

Both scripts treat a header regex and a "Radius vector is:" regex as opaque tests. These tests are parameters here: `OnsiteBlock.LinePatterns` and `HopBlocks.HopPatterns` are datatypes with function-valued fields.

For `find_onsite_block`, each line is seen through four views taken independently:
- the header match;
- the radius-vector match;
- the numbers `parse_floats_from_line` finds;
- whether the line is blank.

The script applies the number parser to any line, headers included, so none of these views depends on another.

## Model

| member | source | states |
|---|---|---|
| `OnsiteBlock.NearlyZeroVecMaxNorm` | cf.py:36-37 | `nearly_zero_vec` holds iff the largest absolute component is below the tolerance; it stays true for a larger tolerance and under a sign flip |
| `OnsiteBlock.AtomsMatchCanonical` | cf.py:39-41 | `atoms_match` is symmetric in the two atoms, and depends only on the blank-free lower-cased target and labels |
| `OnsiteBlock.CanonicalIdempotent` | cf.py:40-41 | removing blanks and lower-casing twice is the same as once |
| `OnsiteBlock.ConvertAllSpec` | cf.py:29-34 | the conversion loop succeeds iff every token converts, and then yields the tokens' values in order |
| `OnsiteBlock.ParseFloatsSpec` | cf.py:26-34 | `parse_floats_from_line` is None iff the line holds no digit; otherwise it gives one value per FLOAT_RE token of the stripped line, in order |
| `OnsiteBlock.ParseFloatsFromLine` | cf.py:26-34 | the loop with its early `return None` computes the parse specified above |
| `FloatTokens.FindAllEmptyIffNoDigit` | cf.py:24-28 | `findall` finds nothing, and `search` fails, exactly on text without a digit |
| `FloatTokens.MatchEndDigit` | cf.py:24 | the number pattern matches wherever a digit starts, and every match holds a digit |
| `FloatTokens.MatchEndSlice` | cf.py:24-27 | a token cut out of its line is matched again, as a whole, by the same pattern |
| `FloatTokens.MatchEndFortranToE` | cf.py:24-31 | rewriting `D`/`d` to `E` turns a FLOAT_RE match into the same NUM_RE match |
| `FloatTokens.TokensConvert` | cf.py:30-33 | every token `findall` returns converts with `float()`; the `ValueError` branch is never taken |
| `Text.StripSpec` | cf.py:27 | `strip()` removes exactly the leading and trailing whitespace; what remains neither starts nor ends with whitespace |
| `Text.StripEmptyIffAllSpace` | cf.py:52 | `not line.strip()` holds iff the line is all whitespace |
| `Text.StripKeepsDigits` | cf.py:27 | stripping keeps every digit of the line |
| `OnsiteBlock.NumbersNotBlank` | cf.py:60-62 | a line that yields numbers is not blank |
| `OnsiteBlock.SkipBlank` | cf.py:52 | the blank-skipping loop stops at the first non-blank line, or at the end |
| `OnsiteBlock.AccumulateRows` | cf.py:64-70 | the accumulation loop appends consecutive lines of exactly N numbers after the first row, until N rows or a line that does not fit |
| `OnsiteBlock.RowRunRows` | cf.py:67-70 | each accumulated row is the number list of the matching consecutive line, of length N; the loop stops early only at a line without exactly N numbers |
| `OnsiteBlock.RowRunOfRows` | cf.py:67-70 | conversely, consecutive lines of N numbers each are all accumulated |
| `OnsiteBlock.ReadBlock` | cf.py:59-71 | after an accepted radius vector: skip blanks, read the first row, accumulate, and accept only N rows |
| `OnsiteBlock.ExamineCandidate` | cf.py:51-71 | the examination of one candidate header ends with the block, a rejection or the end of the lines, as the specification function `Examine` says |
| `OnsiteBlock.FindOnsiteBlock` | cf.py:43-73 | the scan returns what `Locate` specifies: a rejected candidate resumes at the next line; running out of lines stops the search |
| `OnsiteBlock.FoundShape` | cf.py:46-71 | an accepted block follows its header after blank lines. A radius vector with every component below 1e-8 comes next, then blank lines. Its rows are the next N consecutive lines, each of N numbers. |
| `OnsiteBlock.FoundFromShape` | cf.py:46-71 | every header followed by such a layout is accepted with that matrix |
| `OnsiteBlock.LocateSound` | cf.py:44-73 | the returned matrix belongs to a matching sphere-0 header, and every earlier candidate was rejected |
| `OnsiteBlock.LocateComplete` | cf.py:44-73 | if every earlier candidate is rejected and a later one is accepted, its block is returned |
| `OnsiteBlock.NoHeaderNone` | cf.py:44-73 | with no header line left the search returns None |
| `OnsiteBlock.ExhaustedIffBlankTail` | cf.py:51-61 | a candidate exhausts the lines iff only blank lines follow its header, or only blank lines follow its accepted radius vector |
| `OnsiteBlock.ExhaustedEndsSearch` | cf.py:52-61 | the two `break`s return what scanning on would have returned, None, provided no header line is blank or also a radius-vector line |
| `BlockAnalysis.Analyze` | cf.py:75-87 | `NotSquare` iff the block is not square, `DimMismatch` iff it is square but the label count differs, and otherwise the block, labels and square `H_used` |
| `BlockAnalysis.AnalyzeShape` | cf.py:76-77 | the analysis succeeds iff rows, columns and labels agree in number |
| `BlockAnalysis.UsedMatrix` | cf.py:78 | with symmetrisation `H_used` is symmetric, and it equals `H` iff `H` is symmetric; without symmetrisation `H_used == H` |
| `BlockAnalysis.MaxAbsBound` | cf.py:86-87 | the maximum of absolute values bounds every entry, is never negative, and is 0.0 iff every entry is 0.0 |
| `BlockAnalysis.MaxAbsAttained` | cf.py:86-87 | on a non-empty matrix that maximum is the absolute value of one of its entries |
| `BlockAnalysis.AntihermZeroIffSymmetric` | cf.py:79-86 | `max_antiherm` is 0.0 iff `H` is symmetric |
| `BlockAnalysis.OffdiagBounds` | cf.py:80-87 | `max_offdiag` bounds every off-diagonal entry of `H_used`, and is 0.0 iff `H_used` is diagonal |
| `BlockAnalysis.OffdiagIgnoresDiagonal` | cf.py:80-87 | two blocks that differ only on the diagonal get the same `max_offdiag` |
| `BlockAnalysis.AtLeastSpec` | cf.py:103 | `np.where(perc >= thr)` lists exactly the indices at or above the threshold, increasing |
| `BlockAnalysis.ArgMaxSpec` | cf.py:104 | `np.argmax` gives a largest entry with no earlier index holding it |
| `BlockAnalysis.DominantSpec` | cf.py:102-105 | `dominant_desc` selects every index at or above the threshold, in order. When there is none, it selects the first largest index. Only an empty input (where `argmax` raises) gives no selection. |
| `Permutations.PermsOfRange` | cf.py:112 | `permutations(range(n))` lists each permutation of `0..n-1` exactly once, nothing else, in strictly increasing lexicographic order |
| `Permutations.PermsSound` | cf.py:112 | every listed sequence is a rearrangement of the input |
| `Permutations.PermsComplete` | cf.py:112 | for distinct elements every rearrangement is listed |
| `Permutations.PermsSorted` | cf.py:112 | for increasing elements the listing is lexicographically sorted |
| `OverlapPairing.Overlap2NonNegative` | cf.py:109 | squared overlaps are never negative |
| `OverlapPairing.PairByOverlap` | cf.py:108-115 | returns `S2` and a pairing that is never None. No permutation scores more than it, and it is the first listed one of that score. It would be None only if every score were at most -1. |
| `OverlapPairing.FirstBestIsLexFirst` | cf.py:111-114 | the pairing found scores at least as much as any permutation. Every permutation lexicographically before it scores strictly less, so it is the lexicographically smallest of the best. |
| `PairLabel.DropGroupsNoGroup` | print_hop.py:14 | after the first substitution no `(` is followed by a `)` |
| `PairLabel.DropGroupsNoOp` | print_hop.py:14 | text without such a group is left unchanged |
| `PairLabel.ArrowsTightFrom` | print_hop.py:15 | after the second substitution no whitespace is adjacent to a `<-->` |
| `PairLabel.ArrowsKeepNoGroup` | print_hop.py:14-15 | the second substitution does not create a group |
| `PairLabel.ArrowsNoOp` | print_hop.py:15 | text whose arrows are already tight is left unchanged |
| `PairLabel.DropGroupsKeep` | print_hop.py:14 | text that opens no `(` and does not end in whitespace is kept as it is, and the text after it is rewritten on its own |
| `PairLabel.DropGroupsDrop` | print_hop.py:14 | a whitespace run followed by `(`, text without `)`, and `)` is removed entirely, and the text after it is rewritten on its own |
| `PairLabel.ArrowsKeep` | print_hop.py:15 | text without `<` that does not end in whitespace is kept as it is, and the text after it is rewritten on its own |
| `PairLabel.ArrowsSqueeze` | print_hop.py:15 | a `<-->` with whitespace on both sides becomes a bare `<-->`, when the text after it does not start with whitespace |
| `PairLabel.CleanPairLabelSpec` | print_hop.py:13-16 | the cleaned label has no `( … )` group, no whitespace next to a `<-->`, and no whitespace at either end |
| `PairLabel.CleanPairLabelFixes` | print_hop.py:13-16 | a label with those three properties is its own cleaning, so they describe exactly the labels the cleaning can return |
| `PairLabel.CleanPairLabelIdempotent` | print_hop.py:13-16 | cleaning a cleaned label changes nothing |
| `HopBlocks.TrimNewlines` | print_hop.py:27 | `rstrip("\n")` removes exactly the trailing newlines |
| `HopBlocks.KindTests` | print_hop.py:30-57 | the tests made on a line, in the generator's order, decide its kind: header, radius vector, separator, numeric or other |
| `HopBlocks.AheadHeader` | print_hop.py:30-40 | a header yields the current block if it has lines, then opens a fresh block with the radius flag cleared |
| `HopBlocks.AheadIgnored` | print_hop.py:42-43 | with no block open, a non-header line changes nothing |
| `HopBlocks.AheadSeparatorEnds` | print_hop.py:50-53 | a blank or `--` line yields a block that has lines and closes it |
| `HopBlocks.AheadSeparatorSkipped` | print_hop.py:50-54 | a blank or `--` line leaves a block without lines open |
| `HopBlocks.AheadCollect` | print_hop.py:56-58 | a line with a number, after the radius-vector line, is appended to the block |
| `HopBlocks.AheadAtEnd` | print_hop.py:60-62 | after the last line only the tail flush remains |
| `HopBlocks.ParseBlocks` | print_hop.py:18-62 | the generator loop yields exactly the per-header reference blocks `ExpectedBlocks` |
| `HopBlocks.SegmentsSpec` | print_hop.py:26-62 | one block per header that collects a line, in header order, and no other blocks |
| `HopBlocks.ExpectedBlockHeader` | print_hop.py:31-38 | every yielded block comes from a header line, carries its cleaned label and radius, and has at least one matrix line |
| `HopBlocks.ExpectedBlockLine` | print_hop.py:45-58 | each matrix line of a block is a later line of the input that holds a number. It is not a header, radius-vector or separator line. A radius-vector line of the block comes before it, and no header lies between the block's header and it. |
| `HopBlocks.RowsIncreasing` | print_hop.py:56-58 | matrix lines are collected in file order |
| `HopBlocks.RowsContiguous` | print_hop.py:49-58 | between two consecutive matrix lines of a block there is only radius-vector or number-free text, and no separator |
| `HopStats.MaxAbsFromLines` | print_hop.py:64-71 | the nested loop computes the running maximum of `abs(float(s))` over all NUM_RE tokens, from 0.0 |
| `HopStats.RunningMaxSpec` | print_hop.py:65-70 | the running maximum is at least 0.0 and every value, is 0.0 for no values, and is one of the values when they are non-negative |
| `HopStats.MagnitudesEmpty` | print_hop.py:66-67 | there are no tokens iff no line holds a digit |
| `HopStats.MaxAbsSpec` | print_hop.py:64-71 | the result is 0.0 when no line holds a number. Otherwise it is the magnitude of one token and at least that of every token. |
| `HopStats.SortByDistSpec` | print_hop.py:78 | the sort orders rows by distance, keeps every row as often as it occurs, and keeps rows of equal distance in input order |
| `HopStats.GroupByDistance` | print_hop.py:73-90 | the groups are non-empty and concatenate to the sorted rows. Consecutive distances within a group differ by at most `gap + eps`. Each group starts more than `gap + eps` beyond the end of the previous one. |
| `HopStats.RunSplitUnique` | print_hop.py:76-89 | there is only one such split, so the grouping is determined by the sorted rows |

## Left out

- The eigen-decomposition, eigenvector renormalisation and character computation of `analyze_block` (cf.py:81-83). They are floating-point linear algebra in numpy, and the returned `evals`, `evecs` and `chars` entries are not modelled.
- `pair_by_overlap` takes the eigenvector matrices as parameters. Its only caller (cf.py:141) always passes square eigenvector matrices of one size, so the model requires that. Non-square shapes are not modelled. Neither is the IndexError the source raises when `dn` has fewer columns than `up`.
- `dominant_desc`: only the index selection is modelled. The string formatting of the description is not. `BlockAnalysis.DominantIndices` takes `thr` as a parameter; its default value 5.0 is supplied by the caller.
- Table printing, number formatting, the combined table and both `main` functions, including argument parsing, file reading and `sys.exit`.
- label.py and label_hop.py. They only run or print shell commands.
- `HEADER_RE` and `RADIUS_VEC_RE` of both scripts are parameters, not regex engines. Whatever a pattern captures is taken as given, including `float()` of its radius groups.
- Python floats are modelled as exact reals. Rounding, overflow, NaN and infinities are not modelled. This affects:
  - `float()` of the tokens;
  - the sums of `pair_by_overlap`;
  - `(H + H.T) / 2.0`;
  - `gap + eps` and `d - last_d` in `group_by_distance`;
  - comparisons of `perc` with the threshold;
  - sort keys.
- `HopStats.GroupByDistance` takes `gap` and `eps` as parameters. The default values (2.0 and 1e-9) are supplied by the caller.
- `\d` and `str.lower()` are modelled on ASCII only. Python's `\d` also matches other Unicode decimal digits, and `lower()` maps non-ASCII letters.
- `sorted()` is modelled by a stable insertion sort by distance. `HopStats.SortByDistSpec` proves the properties that determine the result: sorted, the same rows, and equal distances in input order.
- The dictionaries yielded by `parse_blocks` are modelled as values. A caller that keeps a reference to a yielded dictionary does not see it change, and in the script it does not change either, because a block is yielded only when it is finished.
