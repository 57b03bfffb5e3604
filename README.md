# oxDNA force and cluster bookkeeping, modelled in Dafny

This project models the bookkeeping core of the oxDNA analysis tools and one
dispatch routine of the oxDNA simulation code. It covers:

- **Dot-bracket parsing** (`db_to_force.py`). `parse_dot_bracket` turns a
  dot-bracket secondary structure into a pairing array, using one stack per
  bracket kind. `db_to_forcelist` optionally reverses the string and swaps its
  brackets through a chain of `replace` calls, then emits one mutual trap per
  paired nucleotide. Module `DotBracket`.
- **Reading a force file back into pairs** (`forces2pairs.py`). A two-register
  scan over the stripped lines. Module `ForcePairs`.
- **Cluster bookkeeping** (`clustering.py`). These parts are modelled:
  - `find_element`;
  - the cluster count and the per-cluster member counts;
  - the length check and the early return of `perform_DBSCAN`;
  - the routing of configurations to per-cluster files in `split_trajectory`;
  - the centroid-id lookup of `get_centroid`.

  Module `Clustering`.
- **Turning a hydrogen-bond list into mutual-trap text** (`generate_force.py`).
  This covers the option defaults, the `bonded` dictionary, the sorted emission
  of trap blocks and pair lines, and the two files written. Module
  `GenerateForce`.
- **The round trip between the last two.** Reading back the file that
  `generate_force` writes yields exactly the pairs it emitted. Module
  `ForceRoundTrip`.
- **Neighbour-list dispatch** (`ListFactory::make_list`). Module `ListFactory`.

Two modules support the rest. `Results` holds `Option` and `Result`. `Text`
holds the Python string operations the tools use: `strip`, `startswith`, `in`,
`split`, `int(...)`, `int(float(...))`, `str(int)` and `readlines`, together
with their round-trip lemmas.

The form of the model follows the form of the code:

- Loops that update variables are methods with loop invariants, proved equal to
  a specification function. Examples are the parser's scan over a NumPy-like
  `array<int>`, the `forces2pairs` loop, `find_element`, the member counts, the
  trajectory split and the trap emission loop.
- The properties are proved about those specification functions, as lemmas.
- Side effects become values or inputs. File contents are strings, DBSCAN is a
  function parameter, and set iteration order is an explicit `order` sequence.

## Model

| member | source | states |
|---|---|---|
| DotBracket.ParseDotBracket | analysis/src/oxDNA_analysis_tools/db_to_force.py:15-56 | The array version succeeds exactly when the specification scan `Parse` of the stripped input succeeds. On success the array's contents are the scan's pairing. On failure the error is the scan's error. |
| DotBracket.ScanInto | analysis/src/oxDNA_analysis_tools/db_to_force.py:28-55 | The loop over the stripped string fills the output, which is initialised to -1 and has `len(input)` entries, in place. It ends in the scan's state or with the scan's error. |
| DotBracket.ParsePosition | analysis/src/oxDNA_analysis_tools/db_to_force.py:33-54 | One iteration handles a skip, a push onto a kind's stack, a pop that writes both ends of a pair, or a raise. Its result is the scan advanced by one character, or the scan's error. |
| DotBracket.ScanStaysFailed | analysis/src/oxDNA_analysis_tools/db_to_force.py:53-54 | Once the scan has raised, later positions leave the error unchanged. |
| DotBracket.ParseShape | analysis/src/oxDNA_analysis_tools/db_to_force.py:27-32 | The result has one entry per character of the unstripped input. Every entry is -1 or an index into the stripped string. Entries past the stripped length stay -1. |
| DotBracket.ParseSymmetric | analysis/src/oxDNA_analysis_tools/db_to_force.py:41-52 | Pairing is an involution without fixed points: if `out[i]` is not -1, then `out[out[i]]` equals `i` and `out[i]` differs from `i`. |
| DotBracket.ParseMatched | analysis/src/oxDNA_analysis_tools/db_to_force.py:35-52 | Every pair joins an opener with a closer of the same kind (`()`, `[]` or `{}`). |
| DotBracket.ParseKinds | analysis/src/oxDNA_analysis_tools/db_to_force.py:33-52 | Closers always point back to an earlier index. Paired openers point forward. Dots stay unpaired. |
| DotBracket.ParseLastInFirstOut | analysis/src/oxDNA_analysis_tools/db_to_force.py:42-52 | Each kind's stack is last-in first-out. Between a closer and its opener, every bracket of the same kind is paired inside that span, so same-kind pairs never cross. |
| DotBracket.ParseSucceedsIff | analysis/src/oxDNA_analysis_tools/db_to_force.py:32-54 | The parse succeeds if and only if no position is bad. A position is bad if its character is not one of `.()[]{}`, or if it closes a kind whose running depth is not positive (a pop from an empty list). On failure the error names the first bad position and its character. The error is `InvalidCharacter` exactly when that character is not a dot-bracket character. |
| DotBracket.MirrorInvolution | analysis/src/oxDNA_analysis_tools/db_to_force.py:73-83 | Mirroring (reverse, then swap opener and closer of each kind) undoes itself. |
| DotBracket.MirrorKeepsOthers | analysis/src/oxDNA_analysis_tools/db_to_force.py:73-83 | Position `i` moves to `len-1-i`. A bracket keeps its kind and flips direction. Every other character is kept. |
| DotBracket.MirrorAsWrittenAt | analysis/src/oxDNA_analysis_tools/db_to_force.py:73-83 | The replace chain as written maps each character of the reversed string through the composed nine replacements. |
| DotBracket.MirrorAsWrittenAgrees | analysis/src/oxDNA_analysis_tools/db_to_force.py:73-83 | On strings without `&`, the replace chain as written equals the mirror. |
| DotBracket.MirrorAsWrittenAcceptsAmpersand | analysis/src/oxDNA_analysis_tools/db_to_force.py:73-86 | With `reverse`, the chain turns `&)` into `()`, which parses to `[1, 0]`. Without `reverse`, `&)` raises at the `&`, and the corrected mirror `(&` also raises at the `&`. |
| DotBracket.ReverseAsWritten | analysis/src/oxDNA_analysis_tools/db_to_force.py:73-83 | The reversal block (reverse, then the nine `replace` assignments in source order) computes the replace chain as written. |
| DotBracket.ParseOnePair | analysis/src/oxDNA_analysis_tools/db_to_force.py:35-44 | `()` parses to `[1, 0]`. |
| DotBracket.ParseOpenAmpersand | analysis/src/oxDNA_analysis_tools/db_to_force.py:53-54 | `(&` raises on the `&` at position 1. |
| DotBracket.ParseAmpersandClose | analysis/src/oxDNA_analysis_tools/db_to_force.py:53-54 | `&)` raises on the `&` at position 0. |
| DotBracket.DbToForceList | analysis/src/oxDNA_analysis_tools/db_to_force.py:59-95 | The result is the force list of the string `db_to_forcelist` parses: the input, or with `reverse` the input put through the replace chain as written. It is the parse error, or one trap per paired index in index order. |
| DotBracket.IntendedAgrees | analysis/src/oxDNA_analysis_tools/db_to_force.py:73-95 | On input without `&`, the force list as written equals the force list built with the corrected mirror. |
| DotBracket.IntendedRejectsAmpersand | analysis/src/oxDNA_analysis_tools/db_to_force.py:73-95 | With the corrected mirror, any input containing `&` is rejected, with or without `reverse`. |
| DotBracket.ForceListAcceptsAmpersand | analysis/src/oxDNA_analysis_tools/db_to_force.py:73-95 | As written, `db_to_forcelist("&)", stiff, True)` returns the two traps `0 -> 1` and `1 -> 0`. Without `reverse` the same input raises, and with the corrected mirror it raises too. |
| DotBracket.TrapsOfOnePair | analysis/src/oxDNA_analysis_tools/db_to_force.py:88-95 | The string `()` yields exactly the traps `0 -> 1` and `1 -> 0`. |
| DotBracket.TrapsCount | analysis/src/oxDNA_analysis_tools/db_to_force.py:88-93 | There are exactly as many traps as paired indices. |
| DotBracket.TrapsLink | analysis/src/oxDNA_analysis_tools/db_to_force.py:91-93 | Every trap links a paired index `p` to `out[p]`. Every trap carries the caller's `stiff`, `r0`, `rate` and `stiff_rate`, with PBC always on. |
| DotBracket.TrapsAscending | analysis/src/oxDNA_analysis_tools/db_to_force.py:91-93 | Trap particles are strictly increasing. |
| DotBracket.TrapsCover | analysis/src/oxDNA_analysis_tools/db_to_force.py:91-93 | Every paired index has a trap. |
| DotBracket.TrapsPerPair | analysis/src/oxDNA_analysis_tools/db_to_force.py:88-95 | For a symmetric pairing, the number of traps is twice the number of base pairs. |
| DotBracket.TrapsSymmetric | analysis/src/oxDNA_analysis_tools/db_to_force.py:88-95 | For a symmetric pairing, the reversed copy of every trap is in the list too. |
| DotBracket.ForceListPairing | analysis/src/oxDNA_analysis_tools/db_to_force.py:73-95 | A successful force list is the trap list of a symmetric pairing. That pairing is the parse of the input, or with `reverse` of the input after the replace chain as written. |
| DotBracket.TrapCount | analysis/src/oxDNA_analysis_tools/db_to_force.py:73-95 | `db_to_forcelist` returns two traps per base pair. |
| DotBracket.TrapsComeInPairs | analysis/src/oxDNA_analysis_tools/db_to_force.py:73-95 | Each trap `p -> q` returned by `db_to_forcelist` has its partner `q -> p` in the list. |
| ForcePairs.ReadField | analysis/src/oxDNA_analysis_tools/forces2pairs.py:50-52 | Reading `int(float(line.split("=")[1].strip()))` fails with an error that names the line. The error is the missing-`=` one exactly when the line has no `=`. |
| ForcePairs.DecodeAll | analysis/src/oxDNA_analysis_tools/forces2pairs.py:47-53 | Each line read is decoded once, numbered by its position. |
| ForcePairs.Forces2Pairs | analysis/src/oxDNA_analysis_tools/forces2pairs.py:44-58 | The loop returns what the fold over the decoded lines returns: the pairs, or the first failing conversion. |
| ForcePairs.ReadLine | analysis/src/oxDNA_analysis_tools/forces2pairs.py:48-56 | One iteration (strip, the two field reads, the `}` test) moves the registers exactly as one fold step does. |
| ForcePairs.Update | analysis/src/oxDNA_analysis_tools/forces2pairs.py:49-56 | `particle` sets `a` and `ref_particle` sets `b`, in that order. A `}` line appends `(a, b)` only when `a < b` and then resets both registers to -1. |
| ForcePairs.FoldNext | analysis/src/oxDNA_analysis_tools/forces2pairs.py:47-56 | Processing from line `i` is one step followed by processing from line `i + 1`, or the step's error. |
| ForcePairs.FoldAppend | analysis/src/oxDNA_analysis_tools/forces2pairs.py:47-56 | Processing concatenated line lists continues from the state the first list leaves, or keeps its error. |
| ForcePairs.FoldAppends | analysis/src/oxDNA_analysis_tools/forces2pairs.py:53-56 | Pairs are only appended, at most one per `}` line, and each appended pair has first below second. |
| ForcePairs.PairsBounded | analysis/src/oxDNA_analysis_tools/forces2pairs.py:44-58 | Every returned pair has `a < b`. There are at most as many pairs as `}` lines. |
| ForcePairs.PairsInOrder | analysis/src/oxDNA_analysis_tools/forces2pairs.py:44-58 | If a file reads successfully, so does every prefix of it. The prefix's pairs are a prefix of the file's pairs. |
| ForcePairs.PairsOfEmpty | analysis/src/oxDNA_analysis_tools/forces2pairs.py:44-58 | An empty file gives no pairs. |
| ForcePairs.QuietDecodes | analysis/src/oxDNA_analysis_tools/forces2pairs.py:48-53 | A line sets no register and closes nothing exactly when its stripped form neither starts with `particle` nor contains `ref_particle` or `}`. It is a bare close exactly when it contains `}` and neither key. |
| ForcePairs.QuietLinesKeep | analysis/src/oxDNA_analysis_tools/forces2pairs.py:47-53 | Lines that set nothing and close nothing leave the state unchanged. |
| ForcePairs.NeitherFieldEmitsNothing | analysis/src/oxDNA_analysis_tools/forces2pairs.py:44-56 | A block with neither field adds no pair, because `-1 < -1` is false. |
| ForcePairs.OnlyRefEmits | analysis/src/oxDNA_analysis_tools/forces2pairs.py:44-56 | A block with only a non-negative `ref_particle = b` adds `(-1, b)`, because `a` is still -1. |
| ForcePairs.BlockEmits | analysis/src/oxDNA_analysis_tools/forces2pairs.py:49-56 | A block `particle = p`, `ref_particle = q`, `}` adds `(p, q)` exactly when `p < q`. |
| Clustering.CountZero | analysis/src/oxDNA_analysis_tools/clustering.py:311 | `list.count(x)` is zero exactly when `x` does not occur. |
| Clustering.FindElement | analysis/src/oxDNA_analysis_tools/clustering.py:63-73 | The result is -1 exactly when `x` occurs at most `n` times (or `n` is negative). Otherwise it is an index holding `x` with exactly `n` earlier occurrences of `x`. |
| Clustering.NthOccurrenceUnique | analysis/src/oxDNA_analysis_tools/clustering.py:63-73 | At most one index holds the `n`-th occurrence, so the answer of `find_element` is determined. |
| Clustering.NClustersCount | analysis/src/oxDNA_analysis_tools/clustering.py:304 | The cluster count is the number of distinct labels other than noise (-1). It lies between 0 and the number of configurations. |
| Clustering.ClusterSizes | analysis/src/oxDNA_analysis_tools/clustering.py:309-312 | One member count per label of the set, each equal to that label's number of occurrences. |
| Clustering.SizesCoverLabels | analysis/src/oxDNA_analysis_tools/clustering.py:309-312 | Over the set of labels, the member counts add up to the number of configurations. |
| Clustering.PerformDbscan | analysis/src/oxDNA_analysis_tools/clustering.py:279-321 | Raises exactly when `nconfs != len(op)`, naming both lengths. Otherwise it returns DBSCAN's labels. It returns early exactly when the cluster count is below `min_clusters`, and otherwise splits the trajectory unless `no_traj` is set. |
| Clustering.DefaultNeverEarly | analysis/src/oxDNA_analysis_tools/clustering.py:258-321 | With the default `min_clusters = -1`, the run never returns early. |
| Clustering.PyIndex | analysis/src/oxDNA_analysis_tools/clustering.py:52 | Python list indexing `files[v]` succeeds exactly for `-n <= v < n`. It then selects the position congruent to `v` modulo `n`. |
| Clustering.RouteSucceedsIff | analysis/src/oxDNA_analysis_tools/clustering.py:48-53 | Routing succeeds exactly when every configuration read has a label, and every label is a valid Python index into the file list. |
| Clustering.RouteSelects | analysis/src/oxDNA_analysis_tools/clustering.py:48-53 | After routing, file `k` holds, in order, the configurations whose label indexes file `k`. |
| Clustering.RouteWritesEach | analysis/src/oxDNA_analysis_tools/clustering.py:48-53 | Every configuration read is written exactly once: the file lengths add up to the number of configurations. |
| Clustering.RouteStaysFailed | analysis/src/oxDNA_analysis_tools/clustering.py:48-53 | After the first failing write, nothing more changes: the error is final. |
| Clustering.FileOfLabel | analysis/src/oxDNA_analysis_tools/clustering.py:46-52 | When the set iterates its labels in small-integer order (`0..k-1`, optionally followed by -1), `files[label]` is the file named after that label. |
| Clustering.SplitTrajectory | analysis/src/oxDNA_analysis_tools/clustering.py:25-60 | One file name `cluster_<label>.dat` per label in set order. The nested chunk/configuration loop produces exactly the routing of the flattened trajectory, or its error. On success the counter `i` ends at the number of configurations. |
| Clustering.WriteChunk | analysis/src/oxDNA_analysis_tools/clustering.py:51-53 | The inner loop over one chunk extends the routing by that chunk. |
| Clustering.Write | analysis/src/oxDNA_analysis_tools/clustering.py:52 | One write appends the configuration to `files[labs[i]]`, or fails as indexing does. |
| Clustering.CentroidIds | analysis/src/oxDNA_analysis_tools/clustering.py:98-105 | For each label in set order, the centroid id is the `find_element` of the given in-cluster argmin. It is -1 exactly when the argmin is out of range, and otherwise indexes that occurrence of the label. |
| GenerateForce.OutFile | analysis/src/oxDNA_analysis_tools/generate_force.py:50-54 | The forces file is `-o`'s value, or `forces.txt` by default. |
| GenerateForce.PairsFile | analysis/src/oxDNA_analysis_tools/generate_force.py:56-59 | A pairs file is written exactly when `-f`/`--pairs` is given with a non-empty (truthy) name. That name is the file's name. |
| GenerateForce.Stiffness | analysis/src/oxDNA_analysis_tools/generate_force.py:62-65 | The stiffness is `-s`'s value, or `0.9` by default. |
| GenerateForce.ParseBondMeaning | analysis/src/oxDNA_analysis_tools/generate_force.py:94-96 | A bond line is read when it has at least two words and both are integers. The first two words give `(i, j)`. A missing word or a non-integer raises, naming the line. |
| GenerateForce.Put | analysis/src/oxDNA_analysis_tools/generate_force.py:96 | Assignment to `bonded[i]` maps `i` to the new value, leaves every other key alone, and keeps the dictionary well formed. |
| GenerateForce.ReadBonds | analysis/src/oxDNA_analysis_tools/generate_force.py:94 | The header line is skipped: one bond reading per remaining line. |
| GenerateForce.Bonded | analysis/src/oxDNA_analysis_tools/generate_force.py:93-96 | A built dictionary is well formed: its key order lists each key once and exactly the keys of the map. |
| GenerateForce.BuildBonded | analysis/src/oxDNA_analysis_tools/generate_force.py:93-96 | The loop builds exactly the dictionary `Bonded` describes, or the first line's error. |
| GenerateForce.BondedStaysFailed | analysis/src/oxDNA_analysis_tools/generate_force.py:94-96 | Once a line fails, the lines after it are not read. |
| GenerateForce.LastWriteWins | analysis/src/oxDNA_analysis_tools/generate_force.py:93-96 | If line `t` reads `(i, j)` and no later line writes key `i`, then `bonded[i] == j`. |
| GenerateForce.KeysFromLines | analysis/src/oxDNA_analysis_tools/generate_force.py:93-96 | Every key of `bonded` comes from some line. |
| GenerateForce.Sort | analysis/src/oxDNA_analysis_tools/generate_force.py:103 | `sorted(bonded)` is strictly increasing and has exactly the dictionary's keys. |
| GenerateForce.EmitForces | analysis/src/oxDNA_analysis_tools/generate_force.py:98-110 | The loop emits, for each designed pair in key order, the two trap blocks `from -> to` and `to -> from`. It emits one pair line per designed pair only when a pairs file is requested. |
| GenerateForce.GenerateForces | analysis/src/oxDNA_analysis_tools/generate_force.py:93-119 | The whole step writes the forces file `OutFile` with the emitted trap text, and the pairs file (if any) with the pair lines. A bad bond line stops it. |
| GenerateForce.DesignedExactly | analysis/src/oxDNA_analysis_tools/generate_force.py:103-106 | `(a, b)` is emitted exactly when `a` is a key, `bonded[a] == b` and `a < b`. |
| GenerateForce.DesignedOrdered | analysis/src/oxDNA_analysis_tools/generate_force.py:103-106 | Emitted pairs have first below second, strictly increasing firsts, and firsts that are keys. |
| GenerateForce.TrapLinesShape | analysis/src/oxDNA_analysis_tools/generate_force.py:109-110 | Two blocks per pair, the forward one first. |
| GenerateForce.PairLinesShape | analysis/src/oxDNA_analysis_tools/generate_force.py:107-108 | One `"from to\n"` line per pair. |
| GenerateForce.BlocksTwicePairs | analysis/src/oxDNA_analysis_tools/generate_force.py:106-110 | The forces file has twice as many blocks as the pairs file has lines. |
| GenerateForce.PairsFileRoundTrip | analysis/src/oxDNA_analysis_tools/generate_force.py:94-108 | The pairs file has one line per pair. Its line `t` is read back by the bond-line reader as pair `t`. |
| GenerateForce.PairLineRoundTrip | analysis/src/oxDNA_analysis_tools/generate_force.py:94-108 | A pair line written to the pairs file is read back as the same bond by the bond-line reader. |
| GenerateForce.WordsOfTokens | analysis/src/oxDNA_analysis_tools/generate_force.py:95 | `split()` of `"a b\n"` for two space-free words gives `[a, b]`. |
| ForceRoundTrip.TemplateLines | analysis/src/oxDNA_analysis_tools/generate_force.py:100-102 | The trap template is the open line, `type = mutual_trap`, `particle = `, `stiff = `, `r0 = 1.2`, `ref_particle = `, `PBC=1` and the close line. |
| ForceRoundTrip.TemplateFits | analysis/src/oxDNA_analysis_tools/forces2pairs.py:48-53 | None of the template's fixed lines starts with `particle` or contains `ref_particle`. Only the last contains `}`. |
| ForceRoundTrip.BlockText | analysis/src/oxDNA_analysis_tools/generate_force.py:109-110 | A formatted block is the concatenation of eight lines, each ending in its only line break. |
| ForceRoundTrip.NumberedBlockMeans | analysis/src/oxDNA_analysis_tools/forces2pairs.py:47-56 | Wherever a block sits in the file, its lines decode to: nothing, nothing, `a = p`, nothing, nothing, `b = q`, nothing, close. |
| ForceRoundTrip.DecodeFromTop | analysis/src/oxDNA_analysis_tools/forces2pairs.py:47 | Decoding a whole file is decoding from line 0. |
| ForceRoundTrip.FileText | analysis/src/oxDNA_analysis_tools/generate_force.py:117-118 | `writelines` of the blocks is the concatenation of all their lines. |
| ForceRoundTrip.FileMeans | analysis/src/oxDNA_analysis_tools/forces2pairs.py:47-53 | A generated file decodes block by block. |
| ForceRoundTrip.BlockFold | analysis/src/oxDNA_analysis_tools/forces2pairs.py:47-56 | One block adds `(p, q)` exactly when `p < q` and resets the registers. |
| ForceRoundTrip.FileFold | analysis/src/oxDNA_analysis_tools/forces2pairs.py:44-58 | Folding the blocks for `p < q` pairs returns exactly those pairs: the reverse block of each pair adds nothing. |
| ForceRoundTrip.RoundTrip | analysis/src/oxDNA_analysis_tools/forces2pairs.py:44-58 | `forces2pairs` of the text written for ascending pairs, with a plain stiffness token, returns those pairs. |
| ForceRoundTrip.GeneratedFileRoundTrip | analysis/src/oxDNA_analysis_tools/generate_force.py:93-119 | `forces2pairs` of the forces file `generate_force` writes returns exactly the designed pairs. The pairs file has one line per designed pair, and the bond-line reader reads its line `t` back as designed pair `t`. |
| ListFactory.ListType | src/Lists/ListFactory.cpp:18-19 | `list_type` defaults to `verlet` and is otherwise the input file's value. |
| ListFactory.MakeList | src/Lists/ListFactory.cpp:16-27 | A list is built exactly when the name is one of `verlet`, `bin_verlet`, `no`, `cells` or `rodcells`. The built list's class is the one named, with the given `N` and box. Any other name throws `Invalid list` with that name. |
| ListFactory.MakeListInvertsKindName | src/Lists/ListFactory.cpp:21-25 | Each class's own name builds that class. |
| ListFactory.DefaultIsVerlet | src/Lists/ListFactory.cpp:18-21 | With no `list_type`, a Verlet list is built. |
| ListFactory.WholeNameOnly | src/Lists/ListFactory.cpp:21-26 | Names are compared whole and case-sensitively: `verlet2`, `cell` and `Verlet` are rejected. |
| Text.StripLeft | analysis/src/oxDNA_analysis_tools/forces2pairs.py:48 | Leading whitespace is removed, and only whitespace. |
| Text.StripRight | analysis/src/oxDNA_analysis_tools/forces2pairs.py:48 | Trailing whitespace is removed, and only whitespace. |
| Text.Strip | analysis/src/oxDNA_analysis_tools/db_to_force.py:32 | The stripped string is no longer than the input, and neither starts nor ends with whitespace. |
| Text.FieldAfter | analysis/src/oxDNA_analysis_tools/forces2pairs.py:50 | `split("=")[1]` exists exactly when `=` occurs. It contains no `=`. |
| Text.ParseIntRoundTrip | analysis/src/oxDNA_analysis_tools/generate_force.py:96 | `int(str(i)) == i` for every integer. |
| Text.ParseFloatAsIntRoundTrip | analysis/src/oxDNA_analysis_tools/forces2pairs.py:50-52 | `int(float(str(i))) == i` for every integer, with `float` read as an exact decimal (see "Left out" for the 53-bit limit). |
| Text.IntToStringShape | analysis/src/oxDNA_analysis_tools/generate_force.py:108-109 | `str(i)` is non-empty: digits, with a leading minus sign for negatives. |
| Text.NatToStringValue | analysis/src/oxDNA_analysis_tools/generate_force.py:108-109 | The digits of `str(n)` have value `n`. |
| Text.Words | analysis/src/oxDNA_analysis_tools/generate_force.py:95 | `split()` yields only non-empty words. |
| Text.ReadLinesCons | analysis/src/oxDNA_analysis_tools/forces2pairs.py:47 | `readlines` splits after each line break, keeping the break. |
| Text.ConcatAppend | analysis/src/oxDNA_analysis_tools/generate_force.py:118 | `writelines` of two line lists is the concatenation of each. |

## Left out

- File I/O is modelled as values: opening, removing and closing files, logging, `print`, the JSON dump of `perform_DBSCAN`, and the plot. The clustering counts are returned instead of printed. The file contents written are returned as strings.
- `oxpy` (reading the input file, the configuration and the hydrogen-bond observable) is not part of this model. The observable's output lines are an input to `GenerateForce.GenerateForces`.
- The DBSCAN fit from scikit-learn is a function parameter of `Clustering.PerformDbscan`. The NumPy distance matrix and the `argmin` in `get_centroid` are left out: the argmins are an input to `Clustering.CentroidIds`.
- Python `set` iteration order is not specified by the language. It is an input `order` (each label once) wherever the source iterates over `set(labs)`.
- `Clustering.SplitTrajectory`: `linear_read` and `conf_to_str` are not modelled. Chunks of configurations are an input, and a file's content is the sequence of configurations written to it.
- `Clustering.PerformDbscan`: `get_centroid` and `make_plot` after the split are not modelled in this function. The centroid-id step is modelled separately as `Clustering.CentroidIds`.
- `mutual_trap` is not part of this model. A trap is a record of the arguments `db_to_forcelist` passes it, including the literal `True` passed as PBC. The caller's `PBC` argument is accepted and ignored, as in the source.
- Floating point: `stiff`, `r0`, `rate` and `stiff_rate` of `db_to_forcelist` are `real` and are only passed through.
- `GenerateForce.Stiffness`: the `-s` value is kept as the text that `format` prints, not as a float. It is an opaque token, and the round-trip lemmas require it to contain no whitespace, `}` or `_`.
- `Text.ParseFloatAsIntRoundTrip`: `float(...)` is modelled for plain decimals (optional sign, digits, optional fraction) truncated toward zero. Exponents, underscores, `inf` and `nan` are not accepted.
- `Text.ParseFloatAsIntRoundTrip`: the rounding of `float` to a 53-bit binary significand is not modelled. The decimal is read exactly and then truncated. So in Python the round trip holds only for `|i| <= 2**53`. A long fraction that rounds up to the next integer, such as `0.99999999999999999`, gives 1 in Python and 0 here.
- `ForceRoundTrip.RoundTrip`: it rests on `Text.ParseFloatAsIntRoundTrip`, so in Python it holds only for particle indices with `|i| <= 2**53`. `ForceRoundTrip.GeneratedFileRoundTrip` has the same limit.
- `Text.ParseFloatAsIntRoundTrip`, `Text.ParseIntRoundTrip`: only the ASCII digits `0`-`9` are modelled. The other Unicode decimal digits that `int()` and `float()` accept are not.
- `Text.ParseIntRoundTrip`: `int(...)` is modelled for an optional sign and decimal digits around whitespace, without underscores.
- `ListFactory.ListType`: the 512-character `list_type` buffer and `getInputString` are modelled as an optional string, so the truncation of longer values is not modelled.
- `ListFactory.MakeList`: the list classes' constructors are not part of this model. A built list records its class, `N` and the box.

## Findings

| source | as written | input that shows it | evidently intended | confidence | as-written member | corrected member |
|---|---|---|---|---|---|---|
| analysis/src/oxDNA_analysis_tools/db_to_force.py:73-83 | With `reverse`, the string is mirrored by nine `replace` calls that use `&` as a temporary placeholder. Any `&` already in the input is therefore turned into a closing bracket. | `db_to_forcelist("&)", stiff, True)`: the chain gives `()`, so two traps are returned. Without `reverse`, the same string raises on the `&`. | Reverse the string and swap the opener and closer of each kind, leaving other characters alone, so that an invalid `&` is still rejected (`IntendedForceList`). | not executed | DotBracket.ForceListAcceptsAmpersand | DotBracket.IntendedRejectsAmpersand |
