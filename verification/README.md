# Varied k-mer assembly: a Dafny model of the assembly engine

This project models the assembly engine of the repository. The engine has
two De Bruijn-graph assemblers, a greedy overlap merger and three read
slicers. Properties of each are proved in Dafny 4.11.

- **De Bruijn / Eulerian assembler** (`libs/assembler_2/assembler_other.py`).
  It counts the k-mers of a sequence, cyclic or linear (`Kmers`), and can
  delete a percentage of the distinct k-mers drawn at random (`Sampler`).
  It then builds the prefix-to-suffix multigraph (`DeBruijn`), walks it with
  the iterative Hierholzer loop (`Eulerian`), spells the path back into a
  string (`Reconstruct`), and scores the result against the original,
  linearly or over every rotation (`Scoring`). `Pipeline` chains the steps
  as `reconstruct_from_kmers` does.
- **List-based assembler** (`libs/fixed_assembler/fixed_assembler.py`).
  It builds the graph from a plain k-mer list plus a node set. Its start
  node choice has a falsy-name fallback, and it raises on an empty graph
  or path (`DeBruijn.BuildFromList`, `Eulerian.EulerianPathFixed`,
  `Reconstruct.ReconstructGenomeFromPath`, `Pipeline.ReconstructGenome`).
- **Greedy overlap merger** (`fixed_assembler/src/main.rs`; the copy in
  `libs/fixed_assembler/src/main.rs` is identical, one line lower).
  `find_overlap` is the longest suffix/prefix overlap up to k.
  `assemble_genome` repeatedly merges the first pair with the strictly
  largest overlap, removing both contigs with `Vec::swap_remove`. This is
  modelled exactly, and its consequences are under "Findings" (`Greedy`).
- **Read slicers** (`break_into_reads`). There are three copies: a `for`
  over `0..=len - rl`, a `while` stepping by 1, and a `while` stepping by
  `rl - 1` (`Reads`).

Python dictionaries are insertion-ordered sequences of key/value pairs with
distinct keys (`OrderedDict`). A `defaultdict` lookup reads an absent key as
the default, and an update of an absent key appends it at the end. Python
exceptions and Rust panics are `Err` values of `Wrappers.Result`:
`IndexError`, `StopIteration`, `InvalidSampleSize`, `SliceOutOfRange`,
`SubtractOverflow` and `NonTermination`.

The Hierholzer loop mutates its argument. Here it is the function
`Eulerian.Traverse`, which returns the path together with the graph left
behind; `Eulerian.TraverseLoop` is the same `while` loop over local
variables and is proved to end in the state `Traverse` describes. The random draw of `random.sample` is a parameter `drawn`, which may
be any set of keys of the requested size. Scores are exact reals.

## Notes on the code's behaviour

- **Cyclic reconstruction length.** For a cyclic sequence with no removal,
  the reconstruction is `|sequence| + k - 1` symbols long when every edge is
  consumed. The path closes the cycle, so its first `k - 1` symbols come
  back at the end (`Pipeline.CyclicReconstructionLength`). Identity is then
  computed on the first `|sequence|` symbols, and the length penalty
  applies to the `k - 1` extra ones.
- **Path adjacency.** The loop's output is a walk of the graph only when the
  graph is Eulerian. On `a -> [b, c]` it returns `a, b, c` although `b` has
  no edge to `c` (`Eulerian.NonEulerianPathIsNotAWalk`).
- **Full removal.** Removing 100% of the k-mers gives an empty
  reconstruction (`Pipeline.FullRemovalReconstructsNothing`). In circular
  mode the score is then minus infinity and the details are empty.
- **`k = 1`.** Every node is the empty string, and spelling raises
  `IndexError` (`Pipeline.SingleSymbolKmersFail`).

## Model

| member | source | states |
|---|---|---|
| OrderedDict.Get | libs/assembler_2/assembler_other.py:16 | a defaultdict lookup yields the value stored at the key's position, or the default when the key is absent |
| OrderedDict.Put | libs/assembler_2/assembler_other.py:16 | an assignment changes only entries holding the key and never empties the dictionary |
| OrderedDict.GetPut | libs/assembler_2/assembler_other.py:16 | after `d[key] = v`, `key` reads `v` and every other key reads as before |
| OrderedDict.PutKeys | libs/assembler_2/assembler_other.py:34 | an assignment keeps keys distinct; an existing key keeps its place and a new one goes last |
| Kmers.PySlice | libs/assembler_2/assembler_other.py:10 | Python slicing clamps both bounds to the string length |
| Kmers.Window | libs/assembler_2/assembler_other.py:10-15 | definition of the window read at one start index; its meaning is proved in `Kmers.WindowAt` and `Kmers.CyclicWindowChars` |
| Kmers.WindowAt | libs/assembler_2/assembler_other.py:10-15 | a full window is the slice; a short one is completed from the start (cyclic) or skipped (linear) |
| Kmers.CyclicWindowChars | libs/assembler_2/assembler_other.py:10-13 | a cyclic window has length k and reads the sequence circularly from its start index |
| Kmers.CollectKept | libs/assembler_2/assembler_other.py:9-15 | when exactly the first m start indices keep a window, the collected list is those windows in order |
| Kmers.Windows | libs/assembler_2/assembler_other.py:9-15 | definition of the windows kept by the loop, in order; characterised by `Kmers.CyclicWindows` and `Kmers.LinearWindows` |
| Kmers.CyclicWindows | libs/assembler_2/assembler_other.py:9-16 | cyclic extraction gives one length-k window per start index, read circularly |
| Kmers.LinearWindows | libs/assembler_2/assembler_other.py:9-15 | linear extraction gives exactly the `|s| - k + 1` full windows in order |
| Kmers.LinearWindowsTooLong | libs/assembler_2/assembler_other.py:9-15 | linear extraction with k longer than the sequence gives nothing |
| Kmers.Increment | libs/assembler_2/assembler_other.py:16 | definition of `kmers[kmer] += 1`; its effect is proved in `Kmers.IncrementCount`, `Kmers.IncrementKeys` and `Kmers.IncrementTotal` |
| Kmers.IncrementCount | libs/assembler_2/assembler_other.py:16 | `kmers[key] += 1` adds one to that key's count and leaves other counts alone |
| Kmers.IncrementKeys | libs/assembler_2/assembler_other.py:16 | incrementing keeps keys distinct and appends a key seen for the first time |
| Kmers.IncrementTotal | libs/assembler_2/assembler_other.py:16 | incrementing keeps every count positive and adds one to the total |
| Kmers.Tally | libs/assembler_2/assembler_other.py:8-17 | definition of the counting loop as a fold; characterised by `Kmers.TallySpec` |
| Kmers.TallyKeys | libs/assembler_2/assembler_other.py:8-17 | the table's keys are the distinct windows in first-occurrence order |
| Kmers.TallyCounts | libs/assembler_2/assembler_other.py:8-17 | each key's count is its multiplicity among the windows |
| Kmers.TallyTotal | libs/assembler_2/assembler_other.py:8-17 | counts are positive and sum to the number of windows |
| Kmers.TallySpec | libs/assembler_2/assembler_other.py:8-17 | the table is the multiset of windows, in first-occurrence order |
| Kmers.KmerCounts | libs/assembler_2/assembler_other.py:7-17 | the returned table holds distinct keys in first-occurrence order, counted by multiplicity, with a total equal to the number of windows |
| Kmers.KmerCountsShape | libs/assembler_2/assembler_other.py:7-17 | with `1 <= k <= \|s\|` every key has length k and the counts sum to `\|s\|` (cyclic) or `\|s\| - k + 1` (linear) |
| Sampler.RemoveCount | libs/assembler_2/assembler_other.py:23 | `int(total * percentage / 100)` truncates toward zero and stays within `[0, total]` for percentages in `[0, 100]` |
| Sampler.KeySetSize | libs/assembler_2/assembler_other.py:22-24 | a dictionary with distinct keys has as many keys as entries |
| Sampler.Without | libs/assembler_2/assembler_other.py:25-26 | definition of deleting the drawn keys; characterised by `Sampler.WithoutSpec` and `Sampler.WithoutOrder` |
| Sampler.WithoutMembers | libs/assembler_2/assembler_other.py:25-26 | the survivors are exactly the entries whose key was not drawn |
| Sampler.WithoutOrder | libs/assembler_2/assembler_other.py:25-26 | deleting keys keeps them distinct and keeps the survivors in their original relative order |
| Sampler.WithoutKeySet | libs/assembler_2/assembler_other.py:25-26 | the surviving key set is the original minus the drawn keys |
| Sampler.WithoutGet | libs/assembler_2/assembler_other.py:25-26 | a key that was not drawn keeps its value |
| Sampler.WithoutSpec | libs/assembler_2/assembler_other.py:25-26 | deletion keeps the other entries with their values and shrinks the dictionary by the number of drawn keys |
| Sampler.RemoveRandomKmers | libs/assembler_2/assembler_other.py:20-27 | fails exactly when the sample size is invalid; otherwise removes exactly the drawn keys, keeps the other counts, and keeps the survivors in their original relative order |
| Sampler.ZeroPercentIsIdentity | libs/assembler_2/assembler_other.py:23-27 | removing 0% leaves the table unchanged |
| Sampler.FullRemovalEmpties | libs/assembler_2/assembler_other.py:23-27 | removing 100% leaves no k-mer |
| DeBruijn.Prefix | libs/assembler_2/assembler_other.py:33 | `kmer[:-1]` is all but the last symbol, and empty for the empty k-mer |
| DeBruijn.Suffix | libs/assembler_2/assembler_other.py:33 | `kmer[1:]` is all but the first symbol, and empty for the empty k-mer |
| DeBruijn.Repeat | libs/assembler_2/assembler_other.py:34 | `[v] * n` has n entries, all `v` |
| DeBruijn.Extend | libs/assembler_2/assembler_other.py:34 | definition of `edges[prefix].extend(...)` on a defaultdict; characterised by `DeBruijn.ExtendAdj` and `DeBruijn.ExtendEntries` |
| DeBruijn.ExtendEntries | libs/assembler_2/assembler_other.py:34 | `extend` adds exactly the given entries to the graph's multiset of targets |
| DeBruijn.ExtendAdj | libs/assembler_2/assembler_other.py:34 | `extend` appends to that node's list only |
| DeBruijn.Build | libs/assembler_2/assembler_other.py:30-35 | definition of `build_de_bruijn_graph` as a fold over the table; characterised by `DeBruijn.BuildSpec` against the independent `AdjOf` |
| DeBruijn.BuildKeys | libs/assembler_2/assembler_other.py:30-35 | the graph's keys are the distinct k-mer prefixes in first-occurrence order |
| DeBruijn.BuildAdj | libs/assembler_2/assembler_other.py:30-35 | a node's list is, in input order, `count` copies of the suffix of each k-mer with that prefix |
| DeBruijn.BuildEntries | libs/assembler_2/assembler_other.py:30-35 | the number of list entries is the sum of the counts |
| DeBruijn.BuildSpec | libs/assembler_2/assembler_other.py:30-35 | keys, lists and entry count of the graph, as the three lemmas above |
| DeBruijn.BuildKeyLengths | libs/assembler_2/assembler_other.py:30-35 | with k-mers of length `k >= 1` every key has length `k - 1`, and a non-empty table gives a non-empty graph |
| DeBruijn.BuildTargetLengths | libs/assembler_2/assembler_other.py:30-35 | with k-mers of length `k >= 1` every list entry has length `k - 1` |
| DeBruijn.BuildNodeLengths | libs/assembler_2/assembler_other.py:30-35 | every node, key or target, has length `k - 1` |
| DeBruijn.AdjOfEntries | libs/assembler_2/assembler_other.py:32-34 | every entry of u's list is the suffix of some k-mer with prefix u and a positive count |
| DeBruijn.TotalOfSingles | libs/fixed_assembler/fixed_assembler.py:16-19 | a list read as counts of one each totals its length |
| DeBruijn.BuildFromList | libs/fixed_assembler/fixed_assembler.py:13-22 | definition of the list-based builder, pairing the edge dictionary with the node set; characterised by `DeBruijn.BuildFromListSpec` |
| DeBruijn.ListEdges | libs/fixed_assembler/fixed_assembler.py:14-19 | definition of the edge dictionary of the list-based builder; equal to `DeBruijn.Build` over unit counts by `DeBruijn.BuildFromListGraph` |
| DeBruijn.ListNodes | libs/fixed_assembler/fixed_assembler.py:15-21 | definition of the node set of the list-based builder; characterised by `DeBruijn.BuildFromListNodes` |
| DeBruijn.BuildFromListGraph | libs/fixed_assembler/fixed_assembler.py:13-22 | the list-based graph is the dictionary-based graph of the k-mers with count one each, duplicates kept |
| DeBruijn.BuildFromListNodes | libs/fixed_assembler/fixed_assembler.py:15-21 | the node set holds exactly the prefixes and suffixes of the k-mers |
| DeBruijn.EndOfStep | libs/fixed_assembler/fixed_assembler.py:16-21 | adding one k-mer adds exactly its prefix and its suffix to the nodes |
| DeBruijn.ListEdgesEmpty | libs/fixed_assembler/fixed_assembler.py:14-19 | the list-based graph is empty exactly when the list is |
| DeBruijn.BuildFromListSpec | libs/fixed_assembler/fixed_assembler.py:13-22 | graph, entry count (one per k-mer) and node set of the list-based builder |
| Eulerian.FirstSurplus | libs/assembler_2/assembler_other.py:51 | the first key, in insertion order, whose out-degree exceeds its in-degree |
| Eulerian.StartNode | libs/assembler_2/assembler_other.py:50-52 | the first surplus node, else the first key |
| Eulerian.StartNodeFixed | libs/fixed_assembler/fixed_assembler.py:32-34 | as above, but an empty-string candidate falls back to the first key, and an empty graph raises `StopIteration` |
| Eulerian.Pop | libs/assembler_2/assembler_other.py:61 | `graph[node].pop()` returns the last entry of `node`'s list, shortens that list by it, and leaves every other list unchanged |
| Eulerian.PopTargets | libs/assembler_2/assembler_other.py:61 | the popped entry leaves the graph's multiset of targets |
| Eulerian.Traverse | libs/assembler_2/assembler_other.py:55-66 | the loop only shortens lists, and each step moves one node onto the path or one entry onto the stack |
| Eulerian.TraverseLoop | libs/assembler_2/assembler_other.py:55-66 | the `while stack:` loop on a local graph, stack and path ends in the state of the recursive `Eulerian.Traverse`, with the start node heading the path and the lists only shortened |
| Eulerian.TraverseStep | libs/assembler_2/assembler_other.py:58-64 | one iteration pushes a popped entry when the top node has one, and otherwise moves the top node to the front of the path |
| Eulerian.TraverseHead | libs/assembler_2/assembler_other.py:55-66 | the bottom of the stack, the start node, heads the path |
| Eulerian.TraverseKeepsPath | libs/assembler_2/assembler_other.py:64 | the path only grows at its front |
| Eulerian.TraverseShape | libs/assembler_2/assembler_other.py:55-66 | the start node heads the path, and earlier path entries stay at its end |
| Eulerian.TraverseConserves | libs/assembler_2/assembler_other.py:58-64 | every stacked node and every consumed entry lands on the path exactly once |
| Eulerian.EulerianPath | libs/assembler_2/assembler_other.py:38-66 | empty graph, empty path; otherwise the path starts at the start node, has one node more than the entries consumed, and is the start node plus the consumed entries as a multiset |
| Eulerian.EulerianPathFixed | libs/fixed_assembler/fixed_assembler.py:24-47 | fails exactly on the empty graph; otherwise the same guarantees from its own start node |
| Eulerian.FixedAgreesWithDict | libs/fixed_assembler/fixed_assembler.py:32-34 | the two variants agree whenever the start node is not the empty string |
| Eulerian.NonEulerianPathIsNotAWalk | libs/assembler_2/assembler_other.py:55-66 | on `a -> [b, c]` the path is `a, b, c`, yet `b` has no list |
| Eulerian.ExampleStart | libs/assembler_2/assembler_other.py:50-52 | on `a -> [b, c]` the start node is `a` |
| Eulerian.ExampleRun | libs/assembler_2/assembler_other.py:55-66 | on `a -> [b, c]` from `a` the loop produces `a, b, c` |
| Reconstruct.LastChars | libs/assembler_2/assembler_other.py:72 | the join of last symbols succeeds exactly when no node is empty, and holds one last symbol per node |
| Reconstruct.ReconstructSequence | libs/assembler_2/assembler_other.py:69-72 | an empty path gives ""; the first node in full, then each later node's last symbol; `IndexError` exactly when a later node is empty |
| Reconstruct.ReconstructGenomeFromPath | libs/fixed_assembler/fixed_assembler.py:49-53 | raises on an empty path; otherwise the same fold |
| Reconstruct.ReconstructSlidingNodes | libs/assembler_2/assembler_other.py:69-72 | round trip: spelling the consecutive windows of a string gives the string back |
| Scoring.Rotate | libs/assembler_2/assembler_other.py:103 | `s[i:] + s[:i]` reads `s` circularly from i |
| Scoring.MatchCount | libs/assembler_2/assembler_other.py:81 | the count is the number of positions below `n` where the strings agree; all match exactly when the prefixes are equal, and none exactly when every position differs |
| Scoring.Percent | libs/assembler_2/assembler_other.py:93 | the result is `part / whole * 100` (stated as `p * whole == part * 100`), lies in `[0, 100]`, and is 100 exactly when `part == whole` |
| Scoring.Identity | libs/assembler_2/assembler_other.py:93 | identity is `matches / min_length * 100` when something is compared and 0 otherwise; it lies in `[0, 100]` and is 100 exactly for a perfect non-empty comparison |
| Scoring.ScoreLinear | libs/assembler_2/assembler_other.py:78-96 | matches is the number of agreeing positions within the shorter length and mismatches the rest, the length difference is absolute, the score is the weighted counts plus the length penalty, and identity is `matches / min_length * 100` (0 when nothing is compared), in [0, 100] and 100 exactly for a perfect non-empty comparison |
| Scoring.LinearCountsMeaning | libs/assembler_2/assembler_other.py:81-82 | there are no mismatches exactly when the two strings agree on the shorter length, and no matches exactly when they differ at every compared position |
| Scoring.ScoreCircular | libs/assembler_2/assembler_other.py:98-115 | an empty reconstruction gives minus infinity and no details; otherwise it gives the first rotation with the strictly greatest linear score, with its rotated string and details |
| Scoring.FirstMaxStep | libs/assembler_2/assembler_other.py:106-113 | one comparison `score > best_score` keeps the first strictly greatest score seen so far: a larger score takes over, an equal or smaller one leaves the choice alone |
| Scoring.FirstMaxIsFirstBest | libs/assembler_2/assembler_other.py:102-113 | the index kept by the rotation loop scores at least as well as every rotation and strictly better than every earlier one |
| Scoring.ScoreSequence | libs/assembler_2/assembler_other.py:75-115 | linear mode gives the linear score and details; circular mode gives minus infinity and no details on an empty reconstruction, otherwise the first best rotation, its rotated string, its score and its linear details marked circular |
| Scoring.FirstBestRotationUnique | libs/assembler_2/assembler_other.py:102-113 | the strict `>` makes the winning rotation unique |
| Scoring.CircularNoWorseThanLinear | libs/assembler_2/assembler_other.py:102-108 | the winning rotation scores at least as well as the unrotated reconstruction |
| Scoring.RotateBack | libs/assembler_2/assembler_other.py:103 | rotating by `t` then by `\|s\| - t` gives the string back |
| Scoring.SelfScore | libs/assembler_2/assembler_other.py:78-96 | a string compared with itself scores one match per symbol |
| Scoring.OnlyOriginalScoresPerfect | libs/assembler_2/assembler_other.py:78-96 | when a match is worth more than a mismatch, only the original itself reaches the self-comparison score at equal length |
| Scoring.RotatedCopyScoresFullIdentity | libs/assembler_2/assembler_other.py:98-115 | a rotated copy of the original is rotated back onto it with 100% identity |
| Pipeline.Survivors | libs/assembler_2/assembler_other.py:120-122 | removal runs only for a positive percentage, fails only on an oversized sample, and keeps a subset of the counted k-mers |
| Pipeline.Assemble | libs/assembler_2/assembler_other.py:120-125 | the reconstruction fails only on an invalid sample or an `IndexError` while spelling |
| Pipeline.ReconstructFromKmers | libs/assembler_2/assembler_other.py:118-129 | returns the reconstruction with linear details, no details for an empty circular reconstruction, or the first best rotation with its rotated string and its linear details marked circular |
| Pipeline.StartNodeIsKey | libs/assembler_2/assembler_other.py:51-52 | the start node is a key of the graph |
| Pipeline.PathNodeLengths | libs/assembler_2/assembler_other.py:58-66 | when the start node and all entries have length m, so does every path node |
| Pipeline.SpellPath | libs/assembler_2/assembler_other.py:124-125 | with nodes of length `m >= 1` spelling succeeds and yields m symbols plus one per consumed entry |
| Pipeline.SpelledLength | libs/assembler_2/assembler_other.py:123-125 | with k-mers of length `k >= 2` spelling succeeds and yields `k - 1` symbols plus one per consumed k-mer occurrence |
| Pipeline.AssembledLength | libs/assembler_2/assembler_other.py:118-125 | with `2 <= k <= \|sequence\|` and some k-mer left, the reconstruction exists and has at most `k - 1 + total` symbols, exactly that when all are consumed |
| Pipeline.CyclicReconstructionLength | libs/assembler_2/assembler_other.py:118-125 | with no removal and every edge consumed, a cyclic reconstruction has `\|sequence\| + k - 1` symbols |
| Pipeline.FullRemovalReconstructsNothing | libs/assembler_2/assembler_other.py:121-125 | removing 100% gives the empty reconstruction |
| Pipeline.FirstStepPops | libs/assembler_2/assembler_other.py:58-62 | a start node with an entry gives a path of at least two nodes |
| Pipeline.SingleNode | libs/assembler_2/assembler_other.py:30-35 | single-symbol k-mers build a graph with the one node "" whose list is not empty |
| Pipeline.SingleSymbolGraphFails | libs/assembler_2/assembler_other.py:69-72 | spelling that graph's path raises `IndexError` |
| Pipeline.SingleSymbolKmersFail | libs/assembler_2/assembler_other.py:118-125 | `k = 1` on a non-empty sequence raises `IndexError` |
| Pipeline.ReconstructGenome | libs/fixed_assembler/fixed_assembler.py:55-60 | an empty list raises `StopIteration`, and otherwise only `IndexError` can occur |
| Pipeline.GenomeLength | libs/fixed_assembler/fixed_assembler.py:55-60 | k-mers of one length `k >= 2` give a genome of `k - 1` symbols plus one per consumed list entry |
| Pipeline.SpellPathFixed | libs/fixed_assembler/fixed_assembler.py:57-59 | on a non-empty graph whose nodes all have length `m >= 1`, the path is found and spelled, and the genome has `m` symbols plus one per consumed list entry |
| Greedy.OverlapFrom | fixed_assembler/src/main.rs:9-14 | the descending search returns the largest fitting overlap not above its start, or 0 |
| Greedy.FindOverlap | fixed_assembler/src/main.rs:7-15 | the longest suffix of the first that is a prefix of the second, at most k, or 0 |
| Greedy.FreshFirstSymbol | fixed_assembler/src/main.rs:7-15 | no overlap exists when the second string's first symbol does not occur in the first |
| Greedy.BestPair | fixed_assembler/src/main.rs:20-33 | the scan returns the greatest overlap over ordered pairs and the first pair, in row-major order, reaching it; (0, 0) when none overlaps |
| Greedy.FirstBestUnique | fixed_assembler/src/main.rs:20-33 | the scan's outcome is unique |
| Greedy.SwapRemove | fixed_assembler/src/main.rs:41 | `swap_remove(x)` returns element x and moves the last element into its slot |
| Greedy.SecondRemoval | fixed_assembler/src/main.rs:41-42 | the second removal takes `contigs[j]` when j < i, the old last contig when j = i + 1, and `contigs[j - 1]` otherwise |
| Greedy.MergeAsWritten | fixed_assembler/src/main.rs:40-44 | the merge step as written: panics exactly when the contig taken second is shorter than the overlap; otherwise appends `contig1 ++ contig2[overlap..]` |
| Greedy.RemovePair | fixed_assembler/src/main.rs:41-42 | two removals, the higher index first, take out exactly those two contigs |
| Greedy.RemoveBoth | fixed_assembler/src/main.rs:41-42 | contigs i and j are removed and nothing else |
| Greedy.MergeIntended | fixed_assembler/src/main.rs:40-44 | the intended merge replaces contigs i and j by `cs[i] ++ cs[j][overlap..]` |
| Greedy.WrittenAgreesWhenSecondFirst | fixed_assembler/src/main.rs:40-44 | when j < i the written merge is the intended one |
| Greedy.MergedKeepsBoth | fixed_assembler/src/main.rs:43 | a merge along an overlap starts with the first contig and ends with the second |
| Greedy.MergeShortens | fixed_assembler/src/main.rs:43-44 | a merge shortens the total contig length by the overlap |
| Greedy.AssembleGenome | fixed_assembler/src/main.rs:18-48 | the run is a trace of passes, each merging the scan's first best pair with the written merge; a panic happens exactly on such a pass of the final vector; on success the result is the last remaining contig and, if several remain, no pair overlaps |
| Greedy.StepShrinks | fixed_assembler/src/main.rs:40-44 | a written pass needs two contigs and leaves one fewer |
| Greedy.TraceShrinks | fixed_assembler/src/main.rs:19-45 | along a written run the t-th vector has t fewer contigs than the input, so a run makes fewer passes than there are contigs |
| Greedy.OnlyPairOfTwo | fixed_assembler/src/main.rs:20-33 | on two contigs where only (0, 1) overlaps, the scan picks (0, 1) |
| Greedy.WrittenOfTwo | fixed_assembler/src/main.rs:40-44 | on two contigs the written merge of (0, 1) joins them in order |
| Greedy.OneJoinOfTwo | fixed_assembler/src/main.rs:19-44 | two contigs where only (0, 1) overlaps: the first pass merges them without a panic |
| Greedy.AbBcOverlaps | fixed_assembler/src/main.rs:7-15 | "ab" overlaps "bc" by one symbol and "bc" overlaps "ab" by none |
| Greedy.RunOfOneJoin | fixed_assembler/src/main.rs:18-48 | on two contigs where only (0, 1) overlaps, any run meeting the loop's guarantees returns their join |
| Greedy.JoinExample | fixed_assembler/src/main.rs:18-48 | `assemble_genome(["ab", "bc"], 2)` returns "abc" |
| Greedy.ExampleFirstBest | fixed_assembler/src/main.rs:20-33 | for `["cab", "abd", z]` the scan picks (0, 1) with overlap 2 |
| Greedy.OnlyFirstPairOverlaps | fixed_assembler/src/main.rs:20-33 | among three contigs, if only the pair (0, 1) overlaps, the scan picks it with its overlap |
| Greedy.NoPanicWhenSingle | fixed_assembler/src/main.rs:19 | with fewer than two contigs the loop body never runs, so no first merge panics |
| Greedy.SecondRemovalOfThree | fixed_assembler/src/main.rs:41-42 | on three contigs the pair (0, 1) takes the third contig second and leaves the second |
| Greedy.RemoveBothOfThree | fixed_assembler/src/main.rs:41-42 | the intended removal of (0, 1) leaves the third contig |
| Greedy.IntendedOfThree | fixed_assembler/src/main.rs:40-44 | the intended merge of (0, 1) joins the first two contigs |
| Greedy.WrittenOfThree | fixed_assembler/src/main.rs:40-44 | the written merge of (0, 1) joins the first with the third, or panics when the third is shorter than the overlap |
| Greedy.MergesOf | fixed_assembler/src/main.rs:40-44 | both merges on three named contigs |
| Greedy.AsWrittenPanics | fixed_assembler/src/main.rs:40-43 | on `["cab", "abd", "z"]`, k = 3, the first merge panics where the intended one gives `["z", "cabd"]` |
| Greedy.AsWrittenMergesWrongContig | fixed_assembler/src/main.rs:40-44 | on `["cab", "abd", "zzz"]`, k = 3, the written merge gives `["abd", "cabz"]` instead of `["zzz", "cabd"]` |
| Greedy.PanicExample | fixed_assembler/src/main.rs:18-48 | the whole run on `["cab", "abd", "z"]` ends in the panic |
| Greedy.AssembleGenomeIntended | libs/fixed_assembler/src/main.rs:19-49 | with the intended merge the loop never panics, the run is a trace of passes each joining the scan's first best pair along its overlap, and if several remain no pair overlaps |
| Reads.BreakIntoReadsRange | libs/fixed_assembler/src/main.rs:59-69 | panics exactly when the read is longer than the genome; otherwise every length-rl window, one symbol apart |
| Reads.BreakIntoReads | libs/read_creator/src/main.rs:5-16 | every length-rl window, one symbol apart; none when the read is longer than the genome |
| Reads.ShortGenomeExample | libs/fixed_assembler/src/main.rs:63 | genome "AC" with reads of length 3: the range slicer panics and the step-1 slicer returns no reads |
| Reads.SlidingReadsSpec | libs/read_creator/src/main.rs:8-13 | there are `\|g\| - rl + 1` reads, read t starts at t, and consecutive reads overlap on `rl - 1` symbols |
| Reads.SlidingReadsAreLinearKmers | libs/read_creator/src/main.rs:5-16 | the step-1 reads are the linear k-mers of the genome |
| Reads.BreakIntoReadsStepped | read_creator/src/main.rs:4-15 | `rl = 0` underflows and `rl = 1` never ends on a non-empty genome; otherwise read t starts at `t * (rl - 1)` for every read that fits |
| Reads.SteppedFits | read_creator/src/main.rs:8-10 | every counted stepped read fits in the genome |
| Reads.CountIsLast | read_creator/src/main.rs:8 | the read after the last counted one does not fit |
| Reads.SteppedFromClosed | read_creator/src/main.rs:8-12 | the loop's reads equal the closed form |
| Reads.SteppedReadsOverlap | read_creator/src/main.rs:4-15 | stepped reads have length rl, and consecutive ones share exactly one boundary symbol |
| Reads.SteppedReadsTail | read_creator/src/main.rs:8-12 | after the last stepped read fewer than `rl - 1` symbols remain |

## Left out

- Command-line parsing, file reading, printing, `write_to_fasta`, the `main`
  functions and `read_kmers` are left out: they are I/O around the engine.
- `libs/assembler_2/assembler_in_range.py` is not part of this model.
- `random.sample` is a parameter (`drawn`). The model does not choose the
  keys; any draw of the right size is allowed.
- Floating point: scores, percentages and `float('-inf')` are exact reals
  and a `Score` datatype. Rounding is not modelled.
- Strings are ASCII, so Rust byte slicing never hits a UTF-8 character
  boundary panic.
- A Hierholzer lookup `graph[node]` on a `defaultdict` inserts an absent
  node with an empty list. The model reads it as empty without inserting
  it. The path does not depend on this, but the leftover graph's key set
  differs.
- Reads.BreakIntoReadsRange: models the debug build, where `len - rl`
  underflow panics. In a release build the bound wraps and the first slice
  panics instead; the outcome is still a panic.
- Reads.BreakIntoReadsStepped: models the debug build, where `rl = 0`
  makes the step `read_length - 1` underflow and panic after the first
  (empty) read. In a release build the step wraps to `usize::MAX`, the loop
  exits, and the result is `[""]`; that outcome is not modelled. `rl = 1`
  with a non-empty genome loops forever in the source. Here it is the
  error `NonTermination`.
- Kmers.KmerCounts: k is a natural number; a negative k, which Python
  accepts and slices from the end (`k = -1` on "ACGT" in cyclic mode gives
  `{"ACG": 4}`), is not modelled. The same holds for the other `k`
  parameters of the assembler.
- `usize` overflow of `i + rl` in the read slicers is not modelled: it
  needs a genome near `usize::MAX` symbols.
- Pipeline.ReconstructFromKmers: the score is computed and discarded, as in
  the source. The empty circular details dictionary is `None`. The
  `reconstructed_sequence` key added to the details is the first result
  component.
- Pipeline.Assemble: states only which errors can occur. The exact length
  is in `Pipeline.AssembledLength`, which needs `2 <= k <= |sequence|`.
- Eulerian.EulerianPath: states no walk property. Consecutive nodes are
  joined by an edge only on Eulerian graphs, which the source never checks
  (`Eulerian.NonEulerianPathIsNotAWalk`).
- DeBruijn.BuildFromList: the source fills the edge dictionary and the
  node set in one loop. Here they are two folds over the same list.

## Findings

| source | as written | input that shows it | evidently intended | confidence | as-written member | corrected member |
|---|---|---|---|---|---|---|
| fixed_assembler/src/main.rs:41-43 (also libs/fixed_assembler/src/main.rs:42-44) | `swap_remove(i)` moves the last contig into slot i, then `swap_remove(j - 1)` (for i < j) takes whatever now sits at j - 1. That is `contigs[j]` only when j = i + 1 is the last index. | `["cab", "abd", "z"]`, k = 3: the pair (0, 1) with overlap 2 is chosen, the second removal takes "z", and `"z"[2..]` panics. With `["cab", "abd", "zzz"]` it returns "cabz" and keeps "abd". | remove contigs i and j and push `contigs[i] ++ contigs[j][overlap..]` ("cabd") | high; not executed | Greedy.MergeAsWritten | Greedy.MergeIntended |
| libs/fixed_assembler/src/main.rs:63 | `for i in 0..=genome.len() - read_length` underflows when the read is longer than the genome | genome "AC", read length 3 | no reads, as the `while i + read_length <= len` slicer of libs/read_creator/src/main.rs:9 gives | medium; not executed | Reads.BreakIntoReadsRange | Reads.BreakIntoReads |

`Greedy.AsWrittenPanics`, `Greedy.AsWrittenMergesWrongContig` and
`Greedy.PanicExample` exhibit the first finding on the written code.
`Greedy.AssembleGenomeIntended` is the loop with the corrected merge.
`Reads.ShortGenomeExample` exhibits the second finding.
