/** The end-to-end assemblers: `reconstruct_from_kmers` (k-mer counting,
    optional random removal, graph, path, spelling, scoring) and
    `reconstruct_genome` (graph from a k-mer list, path, spelling). */
module Pipeline {
  import opened Wrappers
  import opened OrderedDict
  import opened Kmers
  import opened Sampler
  import opened DeBruijn
  import opened Eulerian
  import opened Reconstruct
  import opened Scoring

  /** `drawn` is an outcome `random.sample` could give for the removal
      count the percentage yields, whenever removal happens and the count is
      a valid sample size. */
  ghost predicate ValidDraw(sequence: string, k: nat, cyclic: bool, percentage: real, drawn: set<string>) {
    var kmers := KmerCounts(sequence, k, cyclic);
    var n := RemoveCount(|kmers|, percentage);
    percentage > 0.0 && 0 <= n <= |kmers| ==> drawn <= KeySet(kmers) && |drawn| == n
  }

  /** The k-mer table after the optional removal step. */
  function Survivors(sequence: string, k: nat, cyclic: bool, percentage: real, drawn: set<string>): (r: Result<Dict<nat>>)
    requires ValidDraw(sequence, k, cyclic, percentage, drawn)
    ensures percentage <= 0.0 ==> r == Ok(KmerCounts(sequence, k, cyclic))
    ensures r.Err? <==> percentage > 0.0 && RemoveCount(|KmerCounts(sequence, k, cyclic)|, percentage) > |KmerCounts(sequence, k, cyclic)|
    ensures r.Err? ==> r.error == InvalidSampleSize
    ensures r.Ok? ==> KeysDistinct(r.value)
    ensures r.Ok? ==> forall e :: e in r.value ==> e in KmerCounts(sequence, k, cyclic)
  {
    var kmers := KmerCounts(sequence, k, cyclic);
    if percentage > 0.0 then RemoveRandomKmers(kmers, percentage, drawn) else Ok(kmers)
  }

  /** The reconstructed sequence of `reconstruct_from_kmers`. */
  function Assemble(sequence: string, k: nat, cyclic: bool, percentage: real, drawn: set<string>): (r: Result<string>)
    requires ValidDraw(sequence, k, cyclic, percentage, drawn)
    ensures Survivors(sequence, k, cyclic, percentage, drawn).Err? ==> r == Err(InvalidSampleSize)
    ensures Survivors(sequence, k, cyclic, percentage, drawn).Ok? ==> r.Ok? || r == Err(IndexError)
  {
    var kmers :- Survivors(sequence, k, cyclic, percentage, drawn);
    ReconstructSequence(EulerianPath(Build(kmers)).0)
  }

  /** `reconstruct_from_kmers(sequence, k, cyclic, remove_percentage)` with
      the default scoring weights. The result pairs the reconstruction with
      the score details (`None` stands for the empty dictionary); the score
      itself is discarded, as in the source. */
  method ReconstructFromKmers(sequence: string, k: nat, cyclic: bool, percentage: real, drawn: set<string>)
    returns (r: Result<(string, Option<Details>)>)
    requires ValidDraw(sequence, k, cyclic, percentage, drawn)
    ensures r.Err? <==> Assemble(sequence, k, cyclic, percentage, drawn).Err?
    ensures r.Err? ==> r.error == Assemble(sequence, k, cyclic, percentage, drawn).error
    ensures r.Ok? ==> r.value.0 == Assemble(sequence, k, cyclic, percentage, drawn).value
    ensures r.Ok? && !cyclic ==> r.value.1 == Some(ScoreLinear(sequence, r.value.0, DefaultWeights).1)
    ensures r.Ok? && cyclic && |r.value.0| == 0 ==> r.value.1 == None
    ensures r.Ok? && cyclic && |r.value.0| > 0 ==> r.value.1.Some? && r.value.1.value.alignment.Circular?
    ensures r.Ok? && cyclic && |r.value.0| > 0 ==>
              var rot := r.value.1.value.alignment.rotation;
              && IsFirstBestRotation(sequence, r.value.0, DefaultWeights, rot)
              && r.value.1.value.alignment.aligned == Rotate(r.value.0, rot)
              && r.value.1.value == AsCircular(ScoreLinear(sequence, Rotate(r.value.0, rot), DefaultWeights).1, rot, Rotate(r.value.0, rot))
  {
    var reconstructed :- Assemble(sequence, k, cyclic, percentage, drawn);
    var score, details := ScoreSequence(sequence, reconstructed, cyclic, DefaultWeights);
    r := Ok((reconstructed, details));
  }

  // ---------------------------------------------------------------------
  // Lengths

  /** The start node is one of the graph's keys. */
  lemma StartNodeIsKey(g: Graph)
    requires |g| > 0
    ensures exists x :: 0 <= x < |g| && StartNode(g) == g[x].0
  {
    var x := FirstSurplus(g, 0);
    if x < |g| {
      assert StartNode(g) == g[x].0;
    } else {
      assert StartNode(g) == g[0].0;
    }
  }

  /** Every node of a traversal result is its start node or an entry of the
      graph, so it has their common length. */
  lemma PathNodeLengths(g: Graph, start: Node, path: seq<Node>, rest: Graph, m: nat)
    requires multiset(path) + Targets(rest) == multiset{start} + Targets(g)
    requires |start| == m
    requires forall v :: v in Targets(g) ==> |v| == m
    ensures forall t :: 0 <= t < |path| ==> |path[t]| == m
  {
    forall t | 0 <= t < |path|
      ensures |path[t]| == m
    {
      assert path[t] in multiset(path);
      assert path[t] in multiset{start} + Targets(g);
    }
  }

  /** With k-mers of one length `k >= 2`, spelling never fails, and the
      spelled sequence is `k - 1` symbols plus one per consumed entry. */
  lemma SpelledLength(kmers: Dict<nat>, k: nat)
    requires k >= 2 && |kmers| > 0
    requires forall i :: 0 <= i < |kmers| ==> |kmers[i].0| == k
    ensures ReconstructSequence(EulerianPath(Build(kmers)).0).Ok?
    ensures |ReconstructSequence(EulerianPath(Build(kmers)).0).value| + Entries(EulerianPath(Build(kmers)).1)
            == k - 1 + Total(kmers)
  {
    var g := Build(kmers);
    BuildNodeLengths(kmers, k);
    BuildEntries(kmers);
    SpellPath(g, k - 1);
  }

  /** In a graph whose nodes all have length `m >= 1`, the path spells
      `m` symbols plus one per consumed entry. */
  lemma SpellPath(g: Graph, m: nat)
    requires m >= 1 && |g| > 0
    requires forall x :: 0 <= x < |g| ==> |g[x].0| == m
    requires forall v :: v in Targets(g) ==> |v| == m
    ensures ReconstructSequence(EulerianPath(g).0).Ok?
    ensures |ReconstructSequence(EulerianPath(g).0).value| + Entries(EulerianPath(g).1) == m + Entries(g)
  {
    StartNodeIsKey(g);
    PathNodeLengths(g, StartNode(g), EulerianPath(g).0, EulerianPath(g).1, m);
  }

  /** `reconstruct_from_kmers` with `2 <= k <= |sequence|`: once the removal
      step succeeds and leaves some k-mer, the reconstruction exists and has
      `k - 1` symbols plus one per surviving k-mer occurrence the traversal
      consumed; it reaches `k - 1 + total` exactly when every occurrence is
      consumed. */
  lemma AssembledLength(sequence: string, k: nat, cyclic: bool, percentage: real, drawn: set<string>)
    requires ValidDraw(sequence, k, cyclic, percentage, drawn)
    requires 2 <= k <= |sequence|
    requires Survivors(sequence, k, cyclic, percentage, drawn).Ok?
    requires |Survivors(sequence, k, cyclic, percentage, drawn).value| > 0
    ensures var kmers := Survivors(sequence, k, cyclic, percentage, drawn).value;
            var rest := EulerianPath(Build(kmers)).1;
            && Assemble(sequence, k, cyclic, percentage, drawn).Ok?
            && |Assemble(sequence, k, cyclic, percentage, drawn).value| + Entries(rest) == k - 1 + Total(kmers)
            && |Assemble(sequence, k, cyclic, percentage, drawn).value| <= k - 1 + Total(kmers)
  {
    var all := KmerCounts(sequence, k, cyclic);
    var kmers := Survivors(sequence, k, cyclic, percentage, drawn).value;
    KmerCountsShape(sequence, k, cyclic);
    forall i | 0 <= i < |kmers|
      ensures |kmers[i].0| == k
    {
      assert kmers[i] in all;
    }
    SpelledLength(kmers, k);
  }

  /** Without removal, a fully consumed cyclic table of `|sequence|`
      windows spells `|sequence| + k - 1` symbols: the path closes the
      cycle, so the first `k - 1` symbols come back at the end. */
  lemma CyclicReconstructionLength(sequence: string, k: nat, drawn: set<string>)
    requires 2 <= k <= |sequence|
    requires Entries(EulerianPath(Build(KmerCounts(sequence, k, true))).1) == 0
    ensures ValidDraw(sequence, k, true, 0.0, drawn)
    ensures Assemble(sequence, k, true, 0.0, drawn).Ok?
    ensures |Assemble(sequence, k, true, 0.0, drawn).value| == |sequence| + k - 1
  {
    var kmers := KmerCounts(sequence, k, true);
    KmerCountsShape(sequence, k, true);
    TotalPositive(kmers, |sequence|);
    AssembledLength(sequence, k, true, 0.0, drawn);
  }

  /** A table whose total is positive is not empty. */
  lemma TotalPositive(kmers: Dict<nat>, n: nat)
    requires Total(kmers) == n && n > 0
    ensures |kmers| > 0
  {
  }

  // ---------------------------------------------------------------------
  // Degenerate runs

  /** Removing 100% of the k-mers leaves an empty graph and an empty
      reconstruction; in cyclic mode the score details are then the empty
      dictionary. */
  lemma FullRemovalReconstructsNothing(sequence: string, k: nat, cyclic: bool)
    ensures ValidDraw(sequence, k, cyclic, 100.0, KeySet(KmerCounts(sequence, k, cyclic)))
    ensures Assemble(sequence, k, cyclic, 100.0, KeySet(KmerCounts(sequence, k, cyclic))) == Ok([])
  {
    var kmers := KmerCounts(sequence, k, cyclic);
    var n := |kmers|;
    assert (n as real) * 100.0 / 100.0 == n as real;
    assert RemoveCount(n, 100.0) == n;
    KeySetSize(kmers);
    FullRemovalEmpties(kmers, KeySet(kmers));
    assert Survivors(sequence, k, cyclic, 100.0, KeySet(kmers)) == Ok([]);
  }

  /** Entries are only ever removed. */
  lemma {:induction false} ShrunkEntries(h: Graph, g: Graph)
    requires Shrunk(h, g)
    ensures Entries(h) <= Entries(g)
    decreases |g|
  {
    if |g| > 0 {
      var n := |g|;
      assert Shrunk(h[..n - 1], g[..n - 1]);
      ShrunkEntries(h[..n - 1], g[..n - 1]);
      assert |h[n - 1].1| <= |g[n - 1].1|;
    }
  }

  /** When the start node has an entry, the traversal consumes it, so the
      path has at least two nodes. */
  lemma FirstStepPops(g: Graph)
    requires |g| > 0
    requires Adj(g, StartNode(g)) != []
    ensures |EulerianPath(g).0| >= 2
  {
    var s := StartNode(g);
    assert CanPop(g, s);
    var p := Pop(g, s);
    TraverseStep(g, [s], []);
    ShrunkEntries(Traverse(p.1, [s] + [p.0], []).1, p.1);
  }

  /** With `k == 1` every node is the empty string: the graph has a single
      node whose list holds every occurrence, the path repeats it, and
      `node[-1]` on the second node raises `IndexError`. */
  lemma SingleSymbolKmersFail(sequence: string, cyclic: bool, drawn: set<string>)
    requires |sequence| >= 1
    ensures ValidDraw(sequence, 1, cyclic, 0.0, drawn)
    ensures Assemble(sequence, 1, cyclic, 0.0, drawn) == Err(IndexError)
  {
    var kmers := KmerCounts(sequence, 1, cyclic);
    KmerCountsShape(sequence, 1, cyclic);
    SingleSymbolGraphFails(kmers, |sequence|);
    assert Survivors(sequence, 1, cyclic, 0.0, drawn) == Ok(kmers);
  }

  /** Spelling the path of a single-symbol table with a positive total
      raises `IndexError`. */
  lemma SingleSymbolGraphFails(kmers: Dict<nat>, n: nat)
    requires Total(kmers) == n && n > 0
    requires forall i :: 0 <= i < |kmers| ==> |kmers[i].0| == 1
    ensures ReconstructSequence(EulerianPath(Build(kmers)).0) == Err(IndexError)
  {
    var g := Build(kmers);
    SingleNode(kmers, n);
    FirstStepPops(g);
    var path, rest := EulerianPath(g).0, EulerianPath(g).1;
    assert |g| > 0 && |path| >= 2;
    PathNodeLengths(g, StartNode(g), path, rest, 0);
    assert 1 < |path| && |path[1]| == 0;
  }

  /** A table of single-symbol k-mers with a positive total builds a graph
      with one node, the empty string, whose list is not empty. */
  lemma SingleNode(kmers: Dict<nat>, n: nat)
    requires Total(kmers) == n && n > 0
    requires forall i :: 0 <= i < |kmers| ==> |kmers[i].0| == 1
    ensures |Build(kmers)| == 1
    ensures StartNode(Build(kmers)) == []
    ensures Adj(Build(kmers), StartNode(Build(kmers))) != []
    ensures forall v :: v in Targets(Build(kmers)) ==> |v| == 0
  {
    TotalPositive(kmers, n);
    var g := Build(kmers);
    BuildNodeLengths(kmers, 1);
    BuildKeys(kmers);
    BuildEntries(kmers);
    assert Entries(g) == Entries(g[..0]) + |g[0].1|;
    StartNodeIsKey(g);
  }

  // ---------------------------------------------------------------------
  // The list-based assembler

  /** `reconstruct_genome(kmers)`: an empty list raises `StopIteration`
      when the start node is chosen; otherwise spelling may still raise
      `IndexError` on an empty node. */
  function ReconstructGenome(kmers: seq<string>): (r: Result<string>)
    ensures r == Err(StopIteration) <==> |kmers| == 0
    ensures r.Err? ==> r.error == StopIteration || r.error == IndexError
  {
    ListEdgesEmpty(kmers);
    var found :- EulerianPathFixed(BuildFromList(kmers).0);
    ReconstructGenomeFromPath(found.0)
  }

  /** With k-mers of one length `k >= 2`, `reconstruct_genome` succeeds and
      spells `k - 1` symbols plus one per consumed list entry. */
  lemma GenomeLength(kmers: seq<string>, k: nat)
    requires k >= 2 && |kmers| > 0
    requires forall i :: 0 <= i < |kmers| ==> |kmers[i]| == k
    ensures ReconstructGenome(kmers).Ok?
    ensures |ReconstructGenome(kmers).value| + Entries(EulerianPathFixed(BuildFromList(kmers).0).value.1) == k - 1 + |kmers|
  {
    var singles := Singles(kmers);
    BuildFromListGraph(kmers);
    BuildNodeLengths(singles, k);
    BuildEntries(singles);
    TotalOfSingles(kmers);
    SpellPathFixed(BuildFromList(kmers).0, k - 1);
  }

  /** The list-based traversal and spelling on a graph whose nodes all have
      length `m >= 1`: `m` symbols plus one per consumed entry. */
  lemma SpellPathFixed(g: Graph, m: nat)
    requires m >= 1 && |g| > 0
    requires forall x :: 0 <= x < |g| ==> |g[x].0| == m
    requires forall v :: v in Targets(g) ==> |v| == m
    ensures EulerianPathFixed(g).Ok?
    ensures ReconstructGenomeFromPath(EulerianPathFixed(g).value.0).Ok?
    ensures |ReconstructGenomeFromPath(EulerianPathFixed(g).value.0).value| + Entries(EulerianPathFixed(g).value.1)
            == m + Entries(g)
  {
    var s := StartNodeFixed(g).value;
    StartNodeIsKey(g);
    assert exists x :: 0 <= x < |g| && s == g[x].0;
    PathNodeLengths(g, s, EulerianPathFixed(g).value.0, EulerianPathFixed(g).value.1, m);
  }
}
