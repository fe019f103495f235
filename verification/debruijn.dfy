/** De Bruijn graph construction: every k-mer is an edge from its prefix
    (all but the last symbol) to its suffix (all but the first symbol); the
    graph is an insertion-ordered adjacency dictionary in which an edge of
    multiplicity m is m repeated list entries. */
module DeBruijn {
  import opened OrderedDict
  import opened Kmers

  type Node = string

  /** Node -> ordered list of successor entries, keys in insertion order. */
  type Graph = Dict<seq<Node>>

  /** Python's `kmer[:-1]`. */
  function Prefix(w: string): (p: Node)
    ensures |w| > 0 ==> |p| == |w| - 1 && p == w[..|w| - 1]
    ensures |w| == 0 ==> p == []
  {
    if |w| == 0 then [] else w[..|w| - 1]
  }

  /** Python's `kmer[1:]`. */
  function Suffix(w: string): (p: Node)
    ensures |w| > 0 ==> |p| == |w| - 1 && p == w[1..]
    ensures |w| == 0 ==> p == []
  {
    if |w| == 0 then [] else w[1..]
  }

  /** Python's `[v] * n`. */
  function Repeat(v: Node, n: nat): (r: seq<Node>)
    ensures |r| == n
    ensures forall i :: 0 <= i < n ==> r[i] == v
  {
    if n == 0 then [] else Repeat(v, n - 1) + [v]
  }

  /** `graph[u]` on a `defaultdict(list)`. */
  function Adj(g: Graph, u: Node): seq<Node> {
    Get(g, u, [])
  }

  /** Total number of adjacency entries. */
  function Entries(g: Graph): nat {
    if |g| == 0 then 0 else Entries(g[..|g| - 1]) + |g[|g| - 1].1|
  }

  /** Every adjacency entry, as a multiset of target nodes. */
  function Targets(g: Graph): multiset<Node> {
    if |g| == 0 then multiset{} else Targets(g[..|g| - 1]) + multiset(g[|g| - 1].1)
  }

  /** Number of entries naming `v` as a target, over all lists. */
  function InDegree(g: Graph, v: Node): nat {
    Targets(g)[v]
  }

  /** `edges[u].extend(vs)` on a `defaultdict(list)`: an absent key is
      created at the end, even when `vs` is empty. */
  function Extend(g: Graph, u: Node, vs: seq<Node>): Graph {
    Put(g, u, Adj(g, u) + vs)
  }

  /** `build_de_bruijn_graph(kmers)` of the dictionary-based assembler. */
  function Build(kmers: Dict<nat>): Graph {
    if |kmers| == 0 then []
    else
      var (w, c) := kmers[|kmers| - 1];
      Extend(Build(kmers[..|kmers| - 1]), Prefix(w), Repeat(Suffix(w), c))
  }

  /** The prefix node of every k-mer, in input order. */
  function Prefixes(kmers: Dict<nat>): (ps: seq<Node>)
    ensures |ps| == |kmers|
    ensures forall i :: 0 <= i < |kmers| ==> ps[i] == Prefix(kmers[i].0)
  {
    if |kmers| == 0 then [] else Prefixes(kmers[..|kmers| - 1]) + [Prefix(kmers[|kmers| - 1].0)]
  }

  /** Reference for one node's list: for each k-mer with prefix `u`, in input
      order, one contiguous block of `count` copies of its suffix. */
  function AdjOf(kmers: Dict<nat>, u: Node): seq<Node> {
    if |kmers| == 0 then []
    else
      var (w, c) := kmers[|kmers| - 1];
      AdjOf(kmers[..|kmers| - 1], u) + (if Prefix(w) == u then Repeat(Suffix(w), c) else [])
  }

  /** `build_de_bruijn_graph(kmers)` of the list-based assembler: one entry
      per input k-mer (duplicates included) and the set of every prefix and
      suffix node. The single loop fills both; here each is its own fold
      over the list. */
  function BuildFromList(kmers: seq<string>): (Graph, set<Node>) {
    (ListEdges(kmers), ListNodes(kmers))
  }

  /** `edges[prefix].append(suffix)` for every k-mer in turn. */
  function ListEdges(kmers: seq<string>): Graph {
    if |kmers| == 0 then []
    else
      var w := kmers[|kmers| - 1];
      Extend(ListEdges(kmers[..|kmers| - 1]), Prefix(w), [Suffix(w)])
  }

  /** `nodes.add(prefix)` and `nodes.add(suffix)` for every k-mer in turn. */
  function ListNodes(kmers: seq<string>): set<Node> {
    if |kmers| == 0 then {}
    else
      var w := kmers[|kmers| - 1];
      ListNodes(kmers[..|kmers| - 1]) + {Prefix(w), Suffix(w)}
  }

  /** Each k-mer of a list with multiplicity one. */
  function Singles(kmers: seq<string>): (d: Dict<nat>)
    ensures |d| == |kmers|
    ensures forall i :: 0 <= i < |kmers| ==> d[i] == (kmers[i], 1)
  {
    if |kmers| == 0 then [] else Singles(kmers[..|kmers| - 1]) + [(kmers[|kmers| - 1], 1)]
  }

  // ---------------------------------------------------------------------

  lemma {:induction false} EntriesUpdate(g: Graph, x: nat, u: Node, l: seq<Node>)
    requires x < |g|
    ensures Entries(g[x := (u, l)]) == Entries(g) - |g[x].1| + |l|
    ensures Targets(g[x := (u, l)]) + multiset(g[x].1) == Targets(g) + multiset(l)
  {
    var n := |g|;
    var g' := g[x := (u, l)];
    if x < n - 1 {
      var pre, pre' := g[..n - 1], g'[..n - 1];
      assert pre' == pre[x := (u, l)];
      EntriesUpdate(pre, x, u, l);
      assert pre[x] == g[x] && g'[n - 1] == g[n - 1];
      calc {
        Targets(g') + multiset(g[x].1);
        Targets(pre') + multiset(g[n - 1].1) + multiset(pre[x].1);
        Targets(pre') + multiset(pre[x].1) + multiset(g[n - 1].1);
        Targets(pre) + multiset(l) + multiset(g[n - 1].1);
        Targets(g) + multiset(l);
      }
    } else {
      assert g'[..n - 1] == g[..n - 1];
    }
  }

  lemma MultisetCancel(a: multiset<Node>, b: multiset<Node>, c: multiset<Node>)
    requires a + c == b + c
    ensures a == b
  {
    forall x
      ensures a[x] == b[x]
    {
      assert (a + c)[x] == (b + c)[x];
    }
  }

  lemma ExtendEntries(g: Graph, u: Node, vs: seq<Node>)
    ensures Entries(Extend(g, u, vs)) == Entries(g) + |vs|
    ensures Targets(Extend(g, u, vs)) == Targets(g) + multiset(vs)
  {
    var x := Find(g, u);
    var g' := Extend(g, u, vs);
    if x < |g| {
      EntriesUpdate(g, x, u, g[x].1 + vs);
      assert multiset(g[x].1 + vs) == multiset(g[x].1) + multiset(vs);
      MultisetCancel(Targets(g'), Targets(g) + multiset(vs), multiset(g[x].1));
    } else {
      assert g'[..|g|] == g;
    }
  }

  lemma ExtendAdj(g: Graph, u: Node, vs: seq<Node>, v: Node)
    ensures Adj(Extend(g, u, vs), v) == Adj(g, v) + (if v == u then vs else [])
  {
    GetPut(g, u, Adj(g, u) + vs, v, []);
  }

  /** One step of the construction: the last k-mer extends the graph built
      from the others. */
  lemma BuildStep(kmers: Dict<nat>)
    requires |kmers| > 0
    ensures var (w, c) := kmers[|kmers| - 1];
            Build(kmers) == Extend(Build(kmers[..|kmers| - 1]), Prefix(w), Repeat(Suffix(w), c))
  {
  }

  lemma {:induction false} BuildKeys(kmers: Dict<nat>)
    ensures KeysDistinct(Build(kmers))
    ensures Keys(Build(kmers)) == Dedup(Prefixes(kmers))
  {
    if |kmers| > 0 {
      var pre := kmers[..|kmers| - 1];
      var (w, c) := kmers[|kmers| - 1];
      BuildKeys(pre);
      BuildStep(kmers);
      var g := Build(pre);
      PutKeys(g, Prefix(w), Adj(g, Prefix(w)) + Repeat(Suffix(w), c));
      assert Prefixes(kmers)[..|kmers| - 1] == Prefixes(pre);
      DedupStep(Prefixes(kmers));
    }
  }

  lemma {:induction false} BuildAdj(kmers: Dict<nat>, u: Node)
    ensures Adj(Build(kmers), u) == AdjOf(kmers, u)
  {
    if |kmers| > 0 {
      var pre := kmers[..|kmers| - 1];
      var (w, c) := kmers[|kmers| - 1];
      BuildAdj(pre, u);
      BuildStep(kmers);
      ExtendAdj(Build(pre), Prefix(w), Repeat(Suffix(w), c), u);
    }
  }

  lemma {:induction false} BuildEntries(kmers: Dict<nat>)
    ensures Entries(Build(kmers)) == Total(kmers)
  {
    if |kmers| > 0 {
      var pre := kmers[..|kmers| - 1];
      var (w, c) := kmers[|kmers| - 1];
      BuildEntries(pre);
      BuildStep(kmers);
      ExtendEntries(Build(pre), Prefix(w), Repeat(Suffix(w), c));
    }
  }

  /** The graph's nodes are the distinct prefixes in first-occurrence order,
      each node's list is the concatenation, in input order, of `count`
      copies of the suffix of every k-mer with that prefix, and the number of
      list entries is the sum of the multiplicities. */
  lemma BuildSpec(kmers: Dict<nat>)
    ensures KeysDistinct(Build(kmers))
    ensures Keys(Build(kmers)) == Dedup(Prefixes(kmers))
    ensures forall u :: Adj(Build(kmers), u) == AdjOf(kmers, u)
    ensures Entries(Build(kmers)) == Total(kmers)
  {
    BuildKeys(kmers);
    BuildEntries(kmers);
    forall u
      ensures Adj(Build(kmers), u) == AdjOf(kmers, u)
    {
      BuildAdj(kmers, u);
    }
  }

  lemma {:induction false} BuildKeyLengths(kmers: Dict<nat>, k: nat)
    requires k >= 1
    requires forall i :: 0 <= i < |kmers| ==> |kmers[i].0| == k
    ensures |kmers| > 0 ==> |Build(kmers)| > 0
    ensures forall x :: 0 <= x < |Build(kmers)| ==> |Build(kmers)[x].0| == k - 1
  {
    if |kmers| > 0 {
      var pre := kmers[..|kmers| - 1];
      var (w, c) := kmers[|kmers| - 1];
      BuildKeyLengths(pre, k);
      var g := Build(pre);
      assert Build(kmers) == Put(g, Prefix(w), Adj(g, Prefix(w)) + Repeat(Suffix(w), c));
    }
  }

  lemma {:induction false} BuildTargetLengths(kmers: Dict<nat>, k: nat)
    requires k >= 1
    requires forall i :: 0 <= i < |kmers| ==> |kmers[i].0| == k
    ensures forall v :: v in Targets(Build(kmers)) ==> |v| == k - 1
  {
    if |kmers| > 0 {
      var pre := kmers[..|kmers| - 1];
      var (w, c) := kmers[|kmers| - 1];
      BuildTargetLengths(pre, k);
      var g := Build(pre);
      var vs := Repeat(Suffix(w), c);
      assert Build(kmers) == Extend(g, Prefix(w), vs);
      ExtendEntries(g, Prefix(w), vs);
      forall v | v in multiset(vs)
        ensures |v| == k - 1
      {
        var i :| 0 <= i < |vs| && vs[i] == v;
      }
    }
  }

  /** When every k-mer has length `k >= 1`, every node of the graph, key or
      target, has length `k - 1`, and a non-empty input gives a non-empty
      graph. */
  lemma BuildNodeLengths(kmers: Dict<nat>, k: nat)
    requires k >= 1
    requires forall i :: 0 <= i < |kmers| ==> |kmers[i].0| == k
    ensures |kmers| > 0 ==> |Build(kmers)| > 0
    ensures forall x :: 0 <= x < |Build(kmers)| ==> |Build(kmers)[x].0| == k - 1
    ensures forall v :: v in Targets(Build(kmers)) ==> |v| == k - 1
  {
    BuildKeyLengths(kmers, k);
    BuildTargetLengths(kmers, k);
  }

  /** Every list entry of `u` is the suffix of a k-mer whose prefix is `u`. */
  lemma {:induction false} AdjOfEntries(kmers: Dict<nat>, u: Node)
    ensures forall v :: v in AdjOf(kmers, u) ==>
              exists i :: 0 <= i < |kmers| && Prefix(kmers[i].0) == u && Suffix(kmers[i].0) == v && kmers[i].1 > 0
  {
    if |kmers| > 0 {
      var pre := kmers[..|kmers| - 1];
      AdjOfEntries(pre, u);
      forall v | v in AdjOf(kmers, u)
        ensures exists i :: 0 <= i < |kmers| && Prefix(kmers[i].0) == u && Suffix(kmers[i].0) == v && kmers[i].1 > 0
      {
        if v in AdjOf(pre, u) {
          var i :| 0 <= i < |pre| && Prefix(pre[i].0) == u && Suffix(pre[i].0) == v && pre[i].1 > 0;
          assert kmers[i] == pre[i];
        } else {
          assert kmers[|kmers| - 1].1 > 0;
        }
      }
    }
  }

  lemma {:induction false} TotalOfSingles(kmers: seq<string>)
    ensures Total(Singles(kmers)) == |kmers|
  {
    if |kmers| > 0 {
      TotalOfSingles(kmers[..|kmers| - 1]);
      assert Singles(kmers)[..|kmers| - 1] == Singles(kmers[..|kmers| - 1]);
    }
  }

  lemma {:induction false} BuildFromListGraph(kmers: seq<string>)
    ensures ListEdges(kmers) == Build(Singles(kmers))
  {
    if |kmers| > 0 {
      var pre := kmers[..|kmers| - 1];
      var w := kmers[|kmers| - 1];
      BuildFromListGraph(pre);
      assert Singles(kmers)[..|kmers| - 1] == Singles(pre);
      assert Repeat(Suffix(w), 1) == [Suffix(w)];
    }
  }

  /** Some k-mer of the list has `v` as its prefix or suffix. */
  ghost predicate EndOf(kmers: seq<string>, v: Node) {
    exists i :: 0 <= i < |kmers| && (v == Prefix(kmers[i]) || v == Suffix(kmers[i]))
  }

  /** A k-mer list's ends are the ends of all but its last k-mer, plus the
      last k-mer's prefix and suffix. */
  lemma EndOfStep(kmers: seq<string>, v: Node)
    requires |kmers| > 0
    ensures EndOf(kmers, v) <==>
              EndOf(kmers[..|kmers| - 1], v) || v == Prefix(kmers[|kmers| - 1]) || v == Suffix(kmers[|kmers| - 1])
  {
    var pre := kmers[..|kmers| - 1];
    if EndOf(kmers, v) {
      var i :| 0 <= i < |kmers| && (v == Prefix(kmers[i]) || v == Suffix(kmers[i]));
      if i < |pre| {
        assert pre[i] == kmers[i];
      }
    }
    if EndOf(pre, v) {
      var i :| 0 <= i < |pre| && (v == Prefix(pre[i]) || v == Suffix(pre[i]));
      assert kmers[i] == pre[i];
    }
  }

  lemma {:induction false} BuildFromListNodes(kmers: seq<string>)
    ensures forall v :: v in ListNodes(kmers) <==> EndOf(kmers, v)
  {
    if |kmers| > 0 {
      BuildFromListNodes(kmers[..|kmers| - 1]);
      forall v
        ensures v in ListNodes(kmers) <==> EndOf(kmers, v)
      {
        EndOfStep(kmers, v);
      }
    }
  }

  /** The list-based graph is empty exactly when the list is. */
  lemma ListEdgesEmpty(kmers: seq<string>)
    ensures |BuildFromList(kmers).0| == 0 <==> |kmers| == 0
  {
    if |kmers| > 0 {
      var pre, w := kmers[..|kmers| - 1], kmers[|kmers| - 1];
      var g := ListEdges(pre);
      assert ListEdges(kmers) == Put(g, Prefix(w), Adj(g, Prefix(w)) + [Suffix(w)]);
    }
  }

  /** The list-based builder is the dictionary-based one applied to the
      k-mers with multiplicity one each; it has one entry per input k-mer,
      and its node set holds exactly the prefixes and suffixes. */
  lemma BuildFromListSpec(kmers: seq<string>)
    ensures BuildFromList(kmers).0 == Build(Singles(kmers))
    ensures Entries(BuildFromList(kmers).0) == |kmers|
    ensures forall v :: v in BuildFromList(kmers).1 <==> EndOf(kmers, v)
  {
    BuildFromListGraph(kmers);
    BuildSpec(Singles(kmers));
    TotalOfSingles(kmers);
    BuildFromListNodes(kmers);
  }
}
