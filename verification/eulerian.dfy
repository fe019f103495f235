/** Start-node choice and the iterative Hierholzer traversal
    (`find_eulerian_path`, two variants). The traversal consumes adjacency
    entries destructively, popping from the end of a node's list; the graph
    left behind is returned alongside the path, since the source mutates its
    argument in place. */
module Eulerian {
  import opened OrderedDict
  import opened Wrappers
  import opened DeBruijn

  /** `h` is `g` after some entries were popped off the ends of its lists. */
  ghost predicate Shrunk(h: Graph, g: Graph) {
    && |h| == |g|
    && forall x :: 0 <= x < |g| ==> h[x].0 == g[x].0 && h[x].1 <= g[x].1
  }

  ghost predicate HasSurplus(g: Graph, x: int)
    requires 0 <= x < |g|
  {
    |g[x].1| > InDegree(g, g[x].0)
  }

  /** Index of the first key, in insertion order, whose out-degree exceeds
      its in-degree, or `|g|` when there is none. */
  function FirstSurplus(g: Graph, from: nat): (x: nat)
    requires from <= |g|
    ensures from <= x <= |g|
    ensures x < |g| ==> HasSurplus(g, x)
    ensures forall i :: from <= i < x ==> !HasSurplus(g, i)
    decreases |g| - from
  {
    if from == |g| then |g|
    else if |g[from].1| > InDegree(g, g[from].0) then from
    else FirstSurplus(g, from + 1)
  }

  /** Start node of the dictionary-based assembler: the first key with
      out-degree > in-degree, else the first key. */
  function StartNode(g: Graph): (s: Node)
    requires |g| > 0
    ensures forall x :: 0 <= x < |g| && HasSurplus(g, x) && (forall i :: 0 <= i < x ==> !HasSurplus(g, i)) ==> s == g[x].0
    ensures (forall i :: 0 <= i < |g| ==> !HasSurplus(g, i)) ==> s == g[0].0
  {
    var x := FirstSurplus(g, 0);
    if x < |g| then g[x].0 else g[0].0
  }

  /** Start node of the list-based assembler: as `StartNode`, but a falsy
      candidate (the empty-string node) also falls back to the first key, and
      an empty graph raises `StopIteration`. */
  function StartNodeFixed(g: Graph): (r: Result<Node>)
    ensures r.Err? <==> |g| == 0
    ensures r.Err? ==> r.error == StopIteration
    ensures |g| > 0 ==> r.value == (if StartNode(g) == [] then g[0].0 else StartNode(g))
  {
    var x := FirstSurplus(g, 0);
    if x < |g| && g[x].0 != [] then Ok(g[x].0)
    else if |g| == 0 then Err(StopIteration)
    else Ok(g[0].0)
  }

  /** The node `u` has a list with an entry left to pop. */
  predicate CanPop(g: Graph, u: Node) {
    Find(g, u) < |g| && |g[Find(g, u)].1| > 0
  }

  /** `graph[u].pop()`: the popped entry, and the graph without it. */
  function Pop(g: Graph, u: Node): (r: (Node, Graph))
    requires CanPop(g, u)
    ensures Entries(r.1) + 1 == Entries(g)
    ensures Targets(r.1) + multiset{r.0} == Targets(g)
    ensures |r.1| == |g| && forall y :: 0 <= y < |g| ==> r.1[y].0 == g[y].0 && r.1[y].1 <= g[y].1
    ensures var x := Find(g, u);
            && r.0 == g[x].1[|g[x].1| - 1]
            && r.1[x] == (u, g[x].1[..|g[x].1| - 1])
            && forall y :: 0 <= y < |g| && y != x ==> r.1[y] == g[y]
  {
    var x := Find(g, u);
    var adj := g[x].1;
    EntriesUpdate(g, x, u, adj[..|adj| - 1]);
    PopTargets(g, x, u);
    (adj[|adj| - 1], g[x := (u, adj[..|adj| - 1])])
  }

  /** The Hierholzer loop from state (graph, stack, path): while the stack is
      non-empty, look at its top; pop an entry off the top's list and push
      it, or, when the list is empty (or the node has no list), move the top
      to the front of the path. */
  function Traverse(g: Graph, stack: seq<Node>, path: seq<Node>): (r: (seq<Node>, Graph))
    ensures Shrunk(r.1, g)
    ensures |r.0| + Entries(r.1) == |path| + |stack| + Entries(g)
    decreases Entries(g), |stack|
  {
    if |stack| == 0 then (path, g)
    else
      var u := stack[|stack| - 1];
      if CanPop(g, u) then
        var p := Pop(g, u);
        var r := Traverse(p.1, stack + [p.0], path);
        ShrunkTrans(r.1, p.1, g);
        r
      else
        Traverse(g, stack[..|stack| - 1], [u] + path)
  }

  /** One iteration of the loop. */
  lemma TraverseStep(g: Graph, stack: seq<Node>, path: seq<Node>)
    requires |stack| > 0
    ensures var u := stack[|stack| - 1];
            Traverse(g, stack, path) ==
              if CanPop(g, u) then Traverse(Pop(g, u).1, stack + [Pop(g, u).0], path)
              else Traverse(g, stack[..|stack| - 1], [u] + path)
  {
  }

  /** The `while stack:` loop itself, mutating a local graph, stack and
      path: it ends in the state the recursive `Traverse` describes, with
      the start node heading the path. */
  method TraverseLoop(g: Graph, start: Node) returns (path: seq<Node>, left: Graph)
    ensures (path, left) == Traverse(g, [start], [])
    ensures |path| > 0 && path[0] == start
    ensures Shrunk(left, g)
  {
    var graph, stack := g, [start];
    path := [];
    while |stack| > 0
      invariant Traverse(graph, stack, path) == Traverse(g, [start], [])
      decreases Entries(graph), |stack|
    {
      TraverseStep(graph, stack, path);
      var u := stack[|stack| - 1];
      if CanPop(graph, u) {
        var p := Pop(graph, u);
        graph, stack := p.1, stack + [p.0];
      } else {
        stack, path := stack[..|stack| - 1], [u] + path;
      }
    }
    left := graph;
    TraverseHead(g, [start], []);
  }

  /** The bottom of the stack heads the path. */
  lemma {:induction false} TraverseHead(g: Graph, stack: seq<Node>, path: seq<Node>)
    ensures |stack| > 0 ==> |Traverse(g, stack, path).0| > 0 && Traverse(g, stack, path).0[0] == stack[0]
    ensures |stack| == 0 ==> Traverse(g, stack, path).0 == path
    decreases Entries(g), |stack|
  {
    if |stack| > 0 {
      var u := stack[|stack| - 1];
      TraverseStep(g, stack, path);
      if CanPop(g, u) {
        var p := Pop(g, u);
        TraverseHead(p.1, stack + [p.0], path);
      } else {
        var rest := stack[..|stack| - 1];
        TraverseHead(g, rest, [u] + path);
        if |rest| > 0 {
          assert rest[0] == stack[0];
        }
      }
    }
  }

  /** The path only ever grows at the front. */
  lemma {:induction false} TraverseKeepsPath(g: Graph, stack: seq<Node>, path: seq<Node>)
    ensures |path| <= |Traverse(g, stack, path).0|
    ensures Traverse(g, stack, path).0[|Traverse(g, stack, path).0| - |path|..] == path
    decreases Entries(g), |stack|
  {
    if |stack| > 0 {
      var u := stack[|stack| - 1];
      TraverseStep(g, stack, path);
      if CanPop(g, u) {
        var p := Pop(g, u);
        TraverseKeepsPath(p.1, stack + [p.0], path);
      } else {
        var path' := [u] + path;
        TraverseKeepsPath(g, stack[..|stack| - 1], path');
        var r := Traverse(g, stack[..|stack| - 1], path').0;
        assert r[|r| - |path|..] == path'[1..];
      }
    }
  }

  /** The bottom of the stack heads the path, and the path only ever grows
      at the front. */
  lemma TraverseShape(g: Graph, stack: seq<Node>, path: seq<Node>)
    ensures |stack| > 0 ==> |Traverse(g, stack, path).0| > 0 && Traverse(g, stack, path).0[0] == stack[0]
    ensures |stack| == 0 ==> Traverse(g, stack, path).0 == path
    ensures |path| <= |Traverse(g, stack, path).0|
    ensures Traverse(g, stack, path).0[|Traverse(g, stack, path).0| - |path|..] == path
  {
    TraverseHead(g, stack, path);
    TraverseKeepsPath(g, stack, path);
  }

  /** Every node pushed (the stack's contents plus each popped entry) ends up
      in the path exactly once. */
  lemma {:induction false} TraverseConserves(g: Graph, stack: seq<Node>, path: seq<Node>)
    ensures multiset(Traverse(g, stack, path).0) + Targets(Traverse(g, stack, path).1)
            == multiset(path) + multiset(stack) + Targets(g)
    decreases Entries(g), |stack|
  {
    if |stack| > 0 {
      var u := stack[|stack| - 1];
      TraverseStep(g, stack, path);
      if CanPop(g, u) {
        var p := Pop(g, u);
        TraverseConserves(p.1, stack + [p.0], path);
        DropLastMultiset(stack + [p.0]);
        assert (stack + [p.0])[..|stack|] == stack;
        Regroup(multiset(path), multiset(stack), multiset{p.0}, Targets(p.1), Targets(g));
      } else {
        var rest := stack[..|stack| - 1];
        TraverseConserves(g, rest, [u] + path);
        DropLastMultiset(stack);
        assert multiset([u] + path) == multiset{u} + multiset(path);
        Rotate3(multiset(path), multiset(rest), multiset{u}, Targets(g));
      }
    }
  }

  /** `find_eulerian_path` of the dictionary-based assembler, with the graph
      it leaves behind: an empty graph yields an empty path. */
  function EulerianPath(g: Graph): (r: (seq<Node>, Graph))
    ensures |g| == 0 ==> r.0 == []
    ensures |g| > 0 ==> |r.0| > 0 && r.0[0] == StartNode(g)
    ensures |g| > 0 ==> |r.0| == Entries(g) - Entries(r.1) + 1
    ensures |g| > 0 ==> multiset(r.0) + Targets(r.1) == multiset{StartNode(g)} + Targets(g)
    ensures Shrunk(r.1, g)
  {
    if |g| == 0 then ([], g)
    else
      TraverseShape(g, [StartNode(g)], []);
      TraverseConserves(g, [StartNode(g)], []);
      Traverse(g, [StartNode(g)], [])
  }

  /** `find_eulerian_path` of the list-based assembler. */
  function EulerianPathFixed(g: Graph): (r: Result<(seq<Node>, Graph)>)
    ensures r.Err? <==> |g| == 0
    ensures r.Ok? ==> |r.value.0| > 0 && r.value.0[0] == StartNodeFixed(g).value
    ensures r.Ok? ==> |r.value.0| == Entries(g) - Entries(r.value.1) + 1
    ensures r.Ok? ==> multiset(r.value.0) + Targets(r.value.1) == multiset{StartNodeFixed(g).value} + Targets(g)
    ensures r.Ok? ==> Shrunk(r.value.1, g)
  {
    var s :- StartNodeFixed(g);
    TraverseShape(g, [s], []);
    TraverseConserves(g, [s], []);
    Ok(Traverse(g, [s], []))
  }

  // ---------------------------------------------------------------------

  lemma PopTargets(g: Graph, x: nat, u: Node)
    requires x < |g| && |g[x].1| > 0
    ensures Targets(g[x := (u, g[x].1[..|g[x].1| - 1])]) + multiset{g[x].1[|g[x].1| - 1]} == Targets(g)
  {
    var adj := g[x].1;
    var l := adj[..|adj| - 1];
    EntriesUpdate(g, x, u, l);
    DropLastMultiset(adj);
    CancelKept(Targets(g[x := (u, l)]), Targets(g), multiset(adj), multiset(l), multiset{adj[|adj| - 1]});
  }

  lemma DropLastMultiset<T>(s: seq<T>)
    requires |s| > 0
    ensures multiset(s) == multiset(s[..|s| - 1]) + multiset{s[|s| - 1]}
  {
    assert s == s[..|s| - 1] + [s[|s| - 1]];
  }

  /** Moving one element between the parts of a three-part union. */
  lemma Regroup<T>(a: multiset<T>, b: multiset<T>, c: multiset<T>, d: multiset<T>, e: multiset<T>)
    requires d + c == e
    ensures a + (b + c) + d == a + b + e
  {
  }

  lemma Rotate3<T>(a: multiset<T>, b: multiset<T>, c: multiset<T>, d: multiset<T>)
    ensures (c + a) + b + d == a + (b + c) + d
  {
  }

  lemma CancelKept<T>(after: multiset<T>, before: multiset<T>, full: multiset<T>, kept: multiset<T>, one: multiset<T>)
    requires after + full == before + kept && full == kept + one
    ensures after + one == before
  {
    forall e
      ensures (after + one)[e] == before[e]
    {
      assert (after + full)[e] == (before + kept)[e];
    }
  }

  lemma ShrunkTrans(a: Graph, b: Graph, c: Graph)
    requires Shrunk(a, b)
    requires |b| == |c| && forall x :: 0 <= x < |c| ==> b[x].0 == c[x].0 && b[x].1 <= c[x].1
    ensures Shrunk(a, c)
  {
    forall x | 0 <= x < |c|
      ensures a[x].1 <= c[x].1
    {
      assert a[x].1 == b[x].1[..|a[x].1|];
    }
  }

  /** The two variants agree whenever the first variant's start node is not
      the empty string; they differ only on a falsy start and on the empty
      graph. */
  lemma FixedAgreesWithDict(g: Graph)
    requires |g| > 0 && StartNode(g) != []
    ensures EulerianPathFixed(g) == Ok(EulerianPath(g))
  {
  }

  /** On a graph that is not Eulerian the path need not be a walk: with
      `a -> [b, c]` the traversal returns `a, b, c`, yet `b` has no edge to `c`. */
  lemma NonEulerianPathIsNotAWalk()
    ensures EulerianPath([("a", ["b", "c"])]).0 == ["a", "b", "c"]
    ensures Adj([("a", ["b", "c"])], "b") == []
  {
    var g: Graph := [("a", ["b", "c"])];
    ExampleStart();
    ExampleRun();
  }

  lemma ExampleStart()
    ensures StartNode([("a", ["b", "c"])]) == "a"
  {
    var g: Graph := [("a", ["b", "c"])];
    assert Targets(g) == Targets(g[..0]) + multiset(["b", "c"]);
    assert InDegree(g, "a") == 0;
  }

  lemma ExampleRun()
    ensures Traverse([("a", ["b", "c"])], ["a"], []).0 == ["a", "b", "c"]
  {
    ExampleStep1();
    ExampleStep2();
    ExampleStep3();
    ExampleStep4();
    ExampleStep5();
  }

  lemma ExampleStep1()
    ensures Traverse([("a", ["b", "c"])], ["a"], []) == Traverse([("a", ["b"])], ["a", "c"], [])
  {
    var g: Graph := [("a", ["b", "c"])];
    assert Find(g, "a") == 0;
    assert ["b", "c"][..1] == ["b"];
    assert g[0 := ("a", ["b", "c"][..1])] == [("a", ["b"])];
    assert ["a"] + [["b", "c"][1]] == ["a", "c"];
  }

  lemma ExampleStep2()
    ensures Traverse([("a", ["b"])], ["a", "c"], []) == Traverse([("a", ["b"])], ["a"], ["c"])
  {
    var g1: Graph := [("a", ["b"])];
    assert Find(g1, "c") == 1;
    assert ["a", "c"][..1] == ["a"];
    assert ["c"] + [] == ["c"];
  }

  lemma ExampleStep3()
    ensures Traverse([("a", ["b"])], ["a"], ["c"]) == Traverse([("a", [])], ["a", "b"], ["c"])
  {
    var g1: Graph := [("a", ["b"])];
    assert Find(g1, "a") == 0;
    assert g1[0 := ("a", ["b"][..0])] == [("a", [])];
    assert ["a"] + [["b"][0]] == ["a", "b"];
  }

  lemma ExampleStep4()
    ensures Traverse([("a", [])], ["a", "b"], ["c"]) == Traverse([("a", [])], ["a"], ["b", "c"])
  {
    var g2: Graph := [("a", [])];
    assert Find(g2, "b") == 1;
    assert ["a", "b"][..1] == ["a"];
    assert ["b"] + ["c"] == ["b", "c"];
  }

  lemma ExampleStep5()
    ensures Traverse([("a", [])], ["a"], ["b", "c"]).0 == ["a", "b", "c"]
  {
    var g2: Graph := [("a", [])];
    assert Find(g2, "a") == 0;
    assert ["a"][..0] == [];
    assert ["a"] + ["b", "c"] == ["a", "b", "c"];
  }
}
