/** Folding a node path back into a string (`reconstruct_sequence` and
    `reconstruct_genome_from_path`): the first node in full, then the last
    symbol of every later node. */
module Reconstruct {
  import opened Wrappers
  import opened DeBruijn

  /** `''.join(node[-1] for node in nodes)`; `node[-1]` raises on "". */
  function LastChars(nodes: seq<Node>): (r: Result<string>)
    ensures r.Ok? <==> forall t :: 0 <= t < |nodes| ==> |nodes[t]| > 0
    ensures r.Err? ==> r.error == IndexError
    ensures r.Ok? ==> |r.value| == |nodes|
    ensures r.Ok? ==> forall t :: 0 <= t < |nodes| ==> r.value[t] == nodes[t][|nodes[t]| - 1]
  {
    if |nodes| == 0 then Ok([])
    else if |nodes[0]| == 0 then Err(IndexError)
    else
      var rest :- LastChars(nodes[1..]);
      Ok([nodes[0][|nodes[0]| - 1]] + rest)
  }

  /** `reconstruct_sequence(path)` of the dictionary-based assembler. */
  function ReconstructSequence(path: seq<Node>): (r: Result<string>)
    ensures |path| == 0 ==> r == Ok([])
    ensures r.Err? <==> exists t :: 1 <= t < |path| && |path[t]| == 0
    ensures r.Err? ==> r.error == IndexError
    ensures r.Ok? && |path| > 0 ==> |r.value| == |path[0]| + |path| - 1
    ensures r.Ok? && |path| > 0 ==> r.value[..|path[0]|] == path[0]
    ensures r.Ok? && |path| > 0 ==>
              forall t :: 1 <= t < |path| ==> r.value[|path[0]| + t - 1] == path[t][|path[t]| - 1]
  {
    if |path| == 0 then Ok([])
    else
      var tail :- LastChars(path[1..]);
      Ok(path[0] + tail)
  }

  /** `reconstruct_genome_from_path(path)` of the list-based assembler:
      `path[0]` raises on an empty path; otherwise the same fold. */
  function ReconstructGenomeFromPath(path: seq<Node>): (r: Result<string>)
    ensures |path| == 0 ==> r == Err(IndexError)
    ensures |path| > 0 ==> r == ReconstructSequence(path)
  {
    if |path| == 0 then Err(IndexError)
    else
      var tail :- LastChars(path[1..]);
      Ok(path[0] + tail)
  }

  /** The windows of length `m` of `t`, in order: the node path that spells `t`. */
  function SlidingNodes(t: string, m: nat): (ns: seq<Node>)
    requires 1 <= m <= |t|
    ensures |ns| == |t| - m + 1
    ensures forall i :: 0 <= i < |ns| ==> ns[i] == t[i..i + m]
  {
    seq(|t| - m + 1, i requires 0 <= i < |t| - m + 1 => t[i..i + m])
  }

  /** Round trip: folding the consecutive length-m windows of a string gives
      the string back. */
  lemma ReconstructSlidingNodes(t: string, m: nat)
    requires 1 <= m <= |t|
    ensures ReconstructSequence(SlidingNodes(t, m)) == Ok(t)
  {
    var ns := SlidingNodes(t, m);
    var r := ReconstructSequence(ns);
    assert r.Ok?;
    var s := r.value;
    assert |s| == |t|;
    forall i | 0 <= i < |t|
      ensures s[i] == t[i]
    {
      if i < m {
        assert s[..m][i] == ns[0][i];
      } else {
        var idx := i - m + 1;
        assert s[m + idx - 1] == ns[idx][m - 1];
      }
    }
    assert s == t;
  }
}
