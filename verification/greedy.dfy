/** The greedy overlap merger (`find_overlap`, `assemble_genome`): repeatedly
    merge the first ordered pair of contigs with the strictly largest
    suffix/prefix overlap (at most k), until one contig remains or no pair
    overlaps. Contigs are removed with `Vec::swap_remove`, which moves the
    last element into the vacated slot; this changes which contig the second
    removal takes. Strings are ASCII, so byte slicing is sequence slicing. */
module Greedy {
  import opened Wrappers
  import opened Arith

  /** The last `i` symbols of `a` are the first `i` symbols of `b`. */
  ghost predicate SuffixPrefix(a: string, b: string, i: nat) {
    i <= |a| && i <= |b| && a[|a| - i..] == b[..i]
  }

  /** Try overlap lengths `i, i - 1, ..., 1`; 0 when none fits. */
  function OverlapFrom(a: string, b: string, i: nat): (r: nat)
    requires i <= |a| && i <= |b|
    ensures r <= i
    ensures r > 0 ==> SuffixPrefix(a, b, r)
    ensures forall j :: r < j <= i ==> !SuffixPrefix(a, b, j)
  {
    if i == 0 then 0
    else if a[|a| - i..] == b[..i] then i
    else OverlapFrom(a, b, i - 1)
  }

  /** `find_overlap(seq1, seq2, k)`: the longest suffix of `a` that is a
      prefix of `b`, of length at most `k`, or 0. */
  function FindOverlap(a: string, b: string, k: nat): (r: nat)
    ensures r <= k && r <= |a| && r <= |b|
    ensures r > 0 ==> SuffixPrefix(a, b, r)
    ensures forall j :: r < j <= k ==> !SuffixPrefix(a, b, j)
  {
    OverlapFrom(a, b, Min(k, Min(|a|, |b|)))
  }

  // ---------------------------------------------------------------------
  // Pair search

  /** Pair (a, b) comes before (i, j) in the row-major scan. */
  predicate Before(a: int, b: int, i: int, j: int) {
    a < i || (a == i && b < j)
  }

  ghost predicate OrderedPair(cs: seq<string>, a: int, b: int) {
    0 <= a < |cs| && 0 <= b < |cs| && a != b
  }

  /** The scan state after visiting every pair before (i, j): `best` is the
      largest overlap seen, and (bi, bj) the first pair reaching it, or
      (0, 0) while nothing positive has been seen. */
  ghost predicate BestSoFar(cs: seq<string>, k: nat, best: nat, bi: nat, bj: nat, i: int, j: int) {
    && (forall a, b :: OrderedPair(cs, a, b) && Before(a, b, i, j) ==> FindOverlap(cs[a], cs[b], k) <= best)
    && (best == 0 ==> bi == 0 && bj == 0)
    && (best > 0 ==>
          && OrderedPair(cs, bi, bj) && Before(bi, bj, i, j)
          && FindOverlap(cs[bi], cs[bj], k) == best
          && forall a, b :: OrderedPair(cs, a, b) && Before(a, b, bi, bj) ==> FindOverlap(cs[a], cs[b], k) < best)
  }

  /** The outcome of the full scan. */
  ghost predicate IsFirstBest(cs: seq<string>, k: nat, best: nat, bi: nat, bj: nat) {
    BestSoFar(cs, k, best, bi, bj, |cs|, 0)
  }

  /** The nested `for` loops of `assemble_genome` that choose the pair. */
  method BestPair(cs: seq<string>, k: nat) returns (best: nat, bi: nat, bj: nat)
    ensures IsFirstBest(cs, k, best, bi, bj)
  {
    best, bi, bj := 0, 0, 0;
    var i := 0;
    while i < |cs|
      invariant 0 <= i <= |cs|
      invariant BestSoFar(cs, k, best, bi, bj, i, 0)
    {
      var j := 0;
      while j < |cs|
        invariant 0 <= j <= |cs|
        invariant BestSoFar(cs, k, best, bi, bj, i, j)
      {
        if i != j {
          var overlap := FindOverlap(cs[i], cs[j], k);
          if overlap > best {
            ScanTake(cs, k, best, bi, bj, i, j);
            best, bi, bj := overlap, i, j;
          } else {
            ScanKeep(cs, k, best, bi, bj, i, j);
          }
        } else {
          ScanKeep(cs, k, best, bi, bj, i, j);
        }
        j := j + 1;
      }
      ScanRow(cs, k, best, bi, bj, i);
      i := i + 1;
    }
  }

  lemma ScanKeep(cs: seq<string>, k: nat, best: nat, bi: nat, bj: nat, i: nat, j: nat)
    requires i < |cs| && j < |cs|
    requires BestSoFar(cs, k, best, bi, bj, i, j)
    requires i != j ==> FindOverlap(cs[i], cs[j], k) <= best
    ensures BestSoFar(cs, k, best, bi, bj, i, j + 1)
  {
    forall a, b | OrderedPair(cs, a, b) && Before(a, b, i, j + 1)
      ensures FindOverlap(cs[a], cs[b], k) <= best
    {
      if a == i && b == j {
      } else {
        assert Before(a, b, i, j);
      }
    }
  }

  lemma ScanTake(cs: seq<string>, k: nat, best: nat, bi: nat, bj: nat, i: nat, j: nat)
    requires OrderedPair(cs, i, j)
    requires BestSoFar(cs, k, best, bi, bj, i, j)
    requires FindOverlap(cs[i], cs[j], k) > best
    ensures BestSoFar(cs, k, FindOverlap(cs[i], cs[j], k), i, j, i, j + 1)
  {
    var top := FindOverlap(cs[i], cs[j], k);
    forall a, b | OrderedPair(cs, a, b) && Before(a, b, i, j + 1)
      ensures FindOverlap(cs[a], cs[b], k) <= top
    {
      if a == i && b == j {
      } else {
        assert Before(a, b, i, j);
      }
    }
  }

  lemma ScanRow(cs: seq<string>, k: nat, best: nat, bi: nat, bj: nat, i: nat)
    requires BestSoFar(cs, k, best, bi, bj, i, |cs|)
    ensures BestSoFar(cs, k, best, bi, bj, i + 1, 0)
  {
    forall a, b | OrderedPair(cs, a, b) && Before(a, b, i + 1, 0)
      ensures FindOverlap(cs[a], cs[b], k) <= best
    {
      assert Before(a, b, i, |cs|);
    }
  }

  /** The scan's outcome is determined by the contigs. */
  lemma FirstBestUnique(cs: seq<string>, k: nat, b1: nat, i1: nat, j1: nat, b2: nat, i2: nat, j2: nat)
    requires IsFirstBest(cs, k, b1, i1, j1)
    requires IsFirstBest(cs, k, b2, i2, j2)
    ensures b1 == b2 && i1 == i2 && j1 == j2
  {
    if b1 > 0 {
      assert FindOverlap(cs[i1], cs[j1], k) <= b2;
    }
    if b2 > 0 {
      assert FindOverlap(cs[i2], cs[j2], k) <= b1;
    }
  }

  // ---------------------------------------------------------------------
  // Removal and merging

  /** `Vec::swap_remove(x)`: take element x out and move the last element
      into its place. */
  function SwapRemove(v: seq<string>, x: nat): (r: (string, seq<string>))
    requires x < |v|
    ensures r.0 == v[x]
    ensures |r.1| == |v| - 1
    ensures forall y :: 0 <= y < |r.1| ==> r.1[y] == (if y == x then v[|v| - 1] else v[y])
    ensures multiset(r.1) + multiset{r.0} == multiset(v)
  {
    var last := |v| - 1;
    if x == last then
      assert v == v[..x] + [v[x]];
      (v[x], v[..x])
    else
      var front, middle := v[..x], v[x + 1..last];
      assert v == front + [v[x]] + middle + [v[last]];
      assert multiset(v) == multiset(front) + multiset{v[x]} + multiset(middle) + multiset{v[last]};
      (v[x], front + [v[last]] + middle)
  }

  /** Two single removals make one removal of both. */
  lemma RemoveTwice(a: multiset<string>, b: multiset<string>, c: multiset<string>, x: string, y: string)
    requires a + multiset{x} == b && b + multiset{y} == c
    ensures a + multiset{y, x} == c
  {
    assert multiset{y, x} == multiset{x} + multiset{y};
  }

  /** The two removals of the merge step as written: `swap_remove(i)`,
      then `swap_remove(j - 1)` when i < j (else `swap_remove(j)`) on the
      shortened vector. The second removal takes contigs[j] when j < i, the
      old last contig when j == i + 1, and contigs[j - 1] when j > i + 1; so
      for i < j it takes contigs[j] only when j is both i + 1 and the last
      index. */
  function SecondRemoval(cs: seq<string>, i: nat, j: nat): (r: (string, seq<string>))
    requires OrderedPair(cs, i, j)
    ensures r.0 == (if j < i then cs[j] else if j == i + 1 then cs[|cs| - 1] else cs[j - 1])
    ensures |r.1| == |cs| - 2
    ensures multiset(r.1) + multiset{cs[i], r.0} == multiset(cs)
  {
    var first := SwapRemove(cs, i).1;
    var y := if i < j then j - 1 else j;
    assert first[y] == if j < i then cs[j] else if j == i + 1 then cs[|cs| - 1] else cs[j - 1];
    var second := SwapRemove(first, y);
    RemoveTwice(multiset(second.1), multiset(first), multiset(cs), second.0, cs[i]);
    second
  }

  /** The merge step exactly as written: the two removals above, then push
      `contig1 ++ contig2[overlap..]`, which panics when contig2 is shorter
      than the overlap. */
  function MergeAsWritten(cs: seq<string>, i: nat, j: nat, overlap: nat): (r: Result<seq<string>>)
    requires OrderedPair(cs, i, j)
    ensures r.Err? <==> |SecondRemoval(cs, i, j).0| < overlap
    ensures r.Err? ==> r.error == SliceOutOfRange
    ensures r.Ok? ==> |r.value| == |cs| - 1
    ensures r.Ok? ==> r.value[|r.value| - 1] == cs[i] + SecondRemoval(cs, i, j).0[overlap..]
    ensures r.Ok? ==> multiset(r.value) + multiset{cs[i], SecondRemoval(cs, i, j).0}
                      == multiset(cs) + multiset{cs[i] + SecondRemoval(cs, i, j).0[overlap..]}
  {
    var second := SecondRemoval(cs, i, j);
    if |second.0| < overlap then Err(SliceOutOfRange)
    else Ok(second.1 + [cs[i] + second.0[overlap..]])
  }

  /** The evident intent: remove contigs i and j (the larger index first, so
      the smaller one is not displaced) and push `cs[i] ++ cs[j][overlap..]`. */
  function MergeIntended(cs: seq<string>, i: nat, j: nat, overlap: nat): (r: seq<string>)
    requires OrderedPair(cs, i, j)
    requires overlap <= |cs[j]|
    ensures |r| == |cs| - 1
    ensures r[|r| - 1] == cs[i] + cs[j][overlap..]
    ensures multiset(r) + multiset{cs[i], cs[j]} == multiset(cs) + multiset{cs[i] + cs[j][overlap..]}
  {
    var rest := RemoveBoth(cs, i, j);
    var merged := cs[i] + cs[j][overlap..];
    assert multiset(rest + [merged]) == multiset(rest) + multiset{merged};
    rest + [merged]
  }

  /** Contigs i and j taken out by two `swap_remove`s, the higher index
      first. */
  function RemoveBoth(cs: seq<string>, i: nat, j: nat): (r: seq<string>)
    requires OrderedPair(cs, i, j)
    ensures |r| == |cs| - 2
    ensures multiset(r) + multiset{cs[i], cs[j]} == multiset(cs)
  {
    if i > j then RemovePair(cs, i, j)
    else
      assert multiset{cs[j], cs[i]} == multiset{cs[i], cs[j]};
      RemovePair(cs, j, i)
  }

  /** Two `swap_remove`s, the higher index first: exactly the two contigs
      are removed. */
  function RemovePair(cs: seq<string>, hi: nat, lo: nat): (r: seq<string>)
    requires lo < hi < |cs|
    ensures |r| == |cs| - 2
    ensures multiset(r) + multiset{cs[hi], cs[lo]} == multiset(cs)
  {
    var rest := SwapRemove(cs, hi).1;
    assert rest[lo] == cs[lo];
    SwapRemove(rest, lo).1
  }

  /** When the second contig precedes the first (j < i), the written merge
      is the intended one: removing the higher index first is what the code
      does anyway. */
  lemma WrittenAgreesWhenSecondFirst(cs: seq<string>, i: nat, j: nat, overlap: nat)
    requires OrderedPair(cs, i, j) && j < i
    requires overlap <= |cs[j]|
    ensures MergeAsWritten(cs, i, j, overlap) == Ok(MergeIntended(cs, i, j, overlap))
  {
  }

  /** Merging along an overlap keeps both contigs: the result starts with
      the first and ends with the second. */
  lemma MergedKeepsBoth(a: string, b: string, overlap: nat)
    requires SuffixPrefix(a, b, overlap)
    ensures (a + b[overlap..])[..|a|] == a
    ensures (a + b[overlap..])[|a| + |b| - overlap - |b|..] == b
  {
    var m := a + b[overlap..];
    var start := |a| - overlap;
    assert m[start..] == a[start..] + b[overlap..];
    assert b == b[..overlap] + b[overlap..];
  }

  // ---------------------------------------------------------------------
  // The assembly loop

  function TotalLength(cs: seq<string>): nat {
    if |cs| == 0 then 0 else TotalLength(cs[..|cs| - 1]) + |cs[|cs| - 1]|
  }

  lemma {:induction false} TotalLengthMultiset(a: seq<string>, b: seq<string>)
    requires multiset(a) == multiset(b)
    ensures TotalLength(a) == TotalLength(b)
    decreases |a|
  {
    if |a| > 0 {
      var x := a[|a| - 1];
      assert x in multiset(b);
      var y :| 0 <= y < |b| && b[y] == x;
      var b' := b[..y] + b[y + 1..];
      assert b == b[..y] + [x] + b[y + 1..];
      assert a == a[..|a| - 1] + [x];
      var front, back, one := multiset(a[..|a| - 1]), multiset(b'), multiset{x};
      assert multiset(b) == multiset(b[..y]) + one + multiset(b[y + 1..]);
      assert back == multiset(b[..y]) + multiset(b[y + 1..]);
      assert front + one == back + one;
      forall e ensures front[e] == back[e] {
        assert (front + one)[e] == (back + one)[e];
      }
      assert front == back;
      TotalLengthMultiset(a[..|a| - 1], b');
      TotalLengthRemove(b, y);
    }
  }

  lemma {:induction false} TotalLengthRemove(b: seq<string>, y: nat)
    requires y < |b|
    ensures TotalLength(b) == TotalLength(b[..y] + b[y + 1..]) + |b[y]|
  {
    var n := |b|;
    if y == n - 1 {
      assert b[..y] + b[y + 1..] == b[..n - 1];
    } else {
      var pre := b[..n - 1];
      TotalLengthRemove(pre, y);
      assert b[..y] + b[y + 1..] == (pre[..y] + pre[y + 1..]) + [b[n - 1]];
      assert (b[..y] + b[y + 1..])[..n - 2] == pre[..y] + pre[y + 1..];
    }
  }

  lemma MergeShortens(cs: seq<string>, merged: seq<string>, c1: string, c2: string, overlap: nat)
    requires overlap <= |c2|
    requires multiset(merged) + multiset{c1, c2} == multiset(cs) + multiset{c1 + c2[overlap..]}
    ensures TotalLength(merged) + overlap == TotalLength(cs)
  {
    var lhs := merged + [c1, c2];
    var rhs := cs + [c1 + c2[overlap..]];
    assert multiset(lhs) == multiset(rhs);
    TotalLengthMultiset(lhs, rhs);
    assert lhs[..|lhs| - 1] == merged + [c1];
    assert (merged + [c1])[..|merged|] == merged;
    assert rhs[..|rhs| - 1] == cs;
  }

  ghost predicate NoOverlaps(cs: seq<string>, k: nat) {
    forall a, b :: OrderedPair(cs, a, b) ==> FindOverlap(cs[a], cs[b], k) == 0
  }

  /** `assemble_genome(contigs, k)` as written. `rest` is the contig vector
      when the loop ends or panics, `merges` the number of merges done. */
  method AssembleGenome(contigs: seq<string>, k: nat)
    returns (r: Result<string>, rest: seq<string>, merges: nat, ghost trace: seq<seq<string>>)
    ensures |rest| + merges == |contigs|
    ensures |trace| == merges + 1 && trace[0] == contigs && trace[merges] == rest
    ensures WrittenTrace(trace, k)
    ensures r.Err? ==> FirstMergePanics(rest, k)
    ensures |contigs| > 0 ==> merges <= |contigs| - 1
    ensures |contigs| <= 1 ==> merges == 0 && r == Ok(if |contigs| == 0 then [] else contigs[0])
    ensures r.Err? ==> r.error == SliceOutOfRange
    ensures r.Ok? ==> |rest| <= 1 || NoOverlaps(rest, k)
    ensures r.Ok? ==> r.value == (if |rest| == 0 then [] else rest[|rest| - 1])
    ensures TotalLength(rest) + merges <= TotalLength(contigs)
    ensures FirstMergePanics(contigs, k) ==> r == Err(SliceOutOfRange) && merges == 0
  {
    ghost var panics := FirstMergePanics(contigs, k);
    if |contigs| <= 1 {
      NoPanicWhenSingle(contigs, k);
    }
    rest, merges, trace := contigs, 0, [contigs];
    while |rest| > 1
      invariant |rest| + merges == |contigs|
      invariant |trace| == merges + 1 && trace[0] == contigs && trace[merges] == rest
      invariant WrittenTrace(trace, k)
      invariant |contigs| > 0 ==> |rest| > 0
      invariant merges == 0 ==> rest == contigs
      invariant merges > 0 ==> !panics
      invariant TotalLength(rest) + merges <= TotalLength(contigs)
      decreases |rest|
    {
      var overlap, i, j := BestPair(rest, k);
      if overlap == 0 {
        if merges == 0 {
          NotFirstPanic(rest, k, overlap, i, j);
        }
        break;
      }
      var m := MergeAsWritten(rest, i, j, overlap);
      if m.Err? {
        assert IsFirstBest(rest, k, overlap, i, j) && MergeAsWritten(rest, i, j, overlap).Err?;
        return Err(m.error), rest, merges, trace;
      }
      if merges == 0 {
        NotFirstPanic(rest, k, overlap, i, j);
      }
      MergeShortens(rest, m.value, rest[i], SecondRemoval(rest, i, j).0, overlap);
      assert WrittenStep(rest, m.value, k) by {
        assert IsFirstBest(rest, k, overlap, i, j) && MergeAsWritten(rest, i, j, overlap) == Ok(m.value);
      }
      ChainExtend(trace, m.value, (prev, next) => WrittenStep(prev, next, k));
      rest, merges, trace := m.value, merges + 1, trace + [m.value];
    }
    r := Ok(if |rest| == 0 then [] else rest[|rest| - 1]);
  }

  /** The first merge of a run, on the pair the scan picks, panics. */
  ghost predicate FirstMergePanics(cs: seq<string>, k: nat) {
    exists best, i, j :: IsFirstBest(cs, k, best, i, j) && best > 0 && MergeAsWritten(cs, i, j, best).Err?
  }

  /** One pass of the written loop: the scan's first best pair has a
      positive overlap and the written merge of it succeeds. */
  ghost predicate WrittenStep(prev: seq<string>, next: seq<string>, k: nat) {
    exists best: nat, i: nat, j: nat ::
      IsFirstBest(prev, k, best, i, j) && best > 0 && MergeAsWritten(prev, i, j, best) == Ok(next)
  }

  /** The contig vectors of a written run, one pass apart. */
  ghost predicate WrittenTrace(trace: seq<seq<string>>, k: nat) {
    Chain(trace, (prev, next) => WrittenStep(prev, next, k))
  }

  /** One pass of the intended loop: the scan's first best pair, with a
      positive overlap, joined by the intended merge. */
  ghost predicate IntendedStep(prev: seq<string>, next: seq<string>, k: nat) {
    exists best: nat, i: nat, j: nat ::
      && IsFirstBest(prev, k, best, i, j) && best > 0 && best <= |prev[j]|
      && MergeIntended(prev, i, j, best) == next
  }

  /** The contig vectors of an intended run, one pass apart. */
  ghost predicate IntendedTrace(trace: seq<seq<string>>, k: nat) {
    Chain(trace, (prev, next) => IntendedStep(prev, next, k))
  }

  /** Consecutive elements of `trace` are related by `step`. */
  ghost predicate Chain<T>(trace: seq<T>, step: (T, T) -> bool) {
    forall t :: 0 <= t < |trace| - 1 ==> step(trace[t], trace[t + 1])
  }

  lemma ChainExtend<T>(trace: seq<T>, next: T, step: (T, T) -> bool)
    requires |trace| > 0 && Chain(trace, step)
    requires step(trace[|trace| - 1], next)
    ensures Chain(trace + [next], step)
  {
    var longer := trace + [next];
    forall t | 0 <= t < |longer| - 1
      ensures step(longer[t], longer[t + 1])
    {
      if t < |trace| - 1 {
        assert longer[t] == trace[t] && longer[t + 1] == trace[t + 1];
      }
    }
  }

  /** With fewer than two contigs there is no pair to merge. */
  lemma NoPanicWhenSingle(cs: seq<string>, k: nat)
    requires |cs| <= 1
    ensures !FirstMergePanics(cs, k)
  {
    forall best: nat, i: nat, j: nat | IsFirstBest(cs, k, best, i, j)
      ensures best == 0
    {
    }
  }

  lemma NotFirstPanic(cs: seq<string>, k: nat, best: nat, i: nat, j: nat)
    requires IsFirstBest(cs, k, best, i, j)
    requires best == 0 || (OrderedPair(cs, i, j) && MergeAsWritten(cs, i, j, best).Ok?)
    ensures !FirstMergePanics(cs, k)
  {
    forall b2, i2, j2 | IsFirstBest(cs, k, b2, i2, j2)
      ensures !(b2 > 0 && MergeAsWritten(cs, i2, j2, b2).Err?)
    {
      FirstBestUnique(cs, k, best, i, j, b2, i2, j2);
    }
  }

  // ---------------------------------------------------------------------
  // Where the written merge goes wrong

  /** No overlap is possible when the first symbol of `b` does not occur
      in `a`. */
  lemma FreshFirstSymbol(a: string, b: string, k: nat)
    requires |b| > 0 && b[0] !in a
    ensures FindOverlap(a, b, k) == 0
  {
  }

  lemma OverlapsWithZ(z: string)
    requires z == "z" || z == "zzz"
    ensures FindOverlap("cab", z, 3) == 0 && FindOverlap("abd", z, 3) == 0
    ensures FindOverlap(z, "cab", 3) == 0 && FindOverlap(z, "abd", 3) == 0
  {
    FreshFirstSymbol("cab", z, 3);
    FreshFirstSymbol("abd", z, 3);
    FreshFirstSymbol(z, "cab", 3);
    FreshFirstSymbol(z, "abd", 3);
  }

  lemma OverlapsOfCabAbd()
    ensures FindOverlap("cab", "abd", 3) == 2
    ensures FindOverlap("abd", "cab", 3) == 0
  {
    FreshFirstSymbol("abd", "cab", 3);
    assert "cab"[0..][0] != "abd"[..3][0];
    assert "cab"[1..] == "ab" == "abd"[..2];
    assert OverlapFrom("cab", "abd", 2) == 2;
  }

  /** On three contigs where only (0, 1) overlaps, with overlap `o`, the
      scan picks (0, 1). */
  lemma OnlyFirstPairOverlaps(cs: seq<string>, k: nat, o: nat)
    requires |cs| == 3 && o > 0
    requires FindOverlap(cs[0], cs[1], k) == o
    requires FindOverlap(cs[0], cs[2], k) == 0 && FindOverlap(cs[1], cs[0], k) == 0
    requires FindOverlap(cs[1], cs[2], k) == 0 && FindOverlap(cs[2], cs[0], k) == 0
    requires FindOverlap(cs[2], cs[1], k) == 0
    ensures IsFirstBest(cs, k, o, 0, 1)
  {
    forall a, b | OrderedPair(cs, a, b) && Before(a, b, |cs|, 0)
      ensures FindOverlap(cs[a], cs[b], k) <= o
    {
      assert a == 0 || a == 1 || a == 2;
      assert b == 0 || b == 1 || b == 2;
    }
  }

  /** With a third contig that overlaps nothing, the scan picks (0, 1) with
      overlap 2. */
  lemma ExampleFirstBest(cs: seq<string>, z: string)
    requires z == "z" || z == "zzz"
    requires cs == ["cab", "abd", z]
    ensures IsFirstBest(cs, 3, 2, 0, 1)
  {
    OverlapsWithZ(z);
    OverlapsOfCabAbd();
    assert cs[0] == "cab" && cs[1] == "abd" && cs[2] == z;
    OnlyFirstPairOverlaps(cs, 3, 2);
  }

  /** On three contigs the written removals for the pair (0, 1) take the
      third contig and leave the second. */
  lemma SecondRemovalOfThree(cs: seq<string>)
    requires |cs| == 3
    ensures SecondRemoval(cs, 0, 1) == (cs[2], [cs[1]])
  {
    var first := SwapRemove(cs, 0).1;
    assert first[0] == cs[2] && first[1] == cs[1];
    var second := SwapRemove(first, 0);
    assert second.1 == [cs[1]];
    assert SecondRemoval(cs, 0, 1) == second;
  }

  /** The intended removals for the pair (0, 1) leave the third contig. */
  lemma RemoveBothOfThree(cs: seq<string>)
    requires |cs| == 3
    ensures RemoveBoth(cs, 0, 1) == [cs[2]]
  {
    var hi := SwapRemove(cs, 1).1;
    assert hi[0] == cs[0] && hi[1] == cs[2];
    var lo := SwapRemove(hi, 0).1;
    assert lo == [cs[2]];
  }

  /** On three contigs with the pair (0, 1) chosen, the intended merge joins
      the first with the second and keeps the third. */
  lemma IntendedOfThree(cs: seq<string>, overlap: nat)
    requires |cs| == 3 && overlap <= |cs[1]|
    ensures MergeIntended(cs, 0, 1, overlap) == [cs[2], cs[0] + cs[1][overlap..]]
  {
    RemoveBothOfThree(cs);
    var m := cs[0] + cs[1][overlap..];
    assert MergeIntended(cs, 0, 1, overlap) == [cs[2]] + [m];
  }

  /** On three contigs with the pair (0, 1) chosen, the written merge joins
      the first with the THIRD, and panics when the third is shorter than
      the overlap; the second survives. */
  lemma WrittenOfThree(cs: seq<string>, overlap: nat)
    requires |cs| == 3
    ensures |cs[2]| < overlap ==> MergeAsWritten(cs, 0, 1, overlap) == Err(SliceOutOfRange)
    ensures |cs[2]| >= overlap ==> MergeAsWritten(cs, 0, 1, overlap) == Ok([cs[1], cs[0] + cs[2][overlap..]])
  {
    SecondRemovalOfThree(cs);
    if |cs[2]| >= overlap {
      var m := cs[0] + cs[2][overlap..];
      assert MergeAsWritten(cs, 0, 1, overlap) == Ok([cs[1]] + [m]);
      assert [cs[1]] + [m] == [cs[1], m];
    }
  }

  /** The two lemmas above for three named contigs [a, b, z]. */
  lemma MergesOf(cs: seq<string>, a: string, b: string, z: string, overlap: nat)
    requires cs == [a, b, z] && overlap <= |b|
    ensures MergeIntended(cs, 0, 1, overlap) == [z, a + b[overlap..]]
    ensures |z| < overlap ==> MergeAsWritten(cs, 0, 1, overlap) == Err(SliceOutOfRange)
    ensures |z| >= overlap ==> MergeAsWritten(cs, 0, 1, overlap) == Ok([b, a + z[overlap..]])
  {
    assert cs[0] == a && cs[1] == b && cs[2] == z;
    IntendedOfThree(cs, overlap);
    WrittenOfThree(cs, overlap);
  }

  lemma JoinedCabd()
    ensures "cab" + "abd"[2..] == "cabd"
  {
    assert "abd"[2..] == "d";
  }

  lemma JoinedCabz()
    ensures "cab" + "zzz"[2..] == "cabz"
  {
    assert "zzz"[2..] == "z";
  }

  /** ["cab", "abd", "z"], k = 3: after `swap_remove(0)` the vector is
      ["z", "abd"], and `swap_remove(0)` (index j - 1) takes "z", which is
      shorter than the overlap 2. The intended merge gives "cabd". */
  lemma AsWrittenPanics(cs: seq<string>)
    requires cs == ["cab", "abd", "z"]
    ensures IsFirstBest(cs, 3, 2, 0, 1)
    ensures MergeAsWritten(cs, 0, 1, 2) == Err(SliceOutOfRange)
    ensures MergeIntended(cs, 0, 1, 2) == ["z", "cabd"]
    ensures FirstMergePanics(cs, 3)
  {
    ExampleFirstBest(cs, "z");
    MergesOf(cs, "cab", "abd", "z", 2);
    JoinedCabd();
  }

  /** ["cab", "abd", "zzz"], k = 3: the written merge joins "cab" with "zzz"
      along an overlap they do not have, giving "cabz"; "abd" survives. */
  lemma AsWrittenMergesWrongContig(cs: seq<string>)
    requires cs == ["cab", "abd", "zzz"]
    ensures IsFirstBest(cs, 3, 2, 0, 1)
    ensures MergeAsWritten(cs, 0, 1, 2) == Ok(["abd", "cabz"])
    ensures MergeIntended(cs, 0, 1, 2) == ["zzz", "cabd"]
  {
    ExampleFirstBest(cs, "zzz");
    MergesOf(cs, "cab", "abd", "zzz", 2);
    JoinedCabd();
    JoinedCabz();
  }

  /** The whole written run on ["cab", "abd", "z"] ends in the panic. */
  method PanicExample() returns (r: Result<string>)
    ensures r == Err(SliceOutOfRange)
  {
    var cs := ["cab", "abd", "z"];
    AsWrittenPanics(cs);
    var rest, merges;
    ghost var trace;
    r, rest, merges, trace := AssembleGenome(cs, 3);
  }

  /** On two contigs where only (0, 1) overlaps, the scan picks (0, 1). */
  lemma OnlyPairOfTwo(cs: seq<string>, k: nat, o: nat)
    requires |cs| == 2 && o > 0
    requires FindOverlap(cs[0], cs[1], k) == o && FindOverlap(cs[1], cs[0], k) == 0
    ensures IsFirstBest(cs, k, o, 0, 1)
  {
    forall a, b | OrderedPair(cs, a, b) && Before(a, b, |cs|, 0)
      ensures FindOverlap(cs[a], cs[b], k) <= o
    {
      assert (a == 0 && b == 1) || (a == 1 && b == 0);
    }
  }

  /** On two contigs the written merge of (0, 1) joins them in order. */
  lemma WrittenOfTwo(cs: seq<string>, overlap: nat)
    requires |cs| == 2 && overlap <= |cs[1]|
    ensures MergeAsWritten(cs, 0, 1, overlap) == Ok([cs[0] + cs[1][overlap..]])
  {
    var first := SwapRemove(cs, 0).1;
    assert first == [cs[1]];
    var second := SwapRemove(first, 0);
    assert second == (cs[1], []);
    assert SecondRemoval(cs, 0, 1) == second;
    var merged := cs[0] + cs[1][overlap..];
    assert [] + [merged] == [merged];
  }

  /** Two contigs where only (0, 1) overlaps: the first pass merges them
      without a panic. */
  lemma OneJoinOfTwo(cs: seq<string>, k: nat, o: nat)
    requires |cs| == 2 && 0 < o <= |cs[1]|
    requires FindOverlap(cs[0], cs[1], k) == o && FindOverlap(cs[1], cs[0], k) == 0
    ensures IsFirstBest(cs, k, o, 0, 1)
    ensures MergeAsWritten(cs, 0, 1, o) == Ok([cs[0] + cs[1][o..]])
    ensures !FirstMergePanics(cs, k) && !NoOverlaps(cs, k)
  {
    OnlyPairOfTwo(cs, k, o);
    WrittenOfTwo(cs, o);
    NotFirstPanic(cs, k, o, 0, 1);
    assert OrderedPair(cs, 0, 1);
  }

  lemma AbBcOverlaps()
    ensures FindOverlap("ab", "bc", 2) == 1 && FindOverlap("bc", "ab", 2) == 0
    ensures "ab" + "bc"[1..] == "abc"
  {
    assert "ab"[0..][0] != "bc"[..2][0];
    assert "ab"[1..] == "b" == "bc"[..1];
    assert OverlapFrom("ab", "bc", 1) == 1;
    FreshFirstSymbol("bc", "ab", 2);
    assert "bc"[1..] == "c";
  }

  lemma ChainPrefix<T>(trace: seq<T>, step: (T, T) -> bool)
    requires |trace| > 0 && Chain(trace, step)
    ensures Chain(trace[..|trace| - 1], step)
  {
    var front := trace[..|trace| - 1];
    forall t | 0 <= t < |front| - 1
      ensures step(front[t], front[t + 1])
    {
      assert front[t] == trace[t] && front[t + 1] == trace[t + 1];
    }
  }

  /** A written pass needs a pair and removes one contig. */
  lemma StepShrinks(prev: seq<string>, next: seq<string>, k: nat)
    requires WrittenStep(prev, next, k)
    ensures |prev| >= 2 && |next| == |prev| - 1
  {
    var best: nat, i: nat, j: nat :| IsFirstBest(prev, k, best, i, j) && best > 0 && MergeAsWritten(prev, i, j, best) == Ok(next);
    assert OrderedPair(prev, i, j);
  }

  /** Along a written run each pass removes one contig, so a run makes
      fewer passes than there are contigs. */
  lemma {:induction false} TraceShrinks(trace: seq<seq<string>>, k: nat)
    requires |trace| > 0 && WrittenTrace(trace, k)
    ensures forall t :: 0 <= t < |trace| ==> |trace[t]| + t == |trace[0]|
    ensures |trace| > 1 ==> |trace| <= |trace[0]|
  {
    if |trace| > 1 {
      var front := trace[..|trace| - 1];
      ChainPrefix(trace, (prev, next) => WrittenStep(prev, next, k));
      TraceShrinks(front, k);
      var n := |trace| - 1;
      StepShrinks(trace[n - 1], trace[n], k);
      assert front[0] == trace[0] && front[n - 1] == trace[n - 1];
      forall t | 0 <= t < |trace|
        ensures |trace[t]| + t == |trace[0]|
      {
        if t < n {
          assert front[t] == trace[t];
        }
      }
    }
  }

  /** What a run on two contigs where only (0, 1) overlaps must return,
      given the guarantees of the written loop. */
  lemma RunOfOneJoin(cs: seq<string>, k: nat, o: nat, r: Result<string>, rest: seq<string>, merges: nat, trace: seq<seq<string>>)
    requires |cs| == 2 && 0 < o <= |cs[1]|
    requires FindOverlap(cs[0], cs[1], k) == o && FindOverlap(cs[1], cs[0], k) == 0
    requires |rest| + merges == |cs|
    requires |trace| == merges + 1 && trace[0] == cs && trace[merges] == rest
    requires WrittenTrace(trace, k)
    requires r.Err? ==> FirstMergePanics(rest, k)
    requires r.Ok? ==> |rest| <= 1 || NoOverlaps(rest, k)
    requires r.Ok? ==> r.value == (if |rest| == 0 then [] else rest[|rest| - 1])
    ensures r == Ok(cs[0] + cs[1][o..])
  {
    OneJoinOfTwo(cs, k, o);
    TraceShrinks(trace, k);
    assert merges == 1;
    assert WrittenStep(trace[0], trace[1], k);
    var best: nat, i: nat, j: nat :| IsFirstBest(cs, k, best, i, j) && best > 0 && MergeAsWritten(cs, i, j, best) == Ok(rest);
    FirstBestUnique(cs, k, best, i, j, o, 0, 1);
    NoPanicWhenSingle(rest, k);
  }

  /** ["ab", "bc"], k = 2: the only overlap is "b", and the run returns
      "abc" after one merge. */
  method JoinExample() returns (r: Result<string>)
    ensures r == Ok("abc")
  {
    var cs := ["ab", "bc"];
    AbBcOverlaps();
    assert cs[0] == "ab" && cs[1] == "bc";
    var rest, merges;
    ghost var trace;
    r, rest, merges, trace := AssembleGenome(cs, 2);
    RunOfOneJoin(cs, 2, 1, r, rest, merges, trace);
  }

  /** `assemble_genome` with the intended merge: it never panics, and each
      merge joins the chosen pair along their overlap. */
  method AssembleGenomeIntended(contigs: seq<string>, k: nat)
    returns (r: string, rest: seq<string>, merges: nat, ghost trace: seq<seq<string>>)
    ensures |rest| + merges == |contigs|
    ensures |trace| == merges + 1 && trace[0] == contigs && trace[merges] == rest
    ensures IntendedTrace(trace, k)
    ensures |rest| <= 1 || NoOverlaps(rest, k)
    ensures r == (if |rest| == 0 then [] else rest[|rest| - 1])
    ensures TotalLength(rest) + merges <= TotalLength(contigs)
  {
    rest, merges, trace := contigs, 0, [contigs];
    while |rest| > 1
      invariant |rest| + merges == |contigs|
      invariant |trace| == merges + 1 && trace[0] == contigs && trace[merges] == rest
      invariant IntendedTrace(trace, k)
      invariant TotalLength(rest) + merges <= TotalLength(contigs)
      decreases |rest|
    {
      var overlap, i, j := BestPair(rest, k);
      if overlap == 0 {
        break;
      }
      var merged := MergeIntended(rest, i, j, overlap);
      MergeShortens(rest, merged, rest[i], rest[j], overlap);
      assert IntendedStep(rest, merged, k) by {
        assert IsFirstBest(rest, k, overlap, i, j) && MergeIntended(rest, i, j, overlap) == merged;
      }
      ChainExtend(trace, merged, (prev, next) => IntendedStep(prev, next, k));
      rest, merges, trace := merged, merges + 1, trace + [merged];
    }
    r := if |rest| == 0 then [] else rest[|rest| - 1];
  }
}
