/** The read slicers (`break_into_reads`) that cut a genome into reads for
    the greedy merger. Three copies exist: a `for` over `0..=len - rl`, a
    `while` advancing one symbol, and a `while` advancing `rl - 1` symbols.
    Strings are ASCII, so byte slicing is sequence slicing. */
module Reads {
  import opened Wrappers
  import Kmers
  import Greedy

  /** Reference: every window of length `rl`, one symbol apart. */
  function SlidingReads(g: string, rl: nat): seq<string> {
    if rl <= |g| then seq(|g| - rl + 1, t requires 0 <= t < |g| - rl + 1 => g[t..t + rl]) else []
  }

  /** libs/fixed_assembler `break_into_reads`: `for i in 0..=len - rl`,
      where `len - rl` underflows (a panic) when the read is longer than
      the genome. */
  method BreakIntoReadsRange(g: string, rl: nat) returns (r: Result<seq<string>>)
    ensures r.Err? <==> rl > |g|
    ensures r.Err? ==> r.error == SubtractOverflow
    ensures r.Ok? ==> r.value == SlidingReads(g, rl)
  {
    if rl > |g| {
      return Err(SubtractOverflow);
    }
    var pieces: seq<string> := [];
    for i := 0 to |g| - rl + 1
      invariant |pieces| == i
      invariant forall t :: 0 <= t < i ==> pieces[t] == g[t..t + rl]
    {
      pieces := pieces + [g[i..i + rl]];
    }
    r := Ok(pieces);
  }

  /** libs/read_creator `break_into_reads`: `while i + rl <= len`, step 1.
      It never panics; a read longer than the genome gives no reads. */
  method BreakIntoReads(g: string, rl: nat) returns (pieces: seq<string>)
    ensures pieces == SlidingReads(g, rl)
  {
    pieces := [];
    var i := 0;
    while i + rl <= |g|
      invariant i == 0 || i + rl <= |g| + 1
      invariant |pieces| == i
      invariant forall t :: 0 <= t < i ==> pieces[t] == g[t..t + rl]
      decreases |g| + 1 - i
    {
      pieces := pieces + [g[i..i + rl]];
      i := i + 1;
    }
  }

  /** A genome shorter than the read: the range slicer panics where the
      step-1 slicer returns no reads. */
  method ShortGenomeExample() returns (written: Result<seq<string>>, corrected: seq<string>)
    ensures written == Err(SubtractOverflow)
    ensures corrected == []
  {
    written := BreakIntoReadsRange("AC", 3);
    corrected := BreakIntoReads("AC", 3);
  }

  /** The step-1 slicers keep every start position whose read fits, and
      consecutive reads overlap on `rl - 1` symbols, the overlap
      `find_overlap` looks for. */
  lemma SlidingReadsSpec(g: string, rl: nat)
    ensures |SlidingReads(g, rl)| == if rl <= |g| then |g| - rl + 1 else 0
    ensures forall t :: 0 <= t < |SlidingReads(g, rl)| ==> SlidingReads(g, rl)[t] == g[t..t + rl]
    ensures forall t :: 0 <= t < |SlidingReads(g, rl)| - 1 && rl > 0 ==>
              Greedy.SuffixPrefix(SlidingReads(g, rl)[t], SlidingReads(g, rl)[t + 1], rl - 1)
  {
    var rs := SlidingReads(g, rl);
    forall t | 0 <= t < |rs| - 1 && rl > 0
      ensures Greedy.SuffixPrefix(rs[t], rs[t + 1], rl - 1)
    {
      assert rs[t][1..] == g[t + 1..t + rl] == rs[t + 1][..rl - 1];
    }
  }

  /** The step-1 reads are the linear k-mers of the genome, in order. */
  lemma SlidingReadsAreLinearKmers(g: string, k: nat)
    requires 1 <= k <= |g|
    ensures SlidingReads(g, k) == Kmers.Windows(g, k, false)
  {
    Kmers.LinearWindows(g, k);
  }

  // ---------------------------------------------------------------------
  // Stepped reads

  /** The number of reads of length `rl` starting at 0, rl - 1, 2(rl - 1),
      ... that fit in `n` symbols. */
  function SteppedCount(n: nat, rl: nat): nat
    requires rl >= 2
  {
    if rl > n then 0 else (n - rl) / (rl - 1) + 1
  }

  /** Where read `t` starts when each step is `s`: `t * s`, written as
      repeated addition so that loop proofs stay linear. */
  function Start(t: nat, s: nat): nat {
    if t == 0 then 0 else Start(t - 1, s) + s
  }

  lemma {:induction false} StartIsProduct(t: nat, s: nat)
    ensures Start(t, s) == t * s
  {
    if t > 0 {
      StartIsProduct(t - 1, s);
      assert (t - 1) * s + s == t * s;
    }
  }

  lemma MulMono(a: int, b: int, m: nat)
    requires a <= b
    ensures a * m <= b * m
  {
    assert b * m - a * m == (b - a) * m;
  }

  lemma SteppedFits(n: nat, rl: nat, t: nat)
    requires rl >= 2 && t < SteppedCount(n, rl)
    ensures Start(t, rl - 1) + rl <= n
  {
    var s, m := rl - 1, n - rl;
    var q := m / s;
    assert q * s <= m;
    MulMono(t, q, s);
    StartIsProduct(t, s);
  }

  /** Reference: read `t` starts at `t * (rl - 1)`. */
  function SteppedRead(g: string, rl: nat, t: nat): string
    requires rl >= 2 && t < SteppedCount(|g|, rl)
  {
    SteppedFits(|g|, rl, t);
    g[Start(t, rl - 1)..Start(t, rl - 1) + rl]
  }

  function SteppedReads(g: string, rl: nat): seq<string>
    requires rl >= 2
  {
    seq(SteppedCount(|g|, rl), t requires 0 <= t < SteppedCount(|g|, rl) => SteppedRead(g, rl, t))
  }

  /** read_creator `break_into_reads`: `while i + rl <= len`, step
      `rl - 1`. With `rl == 0` the loop body runs and `rl - 1` underflows
      (a panic); with `rl == 1` the step is 0 and a non-empty genome makes
      the loop run forever. */
  method BreakIntoReadsStepped(g: string, rl: nat) returns (r: Result<seq<string>>)
    ensures rl == 0 ==> r == Err(SubtractOverflow)
    ensures rl == 1 ==> r == (if |g| == 0 then Ok([]) else Err(NonTermination))
    ensures rl >= 2 ==> r == Ok(SteppedReads(g, rl))
  {
    if rl == 0 {
      return Err(SubtractOverflow);
    }
    if rl == 1 {
      return if |g| == 0 then Ok([]) else Err(NonTermination);
    }
    var pieces: seq<string> := [];
    var i := 0;
    while i + rl <= |g|
      invariant pieces + SteppedFrom(g, rl, i) == SteppedFrom(g, rl, 0)
      decreases |g| - i
    {
      assert SteppedFrom(g, rl, i) == [g[i..i + rl]] + SteppedFrom(g, rl, i + rl - 1);
      pieces := pieces + [g[i..i + rl]];
      i := i + rl - 1;
    }
    assert pieces == SteppedFrom(g, rl, 0);
    SteppedFromClosed(g, rl, 0);
    r := Ok(pieces);
  }

  /** The loop's own reading: the reads starting at position `i`. */
  function SteppedFrom(g: string, rl: nat, i: nat): seq<string>
    requires rl >= 2
    decreases |g| - i
  {
    if i + rl <= |g| then [g[i..i + rl]] + SteppedFrom(g, rl, i + rl - 1) else []
  }

  /** Past the last read nothing fits. */
  lemma CountIsLast(n: nat, rl: nat)
    requires rl >= 2
    ensures Start(SteppedCount(n, rl), rl - 1) + rl > n
  {
    var c, s := SteppedCount(n, rl), rl - 1;
    if c > 0 {
      var m := n - rl;
      StartIsProduct(c, s);
      assert m == (m / s) * s + m % s;
      assert c * s == (m / s) * s + s;
    }
  }

  /** The loop's reads from read `c` on are the closed form's. */
  lemma {:induction false} SteppedFromClosed(g: string, rl: nat, c: nat)
    requires rl >= 2 && c <= SteppedCount(|g|, rl)
    ensures SteppedFrom(g, rl, Start(c, rl - 1)) == SteppedReads(g, rl)[c..]
    decreases SteppedCount(|g|, rl) - c
  {
    var rs := SteppedReads(g, rl);
    var a := Start(c, rl - 1);
    if c == SteppedCount(|g|, rl) {
      CountIsLast(|g|, rl);
    } else {
      SteppedFits(|g|, rl, c);
      assert Start(c + 1, rl - 1) == a + rl - 1;
      SteppedFromClosed(g, rl, c + 1);
      assert rs[c] == SteppedRead(g, rl, c) == g[a..a + rl];
      assert rs[c..] == [rs[c]] + rs[c + 1..];
    }
  }

  /** Every stepped read has length `rl`, and consecutive ones share
      exactly their boundary symbol. */
  lemma SteppedReadsOverlap(g: string, rl: nat)
    requires rl >= 2
    ensures forall t :: 0 <= t < |SteppedReads(g, rl)| ==> |SteppedReads(g, rl)[t]| == rl
    ensures forall t :: 0 <= t < |SteppedReads(g, rl)| - 1 ==>
              Greedy.SuffixPrefix(SteppedReads(g, rl)[t], SteppedReads(g, rl)[t + 1], 1)
  {
    var rs := SteppedReads(g, rl);
    forall t | 0 <= t < |rs|
      ensures |rs[t]| == rl
    {
      assert rs[t] == SteppedRead(g, rl, t);
      SteppedFits(|g|, rl, t);
    }
    forall t | 0 <= t < |rs| - 1
      ensures Greedy.SuffixPrefix(rs[t], rs[t + 1], 1)
    {
      assert rs[t] == SteppedRead(g, rl, t) && rs[t + 1] == SteppedRead(g, rl, t + 1);
      SteppedFits(|g|, rl, t + 1);
      var a := Start(t, rl - 1);
      assert Start(t + 1, rl - 1) == a + rl - 1;
      assert rs[t][rl - 1..] == [g[a + rl - 1]] == rs[t + 1][..1];
    }
  }

  /** The symbols after the last stepped read are fewer than a step. */
  lemma SteppedReadsTail(g: string, rl: nat)
    requires rl >= 2
    ensures var c := |SteppedReads(g, rl)|;
            c > 0 ==> |g| - (Start(c - 1, rl - 1) + rl) < rl - 1
  {
    var c := |SteppedReads(g, rl)|;
    if c > 0 {
      var s, m := rl - 1, |g| - rl;
      StartIsProduct(c - 1, s);
      assert c - 1 == m / s;
      assert m == (m / s) * s + m % s;
    }
  }
}
