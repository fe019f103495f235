/** K-mer extraction (`get_kmer_count_from_sequence`): slide a window of
    length k over every start index of the sequence, wrapping around the end
    in cyclic mode and skipping short trailing windows in linear mode, and
    tally the windows in an insertion-ordered dictionary. */
module Kmers {
  import opened OrderedDict
  import opened Wrappers

  /** Python's `s[a:b]` for non-negative bounds: both ends clamp to `|s|`. */
  function PySlice(s: string, a: nat, b: nat): (r: string)
    ensures a <= b ==> |r| <= b - a
    ensures a <= b <= |s| ==> r == s[a..b]
    ensures a <= |s| <= b ==> r == s[a..]
  {
    var lo := if a < |s| then a else |s|;
    var hi := if b < |s| then b else |s|;
    if lo <= hi then s[lo..hi] else []
  }

  /** The window read at start index `i`: `None` when linear mode skips it. */
  function Window(s: string, k: nat, cyclic: bool, i: nat): Option<string> {
    var w := PySlice(s, i, i + k);
    if |w| != k then
      if cyclic then Some(w + PySlice(s, 0, k - |w|)) else None
    else
      Some(w)
  }

  /** The window function of a sequence, one start index at a time. */
  function WindowFn(s: string, k: nat, cyclic: bool): nat -> Option<string> {
    (i: nat) => Window(s, k, cyclic, i)
  }

  /** The windows kept for start indices `0 .. n-1`, in order. */
  function Collect(n: nat, f: nat -> Option<string>): seq<string> {
    if n == 0 then []
    else
      Collect(n - 1, f) +
      match f(n - 1)
      case Some(w) => [w]
      case None => []
  }

  /** `for i in range(len(sequence))`, keeping the windows read at each `i`. */
  function Windows(s: string, k: nat, cyclic: bool): seq<string> {
    Collect(|s|, WindowFn(s, k, cyclic))
  }

  /** `kmers[key] += 1` on a `defaultdict(int)`: a new key goes to the end. */
  function Increment(d: Dict<nat>, key: string): Dict<nat> {
    Put(d, key, Count(d, key) + 1)
  }

  function Tally(ws: seq<string>): Dict<nat> {
    if |ws| == 0 then [] else Increment(Tally(ws[..|ws| - 1]), ws[|ws| - 1])
  }

  /** The distinct elements of `ws` in order of first occurrence. */
  function Dedup(ws: seq<string>): seq<string> {
    if |ws| == 0 then []
    else
      var d := Dedup(ws[..|ws| - 1]);
      if ws[|ws| - 1] in d then d else d + [ws[|ws| - 1]]
  }

  function Count(d: Dict<nat>, key: string): nat {
    Get(d, key, 0)
  }

  /** Sum of all multiplicities. */
  function Total(d: Dict<nat>): nat {
    if |d| == 0 then 0 else Total(d[..|d| - 1]) + d[|d| - 1].1
  }

  /** The k-mer multiset of `s`, as `get_kmer_count_from_sequence` returns it. */
  function KmerCounts(s: string, k: nat, cyclic: bool): (d: Dict<nat>)
    ensures KeysDistinct(d)
    ensures Keys(d) == Dedup(Windows(s, k, cyclic))
    ensures forall key :: Count(d, key) == multiset(Windows(s, k, cyclic))[key]
    ensures forall i :: 0 <= i < |d| ==> d[i].1 >= 1
    ensures Total(d) == |Windows(s, k, cyclic)|
  {
    TallySpec(Windows(s, k, cyclic));
    Tally(Windows(s, k, cyclic))
  }

  // ---------------------------------------------------------------------
  // Windows

  lemma WindowAt(s: string, k: nat, cyclic: bool, i: nat)
    requires k <= |s| && i < |s|
    ensures i + k <= |s| ==> Window(s, k, cyclic, i) == Some(s[i..i + k])
    ensures i + k > |s| && cyclic ==> Window(s, k, cyclic, i) == Some(s[i..] + s[..k - (|s| - i)])
    ensures i + k > |s| && !cyclic ==> Window(s, k, cyclic, i) == None
  {
    var w := PySlice(s, i, i + k);
    if i + k > |s| {
      assert w == s[i..];
      assert PySlice(s, 0, k - |w|) == s[..k - (|s| - i)];
    }
  }

  lemma ModSmall(a: int, n: int)
    requires 0 <= a < n
    ensures a % n == a
  {
  }

  lemma ModWrap(a: int, n: int)
    requires 0 < n <= a < 2 * n
    ensures a % n == a - n
  {
  }

  /** In cyclic mode, window `i` reads `s` circularly from position `i`. */
  lemma CyclicWindowChars(s: string, k: nat, i: nat)
    requires k <= |s| && i < |s|
    ensures Window(s, k, true, i).Some?
    ensures |Window(s, k, true, i).value| == k
    ensures forall j :: 0 <= j < k ==> Window(s, k, true, i).value[j] == s[(i + j) % |s|]
  {
    WindowAt(s, k, true, i);
    var n := |s|;
    var w := Window(s, k, true, i).value;
    if i + k <= n {
      forall j | 0 <= j < k
        ensures w[j] == s[(i + j) % n]
      {
        ModSmall(i + j, n);
      }
    } else {
      var head, tail := s[i..], s[..k - (n - i)];
      assert w == head + tail;
      forall j | 0 <= j < k
        ensures w[j] == s[(i + j) % n]
      {
        if j < n - i {
          assert w[j] == head[j];
          ModSmall(i + j, n);
        } else {
          assert w[j] == tail[j - (n - i)];
          ModWrap(i + j, n);
        }
      }
    }
  }

  /** When exactly the first `m` of `n` start indices keep their window,
      the result lists those `m` windows in order. */
  lemma {:induction false} CollectKept(n: nat, m: nat, f: nat -> Option<string>)
    requires forall i :: 0 <= i < n ==> (f(i).Some? <==> i < m)
    ensures |Collect(n, f)| == if n <= m then n else m
    ensures forall i :: 0 <= i < |Collect(n, f)| ==> f(i) == Some(Collect(n, f)[i])
  {
    if n > 0 {
      CollectKept(n - 1, m, f);
      var pre := Collect(n - 1, f);
      var ws := Collect(n, f);
      if n - 1 < m {
        assert ws == pre + [f(n - 1).value];
        forall i | 0 <= i < |ws|
          ensures f(i) == Some(ws[i])
        {
          if i < n - 1 {
            assert ws[i] == pre[i];
          }
        }
      } else {
        assert ws == pre;
      }
    }
  }

  /** Cyclic extraction with `k <= |s|`: one window per start index, window
      `i` is `s` read circularly from `i`, and every window has length k. */
  lemma CyclicWindows(s: string, k: nat)
    requires k <= |s|
    ensures |Windows(s, k, true)| == |s|
    ensures forall i :: 0 <= i < |s| ==> |Windows(s, k, true)[i]| == k
    ensures forall i, j :: 0 <= i < |s| && 0 <= j < k ==> Windows(s, k, true)[i][j] == s[(i + j) % |s|]
  {
    var f := WindowFn(s, k, true);
    forall i | 0 <= i < |s|
      ensures f(i).Some?
    {
      WindowAt(s, k, true, i);
    }
    CollectKept(|s|, |s|, f);
    forall i | 0 <= i < |s|
      ensures |Windows(s, k, true)[i]| == k
      ensures forall j :: 0 <= j < k ==> Windows(s, k, true)[i][j] == s[(i + j) % |s|]
    {
      CyclicWindowChars(s, k, i);
    }
  }

  /** Linear extraction with `1 <= k <= |s|`: the `|s| - k + 1` full windows, in order. */
  lemma LinearWindows(s: string, k: nat)
    requires 1 <= k <= |s|
    ensures |Windows(s, k, false)| == |s| - k + 1
    ensures forall i :: 0 <= i < |s| - k + 1 ==> Windows(s, k, false)[i] == s[i..i + k]
  {
    var f := WindowFn(s, k, false);
    forall i | 0 <= i < |s|
      ensures f(i).Some? <==> i < |s| - k + 1
      ensures i < |s| - k + 1 ==> f(i) == Some(s[i..i + k])
    {
      WindowAt(s, k, false, i);
    }
    CollectKept(|s|, |s| - k + 1, f);
  }

  /** Linear extraction with `k > |s|` skips every window. */
  lemma LinearWindowsTooLong(s: string, k: nat)
    requires k > |s|
    ensures Windows(s, k, false) == []
  {
    var f := WindowFn(s, k, false);
    forall i | 0 <= i < |s|
      ensures f(i).None?
    {
      assert |PySlice(s, i, i + k)| < k;
    }
    CollectKept(|s|, 0, f);
  }

  // ---------------------------------------------------------------------
  // Tally

  lemma {:induction false} TotalUpdate(d: Dict<nat>, x: nat, key: string, v: nat)
    requires x < |d|
    ensures Total(d[x := (key, v)]) == Total(d) - d[x].1 + v
  {
    var n := |d|;
    if x < n - 1 {
      assert d[x := (key, v)][..n - 1] == d[..n - 1][x := (key, v)];
      TotalUpdate(d[..n - 1], x, key, v);
    } else {
      assert d[x := (key, v)][..n - 1] == d[..n - 1];
    }
  }

  lemma {:induction false} DedupMembers(ws: seq<string>)
    ensures forall key :: key in Dedup(ws) <==> key in ws
  {
    if |ws| > 0 {
      DedupMembers(ws[..|ws| - 1]);
      assert ws == ws[..|ws| - 1] + [ws[|ws| - 1]];
    }
  }

  lemma IncrementCount(t: Dict<nat>, w: string, key: string)
    ensures Count(Increment(t, w), key) == Count(t, key) + (if key == w then 1 else 0)
  {
    var v := Count(t, w) + 1;
    var d := Put(t, w, v);
    assert Increment(t, w) == d;
    GetPut(t, w, v, key, 0);
    if key == w {
      assert Get(d, key, 0) == v;
    } else {
      assert Get(d, key, 0) == Get(t, key, 0);
    }
  }

  lemma IncrementKeys(t: Dict<nat>, w: string)
    requires KeysDistinct(t)
    ensures KeysDistinct(Increment(t, w))
    ensures Keys(Increment(t, w)) == if w in Keys(t) then Keys(t) else Keys(t) + [w]
  {
    var v := Count(t, w) + 1;
    assert Increment(t, w) == Put(t, w, v);
    PutKeys(t, w, v);
  }

  lemma IncrementTotal(t: Dict<nat>, w: string)
    requires forall i :: 0 <= i < |t| ==> t[i].1 >= 1
    ensures forall i :: 0 <= i < |Increment(t, w)| ==> Increment(t, w)[i].1 >= 1
    ensures Total(Increment(t, w)) == Total(t) + 1
  {
    var x := Find(t, w);
    if x < |t| {
      TotalUpdate(t, x, w, t[x].1 + 1);
    } else {
      assert Increment(t, w)[..|t|] == t;
    }
  }

  lemma TallyStep(ws: seq<string>)
    requires |ws| > 0
    ensures Tally(ws) == Increment(Tally(ws[..|ws| - 1]), ws[|ws| - 1])
  {
  }

  lemma DedupStep(ws: seq<string>)
    requires |ws| > 0
    ensures var d := Dedup(ws[..|ws| - 1]);
            Dedup(ws) == if ws[|ws| - 1] in d then d else d + [ws[|ws| - 1]]
  {
  }

  lemma {:induction false} TallyKeys(ws: seq<string>)
    ensures KeysDistinct(Tally(ws))
    ensures Keys(Tally(ws)) == Dedup(ws)
  {
    if |ws| > 0 {
      var pre, w := ws[..|ws| - 1], ws[|ws| - 1];
      TallyKeys(pre);
      TallyStep(ws);
      DedupStep(ws);
      IncrementKeys(Tally(pre), w);
    }
  }

  lemma {:induction false} TallyCounts(ws: seq<string>, key: string)
    ensures Count(Tally(ws), key) == multiset(ws)[key]
  {
    if |ws| > 0 {
      var pre, w := ws[..|ws| - 1], ws[|ws| - 1];
      assert ws == pre + [w];
      assert multiset(ws) == multiset(pre) + multiset{w};
      TallyCounts(pre, key);
      TallyStep(ws);
      IncrementCount(Tally(pre), w, key);
    }
  }

  lemma {:induction false} TallyTotal(ws: seq<string>)
    ensures forall i :: 0 <= i < |Tally(ws)| ==> Tally(ws)[i].1 >= 1
    ensures Total(Tally(ws)) == |ws|
  {
    if |ws| > 0 {
      var pre, w := ws[..|ws| - 1], ws[|ws| - 1];
      TallyTotal(pre);
      TallyStep(ws);
      IncrementTotal(Tally(pre), w);
    }
  }

  /** Tallying: distinct keys in first-occurrence order, each counted as
      often as it occurs, positive counts summing to the number of windows. */
  lemma TallySpec(ws: seq<string>)
    ensures KeysDistinct(Tally(ws))
    ensures Keys(Tally(ws)) == Dedup(ws)
    ensures forall key :: Count(Tally(ws), key) == multiset(ws)[key]
    ensures forall i :: 0 <= i < |Tally(ws)| ==> Tally(ws)[i].1 >= 1
    ensures Total(Tally(ws)) == |ws|
  {
    TallyKeys(ws);
    TallyTotal(ws);
    forall key
      ensures Count(Tally(ws), key) == multiset(ws)[key]
    {
      TallyCounts(ws, key);
    }
  }

  /** With `1 <= k <= |s|` every k-mer key has length k and the multiplicities
      sum to `|s|` (cyclic) or to `|s| - k + 1` (linear). */
  lemma KmerCountsShape(s: string, k: nat, cyclic: bool)
    requires 1 <= k <= |s|
    ensures forall i :: 0 <= i < |KmerCounts(s, k, cyclic)| ==> |KmerCounts(s, k, cyclic)[i].0| == k
    ensures Total(KmerCounts(s, k, cyclic)) == if cyclic then |s| else |s| - k + 1
  {
    var ws := Windows(s, k, cyclic);
    var d := KmerCounts(s, k, cyclic);
    if cyclic {
      CyclicWindows(s, k);
    } else {
      LinearWindows(s, k);
    }
    assert forall j :: 0 <= j < |ws| ==> |ws[j]| == k;
    DedupMembers(ws);
    forall i | 0 <= i < |d|
      ensures |d[i].0| == k
    {
      assert Keys(d)[i] == d[i].0;
      assert d[i].0 in ws;
    }
  }
}
