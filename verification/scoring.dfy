/** Alignment scoring (`score_sequence`): linear position-by-position
    comparison with a length-difference penalty, and a circular mode that
    tries every rotation of the reconstruction and keeps the first strictly
    best one. Scores are exact reals; the default weights are 1.0, -0.5 and
    -1.0. */
module Scoring {
  import opened Wrappers
  import opened Arith

  datatype Weights = Weights(matchScore: real, mismatchScore: real, lengthPenalty: real)

  const DefaultWeights: Weights := Weights(1.0, -0.5, -1.0)

  datatype Alignment = Linear | Circular(rotation: nat, aligned: string)

  /** The `details` dictionary. */
  datatype Details = Details(
    matches: nat,
    mismatches: nat,
    lengthDiff: nat,
    baseScore: real,
    lengthPenaltyScore: real,
    percentIdentity: real,
    alignment: Alignment)

  /** A score, or the `float('-inf')` the circular search starts from. */
  datatype Score = NegInf | Finite(value: real)

  /** Python's `s[i:] + s[:i]`. */
  function Rotate(s: string, i: nat): (r: string)
    requires i <= |s|
    ensures |r| == |s|
    ensures forall j :: 0 <= j < |s| - i ==> r[j] == s[i + j]
    ensures forall j :: |s| - i <= j < |s| ==> r[j] == s[j - (|s| - i)]
  {
    s[i..] + s[..i]
  }

  /** The positions below `n` where `a` and `b` agree. */
  ghost function Agree(a: string, b: string, n: nat): set<nat>
    requires n <= |a| && n <= |b|
  {
    set i: nat | i < n && a[i] == b[i]
  }

  /** Number of positions below `n` where `a` and `b` agree. */
  function MatchCount(a: string, b: string, n: nat): (c: nat)
    requires n <= |a| && n <= |b|
    ensures c == |Agree(a, b, n)|
    ensures c <= n
    ensures c == n <==> a[..n] == b[..n]
    ensures c == 0 <==> forall i :: 0 <= i < n ==> a[i] != b[i]
  {
    if n == 0 then
      assert Agree(a, b, 0) == {};
      0
    else
      var c := MatchCount(a, b, n - 1);
      assert a[..n] == a[..n - 1] + [a[n - 1]] && b[..n] == b[..n - 1] + [b[n - 1]];
      assert n - 1 !in Agree(a, b, n - 1);
      if a[n - 1] == b[n - 1] then
        assert Agree(a, b, n) == Agree(a, b, n - 1) + {n - 1};
        c + 1
      else
        assert Agree(a, b, n) == Agree(a, b, n - 1);
        c
  }

  /** Linear mode of `score_sequence`: the total score and its details.
      Matches and mismatches split the compared prefix, no mismatch exactly
      when the prefixes agree, the length difference is the absolute
      difference, the score is the weighted sum, and identity is 100 exactly
      for a perfect non-empty comparison and 0 when nothing is compared. */
  function ScoreLinear(original: string, reconstructed: string, w: Weights): (r: (real, Details))
    ensures r.1.alignment == Linear
    ensures r.1.matches == |Agree(original, reconstructed, Min(|original|, |reconstructed|))|
    ensures r.1.matches + r.1.mismatches == Min(|original|, |reconstructed|)
    ensures r.1.lengthDiff + 2 * Min(|original|, |reconstructed|) == |original| + |reconstructed|
    ensures r.1.baseScore == (r.1.matches as real) * w.matchScore + (r.1.mismatches as real) * w.mismatchScore
    ensures r.1.lengthPenaltyScore == (r.1.lengthDiff as real) * w.lengthPenalty
    ensures r.0 == r.1.baseScore + r.1.lengthPenaltyScore
    ensures Min(|original|, |reconstructed|) == 0 ==> r.1.percentIdentity == 0.0
    ensures Min(|original|, |reconstructed|) > 0 ==>
              r.1.percentIdentity * (Min(|original|, |reconstructed|) as real) == (r.1.matches as real) * 100.0
    ensures 0.0 <= r.1.percentIdentity <= 100.0
    ensures r.1.percentIdentity == 100.0 <==> Min(|original|, |reconstructed|) > 0 && r.1.mismatches == 0
  {
    var minLength := Min(|original|, |reconstructed|);
    var lengthDiff: nat := if |original| >= |reconstructed| then |original| - |reconstructed| else |reconstructed| - |original|;
    var matches := MatchCount(original, reconstructed, minLength);
    var mismatches: nat := minLength - matches;
    var baseScore := (matches as real) * w.matchScore + (mismatches as real) * w.mismatchScore;
    var penalty := (lengthDiff as real) * w.lengthPenalty;
    var identity := Identity(matches, minLength);
    (baseScore + penalty, Details(matches, mismatches, lengthDiff, baseScore, penalty, identity, Linear))
  }

  /** `(matches / min_length * 100) if min_length > 0 else 0`. */
  function Identity(matches: nat, n: nat): (p: real)
    requires matches <= n
    ensures n == 0 ==> p == 0.0
    ensures n > 0 ==> p * (n as real) == (matches as real) * 100.0
    ensures 0.0 <= p <= 100.0
    ensures p == 100.0 <==> n > 0 && matches == n
  {
    if n > 0 then Percent(matches, n) else 0.0
  }

  /** `matches / min_length * 100`. */
  function Percent(part: nat, whole: nat): (p: real)
    requires 0 < whole && part <= whole
    ensures p * (whole as real) == (part as real) * 100.0
    ensures 0.0 <= p <= 100.0
    ensures p == 100.0 <==> part == whole
  {
    var p := (part as real) / (whole as real) * 100.0;
    assert part < whole ==> (part as real) / (whole as real) < 1.0;
    p
  }

  /** What the linear counts mean position by position: no mismatch exactly
      when the compared prefixes agree, no match exactly when they differ
      everywhere. */
  lemma LinearCountsMeaning(original: string, reconstructed: string, w: Weights)
    ensures var n := Min(|original|, |reconstructed|);
            ScoreLinear(original, reconstructed, w).1.mismatches == 0 <==> original[..n] == reconstructed[..n]
    ensures var n := Min(|original|, |reconstructed|);
            ScoreLinear(original, reconstructed, w).1.matches == 0 <==> forall i :: 0 <= i < n ==> original[i] != reconstructed[i]
  {
    var n := Min(|original|, |reconstructed|);
    var c := MatchCount(original, reconstructed, n);
    assert ScoreLinear(original, reconstructed, w).1.matches == c;
  }

  /** The details of the winning rotation, as the circular search records them. */
  function AsCircular(d: Details, rotation: nat, aligned: string): Details {
    d.(alignment := Circular(rotation, aligned))
  }

  /** The linear score of every rotation of `r`, by rotation offset. */
  function RotationScores(original: string, r: string, w: Weights): nat -> real {
    (j: nat) => if j <= |r| then ScoreLinear(original, Rotate(r, j), w).0 else 0.0
  }

  /** Among offsets `0 .. i-1`, `rot` is the first with the greatest score. */
  ghost predicate FirstMax(f: nat -> real, rot: nat, i: nat) {
    && rot < i
    && (forall j: nat :: j < i ==> f(j) <= f(rot))
    && (forall j: nat :: j < rot ==> f(j) < f(rot))
  }

  /** Rotation `rot` is the first rotation of `r` whose linear score is the
      greatest over all rotations. */
  ghost predicate IsFirstBestRotation(original: string, r: string, w: Weights, rot: nat) {
    && rot < |r|
    && (forall j :: 0 <= j < |r| ==> ScoreLinear(original, Rotate(r, j), w).0 <= ScoreLinear(original, Rotate(r, rot), w).0)
    && (forall j :: 0 <= j < rot ==> ScoreLinear(original, Rotate(r, j), w).0 < ScoreLinear(original, Rotate(r, rot), w).0)
  }

  /** One more offset: a strictly better score takes over, any other keeps
      the current best. */
  lemma FirstMaxStep(f: nat -> real, rot: nat, i: nat)
    requires i == 0 || FirstMax(f, rot, i)
    ensures i == 0 || f(i) > f(rot) ==> FirstMax(f, i, i + 1)
    ensures i > 0 && f(i) <= f(rot) ==> FirstMax(f, rot, i + 1)
  {
  }

  lemma FirstMaxIsFirstBest(original: string, r: string, w: Weights, rot: nat)
    requires FirstMax(RotationScores(original, r, w), rot, |r|)
    ensures IsFirstBestRotation(original, r, w, rot)
  {
    var f := RotationScores(original, r, w);
    forall j | 0 <= j < |r|
      ensures ScoreLinear(original, Rotate(r, j), w).0 <= ScoreLinear(original, Rotate(r, rot), w).0
    {
      assert f(j) <= f(rot);
    }
    forall j | 0 <= j < rot
      ensures ScoreLinear(original, Rotate(r, j), w).0 < ScoreLinear(original, Rotate(r, rot), w).0
    {
      assert f(j) < f(rot);
    }
  }

  /** Circular mode of `score_sequence`. An empty reconstruction has no
      rotation and yields minus infinity with empty details. */
  method ScoreCircular(original: string, r: string, w: Weights) returns (best: Score, details: Option<Details>)
    ensures |r| == 0 ==> best == NegInf && details == None
    ensures |r| > 0 ==> details.Some? && details.value.alignment.Circular?
    ensures |r| > 0 ==>
              var rot := details.value.alignment.rotation;
              && IsFirstBestRotation(original, r, w, rot)
              && details.value.alignment.aligned == Rotate(r, rot)
              && best == Finite(ScoreLinear(original, Rotate(r, rot), w).0)
              && details.value == AsCircular(ScoreLinear(original, Rotate(r, rot), w).1, rot, Rotate(r, rot))
  {
    best := NegInf;
    details := None;
    var rot := 0;
    var i := 0;
    ghost var f := RotationScores(original, r, w);
    while i < |r|
      invariant 0 <= i <= |r|
      invariant i == 0 ==> best == NegInf && details == None
      invariant i > 0 ==> FirstMax(f, rot, i) && rot < |r|
      invariant i > 0 ==> best == Finite(f(rot))
      invariant i > 0 ==> details == Some(AsCircular(ScoreLinear(original, Rotate(r, rot), w).1, rot, Rotate(r, rot)))
    {
      var rotated := r[i..] + r[..i];
      assert rotated == Rotate(r, i);
      var scored := ScoreLinear(original, rotated, w);
      assert f(i) == scored.0;
      FirstMaxStep(f, rot, i);
      if best.NegInf? || scored.0 > best.value {
        best := Finite(scored.0);
        rot := i;
        details := Some(AsCircular(scored.1, i, rotated));
      }
      i := i + 1;
    }
    if |r| > 0 {
      FirstMaxIsFirstBest(original, r, w, rot);
    }
  }

  /** `score_sequence(original, reconstructed, circular, ...)`. */
  method ScoreSequence(original: string, reconstructed: string, circular: bool, w: Weights)
    returns (score: Score, details: Option<Details>)
    ensures !circular ==> score == Finite(ScoreLinear(original, reconstructed, w).0)
                          && details == Some(ScoreLinear(original, reconstructed, w).1)
    ensures circular && |reconstructed| == 0 ==> score == NegInf && details == None
    ensures circular && |reconstructed| > 0 ==> details.Some? && details.value.alignment.Circular?
    ensures circular && |reconstructed| > 0 ==>
              var rot := details.value.alignment.rotation;
              && IsFirstBestRotation(original, reconstructed, w, rot)
              && details.value.alignment.aligned == Rotate(reconstructed, rot)
              && score == Finite(ScoreLinear(original, Rotate(reconstructed, rot), w).0)
              && details.value == AsCircular(ScoreLinear(original, Rotate(reconstructed, rot), w).1, rot, Rotate(reconstructed, rot))
  {
    if !circular {
      var scored := ScoreLinear(original, reconstructed, w);
      score, details := Finite(scored.0), Some(scored.1);
    } else {
      score, details := ScoreCircular(original, reconstructed, w);
    }
  }

  // ---------------------------------------------------------------------

  /** The circular search is determined: only one rotation is the first
      strict maximum. */
  lemma FirstBestRotationUnique(original: string, r: string, w: Weights, a: nat, b: nat)
    requires IsFirstBestRotation(original, r, w, a)
    requires IsFirstBestRotation(original, r, w, b)
    ensures a == b
  {
    var sa, sb := ScoreLinear(original, Rotate(r, a), w).0, ScoreLinear(original, Rotate(r, b), w).0;
    assert sa <= sb && sb <= sa;
    assert a < b ==> sa < sb;
    assert b < a ==> sb < sa;
  }

  /** No rotation does better than the unrotated reconstruction scores. */
  lemma CircularNoWorseThanLinear(original: string, r: string, w: Weights, rot: nat)
    requires |r| > 0 && IsFirstBestRotation(original, r, w, rot)
    ensures ScoreLinear(original, r, w).0 <= ScoreLinear(original, Rotate(r, rot), w).0
  {
    assert Rotate(r, 0) == r;
  }

  lemma RotateBack(s: string, t: nat)
    requires t < |s|
    ensures Rotate(Rotate(s, t), if t == 0 then 0 else |s| - t) == s
  {
    var u := if t == 0 then 0 else |s| - t;
    var back := Rotate(Rotate(s, t), u);
    forall j | 0 <= j < |s|
      ensures back[j] == s[j]
    {
    }
  }

  /** With `a + k == n` and a match worth more than a mismatch, a weighted
      sum reaching `n` matches' worth has no mismatch. */
  lemma NoMismatchAtTop(a: nat, k: nat, n: nat, m: real, mm: real)
    requires a + k == n && m > mm
    requires (a as real) * m + (k as real) * mm >= (n as real) * m
    ensures k == 0
  {
    assert (a as real) + (k as real) == n as real;
    assert (n as real) * m == (a as real) * m + (k as real) * m;
    assert (k as real) * (m - mm) <= 0.0;
  }

  /** Comparing a string with itself scores a match everywhere. */
  lemma SelfScore(original: string, w: Weights)
    ensures ScoreLinear(original, original, w).0 == (|original| as real) * w.matchScore
  {
  }

  /** When a match is worth more than a mismatch, an equal-length candidate
      reaches the self-comparison score only if it is the original. */
  lemma OnlyOriginalScoresPerfect(original: string, cand: string, w: Weights)
    requires |cand| == |original|
    requires w.matchScore > w.mismatchScore
    requires ScoreLinear(original, cand, w).0 >= (|original| as real) * w.matchScore
    ensures cand == original
  {
    var n := |original|;
    var d := ScoreLinear(original, cand, w).1;
    assert d.lengthDiff == 0;
    NoMismatchAtTop(d.matches, d.mismatches, n, w.matchScore, w.mismatchScore);
    LinearCountsMeaning(original, cand, w);
    assert original[..n] == original && cand[..n] == cand;
  }

  /** Round trip at the scoring end: when the reconstruction is a rotation
      of the original and a match is worth more than a mismatch, the
      circular search aligns it back onto the original with 100% identity. */
  lemma RotatedCopyScoresFullIdentity(original: string, t: nat, w: Weights, rot: nat)
    requires t < |original|
    requires w.matchScore > w.mismatchScore
    requires IsFirstBestRotation(original, Rotate(original, t), w, rot)
    ensures Rotate(Rotate(original, t), rot) == original
    ensures ScoreLinear(original, Rotate(Rotate(original, t), rot), w).1.percentIdentity == 100.0
  {
    var r := Rotate(original, t);
    var u := if t == 0 then 0 else |original| - t;
    RotateBack(original, t);
    SelfScore(original, w);
    assert ScoreLinear(original, Rotate(r, u), w).0 <= ScoreLinear(original, Rotate(r, rot), w).0;
    OnlyOriginalScoresPerfect(original, Rotate(r, rot), w);
  }
}
