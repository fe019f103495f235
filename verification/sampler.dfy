/** Random k-mer removal (`remove_random_kmers`): delete
    `int(total * percentage / 100)` distinct keys, drawn by `random.sample`.
    The random draw is a parameter: any set of keys of the requested size. */
module Sampler {
  import opened OrderedDict
  import opened Wrappers
  import opened Kmers

  /** `int(total * percentage / 100)`, in exact real arithmetic; Python's
      `int` truncates toward zero. */
  function RemoveCount(total: nat, percentage: real): (c: int)
    ensures percentage >= 0.0 ==> 0 <= c && c as real <= (total as real) * percentage / 100.0 < c as real + 1.0
    ensures percentage < 0.0 ==> c <= 0 && c as real - 1.0 < (total as real) * percentage / 100.0 <= c as real
    ensures 0.0 <= percentage <= 100.0 ==> c <= total
  {
    var x := (total as real) * percentage / 100.0;
    if x >= 0.0 then x.Floor else -((-x).Floor)
  }

  /** The entries of `d` whose key is not in `drop`, in their original order. */
  function Without<V>(d: Dict<V>, drop: set<string>): Dict<V> {
    if |d| == 0 then []
    else Without(d[..|d| - 1], drop) + (if d[|d| - 1].0 in drop then [] else [d[|d| - 1]])
  }

  /** `remove_random_kmers(kmers, percentage)` where `random.sample` drew `drawn`.
      `random.sample` fails for a size that is negative or exceeds the number
      of keys; otherwise it yields that many distinct keys. */
  function RemoveRandomKmers(kmers: Dict<nat>, percentage: real, drawn: set<string>): (r: Result<Dict<nat>>)
    requires KeysDistinct(kmers)
    requires 0 <= RemoveCount(|kmers|, percentage) <= |kmers| ==>
               drawn <= KeySet(kmers) && |drawn| == RemoveCount(|kmers|, percentage)
    ensures r.Ok? <==> 0 <= RemoveCount(|kmers|, percentage) <= |kmers|
    ensures r.Err? ==> r.error == InvalidSampleSize
    ensures r.Ok? ==> KeysDistinct(r.value)
    ensures r.Ok? ==> KeySet(r.value) == KeySet(kmers) - drawn
    ensures r.Ok? ==> |r.value| == |kmers| - RemoveCount(|kmers|, percentage)
    ensures r.Ok? ==> forall e :: e in r.value ==> e in kmers
    ensures r.Ok? ==> forall key :: key !in drawn ==> Count(r.value, key) == Count(kmers, key)
    ensures r.Ok? ==> forall i, j :: 0 <= i < j < |r.value| ==> Find(kmers, r.value[i].0) < Find(kmers, r.value[j].0)
  {
    var n := RemoveCount(|kmers|, percentage);
    if n < 0 || n > |kmers| then
      Err(InvalidSampleSize)
    else
      WithoutSpec(kmers, drawn);
      WithoutOrder(kmers, drawn);
      Ok(Without(kmers, drawn))
  }

  // ---------------------------------------------------------------------

  lemma {:induction false} KeySetSize<V>(d: Dict<V>)
    requires KeysDistinct(d)
    ensures |KeySet(d)| == |d|
  {
    if |d| > 0 {
      var pre := d[..|d| - 1];
      KeySetSize(pre);
      assert KeySet(d) == KeySet(pre) + {d[|d| - 1].0};
      assert d[|d| - 1].0 !in KeySet(pre);
    }
  }

  lemma {:induction false} WithoutMembers<V>(d: Dict<V>, drop: set<string>)
    ensures forall e :: e in Without(d, drop) <==> e in d && e.0 !in drop
  {
    if |d| > 0 {
      WithoutMembers(d[..|d| - 1], drop);
      assert d == d[..|d| - 1] + [d[|d| - 1]];
    }
  }

  lemma WithoutMember<V>(d: Dict<V>, drop: set<string>, e: (string, V))
    ensures e in Without(d, drop) <==> e in d && e.0 !in drop
  {
    WithoutMembers(d, drop);
  }

  /** Survivors keep their relative order, and keys stay distinct. */
  lemma {:induction false} WithoutOrder<V>(d: Dict<V>, drop: set<string>)
    requires KeysDistinct(d)
    ensures KeysDistinct(Without(d, drop))
    ensures forall i, j :: 0 <= i < j < |Without(d, drop)| ==>
              Find(d, Without(d, drop)[i].0) < Find(d, Without(d, drop)[j].0)
  {
    if |d| > 0 {
      var pre := d[..|d| - 1];
      var last := d[|d| - 1];
      var r := Without(d, drop);
      var rp := Without(pre, drop);
      WithoutOrder(pre, drop);
      forall i | 0 <= i < |rp|
        ensures Find(d, rp[i].0) == Find(pre, rp[i].0) < |pre|
        ensures rp[i].0 != last.0
      {
        WithoutMember(pre, drop, rp[i]);
        var y :| 0 <= y < |pre| && pre[y] == rp[i];
        assert Find(pre, rp[i].0) <= y;
        assert d[y] == pre[y];
      }
      if last.0 !in drop {
        assert r == rp + [last];
        assert Find(d, last.0) == |pre|;
        forall i, j | 0 <= i < j < |r|
          ensures r[i].0 != r[j].0
          ensures Find(d, r[i].0) < Find(d, r[j].0)
        {
          assert r[i] == rp[i];
          if j < |rp| {
            assert r[j] == rp[j];
          }
        }
      } else {
        assert r == rp;
      }
    }
  }

  lemma WithoutKeySet<V>(d: Dict<V>, drop: set<string>)
    ensures KeySet(Without(d, drop)) == KeySet(d) - drop
  {
    var r := Without(d, drop);
    WithoutMembers(d, drop);
    forall key | key in KeySet(d) - drop
      ensures key in KeySet(r)
    {
      var i :| 0 <= i < |d| && d[i].0 == key;
      assert d[i] in r;
    }
    forall key | key in KeySet(r)
      ensures key in KeySet(d) - drop
    {
      var i :| 0 <= i < |r| && r[i].0 == key;
      assert r[i] in r;
    }
  }

  lemma WithoutGet<V>(d: Dict<V>, drop: set<string>, key: string, v: V)
    requires KeysDistinct(d) && key !in drop
    ensures Get(Without(d, drop), key, v) == Get(d, key, v)
  {
    var r := Without(d, drop);
    WithoutMembers(d, drop);
    WithoutOrder(d, drop);
    var x := Find(d, key);
    if x < |d| {
      assert d[x] in r;
      var y :| 0 <= y < |r| && r[y] == d[x];
      FindIs(r, key, y);
    } else {
      forall y | 0 <= y < |r|
        ensures r[y].0 != key
      {
        assert r[y] in r;
        WithoutMember(d, drop, r[y]);
        var i :| 0 <= i < |d| && d[i] == r[y];
      }
      FindIs(r, key, |r|);
    }
  }

  /** Dropping keys keeps the others, with their values, in a dictionary
      whose keys stay distinct; when every dropped key was present the
      dictionary shrinks by their number. */
  lemma WithoutSpec<V>(d: Dict<V>, drop: set<string>)
    requires KeysDistinct(d)
    ensures KeysDistinct(Without(d, drop))
    ensures KeySet(Without(d, drop)) == KeySet(d) - drop
    ensures drop <= KeySet(d) ==> |Without(d, drop)| == |d| - |drop|
    ensures forall e :: e in Without(d, drop) <==> e in d && e.0 !in drop
    ensures forall key, v :: key !in drop ==> Get(Without(d, drop), key, v) == Get(d, key, v)
  {
    var r := Without(d, drop);
    WithoutMembers(d, drop);
    WithoutOrder(d, drop);
    WithoutKeySet(d, drop);
    KeySetSize(d);
    KeySetSize(r);
    forall key, v | key !in drop
      ensures Get(r, key, v) == Get(d, key, v)
    {
      WithoutGet(d, drop, key, v);
    }
  }

  /** A zero percentage removes nothing. */
  lemma ZeroPercentIsIdentity(kmers: Dict<nat>, drawn: set<string>)
    requires KeysDistinct(kmers)
    requires drawn <= KeySet(kmers) && |drawn| == 0
    ensures RemoveRandomKmers(kmers, 0.0, drawn) == Ok(kmers)
  {
    assert drawn == {};
    WithoutNothing(kmers);
  }

  lemma {:induction false} WithoutNothing<V>(d: Dict<V>)
    ensures Without(d, {}) == d
  {
    if |d| > 0 {
      WithoutNothing(d[..|d| - 1]);
    }
  }

  /** A hundred percent removes every key. */
  lemma FullRemovalEmpties(kmers: Dict<nat>, drawn: set<string>)
    requires KeysDistinct(kmers)
    requires drawn <= KeySet(kmers) && |drawn| == |kmers|
    ensures RemoveRandomKmers(kmers, 100.0, drawn) == Ok([])
  {
    KeySetSize(kmers);
    SubsetOfSameSize(drawn, KeySet(kmers));
    WithoutSpec(kmers, drawn);
  }

  lemma SubsetOfSameSize(a: set<string>, b: set<string>)
    requires a <= b && |a| == |b|
    ensures a == b
  {
    assert |b - a| == |b| - |a|;
  }
}
