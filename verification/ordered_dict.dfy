/** Insertion-ordered dictionaries keyed by strings, as Python 3 dicts
    behave: a sequence of key/value pairs whose keys are pairwise distinct. */
module OrderedDict {

  type Dict<V> = seq<(string, V)>

  function Keys<V>(d: Dict<V>): (ks: seq<string>)
    ensures |ks| == |d|
    ensures forall i :: 0 <= i < |d| ==> ks[i] == d[i].0
  {
    if |d| == 0 then [] else Keys(d[..|d| - 1]) + [d[|d| - 1].0]
  }

  ghost predicate KeysDistinct<V>(d: Dict<V>) {
    forall i, j :: 0 <= i < j < |d| ==> d[i].0 != d[j].0
  }

  function KeySet<V>(d: Dict<V>): set<string> {
    set i | 0 <= i < |d| :: d[i].0
  }

  /** Position of `key` in `d`, or `|d|` when it is absent. */
  function Find<V>(d: Dict<V>, key: string): (x: nat)
    ensures x <= |d|
    ensures x < |d| ==> d[x].0 == key
    ensures forall i :: 0 <= i < x ==> d[i].0 != key
  {
    if |d| == 0 then 0
    else if d[0].0 == key then 0
    else 1 + Find(d[1..], key)
  }

  /** `d[key]` on a `defaultdict`: the stored value, or `default` when absent. */
  function Get<V>(d: Dict<V>, key: string, default: V): (v: V)
    ensures forall i :: 0 <= i < |d| && d[i].0 == key ==> v == d[Find(d, key)].1
    ensures (forall i :: 0 <= i < |d| ==> d[i].0 != key) ==> v == default
  {
    var x := Find(d, key);
    if x < |d| then d[x].1 else default
  }

  /** `Find` is the first position holding `key`. */
  lemma FindIs<V>(d: Dict<V>, key: string, x: nat)
    requires x <= |d|
    requires x < |d| ==> d[x].0 == key
    requires forall i :: 0 <= i < x ==> d[i].0 != key
    ensures Find(d, key) == x
  {
  }

  /** `d[key] = v`: the entry of `key` is overwritten in place, or appended
      when absent. */
  function Put<V>(d: Dict<V>, key: string, v: V): (r: Dict<V>)
    ensures |r| > 0
    ensures forall y :: 0 <= y < |r| ==> r[y].0 == key || (y < |d| && r[y] == d[y])
  {
    var x := Find(d, key);
    if x < |d| then d[x := (key, v)] else d + [(key, v)]
  }

  /** After `d[key] = v`, looking up `key` gives `v` and every other key
      reads as before. */
  lemma GetPut<V>(d: Dict<V>, key: string, v: V, other: string, default: V)
    ensures Get(Put(d, key, v), other, default) == if other == key then v else Get(d, other, default)
  {
    var x := Find(d, key);
    var d' := Put(d, key, v);
    var y := Find(d, other);
    assert forall i :: 0 <= i < |d| && i != x ==> d'[i] == d[i];
    if other == key {
      FindIs(d', key, x);
    } else if y < |d| {
      FindIs(d', other, y);
    } else {
      FindIs(d', other, |d'|);
    }
  }

  /** `d[key] = v` keeps the keys distinct; a new key goes to the end. */
  lemma PutKeys<V>(d: Dict<V>, key: string, v: V)
    requires KeysDistinct(d)
    ensures KeysDistinct(Put(d, key, v))
    ensures Keys(Put(d, key, v)) == if key in Keys(d) then Keys(d) else Keys(d) + [key]
  {
    var x := Find(d, key);
    var d' := Put(d, key, v);
    if x < |d| {
      assert Keys(d') == Keys(d);
      assert Keys(d)[x] == key;
    } else {
      assert key !in Keys(d);
      assert Keys(d') == Keys(d) + [key];
    }
  }
}
