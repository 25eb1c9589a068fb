/** A JavaScript object used as a dictionary: string keys, each at most
    once, enumerated by `for…in` in insertion order. */
module Ordered {
  import opened Wrappers

  type Dict<V> = seq<(string, V)>

  /** No key occurs twice. */
  ghost predicate Distinct<V>(d: Dict<V>) {
    forall i, j :: 0 <= i < j < |d| ==> d[i].0 != d[j].0
  }

  /** Position of key `k`, if it is present. */
  function Find<V>(d: Dict<V>, k: string): (r: Option<nat>)
    ensures r.Some? ==> r.value < |d| && d[r.value].0 == k
    ensures r.None? ==> forall i :: 0 <= i < |d| ==> d[i].0 != k
  {
    if d == [] then None
    else if d[|d| - 1].0 == k then Some(|d| - 1)
    else Find(d[..|d| - 1], k)
  }

  /** `d[k]`, None for `undefined`. */
  function Get<V>(d: Dict<V>, k: string): Option<V> {
    match Find(d, k)
    case None => None
    case Some(i) => Some(d[i].1)
  }

  /** `d[k] = v`: an existing key keeps its place, a new key goes last. */
  function Put<V>(d: Dict<V>, k: string, v: V): (r: Dict<V>)
    ensures |r| == (if Find(d, k).Some? then |d| else |d| + 1)
    ensures forall i :: 0 <= i < |d| ==> r[i].0 == d[i].0
  {
    match Find(d, k)
    case None => d + [(k, v)]
    case Some(i) => d[i := (k, v)]
  }

  /** `delete d[k]`: the entry of `k`, if any, goes and the others keep
      their order. */
  function Remove<V>(d: Dict<V>, k: string): Dict<V> {
    match Find(d, k)
    case None => d
    case Some(i) => d[..i] + d[i + 1..]
  }

  /** In a dictionary without duplicates a key is found where it is. */
  lemma FindAt<V>(d: Dict<V>, i: nat)
    requires Distinct(d) && i < |d|
    ensures Find(d, d[i].0) == Some(i)
  {
  }

  /** After `d[k] = v`, reading `k` gives `v`, every other key reads as
      before, and no key is duplicated. */
  lemma PutGet<V>(d: Dict<V>, k: string, v: V, other: string)
    requires Distinct(d)
    ensures Distinct(Put(d, k, v))
    ensures Get(Put(d, k, v), k) == Some(v)
    ensures other != k ==> Get(Put(d, k, v), other) == Get(d, other)
  {
    var r := Put(d, k, v);
    match Find(d, k)
    case None =>
      assert r[|r| - 1] == (k, v);
      assert r[..|r| - 1] == d;
    case Some(i) =>
      assert r[i] == (k, v);
      FindAt(r, i);
      match Find(d, other)
      case None =>
      case Some(j) =>
        FindAt(r, j);
  }

  /** Dropping the entry at `i` shifts the later entries down by one and
      duplicates no key. */
  lemma DropAt<V>(d: Dict<V>, i: nat)
    requires Distinct(d) && i < |d|
    ensures forall j :: 0 <= j < i ==> (d[..i] + d[i + 1..])[j] == d[j]
    ensures forall j :: i < j < |d| ==> (d[..i] + d[i + 1..])[j - 1] == d[j]
    ensures Distinct(d[..i] + d[i + 1..])
  {
  }

  /** Once its entry is dropped, a key of a dictionary without duplicates
      is absent. */
  lemma DropAbsent<V>(d: Dict<V>, i: nat)
    requires Distinct(d) && i < |d|
    ensures Find(d[..i] + d[i + 1..], d[i].0) == None
  {
    DropAt(d, i);
  }

  /** Dropping the entry at `i` leaves the readings of the other keys. */
  lemma DropOther<V>(d: Dict<V>, i: nat, other: string)
    requires Distinct(d) && i < |d| && d[i].0 != other
    ensures Get(d[..i] + d[i + 1..], other) == Get(d, other)
  {
    var r := d[..i] + d[i + 1..];
    DropAt(d, i);
    match Find(d, other)
    case None =>
    case Some(j) =>
      var at := if j < i then j else j - 1;
      assert r[at] == d[j];
      FindAt(r, at);
  }

  /** After `delete d[k]`, `k` reads `undefined`, every other key reads as
      before, no key is duplicated, and exactly one entry has gone when
      `k` was present. */
  lemma RemoveGet<V>(d: Dict<V>, k: string, other: string)
    requires Distinct(d)
    ensures Distinct(Remove(d, k))
    ensures Get(Remove(d, k), k) == None
    ensures other != k ==> Get(Remove(d, k), other) == Get(d, other)
    ensures |Remove(d, k)| == if Find(d, k).Some? then |d| - 1 else |d|
  {
    match Find(d, k)
    case None =>
    case Some(i) =>
      DropAt(d, i);
      DropAbsent(d, i);
      if other != k {
        DropOther(d, i, other);
      }
  }
}
