/** Python's built-in `dict` from file path to digest string, restricted to the operations
    the reconciler uses. A dict remembers insertion order, so it is modelled as its list of
    (key, value) pairs in that order; a dict never holds the same key twice (`DistinctKeys`). */
module Dicts {

  type Path = string
  type Digest = string

  /** The (key, value) pairs of a dict, in insertion order. */
  type Dict = seq<(Path, Digest)>

  datatype Option<T> = None | Some(value: T)

  /** `list(d.keys())` */
  function Keys(d: Dict): seq<Path>
  {
    seq(|d|, i requires 0 <= i < |d| => d[i].0)
  }

  /** `list(d.values())` */
  function Values(d: Dict): seq<Digest>
  {
    seq(|d|, i requires 0 <= i < |d| => d[i].1)
  }

  /** The invariant every Python dict keeps: no key occurs twice. */
  predicate DistinctKeys(d: Dict)
  {
    forall i, j | 0 <= i < j < |d| :: d[i].0 != d[j].0
  }

  /** Where key `k` sits in `d`. */
  function IndexOf(d: Dict, k: Path): (i: nat)
    requires k in Keys(d)
    ensures i < |d| && d[i].0 == k
    ensures forall j | 0 <= j < i :: d[j].0 != k
  {
    if d[0].0 == k then 0
    else
      assert k in Keys(d[1..]) by {
        var j :| 0 <= j < |d| && Keys(d)[j] == k;
        assert Keys(d[1..])[j - 1] == k;
      }
      IndexOf(d[1..], k) + 1
  }

  /** In a dict with distinct keys, the key of entry `a` is found at index `a`. */
  lemma IndexOfEntry(d: Dict, a: nat)
    requires DistinctKeys(d) && a < |d|
    ensures d[a].0 in Keys(d) && IndexOf(d, d[a].0) == a
  {
    assert Keys(d)[a] == d[a].0;
  }

  /** `d[k]` for a key `k` that is present (the reconciler never reads a missing key). */
  function Get(d: Dict, k: Path): (v: Digest)
    requires k in Keys(d)
    ensures (k, v) in d
    ensures DistinctKeys(d) ==> forall i | 0 <= i < |d| && d[i].0 == k :: d[i].1 == v
  {
    d[IndexOf(d, k)].1
  }

  /** `d.pop(k)`: `None` is the `KeyError` Python raises when `k` is absent; otherwise the
      value that was stored under `k` and the dict without that entry, the other entries
      keeping their order. What it removes is stated by `PopTakesEntry`. */
  function Pop(d: Dict, k: Path): (r: Option<(Digest, Dict)>)
    requires DistinctKeys(d)
    ensures r.None? <==> k !in Keys(d)
    ensures r.Some? ==> DistinctKeys(r.value.1)
  {
    if k !in Keys(d) then None
    else
      var i := IndexOf(d, k);
      Some((d[i].1, d[..i] + d[i + 1..]))
  }

  /** `d.pop(k)` hands back the value stored under `k` and removes exactly that entry: the
      dict shrinks by one, every other entry stays, the other keys keep their order, and the
      popped value leaves the multiset of values. */
  lemma PopTakesEntry(d: Dict, k: Path)
    requires DistinctKeys(d) && k in Keys(d)
    ensures var r := Pop(d, k);
      && r.Some?
      && r.value.0 == Get(d, k)
      && |r.value.1| == |d| - 1
      && Keys(r.value.1) == Keys(d)[..IndexOf(d, k)] + Keys(d)[IndexOf(d, k) + 1..]
      && (forall e :: e in r.value.1 <==> e in d && e.0 != k)
      && (forall k' :: k' in Keys(r.value.1) <==> k' in Keys(d) && k' != k)
      && multiset(Values(d)) == multiset(Values(r.value.1)) + multiset{r.value.0}
  {
    var i := IndexOf(d, k);
    var rest := d[..i] + d[i + 1..];
    assert Pop(d, k) == Some((d[i].1, rest));
    assert Keys(rest) == Keys(d)[..i] + Keys(d)[i + 1..] by { KeysOfRemoveAt(d, i); }
    assert forall e :: e in rest <==> e in d && e.0 != k by { RemoveAtEntries(d, i); }
    assert forall k' :: k' in Keys(rest) <==> k' in Keys(d) && k' != k by { RemoveAtKeys(d, i); }
    RemoveAtValues(d, i);
  }

  /** Removing the entry at index `i` removes its key from the keys, the others keeping
      their order. */
  lemma KeysOfRemoveAt(d: Dict, i: nat)
    requires i < |d|
    ensures Keys(d[..i] + d[i + 1..]) == Keys(d)[..i] + Keys(d)[i + 1..]
  {
    var rest := d[..i] + d[i + 1..];
    forall j | 0 <= j < |rest| ensures Keys(rest)[j] == (Keys(d)[..i] + Keys(d)[i + 1..])[j] {
      if j < i { assert rest[j] == d[j]; } else { assert rest[j] == d[j + 1]; }
    }
  }

  /** Removing the entry at index `i` of a dict removes its key and keeps every other key. */
  lemma RemoveAtKeys(d: Dict, i: nat)
    requires DistinctKeys(d) && i < |d|
    ensures forall k' :: k' in Keys(d[..i] + d[i + 1..]) <==> k' in Keys(d) && k' != d[i].0
  {
    var rest := d[..i] + d[i + 1..];
    forall k' | k' in Keys(rest) ensures k' in Keys(d) && k' != d[i].0 {
      RemovedKeyCameFromDict(d, i, k');
    }
    forall k' | k' in Keys(d) && k' != d[i].0 ensures k' in Keys(rest) {
      KeptKeyStays(d, i, k');
    }
  }

  /** A key left after removing the entry at index `i` was a key of the dict other than its. */
  lemma RemovedKeyCameFromDict(d: Dict, i: nat, k': Path)
    requires DistinctKeys(d) && i < |d| && k' in Keys(d[..i] + d[i + 1..])
    ensures k' in Keys(d) && k' != d[i].0
  {
    var rest := d[..i] + d[i + 1..];
    var j :| 0 <= j < |rest| && Keys(rest)[j] == k';
    if j < i { assert Keys(d)[j] == k'; } else { assert Keys(d)[j + 1] == k'; }
  }

  /** Every key other than that of the entry at index `i` is left after removing that entry. */
  lemma KeptKeyStays(d: Dict, i: nat, k': Path)
    requires i < |d| && k' in Keys(d) && k' != d[i].0
    ensures k' in Keys(d[..i] + d[i + 1..])
  {
    var rest := d[..i] + d[i + 1..];
    var j :| 0 <= j < |d| && Keys(d)[j] == k';
    if j < i { assert Keys(rest)[j] == k'; } else { assert Keys(rest)[j - 1] == k'; }
  }

  /** Removing the entry at index `i` removes one copy of its value from the values. */
  lemma RemoveAtValues(d: Dict, i: nat)
    requires i < |d|
    ensures multiset(Values(d)) == multiset(Values(d[..i] + d[i + 1..])) + multiset{d[i].1}
  {
    var rest := d[..i] + d[i + 1..];
    assert Values(d) == Values(d[..i]) + [d[i].1] + Values(d[i + 1..]);
    assert Values(rest) == Values(d[..i]) + Values(d[i + 1..]);
  }

  /** Removing the entry at index `i` of a dict removes exactly the entries with its key. */
  lemma RemoveAtEntries(d: Dict, i: nat)
    requires DistinctKeys(d) && i < |d|
    ensures forall e :: e in d[..i] + d[i + 1..] <==> e in d && e.0 != d[i].0
  {
    var rest := d[..i] + d[i + 1..];
    forall e ensures e in rest <==> e in d && e.0 != d[i].0 {
      if e in rest {
        var j :| 0 <= j < |rest| && rest[j] == e;
        if j < i { assert d[j] == e; } else { assert d[j + 1] == e; }
      }
      if e in d && e.0 != d[i].0 {
        var j :| 0 <= j < |d| && d[j] == e;
        if j < i { assert rest[j] == e; } else { assert rest[j - 1] == e; }
      }
    }
  }

  /** `d[k] = v`: overwrites the value in place when `k` is present, otherwise appends the
      new key at the end of the insertion order. What it stores is stated by `SetItemStores`. */
  function SetItem(d: Dict, k: Path, v: Digest): (r: Dict)
    requires DistinctKeys(d)
    ensures DistinctKeys(r)
  {
    if k in Keys(d) then
      d[IndexOf(d, k) := (k, v)]
    else
      var r := d + [(k, v)];
      assert DistinctKeys(r) by {
        forall i, j | 0 <= i < j < |r| ensures r[i].0 != r[j].0 {
          if j == |d| { assert Keys(d)[i] == r[i].0; }
        }
      }
      r
  }

  /** After `d[k] = v`, `d[k]` is `v`; a present key keeps its place, an absent one becomes
      the last entry and adds `v` to the values; every other entry is kept and nothing else
      is added. */
  lemma SetItemStores(d: Dict, k: Path, v: Digest)
    requires DistinctKeys(d)
    ensures var r := SetItem(d, k, v);
      && k in Keys(r) && Get(r, k) == v
      && (k in Keys(d) ==> Keys(r) == Keys(d))
      && (k !in Keys(d) ==> Keys(r) == Keys(d) + [k] && r[|r| - 1] == (k, v))
      && (k !in Keys(d) ==> multiset(Values(r)) == multiset(Values(d)) + multiset{v})
      && (forall e | e in d && e.0 != k :: e in r)
      && (forall e | e in r :: e == (k, v) || (e in d && e.0 != k))
  {
    var r := SetItem(d, k, v);
    if k in Keys(d) {
      var i := IndexOf(d, k);
      assert r == d[i := (k, v)];
      assert Keys(r) == Keys(d);
      assert r[i] == (k, v);
      forall e | e in d && e.0 != k ensures e in r {
        var j :| 0 <= j < |d| && d[j] == e;
        assert r[j] == e;
      }
    } else {
      assert r == d + [(k, v)];
      assert Keys(r) == Keys(d) + [k];
      assert Values(r) == Values(d) + [v];
      assert r[|d|] == (k, v);
    }
  }
}
