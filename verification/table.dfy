/** A JavaScript object literal used as a lookup table: its entries in
    source order, each a (key, value) pair of strings. Looking a key up
    finds the entry with that key. */
module Table {
  import opened Optional

  type Table = seq<(string, string)>

  /** Position of the first entry whose key is `key`. */
  function Find(t: Table, key: string): (r: Option<nat>)
    ensures r.Some? ==> r.value < |t|
  {
    if |t| == 0 then None
    else if t[0].0 == key then Some(0)
    else match Find(t[1..], key)
      case Some(i) => Some(i + 1)
      case None => None
  }

  /** `table[key]`, `None` standing for `undefined`. */
  function Lookup(t: Table, key: string): Option<string>
  {
    match Find(t, key)
    case Some(i) => Some(t[i].1)
    case None => None
  }

  /** `Find` yields the first entry with the key, and nothing exactly when
      no entry has it. */
  lemma {:induction false} FindSpec(t: Table, key: string)
    ensures Find(t, key).Some? ==> t[Find(t, key).value].0 == key
    ensures Find(t, key).Some? ==> forall k :: 0 <= k < Find(t, key).value ==> t[k].0 != key
    ensures Find(t, key).None? <==> forall i :: 0 <= i < |t| ==> t[i].0 != key
  {
    if |t| > 0 && t[0].0 != key {
      FindSpec(t[1..], key);
      assert forall i :: 1 <= i < |t| ==> t[i] == t[1..][i - 1];
    }
  }

  /** A key is found exactly when some entry has it, and the value found
      is that entry's. */
  lemma LookupSpec(t: Table, key: string)
    ensures Lookup(t, key).Some? <==> exists i :: 0 <= i < |t| && t[i].0 == key
    ensures Lookup(t, key).Some? ==> exists i :: 0 <= i < |t| && t[i] == (key, Lookup(t, key).value)
  {
    FindSpec(t, key);
  }

  /** No key occurs twice. */
  predicate DistinctKeys(t: Table)
  {
    forall i, k :: 0 <= i < k < |t| ==> t[i].0 != t[k].0
  }

  /** Keys that are single characters in strictly increasing order are
      distinct. */
  lemma AscendingKeysDistinct(t: Table)
    requires forall i :: 0 <= i < |t| ==> |t[i].0| == 1
    requires forall i :: 0 <= i < |t| - 1 ==> t[i].0[0] < t[i + 1].0[0]
    ensures DistinctKeys(t)
  {
    forall i, k | 0 <= i < k < |t|
      ensures t[i].0 != t[k].0
    {
      var j := i;
      while j < k
        invariant i <= j <= k
        invariant t[i].0[0] <= t[j].0[0]
        invariant j > i ==> t[i].0[0] < t[j].0[0]
      {
        j := j + 1;
      }
    }
  }

  /** `back` lists the entries of `forth` with key and value swapped. */
  predicate Mirrors(forth: Table, back: Table)
  {
    |forth| == |back| && forall i :: 0 <= i < |forth| ==> back[i] == (forth[i].1, forth[i].0)
  }

  lemma MirrorsSymmetric(forth: Table, back: Table)
    requires Mirrors(forth, back)
    ensures Mirrors(back, forth)
  {
  }

  /** With distinct keys, the entry at position `i` is the one found for
      its key. */
  lemma FindDistinct(t: Table, i: nat)
    requires DistinctKeys(t) && i < |t|
    ensures Find(t, t[i].0) == Some(i)
  {
    FindSpec(t, t[i].0);
  }

  /** Looking a key up in one table and the result up in its mirror gives
      the key back, provided the mirror's keys (the first table's values)
      are distinct. */
  lemma LookupThenBack(forth: Table, back: Table, key: string)
    requires Mirrors(forth, back) && DistinctKeys(back)
    ensures Lookup(forth, key).Some? ==> Lookup(back, Lookup(forth, key).value) == Some(key)
  {
    FindSpec(forth, key);
    match Find(forth, key)
    case Some(i) =>
      assert back[i].0 == forth[i].1;
      FindDistinct(back, i);
    case None =>
  }
}
