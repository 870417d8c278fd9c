/** Python's insertion-ordered `dict` with string keys, as a sequence of key/value pairs.
    Assigning `d[k] = v` overwrites the value of an existing key in place and
    appends a new key at the end, so the key order is the order of first
    insertion. */
module Dicts {
  import opened Wrappers

  type Dict<V> = seq<(string, V)>

  /** `list(d.keys())`. */
  function Keys<V>(d: Dict<V>): (r: seq<string>)
    ensures |r| == |d|
    ensures forall i :: 0 <= i < |d| ==> r[i] == d[i].0
  {
    seq(|d|, i requires 0 <= i < |d| => d[i].0)
  }

  /** Every key occurs once, as in every Python dict. */
  predicate UniqueKeys<V>(d: Dict<V>) {
    forall i, j :: 0 <= i < j < |d| ==> d[i].0 != d[j].0
  }

  /** The first position of `k` in `ks`. */
  function Find(ks: seq<string>, k: string): (i: nat)
    requires k in ks
    ensures i < |ks| && ks[i] == k
    ensures forall j :: 0 <= j < i ==> ks[j] != k
  {
    if ks[0] == k then 0 else 1 + Find(ks[1..], k)
  }

  /** Extending a sequence does not move the first position of a key already in it. */
  lemma FindAppend(ks: seq<string>, extra: seq<string>, k: string)
    requires k in ks
    ensures Find(ks + extra, k) == Find(ks, k)
  {
    var i := Find(ks, k);
    var j := Find(ks + extra, k);
    assert (ks + extra)[i] == k;
  }

  /** `d.get(k)`. */
  function Get<V>(d: Dict<V>, k: string): (r: Option<V>)
    ensures r.Some? <==> k in Keys(d)
    ensures r.Some? ==> (k, r.value) in d
  {
    var ks := Keys(d);
    if k in ks then Some(d[Find(ks, k)].1) else None
  }

  /** In a dict with unique keys, the entry at position `i` is what `Get` finds. */
  lemma GetAt<V>(d: Dict<V>, i: nat)
    requires UniqueKeys(d) && i < |d|
    ensures Get(d, d[i].0) == Some(d[i].1)
  {
    assert Keys(d)[i] == d[i].0;
  }

  /** `d[k] = v`. */
  function Set<V>(d: Dict<V>, k: string, v: V): (r: Dict<V>)
    ensures Get(r, k) == Some(v)
    ensures forall k' :: k' != k ==> Get(r, k') == Get(d, k')
    ensures k in Keys(d) ==> Keys(r) == Keys(d)
    ensures k !in Keys(d) ==> Keys(r) == Keys(d) + [k]
    ensures UniqueKeys(d) ==> UniqueKeys(r)
  {
    var ks := Keys(d);
    if k in ks then
      var r := d[Find(ks, k) := (k, v)];
      assert Keys(r) == ks;
      r
    else
      var r := d + [(k, v)];
      assert Keys(r) == ks + [k];
      forall k' | k' in ks
        ensures Find(ks + [k], k') == Find(ks, k')
      {
        FindAppend(ks, [k], k');
      }
      r
  }

  /** Assigning a key the value it already has changes nothing; in
      particular assigning the same pair twice is assigning it once. */
  lemma SetUnchanged<V>(d: Dict<V>, k: string, v: V)
    requires Get(d, k) == Some(v)
    ensures Set(d, k, v) == d
  {
    var i := Find(Keys(d), k);
    assert d[i].0 == k && d[i].1 == v;
    assert d[i := (k, v)] == d;
  }

  /** Every pair after an assignment was there before or is the new one. */
  lemma SetMembers<V>(d: Dict<V>, k: string, v: V)
    ensures forall p :: p in Set(d, k, v) ==> p in d || p == (k, v)
  {
    var ks := Keys(d);
    if k in ks {
      var i := Find(ks, k);
      forall p | p in d[i := (k, v)]
        ensures p in d || p == (k, v)
      {
        var j :| 0 <= j < |d| && d[i := (k, v)][j] == p;
        if j != i {
          assert d[j] == p;
        }
      }
    }
  }

  /** `d.update(ps)`: assign the pairs one after the other. */
  function SetAll<V>(d: Dict<V>, ps: Dict<V>): (r: Dict<V>)
    ensures UniqueKeys(d) ==> UniqueKeys(r)
  {
    if ps == [] then d else Set(SetAll(d, ps[..|ps| - 1]), ps[|ps| - 1].0, ps[|ps| - 1].1)
  }

  /** The value the last pair with key `k` carries. */
  function LastValue<V>(ps: Dict<V>, k: string): V
    requires k in Keys(ps)
  {
    if ps[|ps| - 1].0 == k then ps[|ps| - 1].1
    else
      assert Keys(ps) == Keys(ps[..|ps| - 1]) + [ps[|ps| - 1].0];
      LastValue(ps[..|ps| - 1], k)
  }

  /** With unique keys, the last pair carrying a key is its only pair. */
  lemma {:induction false} LastValueUnique<V>(ps: Dict<V>, i: nat)
    requires UniqueKeys(ps) && i < |ps|
    ensures ps[i].0 in Keys(ps) && LastValue(ps, ps[i].0) == ps[i].1
  {
    assert Keys(ps)[i] == ps[i].0;
    if i < |ps| - 1 {
      var init := ps[..|ps| - 1];
      LastValueUnique(init, i);
    }
  }

  /** Assigning a list of pairs: the last assignment to a key wins, and keys
      that are never assigned keep their old value. */
  lemma {:induction false} GetSetAll<V>(d: Dict<V>, ps: Dict<V>, k: string)
    ensures Get(SetAll(d, ps), k) == if k in Keys(ps) then Some(LastValue(ps, k)) else Get(d, k)
  {
    if ps != [] {
      var init, p := ps[..|ps| - 1], ps[|ps| - 1];
      assert Keys(ps) == Keys(init) + [p.0];
      if k != p.0 {
        GetSetAll(d, init, k);
      }
    }
  }

  /** The keys after assigning pairs are the old keys followed by the new
      keys in order of first assignment; in particular the key set is the
      union. */
  lemma {:induction false} SetAllKeys<V>(d: Dict<V>, ps: Dict<V>, k: string)
    ensures k in Keys(SetAll(d, ps)) <==> k in Keys(d) || k in Keys(ps)
  {
    GetSetAll(d, ps, k);
  }
  /** Assigning pairs whose keys are new and distinct appends them in order. */
  lemma {:induction false} SetAllFresh<V>(d: Dict<V>, ps: Dict<V>)
    requires UniqueKeys(d + ps)
    ensures SetAll(d, ps) == d + ps
  {
    if ps != [] {
      var init, p := ps[..|ps| - 1], ps[|ps| - 1];
      assert d + ps == (d + init) + [p];
      assert UniqueKeys(d + init) by {
        forall i, j | 0 <= i < j < |d + init|
          ensures (d + init)[i].0 != (d + init)[j].0
        {
          assert (d + init)[i] == (d + ps)[i] && (d + init)[j] == (d + ps)[j];
        }
      }
      SetAllFresh(d, init);
      assert p.0 !in Keys(d + init) by {
        forall i | 0 <= i < |d + init|
          ensures (d + init)[i].0 != p.0
        {
          assert (d + init)[i] == (d + ps)[i] && p == (d + ps)[|d + ps| - 1];
        }
      }
    }
  }
}
