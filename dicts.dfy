/** A Python dict as an association list: entries stay in first-insertion order,
    and assigning to a key that is already present replaces its value in place. */
module Dicts {
  import opened Wrappers

  type Dict<V> = seq<(string, V)>

  function Keys<V>(d: Dict<V>): seq<string> {
    seq(|d|, i requires 0 <= i < |d| => d[i].0)
  }

  function Values<V>(d: Dict<V>): seq<V> {
    seq(|d|, i requires 0 <= i < |d| => d[i].1)
  }

  predicate UniqueKeys<V>(d: Dict<V>) {
    forall i, j :: 0 <= i < j < |d| ==> d[i].0 != d[j].0
  }

  /** Position of the first occurrence of k in ks at or after `from`, or -1. */
  function IndexFrom(ks: seq<string>, k: string, from: nat): (r: int)
    requires from <= |ks|
    ensures r == -1 || from <= r < |ks|
    ensures r >= 0 ==> ks[r] == k && forall j :: from <= j < r ==> ks[j] != k
    ensures r < 0 ==> forall j :: from <= j < |ks| ==> ks[j] != k
    decreases |ks| - from
  {
    if from == |ks| then -1
    else if ks[from] == k then from
    else IndexFrom(ks, k, from + 1)
  }

  /** Position of the first occurrence of k in ks, or -1. */
  function IndexOf(ks: seq<string>, k: string): (r: int)
    ensures -1 <= r < |ks|
    ensures r >= 0 ==> ks[r] == k && forall j :: 0 <= j < r ==> ks[j] != k
    ensures r < 0 <==> k !in ks
  {
    IndexFrom(ks, k, 0)
  }

  lemma IndexOfUnique(ks: seq<string>, k: string, r: int)
    requires -1 <= r < |ks|
    requires r >= 0 ==> ks[r] == k && forall j :: 0 <= j < r ==> ks[j] != k
    requires r < 0 ==> k !in ks
    ensures IndexOf(ks, k) == r
  {
  }

  lemma IndexOfAppend(ks: seq<string>, x: string, k: string)
    ensures IndexOf(ks + [x], k) == if k in ks then IndexOf(ks, k) else if k == x then |ks| else -1
  {
    var r := if k in ks then IndexOf(ks, k) else if k == x then |ks| else -1;
    var t := ks + [x];
    assert forall j :: 0 <= j < |ks| ==> t[j] == ks[j];
    IndexOfUnique(t, k, r);
  }

  /** `d.get(k)` */
  function Get<V>(d: Dict<V>, k: string): (r: Option<V>)
    ensures r.Some? <==> k in Keys(d)
    ensures r.Some? ==> exists i :: 0 <= i < |d| && d[i] == (k, r.value)
  {
    var i := IndexOf(Keys(d), k);
    if i < 0 then None else Some(d[i].1)
  }

  /** `d[k] = v` */
  function Put<V>(d: Dict<V>, k: string, v: V): (r: Dict<V>)
    ensures Keys(r) == if k in Keys(d) then Keys(d) else Keys(d) + [k]
    ensures UniqueKeys(d) ==> UniqueKeys(r)
    ensures Get(r, k) == Some(v)
    ensures forall k' :: k' != k ==> Get(r, k') == Get(d, k')
  {
    var i := IndexOf(Keys(d), k);
    if i >= 0 then
      var r := d[i := (k, v)];
      assert Keys(r) == Keys(d);
      r
    else
      var r := d + [(k, v)];
      assert Keys(r) == Keys(d) + [k];
      assert forall j :: 0 <= j < |d| ==> d[j].0 == Keys(d)[j];
      assert forall k' :: IndexOf(Keys(r), k') == IndexOf(Keys(d) + [k], k');
      forall k' ensures IndexOf(Keys(d) + [k], k') == if k' in Keys(d) then IndexOf(Keys(d), k') else if k' == k then |d| else -1 {
        IndexOfAppend(Keys(d), k, k');
      }
      r
  }

  /** The dict left by assigning every pair of kvs to d, left to right. */
  function PutAll<V>(d: Dict<V>, kvs: seq<(string, V)>): Dict<V>
  {
    if kvs == [] then d
    else
      var n := |kvs| - 1;
      Put(PutAll(d, kvs[..n]), kvs[n].0, kvs[n].1)
  }

  /** The keys of ks, each at its first occurrence. */
  function Dedup(ks: seq<string>): seq<string>
  {
    if ks == [] then []
    else
      var n := |ks| - 1;
      if ks[n] in ks[..n] then Dedup(ks[..n]) else Dedup(ks[..n]) + [ks[n]]
  }

  /** The value of the last pair of kvs whose key is k. */
  function LastValue<V>(kvs: seq<(string, V)>, k: string): Option<V>
  {
    if kvs == [] then None
    else
      var n := |kvs| - 1;
      if kvs[n].0 == k then Some(kvs[n].1) else LastValue(kvs[..n], k)
  }

  lemma {:induction false} DedupSpec(ks: seq<string>)
    ensures forall x :: x in Dedup(ks) <==> x in ks
    ensures forall i, j :: 0 <= i < j < |Dedup(ks)| ==> Dedup(ks)[i] != Dedup(ks)[j]
  {
    if ks != [] {
      var n := |ks| - 1;
      DedupSpec(ks[..n]);
      assert ks == ks[..n] + [ks[n]];
    }
  }

  /** Assigning pairs to an empty dict leaves the keys unique and in first-assignment order. */
  lemma {:induction false} PutAllKeys<V>(kvs: seq<(string, V)>)
    ensures Keys(PutAll([], kvs)) == Dedup(Keys(kvs))
    ensures UniqueKeys(PutAll([], kvs))
  {
    if kvs != [] {
      var n := |kvs| - 1;
      PutAllKeys(kvs[..n]);
      assert Keys(kvs[..n]) == Keys(kvs)[..n];
      DedupSpec(Keys(kvs)[..n]);
    }
  }

  /** After the assignments, a key holds the value of its last assignment, or its old value if it had none. */
  lemma {:induction false} PutAllGet<V>(d: Dict<V>, kvs: seq<(string, V)>, k: string)
    ensures Get(PutAll(d, kvs), k) == if LastValue(kvs, k).Some? then LastValue(kvs, k) else Get(d, k)
  {
    if kvs != [] {
      PutAllGet(d, kvs[..|kvs| - 1], k);
    }
  }

  /** A key assigned one value throughout holds that value last. */
  lemma {:induction false} LastValueUniform<V>(kvs: seq<(string, V)>, k: string, v: V)
    requires forall i :: 0 <= i < |kvs| && kvs[i].0 == k ==> kvs[i].1 == v
    ensures LastValue(kvs, k) == if k in Keys(kvs) then Some(v) else None
  {
    if kvs != [] {
      var n := |kvs| - 1;
      LastValueUniform(kvs[..n], k, v);
      assert Keys(kvs) == Keys(kvs[..n]) + [kvs[n].0];
    }
  }

  /** One more assignment: the left fold one step further. */
  lemma PutAllStep<V>(d: Dict<V>, kvs: seq<(string, V)>, i: nat)
    requires i < |kvs|
    ensures PutAll(d, kvs[..i + 1]) == Put(PutAll(d, kvs[..i]), kvs[i].0, kvs[i].1)
  {
    assert kvs[..i + 1][..i] == kvs[..i];
  }

  /** An entry after `d[k] = v` is the old entry at that place or (k, v). */
  lemma PutEntry<V>(d: Dict<V>, k: string, v: V, i: nat)
    requires i < |Put(d, k, v)|
    ensures Put(d, k, v)[i] == (k, v) || (i < |d| && Put(d, k, v)[i] == d[i])
  {
  }

  /** Every entry of the dict a sequence of assignments leaves is one of the assignments. */
  lemma {:induction false} PutAllEntries<V>(kvs: seq<(string, V)>)
    ensures forall i :: 0 <= i < |PutAll([], kvs)| ==> PutAll([], kvs)[i] in kvs
  {
    if kvs != [] {
      var n := |kvs| - 1;
      PutAllEntries(kvs[..n]);
      var d := PutAll([], kvs[..n]);
      var r := PutAll([], kvs);
      assert r == Put(d, kvs[n].0, kvs[n].1);
      forall i | 0 <= i < |r| ensures r[i] in kvs {
        PutEntry(d, kvs[n].0, kvs[n].1, i);
        if r[i] != kvs[n] {
          assert d[i] in kvs[..n];
        }
      }
    }
  }
}
