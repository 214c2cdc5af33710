/** Python's insertion-ordered `dict`, as a list of (key, value) entries.
    Assigning to a present key keeps its position; a new key goes last;
    `del` removes the entry and raises KeyError for an absent key. */
module Assoc {
  import opened Wrappers
  import opened Seqs

  /** The keys of an association list, in order. */
  function Keys<K, V>(s: seq<(K, V)>): (ks: seq<K>)
    ensures |ks| == |s|
    ensures forall i :: 0 <= i < |s| ==> ks[i] == s[i].0
  {
    if s == [] then [] else [s[0].0] + Keys(s[1..])
  }

  predicate DistinctKeys<K(==), V>(s: seq<(K, V)>) {
    forall i, j :: 0 <= i < j < |s| ==> s[i].0 != s[j].0
  }

  /** `d.get(k)`: the value of the first entry with key k. */
  function Find<K(==), V>(s: seq<(K, V)>, k: K): (r: Option<V>)
    ensures r.None? <==> k !in Keys(s)
  {
    if s == [] then None
    else if s[0].0 == k then Some(s[0].1)
    else Find(s[1..], k)
  }

  /** What Find returns is the value of an entry with that key. */
  lemma {:induction false} FindEntry<K, V>(s: seq<(K, V)>, k: K) returns (i: nat)
    requires k in Keys(s)
    ensures i < |s| && s[i] == (k, Find(s, k).value)
  {
    if s[0].0 == k {
      i := 0;
    } else {
      var j := FindEntry(s[1..], k);
      i := j + 1;
    }
  }

  /** In a list with distinct keys, Find returns each entry's own value. */
  lemma {:induction false} FindOfDistinct<K, V>(s: seq<(K, V)>, i: nat)
    requires DistinctKeys(s) && i < |s|
    ensures Find(s, s[i].0) == Some(s[i].1)
  {
    if i > 0 {
      FindOfDistinct(s[1..], i - 1);
    }
  }

  /** The dictionary an association list denotes (the first entry for a key
      wins, as Find reads it). */
  function ToMap<K, V>(s: seq<(K, V)>): map<K, V> {
    if s == [] then map[] else ToMap(s[1..])[s[0].0 := s[0].1]
  }

  /** `d[k] = v`: overwrite k's value in place, or append k at the end. */
  function Add<K(==, !new), V>(s: seq<(K, V)>, k: K, v: V): (s': seq<(K, V)>)
    ensures Keys(s') == if k in Keys(s) then Keys(s) else Keys(s) + [k]
    ensures Find(s', k) == Some(v)
    ensures forall k' :: k' != k ==> Find(s', k') == Find(s, k')
  {
    if s == [] then [(k, v)]
    else if s[0].0 == k then [(k, v)] + s[1..]
    else
      var tail := Add(s[1..], k, v);
      var s' := [s[0]] + tail;
      assert s'[0] == s[0] && s'[1..] == tail;
      assert Keys(s) == [s[0].0] + Keys(s[1..]);
      assert Keys(s') == [s[0].0] + Keys(tail);
      ConsAppend(Keys(s), k);
      s'
  }

  /** The keys of ks other than k, in order. */
  function Without<K(==, !new)>(ks: seq<K>, k: K): (r: seq<K>)
    ensures forall x :: x in r <==> x in ks && x != k
  {
    if ks == [] then []
    else if ks[0] == k then Without(ks[1..], k)
    else [ks[0]] + Without(ks[1..], k)
  }

  datatype DictError<K> = KeyNotFound(key: K)

  /** `del d[k]`: remove k's entry; Python raises KeyError when k is absent. */
  function Delete<K(==, !new), V>(s: seq<(K, V)>, k: K): (r: Result<seq<(K, V)>, DictError<K>>)
    ensures r.Failure? <==> k !in Keys(s)
    ensures r.Failure? ==> r.error == KeyNotFound(k)
    ensures r.Success? ==> |r.value| == |s| - 1
    ensures r.Success? ==> forall k' :: k' != k ==> Find(r.value, k') == Find(s, k')
  {
    if s == [] then Failure(KeyNotFound(k))
    else if s[0].0 == k then Success(s[1..])
    else
      match Delete(s[1..], k)
      case Failure(e) => Failure(e)
      case Success(tail) =>
        var s' := [s[0]] + tail;
        assert s'[1..] == tail;
        Success(s')
  }

  /** Overwriting or appending never creates a second entry for a key. */
  lemma AddDistinct<K(!new), V>(s: seq<(K, V)>, k: K, v: V)
    requires DistinctKeys(s)
    ensures DistinctKeys(Add(s, k, v))
  {
    var s' := Add(s, k, v);
    var ks, ks' := Keys(s), Keys(s');
    forall i, j | 0 <= i < j < |s'|
      ensures s'[i].0 != s'[j].0
    {
      assert s'[i].0 == ks'[i] && s'[j].0 == ks'[j];
      assert ks[i] == s[i].0;
      if j < |s| {
        assert ks[j] == s[j].0;
        assert ks'[i] == ks[i] && ks'[j] == ks[j];
      } else {
        assert ks' == ks + [k] && ks'[j] == k;
        assert ks'[i] == ks[i];
      }
    }
  }

  /** Removing an entry from a list with distinct keys removes exactly that
      key and keeps the others in order. */
  lemma {:induction false} DeleteKeys<K(!new), V>(s: seq<(K, V)>, k: K)
    requires DistinctKeys(s) && k in Keys(s)
    ensures Delete(s, k).Success?
    ensures Keys(Delete(s, k).value) == Without(Keys(s), k)
    ensures DistinctKeys(Delete(s, k).value)
    ensures Find(Delete(s, k).value, k).None?
  {
    var ks := Keys(s);
    assert ks[0] == s[0].0 && ks[1..] == Keys(s[1..]);
    DistinctTail(s);
    if s[0].0 == k {
      assert k !in Keys(s[1..]);
      WithoutAbsent(Keys(s[1..]), k);
    } else {
      assert k in Keys(s[1..]);
      DeleteKeys(s[1..], k);
      var tail := Delete(s[1..], k).value;
      var s' := [s[0]] + tail;
      assert Delete(s, k).value == s';
      assert s'[0] == s[0] && s'[1..] == tail;
      assert Keys(s') == [s[0].0] + Keys(tail);
      assert s[0].0 !in Keys(s[1..]);
      DistinctCons(s[0], tail);
    }
  }

  /** An entry whose key is not among the others can go in front. */
  lemma DistinctCons<K, V>(x: (K, V), t: seq<(K, V)>)
    requires DistinctKeys(t) && x.0 !in Keys(t)
    ensures DistinctKeys([x] + t)
  {
    var s := [x] + t;
    forall i, j | 0 <= i < j < |s|
      ensures s[i].0 != s[j].0
    {
      assert s[j] == t[j - 1];
      if i == 0 {
        assert Keys(t)[j - 1] == t[j - 1].0;
      } else {
        assert s[i] == t[i - 1];
      }
    }
  }

  lemma {:induction false} WithoutAbsent<K(!new)>(ks: seq<K>, k: K)
    requires k !in ks
    ensures Without(ks, k) == ks
  {
    if ks != [] {
      WithoutAbsent(ks[1..], k);
      assert ks == [ks[0]] + ks[1..];
    }
  }

  /** Find reads exactly the dictionary the list denotes. */
  lemma {:induction false} FindIsMapLookup<K, V>(s: seq<(K, V)>, k: K)
    ensures Find(s, k) == if k in ToMap(s) then Some(ToMap(s)[k]) else None
  {
    if s != [] && s[0].0 != k {
      FindIsMapLookup(s[1..], k);
    }
  }

  /** Assigning in the list is updating the dictionary. */
  lemma {:induction false} AddIsMapUpdate<K(!new), V>(s: seq<(K, V)>, k: K, v: V)
    ensures ToMap(Add(s, k, v)) == ToMap(s)[k := v]
  {
    if s != [] {
      var s' := Add(s, k, v);
      var m := ToMap(s[1..]);
      if s[0].0 == k {
        assert s'[1..] == s[1..];
        assert ToMap(s') == m[k := v];
        assert ToMap(s) == m[k := s[0].1];
        assert m[k := v] == m[k := s[0].1][k := v];
      } else {
        AddIsMapUpdate(s[1..], k, v);
        assert s'[1..] == Add(s[1..], k, v);
        assert ToMap(s') == m[k := v][s[0].0 := s[0].1];
        UpdatesCommute(m, k, v, s[0].0, s[0].1);
      }
    }
  }

  /** Updates of two different keys can be made in either order. */
  lemma UpdatesCommute<K, V>(m: map<K, V>, k: K, v: V, k': K, v': V)
    requires k != k'
    ensures m[k := v][k' := v'] == m[k' := v'][k := v]
  {
  }

  /** Deleting from a list with distinct keys is removing from the dictionary. */
  lemma {:induction false} DeleteIsMapRemove<K(!new), V>(s: seq<(K, V)>, k: K)
    requires DistinctKeys(s) && k in Keys(s)
    ensures Delete(s, k).Success?
    ensures ToMap(Delete(s, k).value) == ToMap(s) - {k}
  {
    var m := ToMap(s[1..]);
    assert ToMap(s) == m[s[0].0 := s[0].1];
    assert Keys(s) == [s[0].0] + Keys(s[1..]);
    DistinctTail(s);
    if s[0].0 == k {
      assert k !in Keys(s[1..]);
      ToMapKeys(s[1..]);
      UpdateThenRemove(m, k, s[0].1);
    } else {
      DeleteIsMapRemove(s[1..], k);
      var tail := Delete(s[1..], k).value;
      assert Delete(s, k).value == [s[0]] + tail;
      assert ([s[0]] + tail)[1..] == tail;
      UpdateRemoveCommute(m, s[0].0, s[0].1, k);
    }
  }

  lemma UpdateThenRemove<K, V>(m: map<K, V>, k: K, v: V)
    requires k !in m
    ensures m[k := v] - {k} == m
  {
  }

  lemma UpdateRemoveCommute<K, V>(m: map<K, V>, k: K, v: V, k': K)
    requires k != k'
    ensures (m - {k'})[k := v] == m[k := v] - {k'}
  {
  }

  /** The dictionary's keys are the list's keys. */
  lemma {:induction false} ToMapKeys<K, V>(s: seq<(K, V)>)
    ensures forall k :: k in ToMap(s) <==> k in Keys(s)
  {
    if s != [] {
      ToMapKeys(s[1..]);
      assert Keys(s) == [s[0].0] + Keys(s[1..]);
    }
  }

  /** Assigning a key that is absent appends it. */
  lemma {:induction false} AddAppends<K(!new), V>(s: seq<(K, V)>, k: K, v: V)
    requires k !in Keys(s)
    ensures Add(s, k, v) == s + [(k, v)]
  {
    if s != [] {
      var ks := Keys(s);
      assert ks[0] == s[0].0;
      assert Keys(s[1..]) == ks[1..];
      AddAppends(s[1..], k, v);
      AddUnfold(s, k, v);
      ConsAppend(s, (k, v));
    }
  }

  /** Past a different first key, assignment leaves the first entry alone. */
  lemma AddUnfold<K(!new), V>(s: seq<(K, V)>, k: K, v: V)
    requires s != [] && s[0].0 != k
    ensures Add(s, k, v) == [s[0]] + Add(s[1..], k, v)
  {
  }

  /** Assigning a present key changes only that entry's value, in place. */
  lemma {:induction false} AddInPlace<K(!new), V>(s: seq<(K, V)>, k: K, v: V, i: nat)
    requires DistinctKeys(s) && i < |s| && s[i].0 == k
    ensures Add(s, k, v) == s[i := (k, v)]
  {
    UpdateCons(s, i, (k, v));
    if i > 0 {
      assert s[0].0 != k;
      DistinctTail(s);
      AddInPlace(s[1..], k, v, i - 1);
      AddUnfold(s, k, v);
    }
  }

  lemma DistinctTail<K, V>(s: seq<(K, V)>)
    requires DistinctKeys(s) && s != []
    ensures DistinctKeys(s[1..])
  {
    forall a, b | 0 <= a < b < |s| - 1
      ensures s[1..][a].0 != s[1..][b].0
    {
      assert s[1..][a] == s[a + 1] && s[1..][b] == s[b + 1];
    }
  }

}
