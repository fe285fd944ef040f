/** Ruby's Hash as the library uses it: a sequence of key/value pairs that keeps
    insertion order and holds each key at most once. Storing an existing key
    overwrites its value in place; storing a new key appends it. */
module OrderedHash {
  import opened Outcomes

  type Hash<K, V> = seq<(K, V)>

  function Keys<K, V>(h: Hash<K, V>): (ks: seq<K>)
    ensures |ks| == |h|
    ensures forall i :: 0 <= i < |h| ==> ks[i] == h[i].0
  {
    seq(|h|, i requires 0 <= i < |h| => h[i].0)
  }

  function Values<K, V>(h: Hash<K, V>): (vs: seq<V>)
    ensures |vs| == |h|
    ensures forall i :: 0 <= i < |h| ==> vs[i] == h[i].1
  {
    seq(|h|, i requires 0 <= i < |h| => h[i].1)
  }

  predicate Distinct<T(==,!new)>(s: seq<T>) {
    forall i, j :: 0 <= i < j < |s| ==> s[i] != s[j]
  }

  /** The representation invariant of a Ruby Hash. */
  predicate UniqueKeys<K(==,!new), V>(h: Hash<K, V>) {
    Distinct(Keys(h))
  }

  /** Position of the first occurrence of x. */
  function IndexOf<T(==,!new)>(s: seq<T>, x: T): (i: nat)
    requires x in s
    ensures i < |s| && s[i] == x
    ensures forall j :: 0 <= j < i ==> s[j] != x
  {
    if s[0] == x then 0 else 1 + IndexOf(s[1..], x)
  }

  /** Position of the last occurrence of x. */
  function LastIndexOf<T(==,!new)>(s: seq<T>, x: T): (i: nat)
    requires x in s
    ensures i < |s| && s[i] == x
    ensures forall j :: i < j < |s| ==> s[j] != x
    decreases |s|
  {
    var n := |s| - 1;
    if s[n] == x then n
    else
      assert x in s[..n] by { var k :| 0 <= k < |s| && s[k] == x; assert s[..n][k] == x; }
      LastIndexOf(s[..n], x)
  }

  lemma LastIndexOfSnoc<T(!new)>(s: seq<T>, y: T, x: T)
    requires x in s + [y]
    ensures LastIndexOf(s + [y], x) == if x == y then |s| else LastIndexOf(s, x)
  {
    assert (s + [y])[..|s|] == s;
  }

  lemma IndexOfDistinct<T(!new)>(s: seq<T>, i: nat)
    requires Distinct(s) && i < |s|
    ensures IndexOf(s, s[i]) == i
  {
  }

  /** `h[k]`: the value stored under k, or nil. */
  function Get<K(==,!new), V>(h: Hash<K, V>, k: K): (r: Option<V>)
    ensures r.Some? <==> k in Keys(h)
  {
    if k in Keys(h) then Some(h[IndexOf(Keys(h), k)].1) else None
  }

  lemma GetAt<K(!new), V>(h: Hash<K, V>, i: nat)
    requires UniqueKeys(h) && i < |h|
    ensures Get(h, h[i].0) == Some(h[i].1)
  {
    IndexOfDistinct(Keys(h), i);
  }

  /** A key is found with value v exactly when the pair is stored. */
  lemma GetIffPair<K(!new), V>(h: Hash<K, V>, k: K, v: V)
    requires UniqueKeys(h)
    ensures Get(h, k) == Some(v) <==> (k, v) in h
  {
    if (k, v) in h {
      var i :| 0 <= i < |h| && h[i] == (k, v);
      GetAt(h, i);
    }
    if Get(h, k) == Some(v) {
      var i := IndexOf(Keys(h), k);
      assert h[i] == (k, v);
    }
  }

  lemma IndexOfAppend<T(!new)>(s: seq<T>, x: T, y: T)
    requires x in s
    ensures IndexOf(s + [y], x) == IndexOf(s, x)
  {
    var i := IndexOf(s, x);
    var j := IndexOf(s + [y], x);
    assert (s + [y])[i] == x;
  }

  /** `h[k] = v`. */
  function Store<K(==,!new), V>(h: Hash<K, V>, k: K, v: V): (r: Hash<K, V>)
    ensures Get(r, k) == Some(v)
    ensures forall k' :: k' != k ==> Get(r, k') == Get(h, k')
    ensures Keys(r) == if k in Keys(h) then Keys(h) else Keys(h) + [k]
    ensures UniqueKeys(h) ==> UniqueKeys(r)
    ensures k in Keys(h) ==> r == h[IndexOf(Keys(h), k) := (k, v)]
    ensures k !in Keys(h) ==> r == h + [(k, v)]
  {
    if k in Keys(h) then
      var i := IndexOf(Keys(h), k);
      var r := h[i := (k, v)];
      assert Keys(r) == Keys(h);
      r
    else
      var r := h + [(k, v)];
      assert Keys(r) == Keys(h) + [k];
      assert forall k' :: k' in Keys(h) ==> IndexOf(Keys(r), k') == IndexOf(Keys(h), k') by {
        forall k' | k' in Keys(h) ensures IndexOf(Keys(r), k') == IndexOf(Keys(h), k') {
          IndexOfAppend(Keys(h), k', k);
        }
      }
      r
  }

  /** Storing a new key appends it. */
  lemma StoreNew<K(!new), V>(h: Hash<K, V>, k: K, v: V)
    requires k !in Keys(h)
    ensures Store(h, k, v) == h + [(k, v)]
  {
  }

  /** Every entry after storing is the stored one or one from before. */
  lemma StoreEntries<K(!new), V>(h: Hash<K, V>, k: K, v: V)
    ensures forall i :: 0 <= i < |Store(h, k, v)| ==> Store(h, k, v)[i] == (k, v) || Store(h, k, v)[i] in h
  {
    if k in Keys(h) {
      var p := IndexOf(Keys(h), k);
      forall i | 0 <= i < |h| && i != p ensures Store(h, k, v)[i] in h {
        assert Store(h, k, v)[i] == h[i];
      }
    }
  }

  /** The elements of ks that occur in present, first occurrences only, in the
      order of ks: Ruby's `ks & present`. */
  function Known<T(==,!new)>(ks: seq<T>, present: seq<T>): (r: seq<T>)
    ensures Distinct(r)
    ensures forall x :: x in r <==> x in ks && x in present
    decreases |ks|
  {
    if ks == [] then []
    else
      var r := Known(ks[..|ks| - 1], present);
      var x := ks[|ks| - 1];
      assert forall y :: y in ks <==> y in ks[..|ks| - 1] || y == x;
      if x in present && x !in r then r + [x] else r
  }

  /** The elements of ks that do not occur in base, first occurrences only, in
      the order of ks: the keys a merge appends. */
  function Extra<T(==,!new)>(ks: seq<T>, base: seq<T>): (r: seq<T>)
    ensures Distinct(r)
    ensures forall x :: x in r <==> x in ks && x !in base
    decreases |ks|
  {
    if ks == [] then []
    else
      var r := Extra(ks[..|ks| - 1], base);
      var x := ks[|ks| - 1];
      assert forall y :: y in ks <==> y in ks[..|ks| - 1] || y == x;
      if x !in base && x !in r then r + [x] else r
  }

  /** Ruby's `ks - removed`: every element of ks not in removed, in order. */
  function Without<T(==,!new)>(ks: seq<T>, removed: seq<T>): (r: seq<T>)
    ensures forall x :: x in r <==> x in ks && x !in removed
    ensures Distinct(ks) ==> Distinct(r)
    decreases |ks|
  {
    if ks == [] then []
    else
      var r := Without(ks[..|ks| - 1], removed);
      var x := ks[|ks| - 1];
      assert forall y :: y in ks <==> y in ks[..|ks| - 1] || y == x;
      if x in removed then r else r + [x]
  }

  /** `h.slice(*ks)`: the entries of h whose keys are listed, in the order of ks. */
  function Slice<K(==,!new), V>(h: Hash<K, V>, ks: seq<K>): (r: Hash<K, V>)
    ensures UniqueKeys(r)
    ensures forall k :: Get(r, k) == if k in ks then Get(h, k) else None
    ensures Keys(r) == Known(ks, Keys(h))
    decreases |ks|
  {
    if ks == [] then []
    else
      var init := ks[..|ks| - 1];
      var r := Slice(h, init);
      var k := ks[|ks| - 1];
      assert forall y :: y in ks <==> y in init || y == k;
      match Get(h, k)
      case None => r
      case Some(v) => Store(r, k, v)
  }

  /** `h1.merge(h2)`: the keys of h1 first, then the keys only h2 has; on a
      common key the value of h2 wins (MergeGet). */
  function Merge<K(==,!new), V>(h1: Hash<K, V>, h2: Hash<K, V>): (r: Hash<K, V>)
    ensures UniqueKeys(h1) ==> UniqueKeys(r)
    ensures Keys(r) == Keys(h1) + Extra(Keys(h2), Keys(h1))
    decreases |h2|
  {
    if h2 == [] then h1
    else
      var init := h2[..|h2| - 1];
      assert Keys(init) == Keys(h2)[..|h2| - 1];
      Store(Merge(h1, init), h2[|h2| - 1].0, h2[|h2| - 1].1)
  }

  /** Merging one more entry is storing it. */
  lemma MergeSnoc<K(!new), V>(h1: Hash<K, V>, h2: Hash<K, V>, k: K, v: V)
    ensures Merge(h1, h2 + [(k, v)]) == Store(Merge(h1, h2), k, v)
  {
    assert (h2 + [(k, v)])[..|h2|] == h2;
  }

  /** Merging a hash into an empty one copies it. */
  lemma {:induction false} MergeIntoEmpty<K(!new), V>(h: Hash<K, V>)
    requires UniqueKeys(h)
    ensures Merge([], h) == h
    decreases |h|
  {
    if h != [] {
      var n := |h| - 1;
      var init, k, v := h[..n], h[n].0, h[n].1;
      assert h == init + [(k, v)];
      assert Keys(init) == Keys(h)[..n];
      assert k !in Keys(init) by {
        forall i | 0 <= i < n ensures Keys(init)[i] != k {
          assert Keys(init)[i] == Keys(h)[i] && Keys(h)[n] == k;
        }
      }
      MergeIntoEmpty(init);
      MergeSnoc([], init, k, v);
      StoreNew(init, k, v);
    }
  }

  lemma {:induction false} MergeGet<K(!new), V>(h1: Hash<K, V>, h2: Hash<K, V>, k: K)
    requires UniqueKeys(h2)
    ensures Get(Merge(h1, h2), k) == if k in Keys(h2) then Get(h2, k) else Get(h1, k)
    decreases |h2|
  {
    if h2 != [] {
      var init := h2[..|h2| - 1];
      var last := |h2| - 1;
      assert Keys(init) == Keys(h2)[..last];
      assert UniqueKeys(init);
      MergeGet(h1, init, k);
      GetAt(h2, last);
      if k != h2[last].0 && k in Keys(init) {
        var i := IndexOf(Keys(init), k);
        GetAt(init, i);
        GetAt(h2, i);
      }
    }
  }

  /** `pairs.to_h`: later pairs overwrite earlier ones with the same key, which
      keep their first position. */
  function ToHash<K(==,!new), V>(pairs: seq<(K, V)>): (r: Hash<K, V>)
    ensures UniqueKeys(r)
    ensures UniqueKeys(pairs) ==> r == pairs
    decreases |pairs|
  {
    if pairs == [] then []
    else
      var n := |pairs| - 1;
      PairsSnoc(pairs);
      Store(ToHash(pairs[..n]), pairs[n].0, pairs[n].1)
  }

  /** A list of pairs is the pairs before its last one, then the last. */
  lemma PairsSnoc<K(!new), V>(pairs: seq<(K, V)>)
    requires pairs != []
    ensures Keys(pairs) == Keys(pairs[..|pairs| - 1]) + [pairs[|pairs| - 1].0]
    ensures UniqueKeys(pairs) ==> UniqueKeys(pairs[..|pairs| - 1]) && pairs[|pairs| - 1].0 !in Keys(pairs[..|pairs| - 1])
    ensures UniqueKeys(pairs) ==> pairs == pairs[..|pairs| - 1] + [pairs[|pairs| - 1]]
  {
    var n := |pairs| - 1;
    assert Keys(pairs[..n]) == Keys(pairs)[..n];
  }

  /** After `pairs.to_h`, a key holds the value of its last pair, and a key
      no pair has is absent. */
  lemma {:induction false} ToHashGet<K(!new), V>(pairs: seq<(K, V)>, k: K)
    ensures Get(ToHash(pairs), k) ==
              if k in Keys(pairs) then Some(pairs[LastIndexOf(Keys(pairs), k)].1) else None
    decreases |pairs|
  {
    if pairs != [] {
      var n := |pairs| - 1;
      var init := pairs[..n];
      var ks := Keys(init);
      PairsSnoc(pairs);
      assert ToHash(pairs) == Store(ToHash(init), pairs[n].0, pairs[n].1);
      if k == pairs[n].0 {
        LastIndexOfSnoc(ks, k, k);
      } else {
        ToHashGet(init, k);
        assert k in Keys(pairs) <==> k in ks;
        if k in ks {
          LastIndexOfSnoc(ks, pairs[n].0, k);
          assert init[LastIndexOf(ks, k)] == pairs[LastIndexOf(ks, k)];
        }
      }
    }
  }

  /** `pairs.to_h` lists each key where it first occurs: two keys come in the
      order of their first pairs. */
  lemma {:induction false} ToHashOrder<K(!new), V>(pairs: seq<(K, V)>, k1: K, k2: K)
    requires k1 in Keys(pairs) && k2 in Keys(pairs)
    ensures k1 in Keys(ToHash(pairs)) && k2 in Keys(ToHash(pairs))
    ensures IndexOf(Keys(ToHash(pairs)), k1) < IndexOf(Keys(ToHash(pairs)), k2) <==>
              IndexOf(Keys(pairs), k1) < IndexOf(Keys(pairs), k2)
    decreases |pairs|
  {
    ToHashMember(pairs, k1);
    ToHashMember(pairs, k2);
    var n := |pairs| - 1;
    var init := pairs[..n];
    var k := pairs[n].0;
    ToHashStep(pairs);
    ToHashMember(init, k1);
    ToHashMember(init, k2);
    var ks, hs := Keys(init), Keys(ToHash(init));
    if k1 in ks && k2 in ks {
      ToHashOrder(init, k1, k2);
      IndexOfAppend(ks, k1, k);
      IndexOfAppend(ks, k2, k);
      if k !in ks {
        IndexOfAppend(hs, k1, k);
        IndexOfAppend(hs, k2, k);
      }
    } else if k1 in ks {
      IndexOfAppend(ks, k1, k);
      IndexOfAppend(hs, k1, k);
    } else if k2 in ks {
      IndexOfAppend(ks, k2, k);
      IndexOfAppend(hs, k2, k);
    }
  }

  lemma ToHashMember<K(!new), V>(pairs: seq<(K, V)>, k: K)
    ensures k in Keys(ToHash(pairs)) <==> k in Keys(pairs)
  {
    ToHashGet(pairs, k);
  }

  /** The keys of `pairs.to_h` after one more pair. */
  lemma ToHashStep<K(!new), V>(pairs: seq<(K, V)>)
    requires pairs != []
    ensures Keys(pairs) == Keys(pairs[..|pairs| - 1]) + [pairs[|pairs| - 1].0]
    ensures Keys(ToHash(pairs)) ==
              var init := pairs[..|pairs| - 1];
              var k := pairs[|pairs| - 1].0;
              if k in Keys(init) then Keys(ToHash(init)) else Keys(ToHash(init)) + [k]
  {
    var n := |pairs| - 1;
    var init := pairs[..n];
    PairsSnoc(pairs);
    assert ToHash(pairs) == Store(ToHash(init), pairs[n].0, pairs[n].1);
    ToHashMember(init, pairs[n].0);
  }

  /** `ks.zip(vs)`; the model requires vs to be at least as long as ks. */
  function Zip<K, V>(ks: seq<K>, vs: seq<V>): (r: seq<(K, V)>)
    requires |ks| <= |vs|
    ensures |r| == |ks|
    ensures forall i :: 0 <= i < |ks| ==> r[i] == (ks[i], vs[i])
  {
    seq(|ks|, i requires 0 <= i < |ks| => (ks[i], vs[i]))
  }

  /** `ks.zip(vs).to_h` over distinct keys finds vs[i] under ks[i]. */
  lemma ZipHashAt<K(!new), V>(ks: seq<K>, vs: seq<V>, i: nat)
    requires Distinct(ks) && |ks| <= |vs| && i < |ks|
    ensures Get(ToHash(Zip(ks, vs)), ks[i]) == Some(vs[i])
  {
    var z := Zip(ks, vs);
    assert Keys(z) == ks;
    GetAt(z, i);
  }

  /** `ks.zip(vs).to_h` finds under each key the value at its last position. */
  lemma ZipHashGet<K(!new), V>(ks: seq<K>, vs: seq<V>, k: K)
    requires |ks| <= |vs| && k in ks
    ensures Get(ToHash(Zip(ks, vs)), k) == Some(vs[LastIndexOf(ks, k)])
  {
    var z := Zip(ks, vs);
    assert Keys(z) == ks;
    ToHashGet(z, k);
  }
}
