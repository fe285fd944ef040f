/** `Factor#reduce_to` (lib/bayesnet/factor.rb): conditioning a factor on
    evidence. The rows that disagree with the evidence are dropped and the
    evidence variables are removed from the scope and from every key.

    The source works by positions (`index_by_var_name`, `delete_by_indices`);
    Agrees, Drop and ReducedRows below say the same thing by variable names and
    serve as the reference the positional code is proved against. */
module FactorReduction {
  import opened Outcomes
  import opened OrderedHash
  import opened Factors

  // ---------------------------------------------------------------------------
  // The source's positional helpers

  /** `indices.map { |i| k[i] } == context_vals`. */
  predicate Matches(k: Assignment, idx: seq<nat>, cv: seq<Value>) {
    |idx| == |cv| && forall j :: 0 <= j < |idx| ==> idx[j] < |k| && k[idx[j]] == cv[j]
  }

  /** `@vals.select { |k, _v| ... }`: the rows whose key matches, in order. */
  function Select(t: Table, idx: seq<nat>, cv: seq<Value>): (r: Table)
    ensures forall row :: row in r <==> row in t && Matches(row.0, idx, cv)
    decreases |t|
  {
    if t == [] then []
    else
      var init := t[..|t| - 1];
      var last := t[|t| - 1];
      assert forall row :: row in t <==> row in init || row == last;
      Select(init, idx, cv) + (if Matches(last.0, idx, cv) then [last] else [])
  }

  /** `delete_by_indices`: the values at the positions not listed, in order. */
  function DeleteByIndices(a: Assignment, idx: seq<nat>): (r: Assignment)
    ensures |r| <= |a|
    decreases |a|
  {
    if a == [] then []
    else
      var n := |a| - 1;
      DeleteByIndices(a[..n], idx) + (if n in idx then [] else [a[n]])
  }

  /** `transform_keys! { |k| delete_by_indices(k, indices) }`, before the keys
      are gathered into a hash. */
  function DeleteColumns(t: Table, idx: seq<nat>): (r: Table)
    ensures |r| == |t|
    ensures forall i :: 0 <= i < |t| ==> r[i] == (DeleteByIndices(t[i].0, idx), t[i].1)
  {
    seq(|t|, i requires 0 <= i < |t| => (DeleteByIndices(t[i].0, idx), t[i].1))
  }

  /** `reduce_to(context)`. */
  function ReduceTo(f: Factor, context: Hash<Name, Value>): (g: Factor)
    ensures UniqueKeys(g.vals) || g == f
  {
    var limited := Slice(context, VarNames(f));
    if limited == [] then Factor(f.scope, f.vals)
    else
      var names := VarNames(f);
      assert forall n :: n in Keys(limited) ==> n in names;
      var scope := Slice(f.scope, Without(names, Keys(limited)));
      var idx := IndicesOf(Keys(limited), names);
      var rows := Select(f.vals, idx, Values(limited));
      Factor(scope, ToHash(DeleteColumns(rows, idx)))
  }

  // ---------------------------------------------------------------------------
  // The same by names

  /** The key gives every evidence variable of the scope its evidence value. */
  predicate Agrees(names: seq<Name>, e: Hash<Name, Value>, k: Assignment) {
    forall j :: 0 <= j < |names| && j < |k| && names[j] in Keys(e) ==> k[j] == Get(e, names[j]).value
  }

  /** The key without the values of the evidence variables. */
  function Drop(names: seq<Name>, e: Hash<Name, Value>, k: Assignment): (r: Assignment)
    requires |k| == |names|
    ensures |r| == Kept(names, e)
    decreases |k|
  {
    if k == [] then []
    else
      var n := |k| - 1;
      Drop(names[..n], e, k[..n]) + (if names[n] in Keys(e) then [] else [k[n]])
  }

  /** The number of variables that are not evidence. */
  function Kept(names: seq<Name>, e: Hash<Name, Value>): nat
    decreases |names|
  {
    if names == [] then 0
    else Kept(names[..|names| - 1], e) + (if names[|names| - 1] in Keys(e) then 0 else 1)
  }

  /** Every row that agrees with the evidence, its key dropped, in order. */
  function ReducedRows(t: Table, names: seq<Name>, e: Hash<Name, Value>): (r: Table)
    requires forall i :: 0 <= i < |t| ==> |t[i].0| == |names|
    decreases |t|
  {
    if t == [] then []
    else
      var last := t[|t| - 1];
      ReducedRows(t[..|t| - 1], names, e)
        + (if Agrees(names, e, last.0) then [(Drop(names, e, last.0), last.1)] else [])
  }

  // ---------------------------------------------------------------------------
  // Lemmas

  lemma {:induction false} KnownEmpty(ks: seq<Name>, present: seq<Name>)
    requires forall x :: x in ks ==> x !in present
    ensures Known(ks, present) == []
    decreases |ks|
  {
    if ks != [] {
      var init := ks[..|ks| - 1];
      assert forall x :: x in init ==> x in ks;
      KnownEmpty(init, present);
      assert ks[|ks| - 1] in ks;
    }
  }

  lemma {:induction false} WithoutCongruence(ks: seq<Name>, r1: seq<Name>, r2: seq<Name>)
    requires forall x :: x in ks ==> (x in r1 <==> x in r2)
    ensures Without(ks, r1) == Without(ks, r2)
    decreases |ks|
  {
    if ks != [] {
      var init := ks[..|ks| - 1];
      assert forall x :: x in init ==> x in ks;
      WithoutCongruence(init, r1, r2);
    }
  }

  lemma {:induction false} WithoutNothing(ks: seq<Name>, removed: seq<Name>)
    requires forall x :: x in ks ==> x !in removed
    ensures Without(ks, removed) == ks
    decreases |ks|
  {
    if ks != [] {
      var init := ks[..|ks| - 1];
      assert forall x :: x in init ==> x in ks;
      WithoutNothing(init, removed);
      assert ks == init + [ks[|ks| - 1]];
    }
  }

  /** Evidence that names no variable of the scope leaves the factor as it is. */
  lemma ReduceToIrrelevant(f: Factor, context: Hash<Name, Value>)
    requires forall n :: n in Keys(context) ==> n !in VarNames(f)
    ensures ReduceTo(f, context) == f
  {
    KnownEmpty(VarNames(f), Keys(context));
  }

  /** The reduced scope is the old scope without the evidence variables, in
      scope order, each with its old domain. */
  lemma ReduceToScope(f: Factor, context: Hash<Name, Value>)
    requires UniqueKeys(f.scope)
    ensures VarNames(ReduceTo(f, context)) == Without(VarNames(f), Keys(context))
    ensures forall n :: n in VarNames(ReduceTo(f, context)) ==>
              Get(ReduceTo(f, context).scope, n) == Get(f.scope, n)
  {
    var names := VarNames(f);
    var limited := Slice(context, names);
    if limited == [] {
      assert forall n :: n in names ==> n !in Keys(context) by {
        assert Keys(limited) == [];
      }
      WithoutNothing(names, Keys(context));
    } else {
      var kept := Without(names, Keys(limited));
      KnownAll(kept, names);
      WithoutCongruence(names, Keys(limited), Keys(context));
    }
  }

  /** A key that agrees with the evidence has a prefix that agrees with it. */
  lemma AgreesPrefix(names: seq<Name>, e: Hash<Name, Value>, k: Assignment, n: nat)
    requires |k| == |names| && n <= |names| && Agrees(names, e, k)
    ensures Agrees(names[..n], e, k[..n])
  {
    forall j | 0 <= j < n && names[..n][j] in Keys(e) ensures k[..n][j] == Get(e, names[..n][j]).value {
      assert names[..n][j] == names[j];
    }
  }

  /** Two keys that agree with the evidence and drop to the same key are equal. */
  lemma {:induction false} DropInjective(names: seq<Name>, e: Hash<Name, Value>, k1: Assignment, k2: Assignment)
    requires |k1| == |names| && |k2| == |names|
    requires Agrees(names, e, k1) && Agrees(names, e, k2)
    requires Drop(names, e, k1) == Drop(names, e, k2)
    ensures k1 == k2
    decreases |names|
  {
    if names != [] {
      var n := |names| - 1;
      var d1 := Drop(names[..n], e, k1[..n]);
      var d2 := Drop(names[..n], e, k2[..n]);
      AgreesPrefix(names, e, k1, n);
      AgreesPrefix(names, e, k2, n);
      assert Drop(names, e, k1) == d1 + (if names[n] in Keys(e) then [] else [k1[n]]);
      assert Drop(names, e, k2) == d2 + (if names[n] in Keys(e) then [] else [k2[n]]);
      if names[n] in Keys(e) {
        assert k1[n] == Get(e, names[n]).value == k2[n];
        assert d1 + [] == d1 && d2 + [] == d2;
      } else {
        SnocInjective(d1, d2, k1[n], k2[n]);
      }
      DropInjective(names[..n], e, k1[..n], k2[..n]);
      assert k1 == k1[..n] + [k1[n]];
      assert k2 == k2[..n] + [k2[n]];
    }
  }

  lemma SnocInjective(a: Assignment, b: Assignment, x: Value, y: Value)
    requires |a| == |b| && a + [x] == b + [y]
    ensures a == b && x == y
  {
    assert a == (a + [x])[..|a|];
    assert b == (b + [y])[..|b|];
    assert x == (a + [x])[|a|];
  }

  /** A row of the reduced table comes from an agreeing row of the original:
      the position of that row. */
  lemma {:induction false} ReducedRowSource(t: Table, names: seq<Name>, e: Hash<Name, Value>, row: (Assignment, real))
      returns (i: nat)
    requires forall i :: 0 <= i < |t| ==> |t[i].0| == |names|
    requires row in ReducedRows(t, names, e)
    ensures i < |t| && Agrees(names, e, t[i].0) && row == (Drop(names, e, t[i].0), t[i].1)
    decreases |t|
  {
    var init := t[..|t| - 1];
    var last := t[|t| - 1];
    if row in ReducedRows(init, names, e) {
      i := ReducedRowSource(init, names, e, row);
      assert t[i] == init[i];
    } else {
      i := |t| - 1;
    }
  }

  /** The reduced rows of one more row of t. */
  lemma ReducedRowsSnoc(t: Table, names: seq<Name>, e: Hash<Name, Value>, i: nat)
    requires forall i :: 0 <= i < |t| ==> |t[i].0| == |names|
    requires i < |t|
    ensures ReducedRows(t[..i + 1], names, e) == ReducedRows(t[..i], names, e)
              + (if Agrees(names, e, t[i].0) then [(Drop(names, e, t[i].0), t[i].1)] else [])
  {
    assert t[..i + 1][..i] == t[..i];
    assert t[..i + 1][i] == t[i];
  }

  /** Every agreeing row of the original appears, dropped, in the reduced table. */
  lemma {:induction false} ReducedRowPresent(t: Table, names: seq<Name>, e: Hash<Name, Value>, i: nat)
    requires forall i :: 0 <= i < |t| ==> |t[i].0| == |names|
    requires i < |t| && Agrees(names, e, t[i].0)
    ensures (Drop(names, e, t[i].0), t[i].1) in ReducedRows(t, names, e)
    decreases |t|
  {
    var init := t[..|t| - 1];
    if i < |init| {
      assert t[i] == init[i];
      ReducedRowPresent(init, names, e, i);
    }
  }

  /** Distinct agreeing keys stay distinct once dropped. */
  lemma {:induction false} ReducedRowsUnique(t: Table, names: seq<Name>, e: Hash<Name, Value>)
    requires forall i :: 0 <= i < |t| ==> |t[i].0| == |names|
    requires UniqueKeys(t)
    ensures UniqueKeys(ReducedRows(t, names, e))
    decreases |t|
  {
    if t != [] {
      var init := t[..|t| - 1];
      var last := t[|t| - 1];
      assert Keys(init) == Keys(t)[..|t| - 1];
      ReducedRowsUnique(init, names, e);
      var r0 := ReducedRows(init, names, e);
      if Agrees(names, e, last.0) {
        var b := Drop(names, e, last.0);
        if b in Keys(r0) {
          var p := IndexOf(Keys(r0), b);
          var i := ReducedRowSource(init, names, e, r0[p]);
          DropInjective(names, e, init[i].0, last.0);
          assert false;
        }
        assert Keys(r0 + [(b, last.1)]) == Keys(r0) + [b];
      }
    }
  }

  /** With a distinct scope, a position is deleted exactly when its variable is
      evidence, so deleting by positions is dropping by names. */
  lemma {:induction false} DeleteIsDrop(names: seq<Name>, e: Hash<Name, Value>, idx: seq<nat>, k: Assignment)
    requires |k| == |names|
    requires forall j :: 0 <= j < |names| ==> (j in idx <==> names[j] in Keys(e))
    ensures DeleteByIndices(k, idx) == Drop(names, e, k)
    decreases |k|
  {
    if k != [] {
      var n := |k| - 1;
      assert k[..n] != [] ==> k[..n][..|k[..n]|] == k[..n];
      DeleteIsDrop(names[..n], e, idx, k[..n]);
    }
  }

  /** With a distinct scope, matching the evidence by positions is agreeing
      with it by names. */
  lemma MatchesIsAgrees(f: Factor, context: Hash<Name, Value>, k: Assignment)
    requires UniqueKeys(f.scope) && |k| == |f.scope|
    requires Slice(context, VarNames(f)) != []
    ensures var limited := Slice(context, VarNames(f));
      (forall n :: n in Keys(limited) ==> n in VarNames(f)) &&
      (Matches(k, IndicesOf(Keys(limited), VarNames(f)), Values(limited)) <==> Agrees(VarNames(f), context, k))
  {
    var names := VarNames(f);
    var limited := Slice(context, names);
    var ks := Keys(limited);
    assert forall n :: n in ks ==> n in names;
    var idx := IndicesOf(ks, names);
    var cv := Values(limited);
    forall j | 0 <= j < |ks| ensures cv[j] == Get(context, ks[j]).value {
      GetAt(limited, j);
    }
    if Matches(k, idx, cv) {
      forall j | 0 <= j < |names| && j < |k| && names[j] in Keys(context)
        ensures k[j] == Get(context, names[j]).value
      {
        assert names[j] in ks;
        var m := IndexOf(ks, names[j]);
        assert names[idx[m]] == names[j];
        assert idx[m] == j;
      }
    }
    if Agrees(names, context, k) {
      forall j | 0 <= j < |idx| ensures idx[j] < |k| && k[idx[j]] == cv[j] {
        assert names[idx[j]] == ks[j];
      }
    }
  }

  /** `reduce_to` keeps exactly the rows that agree with the evidence, in their
      order, each key without the evidence values: the positional code computes
      ReducedRows. */
  lemma ReduceToRows(f: Factor, context: Hash<Name, Value>)
    requires WellFormed(f)
    ensures ReduceTo(f, context).vals == ReducedRows(f.vals, VarNames(f), context)
  {
    WellFormedKeysFit(f);
    var names := VarNames(f);
    var limited := Slice(context, names);
    if limited == [] {
      assert forall n :: n in names ==> n !in Keys(context) by {
        assert Keys(limited) == [];
      }
      NothingToReduce(f.vals, names, context);
    } else {
      var ks := Keys(limited);
      assert forall n :: n in ks ==> n in names;
      var idx := IndicesOf(ks, names);
      var cv := Values(limited);
      forall j | 0 <= j < |names| ensures (j in idx <==> names[j] in Keys(context)) {
        if names[j] in Keys(context) {
          assert names[j] in ks;
          var m := IndexOf(ks, names[j]);
          assert idx[m] == j;
        }
        if j in idx {
          var m :| 0 <= m < |idx| && idx[m] == j;
          assert names[j] == ks[m];
        }
      }
      forall i | 0 <= i < |f.vals|
        ensures Matches(f.vals[i].0, idx, cv) <==> Agrees(names, context, f.vals[i].0)
      {
        MatchesIsAgrees(f, context, f.vals[i].0);
      }
      PositionalRows(f.vals, names, context, idx, cv);
      ReducedRowsUnique(f.vals, names, context);
    }
  }

  /** Without evidence variables in the scope every row agrees and keeps its key. */
  lemma {:induction false} NothingToReduce(t: Table, names: seq<Name>, e: Hash<Name, Value>)
    requires forall i :: 0 <= i < |t| ==> |t[i].0| == |names|
    requires forall n :: n in names ==> n !in Keys(e)
    ensures ReducedRows(t, names, e) == t
    decreases |t|
  {
    if t != [] {
      var last := t[|t| - 1];
      NothingToReduce(t[..|t| - 1], names, e);
      assert forall j :: 0 <= j < |names| ==> names[j] in names;
      DropNothing(names, e, last.0);
      assert t == t[..|t| - 1] + [last];
    }
  }

  lemma {:induction false} DropNothing(names: seq<Name>, e: Hash<Name, Value>, k: Assignment)
    requires |k| == |names|
    requires forall j :: 0 <= j < |names| ==> names[j] !in Keys(e)
    ensures Drop(names, e, k) == k
    decreases |k|
  {
    if k != [] {
      var n := |k| - 1;
      DropNothing(names[..n], e, k[..n]);
      assert k == k[..n] + [k[n]];
    }
  }

  lemma DeleteColumnsSnoc(t: Table, row: (Assignment, real), idx: seq<nat>)
    ensures DeleteColumns(t + [row], idx) == DeleteColumns(t, idx) + [(DeleteByIndices(row.0, idx), row.1)]
  {
    assert (t + [row])[|t|] == row;
  }

  /** The select-then-delete pipeline over any prefix of the rows, for
      positions and values that pick exactly the agreeing rows. */
  lemma {:induction false} PositionalRows(t: Table, names: seq<Name>, e: Hash<Name, Value>,
                                          idx: seq<nat>, cv: seq<Value>)
    requires forall i :: 0 <= i < |t| ==> |t[i].0| == |names|
    requires forall i :: 0 <= i < |t| ==> (Matches(t[i].0, idx, cv) <==> Agrees(names, e, t[i].0))
    requires forall j :: 0 <= j < |names| ==> (j in idx <==> names[j] in Keys(e))
    ensures DeleteColumns(Select(t, idx, cv), idx) == ReducedRows(t, names, e)
    decreases |t|
  {
    if t != [] {
      var init := t[..|t| - 1];
      var last := t[|t| - 1];
      PositionalRows(init, names, e, idx, cv);
      var s0 := Select(init, idx, cv);
      var r0 := ReducedRows(init, names, e);
      if Matches(last.0, idx, cv) {
        assert Select(t, idx, cv) == s0 + [last];
        assert ReducedRows(t, names, e) == r0 + [(Drop(names, e, last.0), last.1)];
        DeleteIsDrop(names, e, idx, last.0);
        DeleteColumnsSnoc(s0, last, idx);
      } else {
        assert Select(t, idx, cv) == s0;
      }
    }
  }

  /** Looking up a dropped agreeing key in the reduced factor finds the value
      of the full key in the original one. */
  lemma ReduceToLookup(f: Factor, context: Hash<Name, Value>, k: Assignment)
    requires WellFormed(f)
    requires k in Keys(f.vals) && Agrees(VarNames(f), context, k)
    ensures |k| == |VarNames(f)|
    ensures Lookup(ReduceTo(f, context), Drop(VarNames(f), context, k)) == Lookup(f, k)
  {
    WellFormedKeysFit(f);
    var i := IndexOf(Keys(f.vals), k);
    var g := ReduceTo(f, context);
    ReduceToRows(f, context);
    ReducedRowsUnique(f.vals, VarNames(f), context);
    ReducedRowPresent(f.vals, VarNames(f), context, i);
    GetIffPair(g.vals, Drop(VarNames(f), context, k), f.vals[i].1);
    GetAt(f.vals, i);
  }

  /** Every row of the reduced factor comes from a row of the original that
      agrees with the evidence. */
  lemma ReduceToKeys(f: Factor, context: Hash<Name, Value>, b: Assignment)
    requires WellFormed(f)
    requires b in Keys(ReduceTo(f, context).vals)
    ensures exists k :: k in Keys(f.vals) && |k| == |VarNames(f)| && Agrees(VarNames(f), context, k)
                      && Drop(VarNames(f), context, k) == b
  {
    WellFormedKeysFit(f);
    var names := VarNames(f);
    var t := f.vals;
    var r := ReduceTo(f, context).vals;
    ReduceToRows(f, context);
    var p := IndexOf(Keys(r), b);
    var i := ReducedRowSource(t, names, context, r[p]);
    assert t[i].0 in Keys(t);
  }

  lemma {:induction false} KeptWithout(names: seq<Name>, e: Hash<Name, Value>)
    ensures Kept(names, e) == |Without(names, Keys(e))|
    decreases |names|
  {
    if names != [] {
      KeptWithout(names[..|names| - 1], e);
    }
  }

  /** Dropping the evidence values moves the value of a free variable to
      that variable's position among the free variables. */
  lemma {:induction false} DropAt(names: seq<Name>, e: Hash<Name, Value>, k: Assignment, n: Name)
    requires |k| == |names| && Distinct(names) && n in names && n !in Keys(e)
    ensures n in Without(names, Keys(e))
    ensures IndexOf(Without(names, Keys(e)), n) < |Drop(names, e, k)|
    ensures Drop(names, e, k)[IndexOf(Without(names, Keys(e)), n)] == k[IndexOf(names, n)]
    decreases |names|
  {
    var m := |names| - 1;
    var init := names[..m];
    var w := Without(init, Keys(e));
    KeptWithout(names, e);
    KeptWithout(init, e);
    assert names == init + [names[m]];
    assert Drop(names, e, k) == Drop(init, e, k[..m]) + (if names[m] in Keys(e) then [] else [k[m]]);
    if names[m] == n {
      assert n !in init;
      assert Without(names, Keys(e)) == w + [n];
      IndexOfDistinct(names, m);
    } else {
      assert n in init;
      DropAt(init, e, k[..m], n);
      IndexOfAppend(init, n, names[m]);
      if names[m] !in Keys(e) {
        IndexOfAppend(w, n, names[m]);
      }
    }
  }

  lemma {:induction false} ReducedRowsLength(t: Table, names: seq<Name>, e: Hash<Name, Value>)
    requires forall i :: 0 <= i < |t| ==> |t[i].0| == |names|
    ensures forall i :: 0 <= i < |ReducedRows(t, names, e)| ==> |ReducedRows(t, names, e)[i].0| == Kept(names, e)
    decreases |t|
  {
    if t != [] {
      ReducedRowsLength(t[..|t| - 1], names, e);
    }
  }

  /** Every key of the reduced factor has one value per remaining variable. */
  lemma ReduceToKeysFit(f: Factor, context: Hash<Name, Value>)
    requires WellFormed(f)
    ensures KeysFit(ReduceTo(f, context))
  {
    WellFormedKeysFit(f);
    ReduceToScope(f, context);
    ReduceToRows(f, context);
    ReducedRowsLength(f.vals, VarNames(f), context);
    KeptWithout(VarNames(f), context);
  }
}
