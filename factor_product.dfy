/** `Factor#*` (lib/bayesnet/factor.rb): the product of two factors. Both
    tables are grouped by their values at the variables the factors share;
    every row of the left factor is paired with every row of the right factor
    in the group with the same shared values, and the pair gives one row of the
    product, keyed by the merged assignment and valued by the product of the
    two values. */
module FactorProducts {
  import opened Outcomes
  import opened OrderedHash
  import opened Factors
  import opened FactorMarginals

  type Row = (Assignment, real)

  /** `@scope.keys & other.scope.keys`: the shared variables, in f's order. */
  function Common(f: Factor, g: Factor): (c: seq<Name>)
    ensures forall n :: n in c <==> n in VarNames(f) && n in VarNames(g)
  {
    Known(VarNames(f), VarNames(g))
  }

  /** The positions of the shared variables in f and in g. */
  function LeftPositions(f: Factor, g: Factor): seq<nat> {
    IndicesOf(Common(f, g), VarNames(f))
  }

  function RightPositions(f: Factor, g: Factor): seq<nat> {
    IndicesOf(Common(f, g), VarNames(g))
  }

  /** `group_by_scope_values(common_scope)` on either side. */
  function LeftGroups(f: Factor, g: Factor): (gs: Groups)
    requires KeysFit(f)
    ensures RowsFrom(gs, f.vals)
  {
    KeysFitProjectable(f, LeftPositions(f, g));
    GroupBy(f.vals, LeftPositions(f, g))
  }

  function RightGroups(f: Factor, g: Factor): (gs: Groups)
    requires KeysFit(g)
    ensures RowsFrom(gs, g.vals)
  {
    KeysFitProjectable(g, RightPositions(f, g));
    GroupBy(g.vals, RightPositions(f, g))
  }

  /** The first n groups of gs1 each have a partner group in gs2. */
  predicate PartneredUpTo(gs1: Groups, gs2: Groups, n: nat) {
    n <= |gs1| && forall j :: 0 <= j < n ==> gs1[j].0 in Keys(gs2)
  }

  lemma PartneredStep(gs1: Groups, gs2: Groups, i: nat)
    requires PartneredUpTo(gs1, gs2, i) && i < |gs1| && gs1[i].0 in Keys(gs2)
    ensures PartneredUpTo(gs1, gs2, i + 1)
  {
  }

  lemma PartneredShrink(gs1: Groups, gs2: Groups, m: nat, n: nat)
    requires PartneredUpTo(gs1, gs2, n) && m <= n
    ensures PartneredUpTo(gs1, gs2, m)
  {
  }

  /** Every group of f has a group of g with the same shared values; the source
      raises on the first group that has none (`vals1.product(nil)`). */
  predicate Joinable(f: Factor, g: Factor)
    requires KeysFit(f) && KeysFit(g)
  {
    PartneredUpTo(LeftGroups(f, g), RightGroups(f, g), |LeftGroups(f, g)|)
  }

  /** The keys of both factors fit their scopes and gs1, gs2 are groupings of
      their tables by the shared variables. */
  predicate Grouped(f: Factor, g: Factor, gs1: Groups, gs2: Groups) {
    && KeysFit(f) && KeysFit(g)
    && GroupsOf(gs1, f.vals, LeftPositions(f, g))
    && GroupsOf(gs2, g.vals, RightPositions(f, g))
  }

  /** The groupings the source computes are groupings. */
  lemma GroupedByGroupBy(f: Factor, g: Factor)
    requires KeysFit(f) && KeysFit(g)
    ensures Grouped(f, g, LeftGroups(f, g), RightGroups(f, g))
  {
    KeysFitProjectable(f, LeftPositions(f, g));
    KeysFitProjectable(g, RightPositions(f, g));
    GroupByGroupsOf(f.vals, LeftPositions(f, g));
    GroupByGroupsOf(g.vals, RightPositions(f, g));
  }

  /** `var_names.zip(key).to_h`. */
  function ByName(names: seq<Name>, k: Assignment): (h: Hash<Name, Value>)
    requires |names| <= |k|
    ensures UniqueKeys(h)
  {
    ToHash(Zip(names, k))
  }

  /** `val_by_name1.merge(val_by_name2)`: the merged assignment of a pair of keys. */
  function JoinHash(f: Factor, g: Factor, k1: Assignment, k2: Assignment): (h: Hash<Name, Value>)
    requires |k1| == |VarNames(f)| && |k2| == |VarNames(g)|
    ensures UniqueKeys(h)
  {
    Merge(ByName(VarNames(f), k1), ByName(VarNames(g), k2))
  }

  /** The product's variables: f's, then those only g has. */
  function ProductNames(f: Factor, g: Factor): (names: seq<Name>)
    ensures forall n :: n in names <==> n in VarNames(f) || n in VarNames(g)
  {
    VarNames(f) + Extra(VarNames(g), VarNames(f))
  }

  /** The value a pair of keys gives a variable: g's value when g has the
      variable (the right side of a merge wins), f's otherwise. */
  function ValueOf(f: Factor, g: Factor, k1: Assignment, k2: Assignment, n: Name): Value
    requires |k1| == |VarNames(f)| && |k2| == |VarNames(g)|
    requires n in VarNames(f) || n in VarNames(g)
  {
    if n in VarNames(g) then k2[IndexOf(VarNames(g), n)] else k1[IndexOf(VarNames(f), n)]
  }

  /** The key of the product row of a pair: one value per product variable,
      in order. MergedKey proves it is the `values` of the merged hash. */
  function JoinKey(f: Factor, g: Factor, k1: Assignment, k2: Assignment): (r: Assignment)
    requires |k1| == |VarNames(f)| && |k2| == |VarNames(g)|
    ensures |r| == |ProductNames(f, g)|
    ensures forall j :: 0 <= j < |r| ==> r[j] == ValueOf(f, g, k1, k2, ProductNames(f, g)[j])
  {
    var names := ProductNames(f, g);
    seq(|names|, j requires 0 <= j < |names| => ValueOf(f, g, k1, k2, names[j]))
  }

  /** `xs.product(ys)`: every pair, the element of xs varying slowest. */
  function Combos(xs: seq<Row>, ys: seq<Row>): (r: seq<(Row, Row)>)
    ensures forall c :: c in r <==> c.0 in xs && c.1 in ys
    decreases |xs|
  {
    if xs == [] then []
    else
      var block := seq(|ys|, j requires 0 <= j < |ys| => (xs[0], ys[j]));
      assert forall c :: c in block <==> c.0 == xs[0] && c.1 in ys by {
        forall c: (Row, Row) | c.0 == xs[0] && c.1 in ys ensures c in block {
          var j :| 0 <= j < |ys| && ys[j] == c.1;
          assert block[j] == c;
        }
      }
      assert forall x :: x in xs <==> x == xs[0] || x in xs[1..];
      block + Combos(xs[1..], ys)
  }

  /** The keys of both rows of every pair fit their scopes. */
  predicate PairsFit(f: Factor, g: Factor, combo: seq<(Row, Row)>) {
    forall i :: 0 <= i < |combo| ==> |combo[i].0.0| == |VarNames(f)| && |combo[i].1.0| == |VarNames(g)|
  }

  /** `val1.last * val2.last`. */
  function Times(a: real, b: real): real {
    a * b
  }

  /** The product row of one pair. */
  function JoinRow(f: Factor, g: Factor, c: (Row, Row)): Row
    requires |c.0.0| == |VarNames(f)| && |c.1.0| == |VarNames(g)|
  {
    (JoinKey(f, g, c.0.0, c.1.0), Times(c.0.1, c.1.1))
  }

  /** One product row per pair: merged key, product of the values. */
  function JoinPairs(f: Factor, g: Factor, combo: seq<(Row, Row)>): (r: Table)
    requires PairsFit(f, g, combo)
    ensures |r| == |combo|
    ensures forall i :: 0 <= i < |combo| ==> r[i] == JoinRow(f, g, combo[i])
  {
    seq(|combo|, i requires 0 <= i < |combo| => JoinRow(f, g, combo[i]))
  }

  /** The pairs that the i-th group of f makes with its partner group of g. */
  function GroupCombos(f: Factor, g: Factor, gs1: Groups, gs2: Groups, i: nat): (combo: seq<(Row, Row)>)
    requires KeysFit(f) && KeysFit(g) && RowsFrom(gs1, f.vals) && RowsFrom(gs2, g.vals)
    requires i < |gs1| && gs1[i].0 in Keys(gs2)
    ensures PairsFit(f, g, combo)
  {
    var p := gs1[i].0;
    var rows1 := gs1[i].1;
    var rows2 := Get(gs2, p).value;
    var q := IndexOf(Keys(gs2), p);
    assert rows2 == gs2[q].1;
    KeysFitMembers(f);
    KeysFitMembers(g);
    var combo := Combos(rows1, rows2);
    assert forall j :: 0 <= j < |combo| ==> combo[j].0 in rows1 && combo[j].1 in rows2 by {
      forall j | 0 <= j < |combo| ensures combo[j].0 in rows1 && combo[j].1 in rows2 {
        assert combo[j] in combo;
      }
    }
    combo
  }

  lemma PairsFitConcat(f: Factor, g: Factor, a: seq<(Row, Row)>, b: seq<(Row, Row)>)
    requires PairsFit(f, g, a) && PairsFit(f, g, b)
    ensures PairsFit(f, g, a + b)
  {
    forall j | 0 <= j < |a + b|
      ensures |(a + b)[j].0.0| == |VarNames(f)| && |(a + b)[j].1.0| == |VarNames(g)|
    {
      if j < |a| {
        assert (a + b)[j] == a[j];
      } else {
        assert (a + b)[j] == b[j - |a|];
      }
    }
  }

  /** The pairs the first n groups of f make, in the order the loops visit them. */
  function FlatPairs(f: Factor, g: Factor, gs1: Groups, gs2: Groups, n: nat): (ps: seq<(Row, Row)>)
    requires KeysFit(f) && KeysFit(g) && RowsFrom(gs1, f.vals) && RowsFrom(gs2, g.vals)
    requires PartneredUpTo(gs1, gs2, n)
    ensures PairsFit(f, g, ps)
    decreases n
  {
    if n == 0 then []
    else
      PartneredShrink(gs1, gs2, n - 1, n);
      var ps := FlatPairs(f, g, gs1, gs2, n - 1);
      var combo := GroupCombos(f, g, gs1, gs2, n - 1);
      PairsFitConcat(f, g, ps, combo);
      ps + combo
  }

  /** Storing the pairs into a hash one after another. */
  function StoreAll(t: Table, ps: Table): Table
    decreases |ps|
  {
    if ps == [] then t
    else Store(StoreAll(t, ps[..|ps| - 1]), ps[|ps| - 1].0, ps[|ps| - 1].1)
  }

  /** `f * g`: the scope is f's variables followed by g's new ones. */
  function Product(f: Factor, g: Factor): (r: Result<Factor>)
    requires KeysFit(f) && KeysFit(g)
    ensures r.Ok? ==> VarNames(r.value) == ProductNames(f, g)
    ensures r.Err? ==> r.error == UnmatchedRows
  {
    var gs1 := LeftGroups(f, g);
    var gs2 := RightGroups(f, g);
    if PartneredUpTo(gs1, gs2, |gs1|) then
      Ok(Factor(Merge(f.scope, g.scope), StoreAll([], JoinPairs(f, g, FlatPairs(f, g, gs1, gs2, |gs1|)))))
    else Err(UnmatchedRows)
  }

  /** `*` as the source runs it: for every group of f, for every pair with
      the partner group of g, store the product row. */
  method Multiply(f: Factor, g: Factor) returns (r: Result<Factor>)
    requires UniqueKeys(f.scope) && UniqueKeys(g.scope)
    requires KeysFit(f) && KeysFit(g)
    ensures r == Product(f, g)
  {
    var newScope := Merge(f.scope, g.scope);
    var newVals: Table := [];
    var group1 := LeftGroups(f, g);
    var group2 := RightGroups(f, g);
    var i := 0;
    while i < |group1|
      invariant 0 <= i <= |group1|
      invariant PartneredUpTo(group1, group2, i)
      invariant newVals == StoreAll([], JoinPairs(f, g, FlatPairs(f, g, group1, group2, i)))
    {
      if group1[i].0 !in Keys(group2) {
        return Err(UnmatchedRows);
      }
      PartneredStep(group1, group2, i);
      var combo := GroupCombos(f, g, group1, group2, i);
      newVals := StorePairs(f, g, FlatPairs(f, g, group1, group2, i), combo, newVals);
      i := i + 1;
    }
    r := Ok(Factor(newScope, newVals));
  }

  /** The inner loop of `*`: store the product row of every pair of one group,
      after the rows of the pairs before it. */
  method StorePairs(f: Factor, g: Factor, ghost done: seq<(Row, Row)>, combo: seq<(Row, Row)>, acc: Table)
    returns (newVals: Table)
    requires UniqueKeys(f.scope) && UniqueKeys(g.scope)
    requires PairsFit(f, g, done) && PairsFit(f, g, combo)
    requires acc == StoreAll([], JoinPairs(f, g, done))
    ensures PairsFit(f, g, done + combo)
    ensures newVals == StoreAll([], JoinPairs(f, g, done + combo))
  {
    newVals := acc;
    var c := 0;
    assert done + combo[..0] == done;
    while c < |combo|
      invariant 0 <= c <= |combo|
      invariant PairsFit(f, g, done + combo[..c])
      invariant newVals == StoreAll([], JoinPairs(f, g, done + combo[..c]))
    {
      var row1 := combo[c].0;
      var row2 := combo[c].1;
      var byName1 := ByName(VarNames(f), row1.0);
      var byName2 := ByName(VarNames(g), row2.0);
      PairStep(f, g, done, combo, c);
      MergedKey(f, g, row1.0, row2.0);
      newVals := Store(newVals, Values(Merge(byName1, byName2)), Times(row1.1, row2.1));
      c := c + 1;
    }
    assert combo[..c] == combo;
  }

  lemma StoreAllSnoc(t: Table, ps: Table, x: Row)
    ensures StoreAll(t, ps + [x]) == Store(StoreAll(t, ps), x.0, x.1)
  {
    assert (ps + [x])[..|ps|] == ps;
  }

  lemma PairsFitPrefix(f: Factor, g: Factor, combo: seq<(Row, Row)>, n: nat)
    requires PairsFit(f, g, combo) && n <= |combo|
    ensures PairsFit(f, g, combo[..n])
  {
    forall j | 0 <= j < n ensures combo[..n][j] == combo[j] { }
  }

  lemma JoinPairsSnoc(f: Factor, g: Factor, xs: seq<(Row, Row)>, x: (Row, Row))
    requires PairsFit(f, g, xs) && |x.0.0| == |VarNames(f)| && |x.1.0| == |VarNames(g)|
    requires PairsFit(f, g, xs + [x])
    ensures JoinPairs(f, g, xs + [x]) == JoinPairs(f, g, xs) + [JoinRow(f, g, x)]
  {
    var a := JoinPairs(f, g, xs);
    var b := JoinPairs(f, g, xs + [x]);
    forall j | 0 <= j < |xs| + 1 ensures b[j] == (a + [JoinRow(f, g, x)])[j] {
      if j < |xs| {
        assert (xs + [x])[j] == xs[j];
      }
    }
    assert |b| == |a + [JoinRow(f, g, x)]|;
  }

  /** One turn of the inner loop stores the next pair's row. */
  lemma PairStep(f: Factor, g: Factor, done: seq<(Row, Row)>, combo: seq<(Row, Row)>, c: nat)
    requires PairsFit(f, g, done) && PairsFit(f, g, combo) && c < |combo|
    ensures PairsFit(f, g, done + combo[..c]) && PairsFit(f, g, done + combo[..c + 1])
    ensures StoreAll([], JoinPairs(f, g, done + combo[..c + 1]))
         == Store(StoreAll([], JoinPairs(f, g, done + combo[..c])),
                  JoinRow(f, g, combo[c]).0, JoinRow(f, g, combo[c]).1)
  {
    PairsFitPrefix(f, g, combo, c);
    PairsFitPrefix(f, g, combo, c + 1);
    PairsFitConcat(f, g, done, combo[..c]);
    PairsFitConcat(f, g, done, combo[..c + 1]);
    var xs := done + combo[..c];
    assert done + combo[..c + 1] == xs + [combo[c]];
    JoinPairsSnoc(f, g, xs, combo[c]);
    StoreAllSnoc([], JoinPairs(f, g, xs), JoinRow(f, g, combo[c]));
  }

  // ---------------------------------------------------------------------------
  // What the product means

  /** Two keys give every shared variable the same value. */
  predicate Compatible(f: Factor, g: Factor, k1: Assignment, k2: Assignment)
    requires |k1| == |VarNames(f)| && |k2| == |VarNames(g)|
  {
    forall n :: n in VarNames(f) && n in VarNames(g) ==>
      k1[IndexOf(VarNames(f), n)] == k2[IndexOf(VarNames(g), n)]
  }

  /** Grouping by the shared positions puts two rows in partner groups exactly
      when their keys are compatible. */
  lemma CompatibleIffProject(f: Factor, g: Factor, k1: Assignment, k2: Assignment)
    requires |k1| == |VarNames(f)| && |k2| == |VarNames(g)|
    ensures Project(k1, LeftPositions(f, g)) == Project(k2, RightPositions(f, g)) <==> Compatible(f, g, k1, k2)
  {
    var c := Common(f, g);
    var p1 := Project(k1, LeftPositions(f, g));
    var p2 := Project(k2, RightPositions(f, g));
    if p1 == p2 {
      forall n | n in VarNames(f) && n in VarNames(g)
        ensures k1[IndexOf(VarNames(f), n)] == k2[IndexOf(VarNames(g), n)]
      {
        var j := IndexOf(c, n);
        assert p1[j] == p2[j];
      }
    }
    if Compatible(f, g, k1, k2) {
      forall j | 0 <= j < |c| ensures p1[j] == p2[j] {
        assert c[j] in c;
      }
    }
  }

  lemma ByNameKeys(names: seq<Name>, k: Assignment)
    requires Distinct(names) && |names| <= |k|
    ensures Keys(ByName(names, k)) == names
  {
    assert Keys(Zip(names, k)) == names;
  }

  /** The merged assignment gives a variable of g its value in g's key and
      any other variable of f its value in f's key. */
  lemma JoinGet(f: Factor, g: Factor, k1: Assignment, k2: Assignment, n: Name)
    requires UniqueKeys(f.scope) && UniqueKeys(g.scope)
    requires |k1| == |VarNames(f)| && |k2| == |VarNames(g)|
    ensures Get(JoinHash(f, g, k1, k2), n) ==
              if n in VarNames(g) then Some(k2[IndexOf(VarNames(g), n)])
              else if n in VarNames(f) then Some(k1[IndexOf(VarNames(f), n)])
              else None
  {
    var names1 := VarNames(f);
    var names2 := VarNames(g);
    ByNameKeys(names1, k1);
    ByNameKeys(names2, k2);
    MergeGet(ByName(names1, k1), ByName(names2, k2), n);
    if n in names2 {
      ZipHashAt(names2, k2, IndexOf(names2, n));
    } else if n in names1 {
      ZipHashAt(names1, k1, IndexOf(names1, n));
    }
  }

  /** The merged assignment lists the product's variables in order. */
  lemma JoinKeys(f: Factor, g: Factor, k1: Assignment, k2: Assignment)
    requires UniqueKeys(f.scope) && UniqueKeys(g.scope)
    requires |k1| == |VarNames(f)| && |k2| == |VarNames(g)|
    ensures Keys(JoinHash(f, g, k1, k2)) == VarNames(f) + Extra(VarNames(g), VarNames(f))
  {
    ByNameKeys(VarNames(f), k1);
    ByNameKeys(VarNames(g), k2);
  }

  /** `val_by_name1.merge(val_by_name2).values` is the product key. */
  lemma MergedKey(f: Factor, g: Factor, k1: Assignment, k2: Assignment)
    requires UniqueKeys(f.scope) && UniqueKeys(g.scope)
    requires |k1| == |VarNames(f)| && |k2| == |VarNames(g)|
    ensures Values(JoinHash(f, g, k1, k2)) == JoinKey(f, g, k1, k2)
  {
    var h := JoinHash(f, g, k1, k2);
    var key := JoinKey(f, g, k1, k2);
    JoinKeys(f, g, k1, k2);
    forall j | 0 <= j < |h| ensures Values(h)[j] == key[j] {
      GetAt(h, j);
      JoinGet(f, g, k1, k2, Keys(h)[j]);
    }
  }

  /** A product key determines the pair of compatible keys it was made from. */
  lemma JoinKeyInjective(f: Factor, g: Factor, k1: Assignment, k2: Assignment, l1: Assignment, l2: Assignment)
    requires UniqueKeys(f.scope) && UniqueKeys(g.scope)
    requires |k1| == |VarNames(f)| && |k2| == |VarNames(g)| && |l1| == |VarNames(f)| && |l2| == |VarNames(g)|
    requires Compatible(f, g, k1, k2) && Compatible(f, g, l1, l2)
    requires JoinKey(f, g, k1, k2) == JoinKey(f, g, l1, l2)
    ensures k1 == l1 && k2 == l2
  {
    var names1 := VarNames(f);
    var names2 := VarNames(g);
    var names := ProductNames(f, g);
    var key := JoinKey(f, g, k1, k2);
    forall j | 0 <= j < |names2| ensures k2[j] == l2[j] {
      IndexOfDistinct(names2, j);
      var p := IndexOf(names, names2[j]);
      assert key[p] == ValueOf(f, g, k1, k2, names2[j]);
    }
    forall j | 0 <= j < |names1| ensures k1[j] == l1[j] {
      IndexOfDistinct(names1, j);
      assert names[j] == names1[j];
      assert key[j] == ValueOf(f, g, k1, k2, names1[j]);
    }
  }

  /** The pair c is the pair of rows at positions i1, i2, and their keys are
      compatible. */
  predicate FromRows(f: Factor, g: Factor, c: (Row, Row), i1: nat, i2: nat) {
    && i1 < |f.vals| && i2 < |g.vals|
    && c == (f.vals[i1], g.vals[i2])
    && |c.0.0| == |VarNames(f)| && |c.1.0| == |VarNames(g)|
    && Compatible(f, g, c.0.0, c.1.0)
  }

  /** The position of an element in a sequence. */
  lemma PositionOf<T>(s: seq<T>, x: T) returns (i: nat)
    requires x in s
    ensures i < |s| && s[i] == x
  {
    i :| 0 <= i < |s| && s[i] == x;
  }

  lemma InConcat<T>(a: seq<T>, b: seq<T>, e: T)
    requires e in a || e in b
    ensures e in a + b
  {
    if e in a {
      var i := PositionOf(a, e);
      assert (a + b)[i] == e;
    } else {
      var i := PositionOf(b, e);
      assert (a + b)[|a| + i] == e;
    }
  }

  /** The pairs one group makes are compatible pairs of rows. */
  lemma GroupSource(f: Factor, g: Factor, gs1: Groups, gs2: Groups, i: nat, c: (Row, Row))
    returns (i1: nat, i2: nat)
    requires Grouped(f, g, gs1, gs2)
    requires i < |gs1| && gs1[i].0 in Keys(gs2)
    requires c in GroupCombos(f, g, gs1, gs2, i)
    ensures FromRows(f, g, c, i1, i2)
  {
    var p := gs1[i].0;
    var q := IndexOf(Keys(gs2), p);
    assert GroupCombos(f, g, gs1, gs2, i) == Combos(gs1[i].1, gs2[q].1);
    KeysFitMembers(f);
    KeysFitMembers(g);
    assert ProjectsTo(c.0.0, LeftPositions(f, g), p);
    assert ProjectsTo(c.1.0, RightPositions(f, g), p);
    CompatibleIffProject(f, g, c.0.0, c.1.0);
    i1 := PositionOf(f.vals, c.0);
    i2 := PositionOf(g.vals, c.1);
  }

  /** Every pair the loops visit is a pair of some partnered group. */
  lemma {:induction false} FlatMember(f: Factor, g: Factor, gs1: Groups, gs2: Groups, n: nat, c: (Row, Row))
    returns (i: nat)
    requires KeysFit(f) && KeysFit(g) && RowsFrom(gs1, f.vals) && RowsFrom(gs2, g.vals)
    requires PartneredUpTo(gs1, gs2, n)
    requires c in FlatPairs(f, g, gs1, gs2, n)
    ensures i < n && c in GroupCombos(f, g, gs1, gs2, i)
    decreases n
  {
    PartneredShrink(gs1, gs2, n - 1, n);
    var a := FlatPairs(f, g, gs1, gs2, n - 1);
    var b := GroupCombos(f, g, gs1, gs2, n - 1);
    assert FlatPairs(f, g, gs1, gs2, n) == a + b;
    if c in a {
      i := FlatMember(f, g, gs1, gs2, n - 1, c);
    } else {
      i := n - 1;
    }
  }

  /** Every pair the loops visit is a compatible pair of rows of f and g: the
      positions of those rows. */
  lemma FlatSource(f: Factor, g: Factor, gs1: Groups, gs2: Groups, n: nat, c: (Row, Row))
    returns (i1: nat, i2: nat)
    requires Grouped(f, g, gs1, gs2) && PartneredUpTo(gs1, gs2, n)
    requires c in FlatPairs(f, g, gs1, gs2, n)
    ensures FromRows(f, g, c, i1, i2)
  {
    var i := FlatMember(f, g, gs1, gs2, n, c);
    i1, i2 := GroupSource(f, g, gs1, gs2, i, c);
  }

  /** The pairs of the first m groups stay among the pairs of the first n. */
  lemma {:induction false} FlatGrows(f: Factor, g: Factor, gs1: Groups, gs2: Groups, m: nat, n: nat, c: (Row, Row))
    requires KeysFit(f) && KeysFit(g) && RowsFrom(gs1, f.vals) && RowsFrom(gs2, g.vals)
    requires m <= n && PartneredUpTo(gs1, gs2, n)
    requires c in FlatPairs(f, g, gs1, gs2, m)
    ensures c in FlatPairs(f, g, gs1, gs2, n)
    decreases n
  {
    if m < n {
      PartneredShrink(gs1, gs2, n - 1, n);
      FlatGrows(f, g, gs1, gs2, m, n - 1, c);
      var a := FlatPairs(f, g, gs1, gs2, n - 1);
      var b := GroupCombos(f, g, gs1, gs2, n - 1);
      assert FlatPairs(f, g, gs1, gs2, n) == a + b;
      InConcat(a, b, c);
    }
  }

  /** A row of f lies in the group of its shared values, a group of f. */
  lemma LeftGroupOf(f: Factor, g: Factor, gs1: Groups, gs2: Groups, i1: nat) returns (gi: nat)
    requires Grouped(f, g, gs1, gs2) && i1 < |f.vals|
    ensures gi < |gs1| && f.vals[i1] in gs1[gi].1
    ensures gs1[gi].0 == Project(f.vals[i1].0, LeftPositions(f, g))
  {
    var p := Project(f.vals[i1].0, LeftPositions(f, g));
    gi := IndexOf(Keys(gs1), p);
  }

  /** A row of g lies in the group of its shared values, a group of g. */
  lemma RightGroupOf(f: Factor, g: Factor, gs1: Groups, gs2: Groups, i2: nat) returns (q: nat)
    requires Grouped(f, g, gs1, gs2) && i2 < |g.vals|
    ensures q < |gs2| && g.vals[i2] in gs2[q].1
    ensures gs2[q].0 == Project(g.vals[i2].0, RightPositions(f, g))
  {
    var p := Project(g.vals[i2].0, RightPositions(f, g));
    q := IndexOf(Keys(gs2), p);
  }

  /** The loops visit every compatible pair of rows. */
  lemma FlatPresent(f: Factor, g: Factor, gs1: Groups, gs2: Groups, i1: nat, i2: nat)
    requires Grouped(f, g, gs1, gs2) && PartneredUpTo(gs1, gs2, |gs1|)
    requires i1 < |f.vals| && i2 < |g.vals|
    requires |f.vals[i1].0| == |VarNames(f)| && |g.vals[i2].0| == |VarNames(g)|
    requires Compatible(f, g, f.vals[i1].0, g.vals[i2].0)
    ensures (f.vals[i1], g.vals[i2]) in FlatPairs(f, g, gs1, gs2, |gs1|)
  {
    var r1 := f.vals[i1];
    var r2 := g.vals[i2];
    var gi := LeftGroupOf(f, g, gs1, gs2, i1);
    var q := RightGroupOf(f, g, gs1, gs2, i2);
    CompatibleIffProject(f, g, r1.0, r2.0);
    var p := gs1[gi].0;
    assert Keys(gs2)[q] == p;
    IndexOfDistinct(Keys(gs2), q);
    var combo := GroupCombos(f, g, gs1, gs2, gi);
    assert combo == Combos(gs1[gi].1, gs2[q].1);
    PartneredShrink(gs1, gs2, gi + 1, |gs1|);
    var a := FlatPairs(f, g, gs1, gs2, gi);
    assert FlatPairs(f, g, gs1, gs2, gi + 1) == a + combo;
    InConcat(a, combo, (r1, r2));
    FlatGrows(f, g, gs1, gs2, gi + 1, |gs1|, (r1, r2));
  }

  /** After storing the pairs in turn, a key holds the value every pair with
      that key carries. */
  lemma {:induction false} StoreAllGet(t: Table, ps: Table, k: Assignment, v: real)
    requires (k, v) in ps
    requires forall e :: e in ps && e.0 == k ==> e.1 == v
    ensures Get(StoreAll(t, ps), k) == Some(v)
    decreases |ps|
  {
    var init := ps[..|ps| - 1];
    var last := ps[|ps| - 1];
    if last.0 != k {
      assert (k, v) in init;
      assert forall e :: e in init ==> e in ps;
      StoreAllGet(t, init, k, v);
    }
  }

  /** The keys stored are the keys of the pairs, and those already there. */
  lemma {:induction false} StoreAllKeys(t: Table, ps: Table, k: Assignment)
    ensures k in Keys(StoreAll(t, ps)) <==> k in Keys(t) || k in Keys(ps)
    decreases |ps|
  {
    if ps != [] {
      var init := ps[..|ps| - 1];
      StoreAllKeys(t, init, k);
      assert Keys(ps) == Keys(init) + [ps[|ps| - 1].0];
    }
  }

  /** In tables with unique keys, a product row with the key of a compatible
      pair carries the product of that pair's values. */
  lemma ProductRowValue(f: Factor, g: Factor, gs1: Groups, gs2: Groups, i1: nat, i2: nat, e: Row)
    requires WellFormed(f) && WellFormed(g)
    requires Grouped(f, g, gs1, gs2) && PartneredUpTo(gs1, gs2, |gs1|)
    requires i1 < |f.vals| && i2 < |g.vals|
    requires |f.vals[i1].0| == |VarNames(f)| && |g.vals[i2].0| == |VarNames(g)|
    requires Compatible(f, g, f.vals[i1].0, g.vals[i2].0)
    requires e in JoinPairs(f, g, FlatPairs(f, g, gs1, gs2, |gs1|))
    requires e.0 == JoinKey(f, g, f.vals[i1].0, g.vals[i2].0)
    ensures e.1 == Times(f.vals[i1].1, g.vals[i2].1)
  {
    var j1, j2 := RowSource(f, g, gs1, gs2, e);
    JoinKeyInjective(f, g, f.vals[j1].0, g.vals[j2].0, f.vals[i1].0, g.vals[i2].0);
    SameKeySameRow(f.vals, j1, i1);
    SameKeySameRow(g.vals, j2, i2);
  }

  /** Every product row is the row of a compatible pair. */
  lemma RowSource(f: Factor, g: Factor, gs1: Groups, gs2: Groups, e: Row) returns (i1: nat, i2: nat)
    requires Grouped(f, g, gs1, gs2) && PartneredUpTo(gs1, gs2, |gs1|)
    requires e in JoinPairs(f, g, FlatPairs(f, g, gs1, gs2, |gs1|))
    ensures i1 < |f.vals| && i2 < |g.vals|
    ensures |f.vals[i1].0| == |VarNames(f)| && |g.vals[i2].0| == |VarNames(g)|
    ensures Compatible(f, g, f.vals[i1].0, g.vals[i2].0)
    ensures e == JoinRow(f, g, (f.vals[i1], g.vals[i2]))
  {
    var all := FlatPairs(f, g, gs1, gs2, |gs1|);
    var j := PositionOf(JoinPairs(f, g, all), e);
    i1, i2 := FlatSource(f, g, gs1, gs2, |gs1|, all[j]);
  }

  /** In a table with unique keys, a key sits at one position only. */
  lemma SameKeySameRow(t: Table, i: nat, j: nat)
    requires UniqueKeys(t) && i < |t| && j < |t| && t[i].0 == t[j].0
    ensures i == j
  {
    assert Keys(t)[i] == Keys(t)[j];
  }

  /** Every compatible pair of rows of f and g has its product row: the merged
      key holds the product of the two values. */
  lemma ProductEntry(f: Factor, g: Factor, i1: nat, i2: nat)
    requires WellFormed(f) && WellFormed(g) && KeysFit(f) && KeysFit(g) && Joinable(f, g)
    requires i1 < |f.vals| && i2 < |g.vals|
    requires Compatible(f, g, f.vals[i1].0, g.vals[i2].0)
    ensures Product(f, g).Ok?
    ensures Lookup(Product(f, g).value, JoinKey(f, g, f.vals[i1].0, g.vals[i2].0))
              == Some(f.vals[i1].1 * g.vals[i2].1)
  {
    var gs1 := LeftGroups(f, g);
    var gs2 := RightGroups(f, g);
    GroupedByGroupBy(f, g);
    var all := FlatPairs(f, g, gs1, gs2, |gs1|);
    var rows := JoinPairs(f, g, all);
    FlatPresent(f, g, gs1, gs2, i1, i2);
    var j := PositionOf(all, (f.vals[i1], g.vals[i2]));
    var e := rows[j];
    forall e' | e' in rows && e'.0 == e.0 ensures e'.1 == e.1 {
      ProductRowValue(f, g, gs1, gs2, i1, i2, e');
    }
    StoreAllGet([], rows, e.0, e.1);
  }

  /** Every row of the product comes from a compatible pair of rows. */
  lemma ProductKeys(f: Factor, g: Factor, b: Assignment)
    requires KeysFit(f) && KeysFit(g) && Joinable(f, g)
    requires b in Keys(Product(f, g).value.vals)
    ensures exists i1, i2 :: 0 <= i1 < |f.vals| && 0 <= i2 < |g.vals|
              && Compatible(f, g, f.vals[i1].0, g.vals[i2].0)
              && JoinKey(f, g, f.vals[i1].0, g.vals[i2].0) == b
  {
    var gs1 := LeftGroups(f, g);
    var gs2 := RightGroups(f, g);
    GroupedByGroupBy(f, g);
    var all := FlatPairs(f, g, gs1, gs2, |gs1|);
    var rows := JoinPairs(f, g, all);
    StoreAllKeys([], rows, b);
    var j := IndexOf(Keys(rows), b);
    var i1, i2 := FlatSource(f, g, gs1, gs2, |gs1|, all[j]);
    assert JoinKey(f, g, f.vals[i1].0, g.vals[i2].0) == b;
  }

  /** In a joinable product a row of f has a compatible row in g. */
  lemma PartnerRow(f: Factor, g: Factor, gs1: Groups, gs2: Groups, i1: nat) returns (i2: nat)
    requires Grouped(f, g, gs1, gs2) && PartneredUpTo(gs1, gs2, |gs1|) && i1 < |f.vals|
    ensures i2 < |g.vals| && |f.vals[i1].0| == |VarNames(f)| && |g.vals[i2].0| == |VarNames(g)|
    ensures Compatible(f, g, f.vals[i1].0, g.vals[i2].0)
  {
    var gi := LeftGroupOf(f, g, gs1, gs2, i1);
    var p := gs1[gi].0;
    var q := IndexOf(Keys(gs2), p);
    KeysFitMembers(f);
    KeysFitMembers(g);
    var x := gs2[q].1[0];
    assert x in gs2[q].1;
    i2 := PositionOf(g.vals, x);
    assert ProjectsTo(x.0, RightPositions(f, g), p);
    CompatibleIffProject(f, g, f.vals[i1].0, x.0);
  }

  /** The product fails exactly when some row of f has no compatible row in g. */
  lemma JoinableIff(f: Factor, g: Factor)
    requires KeysFit(f) && KeysFit(g)
    ensures Joinable(f, g) <==>
              forall i1 :: 0 <= i1 < |f.vals| ==>
                exists i2 :: 0 <= i2 < |g.vals| && Compatible(f, g, f.vals[i1].0, g.vals[i2].0)
  {
    var gs1 := LeftGroups(f, g);
    var gs2 := RightGroups(f, g);
    GroupedByGroupBy(f, g);
    if Joinable(f, g) {
      forall i1 | 0 <= i1 < |f.vals|
        ensures exists i2 :: 0 <= i2 < |g.vals| && Compatible(f, g, f.vals[i1].0, g.vals[i2].0)
      {
        var i2 := PartnerRow(f, g, gs1, gs2, i1);
      }
    } else {
      var gi :| 0 <= gi < |gs1| && gs1[gi].0 !in Keys(gs2);
      var i1 := Unpartnered(f, g, gs1, gs2, gi);
    }
  }

  /** A group of f without a partner holds a row of f that no row of g is
      compatible with. */
  lemma Unpartnered(f: Factor, g: Factor, gs1: Groups, gs2: Groups, gi: nat) returns (i1: nat)
    requires Grouped(f, g, gs1, gs2) && gi < |gs1| && gs1[gi].0 !in Keys(gs2)
    ensures i1 < |f.vals| && |f.vals[i1].0| == |VarNames(f)|
    ensures forall i2 :: 0 <= i2 < |g.vals| ==>
              |g.vals[i2].0| == |VarNames(g)| && !Compatible(f, g, f.vals[i1].0, g.vals[i2].0)
  {
    KeysFitMembers(f);
    KeysFitMembers(g);
    var p := gs1[gi].0;
    var x := gs1[gi].1[0];
    assert x in gs1[gi].1;
    i1 := PositionOf(f.vals, x);
    assert ProjectsTo(x.0, LeftPositions(f, g), p);
    forall i2 | 0 <= i2 < |g.vals|
      ensures |g.vals[i2].0| == |VarNames(g)| && !Compatible(f, g, f.vals[i1].0, g.vals[i2].0)
    {
      var q := RightGroupOf(f, g, gs1, gs2, i2);
      assert Keys(gs2)[q] == gs2[q].0;
      CompatibleIffProject(f, g, f.vals[i1].0, g.vals[i2].0);
    }
  }
}
