/** `Factor#marginalize`, `Factor#eliminate` and `Factor#group_by_scope_values`
    (lib/bayesnet/factor.rb): summing a factor down to some of its variables.
    The rows are grouped by their values at the kept positions, in the order
    the groups first appear, and each group becomes one row holding the sum of
    its values. */
module FactorMarginals {
  import opened Outcomes
  import opened OrderedHash
  import opened Factors

  /** A Ruby `group_by` result over table rows: each projection with the rows
      that have it. */
  type Groups = Hash<Assignment, Table>

  /** Every position is inside every key. */
  predicate Projectable(t: Table, idx: seq<nat>) {
    forall i, j :: 0 <= i < |t| && 0 <= j < |idx| ==> idx[j] < |t[i].0|
  }

  lemma ProjectableInit(t: Table, idx: seq<nat>, n: nat)
    requires Projectable(t, idx) && n <= |t|
    ensures Projectable(t[..n], idx)
  {
    forall i, j | 0 <= i < n && 0 <= j < |idx| ensures idx[j] < |t[..n][i].0| {
      assert t[..n][i] == t[i];
    }
  }

  /** Every row of every group is a row of t. */
  predicate RowsFrom(gs: Groups, t: Table) {
    forall i, x :: 0 <= i < |gs| && x in gs[i].1 ==> x in t
  }

  /** `@vals.group_by { |context, _val| indices.map { |i| context[i] } }`. */
  function GroupBy(t: Table, idx: seq<nat>): (g: Groups)
    requires Projectable(t, idx)
    ensures UniqueKeys(g)
    ensures RowsFrom(g, t)
    decreases |t|
  {
    if t == [] then []
    else
      var init := t[..|t| - 1];
      var last := t[|t| - 1];
      ProjectableInit(t, idx, |t| - 1);
      var g0 := GroupBy(init, idx);
      var p := Project(last.0, idx);
      var members := match Get(g0, p) case Some(rows) => rows case None => [];
      assert forall x :: x in init ==> x in t;
      assert forall x :: x in members + [last] ==> x in t;
      Store(g0, p, members + [last])
  }

  /** One more row adds its projection as a new last group, unless that
      group exists already. */
  lemma GroupBySnocKeys(t: Table, x: (Assignment, real), idx: seq<nat>)
    requires Projectable(t + [x], idx)
    ensures Projectable(t, idx) && forall j :: 0 <= j < |idx| ==> idx[j] < |x.0|
    ensures var g := Keys(GroupBy(t, idx));
      var p := Project(x.0, idx);
      Keys(GroupBy(t + [x], idx)) == if p in g then g else g + [p]
  {
    assert (t + [x])[..|t|] == t;
    assert (t + [x])[|t|] == x;
    ProjectableInit(t + [x], idx, |t|);
  }

  /** The reference for one group: the rows whose projection is p, in order. */
  function Having(t: Table, idx: seq<nat>, p: Assignment): Table
    requires Projectable(t, idx)
    decreases |t|
  {
    if t == [] then []
    else
      var last := t[|t| - 1];
      ProjectableInit(t, idx, |t| - 1);
      Having(t[..|t| - 1], idx, p) + (if Project(last.0, idx) == p then [last] else [])
  }

  /** The key's values at the positions are p. */
  predicate ProjectsTo(k: Assignment, idx: seq<nat>, p: Assignment) {
    (forall j :: 0 <= j < |idx| ==> idx[j] < |k|) && Project(k, idx) == p
  }

  /** The rows of a group are the rows of the table with that projection. */
  lemma {:induction false} HavingMembership(t: Table, idx: seq<nat>, p: Assignment, x: (Assignment, real))
    requires Projectable(t, idx)
    ensures x in Having(t, idx, p) <==> x in t && ProjectsTo(x.0, idx, p)
    decreases |t|
  {
    if t != [] {
      var init := t[..|t| - 1];
      ProjectableInit(t, idx, |t| - 1);
      HavingMembership(init, idx, p, x);
      assert forall y :: y in t <==> y in init || y == t[|t| - 1];
    }
  }

  /** What a grouping of t by the positions idx is: a hash from projections
      to rows, where each group holds exactly the rows with its projection and
      every row's projection has a group. */
  predicate GroupsOf(gs: Groups, t: Table, idx: seq<nat>) {
    && Projectable(t, idx)
    && UniqueKeys(gs)
    && RowsFrom(gs, t)
    && (forall i :: 0 <= i < |gs| ==> gs[i].1 != [])
    && (forall i, x :: 0 <= i < |gs| && x in gs[i].1 ==> ProjectsTo(x.0, idx, gs[i].0))
    && (forall i, j :: 0 <= i < |gs| && 0 <= j < |t| && ProjectsTo(t[j].0, idx, gs[i].0) ==> t[j] in gs[i].1)
    && (forall j :: 0 <= j < |t| ==> Project(t[j].0, idx) in Keys(gs))
  }

  /** `transform_values! { |v| v.map(&:last).sum }`. */
  function SumGroups(g: Groups): (t: Table)
    ensures Keys(t) == Keys(g)
    ensures forall i :: 0 <= i < |g| ==> t[i] == (g[i].0, Total(g[i].1))
  {
    var t := seq(|g|, i requires 0 <= i < |g| => (g[i].0, Total(g[i].1)));
    assert Keys(t) == Keys(g);
    t
  }

  /** The positions of the kept variables in f's scope. */
  function KeptPositions(f: Factor, names: seq<Name>): (idx: seq<nat>)
    ensures |idx| == |Known(names, VarNames(f))|
    ensures forall j :: 0 <= j < |idx| ==>
              idx[j] < |VarNames(f)| && VarNames(f)[idx[j]] == Known(names, VarNames(f))[j]
  {
    IndicesOf(Known(names, VarNames(f)), VarNames(f))
  }

  lemma KeysFitProjectable(f: Factor, idx: seq<nat>)
    requires KeysFit(f) && forall j :: 0 <= j < |idx| ==> idx[j] < |VarNames(f)|
    ensures Projectable(f.vals, idx)
  {
  }

  /** `marginalize(var_names)`: the scope keeps the listed variables that exist,
      in the caller's order and with their domains. */
  function Marginalize(f: Factor, names: seq<Name>): (m: Factor)
    requires KeysFit(f)
    ensures VarNames(m) == Known(names, VarNames(f))
    ensures forall n :: Get(m.scope, n) == if n in names then Get(f.scope, n) else None
    ensures UniqueKeys(m.scope) && UniqueKeys(m.vals)
  {
    var scope := Slice(f.scope, names);
    var idx := KeptPositions(f, names);
    KeysFitProjectable(f, idx);
    Factor(scope, SumGroups(GroupBy(f.vals, idx)))
  }

  /** `eliminate(var_name)`: marginalize onto every other variable, in scope
      order. */
  function Eliminate(f: Factor, v: Name): (m: Factor)
    requires KeysFit(f)
    ensures UniqueKeys(f.scope) ==> VarNames(m) == Without(VarNames(f), [v])
    ensures v !in VarNames(m)
  {
    var keep := Without(VarNames(f), [v]);
    if UniqueKeys(f.scope) then
      KnownAll(keep, VarNames(f));
      Marginalize(f, keep)
    else
      Marginalize(f, keep)
  }

  // ---------------------------------------------------------------------------
  // Lemmas

  lemma TotalSnoc(t: Table, x: (Assignment, real))
    ensures Total(t + [x]) == Total(t) + x.1
  {
    assert (t + [x])[..|t|] == t;
  }

  lemma {:induction false} TotalUpdate(t: Table, i: nat, x: (Assignment, real))
    requires i < |t|
    ensures Total(t[i := x]) == Total(t) - t[i].1 + x.1
    decreases |t|
  {
    var n := |t| - 1;
    if i < n {
      TotalUpdate(t[..n], i, x);
      assert t[i := x][..n] == t[..n][i := x];
    } else {
      assert t[i := x][..n] == t[..n];
    }
  }

  /** Storing a value replaces the old one in the sum, or adds to it. */
  lemma TotalStore(t: Table, k: Assignment, v: real)
    ensures Total(Store(t, k, v)) == Total(t) - (if k in Keys(t) then Get(t, k).value else 0.0) + v
  {
    if k in Keys(t) {
      TotalUpdate(t, IndexOf(Keys(t), k), (k, v));
    } else {
      TotalSnoc(t, (k, v));
    }
  }

  lemma SumGroupsGet(g: Groups, p: Assignment)
    ensures Get(SumGroups(g), p) == if p in Keys(g) then Some(Total(Get(g, p).value)) else None
  {
  }

  lemma SumGroupsStore(g: Groups, p: Assignment, rows: Table)
    ensures SumGroups(Store(g, p, rows)) == Store(SumGroups(g), p, Total(rows))
  {
    var s := SumGroups(g);
    if p in Keys(g) {
      var i := IndexOf(Keys(g), p);
      assert SumGroups(g[i := (p, rows)]) == s[i := (p, Total(rows))];
    } else {
      assert SumGroups(g + [(p, rows)]) == s + [(p, Total(rows))];
    }
  }

  /** Each group holds exactly the rows with its projection, in order; a
      projection no row has has no group. */
  lemma {:induction false} GroupByGet(t: Table, idx: seq<nat>, p: Assignment)
    requires Projectable(t, idx)
    ensures Get(GroupBy(t, idx), p) == if Having(t, idx, p) == [] then None else Some(Having(t, idx, p))
    decreases |t|
  {
    if t != [] {
      var init := t[..|t| - 1];
      var last := t[|t| - 1];
      ProjectableInit(t, idx, |t| - 1);
      var q := Project(last.0, idx);
      GroupByGet(init, idx, p);
      var g0 := GroupBy(init, idx);
      var members := match Get(g0, q) case Some(rows) => rows case None => [];
      assert GroupBy(t, idx) == Store(g0, q, members + [last]);
      if p == q {
        assert members == Having(init, idx, q);
        assert Having(t, idx, p) == Having(init, idx, p) + [last];
      } else {
        assert Having(t, idx, p) == Having(init, idx, p) + [];
        assert Having(t, idx, p) == Having(init, idx, p);
        assert Get(GroupBy(t, idx), p) == Get(g0, p);
      }
    }
  }

  /** Grouping and summing keeps the grand total. */
  lemma {:induction false} GroupByTotal(t: Table, idx: seq<nat>)
    requires Projectable(t, idx)
    ensures Total(SumGroups(GroupBy(t, idx))) == Total(t)
    decreases |t|
  {
    if t != [] {
      var init := t[..|t| - 1];
      var last := t[|t| - 1];
      ProjectableInit(t, idx, |t| - 1);
      GroupByTotal(init, idx);
      var g0 := GroupBy(init, idx);
      var p := Project(last.0, idx);
      var members := match Get(g0, p) case Some(rows) => rows case None => [];
      SumGroupsStore(g0, p, members + [last]);
      TotalStore(SumGroups(g0), p, Total(members + [last]));
      SumGroupsGet(g0, p);
      TotalSnoc(members, last);
    }
  }

  /** Every row of the marginal is the sum of the rows whose values at the kept
      variables form its key; a key no row projects to is absent. */
  lemma MarginalizeLookup(f: Factor, names: seq<Name>, p: Assignment)
    requires KeysFit(f)
    ensures Projectable(f.vals, KeptPositions(f, names))
    ensures var rows := Having(f.vals, KeptPositions(f, names), p);
      Lookup(Marginalize(f, names), p) == if rows == [] then None else Some(Total(rows))
  {
    var idx := KeptPositions(f, names);
    KeysFitProjectable(f, idx);
    GroupByGet(f.vals, idx, p);
    SumGroupsGet(GroupBy(f.vals, idx), p);
  }

  /** Marginalizing keeps the total of the table. */
  lemma MarginalizeTotal(f: Factor, names: seq<Name>)
    requires KeysFit(f)
    ensures Total(Marginalize(f, names).vals) == Total(f.vals)
  {
    var idx := KeptPositions(f, names);
    KeysFitProjectable(f, idx);
    GroupByTotal(f.vals, idx);
  }

  /** Eliminating a variable keeps the total of the table. */
  lemma EliminateTotal(f: Factor, v: Name)
    requires KeysFit(f)
    ensures Total(Eliminate(f, v).vals) == Total(f.vals)
  {
    MarginalizeTotal(f, Without(VarNames(f), [v]));
  }

  /** `group_by` computes a grouping. */
  lemma GroupByGroupsOf(t: Table, idx: seq<nat>)
    requires Projectable(t, idx)
    ensures GroupsOf(GroupBy(t, idx), t, idx)
  {
    var gs := GroupBy(t, idx);
    forall i | 0 <= i < |gs| ensures gs[i].1 != [] {
      GetAt(gs, i);
      GroupByGet(t, idx, gs[i].0);
    }
    forall i, x | 0 <= i < |gs| && x in gs[i].1 ensures ProjectsTo(x.0, idx, gs[i].0) {
      GetAt(gs, i);
      GroupByGet(t, idx, gs[i].0);
      HavingMembership(t, idx, gs[i].0, x);
    }
    forall i, j | 0 <= i < |gs| && 0 <= j < |t| && ProjectsTo(t[j].0, idx, gs[i].0)
      ensures t[j] in gs[i].1
    {
      GetAt(gs, i);
      GroupByGet(t, idx, gs[i].0);
      HavingMembership(t, idx, gs[i].0, t[j]);
    }
    forall j | 0 <= j < |t| ensures Project(t[j].0, idx) in Keys(gs) {
      var p := Project(t[j].0, idx);
      GroupByGet(t, idx, p);
      HavingMembership(t, idx, p, t[j]);
    }
  }
}
