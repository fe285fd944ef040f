/** The joint distribution of a network (`joint_distribution` in
    lib/bayesnet/graph.rb), stated on values: the nodes' tables multiplied at
    every assignment of all their variables, then normalised; and the two
    loops that compute it. */
module JointTables {
  import opened Outcomes
  import opened OrderedHash
  import opened Factors
  import opened Nodes

  // ---------------------------------------------------------------------------
  // The joint distribution, as values

  /** `prob * node.factor[val_by_name]` for one node: the node's value at the
      context, or what multiplying by it raises. A node whose table is still
      a block cannot be looked up; a missing row gives nil, which cannot be
      multiplied. */
  function Probe(name: Name, c: Cpt, context: Hash<Name, Value>): Result<real> {
    match c
    case Deferred(_) => Err(NotATable)
    case Concrete(f) =>
      match LookupByNames(f, context)
      case None => Err(MissingEntry(name))
      case Some(v) => Ok(v)
  }

  /** `prob * x`: one step of the product. Naming it lets the solver match
      equal products by their factors. */
  function Times(prob: real, x: real): real {
    prob * x
  }

  /** `reduce(1.0) { |prob, x| prob * x }` over already probed values: the
      product from the left, raising at the first failure. */
  function FoldProduct(rs: seq<Result<real>>): Result<real>
    decreases |rs|
  {
    if rs == [] then Ok(1.0)
    else
      match FoldProduct(rs[..|rs| - 1])
      case Err(e) => Err(e)
      case Ok(p) =>
        match rs[|rs| - 1]
        case Err(e) => Err(e)
        case Ok(v) => Ok(Times(p, v))
  }

  /** The fold succeeds exactly when every value does, and otherwise raises
      what the first failing value raises. */
  lemma {:induction false} FoldProductFails(rs: seq<Result<real>>)
    ensures FoldProduct(rs).Ok? <==> forall i :: 0 <= i < |rs| ==> rs[i].Ok?
    ensures FoldProduct(rs).Err? ==>
              exists i :: 0 <= i < |rs| && rs[i].Err? && (forall j :: 0 <= j < i ==> rs[j].Ok?)
                && FoldProduct(rs).error == rs[i].error
    decreases |rs|
  {
    if rs != [] {
      var n := |rs| - 1;
      var init := rs[..n];
      FoldProductFails(init);
      assert forall i :: 0 <= i < n ==> init[i] == rs[i];
    }
  }

  /** Every node probed at the context, in node order. */
  function Probes(cpts: Hash<Name, Cpt>, context: Hash<Name, Value>): (rs: seq<Result<real>>)
    ensures |rs| == |cpts|
    ensures forall i :: 0 <= i < |cpts| ==> rs[i] == Probe(cpts[i].0, cpts[i].1, context)
  {
    seq(|cpts|, i requires 0 <= i < |cpts| => Probe(cpts[i].0, cpts[i].1, context))
  }

  /** `nodes.values.reduce(1.0) { |prob, node| prob * node.factor[val_by_name] }`. */
  function ProductAt(cpts: Hash<Name, Cpt>, context: Hash<Name, Value>): Result<real> {
    FoldProduct(Probes(cpts, context))
  }

  /** `var_names.zip(context).to_h`: the assignment as a hash from names. */
  function ContextHash(names: seq<Name>, a: Assignment): Hash<Name, Value>
    requires |names| <= |a|
  {
    ToHash(Zip(names, a))
  }

  /** The values of a sequence of results, or the first failure among them:
      what evaluating them one after another yields when a failure raises. */
  function Collect(rs: seq<Result<real>>): (r: Result<seq<real>>)
    ensures r.Ok? ==> |r.value| == |rs|
    decreases |rs|
  {
    if rs == [] then Ok([])
    else
      match Collect(rs[..|rs| - 1])
      case Err(e) => Err(e)
      case Ok(vs) =>
        match rs[|rs| - 1]
        case Err(e) => Err(e)
        case Ok(v) => Ok(vs + [v])
  }

  /** Collecting succeeds exactly when every result does, and then yields
      their values in order. */
  lemma {:induction false} CollectOk(rs: seq<Result<real>>)
    ensures Collect(rs).Ok? <==> forall i :: 0 <= i < |rs| ==> rs[i].Ok?
    ensures Collect(rs).Ok? ==> forall i :: 0 <= i < |rs| ==> Collect(rs).value[i] == rs[i].value
    decreases |rs|
  {
    if rs != [] {
      var n := |rs| - 1;
      CollectOk(rs[..n]);
      if forall i :: 0 <= i < |rs| ==> rs[i].Ok? {
        assert forall i :: 0 <= i < n ==> rs[..n][i].Ok?;
      } else {
        var i :| 0 <= i < |rs| && !rs[i].Ok?;
        if i < n {
          assert !rs[..n][i].Ok?;
        }
      }
      if Collect(rs).Ok? {
        forall i | 0 <= i < n ensures Collect(rs).value[i] == rs[i].value {
          assert rs[..n][i] == rs[i];
        }
      }
    }
  }

  /** A failure among the first results is the failure of all of them. */
  lemma {:induction false} CollectFailsEarly(rs: seq<Result<real>>, k: nat)
    requires k <= |rs| && Collect(rs[..k]).Err?
    ensures Collect(rs) == Collect(rs[..k])
    decreases |rs|
  {
    if k < |rs| {
      var n := |rs| - 1;
      assert rs[..n][..k] == rs[..k];
      CollectFailsEarly(rs[..n], k);
    } else {
      assert rs[..k] == rs;
    }
  }

  /** `factor.val context + [value]` for every context in order. */
  function StoreRows(contexts: seq<Assignment>, vs: seq<real>): Table
    requires |vs| == |contexts|
    decreases |contexts|
  {
    if contexts == [] then []
    else
      var n := |contexts| - 1;
      Store(StoreRows(contexts[..n], vs[..n]), contexts[n], vs[n])
  }

  /** Storing the rows gives a hash with a row for exactly the contexts. */
  lemma {:induction false} StoreRowsKeys(contexts: seq<Assignment>, vs: seq<real>)
    requires |vs| == |contexts|
    ensures UniqueKeys(StoreRows(contexts, vs))
    ensures forall a :: a in Keys(StoreRows(contexts, vs)) <==> a in contexts
    decreases |contexts|
  {
    if contexts != [] {
      var n := |contexts| - 1;
      StoreRowsKeys(contexts[..n], vs[..n]);
      assert contexts == contexts[..n] + [contexts[n]];
    }
  }

  /** Over distinct contexts the rows come in the contexts' order. */
  lemma {:induction false} StoreRowsOrder(contexts: seq<Assignment>, vs: seq<real>)
    requires |vs| == |contexts| && Distinct(contexts)
    ensures Keys(StoreRows(contexts, vs)) == contexts
    decreases |contexts|
  {
    if contexts != [] {
      var n := |contexts| - 1;
      assert Distinct(contexts[..n]);
      StoreRowsOrder(contexts[..n], vs[..n]);
      assert contexts[n] !in contexts[..n];
      assert contexts == contexts[..n] + [contexts[n]];
    }
  }

  /** Each context's row holds its value, provided equal contexts have
      equal values. */
  lemma {:induction false} StoreRowsGet(contexts: seq<Assignment>, vs: seq<real>, i: nat)
    requires |vs| == |contexts| && i < |contexts|
    requires forall i, j {:trigger vs[i], vs[j]} :: 0 <= i < |contexts| && 0 <= j < |contexts| && contexts[i] == contexts[j] ==> vs[i] == vs[j]
    ensures Get(StoreRows(contexts, vs), contexts[i]) == Some(vs[i])
    decreases |contexts|
  {
    var n := |contexts| - 1;
    if contexts[i] != contexts[n] {
      var init := contexts[..n];
      var vs' := vs[..n];
      assert forall i, j {:trigger vs'[i], vs'[j]} :: 0 <= i < n && 0 <= j < n && init[i] == init[j] ==> vs'[i] == vs'[j] by {
        forall i, j | 0 <= i < n && 0 <= j < n && init[i] == init[j] ensures vs'[i] == vs'[j] {
          assert vs'[i] == vs[i] && vs'[j] == vs[j];
        }
      }
      StoreRowsGet(init, vs', i);
    } else {
      assert vs[i] == vs[n];
    }
  }

  /** Storing the rows gives a row for exactly the contexts, each holding its
      value, provided equal contexts have equal values. */
  lemma StoreRowsTable(contexts: seq<Assignment>, vs: seq<real>)
    requires |vs| == |contexts|
    requires forall i, j {:trigger vs[i], vs[j]} :: 0 <= i < |contexts| && 0 <= j < |contexts| && contexts[i] == contexts[j] ==> vs[i] == vs[j]
    ensures var t := StoreRows(contexts, vs);
      && UniqueKeys(t)
      && (forall a :: a in Keys(t) <==> a in contexts)
      && forall i :: 0 <= i < |contexts| ==> Get(t, contexts[i]) == Some(vs[i])
  {
    StoreRowsKeys(contexts, vs);
    forall i | 0 <= i < |contexts| ensures Get(StoreRows(contexts, vs), contexts[i]) == Some(vs[i]) {
      StoreRowsGet(contexts, vs, i);
    }
  }

  /** The loop over `contextes`: `factor.val context + [value]` for every
      context in order, raising at the first context whose value fails. */
  function Tabulate(contexts: seq<Assignment>, rs: seq<Result<real>>): Result<Table>
    requires |rs| == |contexts|
  {
    match Collect(rs)
    case Err(e) => Err(e)
    case Ok(vs) => Ok(StoreRows(contexts, vs))
  }

  /** The products at every context, in order. */
  function ProductsAt(names: seq<Name>, cpts: Hash<Name, Cpt>, contexts: seq<Assignment>): (rs: seq<Result<real>>)
    requires forall i :: 0 <= i < |contexts| ==> |names| <= |contexts[i]|
    ensures |rs| == |contexts|
    ensures forall i :: 0 <= i < |contexts| ==> rs[i] == ProductAt(cpts, ContextHash(names, contexts[i]))
  {
    seq(|contexts|, i requires 0 <= i < |contexts| => ProductAt(cpts, ContextHash(names, contexts[i])))
  }

  /** `joint_distribution` computed afresh: no factor at all for no nodes;
      otherwise the scope of all nodes in order, one row per assignment of
      it holding the product of the nodes' tables, normalised. A table that
      sums to zero cannot be normalised (the source divides by zero). */
  function JointOf(scope: Scope, cpts: Hash<Name, Cpt>): Result<Factor> {
    if scope == [] then Ok(Empty)
    else
      match JointRows(scope, cpts)
      case Err(e) => Err(e)
      case Ok(t) =>
        var raw := Factor(scope, t);
        if Normalizable(raw) then Ok(Normalized(raw)) else Err(ZeroTotal)
  }

  lemma CartesianLengths(doms: seq<seq<Value>>)
    ensures forall i :: 0 <= i < |Cartesian(doms)| ==> |Cartesian(doms)[i]| == |doms|
  {
    forall i | 0 <= i < |Cartesian(doms)| ensures |Cartesian(doms)[i]| == |doms| {
      CartesianMembership(doms, Cartesian(doms)[i]);
    }
  }

  /** Equal contexts have equal products, so the collected products agree
      on them too. */
  lemma ProductsConsistent(names: seq<Name>, cpts: Hash<Name, Cpt>, contexts: seq<Assignment>)
    requires forall i :: 0 <= i < |contexts| ==> |names| <= |contexts[i]|
    requires Collect(ProductsAt(names, cpts, contexts)).Ok?
    ensures var vs := Collect(ProductsAt(names, cpts, contexts)).value;
      forall i, j {:trigger vs[i], vs[j]} :: 0 <= i < |contexts| && 0 <= j < |contexts| && contexts[i] == contexts[j] ==> vs[i] == vs[j]
  {
    var rs := ProductsAt(names, cpts, contexts);
    CollectOk(rs);
  }

  /** The unnormalised joint table: the product at every assignment. */
  function JointRows(scope: Scope, cpts: Hash<Name, Cpt>): Result<Table> {
    var contexts := Cartesian(Values(scope));
    CartesianLengths(Values(scope));
    Tabulate(contexts, ProductsAt(Keys(scope), cpts, contexts))
  }

  /** The product at an assignment of the scope. */
  function Unnormalised(scope: Scope, cpts: Hash<Name, Cpt>, a: Assignment): Result<real>
    requires |scope| <= |a|
  {
    ProductAt(cpts, ContextHash(Keys(scope), a))
  }

  /** The unnormalised table is computed exactly when every assignment of the
      scope has a product. */
  lemma JointRowsDefined(scope: Scope, cpts: Hash<Name, Cpt>)
    ensures JointRows(scope, cpts).Ok? <==>
              forall b :: Fits(Values(scope), b) ==> Unnormalised(scope, cpts, b).Ok?
  {
    if JointRows(scope, cpts).Ok? {
      forall b | Fits(Values(scope), b) ensures Unnormalised(scope, cpts, b).Ok? {
        JointRowsProduct(scope, cpts, b);
      }
    } else {
      JointRowsFailure(scope, cpts);
    }
  }

  lemma JointRowsProduct(scope: Scope, cpts: Hash<Name, Cpt>, b: Assignment)
    requires JointRows(scope, cpts).Ok? && Fits(Values(scope), b)
    ensures Unnormalised(scope, cpts, b).Ok?
  {
    var doms := Values(scope);
    var contexts := Cartesian(doms);
    CartesianLengths(doms);
    var rs := ProductsAt(Keys(scope), cpts, contexts);
    CollectOk(rs);
    CartesianMembership(doms, b);
    var i :| 0 <= i < |contexts| && contexts[i] == b;
    assert rs[i].Ok?;
  }

  lemma JointRowsFailure(scope: Scope, cpts: Hash<Name, Cpt>)
    requires !JointRows(scope, cpts).Ok?
    ensures exists b :: Fits(Values(scope), b) && |scope| <= |b| && !Unnormalised(scope, cpts, b).Ok?
  {
    var doms := Values(scope);
    var contexts := Cartesian(doms);
    CartesianLengths(doms);
    var rs := ProductsAt(Keys(scope), cpts, contexts);
    CollectOk(rs);
    var i :| 0 <= i < |rs| && !rs[i].Ok?;
    CartesianMembership(doms, contexts[i]);
    assert !Unnormalised(scope, cpts, contexts[i]).Ok?;
  }

  /** A computed unnormalised table has a row for exactly the assignments of
      the scope, each holding its product. */
  lemma JointRowsTable(scope: Scope, cpts: Hash<Name, Cpt>, a: Assignment)
    requires JointRows(scope, cpts).Ok?
    ensures var t := JointRows(scope, cpts).value;
              && UniqueKeys(t)
              && (a in Keys(t) <==> Fits(Values(scope), a))
              && (Fits(Values(scope), a) ==>
                    Unnormalised(scope, cpts, a).Ok? && Get(t, a) == Some(Unnormalised(scope, cpts, a).value))
  {
    var doms := Values(scope);
    var contexts := Cartesian(doms);
    CartesianLengths(doms);
    var rs := ProductsAt(Keys(scope), cpts, contexts);
    CollectOk(rs);
    ProductsConsistent(Keys(scope), cpts, contexts);
    StoreRowsTable(contexts, Collect(rs).value);
    CartesianMembership(doms, a);
  }

  /** The joint distribution of a non-empty scope is defined exactly when the
      unnormalised table is and does not sum to zero (an empty table, from an
      empty domain, is kept as it is). It is then a well-formed factor over
      the nodes' variables and domains, with a row for exactly the
      assignments of the scope, each holding its product divided by the sum
      of all products; the rows sum to one. */
  lemma JointOfTable(scope: Scope, cpts: Hash<Name, Cpt>, a: Assignment)
    requires UniqueKeys(scope) && scope != []
    ensures JointOf(scope, cpts).Ok? <==>
              JointRows(scope, cpts).Ok? && (Total(JointRows(scope, cpts).value) != 0.0 || JointRows(scope, cpts).value == [])
    ensures JointOf(scope, cpts).Ok? ==>
              var j := JointOf(scope, cpts).value;
              var t := JointRows(scope, cpts).value;
              && j.scope == scope
              && WellFormed(j)
              && (j.vals != [] ==> Total(j.vals) == 1.0)
              && (a in Keys(j.vals) <==> Fits(Values(scope), a))
              && (Fits(Values(scope), a) ==>
                    Unnormalised(scope, cpts, a).Ok? && Lookup(j, a) == Some(Unnormalised(scope, cpts, a).value / Total(t)))
  {
    if JointOf(scope, cpts).Ok? {
      var t := JointRows(scope, cpts).value;
      var raw := Factor(scope, t);
      var j := JointOf(scope, cpts).value;
      JointRowsDefined(scope, cpts);
      JointRowsTable(scope, cpts, a);
      JointWellFormed(scope, cpts);
      if t != [] {
        NormalizedSumsToOne(raw);
      }
      if Fits(Values(scope), a) {
        assert t != [] by {
          assert a in Keys(t);
        }
        NormalizedLookup(raw, a);
      }
    }
  }

  lemma JointWellFormed(scope: Scope, cpts: Hash<Name, Cpt>)
    requires UniqueKeys(scope) && scope != [] && JointOf(scope, cpts).Ok?
    ensures WellFormed(JointOf(scope, cpts).value)
  {
    var t := JointRows(scope, cpts).value;
    var j := JointOf(scope, cpts).value;
    assert Keys(j.vals) == Keys(t);
    forall i | 0 <= i < |j.vals| ensures Fits(Domains(j), j.vals[i].0) {
      assert Keys(j.vals)[i] in Keys(t);
      JointRowsTable(scope, cpts, j.vals[i].0);
    }
    JointRowsTable(scope, cpts, []);
  }

  /** Over domains without repeated values, the joint distribution's rows
      are the assignments of the scope in `contextes` order: the first
      variable varies slowest. */
  lemma JointInOrder(scope: Scope, cpts: Hash<Name, Cpt>)
    requires scope != [] && forall k :: 0 <= k < |scope| ==> Distinct(scope[k].1)
    requires JointOf(scope, cpts).Ok?
    ensures Keys(JointOf(scope, cpts).value.vals) == Cartesian(Values(scope))
  {
    var doms := Values(scope);
    var contexts := Cartesian(doms);
    CartesianLengths(doms);
    CartesianDistinct(doms);
    var rs := ProductsAt(Keys(scope), cpts, contexts);
    StoreRowsOrder(contexts, Collect(rs).value);
  }

  /** The joint distribution, when defined, is well formed: it is the empty
      factor for no nodes. */
  lemma JointOfWellFormed(scope: Scope, cpts: Hash<Name, Cpt>)
    requires UniqueKeys(scope)
    ensures JointOf(scope, cpts).Ok? ==> WellFormed(JointOf(scope, cpts).value)
  {
    if scope != [] && JointOf(scope, cpts).Ok? {
      JointWellFormed(scope, cpts);
    }
  }

  /** A failure among the first values is the failure of the whole product. */
  lemma {:induction false} FoldProductFailsEarly(rs: seq<Result<real>>, k: nat)
    requires k <= |rs| && FoldProduct(rs[..k]).Err?
    ensures FoldProduct(rs) == FoldProduct(rs[..k])
    decreases |rs|
  {
    if k < |rs| {
      var n := |rs| - 1;
      assert rs[..n][..k] == rs[..k];
      FoldProductFailsEarly(rs[..n], k);
    } else {
      assert rs[..k] == rs;
    }
  }

  /** One more value multiplies the product, or fails it. */
  lemma FoldProductSnoc(rs: seq<Result<real>>, k: nat)
    requires k < |rs| && FoldProduct(rs[..k]).Ok?
    ensures FoldProduct(rs[..k + 1]) ==
              if rs[k].Err? then Err(rs[k].error) else Ok(Times(FoldProduct(rs[..k]).value, rs[k].value))
  {
    assert rs[..k + 1][..k] == rs[..k];
  }

  /** `contextes(*var_names)` on a factor over its own variables enumerates
      the assignments of its domains. */
  lemma ContextesOfScope(f: Factor)
    requires UniqueKeys(f.scope) && f.scope != []
    ensures Contextes(f, VarNames(f)) == Some(Cartesian(Domains(f)))
  {
    forall i | 0 <= i < |f.scope| ensures DomainsOf(f, VarNames(f))[i] == Domains(f)[i] {
      GetAt(f.scope, i);
    }
    assert DomainsOf(f, VarNames(f)) == Domains(f);
  }

  // ---------------------------------------------------------------------------
  // The loops of `joint_distribution`

  /** `nodes.values.reduce(1.0) { |prob, node| prob * node.factor[val_by_name] }`:
      the product of the nodes' tables at the context, from the left,
      raising at the first node that cannot be looked up. */
  method NodeProduct(cpts: Hash<Name, Cpt>, context: Hash<Name, Value>) returns (r: Result<real>)
    ensures r == ProductAt(cpts, context)
  {
    ghost var rs := Probes(cpts, context);
    var p := 1.0;
    var k := 0;
    while k < |cpts|
      invariant 0 <= k <= |cpts|
      invariant FoldProduct(rs[..k]) == Ok(p)
    {
      var v := Probe(cpts[k].0, cpts[k].1, context);
      FoldProductSnoc(rs, k);
      if v.Err? {
        FoldProductFailsEarly(rs, k + 1);
        return Err(v.error);
      }
      p := Times(p, v.value);
      k := k + 1;
    }
    assert rs[..k] == rs;
    r := Ok(p);
  }

  /** One more collected value extends the collected values. */
  lemma CollectSnoc(rs: seq<Result<real>>, k: nat, vs: seq<real>, v: real)
    requires k < |rs| && Collect(rs[..k]) == Ok(vs) && rs[k] == Ok(v)
    ensures Collect(rs[..k + 1]) == Ok(vs + [v])
  {
    assert rs[..k + 1][..k] == rs[..k];
  }

  /** One more stored row extends the stored rows. */
  lemma StoreRowsSnoc(contexts: seq<Assignment>, k: nat, vs: seq<real>, v: real)
    requires k < |contexts| && |vs| == k
    ensures StoreRows(contexts[..k + 1], vs + [v]) == Store(StoreRows(contexts[..k], vs), contexts[k], v)
  {
    assert contexts[..k + 1][..k] == contexts[..k];
    assert (vs + [v])[..k] == vs;
  }

  /** The loop over `contextes`: for every context in order, the product of
      the nodes' tables there becomes the context's row of f
      (`factor.val context + [val]`); the loop raises at the first context
      whose product fails. */
  method TabulateJoint(f: Factor, cpts: Hash<Name, Cpt>, names: seq<Name>, contexts: seq<Assignment>)
    returns (r: Result<Factor>)
    requires f.vals == []
    requires forall i :: 0 <= i < |contexts| ==> |names| <= |contexts[i]|
    ensures var t := Tabulate(contexts, ProductsAt(names, cpts, contexts));
      && (t.Err? ==> r == Err(t.error))
      && (t.Ok? ==> r == Ok(Factor(f.scope, t.value)))
  {
    ghost var rs := ProductsAt(names, cpts, contexts);
    ghost var vs: seq<real> := [];
    var g := f;
    var k := 0;
    while k < |contexts|
      invariant 0 <= k <= |contexts|
      invariant Collect(rs[..k]) == Ok(vs) && |vs| == k
      invariant g == Factor(f.scope, StoreRows(contexts[..k], vs))
    {
      var v := NodeProduct(cpts, ContextHash(names, contexts[k]));
      assert rs[k] == v;
      if v.Err? {
        assert rs[..k + 1][..k] == rs[..k];
        CollectFailsEarly(rs, k + 1);
        return Err(v.error);
      }
      CollectSnoc(rs, k, vs, v.value);
      StoreRowsSnoc(contexts, k, vs, v.value);
      g := WithVal(g, contexts[k], v.value);
      vs := vs + [v.value];
      k := k + 1;
    }
    assert rs[..k] == rs && contexts[..k] == contexts;
    r := Ok(g);
  }

  /** The rest of `joint_distribution` once the scope is set on an empty
      factor: `contextes(*var_names)`, one row per context, `normalize`. */
  method JointFrom(f: Factor, cpts: Hash<Name, Cpt>) returns (r: Result<Factor>)
    requires f.vals == [] && UniqueKeys(f.scope) && f.scope != []
    ensures r == JointOf(f.scope, cpts)
  {
    var names := Keys(f.scope);
    ContextesOfScope(f);
    var contexts := Contextes(f, names).value;
    CartesianLengths(Domains(f));
    var t := TabulateJoint(f, cpts, names, contexts);
    if t.Err? {
      return Err(t.error);
    }
    var raw := t.value;
    if !Normalizable(raw) {
      return Err(ZeroTotal);
    }
    JointRowsTable(f.scope, cpts, []);
    var g := Normalize(raw);
    r := Ok(g);
  }
}
