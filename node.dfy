/** `Node` (lib/bayesnet/node.rb): one random variable of a network, with its
    domain, its parents and its conditional probability table. The table is
    either given at once (the Hash form of `values`, a prior) or recorded as
    a block of `as` calls that is replayed once the parents are known. */
module Nodes {
  import opened Outcomes
  import opened OrderedHash
  import opened Factors

  /** One `as distribution, given: parent_values` call. */
  datatype Entry = Entry(distribution: seq<real>, given: Assignment)

  /** The block of `values [..] do ... end`: the `as` calls it makes. */
  type Block = seq<Entry>

  /** `@factor`: a block stored by the Array form of `values` and not yet run,
      or a factor. */
  datatype Cpt = Deferred(block: Block) | Concrete(factor: Factor)

  /** The argument of `values(hash_or_array = nil, &block)`. */
  datatype ValuesArg = NoArg | Prior(table: Hash<Value, real>) | Domain(domain: seq<Value>)

  /** What `values` returns: the domain when called without an argument, and
      otherwise the new `@factor` (the built factor, or the stored block). */
  datatype ValuesAnswer = CurrentValues(values: seq<Value>) | NewFactor(cpt: Cpt)

  /** `@parent_nodes`: the declared parent names until `resolve_factor`, the
      hash of parent nodes after it. */
  datatype Parents = Declared(names: seq<Name>) | Resolved(nodes: Hash<Name, Node>)

  /** The objects of a hash of nodes. */
  function NodesOf(ps: Hash<Name, Node>): (s: set<Node>)
    ensures forall i :: 0 <= i < |ps| ==> ps[i].1 in s
  {
    set i | 0 <= i < |ps| :: ps[i].1
  }

  /** `{parent_name => parent.values, ...}`: the parents' domains, in order. */
  function ParentScope(ps: Hash<Name, Node>): (s: Scope)
    reads NodesOf(ps)`values
    ensures Keys(s) == Keys(ps)
    ensures forall i :: 0 <= i < |ps| ==> s[i].1 == ps[i].1.values
    decreases |ps|
  {
    if ps == [] then []
    else
      var init := ps[..|ps| - 1];
      assert NodesOf(init) <= NodesOf(ps);
      ParentScope(init) + [(ps[|ps| - 1].0, ps[|ps| - 1].1.values)]
  }

  lemma ParentScopeSnoc(ps: Hash<Name, Node>, j: nat)
    requires j < |ps|
    ensures ParentScope(ps[..j + 1]) == ParentScope(ps[..j]) + [(ps[j].0, ps[j].1.values)]
  {
    assert ps[..j + 1][..j] == ps[..j];
  }

  /** The parents' domains are all that the scope depends on. */
  twostate lemma ParentScopeStable(ps: Hash<Name, Node>)
    requires forall j :: 0 <= j < |ps| ==> ps[j].1.values == old(ps[j].1.values)
    ensures ParentScope(ps) == old(ParentScope(ps))
  {
  }

  /** The rows the Hash form of `values` stores: `[value] => probability` for
      each entry, in order. */
  function WithPrior(f: Factor, prior: Hash<Value, real>): (g: Factor)
    ensures g.scope == f.scope
    decreases |prior|
  {
    if prior == [] then f
    else
      var last := prior[|prior| - 1];
      WithVal(WithPrior(f, prior[..|prior| - 1]), [last.0], last.1)
  }

  /** The factor of the Hash form: the node's variable over the hash's keys,
      one row per entry. */
  function PriorFactor(name: Name, prior: Hash<Value, real>): Factor {
    WithPrior(WithScope(Empty, [(name, Keys(prior))]), prior)
  }

  /** The rows one `as` call stores: `[values[i]] + given => distribution[i]`. */
  function WithRows(f: Factor, vs: seq<Value>, distribution: seq<real>, given: Assignment): (g: Factor)
    requires |vs| <= |distribution|
    ensures g.scope == f.scope
    decreases |vs|
  {
    if vs == [] then f
    else
      var n := |vs| - 1;
      WithVal(WithRows(f, vs[..n], distribution, given), [vs[n]] + given, distribution[n])
  }

  /** Every `as` call of the block has a probability for every value. */
  predicate Covers(vs: seq<Value>, block: Block) {
    forall k :: 0 <= k < |block| ==> |vs| <= |block[k].distribution|
  }

  /** Replaying a block: its `as` calls one after another. */
  function Replay(f: Factor, vs: seq<Value>, block: Block): (g: Factor)
    requires Covers(vs, block)
    ensures g.scope == f.scope
    decreases |block|
  {
    if block == [] then f
    else
      var n := |block| - 1;
      WithRows(Replay(f, vs, block[..n]), vs, block[n].distribution, block[n].given)
  }

  /** The scope `resolve_factor` builds: the node's own variable, then each
      parent's, merged in one after another. */
  function NodeScope(name: Name, vs: seq<Value>, parents: Scope): Scope {
    Merge([(name, vs)], parents)
  }

  /** What `resolve_factor` makes of the table: a block is replayed against
      the node's scope; a factor is kept. */
  function ResolvedCpt(name: Name, vs: seq<Value>, cpt: Cpt, parents: Scope): Cpt
    requires cpt.Deferred? ==> Covers(vs, cpt.block)
  {
    match cpt
    case Deferred(block) => Concrete(Replay(Factor(NodeScope(name, vs, parents), []), vs, block))
    case Concrete(_) => cpt
  }

  /** The product of the domain sizes, folded from the left as `reduce(1)` does. */
  function DomainProduct(scope: Scope): int
    decreases |scope|
  {
    if scope == [] then 1 else DomainProduct(scope[..|scope| - 1]) * |scope[|scope| - 1].1|
  }

  /** The `Factor.build` of the Hash form of `values`: the scope, then one
      `val` per entry of the hash. */
  method BuildPrior(name: Name, table: Hash<Value, real>) returns (f: Factor)
    ensures f == PriorFactor(name, table)
  {
    var base := WithScope(Empty, [(name, Keys(table))]);
    f := base;
    var i := 0;
    while i < |table|
      invariant 0 <= i <= |table|
      invariant f == WithPrior(base, table[..i])
    {
      assert table[..i + 1][..i] == table[..i];
      f := WithVal(f, [table[i].0], table[i].1);
      i := i + 1;
    }
    assert table[..i] == table;
  }

  /** The `Factor.build` of `resolve_factor`: the node's own variable, then
      one `scope` call per parent. */
  method BuildScope(name: Name, vs: seq<Value>, parents: Hash<Name, Node>) returns (s: Scope)
    ensures s == NodeScope(name, vs, ParentScope(parents))
  {
    s := [(name, vs)];
    var j := 0;
    while j < |parents|
      invariant 0 <= j <= |parents|
      invariant s == Merge([(name, vs)], ParentScope(parents[..j]))
    {
      var entry := (parents[j].0, parents[j].1.values);
      ParentScopeSnoc(parents, j);
      MergeSnoc([(name, vs)], ParentScope(parents[..j]), entry.0, entry.1);
      MergeSnoc(s, [], entry.0, entry.1);
      s := Merge(s, [entry]);
      j := j + 1;
    }
    assert parents[..j] == parents;
  }

  // ---------------------------------------------------------------------------
  // What the tables hold

  /** The rows of a prior, in the hash's order: `[value] => probability`. */
  function PriorRows(prior: Hash<Value, real>): (t: Table)
    ensures |t| == |prior|
    ensures forall i :: 0 <= i < |prior| ==> t[i] == ([prior[i].0], prior[i].1)
  {
    seq(|prior|, i requires 0 <= i < |prior| => ([prior[i].0], prior[i].1))
  }

  /** Storing the entries of a prior with distinct keys into an empty table
      appends one row per entry, in order. */
  lemma {:induction false} WithPriorRows(s: Scope, prior: Hash<Value, real>)
    requires UniqueKeys(prior)
    ensures WithPrior(Factor(s, []), prior) == Factor(s, PriorRows(prior))
    decreases |prior|
  {
    if prior != [] {
      var n := |prior| - 1;
      var init := prior[..n];
      var k := prior[n].0;
      PriorStep(prior);
      WithPriorRows(s, init);
      StoreNew(PriorRows(init), [k], prior[n].1);
    }
  }

  /** The rows of a prior are those of all but its last entry, then the last. */
  lemma PriorStep(prior: Hash<Value, real>)
    requires UniqueKeys(prior) && prior != []
    ensures UniqueKeys(prior[..|prior| - 1])
    ensures [prior[|prior| - 1].0] !in Keys(PriorRows(prior[..|prior| - 1]))
    ensures PriorRows(prior) == PriorRows(prior[..|prior| - 1]) + [([prior[|prior| - 1].0], prior[|prior| - 1].1)]
  {
    var n := |prior| - 1;
    var init := prior[..n];
    var t := PriorRows(init);
    assert Keys(init) == Keys(prior)[..n];
    forall i | 0 <= i < |t| ensures Keys(t)[i] != [prior[n].0] {
      assert Keys(t)[i] == [Keys(init)[i]];
    }
  }

  /** The Hash form of `values` gives a factor over the node's variable
      alone, whose domain is the hash's keys and whose rows are the hash's
      entries, in order. */
  lemma PriorFactorRows(name: Name, prior: Hash<Value, real>)
    requires UniqueKeys(prior)
    ensures PriorFactor(name, prior) == Factor([(name, Keys(prior))], PriorRows(prior))
  {
    MergeSnoc([], [], name, Keys(prior));
    WithPriorRows([(name, Keys(prior))], prior);
  }

  /** That factor is well formed. */
  lemma PriorFactorWellFormed(name: Name, prior: Hash<Value, real>)
    requires UniqueKeys(prior)
    ensures WellFormed(PriorFactor(name, prior))
  {
    PriorFactorRows(name, prior);
    var f := Factor([(name, Keys(prior))], PriorRows(prior));
    var t := f.vals;
    forall i, j | 0 <= i < j < |t| ensures Keys(t)[i] != Keys(t)[j] {
      assert Keys(t)[i] == [Keys(prior)[i]] && Keys(t)[j] == [Keys(prior)[j]];
    }
    forall i | 0 <= i < |t| ensures Fits(Domains(f), t[i].0) {
      assert Domains(f) == [Keys(prior)];
      assert t[i].0 == [Keys(prior)[i]];
    }
  }

  /** That factor has each value's probability under `[value]`, and nothing
      under any other assignment. */
  lemma PriorFactorLookup(name: Name, prior: Hash<Value, real>, a: Assignment)
    requires UniqueKeys(prior)
    ensures Lookup(PriorFactor(name, prior), a) == if |a| == 1 then Get(prior, a[0]) else None
  {
    PriorFactorRows(name, prior);
    PriorFactorWellFormed(name, prior);
    var t := PriorRows(prior);
    if |a| == 1 && a[0] in Keys(prior) {
      var i := IndexOf(Keys(prior), a[0]);
      assert a == t[i].0;
      GetAt(t, i);
      GetAt(prior, i);
    }
  }

  /** One `as` call: the row of each value followed by the given parent
      values holds the probability at that value's last position in the
      domain, since a value listed twice is written twice and the later
      write wins; every other row is left as it was. */
  lemma {:induction false} WithRowsLookup(f: Factor, vs: seq<Value>, distribution: seq<real>, given: Assignment, a: Assignment)
    requires |vs| <= |distribution|
    ensures Lookup(WithRows(f, vs, distribution, given), a) ==
              if a != [] && a[0] in vs && a[1..] == given
              then Some(distribution[LastIndexOf(vs, a[0])])
              else Lookup(f, a)
    decreases |vs|
  {
    if vs != [] {
      var n := |vs| - 1;
      var g := WithRows(f, vs[..n], distribution, given);
      assert WithRows(f, vs, distribution, given) == WithVal(g, [vs[n]] + given, distribution[n]);
      RowStep(vs, given, a);
      WithRowsLookup(f, vs[..n], distribution, given, a);
      WithValLookup(g, [vs[n]] + given, distribution[n]);
    }
  }

  /** How the row written last relates to the rows written before it. */
  lemma RowStep(vs: seq<Value>, given: Assignment, a: Assignment)
    requires vs != []
    ensures a == [vs[|vs| - 1]] + given ==>
              a != [] && a[0] in vs && a[1..] == given && LastIndexOf(vs, a[0]) == |vs| - 1
    ensures a != [vs[|vs| - 1]] + given ==>
              ((a != [] && a[0] in vs && a[1..] == given) <==> (a != [] && a[0] in vs[..|vs| - 1] && a[1..] == given))
    ensures a != [] && a[0] in vs[..|vs| - 1] && a[0] != vs[|vs| - 1] ==>
              LastIndexOf(vs, a[0]) == LastIndexOf(vs[..|vs| - 1], a[0])
  {
    var n := |vs| - 1;
    if a != [] && a[0] in vs && a[0] != vs[n] {
      var k :| 0 <= k < |vs| && vs[k] == a[0];
      assert vs[..n][k] == a[0];
    }
    if a != [] && a[0] == vs[n] && a[1..] == given {
      assert a == [a[0]] + a[1..];
    }
  }

  /** The last entry of a block whose parent values are `given`. */
  function LastGiven(block: Block, given: Assignment): (r: Option<nat>)
    ensures r.Some? ==> r.value < |block| && block[r.value].given == given
    ensures r.Some? ==> forall k :: r.value < k < |block| ==> block[k].given != given
    ensures r.None? ==> forall k :: 0 <= k < |block| ==> block[k].given != given
    decreases |block|
  {
    if block == [] then None
    else if block[|block| - 1].given == given then Some(|block| - 1)
    else LastGiven(block[..|block| - 1], given)
  }

  /** Replaying a block: a row of a value and some parent values holds the
      probability at that value's last position in the last `as` call for
      those parent values; a row no call writes is left as it was. */
  lemma {:induction false} ReplayLookup(f: Factor, vs: seq<Value>, block: Block, a: Assignment)
    requires Covers(vs, block)
    ensures Lookup(Replay(f, vs, block), a) ==
              if a != [] && a[0] in vs && LastGiven(block, a[1..]).Some?
              then Some(block[LastGiven(block, a[1..]).value].distribution[LastIndexOf(vs, a[0])])
              else Lookup(f, a)
    decreases |block|
  {
    if block != [] {
      var n := |block| - 1;
      var init := block[..n];
      assert Covers(vs, init);
      ReplayLookup(f, vs, init, a);
      WithRowsLookup(Replay(f, vs, init), vs, block[n].distribution, block[n].given, a);
    }
  }

  lemma {:induction false} SizeOfSnoc(doms: seq<seq<Value>>, d: seq<Value>)
    ensures SizeOf(doms + [d]) == SizeOf(doms) * |d|
    decreases |doms|
  {
    if doms != [] {
      assert (doms + [d])[1..] == doms[1..] + [d];
      SizeOfSnoc(doms[1..], d);
      assert |doms[0]| * (SizeOf(doms[1..]) * |d|) == (|doms[0]| * SizeOf(doms[1..])) * |d|;
    }
  }

  /** The fold of `parameters` counts the assignments of the parents' values. */
  lemma {:induction false} DomainProductCount(scope: Scope)
    ensures DomainProduct(scope) == |Cartesian(Values(scope))|
    decreases |scope|
  {
    CartesianSize(Values(scope));
    if scope != [] {
      var n := |scope| - 1;
      DomainProductCount(scope[..n]);
      CartesianSize(Values(scope[..n]));
      assert Values(scope) == Values(scope[..n]) + [scope[n].1];
      SizeOfSnoc(Values(scope[..n]), scope[n].1);
    }
  }

  // ---------------------------------------------------------------------------
  // The block of `Graph#node`

  /** One `values` call of the block passed to `Graph#node`. */
  datatype ValuesCall = ValuesCall(arg: ValuesArg, block: Option<Block>)

  /** A node's domain and table. */
  type NodeState = (seq<Value>, Cpt)

  /** What one `values` call makes of a node's domain and table. */
  function ValuesStep(name: Name, st: NodeState, c: ValuesCall): (r: Result<NodeState>)
    ensures r.Err? <==> c.arg.Domain? && c.block.None?
  {
    match c.arg
    case NoArg => Ok(st)
    case Prior(t) => Ok((Keys(t), Concrete(PriorFactor(name, t))))
    case Domain(d) => if c.block.None? then Err(ArrayWithoutBlock) else Ok((d, Deferred(c.block.value)))
  }

  /** The block of `Graph#node` run on a new node: its `values` calls one
      after another, from no values and an empty factor; the first failing
      call raises. */
  function RunBody(name: Name, calls: seq<ValuesCall>): Result<NodeState>
    decreases |calls|
  {
    if calls == [] then Ok(([], Concrete(Empty)))
    else
      var n := |calls| - 1;
      match RunBody(name, calls[..n])
      case Err(e) => Err(e)
      case Ok(st) => ValuesStep(name, st, calls[n])
  }

  /** Every Array-form call of the block has a probability for every value,
      in every `as` call of its own block. */
  predicate BodyCovers(calls: seq<ValuesCall>) {
    forall i :: 0 <= i < |calls| && calls[i].arg.Domain? && calls[i].block.Some? ==>
      Covers(calls[i].arg.domain, calls[i].block.value)
  }

  /** The last call of the block that sets the domain, if any. */
  function LastSetting(calls: seq<ValuesCall>): (r: Option<nat>)
    ensures r.Some? ==> r.value < |calls| && !calls[r.value].arg.NoArg?
    ensures r.Some? ==> forall k :: r.value < k < |calls| ==> calls[k].arg.NoArg?
    ensures r.None? ==> forall k :: 0 <= k < |calls| ==> calls[k].arg.NoArg?
    decreases |calls|
  {
    if calls == [] then None
    else if !calls[|calls| - 1].arg.NoArg? then Some(|calls| - 1)
    else LastSetting(calls[..|calls| - 1])
  }

  /** The block raises exactly when one of its calls gives an Array without
      a block. */
  lemma {:induction false} RunBodyOk(name: Name, calls: seq<ValuesCall>)
    ensures RunBody(name, calls).Ok? <==>
              forall i :: 0 <= i < |calls| ==> !(calls[i].arg.Domain? && calls[i].block.None?)
    decreases |calls|
  {
    if calls != [] {
      var n := |calls| - 1;
      var init := calls[..n];
      RunBodyOk(name, init);
      assert forall i :: 0 <= i < n ==> init[i] == calls[i];
    }
  }

  /** A block that does not raise leaves the node with what the last call
      that sets the domain gives it, or with no values and an empty factor if
      none does. */
  lemma {:induction false} RunBodyState(name: Name, calls: seq<ValuesCall>)
    requires RunBody(name, calls).Ok?
    ensures RunBody(name, calls) ==
              match LastSetting(calls)
              case None => Ok(([], Concrete(Empty)))
              case Some(i) => ValuesStep(name, ([], Concrete(Empty)), calls[i])
    decreases |calls|
  {
    if calls != [] {
      var n := |calls| - 1;
      var init := calls[..n];
      RunBodyState(name, init);
      if calls[n].arg.NoArg? {
        assert LastSetting(calls) == LastSetting(init);
      }
    }
  }

  /** One more call of the block steps from the state the earlier calls
      leave. */
  lemma RunBodySnoc(name: Name, calls: seq<ValuesCall>, i: nat, st: NodeState)
    requires i < |calls| && RunBody(name, calls[..i]) == Ok(st)
    ensures RunBody(name, calls[..i + 1]) == ValuesStep(name, st, calls[i])
  {
    assert calls[..i + 1][..i] == calls[..i];
  }

  /** A failure in the first calls is the failure of the whole block. */
  lemma {:induction false} RunBodyFailsEarly(name: Name, calls: seq<ValuesCall>, k: nat)
    requires k <= |calls| && RunBody(name, calls[..k]).Err?
    ensures RunBody(name, calls) == RunBody(name, calls[..k])
    decreases |calls|
  {
    if k < |calls| {
      var n := |calls| - 1;
      assert calls[..n][..k] == calls[..k];
      RunBodyFailsEarly(name, calls[..n], k);
    } else {
      assert calls[..k] == calls;
    }
  }

  /** When every Array-form call covers its domain, a block the node keeps
      covers the node's domain. */
  lemma RunBodyCovers(name: Name, calls: seq<ValuesCall>)
    requires RunBody(name, calls).Ok? && BodyCovers(calls)
    ensures RunBody(name, calls).value.1.Deferred? ==>
              Covers(RunBody(name, calls).value.0, RunBody(name, calls).value.1.block)
  {
    RunBodyState(name, calls);
  }

  class Node {
    const name: Name
    var parentNodes: Parents
    var values: seq<Value>
    var factor: Cpt

    /** `Node.new(name, parent_nodes)`: no values yet and an empty factor. */
    constructor (name: Name, parents: seq<Name>)
      ensures this.name == name && parentNodes == Declared(parents)
      ensures values == [] && factor == Concrete(Empty)
    {
      this.name := name;
      parentNodes := Declared(parents);
      values := [];
      factor := Concrete(Empty);
    }

    /** The node DSL's `values`. With no argument it answers the domain. With
        a Hash it takes the keys as the domain and the Hash as the prior. With
        an Array it takes the domain and stores the block for later, and
        raises when there is no block. Like Ruby's `case`, the two setting
        forms answer the value of their last assignment: the new table. */
    method Values(arg: ValuesArg, block: Option<Block>) returns (r: Result<ValuesAnswer>)
      modifies this
      ensures parentNodes == old(parentNodes)
      ensures arg.NoArg? ==> r == Ok(CurrentValues(values)) && values == old(values) && factor == old(factor)
      ensures arg.Prior? ==>
                && values == Keys(arg.table) && factor == Concrete(PriorFactor(name, arg.table))
                && r == Ok(NewFactor(factor))
      ensures arg.Domain? && block.None? ==>
                r == Err(ArrayWithoutBlock) && values == old(values) && factor == old(factor)
      ensures arg.Domain? && block.Some? ==>
                values == arg.domain && factor == Deferred(block.value) && r == Ok(NewFactor(factor))
      ensures var step := ValuesStep(name, old((values, factor)), ValuesCall(arg, block));
                && (r.Err? ==> step == Err(r.error))
                && (r.Ok? ==> step == Ok((values, factor)))
    {
      match arg
      case NoArg =>
        r := Ok(CurrentValues(values));
      case Prior(table) =>
        values := Keys(table);
        var f := BuildPrior(name, table);
        factor := Concrete(f);
        r := Ok(NewFactor(factor));
      case Domain(domain) =>
        if block.None? {
          return Err(ArrayWithoutBlock);
        }
        values := domain;
        factor := Deferred(block.value);
        r := Ok(NewFactor(factor));
    }

    /** `as distribution, given: parent_values`: one row per value of the
        node, the value followed by the parents' values, holding the
        probability at the same position. Writing a row needs a table, so
        over a stored block it raises, unless there is no value to write. */
    method As(distribution: seq<real>, given: Assignment) returns (r: Result<()>)
      requires |values| <= |distribution|
      modifies this
      ensures values == old(values) && parentNodes == old(parentNodes)
      ensures old(factor).Concrete? ==>
                r == Ok(()) && factor == Concrete(WithRows(old(factor).factor, values, distribution, given))
      ensures old(factor).Deferred? ==>
                factor == old(factor) && r == if values == [] then Ok(()) else Err(NotATable)
    {
      if factor.Deferred? {
        if values == [] {
          return Ok(());
        }
        return Err(NotATable);
      }
      var f := factor.factor;
      var i := 0;
      while i < |values|
        invariant 0 <= i <= |values|
        invariant f == WithRows(old(factor).factor, values[..i], distribution, given)
      {
        assert values[..i + 1][..i] == values[..i];
        f := WithVal(f, [values[i]] + given, distribution[i]);
        i := i + 1;
      }
      assert values[..i] == values;
      factor := Concrete(f);
      r := Ok(());
    }

    /** `instance_eval(&proc)` of a stored block: its `as` calls one after
        another, on the table built for it. */
    method RunBlock(block: Block)
      requires factor.Concrete? && Covers(values, block)
      modifies this
      ensures values == old(values) && parentNodes == old(parentNodes)
      ensures factor == Concrete(Replay(old(factor).factor, values, block))
    {
      var k := 0;
      while k < |block|
        invariant 0 <= k <= |block|
        invariant values == old(values) && parentNodes == old(parentNodes)
        invariant factor == Concrete(Replay(old(factor).factor, values, block[..k]))
      {
        assert block[..k + 1][..k] == block[..k];
        assert Covers(values, block[..k + 1]);
        ghost var before := factor.factor;
        var _ := As(block[k].distribution, block[k].given);
        assert factor.factor == WithRows(before, values, block[k].distribution, block[k].given);
        k := k + 1;
      }
      assert block[..k] == block;
    }

    /** `resolve_factor(parent_nodes)`: records the parents and, when the
        table is still a block, builds the scope of the node and its parents
        and replays the block against it. */
    method ResolveFactor(parents: Hash<Name, Node>)
      requires factor.Deferred? ==> Covers(values, factor.block)
      modifies this
      ensures parentNodes == Resolved(parents) && values == old(values)
      ensures factor == ResolvedCpt(name, values, old(factor), old(ParentScope(parents)))
    {
      // The scope is built before anything is written: it reads only the
      // parents' domains, as the source's scope does.
      var s := BuildScope(name, values, parents);
      assert ParentScope(parents) == old(ParentScope(parents));
      ghost var before := factor;
      parentNodes := Resolved(parents);
      if factor.Deferred? {
        var block := factor.block;
        factor := Concrete(Factor(s, []));
        RunBlock(block);
        assert factor == Concrete(Replay(Factor(NodeScope(name, values, old(ParentScope(parents))), []), values, before.block));
      }
    }

    /** The objects `parameters` reads: the node's resolved parents. */
    function ParentSet(): set<Node>
      reads this
    {
      if parentNodes.Resolved? then NodesOf(parentNodes.nodes) else {}
    }

    /** `parameters`: the free numbers of the table, one fewer than the
        domain size for every combination of the parents' values. */
    function Parameters(): int
      requires parentNodes.Resolved?
      reads this, ParentSet()
    {
      (|values| - 1) * DomainProduct(ParentScope(parentNodes.nodes))
    }

    /** `parameters` is one fewer than the domain size for every assignment
        of the parents' values. */
    lemma ParametersCount()
      requires parentNodes.Resolved?
      ensures Parameters() == (|values| - 1) * |Cartesian(OrderedHash.Values(ParentScope(parentNodes.nodes)))|
    {
      DomainProductCount(ParentScope(parentNodes.nodes));
    }
  }
}
