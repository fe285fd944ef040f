/** `Graph` (lib/bayesnet/graph.rb): a Bayesian network as nodes in insertion
    order, the joint distribution over all of them, and the queries answered
    from it (posterior distributions, the most likely value, the chance of an
    assignment). The joint distribution is computed once and memoised. */
module Graphs {
  import opened Outcomes
  import opened OrderedHash
  import opened Factors
  import opened Nodes
  import opened JointTables
  import opened Queries

  /** A node after `resolve_factor(ps)`, given its domain and table before,
      resolved against the parents' current domains. */
  predicate ResolvedFrom(n: Node, ps: Hash<Name, Node>, vs: seq<Value>, cpt: Cpt)
    reads n, NodesOf(ps)`values
  {
    ResolvedWith(n, ps, vs, cpt, ParentScope(ps))
  }

  /** `@nodes.slice(*node.parent_nodes)`: the nodes of the declared parent
      names, in the declared order, skipping names without a node.
      Splatting parents that are already resolved gives name-node pairs,
      which name no node. */
  function ParentsIn(ns: Hash<Name, Node>, p: Parents): (ps: Hash<Name, Node>)
    ensures UniqueKeys(ps)
    ensures NodesOf(ps) <= NodesOf(ns)
  {
    match p
    case Declared(names) => SliceNodes(ns, names); Slice(ns, names)
    case Resolved(_) => []
  }

  /** The nodes a slice finds are nodes of the graph. */
  lemma SliceNodes(ns: Hash<Name, Node>, names: seq<Name>)
    ensures NodesOf(Slice(ns, names)) <= NodesOf(ns)
  {
    var ps := Slice(ns, names);
    forall j | 0 <= j < |ps| ensures ps[j].1 in NodesOf(ns) {
      GetAt(ps, j);
      var k := ps[j].0;
      assert Get(ns, k) == Some(ps[j].1);
      assert ns[IndexOf(Keys(ns), k)].1 == ps[j].1;
    }
  }

  /** A node after `resolve_factor(ps)`, given its domain and table before
      and the scope the parents' domains formed: it records the parents,
      keeps its domain, and its table is what resolving makes of the old one
      against that scope. */
  predicate ResolvedWith(n: Node, ps: Hash<Name, Node>, vs: seq<Value>, cpt: Cpt, scope: Scope)
    reads n
  {
    && n.parentNodes == Resolved(ps)
    && n.values == vs
    && (cpt.Deferred? ==> Covers(vs, cpt.block))
    && n.factor == ResolvedCpt(n.name, vs, cpt, scope)
  }

  /** What resolving the i-th node depends on: its declared parents, its
      domain, its table, and the domains of the parents it finds. */
  function Pending(ns: Hash<Name, Node>, i: nat): (Parents, seq<Value>, Cpt, Scope)
    requires i < |ns|
    reads NodesOf(ns)
  {
    var n := ns[i].1;
    (n.parentNodes, n.values, n.factor, ParentScope(ParentsIn(ns, n.parentNodes)))
  }

  /** Pending for each of the first k nodes. */
  function PendingAll(ns: Hash<Name, Node>, k: nat): (r: seq<(Parents, seq<Value>, Cpt, Scope)>)
    requires k <= |ns|
    reads NodesOf(ns)
    ensures |r| == k && forall i :: 0 <= i < k ==> r[i] == Pending(ns, i)
  {
    if k == 0 then [] else PendingAll(ns, k - 1) + [Pending(ns, k - 1)]
  }

  /** The state of ResolveAll after k nodes, against the nodes' pending
      state at the start. */
  predicate ResolvedUpTo(ns: Hash<Name, Node>, start: seq<(Parents, seq<Value>, Cpt, Scope)>, k: nat)
    reads NodesOf(ns)
  {
    && k <= |ns| == |start|
    && (forall i :: 0 <= i < |ns| ==> ns[i].1.values == start[i].1)
    && (forall i :: k <= i < |ns| ==>
          ns[i].1.parentNodes == start[i].0 && ns[i].1.factor == start[i].2)
    && (forall i :: 0 <= i < k ==>
          ResolvedWith(ns[i].1, ParentsIn(ns, start[i].0), start[i].1, start[i].2, start[i].3))
  }

  /** One step of the loop of `resolve_factors`: the k-th node resolves. */
  method ResolveNext(ns: Hash<Name, Node>, ghost start: seq<(Parents, seq<Value>, Cpt, Scope)>, k: nat)
    requires forall i, j :: 0 <= i < j < |ns| ==> ns[i].1 != ns[j].1
    requires ResolvedUpTo(ns, start, k) && k < |ns|
    requires start[k].2.Deferred? ==> Covers(start[k].1, start[k].2.block)
    requires ParentScope(ParentsIn(ns, start[k].0)) == start[k].3
    modifies ns[k].1
    ensures ResolvedUpTo(ns, start, k + 1)
  {
    var n := ns[k].1;
    label before:
    n.ResolveFactor(ParentsIn(ns, n.parentNodes));
    assert ResolvedWith(n, ParentsIn(ns, start[k].0), start[k].1, start[k].2, start[k].3);
    forall i | 0 <= i < |ns| && i != k
      ensures ns[i].1 != n && unchanged@before(ns[i].1)
    {
      if i < k {
        assert ns[i].1 != ns[k].1;
      } else {
        assert ns[k].1 != ns[i].1;
      }
    }
  }

  /** The loop of `resolve_factors` over distinct nodes whose blocks cover
      their domains. */
  method ResolveAll(ns: Hash<Name, Node>)
    requires forall i, j :: 0 <= i < j < |ns| ==> ns[i].1 != ns[j].1
    requires forall i :: 0 <= i < |ns| && ns[i].1.factor.Deferred? ==>
               Covers(ns[i].1.values, ns[i].1.factor.block)
    modifies NodesOf(ns)
    ensures forall i :: 0 <= i < |ns| ==>
              ResolvedFrom(ns[i].1, ParentsIn(ns, old(ns[i].1.parentNodes)),
                           old(ns[i].1.values), old(ns[i].1.factor))
  {
    ghost var start := PendingAll(ns, |ns|);
    var k := 0;
    while k < |ns|
      invariant 0 <= k <= |ns|
      invariant ResolvedUpTo(ns, start, k)
      invariant forall o :: o in NodesOf(ns) ==> o.values == old(o.values)
    {
      ParentScopeStable(ParentsIn(ns, start[k].0));
      ResolveNext(ns, start, k);
      k := k + 1;
    }
    forall i | 0 <= i < |ns|
      ensures ResolvedFrom(ns[i].1, ParentsIn(ns, old(ns[i].1.parentNodes)),
                           old(ns[i].1.values), old(ns[i].1.factor))
    {
      ParentScopeStable(ParentsIn(ns, start[i].0));
    }
  }

  /** `Node.new(name, parents)` followed by `node.instance_eval(&block)`:
      the block's `values` calls run on the new node, raising at the first
      that raises. */
  method NewNode(name: Name, parents: seq<Name>, calls: seq<ValuesCall>) returns (r: Result<Node>)
    ensures RunBody(name, calls).Err? ==> r == Err(RunBody(name, calls).error)
    ensures RunBody(name, calls).Ok? ==>
              && r.Ok? && fresh(r.value)
              && r.value.name == name && r.value.parentNodes == Declared(parents)
              && (r.value.values, r.value.factor) == RunBody(name, calls).value
  {
    var n := new Node(name, parents);
    var i := 0;
    while i < |calls|
      invariant 0 <= i <= |calls|
      invariant fresh(n) && n.name == name && n.parentNodes == Declared(parents)
      invariant RunBody(name, calls[..i]) == Ok((n.values, n.factor))
    {
      RunBodySnoc(name, calls, i, (n.values, n.factor));
      var res := n.Values(calls[i].arg, calls[i].block);
      if res.Err? {
        RunBodyFailsEarly(name, calls, i + 1);
        return Err(res.error);
      }
      i := i + 1;
    }
    assert calls[..i] == calls;
    r := Ok(n);
  }

  /** The nodes' tables under their names, in node order. */
  function CptsOf(ns: Hash<Name, Node>): (cs: Hash<Name, Cpt>)
    reads NodesOf(ns)`factor
    ensures |cs| == |ns|
    ensures forall i :: 0 <= i < |ns| ==> cs[i] == (ns[i].0, ns[i].1.factor)
    decreases |ns|
  {
    if ns == [] then []
    else
      var init := ns[..|ns| - 1];
      assert NodesOf(init) <= NodesOf(ns);
      CptsOf(init) + [(ns[|ns| - 1].0, ns[|ns| - 1].1.factor)]
  }

  /** The nodes' tables are all that CptsOf depends on. */
  twostate lemma CptsStable(ns: Hash<Name, Node>)
    requires forall j :: 0 <= j < |ns| ==> ns[j].1.factor == old(ns[j].1.factor)
    ensures CptsOf(ns) == old(CptsOf(ns))
  {
  }

  /** `factor.scope node_name => node.values` for every node in turn, on a
      new factor: the nodes' domains in node order, and no rows yet. */
  method JointScope(ns: Hash<Name, Node>) returns (f: Factor)
    requires UniqueKeys(ns)
    ensures f == Factor(ParentScope(ns), [])
  {
    f := Empty;
    var k := 0;
    while k < |ns|
      invariant 0 <= k <= |ns|
      invariant f == Factor(Merge([], ParentScope(ns[..k])), [])
    {
      ParentScopeSnoc(ns, k);
      MergeSnoc([], ParentScope(ns[..k]), ns[k].0, ns[k].1.values);
      MergeSnoc(f.scope, [], ns[k].0, ns[k].1.values);
      f := WithScope(f, [(ns[k].0, ns[k].1.values)]);
      k := k + 1;
    }
    assert ns[..k] == ns;
    MergeIntoEmpty(ParentScope(ns));
  }

  /** The body of `joint_distribution` after the memo and the empty case:
      the scope of all nodes, then one row per context holding the product
      of the nodes' tables there, then `normalize`. */
  method ComputeJoint(ns: Hash<Name, Node>) returns (r: Result<Factor>)
    requires UniqueKeys(ns) && ns != []
    ensures r == JointOf(ParentScope(ns), CptsOf(ns))
  {
    var cpts := CptsOf(ns);
    label start:
    var f := JointScope(ns);
    CptsStable@start(ns);
    label scoped:
    r := JointFrom(f, cpts);
    ParentScopeStable@scoped(ns);
    CptsStable@scoped(ns);
  }

  /** Every node has resolved its parents. */
  predicate AllResolved(ns: Hash<Name, Node>)
    reads NodesOf(ns)
  {
    forall i :: 0 <= i < |ns| ==> ns[i].1.parentNodes.Resolved?
  }

  /** The resolved parents of the nodes. */
  function ParentsOf(ns: Hash<Name, Node>): set<Node>
    reads NodesOf(ns)
  {
    set i, p | 0 <= i < |ns| && p in ns[i].1.ParentSet() :: p
  }

  /** `nodes.values.map(&:parameters).sum`, from the left. */
  function SumParameters(ns: Hash<Name, Node>): int
    requires AllResolved(ns)
    reads NodesOf(ns), ParentsOf(ns)
    decreases |ns|
  {
    if ns == [] then 0
    else
      var init := ns[..|ns| - 1];
      assert NodesOf(init) <= NodesOf(ns);
      assert ParentsOf(init) <= ParentsOf(ns);
      SumParameters(init) + ns[|ns| - 1].1.Parameters()
  }

  /** The free numbers of the nodes' tables: for each node, one fewer than
      its domain size for every assignment of its parents' values. */
  function FreeParameters(ns: Hash<Name, Node>): int
    requires AllResolved(ns)
    reads NodesOf(ns), ParentsOf(ns)
    decreases |ns|
  {
    if ns == [] then 0
    else
      var init := ns[..|ns| - 1];
      var n := ns[|ns| - 1].1;
      assert NodesOf(init) <= NodesOf(ns);
      assert ParentsOf(init) <= ParentsOf(ns);
      assert NodesOf(n.parentNodes.nodes) == n.ParentSet() <= ParentsOf(ns);
      FreeParameters(init) + (|n.values| - 1) * |Cartesian(Values(ParentScope(n.parentNodes.nodes)))|
  }

  /** The sum of the nodes' `parameters` counts the free numbers of their
      tables. */
  lemma {:induction false} SumParametersCount(ns: Hash<Name, Node>)
    requires AllResolved(ns)
    ensures SumParameters(ns) == FreeParameters(ns)
    decreases |ns|
  {
    if ns != [] {
      SumParametersCount(ns[..|ns| - 1]);
      ns[|ns| - 1].1.ParametersCount();
    }
  }

  /** One node per name, each under its own name (so the nodes are distinct
      objects, NodesDistinct); a stored block covers its node's domain. */
  predicate NodesValid(ns: Hash<Name, Node>)
    reads NodesOf(ns)
  {
    && UniqueKeys(ns)
    && (forall i :: 0 <= i < |ns| ==> ns[i].1.name == ns[i].0)
    && (forall i :: 0 <= i < |ns| && ns[i].1.factor.Deferred? ==>
          Covers(ns[i].1.values, ns[i].1.factor.block))
  }

  /** Nodes stored under their own distinct names are distinct objects. */
  lemma NodesDistinct(ns: Hash<Name, Node>)
    requires NodesValid(ns)
    ensures forall i, j :: 0 <= i < j < |ns| ==> ns[i].1 != ns[j].1
  {
    forall i, j | 0 <= i < j < |ns| ensures ns[i].1 != ns[j].1 {
      assert Keys(ns)[i] != Keys(ns)[j];
    }
  }

  /** The nodes' domains and tables are all that NodesValid depends on. */
  twostate lemma NodesValidStable(ns: Hash<Name, Node>)
    requires forall j :: 0 <= j < |ns| ==>
               ns[j].1.values == old(ns[j].1.values) && ns[j].1.factor == old(ns[j].1.factor)
    ensures NodesValid(ns) == old(NodesValid(ns))
  {
  }

  /** Storing a new node under its name keeps the nodes apart, and every
      stored node is the new one or was stored before. */
  lemma StoreNodeValid(ns: Hash<Name, Node>, n: Node)
    requires NodesValid(ns)
    requires n.factor.Deferred? ==> Covers(n.values, n.factor.block)
    ensures NodesValid(Store(ns, n.name, n))
  {
    if n.name in Keys(ns) {
      var p := IndexOf(Keys(ns), n.name);
      assert Store(ns, n.name, n) == ns[p := (n.name, n)];
      ReplaceNodeValid(ns, p, n);
    } else {
      assert Store(ns, n.name, n) == ns + [(n.name, n)];
      AppendNodeValid(ns, n);
    }
  }

  lemma ReplaceNodeValid(ns: Hash<Name, Node>, p: nat, n: Node)
    requires NodesValid(ns)
    requires p < |ns| && ns[p].0 == n.name
    requires n.factor.Deferred? ==> Covers(n.values, n.factor.block)
    ensures NodesValid(ns[p := (n.name, n)])
  {
    var h := ns[p := (n.name, n)];
    assert Keys(h) == Keys(ns);
    forall i | 0 <= i < |h| && i != p ensures h[i] == ns[i] {
    }
  }

  lemma AppendNodeValid(ns: Hash<Name, Node>, n: Node)
    requires NodesValid(ns) && n.name !in Keys(ns)
    requires n.factor.Deferred? ==> Covers(n.values, n.factor.block)
    ensures NodesValid(ns + [(n.name, n)])
  {
    var h := ns + [(n.name, n)];
    assert Keys(h) == Keys(ns) + [n.name];
    forall i | 0 <= i < |ns| ensures h[i] == ns[i] {
    }
  }

  /** Storing a node adds at most that node to the node objects. */
  lemma StoreNodes(ns: Hash<Name, Node>, k: Name, n: Node)
    ensures NodesOf(Store(ns, k, n)) <= NodesOf(ns) + {n}
  {
    var h := Store(ns, k, n);
    forall x | x in NodesOf(h) ensures x in NodesOf(ns) + {n} {
      var i :| 0 <= i < |h| && h[i].1 == x;
      if k in Keys(ns) {
        var p := IndexOf(Keys(ns), k);
        if i != p {
          assert h[i] == ns[i];
        }
      } else if i < |ns| {
        assert h[i] == ns[i];
      }
    }
  }

  /** A factor that is the joint distribution of some variables with
      distinct names and their tables. */
  ghost predicate IsNetworkJoint(f: Factor) {
    exists s, cs :: UniqueKeys(s) && JointOf(s, cs) == Ok(f)
  }

  /** `Graph`: the nodes by name in insertion order, and the memoised joint
      distribution. */
  class Graph {
    var nodes: Hash<Name, Node>
    var memo: Option<Factor>

    /** The node objects. */
    function NodeSet(): set<Node>
      reads this
    {
      NodesOf(nodes)
    }

    /** One node per name, each under its own name and a distinct object; a
        stored block covers its node's domain; a memoised joint distribution
        is well formed, and is the joint distribution of some variables with
        distinct names and their tables (those of the nodes when it was
        computed, which later `node` calls do not update). */
    ghost predicate Valid()
      reads this, NodeSet()
    {
      && NodesValid(nodes)
      && (memo.Some? ==> WellFormed(memo.value))
      && (memo.Some? ==> IsNetworkJoint(memo.value))
    }

    /** Whatever a valid graph answers as its joint distribution is the
        joint distribution of some variables with distinct names and their
        tables, so the lemmas about JointOf apply to it. */
    lemma JointIsJointOf()
      requires Valid()
      ensures Joint().Ok? ==> IsNetworkJoint(Joint().value)
    {
      if memo.None? {
        assert Keys(ParentScope(nodes)) == Keys(nodes);
        assert JointOf(ParentScope(nodes), CptsOf(nodes)) == Joint();
      }
    }

    /** `Graph.new`: no nodes. */
    constructor ()
      ensures Valid() && nodes == [] && memo.None?
    {
      nodes := [];
      memo := None;
    }

    /** `var_names`: the node names in insertion order. */
    function VarNames(): (names: seq<Name>)
      reads this
      ensures |names| == |nodes| && forall i :: 0 <= i < |nodes| ==> names[i] == nodes[i].0
    {
      Keys(nodes)
    }

    /** `node(name, parents:, &block)`: a new node with the declared parents,
        on which the block's `values` calls are run; it is stored under its
        name, replacing a node of that name in its place or else after the
        others. Without a block, or when the block raises, nothing is stored.
        The memoised joint distribution is kept. */
    method AddNode(name: Name, parents: seq<Name>, body: Option<seq<ValuesCall>>) returns (r: Result<Node>)
      requires Valid()
      requires body.Some? ==> BodyCovers(body.value)
      modifies this`nodes
      ensures Valid() && memo == old(memo)
      ensures body.None? ==> r == Err(MissingBlock) && nodes == old(nodes)
      ensures body.Some? && RunBody(name, body.value).Err? ==>
                r == Err(RunBody(name, body.value).error) && nodes == old(nodes)
      ensures body.Some? && RunBody(name, body.value).Ok? ==>
                && r.Ok? && fresh(r.value)
                && nodes == Store(old(nodes), name, r.value)
                && r.value.name == name && r.value.parentNodes == Declared(parents)
                && (r.value.values, r.value.factor) == RunBody(name, body.value).value
    {
      if body.None? {
        return Err(MissingBlock);
      }
      var made := NewNode(name, parents, body.value);
      if made.Err? {
        return Err(made.error);
      }
      var n := made.value;
      RunBodyCovers(name, body.value);
      StoreNodeValid(nodes, n);
      nodes := Store(nodes, name, n);
      r := Ok(n);
    }

    /** `resolve_factors`: every node, in order, resolves its table against
        the graph's nodes of its parent names. Nothing else changes: the
        nodes keep their domains, and the memo is kept. */
    method ResolveFactors()
      requires Valid()
      modifies NodeSet()
      ensures Valid()
      ensures forall i :: 0 <= i < |nodes| ==>
                ResolvedFrom(nodes[i].1, ParentsIn(nodes, old(nodes[i].1.parentNodes)),
                             old(nodes[i].1.values), old(nodes[i].1.factor))
    {
      NodesDistinct(nodes);
      ResolveAll(nodes);
    }

    /** `joint_distribution` as a value: the memoised factor, or else the
        one computed afresh from the nodes' domains and tables. It is well
        formed whenever it is defined. */
    function Joint(): (r: Result<Factor>)
      requires Valid()
      reads this, NodeSet()
      ensures r.Ok? ==> WellFormed(r.value)
    {
      if memo.Some? then Ok(memo.value)
      else
        JointOfWellFormed(ParentScope(nodes), CptsOf(nodes));
        JointOf(ParentScope(nodes), CptsOf(nodes))
    }

    /** `joint_distribution`: the memoised factor if there is one; otherwise
        the empty factor for no nodes, or else the product of the nodes'
        tables at every assignment of their domains, normalised. A computed
        factor is memoised; the memo is never invalidated. */
    method JointDistribution() returns (r: Result<Factor>)
      requires Valid()
      modifies this`memo
      ensures Valid()
      ensures r == old(Joint()) && Joint() == old(Joint())
      ensures memo == if r.Ok? then Some(r.value) else old(memo)
    {
      if memo.Some? {
        return Ok(memo.value);
      }
      r := Compute();
      if r.Ok? {
        Remember(r.value);
      }
    }

    /** The joint distribution computed afresh, when nothing is memoised:
        the empty factor for no nodes, else the nodes' product. */
    method Compute() returns (r: Result<Factor>)
      requires Valid() && memo.None?
      ensures Valid() && r == old(Joint()) && Joint() == old(Joint())
    {
      if nodes == [] {
        return Ok(Empty);
      }
      label before:
      r := ComputeJoint(nodes);
      ParentScopeStable@before(nodes);
      CptsStable@before(nodes);
      NodesValidStable@before(nodes);
    }

    /** Memoising a joint distribution computed from the nodes. */
    method Remember(f: Factor)
      requires Valid() && memo.None? && Joint() == Ok(f)
      modifies this`memo
      ensures Valid() && nodes == old(nodes) && memo == Some(f) && Joint() == Ok(f)
    {
      assert Keys(ParentScope(nodes)) == Keys(nodes);
      assert JointOf(ParentScope(nodes), CptsOf(nodes)) == Ok(f);
      memo := Some(f);
    }

    /** `distribution(over:, evidence:)`: the posterior over the queried
        variables given the evidence, from the joint distribution, which is
        computed and memoised first. */
    method Distribution(over: seq<Name>, evidence: Hash<Name, Value>) returns (r: Result<Factor>)
      requires Valid()
      modifies this`memo
      ensures Valid() && nodes == old(nodes) && Joint() == old(Joint())
      ensures memo == if old(Joint()).Ok? then Some(old(Joint()).value) else old(memo)
      ensures r == match old(Joint())
                   case Err(e) => Err(e)
                   case Ok(joint) => Posterior(joint, over, evidence)
    {
      var joint := JointDistribution();
      if joint.Err? {
        return Err(joint.error);
      }
      r := Posterior(joint.value, over, evidence);
    }

    /** `most_likely_value(name, evidence:)`: the mode of the posterior over
        the one variable. */
    method MostLikelyValue(name: Name, evidence: Hash<Name, Value>) returns (r: Result<Value>)
      requires Valid()
      modifies this`memo
      ensures Valid() && nodes == old(nodes) && Joint() == old(Joint())
      ensures memo == if old(Joint()).Ok? then Some(old(Joint()).value) else old(memo)
      ensures r == match old(Joint())
                   case Err(e) => Err(e)
                   case Ok(joint) => MostLikely(joint, name, evidence)
    {
      var post := Distribution([name], evidence);
      if post.Err? {
        return Err(post.error);
      }
      r := Mode(post.value, name);
    }

    /** `chances(assignment, evidence:)`: the posterior over the assigned
        variables, in the network's order, at their assigned values. */
    method Chances(assignment: Hash<Name, Value>, evidence: Hash<Name, Value>) returns (r: Result<Option<real>>)
      requires Valid()
      modifies this`memo
      ensures Valid() && nodes == old(nodes) && Joint() == old(Joint())
      ensures memo == if old(Joint()).Ok? then Some(old(Joint()).value) else old(memo)
      ensures r == match old(Joint())
                   case Err(e) => Err(e)
                   case Ok(joint) => ChanceOf(joint, Keys(nodes), assignment, evidence)
    {
      var over := Slice(assignment, VarNames());
      var post := Distribution(Keys(over), evidence);
      if post.Err? {
        return Err(post.error);
      }
      r := Ok(Lookup(post.value, Values(over)));
    }

    /** `parameters`: the free numbers of all the nodes' tables, once every
        node has resolved its parents. */
    function Parameters(): (p: int)
      requires AllResolved(nodes)
      reads this, NodesOf(nodes), ParentsOf(nodes)
      ensures p == FreeParameters(nodes)
    {
      SumParametersCount(nodes);
      SumParameters(nodes)
    }
  }
}
