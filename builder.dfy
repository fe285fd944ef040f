/** `Builder#build` (lib/bayesnet/parsers/builder.rb): a network from the
    parsed form of a network description, that is the variables with their
    domains and the conditional probability tables. Turning text into that
    form (`parse`) is not part of this model. */
module Builders {
  import opened Outcomes
  import opened OrderedHash
  import opened Factors
  import opened Nodes
  import opened Graphs

  /** A parsed table: a list of rows, each a distribution given the
      parents' values (an Array), or one table for a variable without
      parents (a Hash holding `:table`). */
  datatype CptForm = Rows(entries: Block) | Table(table: seq<real>)

  /** One parsed CPT: `{variable:, parents:, cpt:}`. */
  datatype CptDecl = CptDecl(variable: Name, parents: seq<Name>, cpt: CptForm)

  /** The parsed network: the variables with their domains, then the CPTs. */
  datatype Parsed = Parsed(nodes: seq<(Name, seq<Value>)>, cpts: seq<CptDecl>)

  /** The table a CPT gives its node: its rows, kept as the node's block
      until resolving; a prior over the domain; or none, when `values nil`
      ignores the rows. */
  datatype TableForm = RowBlock(block: Block) | PriorTable(prior: Hash<Value, real>) | NoTable

  /** What one CPT makes: a node's name, its declared parents, its domain
      and its table. */
  datatype Decl = Decl(name: Name, parents: seq<Name>, domain: seq<Value>, table: TableForm)

  /** The domain and table a node so declared holds before resolving. */
  function StateOf(d: Decl): (st: NodeState)
    ensures st.0 == d.domain
    ensures d.table.RowBlock? <==> st.1.Deferred?
  {
    match d.table
    case RowBlock(block) => (d.domain, Deferred(block))
    case PriorTable(prior) => (d.domain, Concrete(PriorFactor(d.name, prior)))
    case NoTable => (d.domain, Concrete(Empty))
  }

  /** The parsed domain has a probability for every value: in every row of
      a row list, and in a table. */
  predicate SizedCpt(domains: Hash<Name, seq<Value>>, c: CptDecl) {
    match c.cpt
    case Rows(entries) => c.variable in Keys(domains) ==> Covers(Get(domains, c.variable).value, entries)
    case Table(t) => c.variable in Keys(domains) ==> |Get(domains, c.variable).value| <= |t|
  }

  predicate Sized(domains: Hash<Name, seq<Value>>, cpts: seq<CptDecl>) {
    forall i :: 0 <= i < |cpts| ==> SizedCpt(domains, cpts[i])
  }

  /** What `build` makes of one CPT, or what it raises. A row list becomes a
      node with the CPT's parents over the parsed domain, keeping the rows as
      its block; for a variable without a parsed domain `values nil` ignores
      the block, so the node keeps no values and an empty factor. A table
      becomes a node without parents whose prior is the parsed domain
      zipped with the table; it raises when the CPT has parents, and when
      the variable has no parsed domain (there is nothing to zip). */
  function DeclOf(domains: Hash<Name, seq<Value>>, c: CptDecl): (r: Result<Decl>)
    requires SizedCpt(domains, c)
    ensures r.Err? <==> c.cpt.Table? && (c.parents != [] || c.variable !in Keys(domains))
    ensures r.Err? ==> r.error == if c.parents != [] then TableWithParents else UndeclaredVariable(c.variable)
    ensures r.Ok? ==> r.value.name == c.variable
  {
    match c.cpt
    case Rows(entries) =>
      (match Get(domains, c.variable)
       case None => Ok(Decl(c.variable, c.parents, [], NoTable))
       case Some(d) => Ok(Decl(c.variable, c.parents, d, RowBlock(entries))))
    case Table(t) =>
      if c.parents != [] then Err(TableWithParents)
      else
        match Get(domains, c.variable)
        case None => Err(UndeclaredVariable(c.variable))
        case Some(d) =>
          var prior := ToHash(Zip(d, t));
          Ok(Decl(c.variable, [], Keys(prior), PriorTable(prior)))
  }

  /** A table CPT makes a prior over its domain, each value listed once where
      it first occurs (exactly the domain when it has no repeats), holding
      under each value the table entry at that value's last position. */
  lemma TablePrior(domains: Hash<Name, seq<Value>>, c: CptDecl, i: nat)
    requires c.cpt.Table? && c.parents == [] && c.variable in Keys(domains)
    requires SizedCpt(domains, c)
    requires i < |Get(domains, c.variable).value|
    ensures DeclOf(domains, c).Ok?
    ensures var d := Get(domains, c.variable).value;
      var st := StateOf(DeclOf(domains, c).value);
      && DeclOf(domains, c).value.parents == []
      && st.1.Concrete? && Distinct(st.0) && d[i] in st.0
      && (Distinct(d) ==> st.0 == d)
      && Lookup(st.1.factor, [d[i]]) == Some(c.cpt.table[LastIndexOf(d, d[i])])
  {
    var d := Get(domains, c.variable).value;
    var prior := ToHash(Zip(d, c.cpt.table));
    assert DeclOf(domains, c) == Ok(Decl(c.variable, [], Keys(prior), PriorTable(prior)));
    assert StateOf(DeclOf(domains, c).value) == (Keys(prior), Concrete(PriorFactor(c.variable, prior)));
    ZippedPriorKeys(d, c.cpt.table, d[i]);
    ZippedPriorLookup(c.variable, d, c.cpt.table, d[i]);
  }

  /** The prior `values.zip(table).to_h` lists each value once, and exactly
      the values when they have no repeats. */
  lemma ZippedPriorKeys(d: seq<Value>, t: seq<real>, v: Value)
    requires |d| <= |t| && v in d
    ensures Distinct(Keys(ToHash(Zip(d, t)))) && v in Keys(ToHash(Zip(d, t)))
    ensures Distinct(d) ==> Keys(ToHash(Zip(d, t))) == d
  {
    assert Keys(Zip(d, t)) == d;
    ToHashMember(Zip(d, t), v);
  }

  /** That prior, as a factor, holds under each value the table entry at the
      value's last position. */
  lemma ZippedPriorLookup(name: Name, d: seq<Value>, t: seq<real>, v: Value)
    requires |d| <= |t| && v in d
    ensures Lookup(PriorFactor(name, ToHash(Zip(d, t))), [v]) == Some(t[LastIndexOf(d, v)])
  {
    ZipHashGet(d, t, v);
    PriorFactorLookup(name, ToHash(Zip(d, t)), [v]);
  }

  /** A row-list CPT, once resolved against its parents, holds under a value
      followed by parent values the probability at that value's last
      position in the last row given those parent values, and nothing where
      no row gives them: each row is one `as` call. */
  lemma RowsResolved(domains: Hash<Name, seq<Value>>, c: CptDecl, parents: Scope, a: Assignment)
    requires c.cpt.Rows? && c.variable in Keys(domains)
    requires SizedCpt(domains, c)
    ensures DeclOf(domains, c).Ok?
    ensures var d := Get(domains, c.variable).value;
      var entries := c.cpt.entries;
      var st := StateOf(DeclOf(domains, c).value);
      && st == (d, Deferred(entries))
      && Lookup(ResolvedCpt(c.variable, d, st.1, parents).factor, a) ==
           if a != [] && a[0] in d && LastGiven(entries, a[1..]).Some?
           then Some(entries[LastGiven(entries, a[1..]).value].distribution[LastIndexOf(d, a[0])])
           else None
  {
    var d := Get(domains, c.variable).value;
    ReplayLookup(Factor(NodeScope(c.variable, d, parents), []), d, c.cpt.entries, a);
  }

  /** The first k CPTs one after another, raising at the first that
      raises. */
  function Decls(domains: Hash<Name, seq<Value>>, cpts: seq<CptDecl>, k: nat): (r: Result<seq<Decl>>)
    requires Sized(domains, cpts) && k <= |cpts|
    ensures r.Ok? ==> |r.value| == k
  {
    if k == 0 then Ok([])
    else
      match Decls(domains, cpts, k - 1)
      case Err(e) => Err(e)
      case Ok(ds) =>
        (match DeclOf(domains, cpts[k - 1])
         case Err(e) => Err(e)
         case Ok(d) => Ok(ds + [d]))
  }

  /** The first k CPTs raise exactly when one of them does. */
  lemma {:induction false} DeclsOk(domains: Hash<Name, seq<Value>>, cpts: seq<CptDecl>, k: nat)
    requires Sized(domains, cpts) && k <= |cpts|
    ensures Decls(domains, cpts, k).Ok? <==> forall i :: 0 <= i < k ==> DeclOf(domains, cpts[i]).Ok?
  {
    if k != 0 {
      DeclsOk(domains, cpts, k - 1);
    }
  }

  /** Otherwise they declare, in order, what each CPT declares. */
  lemma {:induction false} DeclsValues(domains: Hash<Name, seq<Value>>, cpts: seq<CptDecl>, k: nat)
    requires Sized(domains, cpts) && k <= |cpts| && Decls(domains, cpts, k).Ok?
    ensures forall i :: 0 <= i < k ==> DeclOf(domains, cpts[i]) == Ok(Decls(domains, cpts, k).value[i])
  {
    if k != 0 {
      var prev := Decls(domains, cpts, k - 1);
      var last := DeclOf(domains, cpts[k - 1]);
      assert prev.Ok? && last.Ok?;
      DeclsValues(domains, cpts, k - 1);
      var ds := Decls(domains, cpts, k).value;
      assert ds == prev.value + [last.value];
      forall i | 0 <= i < k ensures DeclOf(domains, cpts[i]) == Ok(ds[i]) {
        if i < k - 1 {
          assert ds[i] == prev.value[i];
        }
      }
    }
  }

  /** When they raise, they raise what the first CPT that raises raises. */
  lemma {:induction false} DeclsFirstErr(domains: Hash<Name, seq<Value>>, cpts: seq<CptDecl>, k: nat)
    returns (i: nat)
    requires Sized(domains, cpts) && k <= |cpts| && Decls(domains, cpts, k).Err?
    ensures i < k && DeclOf(domains, cpts[i]).Err?
    ensures forall j :: 0 <= j < i ==> DeclOf(domains, cpts[j]).Ok?
    ensures Decls(domains, cpts, k).error == DeclOf(domains, cpts[i]).error
  {
    if Decls(domains, cpts, k - 1).Err? {
      i := DeclsFirstErr(domains, cpts, k - 1);
    } else {
      DeclsOk(domains, cpts, k - 1);
      i := k - 1;
    }
  }

  /** One more CPT extends the declarations, or raises. */
  lemma DeclsStep(domains: Hash<Name, seq<Value>>, cpts: seq<CptDecl>, k: nat, ds: seq<Decl>)
    requires Sized(domains, cpts) && k < |cpts| && Decls(domains, cpts, k) == Ok(ds)
    ensures var d := DeclOf(domains, cpts[k]);
      Decls(domains, cpts, k + 1) == if d.Err? then Err(d.error) else Ok(ds + [d.value])
  {
  }

  /** A raise in the first k CPTs is the raise of the first m, for m at
      least k. */
  lemma {:induction false} DeclsFailsEarly(domains: Hash<Name, seq<Value>>, cpts: seq<CptDecl>, k: nat, m: nat)
    requires Sized(domains, cpts) && k <= m <= |cpts|
    requires Decls(domains, cpts, k).Err?
    ensures Decls(domains, cpts, m) == Decls(domains, cpts, k)
    decreases m
  {
    if k < m {
      DeclsFailsEarly(domains, cpts, k, m - 1);
    }
  }

  /** `@nodes[name] = node` for each declaration in turn. */
  function Network(ds: seq<Decl>): (net: Hash<Name, Decl>)
    ensures UniqueKeys(net)
    decreases |ds|
  {
    if ds == [] then []
    else
      var n := |ds| - 1;
      Store(Network(ds[..n]), ds[n].name, ds[n])
  }

  /** The names of the declarations, in order. */
  function Names(ds: seq<Decl>): (names: seq<Name>)
    ensures |names| == |ds| && forall i :: 0 <= i < |ds| ==> names[i] == ds[i].name
  {
    seq(|ds|, i requires 0 <= i < |ds| => ds[i].name)
  }

  /** The last declaration of a name. */
  function LastNamed(ds: seq<Decl>, name: Name): (r: Option<nat>)
    ensures r.Some? ==> r.value < |ds| && ds[r.value].name == name
    ensures r.Some? ==> forall k :: r.value < k < |ds| ==> ds[k].name != name
    ensures r.None? ==> forall k :: 0 <= k < |ds| ==> ds[k].name != name
    decreases |ds|
  {
    if ds == [] then None
    else if ds[|ds| - 1].name == name then Some(|ds| - 1)
    else LastNamed(ds[..|ds| - 1], name)
  }

  /** The network holds the declared names in the order of their first
      declaration. */
  lemma {:induction false} NetworkKeys(ds: seq<Decl>)
    ensures Keys(Network(ds)) == Extra(Names(ds), [])
    decreases |ds|
  {
    if ds != [] {
      var n := |ds| - 1;
      var init := ds[..n];
      NetworkKeys(init);
      assert Names(ds)[..n] == Names(init);
      assert Names(ds)[n] == ds[n].name;
    }
  }

  /** Each name of the network holds its last declaration. */
  lemma {:induction false} NetworkGet(ds: seq<Decl>, name: Name)
    ensures Get(Network(ds), name) == match LastNamed(ds, name) case None => None case Some(i) => Some(ds[i])
    decreases |ds|
  {
    if ds != [] {
      var n := |ds| - 1;
      var init := ds[..n];
      NetworkGet(init, name);
      if ds[n].name != name {
        assert LastNamed(ds, name) == LastNamed(init, name);
        match LastNamed(init, name)
        case None =>
        case Some(i) => assert init[i] == ds[i];
      }
    }
  }

  /** A new node is what its declaration says before resolving. */
  predicate Matches(n: Node, d: Decl)
    reads n
  {
    && n.name == d.name
    && n.parentNodes == Declared(d.parents)
    && (n.values, n.factor) == StateOf(d)
  }

  /** The graph's nodes are the network's declarations, position by
      position. */
  predicate Declares(nodes: Hash<Name, Node>, net: Hash<Name, Decl>)
    reads NodesOf(nodes)
  {
    && Keys(nodes) == Keys(net)
    && forall i :: 0 <= i < |nodes| ==> Matches(nodes[i].1, net[i].1)
  }

  /** Storing a node together with its declaration keeps them in step. */
  lemma StoreDeclares(nodes: Hash<Name, Node>, net: Hash<Name, Decl>, n: Node, d: Decl)
    requires Declares(nodes, net) && Matches(n, d)
    ensures Declares(Store(nodes, d.name, n), Store(net, d.name, d))
  {
    var k := d.name;
    var nodes' := Store(nodes, k, n);
    var net' := Store(net, k, d);
    if k in Keys(nodes) {
      var p := IndexOf(Keys(nodes), k);
      assert nodes' == nodes[p := (k, n)] && net' == net[p := (k, d)];
      forall i | 0 <= i < |nodes'| ensures Matches(nodes'[i].1, net'[i].1) {
        if i != p {
          assert nodes'[i] == nodes[i] && net'[i] == net[i];
        }
      }
    } else {
      assert nodes' == nodes + [(k, n)] && net' == net + [(k, d)];
      forall i | 0 <= i < |nodes'| ensures Matches(nodes'[i].1, net'[i].1) {
        if i < |nodes| {
          assert nodes'[i] == nodes[i] && net'[i] == net[i];
        }
      }
    }
  }

  /** One CPT of the loop of `build`: `net.node` with the block the CPT's
      form calls for, or the raise of a table CPT that has parents or no
      parsed domain. */
  method AddCpt(g: Graph, domains: Hash<Name, seq<Value>>, c: CptDecl) returns (r: Result<Node>)
    requires g.Valid() && SizedCpt(domains, c)
    modifies g`nodes
    ensures g.Valid() && g.memo == old(g.memo)
    ensures DeclOf(domains, c).Err? ==> r == Err(DeclOf(domains, c).error) && g.nodes == old(g.nodes)
    ensures DeclOf(domains, c).Ok? ==>
              && r.Ok? && fresh(r.value)
              && g.nodes == Store(old(g.nodes), c.variable, r.value)
              && Matches(r.value, DeclOf(domains, c).value)
  {
    var call := CallOf(domains, c);
    if call.Err? {
      return Err(call.error);
    }
    r := g.AddNode(c.variable, call.value.1, Some([call.value.0]));
  }

  /** The `net.node` call one CPT makes: the `values` call of its block and
      the declared parents, or the raise of a table CPT that has parents or
      no parsed domain. Running the block gives the declared state. */
  function CallOf(domains: Hash<Name, seq<Value>>, c: CptDecl): (r: Result<(ValuesCall, seq<Name>)>)
    requires SizedCpt(domains, c)
    ensures DeclOf(domains, c).Err? ==> r == Err(DeclOf(domains, c).error)
    ensures DeclOf(domains, c).Ok? ==>
              && r.Ok? && r.value.1 == DeclOf(domains, c).value.parents
              && RunBody(c.variable, [r.value.0]) == Ok(StateOf(DeclOf(domains, c).value))
  {
    match c.cpt
    case Rows(entries) =>
      var arg := if c.variable in Keys(domains) then Domain(Get(domains, c.variable).value) else NoArg;
      var call := ValuesCall(arg, Some(entries));
      assert [call][..0] == [];
      Ok((call, c.parents))
    case Table(t) =>
      if c.parents != [] then Err(TableWithParents)
      else
        match Get(domains, c.variable)
        case None => Err(UndeclaredVariable(c.variable))
        case Some(d) =>
          var call := ValuesCall(Prior(ToHash(Zip(d, t))), None);
          assert [call][..0] == [];
          Ok((call, []))
  }

  /** One CPT added to a network that holds some declarations keeps it
      holding them, updated with this CPT's. */
  method DeclareCpt(g: Graph, domains: Hash<Name, seq<Value>>, c: CptDecl, ghost net: Hash<Name, Decl>)
    returns (r: Result<Node>)
    requires g.Valid() && SizedCpt(domains, c) && Declares(g.nodes, net)
    modifies g`nodes
    ensures g.Valid() && g.memo == old(g.memo)
    ensures DeclOf(domains, c).Err? ==> r == Err(DeclOf(domains, c).error) && g.nodes == old(g.nodes)
    ensures DeclOf(domains, c).Ok? ==>
              && r.Ok? && fresh(r.value)
              && g.nodes == Store(old(g.nodes), c.variable, r.value)
              && Declares(g.nodes, Store(net, c.variable, DeclOf(domains, c).value))
  {
    ghost var before := g.nodes;
    r := AddCpt(g, domains, c);
    assert Declares(before, net);
    if r.Ok? {
      StoreDeclares(before, net, r.value, DeclOf(domains, c).value);
    }
  }

  /** The k-th CPT added to a network that holds the declarations of the
      CPTs before it keeps it holding them, now with this CPT's, or raises
      as the declarations of the first k + 1 CPTs do. */
  method DeclareNext(g: Graph, domains: Hash<Name, seq<Value>>, cpts: seq<CptDecl>, k: nat,
                     ghost ds: seq<Decl>)
    returns (r: Result<Node>, ghost ds': seq<Decl>)
    requires Sized(domains, cpts) && k < |cpts| && Decls(domains, cpts, k) == Ok(ds)
    requires g.Valid() && Declares(g.nodes, Network(ds))
    modifies g`nodes
    ensures g.Valid() && g.memo == old(g.memo)
    ensures r.Err? <==> Decls(domains, cpts, k + 1).Err?
    ensures r.Err? ==> Decls(domains, cpts, |cpts|) == Err(r.error)
    ensures r.Ok? ==>
              && fresh(r.value)
              && NodesOf(g.nodes) <= NodesOf(old(g.nodes)) + {r.value}
              && Decls(domains, cpts, k + 1) == Ok(ds')
              && Declares(g.nodes, Network(ds'))
  {
    var c := cpts[k];
    DeclsStep(domains, cpts, k, ds);
    ds' := ds;
    r := DeclareCpt(g, domains, c, Network(ds));
    if r.Err? {
      DeclsFailsEarly(domains, cpts, k + 1, |cpts|);
      return;
    }
    ghost var d := DeclOf(domains, c).value;
    assert (ds + [d])[..|ds|] == ds;
    ds' := ds + [d];
    StoreNodes(old(g.nodes), c.variable, r.value);
  }

  /** The loop of `build` over the CPTs, on a network without nodes: it
      stops at the first CPT that raises and otherwise leaves the network
      holding one new node per declared name, as its last CPT declares it. */
  method AddAll(g: Graph, domains: Hash<Name, seq<Value>>, cpts: seq<CptDecl>)
    returns (failure: Option<Error>)
    requires g.Valid() && g.nodes == [] && Sized(domains, cpts)
    modifies g`nodes
    ensures g.memo == old(g.memo)
    ensures Decls(domains, cpts, |cpts|).Err? ==> failure == Some(Decls(domains, cpts, |cpts|).error)
    ensures Decls(domains, cpts, |cpts|).Ok? ==>
              && failure.None? && g.Valid() && fresh(NodesOf(g.nodes))
              && Declares(g.nodes, Network(Decls(domains, cpts, |cpts|).value))
  {
    ghost var ds: seq<Decl> := [];
    ghost var made: set<Node> := {};
    var k := 0;
    while k < |cpts|
      invariant 0 <= k <= |cpts|
      invariant fresh(made)
      invariant g.Valid() && NodesOf(g.nodes) <= made
      invariant Decls(domains, cpts, k) == Ok(ds)
      invariant Declares(g.nodes, Network(ds))
    {
      var added;
      added, ds := DeclareNext(g, domains, cpts, k, ds);
      if added.Err? {
        return Some(added.error);
      }
      assert fresh(added.value);
      assert NodesOf(g.nodes) <= made + {added.value};
      made := made + {added.value};
      k := k + 1;
    }
    return None;
  }

  /** `build`: an empty network (`Bayesnet.define do end`, which already
      resolves its no nodes), one node per CPT in order, then
      `resolve_factors` once, so a parent declared by a later CPT is still
      found. The first CPT that raises makes the whole build raise. */
  method Build(parsed: Parsed) returns (r: Result<Graph>)
    requires Sized(ToHash(parsed.nodes), parsed.cpts)
    ensures var ds := Decls(ToHash(parsed.nodes), parsed.cpts, |parsed.cpts|);
      && (ds.Err? ==> r == Err(ds.error))
      && (ds.Ok? ==> r.Ok? && fresh(r.value) && r.value.Valid() && r.value.memo.None?)
    ensures var ds := Decls(ToHash(parsed.nodes), parsed.cpts, |parsed.cpts|);
      ds.Ok? ==>
        var g := r.value;
        var net := Network(ds.value);
        && Keys(g.nodes) == Keys(net)
        && forall i :: 0 <= i < |net| ==>
             ResolvedFrom(g.nodes[i].1, Slice(g.nodes, net[i].1.parents), StateOf(net[i].1).0, StateOf(net[i].1).1)
  {
    var domains := ToHash(parsed.nodes);
    var g := new Graph();
    g.ResolveFactors();
    var failure := AddAll(g, domains, parsed.cpts);
    if failure.Some? {
      return Err(failure.value);
    }
    ResolveDeclared(g, Network(Decls(domains, parsed.cpts, |parsed.cpts|).value));
    r := Ok(g);
  }

  /** The final `resolve_factors` of `build`: every node declared by the
      network resolves against the nodes of its declared parents. */
  method ResolveDeclared(g: Graph, ghost net: Hash<Name, Decl>)
    requires g.Valid() && Declares(g.nodes, net)
    modifies g.NodeSet()
    ensures g.Valid() && g.nodes == old(g.nodes) && Keys(g.nodes) == Keys(net)
    ensures forall i :: 0 <= i < |net| ==>
              ResolvedFrom(g.nodes[i].1, Slice(g.nodes, net[i].1.parents), StateOf(net[i].1).0, StateOf(net[i].1).1)
  {
    ghost var nodes := g.nodes;
    assert forall i :: 0 <= i < |nodes| ==>
      nodes[i].1.parentNodes == Declared(net[i].1.parents) && (nodes[i].1.values, nodes[i].1.factor) == StateOf(net[i].1);
    g.ResolveFactors();
  }
}
