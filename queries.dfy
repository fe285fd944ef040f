/** The queries a network answers from its joint distribution
    (lib/bayesnet/graph.rb): posterior distributions, the most likely value
    of a variable, and the chance of an assignment. */
module Queries {
  import opened Outcomes
  import opened OrderedHash
  import opened Factors
  import opened FactorReduction
  import opened FactorMarginals
  import opened Nodes
  import opened JointTables

  /** The joint distribution cut down to the evidence. */
  function Reduced(joint: Factor, evidence: Hash<Name, Value>): (g: Factor)
    requires WellFormed(joint)
    ensures KeysFit(g)
  {
    ReduceToKeysFit(joint, evidence);
    ReduceTo(joint, evidence)
  }

  /** `distribution(over:, evidence:)`: reduce to the evidence, marginalize
      onto the queried variables, normalize. Where the rows left by the
      evidence sum to zero the source divides by zero. */
  function Posterior(joint: Factor, over: seq<Name>, evidence: Hash<Name, Value>): (r: Result<Factor>)
    requires WellFormed(joint)
    ensures r.Ok? || r == Err(ZeroTotal)
  {
    var m := Marginalize(Reduced(joint, evidence), over);
    if Normalizable(m) then Ok(Normalized(m)) else Err(ZeroTotal)
  }

  /** Marginalizing leaves no rows exactly when there were none. */
  lemma MarginalEmpty(f: Factor, names: seq<Name>)
    requires KeysFit(f)
    ensures Marginalize(f, names).vals == [] <==> f.vals == []
  {
    var idx := KeptPositions(f, names);
    KeysFitProjectable(f, idx);
    if f.vals != [] {
      var x := f.vals[0];
      var p := Project(x.0, idx);
      HavingMembership(f.vals, idx, p, x);
      MarginalizeLookup(f, names, p);
    }
  }

  /** The posterior is defined exactly when the rows agreeing with the
      evidence do not sum to zero, or there are none. Its variables are the
      queried ones that the evidence leaves free, in the caller's order; its
      rows sum to one. */
  lemma PosteriorDefined(joint: Factor, over: seq<Name>, evidence: Hash<Name, Value>)
    requires WellFormed(joint)
    ensures var e := Reduced(joint, evidence);
      Posterior(joint, over, evidence).Ok? <==> Total(e.vals) != 0.0 || e.vals == []
    ensures Posterior(joint, over, evidence).Ok? ==>
              var post := Posterior(joint, over, evidence).value;
              && VarNames(post) == Known(over, Without(VarNames(joint), Keys(evidence)))
              && (post.vals != [] ==> Total(post.vals) == 1.0)
  {
    var e := Reduced(joint, evidence);
    var m := Marginalize(e, over);
    MarginalEmpty(e, over);
    MarginalizeTotal(e, over);
    ReduceToScope(joint, evidence);
    if m.vals != [] && Total(m.vals) != 0.0 {
      NormalizedSumsToOne(m);
    }
  }

  /** Each posterior entry is the sum of the rows agreeing with the evidence
      whose queried values are the entry's key, over the sum of all rows
      agreeing with the evidence; keys no such row has are absent. */
  lemma PosteriorLookup(joint: Factor, over: seq<Name>, evidence: Hash<Name, Value>, p: Assignment)
    requires WellFormed(joint)
    requires Total(Reduced(joint, evidence).vals) != 0.0
    ensures Projectable(Reduced(joint, evidence).vals, KeptPositions(Reduced(joint, evidence), over))
    ensures Posterior(joint, over, evidence).Ok?
    ensures var e := Reduced(joint, evidence);
      var rows := Having(e.vals, KeptPositions(e, over), p);
      Lookup(Posterior(joint, over, evidence).value, p) ==
        if rows == [] then None else Some(Total(rows) / Total(e.vals))
  {
    var e := Reduced(joint, evidence);
    var m := Marginalize(e, over);
    MarginalizeLookup(e, over, p);
    MarginalizeTotal(e, over);
    NormalizedLookup(m, p);
  }

  /** `max_by(&:last)` over the row values: the position of the first
      greatest value. A missing value (nil) is not greater than another
      missing one, and comparing it with a number raises. */
  function FirstMax(keys: seq<Option<real>>): (r: Result<nat>)
    requires keys != []
    ensures r.Ok? ==> r.value < |keys|
    ensures r.Err? ==> r == Err(Incomparable)
    decreases |keys|
  {
    if |keys| == 1 then Ok(0)
    else
      var n := |keys| - 1;
      match FirstMax(keys[..n])
      case Err(e) => Err(e)
      case Ok(m) =>
        match (keys[m], keys[n])
        case (None, None) => Ok(m)
        case (Some(x), Some(y)) => if y > x then Ok(n) else Ok(m)
        case _ => Err(Incomparable)
  }

  /** Finding the maximum fails exactly when values and missing values are
      mixed. Otherwise the found value is at least every value and greater
      than every earlier one; when every value is missing the first
      position is found. */
  lemma {:induction false} FirstMaxSpec(keys: seq<Option<real>>)
    requires keys != []
    ensures FirstMax(keys).Err? <==>
              (exists i :: 0 <= i < |keys| && keys[i].None?) && (exists j :: 0 <= j < |keys| && keys[j].Some?)
    ensures FirstMax(keys).Ok? && keys[FirstMax(keys).value].Some? ==>
              var m := FirstMax(keys).value;
              && (forall i :: 0 <= i < |keys| ==> keys[i].Some? && keys[i].value <= keys[m].value)
              && (forall i :: 0 <= i < m ==> keys[i].value < keys[m].value)
    ensures FirstMax(keys).Ok? && keys[FirstMax(keys).value].None? ==>
              FirstMax(keys).value == 0 && forall i :: 0 <= i < |keys| ==> keys[i].None?
    decreases |keys|
  {
    if |keys| > 1 {
      var n := |keys| - 1;
      var init := keys[..n];
      FirstMaxSpec(init);
      assert forall i :: 0 <= i < n ==> init[i] == keys[i];
      if FirstMax(init).Ok? {
        var m := FirstMax(init).value;
        if keys[m].Some? && keys[n].None? {
          assert keys[n].None? && keys[m].Some?;
        } else if keys[m].None? && keys[n].Some? {
          assert keys[m].None? && keys[n].Some?;
        }
      } else {
        var i :| 0 <= i < n && init[i].None?;
        var j :| 0 <= j < n && init[j].Some?;
        assert keys[i].None? && keys[j].Some?;
      }
    }
  }

  /** `contextes(name)` of a one-variable factor: each value of its domain
      on its own. */
  lemma CartesianSingle(d: seq<Value>)
    ensures |Cartesian([d])| == |d|
    ensures forall i :: 0 <= i < |d| ==> Cartesian([d])[i] == [d[i]]
  {
    CartesianSize([d]);
    assert SizeOf([d]) == |d| by {
      assert SizeOf([d][1..]) == 1;
    }
    forall i | 0 <= i < |d| ensures Cartesian([d])[i] == [d[i]] {
      var a := Cartesian([d])[i];
      CartesianMembership([d], a);
      CartesianAt([d], [i]);
    }
  }

  /** The keys `max_by` compares: the i-th value of the domain is paired with
      the i-th row value, or with nil where the rows run out. */
  function PairedValues(cs: seq<Assignment>, vs: seq<real>): (keys: seq<Option<real>>)
    ensures |keys| == |cs|
    ensures forall i :: 0 <= i < |cs| ==> keys[i] == if i < |vs| then Some(vs[i]) else None
  {
    seq(|cs|, i requires 0 <= i < |cs| => if i < |vs| then Some(vs[i]) else None)
  }

  /** The last two steps of `most_likely_value` on a posterior: pair the
      variable's values with the row values and keep the value at the first
      greatest one. */
  function Mode(post: Factor, name: Name): (r: Result<Value>)
  {
    match Contextes(post, [name])
    case None => Err(UnknownVariable(name))
    case Some(cs) =>
      if cs == [] then Err(EmptyDomain(name))
      else
        match FirstMax(PairedValues(cs, TableValues(post)))
        case Err(e) => Err(e)
        case Ok(m) =>
          CartesianLengths(DomainsOf(post, [name]));
          Ok(cs[m][0])
  }

  /** The mode pairs the domain with the row values by position: it is the
      domain value at the first position whose row value is greatest,
      provided the factor has a row value for every position of the domain,
      and the first domain value when the factor has no rows at all. A
      variable not in the factor has no mode, nor has an empty domain. */
  lemma ModeSpec(post: Factor, name: Name)
    ensures Mode(post, name) == Err(UnknownVariable(name)) <==> name !in VarNames(post)
    ensures name in VarNames(post) ==>
              var d := Get(post.scope, name).value;
              var vs := TableValues(post);
              && (d == [] <==> Mode(post, name) == Err(EmptyDomain(name)))
              && (d != [] && vs == [] ==> Mode(post, name) == Ok(d[0]))
              && (d != [] && |d| <= |vs| ==>
                    exists m :: 0 <= m < |d|
                      && Mode(post, name) == Ok(d[m])
                      && (forall i :: 0 <= i < |d| ==> vs[i] <= vs[m])
                      && (forall i :: 0 <= i < m ==> vs[i] < vs[m]))
  {
    if name in VarNames(post) {
      var d := Get(post.scope, name).value;
      assert DomainsOf(post, [name]) == [d];
      CartesianSingle(d);
      var cs := Contextes(post, [name]).value;
      if d != [] {
        ModeAt(post, name, d, cs);
      }
    }
  }

  lemma ModeAt(post: Factor, name: Name, d: seq<Value>, cs: seq<Assignment>)
    requires Contextes(post, [name]) == Some(cs) && d != []
    requires |cs| == |d| && forall i :: 0 <= i < |d| ==> cs[i] == [d[i]]
    ensures Mode(post, name) != Err(EmptyDomain(name))
    ensures TableValues(post) == [] ==> Mode(post, name) == Ok(d[0])
    ensures var vs := TableValues(post);
      |d| <= |vs| ==>
        exists m :: 0 <= m < |d|
          && Mode(post, name) == Ok(d[m])
          && (forall i :: 0 <= i < |d| ==> vs[i] <= vs[m])
          && (forall i :: 0 <= i < m ==> vs[i] < vs[m])
  {
    var vs := TableValues(post);
    var keys := PairedValues(cs, vs);
    FirstMaxSpec(keys);
    if vs == [] {
      assert keys[0].None?;
    }
    if |d| <= |vs| {
      assert keys[0].Some?;
      var m := FirstMax(keys).value;
      assert cs[m] == [d[m]];
      assert forall i :: 0 <= i < |d| ==> keys[i] == Some(vs[i]);
    }
  }

  /** `most_likely_value(name, evidence:)` on a joint distribution: the mode
      of the posterior over the variable. */
  function MostLikely(joint: Factor, name: Name, evidence: Hash<Name, Value>): (r: Result<Value>)
    requires WellFormed(joint)
    ensures Posterior(joint, [name], evidence).Err? ==> r == Err(ZeroTotal)
  {
    match Posterior(joint, [name], evidence)
    case Err(e) => Err(e)
    case Ok(post) => Mode(post, name)
  }

  /** The queried variable is in the posterior exactly when the joint
      distribution has it and the evidence does not fix it; its domain there
      is its domain in the joint distribution. */
  lemma PosteriorSingle(joint: Factor, name: Name, evidence: Hash<Name, Value>)
    requires WellFormed(joint) && Posterior(joint, [name], evidence).Ok?
    ensures var post := Posterior(joint, [name], evidence).value;
      && (name in VarNames(post) <==> name in VarNames(joint) && name !in Keys(evidence))
      && (name in VarNames(post) ==> Get(post.scope, name) == Get(joint.scope, name))
  {
    PosteriorDefined(joint, [name], evidence);
    ReduceToScope(joint, evidence);
  }

  /** A slice lists, in its own key order, the values the hash gives. */
  lemma SliceValues(h: Hash<Name, Value>, ks: seq<Name>)
    ensures forall n :: n in Keys(Slice(h, ks)) ==> n in Keys(h)
    ensures Values(Slice(h, ks)) == ValuesAt(h, Keys(Slice(h, ks)))
  {
    var s := Slice(h, ks);
    forall i | 0 <= i < |s| ensures Values(s)[i] == ValuesAt(h, Keys(s))[i] {
      GetAt(s, i);
    }
  }

  /** `chances(assignment, evidence:)` on a joint distribution: the posterior
      over the assigned variables of the network, in the network's order,
      looked up at their assigned values. */
  function ChanceOf(joint: Factor, names: seq<Name>, assignment: Hash<Name, Value>, evidence: Hash<Name, Value>): (r: Result<Option<real>>)
    requires WellFormed(joint)
  {
    var over := Slice(assignment, names);
    match Posterior(joint, Keys(over), evidence)
    case Err(e) => Err(e)
    case Ok(post) => Ok(Lookup(post, Values(over)))
  }

  /** The chances are the sum of the rows agreeing with the evidence whose
      values at the assigned variables are the assigned values, over the sum
      of all rows agreeing with the evidence; the assigned variables are
      taken in the network's order and others are ignored. */
  lemma ChanceOfSpec(joint: Factor, names: seq<Name>, assignment: Hash<Name, Value>, evidence: Hash<Name, Value>)
    requires WellFormed(joint)
    requires Total(Reduced(joint, evidence).vals) != 0.0
    ensures var over := Slice(assignment, names);
      && Keys(over) == Known(names, Keys(assignment))
      && Values(over) == ValuesAt(assignment, Keys(over))
    ensures var over := Slice(assignment, names);
      var e := Reduced(joint, evidence);
      Projectable(e.vals, KeptPositions(e, Keys(over))) &&
      var rows := Having(e.vals, KeptPositions(e, Keys(over)), Values(over));
      ChanceOf(joint, names, assignment, evidence) ==
        Ok(if rows == [] then None else Some(Total(rows) / Total(e.vals)))
  {
    var over := Slice(assignment, names);
    PosteriorLookup(joint, Keys(over), evidence, Values(over));
    SliceValues(assignment, names);
  }

  // ---------------------------------------------------------------------------
  // The order of a one-variable posterior

  /** t lists, in `contextes` order, the assignments of the distinct
      variables names over the duplicate-free domains D. */
  predicate Enumerates(t: Table, names: seq<Name>, D: seq<seq<Value>>) {
    && Distinct(names) && |D| == |names|
    && (forall k :: 0 <= k < |D| ==> Distinct(D[k]))
    && Keys(t) == Cartesian(D)
  }

  /** Every key has n values. */
  predicate KeyLengths(t: Table, n: nat) {
    forall r :: 0 <= r < |t| ==> |t[r].0| == n
  }

  lemma EnumeratesFit(t: Table, names: seq<Name>, D: seq<seq<Value>>, i: nat)
    requires Enumerates(t, names, D) && i <= |t|
    ensures KeyLengths(t[..i], |names|)
  {
    CartesianLengths(D);
    forall r | 0 <= r < i ensures |t[..i][r].0| == |names| {
      assert t[..i][r].0 == Keys(t)[r];
    }
  }

  /** The groups, by the value of the free variable n, of the rows of t that
      agree with the evidence, their keys dropped. */
  function FreeGroups(t: Table, names: seq<Name>, e: Hash<Name, Value>, n: Name): Groups
    requires forall i :: 0 <= i < |t| ==> |t[i].0| == |names|
    requires n in names && n !in Keys(e)
  {
    ReducedRowsLength(t, names, e);
    KeptWithout(names, e);
    GroupBy(ReducedRows(t, names, e), [IndexOf(Without(names, Keys(e)), n)])
  }

  /** The keys [d[0]], [d[1]], ... of a leading part of the domain d. */
  predicate Leading(g: seq<Assignment>, d: seq<Value>) {
    |g| <= |d| && forall j :: 0 <= j < |g| ==> g[j] == [d[j]]
  }

  /** Adding the group of a value keeps the groups a leading part of the
      domain when every earlier value of the domain is grouped already. */
  lemma LeadingStep(g: seq<Assignment>, d: seq<Value>, v: Value)
    requires Distinct(d) && Leading(g, d) && v in d
    requires forall l :: 0 <= l < IndexOf(d, v) ==> [d[l]] in g
    ensures Leading(if [v] in g then g else g + [[v]], d)
  {
    var l := IndexOf(d, v);
    if l < |g| {
      assert g[l] == [v];
    }
  }

  /** FreeGroups unfolded. */
  lemma FreeGroupsIs(t: Table, names: seq<Name>, e: Hash<Name, Value>, n: Name)
    requires forall i :: 0 <= i < |t| ==> |t[i].0| == |names|
    requires n in names && n !in Keys(e)
    ensures var p := IndexOf(Without(names, Keys(e)), n);
      && Projectable(ReducedRows(t, names, e), [p])
      && FreeGroups(t, names, e, n) == GroupBy(ReducedRows(t, names, e), [p])
  {
    ReducedRowsLength(t, names, e);
    KeptWithout(names, e);
  }

  /** Every key of an enumerated table is an assignment of the domains. */
  lemma RowFits(t: Table, names: seq<Name>, D: seq<seq<Value>>, i: nat)
    requires Enumerates(t, names, D) && i < |t|
    ensures Fits(D, t[i].0)
  {
    assert t[i].0 == Keys(t)[i];
    CartesianMembership(D, t[i].0);
  }

  /** Another row of an enumerated table: the i-th key with the q-th variable
      set to its l-th value. It agrees with the evidence when the i-th key
      does and the evidence leaves the variable free, and it comes earlier
      when l is an earlier value than the i-th key's. */
  lemma Substituted(t: Table, names: seq<Name>, e: Hash<Name, Value>, D: seq<seq<Value>>, q: nat, i: nat, l: nat)
      returns (i2: nat)
    requires Enumerates(t, names, D)
    requires q < |names| && names[q] !in Keys(e)
    requires i < |t| && l < |D[q]|
    ensures Fits(D, t[i].0)
    ensures i2 < |t| && t[i2].0 == t[i].0[q := D[q][l]]
    ensures Agrees(names, e, t[i].0) ==> Agrees(names, e, t[i2].0)
    ensures l < IndexOf(D[q], t[i].0[q]) ==> i2 < i
  {
    var a := t[i].0;
    assert a == Keys(t)[i];
    CartesianSize(D);
    CartesianRank(D, i);
    var idx := PositionsIn(D, a);
    var lo := idx[q := l];
    CartesianAt(D, lo);
    i2 := Rank(D, lo);
    assert t[i2].0 == Keys(t)[i2];
    assert Pick(D, lo) == a[q := D[q][l]];
    if l < idx[q] {
      RankBelow(D, lo, idx, q);
    }
  }

  /** Every agreeing row among the first i rows of an enumerated table
      gives its value of the free variable a group. */
  lemma GroupOfRow(t: Table, names: seq<Name>, e: Hash<Name, Value>, D: seq<seq<Value>>, q: nat, i: nat, i0: nat)
    requires Enumerates(t, names, D)
    requires q < |names| && names[q] !in Keys(e)
    requires i0 < i <= |t| && Agrees(names, e, t[i0].0)
    ensures KeyLengths(t[..i], |names|)
    ensures q < |t[i0].0| && [t[i0].0[q]] in Keys(FreeGroups(t[..i], names, e, names[q]))
  {
    EnumeratesFit(t, names, D, i);
    var pre := t[..i];
    var n := names[q];
    var p := IndexOf(Without(names, Keys(e)), n);
    ReducedRowsLength(pre, names, e);
    KeptWithout(names, e);
    assert pre[i0] == t[i0];
    ReducedRowPresent(pre, names, e, i0);
    var rows := ReducedRows(pre, names, e);
    var y := (Drop(names, e, t[i0].0), t[i0].1);
    DropAt(names, e, t[i0].0, n);
    IndexOfDistinct(names, q);
    assert Project(y.0, [p]) == [t[i0].0[q]];
    GroupByGroupsOf(rows, [p]);
    var r :| 0 <= r < |rows| && rows[r] == y;
  }

  /** One more row of an enumerated table keeps the groups of the free
      variable a leading part of its domain: an agreeing row either repeats
      a value already grouped or brings the next value of the domain,
      because every earlier value of the domain came in an earlier row. */
  lemma FreeGroupsStep(t: Table, names: seq<Name>, e: Hash<Name, Value>, D: seq<seq<Value>>, q: nat, i: nat)
    requires Enumerates(t, names, D)
    requires q < |names| && names[q] !in Keys(e) && 0 < i <= |t|
    requires KeyLengths(t[..i - 1], |names|)
    requires Leading(Keys(FreeGroups(t[..i - 1], names, e, names[q])), D[q])
    ensures KeyLengths(t[..i], |names|)
    ensures Leading(Keys(FreeGroups(t[..i], names, e, names[q])), D[q])
  {
    var k := i - 1;
    EnumeratesFit(t, names, D, |t|);
    assert t[..|t|] == t;
    FreeGroupsSnoc(t, names, e, names[q], k);
    IndexOfDistinct(names, q);
    if Agrees(names, e, t[k].0) {
      RowFits(t, names, D, k);
      EarlierGrouped(t, names, e, D, q, k);
      LeadingStep(Keys(FreeGroups(t[..k], names, e, names[q])), D[q], t[k].0[q]);
    }
  }

  /** The groups of one more row: an agreeing row adds the group of its
      value of n, unless that group exists already. */
  lemma FreeGroupsSnoc(t: Table, names: seq<Name>, e: Hash<Name, Value>, n: Name, i: nat)
    requires KeyLengths(t, |names|)
    requires Distinct(names) && n in names && n !in Keys(e) && i < |t|
    ensures KeyLengths(t[..i], |names|) && KeyLengths(t[..i + 1], |names|)
    ensures var g0 := Keys(FreeGroups(t[..i], names, e, n));
      var v := [t[i].0[IndexOf(names, n)]];
      Keys(FreeGroups(t[..i + 1], names, e, n)) == if !Agrees(names, e, t[i].0) || v in g0 then g0 else g0 + [v]
  {
    assert KeyLengths(t[..i], |names|) && KeyLengths(t[..i + 1], |names|) by {
      forall r | 0 <= r < i + 1 ensures t[..i + 1][r] == t[r] && (r < i ==> t[..i][r] == t[r]) {}
    }
    var p := IndexOf(Without(names, Keys(e)), n);
    ReducedRowsSnoc(t, names, e, i);
    FreeGroupsIs(t[..i], names, e, n);
    FreeGroupsIs(t[..i + 1], names, e, n);
    var rows0 := ReducedRows(t[..i], names, e);
    var a := t[i].0;
    if Agrees(names, e, a) {
      var x := (Drop(names, e, a), t[i].1);
      assert Project(x.0, [p]) == [a[IndexOf(names, n)]] by {
        DropAt(names, e, a, n);
      }
      GroupBySnocKeys(rows0, x, [p]);
      assert ReducedRows(t[..i + 1], names, e) == rows0 + [x];
    } else {
      assert ReducedRows(t[..i + 1], names, e) == rows0;
    }
  }

  /** Before an agreeing row of an enumerated table, every earlier value of
      the free variable has its group. */
  lemma EarlierGrouped(t: Table, names: seq<Name>, e: Hash<Name, Value>, D: seq<seq<Value>>, q: nat, i: nat)
    requires Enumerates(t, names, D)
    requires q < |names| && names[q] !in Keys(e) && i < |t| && Agrees(names, e, t[i].0)
    requires KeyLengths(t[..i], |names|) && Fits(D, t[i].0)
    ensures forall l :: 0 <= l < IndexOf(D[q], t[i].0[q]) ==> [D[q][l]] in Keys(FreeGroups(t[..i], names, e, names[q]))
  {
    forall l | 0 <= l < IndexOf(D[q], t[i].0[q])
      ensures [D[q][l]] in Keys(FreeGroups(t[..i], names, e, names[q]))
    {
      var i2 := Substituted(t, names, e, D, q, i, l);
      GroupOfRow(t, names, e, D, q, i, i2);
    }
  }

  /** In an enumerated table, the values of a free variable among the
      agreeing rows of any leading part of the table first appear in domain
      order: the groups seen so far are those of a leading part of the
      domain. */
  lemma {:induction false} FreeGroupsPrefix(t: Table, names: seq<Name>, e: Hash<Name, Value>, D: seq<seq<Value>>, q: nat, i: nat)
    requires Enumerates(t, names, D)
    requires q < |names| && names[q] !in Keys(e) && i <= |t|
    ensures KeyLengths(t[..i], |names|)
    ensures var g := Keys(FreeGroups(t[..i], names, e, names[q]));
      Leading(g, D[q])
    decreases i
  {
    EnumeratesFit(t, names, D, i);
    if i > 0 {
      FreeGroupsPrefix(t, names, e, D, q, i - 1);
      FreeGroupsStep(t, names, e, D, q, i);
    }
  }

  /** The value after a leading part of a domain is not among its groups. */
  lemma LeadingExcludes(g: seq<Assignment>, d: seq<Value>, l: nat)
    requires Distinct(d) && Leading(g, d) && |g| <= l < |d|
    ensures [d[l]] !in g
  {
    forall j | 0 <= j < |g| ensures g[j] != [d[l]] {
      assert g[j] == [d[j]] && d[j] != d[l];
    }
  }

  /** When there are groups, some row agrees with the evidence. */
  lemma SomeAgreeingRow(t: Table, names: seq<Name>, e: Hash<Name, Value>, n: Name) returns (i0: nat)
    requires KeyLengths(t, |names|)
    requires n in names && n !in Keys(e)
    requires FreeGroups(t, names, e, n) != []
    ensures i0 < |t| && Agrees(names, e, t[i0].0)
  {
    FreeGroupsIs(t, names, e, n);
    var rows := ReducedRows(t, names, e);
    assert rows != [];
    i0 := ReducedRowSource(t, names, e, rows[0]);
  }

  /** In an enumerated table, the groups of the agreeing rows by a free
      variable are all of its domain values, in domain order, or there are
      none when no row agrees with the evidence. */
  lemma FreeGroupsAll(t: Table, names: seq<Name>, e: Hash<Name, Value>, D: seq<seq<Value>>, q: nat)
    requires Enumerates(t, names, D)
    requires q < |names| && names[q] !in Keys(e)
    ensures KeyLengths(t, |names|)
    ensures var g := Keys(FreeGroups(t, names, e, names[q]));
      g == [] || (|g| == |D[q]| && forall j :: 0 <= j < |g| ==> g[j] == [D[q][j]])
  {
    FreeGroupsPrefix(t, names, e, D, q, |t|);
    assert t[..|t|] == t;
    var g := Keys(FreeGroups(t, names, e, names[q]));
    if g != [] && |g| < |D[q]| {
      LeadingExcludes(g, D[q], |g|);
      var i0 := SomeAgreeingRow(t, names, e, names[q]);
      var i2 := Substituted(t, names, e, D, q, i0, |g|);
      GroupOfRow(t, names, e, D, q, |t|, i2);
      assert false;
    }
  }

  /** Marginalizing the reduced factor onto one free variable sums the
      groups of its agreeing rows by that variable. */
  lemma MarginalFreeGroups(f: Factor, name: Name, evidence: Hash<Name, Value>)
    requires WellFormed(f) && name in VarNames(f) && name !in Keys(evidence)
    ensures KeyLengths(f.vals, |VarNames(f)|)
    ensures Marginalize(Reduced(f, evidence), [name]).vals == SumGroups(FreeGroups(f.vals, VarNames(f), evidence, name))
  {
    WellFormedKeysFit(f);
    ReduceToRows(f, evidence);
    ReduceToScope(f, evidence);
    var r := Reduced(f, evidence);
    KnownAll([name], VarNames(r));
    FreeGroupsIs(f.vals, VarNames(f), evidence, name);
    assert KeptPositions(r, [name]) == [IndexOf(Without(VarNames(f), Keys(evidence)), name)];
  }

  /** A joint distribution whose domains list no value twice has a row for
      every assignment of its domains, in enumeration order. */
  lemma JointEnumerates(scope: Scope, cpts: Hash<Name, Cpt>)
    requires UniqueKeys(scope) && scope != [] && forall k :: 0 <= k < |scope| ==> Distinct(scope[k].1)
    requires JointOf(scope, cpts).Ok?
    ensures var joint := JointOf(scope, cpts).value;
      && WellFormed(joint) && joint.scope == scope
      && Enumerates(joint.vals, VarNames(joint), Domains(joint))
  {
    JointWellFormed(scope, cpts);
    JointInOrder(scope, cpts);
    var D := Values(scope);
    forall k | 0 <= k < |D| ensures Distinct(D[k]) {
      assert D[k] == scope[k].1;
    }
  }

  /** In a factor that enumerates its domains, the posterior over one free
      variable has a row for every value of its domain, in domain order, or
      no rows at all when no row agrees with the evidence. */
  lemma PosteriorInDomainOrder(joint: Factor, name: Name, evidence: Hash<Name, Value>)
    requires WellFormed(joint) && Enumerates(joint.vals, VarNames(joint), Domains(joint))
    requires name in VarNames(joint) && name !in Keys(evidence)
    ensures var d := Get(joint.scope, name).value;
      Posterior(joint, [name], evidence).Ok? ==>
        var post := Posterior(joint, [name], evidence).value;
        post.vals == [] || (|post.vals| == |d| && forall i :: 0 <= i < |d| ==> post.vals[i].0 == [d[i]])
  {
    var names := VarNames(joint);
    var q := IndexOf(names, name);
    GetAt(joint.scope, q);
    FreeGroupsAll(joint.vals, names, evidence, Domains(joint), q);
    MarginalFreeGroups(joint, name, evidence);
    if Posterior(joint, [name], evidence).Ok? {
      var post := Posterior(joint, [name], evidence).value;
      var g := Keys(FreeGroups(joint.vals, names, evidence, name));
      assert Keys(post.vals) == g;
      forall i | 0 <= i < |post.vals| ensures post.vals[i].0 == g[i] {
        assert post.vals[i].0 == Keys(post.vals)[i];
      }
    }
  }

  /** d[m] is the first value of the domain d at which the factor's chance
      is greatest, every value of d having a chance; for a factor with no
      rows, the first value of d. */
  predicate FirstGreatest(post: Factor, d: seq<Value>, m: nat)
    requires m < |d|
  {
    && (post.vals == [] ==> m == 0)
    && (post.vals != [] ==>
          && (forall i :: 0 <= i < |d| ==> Lookup(post, [d[i]]).Some?)
          && (forall i :: 0 <= i < |d| ==> Lookup(post, [d[i]]).value <= Lookup(post, [d[m]]).value)
          && (forall i :: 0 <= i < m ==> Lookup(post, [d[i]]).value < Lookup(post, [d[m]]).value))
  }

  /** The mode of a factor over one variable whose rows, if any, are its
      domain values in order is the first value of greatest chance. */
  lemma ModeFirstGreatest(post: Factor, name: Name, d: seq<Value>)
    requires UniqueKeys(post.vals) && name in VarNames(post) && Get(post.scope, name) == Some(d) && d != []
    requires post.vals == [] || (|post.vals| == |d| && forall i :: 0 <= i < |d| ==> post.vals[i].0 == [d[i]])
    ensures exists m :: 0 <= m < |d| && Mode(post, name) == Ok(d[m]) && FirstGreatest(post, d, m)
  {
    ModeSpec(post, name);
    var vs := TableValues(post);
    var m :| 0 <= m < |d| && Mode(post, name) == Ok(d[m])
      && (vs == [] ==> m == 0)
      && (|d| <= |vs| ==> (forall i :: 0 <= i < |d| ==> vs[i] <= vs[m]) && (forall i :: 0 <= i < m ==> vs[i] < vs[m]));
    if post.vals != [] {
      forall i | 0 <= i < |d| ensures Lookup(post, [d[i]]) == Some(vs[i]) {
        GetAt(post.vals, i);
      }
    }
    assert FirstGreatest(post, d, m);
  }

  /** The most likely value of a variable of a factor that enumerates its
      domains, such as a joint distribution whose domains list no value
      twice: a variable outside the factor or fixed by the evidence has
      none, nor has one with an empty domain; otherwise it is a value of the
      domain whose posterior chance is greatest, the first in domain order
      among equals, or the first value of the domain when no row agrees with
      the evidence. */
  lemma MostLikelyMaximal(joint: Factor, name: Name, evidence: Hash<Name, Value>)
    requires WellFormed(joint) && Enumerates(joint.vals, VarNames(joint), Domains(joint))
    ensures var r := MostLikely(joint, name, evidence);
      Posterior(joint, [name], evidence).Ok? ==>
        var post := Posterior(joint, [name], evidence).value;
        && (r == Err(UnknownVariable(name)) <==> name !in VarNames(joint) || name in Keys(evidence))
        && (name in VarNames(joint) && name !in Keys(evidence) ==>
              var d := Get(joint.scope, name).value;
              && (d == [] <==> r == Err(EmptyDomain(name)))
              && (d != [] ==> exists m :: 0 <= m < |d| && r == Ok(d[m]) && FirstGreatest(post, d, m)))
  {
    if Posterior(joint, [name], evidence).Ok? {
      var post := Posterior(joint, [name], evidence).value;
      PosteriorSingle(joint, name, evidence);
      ModeSpec(post, name);
      if name in VarNames(joint) && name !in Keys(evidence) {
        var d := Get(joint.scope, name).value;
        PosteriorInDomainOrder(joint, name, evidence);
        if d != [] {
          ModeFirstGreatest(post, name, d);
        }
      }
    }
  }
}
