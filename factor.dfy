/** Factors (lib/bayesnet/factor.rb): a table from assignments of an ordered
    scope of variables to real values. The scope maps each variable name to its
    ordered domain; the table maps each assignment (one value per variable, in
    scope order) to a value. Both keep insertion order, like the Ruby hashes
    they model. */
module Factors {
  import opened Outcomes
  import opened OrderedHash

  type Name = string
  type Value = string
  type Assignment = seq<Value>
  type Scope = Hash<Name, seq<Value>>
  type Table = Hash<Assignment, real>

  datatype Factor = Factor(scope: Scope, vals: Table)

  /** `Factor.new`: no variables and no rows. */
  const Empty: Factor := Factor([], [])

  /** `var_names`: the variables in scope order. */
  function VarNames(f: Factor): seq<Name> {
    Keys(f.scope)
  }

  function Domains(f: Factor): seq<seq<Value>> {
    Values(f.scope)
  }

  /** `values`: the table's values in row order. */
  function TableValues(f: Factor): seq<real> {
    Values(f.vals)
  }

  /** An assignment gives each of the domains one of its values, in order. */
  predicate Fits(doms: seq<seq<Value>>, a: Assignment) {
    |a| == |doms| && forall j :: 0 <= j < |a| ==> a[j] in doms[j]
  }

  /** Every key has one value per variable of the scope. */
  predicate KeysFit(f: Factor) {
    forall i :: 0 <= i < |f.vals| ==> |f.vals[i].0| == |f.scope|
  }

  /** Both hashes have unique keys and every key is an assignment of the scope. */
  predicate WellFormed(f: Factor) {
    && UniqueKeys(f.scope)
    && UniqueKeys(f.vals)
    && forall i :: 0 <= i < |f.vals| ==> Fits(Domains(f), f.vals[i].0)
  }

  /** Every assignment of the scope has a row. */
  ghost predicate Dense(f: Factor) {
    forall a :: Fits(Domains(f), a) ==> a in Keys(f.vals)
  }

  lemma WellFormedKeysFit(f: Factor)
    requires WellFormed(f)
    ensures KeysFit(f)
  {
    forall i | 0 <= i < |f.vals| ensures |f.vals[i].0| == |f.scope| {
      assert Fits(Domains(f), f.vals[i].0);
    }
  }

  /** `index_by_var_name` looked up for each listed name: the position of each
      name in the scope. */
  function IndicesOf(names: seq<Name>, all: seq<Name>): (idx: seq<nat>)
    requires forall n :: n in names ==> n in all
    ensures |idx| == |names|
    ensures forall j :: 0 <= j < |names| ==> idx[j] < |all| && all[idx[j]] == names[j]
  {
    seq(|names|, j requires 0 <= j < |names| => IndexOf(all, names[j]))
  }

  /** `indices.map { |i| key[i] }`: the key's values at the given positions. */
  function Project(key: Assignment, idx: seq<nat>): (r: Assignment)
    requires forall j :: 0 <= j < |idx| ==> idx[j] < |key|
    ensures |r| == |idx|
    ensures forall j :: 0 <= j < |idx| ==> r[j] == key[idx[j]]
  {
    seq(|idx|, j requires 0 <= j < |idx| => key[idx[j]])
  }

  lemma KeysFitMembers(f: Factor)
    requires KeysFit(f)
    ensures forall row :: row in f.vals ==> |row.0| == |VarNames(f)|
  {
    forall row | row in f.vals ensures |row.0| == |VarNames(f)| {
      var i :| 0 <= i < |f.vals| && f.vals[i] == row;
    }
  }

  // ---------------------------------------------------------------------------
  // The construction DSL

  /** `scope name => domain, ...`: adds variables to the scope (merge!). */
  function WithScope(f: Factor, entries: Scope): (g: Factor)
    ensures VarNames(g) == VarNames(f) + Extra(Keys(entries), VarNames(f))
    ensures g.vals == f.vals
    ensures UniqueKeys(f.scope) ==> UniqueKeys(g.scope)
  {
    Factor(Merge(f.scope, entries), f.vals)
  }

  /** `val *assignment, value`: sets the table value of one assignment. */
  function WithVal(f: Factor, a: Assignment, p: real): (g: Factor)
    ensures g.scope == f.scope
    ensures Keys(g.vals) == if a in Keys(f.vals) then Keys(f.vals) else Keys(f.vals) + [a]
    ensures UniqueKeys(f.vals) ==> UniqueKeys(g.vals)
  {
    Factor(f.scope, Store(f.vals, a, p))
  }

  /** The assignment set holds the new value; every other keeps its own. */
  lemma WithValLookup(f: Factor, a: Assignment, p: real)
    ensures Lookup(WithVal(f, a, p), a) == Some(p)
    ensures forall b :: b != a ==> Lookup(WithVal(f, a, p), b) == Lookup(f, b)
  {
  }

  // ---------------------------------------------------------------------------
  // Lookup: `factor[*values]` and `factor[{name => value}]`

  /** Positional lookup: the assignment must list the values in scope order. */
  function Lookup(f: Factor, a: Assignment): (r: Option<real>)
    ensures r.Some? <==> a in Keys(f.vals)
    ensures r.Some? ==> (a, r.value) in f.vals
  {
    Get(f.vals, a)
  }

  /** Lookup by a hash of names to values: the hash is projected onto the
      scope, in scope order; names outside the scope are ignored. */
  function LookupByNames(f: Factor, context: Hash<Name, Value>): Option<real> {
    Lookup(f, Values(Slice(context, VarNames(f))))
  }

  /** The values a context gives to the listed names, in that order. */
  function ValuesAt(context: Hash<Name, Value>, names: seq<Name>): (r: Assignment)
    requires forall n :: n in names ==> n in Keys(context)
    ensures |r| == |names|
  {
    seq(|names|, i requires 0 <= i < |names| => Get(context, names[i]).value)
  }

  lemma {:induction false} KnownAll(ks: seq<Name>, present: seq<Name>)
    requires Distinct(ks)
    requires forall x :: x in ks ==> x in present
    ensures Known(ks, present) == ks
    decreases |ks|
  {
    if ks != [] {
      var init := ks[..|ks| - 1];
      assert Distinct(init);
      assert forall x :: x in init ==> x in ks;
      KnownAll(init, present);
      assert ks == init + [ks[|ks| - 1]];
    }
  }

  lemma {:induction false} KnownShorter(ks: seq<Name>, present: seq<Name>, x: Name)
    requires x in ks && x !in present
    ensures |Known(ks, present)| < |ks|
    decreases |ks|
  {
    var init := ks[..|ks| - 1];
    KnownBounded(init, present);
    if ks[|ks| - 1] != x {
      assert x in init;
      KnownShorter(init, present, x);
    }
  }

  lemma {:induction false} KnownBounded(ks: seq<Name>, present: seq<Name>)
    ensures |Known(ks, present)| <= |ks|
    decreases |ks|
  {
    if ks != [] {
      KnownBounded(ks[..|ks| - 1], present);
    }
  }

  /** A hash lookup projects the hash onto the scope in scope order and ignores
      extra names; if one of the scope's names is missing the key is too short
      and nothing is found. */
  lemma LookupByNamesProjects(f: Factor, context: Hash<Name, Value>)
    requires UniqueKeys(f.scope) && KeysFit(f)
    ensures (forall n :: n in VarNames(f) ==> n in Keys(context)) ==>
              LookupByNames(f, context) == Lookup(f, ValuesAt(context, VarNames(f)))
    ensures (exists n :: n in VarNames(f) && n !in Keys(context)) ==>
              LookupByNames(f, context) == None
  {
    var names := VarNames(f);
    var s := Slice(context, names);
    if forall n :: n in names ==> n in Keys(context) {
      KnownAll(names, Keys(context));
      assert Keys(s) == names;
      assert Values(s) == ValuesAt(context, names) by {
        forall i | 0 <= i < |names| ensures Values(s)[i] == ValuesAt(context, names)[i] {
          GetAt(s, i);
        }
      }
    } else {
      var n :| n in names && n !in Keys(context);
      KnownShorter(names, Keys(context), n);
      assert |Values(s)| < |f.scope|;
      assert Values(s) !in Keys(f.vals);
    }
  }

  /** Positional lookup is order sensitive: on a well-formed dense factor a key
      is found exactly when it is an assignment of the scope in scope order. */
  lemma LookupFoundIffAssignment(f: Factor, a: Assignment)
    requires WellFormed(f) && Dense(f)
    ensures Lookup(f, a).Some? <==> Fits(Domains(f), a)
  {
    if a in Keys(f.vals) {
      var i := IndexOf(Keys(f.vals), a);
      assert Fits(Domains(f), f.vals[i].0);
    }
  }

  // ---------------------------------------------------------------------------
  // Cartesian enumeration: `contextes`

  /** Every value of xs followed by every tail, the first value varying slowest
      (Ruby's `xs.product(...)` step). */
  function Prefixed(xs: seq<Value>, tails: seq<Assignment>): (r: seq<Assignment>)
    ensures |r| == |xs| * |tails|
    decreases |xs|
  {
    if xs == [] then []
    else
      var rest := Prefixed(xs[1..], tails);
      assert |xs| * |tails| == |tails| + (|xs| - 1) * |tails|;
      seq(|tails|, i requires 0 <= i < |tails| => [xs[0]] + tails[i]) + rest
  }

  /** All assignments of the domains, the first domain varying slowest. */
  function Cartesian(doms: seq<seq<Value>>): seq<Assignment>
    decreases |doms|
  {
    if doms == [] then [[]] else Prefixed(doms[0], Cartesian(doms[1..]))
  }

  /** The product of the domain sizes. */
  function SizeOf(doms: seq<seq<Value>>): nat
    decreases |doms|
  {
    if doms == [] then 1 else |doms[0]| * SizeOf(doms[1..])
  }

  /** The value each domain takes at the given positions. */
  function Pick(doms: seq<seq<Value>>, idx: seq<nat>): (a: Assignment)
    requires |idx| == |doms| && forall k :: 0 <= k < |doms| ==> idx[k] < |doms[k]|
    ensures |a| == |doms|
  {
    seq(|doms|, k requires 0 <= k < |doms| => doms[k][idx[k]])
  }

  /** The mixed-radix number of the positions, the first one most significant. */
  function Rank(doms: seq<seq<Value>>, idx: seq<nat>): (r: nat)
    requires |idx| == |doms| && forall k :: 0 <= k < |doms| ==> idx[k] < |doms[k]|
    ensures r < SizeOf(doms)
    decreases |doms|
  {
    if doms == [] then 0
    else
      var s := SizeOf(doms[1..]);
      var r := Rank(doms[1..], idx[1..]);
      MulBelow(idx[0], |doms[0]|, s, r);
      idx[0] * s + r
  }

  lemma {:induction false} PrefixedAt(xs: seq<Value>, tails: seq<Assignment>, q: nat, r: nat)
    requires q < |xs| && r < |tails|
    ensures q * |tails| + r < |Prefixed(xs, tails)|
    ensures Prefixed(xs, tails)[q * |tails| + r] == [xs[q]] + tails[r]
    decreases q
  {
    if q > 0 {
      PrefixedAt(xs[1..], tails, q - 1, r);
      assert q * |tails| + r == |tails| + ((q - 1) * |tails| + r);
    }
  }

  lemma {:induction false} PrefixedMembership(xs: seq<Value>, tails: seq<Assignment>, a: Assignment)
    ensures a in Prefixed(xs, tails) <==> |a| > 0 && a[0] in xs && a[1..] in tails
    decreases |xs|
  {
    if xs != [] {
      PrefixedMembership(xs[1..], tails, a);
      var block := seq(|tails|, i requires 0 <= i < |tails| => [xs[0]] + tails[i]);
      if |a| > 0 && a[0] == xs[0] && a[1..] in tails {
        var i :| 0 <= i < |tails| && tails[i] == a[1..];
        assert block[i] == a;
      }
      if a in block {
        var i :| 0 <= i < |tails| && block[i] == a;
        assert a[1..] == tails[i];
      }
    }
  }

  lemma {:induction false} CartesianSize(doms: seq<seq<Value>>)
    ensures |Cartesian(doms)| == SizeOf(doms)
    decreases |doms|
  {
    if doms != [] {
      CartesianSize(doms[1..]);
    }
  }

  /** An assignment is enumerated exactly when it fits the domains. */
  lemma {:induction false} CartesianMembership(doms: seq<seq<Value>>, a: Assignment)
    ensures a in Cartesian(doms) <==> Fits(doms, a)
    decreases |doms|
  {
    if doms != [] {
      PrefixedMembership(doms[0], Cartesian(doms[1..]), a);
      if |a| > 0 {
        CartesianMembership(doms[1..], a[1..]);
        if Fits(doms[1..], a[1..]) && a[0] in doms[0] {
          forall j | 0 <= j < |a| ensures a[j] in doms[j] {
            if j > 0 { assert a[j] == a[1..][j - 1]; }
          }
        }
        if Fits(doms, a) {
          forall j | 0 <= j < |a| - 1 ensures a[1..][j] in doms[1..][j] {
            assert a[1..][j] == a[j + 1];
          }
        }
      }
    } else {
      assert Fits([], a) <==> a == [];
    }
  }

  /** The enumeration order: the assignment at position Rank(idx) picks the
      idx-th value of every domain, the first domain varying slowest. */
  lemma {:induction false} CartesianAt(doms: seq<seq<Value>>, idx: seq<nat>)
    requires |idx| == |doms| && forall k :: 0 <= k < |doms| ==> idx[k] < |doms[k]|
    ensures Rank(doms, idx) < |Cartesian(doms)|
    ensures Cartesian(doms)[Rank(doms, idx)] == Pick(doms, idx)
    decreases |doms|
  {
    CartesianSize(doms);
    if doms != [] {
      var rest := doms[1..];
      var tails := Cartesian(rest);
      CartesianSize(rest);
      CartesianAt(rest, idx[1..]);
      PrefixedAt(doms[0], tails, idx[0], Rank(rest, idx[1..]));
      assert Pick(doms, idx) == [doms[0][idx[0]]] + Pick(rest, idx[1..]);
    }
  }

  lemma DistinctConcat(a: seq<Assignment>, b: seq<Assignment>)
    requires Distinct(a) && Distinct(b)
    requires forall x :: x in a ==> x !in b
    ensures Distinct(a + b)
  {
    forall i, j | 0 <= i < j < |a + b| ensures (a + b)[i] != (a + b)[j] {
      if i < |a| && j >= |a| {
        assert (a + b)[i] in a && (a + b)[j] == b[j - |a|];
      }
    }
  }

  lemma {:induction false} PrefixedDistinct(xs: seq<Value>, tails: seq<Assignment>)
    requires Distinct(xs) && Distinct(tails)
    ensures Distinct(Prefixed(xs, tails))
    decreases |xs|
  {
    if xs != [] {
      var block := seq(|tails|, i requires 0 <= i < |tails| => [xs[0]] + tails[i]);
      var rest := Prefixed(xs[1..], tails);
      assert Distinct(xs[1..]);
      PrefixedDistinct(xs[1..], tails);
      assert Distinct(block) by {
        forall i, j | 0 <= i < j < |block| ensures block[i] != block[j] {
          assert block[i][1..] == tails[i] && block[j][1..] == tails[j];
        }
      }
      forall x | x in block ensures x !in rest {
        PrefixedMembership(xs[1..], tails, x);
        assert x[0] == xs[0];
        assert xs[0] !in xs[1..];
      }
      DistinctConcat(block, rest);
    }
  }

  /** Over duplicate-free domains every assignment is enumerated once. */
  lemma {:induction false} CartesianDistinct(doms: seq<seq<Value>>)
    requires forall k :: 0 <= k < |doms| ==> Distinct(doms[k])
    ensures Distinct(Cartesian(doms))
    decreases |doms|
  {
    if doms != [] {
      CartesianDistinct(doms[1..]);
      PrefixedDistinct(doms[0], Cartesian(doms[1..]));
    }
  }

  /** The position of each of the assignment's values in its domain. */
  function PositionsIn(doms: seq<seq<Value>>, a: Assignment): (idx: seq<nat>)
    requires Fits(doms, a)
    ensures |idx| == |doms|
    ensures forall k :: 0 <= k < |doms| ==> idx[k] < |doms[k]| && doms[k][idx[k]] == a[k]
  {
    seq(|doms|, k requires 0 <= k < |doms| => IndexOf(doms[k], a[k]))
  }

  /** Over duplicate-free domains, an enumerated assignment sits exactly at
      the rank of its values' positions. */
  lemma CartesianRank(doms: seq<seq<Value>>, i: nat)
    requires forall k :: 0 <= k < |doms| ==> Distinct(doms[k])
    requires i < |Cartesian(doms)|
    ensures Fits(doms, Cartesian(doms)[i])
    ensures i == Rank(doms, PositionsIn(doms, Cartesian(doms)[i]))
  {
    var a := Cartesian(doms)[i];
    CartesianMembership(doms, a);
    var idx := PositionsIn(doms, a);
    CartesianAt(doms, idx);
    assert Pick(doms, idx) == a;
    CartesianDistinct(doms);
  }

  lemma MulBelow(a: nat, b: nat, s: nat, r: nat)
    requires a < b && r < s
    ensures a * s + r < b * s
  {
    var k := b - a;
    assert b * s == a * s + k * s;
    assert k * s == s + (k - 1) * s;
  }

  /** Lowering one position, the others fixed, lowers the rank: an
      assignment comes after every assignment that differs from it only by
      an earlier value of one variable. */
  lemma {:induction false} RankBelow(doms: seq<seq<Value>>, lo: seq<nat>, hi: seq<nat>, q: nat)
    requires |lo| == |doms| && forall k :: 0 <= k < |doms| ==> lo[k] < |doms[k]|
    requires |hi| == |doms| && forall k :: 0 <= k < |doms| ==> hi[k] < |doms[k]|
    requires q < |doms| && lo[q] < hi[q]
    requires forall k :: 0 <= k < |doms| && k != q ==> lo[k] == hi[k]
    ensures Rank(doms, lo) < Rank(doms, hi)
    decreases |doms|
  {
    var rest := doms[1..];
    var s := SizeOf(rest);
    if q == 0 {
      assert lo[1..] == hi[1..];
      var r := Rank(rest, lo[1..]);
      assert Rank(doms, lo) == lo[0] * s + r && Rank(doms, hi) == hi[0] * s + r;
      MulBelow(lo[0], hi[0], s, r);
    } else {
      assert lo[0] == hi[0];
      RankBelow(rest, lo[1..], hi[1..], q - 1);
    }
  }

  /** The domains of the listed variables, in the listed order. */
  function DomainsOf(f: Factor, names: seq<Name>): (doms: seq<seq<Value>>)
    requires forall n :: n in names ==> n in VarNames(f)
    ensures |doms| == |names|
  {
    assert VarNames(f) == Keys(f.scope);
    seq(|names|, i requires 0 <= i < |names| => Get(f.scope, names[i]).value)
  }

  /** `contextes(*names)`: every assignment of the listed variables, in the
      caller's order, the first variable varying slowest; no assignments at all
      for no names. A name outside the scope makes the source raise. */
  function Contextes(f: Factor, names: seq<Name>): (r: Option<seq<Assignment>>)
    ensures r.Some? <==> forall n :: n in names ==> n in VarNames(f)
    ensures names == [] ==> r == Some([])
  {
    if exists n :: n in names && n !in VarNames(f) then None
    else if names == [] then Some([])
    else Some(Cartesian(DomainsOf(f, names)))
  }

  /** What `contextes` enumerates, stated without the enumeration: for a
      non-empty list of known names, an assignment is listed exactly when it
      fits the listed domains, there are as many as the product of the domain
      sizes, and position Rank(idx) holds the idx-th values. */
  lemma ContextesEnumerate(f: Factor, names: seq<Name>, a: Assignment)
    requires names != [] && forall n :: n in names ==> n in VarNames(f)
    ensures Contextes(f, names).Some?
    ensures a in Contextes(f, names).value <==> Fits(DomainsOf(f, names), a)
    ensures |Contextes(f, names).value| == SizeOf(DomainsOf(f, names))
  {
    CartesianMembership(DomainsOf(f, names), a);
    CartesianSize(DomainsOf(f, names));
  }

  // ---------------------------------------------------------------------------
  // normalize

  /** The sum of the table's values. */
  function Total(t: Table): real
    decreases |t|
  {
    if t == [] then 0.0 else Total(t[..|t| - 1]) + t[|t| - 1].1
  }

  /** Every value divided by z, keys and order unchanged. */
  function DivideAll(t: Table, z: real): (r: Table)
    requires z != 0.0
    ensures Keys(r) == Keys(t)
    decreases |t|
  {
    if t == [] then []
    else
      var init := t[..|t| - 1];
      assert Keys(t) == Keys(init) + [t[|t| - 1].0];
      DivideAll(init, z) + [(t[|t| - 1].0, t[|t| - 1].1 / z)]
  }

  /** The sum is nonzero, or there is nothing to divide. */
  predicate Normalizable(f: Factor) {
    Total(f.vals) != 0.0 || f.vals == []
  }

  /** `normalize`: the scope and keys of f, every value divided by the total. */
  function Normalized(f: Factor): (g: Factor)
    requires Normalizable(f)
    ensures g.scope == f.scope && Keys(g.vals) == Keys(f.vals)
  {
    if f.vals == [] then f else Factor(f.scope, DivideAll(f.vals, Total(f.vals)))
  }

  lemma {:induction false} TotalDivideAll(t: Table, z: real)
    requires z != 0.0
    ensures Total(DivideAll(t, z)) == Total(t) / z
    decreases |t|
  {
    if t != [] {
      var n := |t| - 1;
      var init := t[..n];
      TotalDivideAll(init, z);
      var d := DivideAll(t, z);
      assert d == DivideAll(init, z) + [(t[n].0, t[n].1 / z)];
      assert d[..n] == DivideAll(init, z);
      assert Total(d) == Total(init) / z + t[n].1 / z;
      DivideSum(Total(init), t[n].1, z);
    }
  }

  lemma DivideSum(a: real, b: real, z: real)
    requires z != 0.0
    ensures a / z + b / z == (a + b) / z
  {
  }

  lemma {:induction false} DivideAllAt(t: Table, z: real, i: nat)
    requires z != 0.0 && i < |t|
    ensures DivideAll(t, z)[i] == (t[i].0, t[i].1 / z)
    decreases |t|
  {
    if i < |t| - 1 {
      DivideAllAt(t[..|t| - 1], z, i);
    }
  }

  /** A normalized table sums to one. */
  lemma NormalizedSumsToOne(f: Factor)
    requires Total(f.vals) != 0.0
    ensures Total(Normalized(f).vals) == 1.0
  {
    var z := Total(f.vals);
    assert f.vals != [];
    assert Normalized(f).vals == DivideAll(f.vals, z);
    TotalDivideAll(f.vals, z);
    assert z / z == 1.0;
  }

  /** Every entry of the normalized table is the original entry over the total. */
  lemma NormalizedLookup(f: Factor, a: Assignment)
    requires Total(f.vals) != 0.0 && UniqueKeys(f.vals)
    ensures Lookup(Normalized(f), a).Some? <==> Lookup(f, a).Some?
    ensures Lookup(f, a).Some? ==>
              Lookup(Normalized(f), a).value == Lookup(f, a).value / Total(f.vals)
  {
    var g := Normalized(f);
    if a in Keys(f.vals) {
      var i := IndexOf(Keys(f.vals), a);
      DivideAllAt(f.vals, Total(f.vals), i);
      GetAt(f.vals, i);
      GetAt(g.vals, i);
    }
  }

  lemma DivideAllSnoc(t: Table, z: real, i: nat)
    requires z != 0.0 && i < |t|
    ensures DivideAll(t[..i + 1], z) == DivideAll(t[..i], z) + [(t[i].0, t[i].1 / z)]
  {
    assert t[..i + 1][..i] == t[..i];
  }

  /** One turn of the loop in Normalize: dividing the i-th entry extends the
      divided prefix by one. */
  lemma NormalizeStep(t: Table, z: real, i: nat)
    requires z != 0.0 && i < |t| && UniqueKeys(t)
    ensures var vals := DivideAll(t[..i], z) + t[i..];
      && |vals| == |t| && vals[i] == t[i]
      && Get(vals, t[i].0) == Some(t[i].1)
      && Store(vals, t[i].0, t[i].1 / z) == DivideAll(t[..i + 1], z) + t[i + 1..]
  {
    var done := DivideAll(t[..i], z);
    var vals := done + t[i..];
    assert Keys(done) == Keys(t[..i]);
    assert Keys(vals) == Keys(t);
    GetAt(vals, i);
    IndexOfDistinct(Keys(vals), i);
    DivideAllSnoc(t, z, i);
    UpdateAtJoin(done, t[i..], (t[i].0, t[i].1 / z));
    assert t[i..][1..] == t[i + 1..];
  }

  /** Overwriting the first element after a prefix. */
  lemma UpdateAtJoin<T>(a: seq<T>, b: seq<T>, x: T)
    requires b != []
    ensures (a + b)[|a| := x] == a + [x] + b[1..]
  {
  }

  /** `normalize` as the source runs it: clone the table, then divide each
      entry by the total in turn. */
  method Normalize(f: Factor) returns (g: Factor)
    requires Normalizable(f) && UniqueKeys(f.vals)
    ensures g == Normalized(f)
  {
    var vals := f.vals;
    var z := Total(vals);
    if vals == [] {
      return Factor(f.scope, vals);
    }
    var i := 0;
    while i < |vals|
      invariant 0 <= i <= |vals| == |f.vals|
      invariant vals == DivideAll(f.vals[..i], z) + f.vals[i..]
      decreases |f.vals| - i
    {
      NormalizeStep(f.vals, z, i);
      var k := vals[i].0;
      var v := Get(vals, k).value;
      vals := Store(vals, k, v / z);
      i := i + 1;
    }
    assert f.vals[..|f.vals|] == f.vals;
    g := Factor(f.scope, vals);
  }
}
