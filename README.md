# bayesnet in Dafny

A model of the core of the Ruby `bayesnet` library, with proofs about it. The
library describes a discrete Bayesian network as a graph of nodes, and answers
queries by brute force from the network's joint distribution.

- **Nodes.** Each node is a random variable. It has an ordered domain of
  values, a list of parent variables and a conditional probability table (CPT).
- **Factors.** A factor is a table from assignments of an ordered scope of
  variables to numbers. Its operations are lookup, enumeration of all
  assignments, normalisation, reduction to evidence, marginalisation,
  elimination and product.
- **Joint distribution.** The network multiplies every node's table at every
  assignment of all variables, normalises the result and memoises it.
- **Queries.** From the joint distribution it answers posterior
  distributions, the most likely value of a variable and the chance of an
  assignment.
- **Builder.** The builder turns a parsed network description (the domains and
  the CPTs) into such a graph.

The model is organised as follows:

| file | module | models |
|---|---|---|
| outcomes.dfy | `Outcomes` | `Option`, `Result` and the conditions under which the library raises (`Error`) |
| ordered_hash.dfy | `OrderedHash` | Ruby's insertion-ordered `Hash`, as a sequence of pairs: `h[k]`, `h[k] = v`, `slice`, `merge`, `to_h`, `zip` |
| factor.dfy | `Factors` | `Factor`: the DSL setters `scope`/`val`, `[]`, `contextes`, `normalize` (a loop proved against `Normalized`) |
| factor_reduce.dfy | `FactorReduction` | `reduce_to`, stated positionally as the source computes it and by names as a reference |
| factor_marginal.dfy | `FactorMarginals` | `marginalize`, `eliminate` and `group_by` |
| factor_product.dfy | `FactorProducts` | `*` (nested loops proved against `Product`), with a by-row characterisation of the result |
| node.dfy | `Nodes` | `Node`: a class whose `values`, `as` and `resolve_factor` update its fields; `parameters` |
| joint.dfy | `JointTables` | `joint_distribution` as a value, and the loops that compute it |
| queries.dfy | `Queries` | `distribution`, `most_likely_value` and `chances` on a joint distribution |
| graph.dfy | `Graphs` | `Graph`: a class over its nodes, with `node`, `resolve_factors`, the memoised `joint_distribution`, the queries and `parameters` |
| builder.dfy | `Builders` | `Builder#build` from the parsed form |

Probabilities are `real`. Names and values are strings. A failure the
source raises, or a crash on `nil`, is an `Err` of `Result` carrying the
`Error` that says which.

## Model

| member | source | states |
|---|---|---|
| OrderedHash.Store | lib/bayesnet/graph.rb:23 | `h[k] = v` finds v under k and keeps every other key's value. An existing key keeps its position; a new key is appended last. Keys stay unique. |
| OrderedHash.Slice | lib/bayesnet/factor.rb:102 | `h.slice(*ks)` holds exactly the listed keys that h has, with h's values, in the order of ks. |
| OrderedHash.Merge | lib/bayesnet/factor.rb:29 | `h1.merge(h2)` keeps h1's keys first, then appends the keys only h2 has. |
| OrderedHash.MergeGet | lib/bayesnet/factor.rb:142 | On a merge, a key of h2 takes h2's value and any other key keeps h1's. |
| OrderedHash.ToHash | lib/bayesnet/parsers/builder.rb:7 | `pairs.to_h` has unique keys; pairs whose keys are already distinct are kept as they are. `OrderedHash.ToHashGet` and `OrderedHash.ToHashOrder` state what happens to a repeated key. |
| OrderedHash.ZipHashAt | lib/bayesnet/parsers/builder.rb:28 | `ks.zip(vs).to_h` over distinct keys finds the i-th value under the i-th key. |
| OrderedHash.ToHashGet | lib/bayesnet/parsers/builder.rb:7 | After `to_h`, a key holds the value of its last pair (later pairs overwrite earlier ones), and a key no pair has is absent. |
| OrderedHash.ToHashOrder | lib/bayesnet/parsers/builder.rb:7 | After `to_h`, every key is present, and two keys come in the order of their first pairs: an overwritten key keeps its first position. |
| OrderedHash.ZipHashGet | lib/bayesnet/parsers/builder.rb:28 | `ks.zip(vs).to_h` finds under each key the value at that key's last position in ks, repeated keys included. |
| Factors.WithScope | lib/bayesnet/factor.rb:27-33 | `scope name => domain` appends the new variables after the existing ones, keeps the rows and keeps names unique. |
| Factors.WithVal | lib/bayesnet/factor.rb:45-48 | `val` keeps the scope; a new assignment is appended to the keys and an existing one keeps its place. |
| Factors.WithValLookup | lib/bayesnet/factor.rb:45-48 | After `val a, p`, looking up a gives p and every other assignment gives what it gave before. |
| Factors.VarNames | lib/bayesnet/factor.rb:52-54 | `var_names` is the scope's names in scope order: `OrderedHash.Keys` of the scope, whose contract states it. `Factors.WithScope` and `FactorReduction.ReduceToScope` state how the operations change it. |
| Factors.TableValues | lib/bayesnet/factor.rb:83-85 | `values` is the table's values in row order: `OrderedHash.Values` of the table, whose contract states it. `Queries.ModeFirstGreatest` ties them to the rows' keys. |
| Factors.Lookup | lib/bayesnet/factor.rb:66-72 | `factor[*values]` finds a value exactly when that key is stored, and then the value stored under it. `Factors.WithValLookup` and `Factors.LookupFoundIffAssignment` state what is stored. |
| Factors.LookupByNames | lib/bayesnet/factor.rb:66-73 | `factor[hash]` slices the hash to the scope and looks up its values. `Factors.LookupByNamesProjects` states its meaning: the hash's values in scope order, or nothing when a scope name is missing. |
| Factors.IndicesOf | lib/bayesnet/factor.rb:179-185 | `index_by_var_name[k]` is the position of k in the scope. |
| Factors.LookupByNamesProjects | lib/bayesnet/factor.rb:66-73 | A hash lookup reads the hash's values in scope order and ignores names outside the scope; if a scope name is missing, nothing is found. |
| Factors.LookupFoundIffAssignment | lib/bayesnet/factor.rb:66-73 | On a dense, well-formed factor, a positional key is found exactly when it lists a value of each domain in scope order. |
| Factors.Contextes | lib/bayesnet/factor.rb:76-80 | `contextes` is defined exactly when every listed name is in scope; for no names it is the empty list. |
| Factors.ContextesEnumerate | lib/bayesnet/factor.rb:76-80 | For known names, an assignment is listed exactly when it takes a value from each listed domain. There are as many as the product of the domain sizes. |
| Factors.Cartesian | lib/bayesnet/factor.rb:79 | `product` over the domains, the first varying slowest. Its meaning is in `Factors.CartesianMembership`, `Factors.CartesianSize`, `Factors.CartesianAt`, `Factors.CartesianDistinct` and `Factors.CartesianRank`. |
| Factors.CartesianMembership | lib/bayesnet/factor.rb:79 | An assignment is listed exactly when it takes one value from each domain, in order. |
| Factors.CartesianSize | lib/bayesnet/factor.rb:79 | There are as many assignments as the product of the domain sizes. |
| Factors.CartesianAt | lib/bayesnet/factor.rb:79 | The enumeration order: the entry at the mixed-radix rank of a choice of positions picks those values, and the first variable varies slowest. |
| Factors.CartesianDistinct | lib/bayesnet/factor.rb:79 | Over domains without repeats, no assignment is listed twice. |
| Factors.CartesianRank | lib/bayesnet/factor.rb:79 | Over domains without repeats, the i-th assignment listed is the one at the mixed-radix rank i of its values' positions. |
| Factors.RankBelow | lib/bayesnet/factor.rb:79 | Moving one variable to an earlier value of its domain, the others fixed, moves the assignment earlier in the enumeration. |
| Factors.DivideAll | lib/bayesnet/factor.rb:91 | Dividing every value keeps the keys and their order. |
| Factors.Normalized | lib/bayesnet/factor.rb:88-93 | `normalize` keeps the scope and the keys. |
| Factors.NormalizedSumsToOne | lib/bayesnet/factor.rb:88-93 | A normalised table with a nonzero total sums to one. |
| Factors.NormalizedLookup | lib/bayesnet/factor.rb:88-93 | Each normalised entry is the original entry over the total; no key is added or lost. |
| Factors.Normalize | lib/bayesnet/factor.rb:88-93 | The loop over the cloned table, dividing entry by entry, computes `Normalized`. The argument is a value, so the receiver is untouched. |
| FactorReduction.Select | lib/bayesnet/factor.rb:108 | `@vals.select` keeps exactly the rows whose values at the evidence positions are the evidence values. |
| FactorReduction.DeleteIsDrop | lib/bayesnet/factor.rb:168-172 | `delete_by_indices` removes exactly the values of the evidence variables and keeps the rest in order. |
| FactorReduction.DeleteByIndices | lib/bayesnet/factor.rb:168-172 | `delete_by_indices` never lengthens the key. `FactorReduction.DeleteIsDrop` states what it leaves: the key without the evidence positions, in order. |
| FactorReduction.DropAt | lib/bayesnet/factor.rb:109 | A free variable's value in a key is found in the reduced key at that variable's position in the reduced scope. |
| FactorReduction.ReduceTo | lib/bayesnet/factor.rb:101-112 | `reduce_to` yields unique keys, or the factor itself when nothing is reduced. |
| FactorReduction.ReduceToIrrelevant | lib/bayesnet/factor.rb:102-103 | Evidence that names no variable of the scope leaves the factor unchanged. |
| FactorReduction.ReduceToScope | lib/bayesnet/factor.rb:104 | The reduced scope is the old scope without the evidence variables, in the old order and with the old domains. |
| FactorReduction.MatchesIsAgrees | lib/bayesnet/factor.rb:106-108 | Over a distinct scope, matching the evidence positionally is the same as giving each evidence variable its evidence value. |
| FactorReduction.ReduceToRows | lib/bayesnet/factor.rb:104-111 | The reduced table is exactly the rows that agree with the evidence, in order, each key without the evidence variables. |
| FactorReduction.ReducedRowsSnoc | lib/bayesnet/factor.rb:108-109 | One more row of the table adds its reduced row at the end when it agrees with the evidence, and nothing otherwise. |
| FactorReduction.ReducedRowsUnique | lib/bayesnet/factor.rb:109 | Dropping the evidence columns of agreeing rows cannot make two keys collide. |
| FactorReduction.ReduceToLookup | lib/bayesnet/factor.rb:101-112 | An agreeing row's key, without the evidence values, finds the row's value in the reduced factor. |
| FactorReduction.ReduceToKeys | lib/bayesnet/factor.rb:101-112 | Every key of the reduced factor comes from an agreeing row of the original. |
| FactorReduction.ReduceToKeysFit | lib/bayesnet/factor.rb:109-111 | Every reduced key has one value per remaining variable. |
| FactorMarginals.GroupBy | lib/bayesnet/factor.rb:122 | `group_by` makes groups with unique keys, whose rows are all rows of the table. |
| FactorMarginals.GroupByGet | lib/bayesnet/factor.rb:122 | Each group holds exactly the rows with its projection, in order; a projection no row has has no group. |
| FactorMarginals.GroupBySnocKeys | lib/bayesnet/factor.rb:122 | One more row keeps the groups' order and appends its key's group only when that key is new. |
| FactorMarginals.GroupByGroupsOf | lib/bayesnet/factor.rb:161-164 | `group_by_scope_values` computes a grouping: every row is in the group of its projection, and only there. |
| FactorMarginals.GroupByTotal | lib/bayesnet/factor.rb:122-123 | Grouping and summing the groups keeps the grand total. |
| FactorMarginals.KeptPositions | lib/bayesnet/factor.rb:121 | The kept positions are the scope positions of the listed names that exist, in the caller's order. |
| FactorMarginals.Marginalize | lib/bayesnet/factor.rb:118-126 | The marginal's scope is the listed names that exist in the scope, in the caller's order, with their domains. Its keys are unique. |
| FactorMarginals.MarginalizeLookup | lib/bayesnet/factor.rb:118-126 | Each marginal entry is the sum of the rows whose values at the kept variables are its key; a key no row has is absent. |
| FactorMarginals.MarginalizeTotal | lib/bayesnet/factor.rb:118-126 | Marginalising keeps the grand total. |
| FactorMarginals.Eliminate | lib/bayesnet/factor.rb:128-132 | `eliminate(v)` keeps every other variable in the original order and drops v. |
| FactorMarginals.EliminateTotal | lib/bayesnet/factor.rb:128-132 | Eliminating keeps the grand total. |
| FactorProducts.Common | lib/bayesnet/factor.rb:141 | The shared variables are those in both scopes. |
| FactorProducts.ProductNames | lib/bayesnet/factor.rb:142 | The product's variables are the variables of either factor. |
| FactorProducts.LeftGroups | lib/bayesnet/factor.rb:144 | The left factor's groups hold only rows of the left factor. |
| FactorProducts.RightGroups | lib/bayesnet/factor.rb:145 | The right factor's groups hold only rows of the right factor. |
| FactorProducts.GroupedByGroupBy | lib/bayesnet/factor.rb:144-145 | Both `group_by_scope_values` results are groupings by the shared variables. |
| FactorProducts.Combos | lib/bayesnet/factor.rb:147 | `vals1.product(vals2)` holds exactly the pairs of a row of each. |
| FactorProducts.CompatibleIffProject | lib/bayesnet/factor.rb:144-147 | Two rows fall in partner groups exactly when they give every shared variable the same value. |
| FactorProducts.JoinGet | lib/bayesnet/factor.rb:153-155 | The merged assignment gives a variable of the right factor its right value, and any other variable its left value. |
| FactorProducts.JoinKeys | lib/bayesnet/factor.rb:153-155 | The merged assignment lists the left variables first, then those only the right factor has. |
| FactorProducts.MergedKey | lib/bayesnet/factor.rb:155 | `val_by_name1.merge(val_by_name2).values` is the product key, one value per product variable in the product's order. |
| FactorProducts.JoinKeyInjective | lib/bayesnet/factor.rb:153-155 | A product key determines the compatible pair of keys it came from. |
| FactorProducts.Product | lib/bayesnet/factor.rb:140-159 | The product's scope is the left variables, then the right-only ones. It fails only when a left group has no partner group. |
| FactorProducts.Multiply | lib/bayesnet/factor.rb:140-159 | The nested loops over groups and pairs compute `Product`. |
| FactorProducts.StorePairs | lib/bayesnet/factor.rb:148-156 | The inner loop stores the product row of every pair of one group, in order. |
| FactorProducts.JoinableIff | lib/bayesnet/factor.rb:146-147 | The product fails exactly when some row of the left factor has no compatible row on the right. |
| FactorProducts.Unpartnered | lib/bayesnet/factor.rb:147 | A left group without a partner holds a row that no right row is compatible with. |
| FactorProducts.FlatPresent | lib/bayesnet/factor.rb:146-148 | The loops visit every compatible pair of rows. |
| FactorProducts.FlatSource | lib/bayesnet/factor.rb:146-148 | Every pair the loops visit is a compatible pair of rows. |
| FactorProducts.ProductEntry | lib/bayesnet/factor.rb:140-159 | Every compatible pair of rows has its product row: the merged key holds the product of the two values. |
| FactorProducts.ProductKeys | lib/bayesnet/factor.rb:140-159 | Every product key is the merged key of a compatible pair of rows. |
| Nodes.ParentScope | lib/bayesnet/node.rb:55-57 | The parents' domains are listed under the parents' names, in the parents' order. |
| Nodes.ParentScopeStable | lib/bayesnet/node.rb:55-57 | The parents' scope depends only on the parents' domains. |
| Nodes.BuildScope | lib/bayesnet/node.rb:53-58 | The `Factor.build` of `resolve_factor` gives the node's own variable first, then each parent merged in, in order. |
| Nodes.BuildPrior | lib/bayesnet/node.rb:20-25 | The `Factor.build` of the Hash form of `values` computes the prior factor. |
| Nodes.PriorFactorRows | lib/bayesnet/node.rb:20-25 | The prior factor's scope is the node over the hash's keys; it has one row `[value] => probability` per entry, in order. |
| Nodes.PriorFactorWellFormed | lib/bayesnet/node.rb:20-25 | The prior factor is well formed. |
| Nodes.PriorFactorLookup | lib/bayesnet/node.rb:20-25 | The prior factor holds each value's probability under `[value]`, and nothing under any other assignment. |
| Nodes.PriorFactor | lib/bayesnet/node.rb:20-25 | The `Factor.build` block of `values(hash)`. Its meaning is in `Nodes.PriorFactorRows`, `Nodes.PriorFactorWellFormed` and `Nodes.PriorFactorLookup`. |
| Nodes.ResolvedCpt | lib/bayesnet/node.rb:50-60 | What `resolve_factor` makes of a node's table: a stored block is replayed against a table over the node and its parents, and a concrete table is kept. `Nodes.Node.ResolveFactor` ensures the node's table becomes it. `Nodes.ReplayLookup` states what the replayed table holds. |
| Nodes.WithRows | lib/bayesnet/node.rb:43-45 | The rows of one `as` call keep the scope. |
| Nodes.WithRowsLookup | lib/bayesnet/node.rb:42-46 | After `as`, the key `[v] + given` holds the probability at v's last position in the domain: a value listed twice is written twice and the later write wins. Every other key is left as it was. |
| Nodes.Replay | lib/bayesnet/node.rb:59 | Replaying a stored block keeps the scope. |
| Nodes.ReplayLookup | lib/bayesnet/node.rb:59 | After replay, `[v] + given` holds the probability at v's last domain position in the last `as` call with those parent values; keys no call wrote are left as they were. |
| Nodes.ValuesStep | lib/bayesnet/node.rb:13-31 | One `values` call raises exactly when it gets an Array without a block. |
| Nodes.RunBodyOk | lib/bayesnet/graph.rb:21-22 | The block of `node` raises exactly when one of its `values` calls gets an Array without a block. |
| Nodes.RunBodyState | lib/bayesnet/graph.rb:21-22 | A block that does not raise leaves the node with what its last setting call gave, or the fresh node's state when no call sets anything. |
| Nodes.RunBodyFailsEarly | lib/bayesnet/graph.rb:21-22 | The first failing call decides what the block raises. |
| Nodes.RunBodyCovers | lib/bayesnet/node.rb:26-30 | A block that the node keeps covers the node's domain. |
| Nodes.DomainProductCount | lib/bayesnet/node.rb:39 | `reduce(1) { mul * n.values.size }` counts the assignments of the parents' values. |
| Nodes.Node.constructor | lib/bayesnet/node.rb:5-10 | A new node has its name and declared parents, no values and an empty factor. |
| Nodes.Node.Values | lib/bayesnet/node.rb:13-31 | With no argument, `values` answers the domain and changes nothing. A Hash sets the domain to its keys and the table to the prior, and answers that table (the factor `Factor.build` returns). An Array without a block raises and changes nothing. With a block it sets the domain, stores the block, and answers the stored block. |
| Nodes.Node.As | lib/bayesnet/node.rb:42-46 | `as` adds the rows of `WithRows` to a concrete table and keeps the domain and parents. On a stored block it raises and changes nothing when there is a value to write. With an empty domain it writes nothing and succeeds. |
| Nodes.Node.RunBlock | lib/bayesnet/node.rb:59 | `instance_eval(&proc)` replays the block's `as` calls on the table built for it. |
| Nodes.Node.ResolveFactor | lib/bayesnet/node.rb:48-61 | `resolve_factor` always records the parents. A stored block is replayed against the node's own variable followed by the parents' domains; a concrete table is kept. |
| Nodes.Node.ParametersCount | lib/bayesnet/node.rb:38-40 | `parameters` is one fewer than the domain size, times the number of assignments of the parents' values. |
| Nodes.Node.Parameters | lib/bayesnet/node.rb:38-40 | `parameters` as the source computes it. `Nodes.Node.ParametersCount` states its meaning: one fewer than the domain size, times the number of assignments of the parents' values. |
| JointTables.FoldProductFails | lib/bayesnet/graph.rb:67-69 | The product over the nodes succeeds exactly when every node has a row at the assignment; otherwise it raises the first missing node's error. |
| JointTables.Probe | lib/bayesnet/graph.rb:68 | `node.factor[val_by_name]` for one node: a stored block raises and a missing row is nil. `JointTables.FoldProductFails` states how these results decide the product. |
| JointTables.CollectOk | lib/bayesnet/graph.rb:65-71 | Evaluating the products one after another succeeds exactly when each does, and yields them in order. |
| JointTables.StoreRowsTable | lib/bayesnet/graph.rb:70 | Storing one row per assignment gives a row for exactly those assignments, each holding its value. |
| JointTables.StoreRowsOrder | lib/bayesnet/graph.rb:65-70 | Storing one row per distinct assignment keeps the assignments' order. |
| JointTables.JointRowsDefined | lib/bayesnet/graph.rb:65-71 | The unnormalised table exists exactly when every node has a row at every assignment of all the domains. |
| JointTables.JointRowsTable | lib/bayesnet/graph.rb:65-71 | The unnormalised table has a row for exactly the assignments of the nodes' domains, each holding the product of the nodes' entries there. |
| JointTables.JointOfTable | lib/bayesnet/graph.rb:60-72 | The joint distribution of a non-empty network is a well-formed factor over the nodes' variables and domains, with one row per full assignment holding its product over the sum of all products. Its rows sum to one. |
| JointTables.JointOfWellFormed | lib/bayesnet/graph.rb:55-72 | The joint distribution is well formed whenever it is defined. |
| JointTables.JointOf | lib/bayesnet/graph.rb:52-73 | `joint_distribution` as a value. Its meaning is in `JointTables.JointOfTable`, `JointTables.JointOfWellFormed`, `JointTables.JointInOrder` and `Queries.JointEnumerates`. |
| JointTables.JointInOrder | lib/bayesnet/graph.rb:65-72 | Over domains without repeats, the joint distribution's rows are keyed by the assignments in `contextes` order. |
| JointTables.ContextesOfScope | lib/bayesnet/graph.rb:65 | `contextes(*var_names)` on the joint's own variables enumerates every assignment of their domains. |
| JointTables.NodeProduct | lib/bayesnet/graph.rb:67-69 | The `reduce(1.0)` loop over the nodes computes the product at the assignment. |
| JointTables.TabulateJoint | lib/bayesnet/graph.rb:65-71 | The loop over `contextes` stores, for every assignment in order, the product at that assignment, or fails with the first failure. |
| JointTables.JointFrom | lib/bayesnet/graph.rb:65-72 | The loops and `normalize`, on the factor whose scope is set, compute the joint distribution. |
| Queries.Reduced | lib/bayesnet/graph.rb:34 | The joint reduced to the evidence has keys that fit its scope. |
| Queries.Posterior | lib/bayesnet/graph.rb:32-37 | `distribution` fails only on a zero total. |
| Queries.PosteriorDefined | lib/bayesnet/graph.rb:32-37 | The posterior is defined unless the agreeing rows sum to zero. Its variables are the queried ones the evidence leaves free, in the caller's order. Its rows sum to one. |
| Queries.PosteriorLookup | lib/bayesnet/graph.rb:32-37 | Each posterior entry is the sum of the agreeing rows with that key, over the sum of all agreeing rows. |
| Queries.FirstMaxSpec | lib/bayesnet/graph.rb:42 | `max_by(&:last)` finds the first greatest value. It fails exactly when nil meets a number. |
| Queries.FirstMax | lib/bayesnet/graph.rb:42 | `max_by(&:last)` picks a position of the list, or fails as comparing nil with a number does. `Queries.FirstMaxSpec` states which position. |
| Queries.Mode | lib/bayesnet/graph.rb:42-43 | The last two steps of `most_likely_value` on a posterior. `Queries.ModeSpec` and `Queries.ModeFirstGreatest` state its meaning. |
| Queries.ModeSpec | lib/bayesnet/graph.rb:42-43 | The mode pairs the domain d with the posterior's row values by position, as `zip` does. When there are at least \|d\| row values, it is d[m] for the first position m whose row value is greatest among the first \|d\|. With no rows it is d[0]. A variable outside the posterior, or an empty domain, has no mode. The position says nothing about which row is keyed [d[m]]; `Queries.ModeFirstGreatest` and `Queries.MostLikelyMaximal` add that. |
| Queries.MostLikely | lib/bayesnet/graph.rb:40-44 | `most_likely_value` fails when the posterior does. What it returns otherwise is stated by `Queries.MostLikelyMaximal`. |
| Queries.FreeGroupsSnoc | lib/bayesnet/factor.rb:108-122 | Grouping the agreeing rows by a free variable: one more agreeing row appends the group of its value when that value is new. |
| Queries.FreeGroupsAll | lib/bayesnet/factor.rb:108-122 | In a table keyed by the enumeration of its domains, the groups by a free variable are every value of its domain, in domain order. There are no groups when no row agrees with the evidence. |
| Queries.MarginalFreeGroups | lib/bayesnet/graph.rb:33-35 | Reducing to the evidence and then marginalising onto one free variable sums exactly those groups. |
| Queries.JointEnumerates | lib/bayesnet/graph.rb:60-72 | Over domains without repeats, the joint distribution is well formed, keeps the network's scope and has one row per assignment, in enumeration order. |
| Queries.PosteriorInDomainOrder | lib/bayesnet/graph.rb:41 | In such a factor, the posterior over one free variable has one row per domain value, keyed [d[0]], [d[1]], ... in order. It has no rows when no row agrees with the evidence. |
| Queries.ModeFirstGreatest | lib/bayesnet/graph.rb:42-43 | On a posterior whose rows are its domain in order, the mode is the first domain value whose looked-up chance is greatest. With no rows it is the first domain value. |
| Queries.MostLikelyMaximal | lib/bayesnet/graph.rb:40-44 | On such a factor, `most_likely_value` has no answer for a variable outside the network or fixed by the evidence, nor for an empty domain. Otherwise it is a domain value whose posterior chance, looked up by its key, is the greatest. It is the first such value in domain order, or the first value when no row agrees with the evidence. |
| Queries.PosteriorSingle | lib/bayesnet/graph.rb:41 | The queried variable stays in the posterior exactly when it is a network variable and not evidence, and keeps its domain. |
| Queries.SliceValues | lib/bayesnet/graph.rb:47 | `assignment.slice(*var_names)` lists the assigned values in the network's order. |
| Queries.ChanceOfSpec | lib/bayesnet/graph.rb:46-50 | `chances` drops non-variables, orders the assigned variables as the network does, and gives the sum of the agreeing rows with those values over the sum of all agreeing rows. |
| Queries.ChanceOf | lib/bayesnet/graph.rb:46-50 | `chances` as the source computes it. `Queries.ChanceOfSpec` states its meaning. |
| Graphs.ParentsIn | lib/bayesnet/graph.rb:28 | `@nodes.slice(*node.parent_nodes)` finds only nodes of the graph, under unique names. |
| Graphs.SliceNodes | lib/bayesnet/graph.rb:28 | A slice of the nodes holds only nodes of the graph. |
| Graphs.ResolveNext | lib/bayesnet/graph.rb:27-29 | One step of the loop resolves the next node and leaves every other node as it was. |
| Graphs.ResolveAll | lib/bayesnet/graph.rb:26-30 | Every node resolves against the graph's nodes of its declared parent names, from its own domain and table before the loop. |
| Graphs.NewNode | lib/bayesnet/graph.rb:21-22 | `Node.new` followed by the block gives a new node in the block's final state, or the block's error. |
| Graphs.CptsOf | lib/bayesnet/graph.rb:67-69 | The nodes' tables are listed under their names, in node order. |
| Graphs.CptsStable | lib/bayesnet/graph.rb:67-69 | The nodes' tables are all the product reads of the nodes. |
| Graphs.JointScope | lib/bayesnet/graph.rb:60-63 | `factor.scope node_name => node.values` for each node gives the nodes' domains in node order, and no rows. |
| Graphs.ComputeJoint | lib/bayesnet/graph.rb:60-72 | The body of `joint_distribution` computes the joint distribution of the nodes. |
| Graphs.SumParametersCount | lib/bayesnet/graph.rb:75-77 | The sum of the nodes' `parameters` is the sum of their free table entries. |
| Graphs.NodesDistinct | lib/bayesnet/graph.rb:23 | Nodes stored under their own distinct names are distinct objects. |
| Graphs.StoreNodeValid | lib/bayesnet/graph.rb:23 | Storing a node under its name keeps one node per name, each under its own name. |
| Graphs.StoreNodes | lib/bayesnet/graph.rb:23 | Storing a node adds at most that node to the graph's nodes. |
| Graphs.Graph.constructor | lib/bayesnet/graph.rb:10-12 | A new graph has no nodes and no memoised distribution. |
| Graphs.Graph.VarNames | lib/bayesnet/graph.rb:14-16 | `var_names` lists the node names in insertion order. |
| Graphs.Graph.AddNode | lib/bayesnet/graph.rb:18-24 | `node` without a block raises. A raising block stores nothing. Otherwise a new node, in the block's final state with the declared parents, is stored under its name: it keeps its place if the name exists and is appended if not. Only the nodes change, so a memoised joint distribution is kept even though it no longer matches the nodes. |
| Graphs.Graph.ResolveFactors | lib/bayesnet/graph.rb:26-30 | Every node resolves against the graph's nodes of its declared parent names, in declared order, skipping missing ones. Domains are kept. |
| Graphs.Graph.Joint | lib/bayesnet/graph.rb:52-73 | The joint distribution, memoised or computed afresh, is well formed whenever it is defined. |
| Graphs.Graph.JointDistribution | lib/bayesnet/graph.rb:52-73 | `joint_distribution` returns the memo when there is one. Otherwise it computes the joint (the empty factor for no nodes) and memoises it. It never changes what the joint distribution is. |
| Graphs.Graph.Compute | lib/bayesnet/graph.rb:55-72 | Without a memo, the empty factor for no nodes, or else the product of the nodes, is the joint distribution. |
| Graphs.Graph.Remember | lib/bayesnet/graph.rb:72 | Memoising keeps the joint distribution and the nodes. |
| Graphs.Graph.Distribution | lib/bayesnet/graph.rb:32-37 | `distribution` is the posterior of the joint distribution, or its failure. A computed joint distribution is memoised from then on; nothing else changes. |
| Graphs.Graph.MostLikelyValue | lib/bayesnet/graph.rb:40-44 | `most_likely_value` is `Queries.MostLikely` on the network's joint distribution, which is memoised from then on; nothing else changes. With `Graphs.Graph.JointIsJointOf`, `Queries.JointEnumerates` and `Queries.MostLikelyMaximal`, the answer is a domain value of greatest posterior chance, the first in domain order among equals. |
| Graphs.Graph.Chances | lib/bayesnet/graph.rb:46-50 | `chances` looks up the posterior over the assigned network variables at the assigned values. A computed joint distribution is memoised from then on; nothing else changes. |
| Graphs.Graph.JointIsJointOf | lib/bayesnet/graph.rb:53-72 | The joint distribution of a valid graph, memoised or not, is `JointOf` some variables with distinct names and their tables. The lemmas about `JointOf` therefore apply to it. |
| Graphs.Graph.Parameters | lib/bayesnet/graph.rb:75-77 | `parameters` is the sum of the nodes' free table entries. |
| Builders.StateOf | lib/bayesnet/parsers/builder.rb:15-30 | A declared node holds the declared domain. Its table is a stored block exactly when the declaration keeps a row list, which `Builders.DeclOf` does for a row-list CPT whose variable has a parsed domain. Without a parsed domain, `values nil` keeps no values and an empty factor. |
| Builders.DeclOf | lib/bayesnet/parsers/builder.rb:13-30 | A CPT raises exactly when it is a table with parents (raising that error first) or a table for a variable with no domain. |
| Builders.TablePrior | lib/bayesnet/parsers/builder.rb:23-28 | A table CPT gives a node without parents whose domain lists each value once, and exactly the parsed domain when it has no repeats. Its prior holds under each value the table entry at that value's last position, as `zip(...).to_h` leaves it. |
| Builders.RowsResolved | lib/bayesnet/parsers/builder.rb:15-21 | A row-list CPT keeps its rows as the node's block. Once resolved, each row is one `as` call: the last row for given parent values decides the entry, at the value's last domain position. Entries no row gives are absent. |
| Builders.Decls | lib/bayesnet/parsers/builder.rb:12-31 | The first k CPTs, when none raises, declare k nodes. |
| Builders.DeclsOk | lib/bayesnet/parsers/builder.rb:12-31 | The CPTs raise exactly when one of them does. |
| Builders.DeclsValues | lib/bayesnet/parsers/builder.rb:12-31 | Otherwise they declare, in order, what each CPT declares. |
| Builders.DeclsFirstErr | lib/bayesnet/parsers/builder.rb:12-31 | When they raise, they raise what the first raising CPT raises. |
| Builders.Network | lib/bayesnet/graph.rb:23 | Storing each declaration under its name gives unique names. |
| Builders.NetworkKeys | lib/bayesnet/graph.rb:23 | The network holds the declared names in the order of first declaration. |
| Builders.NetworkGet | lib/bayesnet/graph.rb:23 | Each name holds its last declaration. |
| Builders.StoreDeclares | lib/bayesnet/graph.rb:23 | Storing a node with its declaration keeps the graph and the declarations in step. |
| Builders.AddCpt | lib/bayesnet/parsers/builder.rb:13-30 | One CPT stores a new node as it declares it, or raises its error and stores nothing. Only the nodes change. |
| Builders.CallOf | lib/bayesnet/parsers/builder.rb:13-30 | One CPT makes a `net.node` call whose block, run on a fresh node, gives exactly the declared state with the declared parents. It raises exactly as the declaration does. |
| Builders.DeclareNext | lib/bayesnet/parsers/builder.rb:12-31 | The k-th CPT extends the nodes to the declarations of the first k + 1 CPTs, or raises the whole build's error. The memo is kept. |
| Builders.AddAll | lib/bayesnet/parsers/builder.rb:12-31 | The loop over the CPTs stops at the first that raises and returns its error. Otherwise it leaves one new node per declared name, as its last CPT declares it. The memo is kept. |
| Builders.ResolveDeclared | lib/bayesnet/parsers/builder.rb:33 | The final `resolve_factors` resolves each declared node from its declared state against the nodes of its declared parents. |
| Builders.Build | lib/bayesnet/parsers/builder.rb:5-35 | `build` raises the first CPT's error. Otherwise it returns a new valid graph that has memoised no joint distribution. It has a node per declared name in declaration order, each resolved against the nodes of its declared parents, including parents declared by later CPTs. |

## Left out

- Floating point: probabilities are exact reals. There is no rounding, and no
  NaN or infinity.
- Queries.Posterior: where the agreeing rows sum to zero, the source's
  division yields NaN entries. The model returns `Err(ZeroTotal)` instead.
- Factors.Normalize: requires a nonzero total or an empty table. On a zero
  total the source divides by zero and stores NaN entries.
- JointTables.JointOfTable: a joint table summing to zero is likewise
  `Err(ZeroTotal)` where the source would yield NaN entries.
- Nodes.Node.As: requires a probability for every value of the domain. Ruby's
  `zip` pads a short distribution with `nil` and stores `nil` entries.
- Nodes.Node.RunBlock: requires every `as` call of the block to cover the
  domain (`Covers`), for the same reason as `Nodes.Node.As`.
- Nodes.Node.ResolveFactor: requires a stored block to cover the domain
  (`Covers`), for the same reason as `Nodes.Node.As`.
- Graphs.Graph.AddNode: requires the block's `values` calls to cover their
  domains (`BodyCovers`), for the same reason as `Nodes.Node.As`.
- Queries.MostLikelyMaximal: requires a factor that enumerates its domains,
  which `Queries.JointEnumerates` gives for a joint distribution whose
  domains list no value twice. With a value repeated in the queried
  variable's domain, `val` overwrites a row and `contextes` lists that value
  twice. The posterior then has fewer rows
  than `contextes` lists values. `zip` pads the row values with nil, and
  `max_by` cannot compare nil with a number (`Queries.FirstMaxSpec`).
  `Queries.ModeSpec` covers that case too.
- JointTables.JointInOrder: requires domains that list no value twice. With
  a repeat, `val` overwrites an earlier row, so the keys are `contextes`
  without its later duplicates; the model does not state that order.
- Queries.JointEnumerates: requires domains that list no value twice, for
  the same reason as `JointTables.JointInOrder`.
- Builders.Build: requires every row list to cover the parsed domain and every
  table to be at least as long as it (`Sized`), for the same reason as
  `Nodes.Node.As`. A table longer than the domain is cut by `zip`, as in
  the source.
- Factor#select (lib/bayesnet/factor.rb:134-138) is not modelled. It passes an
  array to `Array#slice`, which Ruby rejects, and nothing calls it.
- `instance_eval` blocks (`Factor.build`, `Graph#node`, `Node#distributions`,
  `resolve_factor`) are replaced by explicit data:
  - a node's block is the list of its `values` calls (`ValuesCall`);
  - a stored CPT block is the list of its `as` calls (`Entry`);
  - `Factor.build` is the sequence of `scope` and `val` calls it makes.

  `Node#distributions` only re-enters the node, so it has no counterpart.
- The memo of `index_by_var_name` is the pure function `Factors.IndicesOf`.
- The factor DSL setters return an updated `Factor` value rather than
  mutating one in place. No factor is shared while it is being filled.
- The BIF text parser (`parse`) is not part of this model. `Builders.Build`
  takes the parsed nodes and CPTs as its input.
- Rendering, logging, `lib/bayesnet.rb` and `lib/bayesnet/dsl.rb` (plumbing
  and I/O) are not modelled.
- There is no variable elimination or elimination ordering in the code: every
  query is answered from the full joint distribution.
- An empty graph's joint distribution is the empty factor, with no variables
  and no rows, as the code has it. It is not a factor with a single 1.0 row.
- `Graphs.Graph.Parameters` requires every node to have resolved its parents.
  Before `resolve_factors` the parents are a list of names, and
  `parent_nodes.values` fails.
- A second `resolve_factors` is modelled as the code behaves: parents that are
  already resolved splat into name-node pairs, which name no node, so the
  parents become empty. The builder resolves once after adding all nodes.
