# Conditional routing, proved

The repository answers questions about a network under failures. Routes, forwarding entries and
reachability are not computed once per failure but once for all of them, as boolean conditions over
link and node variables. This project models that machinery in Dafny and proves what its answers
mean. Nothing here executes the original program; the sources are cited by path and line.

`dafny verify dfyconfig.toml` checks everything.

## How the pieces fit

* **Conditions** (`Failure`, `Conditions`, `NormalForms`, `Simplification`, `SymbolicExpr`,
  `SolverGoal`, `Conjunctions`). Conditions are normalised as they are built: flattened, deduplicated and sorted
  by a textual key. The rewrites keep the truth value in every failure context, the keys identify
  conditions, and the translation for the solver means the same when every variable is an
  independent boolean. All of it rests on names being free of commas and closing parentheses, and
  there are lemmas that show both the collision and the lost meaning when they are not.
* **Failure search** (`Combinations`, `KFail`). The backtracking enumeration visits each k-subset once;
  the analyser reports, for every link that can be overloaded, the least number of failures.
* **OSPF** (`Graph`, `Spf`, `SpfPaths`, `OspfPaths`). The shortest-path tree with all equal-cost
  predecessors (section 16.1 of RFC 2328), the memoised condition over it, and the bounded
  enumeration with dominance pruning. Optimality is stated against all walks of the graph.
* **Routes** (`Rib`, `Decision`, `Preference`, `Stability`, `Ranking`, `ControlPlane`, `RouteSupport`, `Isolation`,
  `Convergence`, `Oscillation`, `ControlPlaneEngine`). Selection guards each route by the better ones; convergence alternates a
  pass over all conditions with selection. The engine is a class whose methods are proved against
  functions of the table and the order in which the prefixes happen to be visited, so the results
  hold for every order. The routes of a prefix are ordered by `sort.Slice`, which sorts up to twelve
  elements by insertion; for longer lists the model takes any order that a sort may return.
  `Preference` says attribute by attribute which of two routes is the better one, `Stability` exactly when
  selecting again changes anything where there is one order only, `Ranking` when there is,
  `RouteSupport` what a converged table means, `Isolation` that network instances do not touch each other,
  `Convergence` when convergence succeeds and `Oscillation` why it need not.
* **Forwarding tables** (`Prefixes`, `PrefixText`, `Fib`, `FibLookup`, `FibDerivation`, `Forwarding`). Deriving the
  table, the symbolic lookup against the concrete one, and where a route behind a table entry sends a packet.
* **Data plane** (`Topology`, `Dataplane`, `Reachability`, `Delivery`, `SetDelivery`, `DataplaneExact`, `DataplaneExplained`,
  `Diagnosis`, `DataplanePaths`, `PacketReports`). The symbolic walk is a class that appends to its three lists; the concrete walk
  backtracks under one failure context. The first is an exact summary of the second, both say
  exactly whether an open loop-free path exists, and the reasons they give are those that are the case.
* **Prefix universe** (`Bits`, `Blocks`, `SetKeys`, `Universe`, `PrefixClasses`). Cutting IPv4 space
  into the atoms of all predicates and into CIDR blocks.

`Text`, `Sorting` and `Wrappers` hold what the others share.

## What was found

* Selection is a choice function, but selecting again need not leave a prefix alone. Call routes
  settled when there are at most twelve of them or the decision ranks them, strictly and
  transitively. Settled routes stay as they are exactly when no two neighbours of the result are
  local twins, two routes that the receiver originates itself with equal weight and local
  preference and that are each preferred to the other (`Stability.StableWithoutTwinNeighbours`,
  `Decision.LessBothWays`). Without OSPF routes at the prefix that means no local twins at all
  (`Stability.StableWithoutTwins`); with them, one can stand between two twins and hold them in place
  (`Stability.TwinsKeptApart`).
* More than twelve routes are stable, whatever the library's sort does with them, exactly when the
  decision ranks them (`Ranking.LongStableExactly`). It does when path texts differ, no two are local
  twins, MED is compared between all or none of them, and originators are present on all or none
  (`Ranking.BgpRanks`). It need not otherwise: MED compared within one neighbouring AS only can
  prefer three routes to each other in a circle, without any twins (`Ranking.MedCycle`,
  `Ranking.CycleUpsets`).
* With settled routes and no OSPF, a second selection reverses every pair of local twins and nothing else. Who is
  selected in a context changes exactly when two valid, inequivalent twins of one family are live
  there and nothing live in the family outweighs them (`Stability.SelectionChangesExactlyAtContests`).
  Twins of different families, or equivalent ones, change places without any condition being
  written differently (`Stability.HarmlessTwinsKeep`).
* A pass over the advertisement conditions resets OSPF routes without reporting a change. A table
  whose OSPF routes do not carry their base condition can therefore converge on an out-of-date
  selection (`RouteSupport.StaleOspfRoute`). The engine installs them in step, so this is only the
  reason for a premise that the program always meets.
* Simplifying finds a condition beside its own negation exactly when the condition is not of the operator
  around the two (`Simplification.OppositesFoundExactly`): a conjunction in a conjunction is spread into it
  first, and then nothing stands beside its negation any more. The comment on `SimplifyCond` promises
  "And(x, Not(x), ...)" without that exception; the code is followed.
* The bound on the rounds of convergence suffices whenever routes are settled and none that hands on
  its selected condition gives way to one with a longer path (`Convergence.SettlesInTime`). Two nodes
  that prefer each other's detour to an origin show that the premise is needed: from their table no
  run of rounds ever comes to rest (`Oscillation.NeverSettles`).
* A symbolic lookup for a set of addresses lets entries compete that share no address. For one
  address of the set it starts with the entry that the concrete lookup returns exactly when the first
  live entry meeting the set contains the address, or there is none (`FibLookup.SetLookupExactly`;
  `FibLookup.SetLookupSuppresses` is a case where it does not).
* When two nodes originate one prefix, the two queries may each find another of them. They agree in a
  context exactly when both nodes are up or both down, or the source is down, or nothing is
  reachable anyway (`PacketReports.AnycastExactly`; `PacketReports.AnycastDisagrees` is a case where they do not).
  These are the premises of the exactness theorem, and why it needs them.
* The enumeration records paths that go from the source to itself first when the source has an
  allowed adjacency with itself, and all its paths are simple exactly when there is none. Completeness
  is not affected.
* Whether two prefix-list sets overlap depends on the order of the arguments once a union is
  involved, and exactly when is proved (`Prefixes.OverlapOrderExactly`): a union that comes second is
  asked for its space, so it also overlaps single prefixes inside its own, and `any` that comes first
  overlaps even a union without rules. The program itself builds unions for the spaces of prefix
  classes only and never passes one to this function, so it takes a caller from outside to see it.
  `any` also overlaps a set without addresses when it comes first (`Prefixes.AnyOverlapsNothing`).

## Model

| member | source | states |
|---|---|---|
| Conditions.KeyInjective | internal/domain/failure/condition.go:46-93 | with clean names, two conditions have the same key exactly when they are the same condition |
| Conditions.KeyPrefix | internal/domain/failure/condition.go:430-436 | a key can be read back: of all conditions with clean names only one starts a given text |
| Conditions.KeyCollision | internal/domain/failure/condition.go:64-87 | one comma in a name is enough for two conditions of different meaning to share a key |
| NormalForms.FlattenLoop | internal/domain/failure/condition.go:95-169 | the loop with its seen map and in-place sort computes the flattening that the lemmas below are about |
| NormalForms.NormalizeEval | internal/domain/failure/condition.go:185-200 | normalising keeps the truth value in every context |
| NormalForms.NormalizeIsNormal | internal/domain/failure/condition.go:95-200 | every result is in normal form: no constants inside, no operator directly under itself, operands strictly sorted by key |
| NormalForms.NormalizeIdempotent | internal/domain/failure/condition.go:185-200 | normalising twice is normalising once |
| NormalForms.NormalizeVars | internal/domain/failure/condition.go:185-200 | no variable is invented |
| NormalForms.FlattenCanonical | internal/domain/failure/condition.go:95-169 | the same operands in any order and with any repetition give the identical condition |
| NormalForms.FlattenAssociates | internal/domain/failure/condition.go:111-118 | nesting operands gives the identical condition as listing them |
| NormalForms.AndMeans | internal/domain/failure/condition.go:42 | a built conjunction holds exactly where all its parts do |
| NormalForms.OrMeans | internal/domain/failure/condition.go:43 | a built disjunction holds exactly where some part does |
| NormalForms.NotMeans | internal/domain/failure/condition.go:171-183 | a built negation holds exactly where its part does not |
| NormalForms.UncleanNamesLoseMeaning | internal/domain/failure/condition.go:133-169 | without clean names flattening can drop an operand and change the truth value |
| Simplification.SimplifyEval | internal/domain/failure/condition.go:235-358 | SimplifyCond keeps the truth value in every context |
| Simplification.SimplifyVars | internal/domain/failure/condition.go:235-358 | SimplifyCond introduces no variable |
| Simplification.SimplifyIsSimplified | internal/domain/failure/condition.go:235-358 | at every operator down to the negations of the result, no operand is the negation of another, and no operand with the other operator has all its operands negated beside it |
| Simplification.OpposedGivesConstant | internal/domain/failure/condition.go:269-336 | simplified operands among which that happens give the constant, all others are left alone |
| Simplification.SimplifyIdempotent | internal/domain/failure/condition.go:235-267 | simplifying twice is simplifying once |
| Simplification.OppositesFoundExactly | internal/domain/failure/condition.go:227-267 | a simplified condition beside its own negation gives the constant exactly when it does not have the operator around the two |
| SymbolicExpr.NormalizeAgrees | internal/domain/symbolic/expr.go:143-157 | normalising a solver expression gives the image of the normalised condition it stands for |
| SymbolicExpr.FlattenAgrees | internal/domain/symbolic/expr.go:53-127 | And and Or on solver expressions agree with those on conditions, operand order included |
| SymbolicExpr.NotAgrees | internal/domain/symbolic/expr.go:129-141 | Not agrees with negation on conditions |
| SymbolicExpr.KeyAgrees | internal/domain/symbolic/expr.go:159-179 | the keys of both languages are the same texts |
| SolverGoal.ExpandEval | internal/domain/failure/condition.go:399-428 | expanding link variables changes nothing in the context, and makes the condition mean the same when links and nodes are independent |
| SolverGoal.BoolExprIsNormalForm | internal/domain/failure/condition.go:364-397 | the translation yields exactly the condition's normal form in the solver's language |
| SolverGoal.SolverGoalFaithful | internal/domain/failure/condition.go:364-428 | the goal handed to the solver, over independent booleans, is true exactly where the condition evaluates true, endpoints of links included |
| SolverGoal.ExpansionNeeded | internal/domain/failure/failure_set.go:86-95 | without expanding, a link is misread exactly when only an endpoint of it is down |
| Combinations.FindElementCombo | internal/domain/failure/failure_set.go:134-146 | calls the callback on combinations in order, stops at the first one accepted, and on failure has visited them all |
| Combinations.EachComboOnce | internal/domain/failure/failure_set.go:134-146 | each increasing choice of k positions is visited exactly once, nothing else is |
| KFail.Analyze | internal/engine/traffic/kfail.go:47-155 | a link has a finding exactly when some combination of at most maxK failures overloads it; it has one, its k is the least such size and its failures are a witness of that size; fewest failures first, then by the name of the link |
| KFail.CombosUpToExact | internal/engine/traffic/kfail.go:104-151 | the combinations looked at are exactly the choices of at most maxK elements |
| KFail.Search.Inspect | internal/engine/traffic/kfail.go:110-150 | the callback keeps the findings minimal for everything examined so far |
| KFail.ElementsFail | internal/domain/failure/failure_set.go:69-95 | in the context made from some elements a node is down exactly when a node element names it, a link exactly when a link element names it or a node element names one of its ends |
| Spf.ShortestPathTree | internal/engine/controlplane/ospf_spf.go:200-249 | distances are lengths of walks that avoid the excluded node, no adjacency improves them, and each predecessor list is exactly the set of tight incoming adjacencies with their links and areas, sorted by node and link, without repetition when the adjacencies are |
| Spf.TreeIsShortest | internal/engine/controlplane/ospf_spf.go:200-249 | no walk that avoids the excluded node is shorter than the tree says |
| Spf.ReachedExactly | internal/engine/controlplane/ospf_spf.go:200-249 | a node has a cost below the greatest integer exactly when a walk of such a length leads there |
| Spf.Pop | internal/engine/controlplane/ospf_spf.go:345-366 | takes out an item than which none is nearer, and none as near has a lower name |
| SpfPaths.TreeDescends | internal/engine/controlplane/ospf_spf.go:251-287 | with positive costs predecessors are strictly nearer, so following them ends |
| SpfPaths.RepresentativeIsShortest | internal/engine/controlplane/ospf_spf.go:251-265 | a path is returned exactly for the nodes reached, and it is a shortest walk |
| SpfPaths.SPFCondition | internal/engine/controlplane/ospf_spf.go:267-287 | the shared memo changes nothing: the result is the unmemoised condition and the memo stays right |
| SpfPaths.ConditionExact | internal/engine/controlplane/ospf_spf.go:267-287 | the condition is true exactly when some shortest walk has every node and link up |
| OspfPaths.CandidatePaths | internal/engine/controlplane/ospf_paths.go:98-204 | terminates; pops by cost, then number of nodes, then names, over the whole run; keeps the first eight per destination, each a walk with its cost and condition, sorted by cost and names; every node a simple walk reaches gets a path no dearer than that walk |
| OspfPaths.Pop | internal/engine/controlplane/ospf_paths.go:46-72 | takes out an item than which none is cheaper, none as cheap has fewer nodes, and none alike in both has a lower name at the first node that differs |
| OspfPaths.DominanceComplete | internal/engine/controlplane/ospf_paths.go:78-204 | for every simple walk some simple path to the same node was popped that costs no more and visits only nodes of the walk |
| OspfPaths.LoopDominated | internal/engine/controlplane/ospf_paths.go:46-60 | the tie-break makes a path that starts with a hop from the source to itself arrive after the one without it, so it is pruned |
| OspfPaths.SimpleExactlyWithoutSelf | internal/engine/controlplane/ospf_paths.go:107-144 | all recorded paths are simple exactly when the source has no allowed adjacency with itself |
| OspfPaths.PathConditionExact | internal/engine/controlplane/ospf_spf.go:334-343 | a path's condition is true exactly when all its nodes and links are up |
| OspfPaths.IsDominated | internal/engine/controlplane/ospf_paths.go:146-158 | true exactly when a frontier entry is no dearer and visits nothing the path does not |
| OspfPaths.Replace | internal/engine/controlplane/ospf_paths.go:160-167 | the frontier afterwards is the new entry and exactly those old ones it does not dominate |
| Rib.SelectAtLoop | internal/engine/controlplane/engine.go:356-385 | orders the routes as the library may and assigns the selected conditions that the next lemmas are about |
| Rib.ArrangedIsSort | internal/domain/routing/bgp/process.go:163-176 | up to twelve routes come out as insertion leaves them, and so do ranked ones, whichever sort it is |
| Rib.SelectedExactly | internal/engine/controlplane/engine.go:359-381 | a route is selected exactly where it is valid and live and no earlier valid live route of its family is inequivalent to it |
| Rib.SelectedTogetherEquivalent | internal/engine/controlplane/engine.go:352-398 | two routes of a family selected in one context are equivalent |
| Rib.SomeRouteSelected | internal/engine/controlplane/engine.go:352-398 | a family with a valid live route has a selected one |
| Rib.StableExactly | internal/engine/controlplane/engine.go:352-387 | for any decision and settled routes without duplicates, so for any list of up to twelve: selecting again changes nothing exactly when no two neighbours of the result are each preferred to the other |
| Ranking.LongStableExactly | internal/domain/routing/bgp/process.go:163-176 | of more than twelve routes: selecting again changes nothing, whatever the library makes of long lists, exactly when the decision ranks them |
| Ranking.BgpRanks | internal/domain/routing/bgp/process.go:249-320 | the decision ranks routes with different path texts that are all OSPF, or none OSPF, no two local twins, MED compared between all or none, originators on all and in order or on none |
| Ranking.MedCycle | internal/domain/routing/bgp/process.go:130-143 | MED compared within one neighbouring AS only prefers three routes to each other in a circle, no two of them local twins |
| Ranking.CycleUpsets | internal/domain/routing/bgp/process.go:163-176 | routes with such a circle are not ranked, and if there are more than twelve some sort upsets the selection |
| Stability.StableWithoutTwinNeighbours | internal/domain/routing/bgp/process.go:163-176 | for the decision of any device and settled routes (at most twelve, or ranked): selecting again changes nothing exactly when no two neighbours of the result are local twins |
| Stability.StableWithoutTwins | internal/domain/routing/bgp/process.go:163-176 | at a prefix with settled routes and no OSPF: selecting again changes nothing exactly when no two of the routes are local twins |
| Stability.TwinsKeptApart | internal/domain/routing/bgp/process.go:252-265 | with an OSPF route between them two local twins can stay where they are |
| Stability.TwinsTradePlaces | internal/domain/routing/bgp/process.go:163-176 | with settled routes and no OSPF, a second selection reverses every pair of local twins and keeps every other pair in order |
| Stability.SelectionChangesExactly | internal/engine/controlplane/engine.go:359-381 | between two orders of the same routes the selection changes exactly when a route selected in one comes after a live rival in the other |
| Stability.SelectionChangesExactlyAtContests | internal/engine/controlplane/engine.go:352-387 | with settled routes and no OSPF, a second selection selects other routes in a context exactly when two valid, live, inequivalent local twins of a family meet there and nothing live in the family outweighs them |
| Stability.HarmlessTwinsKeep | internal/engine/controlplane/engine.go:352-387 | with settled routes and no OSPF: when all local twins are of different families, equivalent or invalid, a second selection alters no route, selected condition included |
| Stability.ConvergedStableExactly | internal/engine/controlplane/engine.go:618-621 | with settled routes and no OSPF, the table that convergence leaves is stable under selection exactly when the table at the start has no local twins at a prefix |
| Decision.LessBothWays | internal/domain/routing/bgp/process.go:249-320 | two routes are each preferred to the other exactly when both are locally originated with equal weight and local preference, and not both OSPF |
| Preference.LessExactly | internal/domain/routing/bgp/process.go:249-335 | a route is preferred exactly when it is the better one by the first criterion, in the order written out, that tells the two apart |
| Preference.FirstDecides | internal/domain/routing/bgp/process.go:249-335 | that criterion decides whatever the later ones say |
| Preference.BetterInOne | internal/domain/routing/bgp/process.go:263-293 | alike in all else, a route is preferred and the other is not for the higher weight, the higher local preference, its own origin, the shorter AS path, the lower origin, the lower MED, being external, the lower IGP cost, the shorter cluster list |
| Preference.BetterInTie | internal/domain/routing/bgp/process.go:294-320 | alike in all else, for the originator and the sender in the direction configured, for fewer links, and for the path text in its direction |
| Preference.BetterOspf | internal/domain/routing/bgp/process.go:252-262 | of two OSPF routes alike in all else, for the nearer type, the lower metric, fewer links and the path text |
| Preference.EquivalentExactly | internal/domain/routing/bgp/process.go:55-85 | routes are equivalent exactly when no criterion above the tie breakers tells them apart, two local ones counting as alike |
| Preference.ChosenExactly | internal/engine/controlplane/engine.go:352-398 | on a device: a route is selected exactly when it is valid and live and no valid live route ahead of it, of BGP and aggregates, of OSPF or of the rest as it is itself, differs from it in a criterion that counts |
| Preference.BestIsSelected | internal/engine/controlplane/engine.go:352-387 | where the decision orders the routes, a valid live route that comes before every live one that could displace it is selected |
| Decision.RankableExactly | internal/domain/routing/bgp/process.go:167-176 | no two routes are each preferred to the other exactly when no two are local twins |
| Decision.TwinsSwap | internal/domain/routing/bgp/process.go:163-176 | a list of two inequivalent local twins comes out in the other order, and the one that gives way is the other one |
| ControlPlaneEngine.Engine.SelectRoutes | internal/engine/controlplane/engine.go:352-387 | every prefix of the table is selected, whatever the order of visits |
| ControlPlaneEngine.Engine.ApplyAdvertisementConditions | internal/engine/controlplane/engine.go:400-439 | the table and the reported change are those of a pass that visits every prefix once, in some order |
| ControlPlane.PassDone | internal/engine/controlplane/engine.go:400-439 | a pass keeps the routes and brings OSPF routes to their base; without a reported change every other route already had, up to its key, the condition its parent gives it |
| ControlPlaneEngine.Engine.MaxRouteDepth | internal/engine/controlplane/engine.go:455-469 | the length of the longest path |
| ControlPlaneEngine.Engine.ConvergeAdvertisementConditions | internal/engine/controlplane/engine.go:441-453 | a run of rounds that each changed something, ended by a quiet pass within the bound, or by running out of rounds; never the latter where routes are settled and none handing on its selected condition gives way to one with a longer path |
| ControlPlane.EndedKeeps | internal/engine/controlplane/engine.go:441-453 | on success the table is self-consistent; with OSPF in step at the start its selected conditions are its own; if selection was stable too, routes are settled and no two are each preferred to the other, it is stable at the end; no route is lost or made up |
| ControlPlane.TableStableExactly | internal/engine/controlplane/engine.go:352-387 | with settled routes, selecting leaves a table alone exactly when its selected conditions are its own and no route is preferred to the one before it |
| Convergence.SettlesInTime | internal/engine/controlplane/engine.go:441-453 | where routes are settled and none that hands on its selected condition gives way to one with a longer path, no more rounds change anything than the longest path has nodes, so the bound suffices |
| Convergence.RoundSettles | internal/engine/controlplane/engine.go:400-453 | on such a table each round settles the routes whose paths are one longer |
| Oscillation.NeverSettles | internal/engine/controlplane/engine.go:441-453 | a table of two nodes that prefer each other's detour meets every premise but the one on longer paths, and from it no run of rounds ever ends quietly |
| ControlPlaneEngine.Engine.SelectAndConverge | internal/engine/controlplane/engine.go:618-621 | on success every non-OSPF route is live exactly where its base holds and, beyond the origin, the first route of its sender in its own instance and prefix with its kind and its path but for the last node passes it on; with OSPF in step at the start, every selected condition is the one selection gives in the final table and every live route is supported back to an origin; with settled routes as well, selecting again changes nothing exactly when no route is preferred to the one before it |
| RouteSupport.LiveExactly | internal/engine/controlplane/engine.go:406-433 | in a self-consistent table a route is live exactly where its base holds and the parent found hands it on |
| RouteSupport.ParentFound | internal/engine/controlplane/engine.go:471-487 | the parent found is the first route of the sender, in the same instance and prefix, of the same kind and with the path but for its last node; none is found only if there is none |
| RouteSupport.RouteLiveExactly | internal/engine/controlplane/engine.go:400-439 | in a self-consistent table a route is live exactly where its base holds and that first parent passes it on |
| Isolation.PassIsolated | internal/engine/controlplane/engine.go:400-439 | restricted to one network instance, a pass over the table is the pass over the restricted table |
| Isolation.RoundIsolated | internal/engine/controlplane/engine.go:441-453 | tables that agree on an instance agree on it after a round that visits its prefixes in the same order |
| RouteSupport.AdvertiserPath | internal/engine/controlplane/engine.go:471-487 | the parent found by comparing joined texts really has the route's path without its last node |
| RouteSupport.NoPhantomRoutes | internal/engine/controlplane/engine.go:400-487 | in a self-consistent table whose selected conditions are its own, a live route is supported by live routes, each passed on by the one before, back to one whose path is a single node |
| RouteSupport.StaleOspfRoute | internal/engine/controlplane/engine.go:411-413 | on a table whose OSPF route is not at its base, selecting and converging succeeds and leaves a selection that is out of date |
| Prefixes.NestOrApart | internal/domain/model/prefix.go:52-58 | two masked prefixes nest or share no address |
| Prefixes.OverlapsShares | internal/domain/model/prefix.go:56-58 | comparing first addresses decides whether two prefixes share an address |
| Prefixes.ContainsLeadingBits | internal/domain/model/prefix.go:52-58 | a prefix contains exactly the addresses of its family that have its leading bits |
| Prefixes.OverlapsExactly | internal/domain/model/prefix_set.go:167-245 | address spaces overlap exactly when they share an address, except that `any` first always does |
| Prefixes.AnyOverlapsNothing | internal/domain/model/prefix_set.go:172-173 | the exception: `any` overlaps a set without addresses |
| Prefixes.NewPrefixSetMeans | internal/domain/model/prefix_set.go:131-157 | an accepted rule matches the prefix itself, or those inside it whose length is within ge and le |
| Prefixes.AcceptedExactly | internal/domain/model/prefix_set.go:131-157 | a rule is accepted exactly when `any` stands without bounds, or the prefix is readable, each bound given is a length of its family not shorter than the prefix, and ge is at most le; else the error names which failed |
| Prefixes.OverlapMeansCommonPrefix | internal/domain/model/prefix_set.go:190-222 | between any, exact and range sets the answer is yes exactly when some prefix is matched by both |
| Prefixes.OverlapMeans | internal/domain/model/prefix_set.go:190-222 | for all sets put together from rules: they overlap exactly when rules of both match a common prefix, or the first holds `any`, or the second is a union with a single prefix around one of the first |
| Prefixes.OverlapOrderExactly | internal/domain/model/prefix_set.go:190-222 | the order of the arguments matters exactly when no prefix is matched by both and one of these two extras holds one way only |
| Prefixes.RuleAndUnionOrderExactly | internal/domain/model/prefix_set.go:99-106 | for a rule and a union: exactly for `any` and a union without rules, and for a single prefix inside one of the union that no rule of it matches |
| PrefixText.PrefixStringInjective | internal/domain/model/prefix.go:68-73 | a prefix can be read back from its text |
| Fib.SymbolicLookupFIBEntries | internal/engine/dataplane/symbolic.go:123-151 | the loop with its two maps computes the candidates that the next lemma is about |
| Fib.CandidateMeans | internal/engine/dataplane/symbolic.go:123-158 | a candidate is active exactly where its entry is live and no earlier entry of another group is |
| FibLookup.LookupFIBVRF | internal/engine/dataplane/fib.go:256-267 | the first entry that contains the address and is live, or none |
| FibLookup.LookupRefines | internal/engine/dataplane/symbolic.go:105-158 | on a ranked table, in every context the first active candidate is the entry the concrete lookup returns, none exactly when that returns none |
| FibLookup.ActiveExactly | internal/engine/dataplane/symbolic.go:105-158 | on a table as DeriveFIB leaves it, a candidate is active exactly where its entry is live and no live entry for the address outranks its group |
| FibLookup.GroupKeyExactly | internal/engine/dataplane/symbolic.go:153-158 | the textual group key stands for prefix and rank |
| FibLookup.SetLookupExactly | internal/engine/dataplane/symbolic.go:105-158 | for an address of the set and in each context, the set lookup starts with the entry the concrete lookup returns exactly when the first live entry meeting the set contains the address, or there is none |
| FibLookup.SetLookupAgrees | internal/engine/dataplane/symbolic.go:105-158 | so the two agree in every context if every entry that meets the set contains the address |
| FibDerivation.DeriveFIB | internal/engine/dataplane/fib.go:75-162 | longest prefix first, then by rank, then by text; an entry for every installed route and no other, which carries the route's prefix, next hop, address, interface and condition, discards exactly for a blackhole, and is ranked with the first founder equivalent to it; a lower rank never has a founder of greater distance; conditions of a prefix are distinct; an entry is marked equivalent exactly when its group has another member; every route's condition has an entry from a route that is not farther, unless such routes with entries refuse it |
| FibDerivation.InstalledExactly | internal/engine/dataplane/fib.go:96-110 | a route is installed exactly when no route installed before it has its condition and those admit it |
| FibDerivation.SelectedKeyExactly | internal/engine/dataplane/fib.go:96-106 | the key by which routes of a prefix are told apart is the same exactly for the same selected condition, a missing one included |
| FibDerivation.InstalledInOrder | internal/engine/dataplane/fib.go:85-92 | installed routes and founders come nearest first |
| FibDerivation.ByDistanceExactly | internal/engine/dataplane/fib.go:208-223 | by the distance configured, else 0 for connected, 1 for static and blackhole, 110 for OSPF and 200 for the rest; then by the name of the kind |
| FibDerivation.FoundersFound | internal/engine/dataplane/fib.go:108-118 | the founder of each group has its entry at the group's rank, and no founder is equivalent to an earlier one |
| FibDerivation.AllFound | internal/domain/device/frr.go:15-19 | on a device that refuses routes equivalent to an installed one every installed route founds its own group |
| FibDerivation.RouteGroupForMeans | internal/engine/dataplane/fib.go:232-250 | joins the first group whose founder is equivalent, or founds a group that no earlier founder is equivalent to |
| FibDerivation.GroupNameInjective | internal/engine/dataplane/fib.go:244-249 | group ids of different prefixes or ranks differ, so marking a group touches no other |
| Forwarding.LookupFindsBest | internal/engine/dataplane/fib.go:256-267 | on a ranked table the lookup returns a live entry that contains the address and none such has a longer prefix, or as long a one and a lower rank; nothing only if there is none |
| Forwarding.ActiveMeans | internal/engine/dataplane/symbolic.go:105-158 | on a derived table an entry is active for an address exactly when it is live, contains it, and no such entry has a longer prefix, or as long a one and a lower rank |
| Forwarding.SetActiveMeans | internal/engine/dataplane/symbolic.go:114-158 | on a derived table an entry is active for a set exactly when it is live, shares an address with it, and only entries of its own prefix and rank do so ahead of it |
| Forwarding.RouteSends | internal/engine/dataplane/fib.go:118-140 | an entry made from a route sends packets to a node exactly when the route is no blackhole and has that node as next hop |
| Forwarding.RouteStuck | internal/engine/dataplane/fib.go:269-277 | the entry of a blackhole discards, that of a route with an address only waits for its resolution, that of a route with neither has no next hop |
| Forwarding.DerivedHopExactly | internal/engine/dataplane/fib.go:75-162 | on a derived table a packet can go on to a node exactly when an installed route behind an active entry is no blackhole and has that node as next hop, a link of the topology joins the two, both are up and the sender's end lets it out |
| Topology.BuildTopologyIndex | internal/domain/model/topology_index.go:37-90 | succeeds exactly on distinct node names, link names and endpoint pairs with known endpoints; the two link maps then hold the same links; what an error says is the case |
| Topology.PairExactly | internal/domain/model/topology_index.go:30-35 | endpoint pairs are equal exactly for the same two nodes, in either order |
| Topology.LinkBetweenIsTheirs | internal/domain/model/topology_index.go:119-125 | the link found between two nodes joins them, and both are known |
| Topology.LinkBetweenExactly | internal/domain/model/topology_index.go:119-125 | the link found between two nodes is the one of the topology that joins them, and none is found exactly when there is none |
| Topology.InterfaceOnExactly | internal/engine/dataplane/reachability.go:290-299 | the interface found at a node is the one of the link's end there |
| Dataplane.Findings.SymbolicForward | internal/engine/dataplane/symbolic_forward.go:11-102 | appends exactly the outcome of the state to the three lists |
| Dataplane.Findings.AddUnreachableReason | internal/engine/dataplane/symbolic_reasons.go:140-148 | appends the reason unless its condition is the constant false |
| Conjunctions.IsFalseExactly | internal/engine/dataplane/symbolic.go:485-487 | comparing keys recognises the constant false and nothing else, whatever the names |
| Reachability.PacketReachableFrom | internal/engine/dataplane/reachability.go:100-142 | the backtracking loop computes the concrete walk, first failure reason included |
| Delivery.TryOneExactly | internal/engine/dataplane/reachability.go:144-187 | trying a candidate succeeds exactly when it carries the packet to its next hop and an open loop-free path that avoids the visited nodes goes on from there |
| Delivery.DeliveredExactly | internal/engine/dataplane/reachability.go:64-86 | the query delivers exactly when an origin was found, it and the source are up, and an open loop-free path leads from the source to an origin; the path it reports is one |
| Delivery.WalkExactly | internal/engine/dataplane/reachability.go:100-187 | backtracking is complete: the walk succeeds exactly when some loop-free path leads to an origin, each hop by an active entry over a link of the topology that is up, let out at the sender's own end of the link and let in at the receiver's |
| DataplaneExact.ForwardExact | internal/engine/dataplane/symbolic_forward.go:11-102 | from any explored state, the first path whose condition holds is the path the concrete walk takes, and there is none exactly when the walk fails |
| DataplaneExact.WithinHops | internal/engine/dataplane/symbolic_forward.go:25-27 | a state at an unvisited node is within the bound on hops |
| DataplaneExact.NextGood | internal/engine/dataplane/symbolic_forward.go:87-99 | the condition handed on adds exactly that the candidate is active and the link up, and implies that the next node is up |
| DataplanePaths.BoundNeverCuts | internal/engine/dataplane/symbolic_forward.go:25-27 | any larger bound on hops explores exactly the same |
| DataplanePaths.PathsGenuine | internal/engine/dataplane/symbolic_forward.go:20-24 | every path found is a loop-free walk over real links to an origin, its cost adds up, and its condition implies that all of it is up |
| DataplanePaths.PathsTraced | internal/engine/dataplane/symbolic_forward.go:11-102 | every path found comes with one state for every node: where the path has got to, what it has cost so far, and the interface at the receiver's own end of the link it came over |
| DataplaneExplained.StateExplained | internal/engine/dataplane/symbolic_forward.go:11-102 | wherever a state's condition holds, some path found from it is open or some recorded reason applies |
| Diagnosis.ReasonsExactly | internal/engine/dataplane/symbolic_forward.go:11-102 | from any state: a reason of a kind with its node, link, interface and path applies in a context exactly when the state's condition holds there, a loop-free chain of open hops leads along that path, and at its end what the kind says is the case |
| Diagnosis.BlockedExactly | internal/engine/dataplane/symbolic_reasons.go:21-138 | a path is reported as blocked by a policy in a context exactly when a policy reason of that node, interface and stage applies there |
| Diagnosis.WalkFailsTruly | internal/engine/dataplane/reachability.go:100-187 | when the concrete walk fails, what its reason says is the case at some node that a loop-free chain of open hops leads to |
| PacketReports.FindOriginNodes | internal/engine/dataplane/symbolic.go:450-465 | exactly the nodes that originate something in the set, sorted by name |
| PacketReports.ReachabilityForPrefixSet | internal/engine/dataplane/symbolic.go:352-389 | the report is the outcome of the initial reasons and the walk from the source |
| PacketReports.SetReasonsExactly | internal/engine/dataplane/symbolic.go:298-389 | for a set query: a reason applies in a context exactly when it is that the source or another origin is down, or the source is up and the reason is the case along an open chain of hops from it |
| PacketReports.SpecReasonsExactly | internal/engine/dataplane/symbolic.go:265-288 | the same for the query by address, whose walk also asks that the origin found is up |
| PacketReports.MessagesExactly | internal/engine/dataplane/symbolic.go:298-322 | a set query is refused exactly for an unknown source, else for a set that is not one prefix or range, else for one that no node originates anything in, and the message says which |
| PacketReports.SpecExact | internal/engine/dataplane/symbolic.go:265-288 | for every address and in every context, the symbolic answer is true exactly when the concrete query delivers, and the first open path is the path that query returns |
| PacketReports.SpecMeansOpenPath | internal/engine/dataplane/symbolic.go:265-288 | the symbolic answer is true exactly where source and origin are up and an open loop-free path leads to an origin |
| PacketReports.SpecExplained | internal/engine/dataplane/symbolic.go:265-288 | in every context the report has an open path or a reason that applies, exactly when no origin exists or the source is known |
| PacketReports.SetMeansOpenPath | internal/engine/dataplane/symbolic.go:298-322 | a set query answers yes exactly where the set can be queried and an open loop-free path leads from the source to a node that originates something in the set |
| SetDelivery.ExploreExactly | internal/engine/dataplane/symbolic_forward.go:11-102 | from any state and for any set: some explored path is open exactly where the state's condition holds and an open loop-free path leads on to an origin |
| PacketReports.SetExplained | internal/engine/dataplane/symbolic.go:298-322 | in every context the report has an open path or a reason that applies, exactly when the source is known, the set is a prefix or range, and something originates it |
| PacketReports.ReportedPathsGenuine | internal/engine/dataplane/symbolic.go:352-389 | every path of either report is a loop-free walk from the source to an origin, open only where all of it is up |
| PacketReports.ReportedPathsTraced | internal/engine/dataplane/symbolic.go:352-389 | every path of either report comes with its states, the first at the source and at no interface |
| PacketReports.AnycastExactly | internal/engine/dataplane/reachability.go:247-262 | with two origins of a prefix, the symbolic answer by way of one and the concrete answer by way of the other agree in a context exactly when both are up or both down, or the source is down, or no open path exists |
| Blocks.PrefixesForIPv4Range | internal/domain/model/prefix_universe.go:409-427 | terminates with the tiling that the next two lemmas are about |
| Blocks.TilingPartitions | internal/domain/model/prefix_universe.go:409-427 | the blocks hold each address of the interval exactly once, and no other |
| Blocks.TilingMaximal | internal/domain/model/prefix_universe.go:409-427 | every CIDR block inside the interval lies inside a single output block |
| Blocks.AlignedExactly | internal/domain/model/prefix_universe.go:417-421 | the blocks that may start at an address are those up to its lowest bit |
| SetKeys.KeyDeterminesIntervals | internal/domain/model/prefix_universe.go:234-236 | predicates with one textual key have the same intervals, so skipping the second loses no boundary |
| Universe.BuildPrefixUniverse | internal/domain/model/prefix_universe.go:136-190 | fails exactly when some predicate is written with a prefix outside IPv4; else the classes are those of the gaps between the ends of all intervals that some predicate matches, and the unique predicates are counted by their keys |
| Universe.NumberedExactly | internal/domain/model/prefix_universe.go:141-147 | the predicates kept are those with a set, in order and numbered; only the word `nlri` makes one about routes |
| Universe.CompactInPlace | internal/domain/model/prefix_universe.go:429-439 | overwrites the front of the array with the values, each run of equals once |
| Universe.IntervalsMean | internal/domain/model/prefix_universe.go:291-325 | an IPv4 address is in a set's space exactly when one of its intervals contains it |
| PrefixClasses.ClassesDisjoint | internal/domain/model/prefix_universe.go:170-185 | two classes share no address |
| PrefixClasses.ClassUniform | internal/domain/model/prefix_universe.go:136-190 | two addresses of a class are in exactly the same predicates |
| PrefixClasses.AddressesCovered | internal/domain/model/prefix_universe.go:136-190 | every address of an address-space predicate is in exactly one class |
| PrefixClasses.AddressPredicateListed | internal/domain/model/prefix_universe.go:327-345 | an address-space predicate is listed with a class exactly when it contains the class's addresses |
| PrefixClasses.RangePredicateListed | internal/domain/model/prefix_universe.go:370-395 | a ge/le range is listed with a class exactly when some prefix it admits lies inside the class |
| PrefixClasses.ExactPredicateListed | internal/domain/model/prefix_universe.go:377-378 | a single route prefix is listed with a class exactly when its block contains the class's addresses |
| PrefixClasses.RangeMatchesBlock | internal/domain/model/prefix_universe.go:379-384 | a ge/le range matches a block exactly when some prefix it admits lies inside the block |
| PrefixClasses.ClassForPrefixExactly | internal/domain/model/prefix_universe.go:196-203 | a class is found exactly for the prefixes whose whole block lies inside one class, and it is that class |
| PrefixClasses.ClassForPrefixLoop | internal/domain/model/prefix_universe.go:196-203 | the loop finds the class that the lemma above is about |

## Left out

- BGP propagation, route policy, redistribution and aggregation: the routes of the table are given.
- The solvers, configuration parsers, collectors and command line: no part of the model.
- KFail.Analyze: overload is a given predicate on failure sets; utilisation percentages, byte counts and bandwidths are not modelled.
- FibDerivation.DeriveFIB: next-hop lists with their weights, and the path, source kind and connected class of an entry are not modelled; one network instance at a time.
- FibLookup.LookupFIBVRF: an entry without a condition makes the program fail there; the model asks that matching entries have one, as they do once routes are selected.
- Spf.ShortestPathTree: costs are unbounded integers, so a sum never wraps around; the sentinel for "unreachable" is kept.
- OspfPaths.CandidatePaths: costs are unbounded and not negative; pruning is claimed complete for cost and visited nodes, not for which failures a path survives.
- PacketReports.SpecExact: the address query and the concrete query are given the same origin, every table entry that meets its prefix contains the address, and every originated prefix that meets it equals it; lemmas show why.
- PacketReports.SpecExact: names are free of commas and closing parentheses, as everywhere conditions are built from names.
- ControlPlaneEngine.Engine.SelectAndConverge: what it says of selected conditions asks that OSPF routes start at their base condition and, for stability, that no route is there twice, which is how routes are installed (engine.go:577-606). A missing base condition is modelled, a missing condition is not.
- Convergence.SettlesInTime: a class of tables on which convergence succeeds, not all of them; `Oscillation.NeverSettles` shows one outside it.
- Stability.StableWithoutTwins: for prefixes that hold OSPF routes as well, stability is decided by the neighbours in the result (`Stability.StableWithoutTwinNeighbours`), not by the routes alone, since their order matters.
- RouteSupport.NoPhantomRoutes: node names are free of `>` and paths are not empty, since parents are found by comparing joined texts.
- Normalize of routes is the identity: fields are taken as already filled in.
- The verdict of the data ACLs is a given function of node, stage and interface, and its condition is true when it denies and false otherwise; policy names and messages of a reason are not modelled.
- Conditions have link and node variables only; an unknown kind of variable evaluates to true in the program and does not occur in the model.
- The textual rendering of conditions (`String`) and the counting of negated links are left out.
- Unions that hold a missing set, and queries for a missing set: the sets of the model are always present.
- The text of an IPv6 prefix is one number and a colon instead of the compressed form; only its being readable back matters.
- `current & -current` is the largest power of two that divides a number, not a bit operation on words.
- Rib.StableExactly: for more than twelve routes that the decision does not rank, what selection leaves depends on the partitioning of `sort.Slice`, which is not modelled; `Ranking.LongStableExactly` says that nothing holds of every sort then.
- `sort.SliceStable`, `sort.Strings` and the other uses of `sort.Slice` are one stable insertion sort: they sort without ties, or stably, or at most eight paths. `heap.Pop` takes some least item. A sort does not compare an element with itself.
- Statistics of a universe other than the number of distinct keys, the classes matching a set, and the predicates of a class by id: they would add only easy members.
- Symbolic route reachability, area borders, inter-area paths and the choice of advertisements are left out.
