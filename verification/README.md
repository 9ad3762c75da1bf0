# Verification of hammerhead-bench

A Dafny model of the parts of the hammerhead-bench harness whose numbers and
side effects other results rest on, with proofs of what they keep for every
input, every run and every environment.

- **FIB comparison** (`Ordering`, `Fib`, `FibLaws`, `BgpMerge`, `FibIndex`, `Diff`,
  `Metrics`, `Invariance`, `Reconcile`, `ReconcileLaws`, `MovedRows`, `ComparisonLaws`,
  `PolicyPresence`, `ThreeWay`, `CorpusMeans`): canonicalization,
  the last-wins index, the diff, the metrics and the loopback reconciler. Every
  published rate is shown to be a quotient of set sizes of the indexes, the index
  itself is given in closed form over the raw FIBs, and the three loopback
  policies are compared. What each single comparison decides is given on the fields
  of the routes, and so is what a published rate of 1 says about them.
- **Ratio statistics** (`RealArithmetic`, `Means`, `Quantile`, `Ratios`,
  `RatioLaws`, `RatioOrder`, `RatioMonotone`, `SolverRatios`, `TrialTimings`): the
  means and the inequality between them, the type-7 quantile, the exclusion audit,
  the summary's order and its independence of sample order, and the cold/warm split
  of repeated trials.
- **Fat-tree generator** (`FatTree`, `FatTreeLaws`, `FatTreeNames`, `FatTreeWiring`): two
  allocators and two wiring loops against a closed form, from which degrees,
  addressing and reachability follow for every even k.
- **Protocols** (`Convergence`, `Batfish`, `BatfishCalls`, `Memory`, `RunTopology`,
  `RunPlan`, `TrialTimings`): the convergence poll loop, the Batfish container's
  lifecycle and the whole of a topology run, against environments that may fail at
  any step. The last two are also described from outside: what is up and what is
  replied, on the calls alone, and which steps are taken, on how each one ends.
- **Text and roll-ups** (`Text`, `TextLaws`, `Cumulus`, `CumulusLines`,
  `CumulusEnvelope`, `CumulusLaws`, `Coverage`): the Cumulus envelope with a reader
  that inverts it, and the coverage verdicts.

`dafny verify dfyconfig.toml` checks everything.

## How it is modelled

Values are datatypes, dictionaries are maps, floats are exact reals with the
non-finite ones as constructors, addresses are naturals. Code that loops or
mutates is a method or a class, proved equal to a function or a predicate that
the lemmas are about. What the harness asks of the world (a clock, a query, a
container runner, a file append) is an argument that fixes each answer; a
quantifier over it ranges over all environments. The only things asked of a clock
are that it does not run backwards and that a sleep of at least a second takes at
least a second.

A definition that a method mirrors is pinned down by a lemma that states the same
decision in other terms: on the fields or the characters it reads, on the calls
that were made, or on a list written out. The names of these lemmas end in `Means`
where they give one definition its meaning.

Exceptions are outcomes: `Reply` and `Outcome` constructors stand for what the
Python code raises, and a method's contract says which it gives when.

## Where the code and its prose differ

The model follows the code.

- The README (lines 104-112) says that next hops are compared as sets of
  (ip, interface) pairs. That holds for the diff engine; the head-to-head
  comparison (harness/pipeline.py:1384-1410) compares sets of addresses and falls
  back to the presence of interfaces, not to their names as its docstring says
  (`ComparisonLaws.NextHopsAgreeMeans`). `Reconcile.NextHopsAgreeEquivalence` relates
  the two.
- A comment on loopback hosts (harness/extract/fib.py:161-162) asks that the only
  next hop be a loopback interface. The code asks for some next hop
  (`FibLaws.LoopbackHostMeans`).
- A comment in tests/test_hammerhead_transform.py:247-250 says that entries for
  one prefix are merged in the diff. The index keeps the last one
  (harness/diff/engine.py:251-256).
- `BatfishService.calls` is described as the number of calls since `start`
  (harness/tools/batfish.py:774-777). It is never reset, and counts only calls
  that get through their queries, so once one has been counted no later call is
  cold, not even on a new container after a close (`Batfish.OnlyTheFirstIsCold`,
  an instance in `Batfish.SecondContainerIsWarm`).
- The comment on the cold figure (harness/pipeline.py:539-540) says that it is
  always the first trial's. On a service shared by topologies only the first
  topology has one (`TrialTimings.ColdOnlyOnFirstTopology`, an instance in
  `TrialTimings.SecondTopologyHasNoCold`).
- Summing `container_start_s` over the stats that were returned is meant to give
  the start-up cost once (harness/tools/batfish.py:899-902). It gives 0 when the
  first counted call cannot write its stats file (`Batfish.ColdCostCanBeLost`,
  exact condition in `Batfish.ColdCostReturnedOnce`).
- `run_topology` is documented to mark a run failed when memory does not recover
  (harness/pipeline.py:200-202), and the memory module to abort
  (harness/memory.py:10-12). The code adds a note and the run stays passed
  (`RunTopology.RecoveryDoesNotDecide`, an instance in
  `RunTopology.PassesWithoutRecovery`). The same docstring promises that the sample
  which triggered the guard is still appended; for recovery none is recorded.
- The asymmetric ratio is called a lower bound (README lines 239-253,
  harness/pipeline.py:628-640). It divides the same numerator by a smaller
  denominator and so is an upper bound of the headline ratio
  (`SolverRatios.AsymAtLeastFair`).
- `_record_sample` is documented to keep memory and disk from drifting. They do
  drift when the append raises, and only then (`RunTopology.LogIsWhatWasWritten`, an
  instance in `RunTopology.LogCanMissASample`).
- A fat-tree is a connected fabric; the generated one is not, since an agg has one
  core link (`FatTreeLaws.Components`).
- The Cumulus envelope does not determine the body: a body without a version line
  and the same body below the default one look alike
  (`CumulusLaws.DefaultVersionIsNotSeen`; exact condition in
  `CumulusLaws.SameEnvelope`).

## Model

| member | source | states |
|---|---|---|
| Ordering.StableSortStable | harness/extract/fib.py:110-157 | `sorted` keeps, for every element, the input order of the elements that tie with it |
| Ordering.StableSortSorted | harness/extract/fib.py:110-157 | the sorted list is ordered and holds the same elements with the same multiplicity |
| Ordering.SortedRunsUnique | harness/extract/fib.py:110-157 | being ordered and keeping every run of ties leaves one possible list, so the model's sort is Python's |
| Ordering.KeyOrder | harness/diff/engine.py:152-152 | tuples of strings, the sort keys used throughout, are totally ordered |
| Fib.CanonicalizeVrfIdempotent | harness/extract/fib.py:105-107 | a canonical VRF name is its own canonical name |
| Fib.CanonicalFib | harness/extract/fib.py:120-170 | every route of a canonical FIB is itself canonical, survives the policy's filter, and stands in key order |
| Fib.CanonicalizeIdempotent | harness/extract/fib.py:105-157 | canonicalizing twice gives what canonicalizing once gives, for each of the three policies |
| TextLaws.StripIs | harness/extract/fib.py:107-107 | stripping takes the blanks off both ends of a text and nothing else |
| TextLaws.LowerSpells | harness/extract/fib.py:107-107 | a text lowers to a lower-case word if and only if it spells that word, letters in either case |
| FibLaws.CanonicalizeVrfMeans | harness/extract/fib.py:98-107 | a VRF name becomes `default` if and only if it is blank or spells `global` or `master` in any case between blanks; every other name is kept as it is |
| FibLaws.LoopbackHostMeans | harness/extract/fib.py:160-171 | a loopback host is a connected or local route whose prefix ends in `/32` with some next hop through an interface whose name starts with `lo` in either case |
| FibLaws.CanonicalRouteMeans | harness/extract/fib.py:110-117 | a canonical route differs from the raw one in the order of its next hops alone, and that is by key |
| FibLaws.CanonicalRoutesMean | harness/extract/fib.py:150-157 | a canonical FIB holds exactly the canonical forms of its routes, without the loopback hosts under STRIP and with all of them under the other two policies |
| TextLaws.StringLeqMeans | harness/extract/fib.py:156-156 | one string is at most another if and only if it is a prefix of it or has the smaller character where the two first differ |
| FibLaws.RouteOrderMeans | harness/extract/fib.py:155-156 | routes are sorted by prefix and within a prefix by protocol label, spelled out as bgp, connected, isis, local, ospf, rip, static |
| FibLaws.NextHopOrderMeans | harness/extract/fib.py:110-112 | next hops are sorted by address and then interface, an absent one first |
| BgpMerge.CollectBest | harness/extract/fib.py:448-459 | the scan over blocks, prefixes and paths, with its early exit, computes the best-path table |
| BgpMerge.BestIsDecided | harness/extract/fib.py:448-459 | a (VRF, prefix) gets path p if and only if p is the first best path of the last entry for that key that has one |
| BgpMerge.DecidesMeans | harness/extract/fib.py:448-459 | the entry that decides a key is for that VRF and prefix and has a best path, the first of which is taken, and no later entry for the key has any |
| BgpMerge.MergeBgpAttributes | harness/extract/fib.py:461-480 | the loop over the routes computes the annotated FIB |
| BgpMerge.MergeTouchesAttributesOnly | harness/extract/fib.py:461-480 | a BGP route takes exactly the three attributes of the path decided for it; other fields, other routes and BGP routes without a path are unchanged |
| BgpMerge.MergeIdempotent | harness/extract/fib.py:437-480 | merging the same table again changes nothing |
| BgpMerge.MergeCommutesWithCanonicalize | harness/extract/fib.py:120-157 | attaching attributes before or after canonicalization gives the same FIB, under every policy |
| FibIndex.IndexRoutes | harness/diff/engine.py:240-256 | the loop that fills the dict computes the last-wins index of the canonical FIBs |
| FibIndex.LastIsBest | harness/extract/fib.py:150-157 | in the sorted canonical FIB the last route for a prefix is the raw FIB's kept route with the greatest protocol label, ties going to the later one |
| FibIndex.IndexClosedForm | harness/diff/engine.py:240-256 | a key is in the index if and only if some FIB carries it, and its route is the canonical form of the winner (greatest label, last among ties) in the last FIB that carries it |
| FibIndex.WinnerUnique | harness/diff/engine.py:251-256 | that winner is one position, so the closed form determines the index |
| FibIndex.StripLeavesNoLoopbackHost | harness/extract/fib.py:150-170 | under STRIP no connected or local /32 on a loopback interface reaches the index |
| Diff.SortKeys | harness/diff/engine.py:149-152 | the key union is listed in strictly increasing (node, VRF, prefix) order, each key once |
| Diff.DiffIndexes | harness/diff/engine.py:145-157 | one record for each key of the union, in strictly increasing order, each with the presence and match bits of the routes held for its key |
| Diff.DiffFibs | harness/diff/engine.py:127-157 | the diff of three lists of FIBs is the diff of their indexes |
| Diff.DiffUnique | harness/diff/engine.py:145-187 | two lists with that description are equal, so it pins the output |
| ComparisonLaws.NextHopsEqualMeans | harness/diff/engine.py:213-217 | strict next-hop equality: each (address, interface) pair of one route is one of the other, and the reverse |
| ComparisonLaws.BgpAttrsEqualMeans | harness/diff/engine.py:220-237 | BGP attributes match if and only if handing AS path, local preference and MED over changes nothing |
| ComparisonLaws.RouteKeyOrderMeans | harness/diff/engine.py:149-149 | keys are listed by node, then VRF, then prefix |
| ComparisonLaws.RecordMeans | harness/diff/engine.py:157-206 | every record's presence names exactly the sources that hold its key, and each side carries its own route and a bit for just those comparisons that can be made, true if and only if the routes meet it |
| Metrics.Collect | harness/diff/metrics.py:156-196 | the counting loop with its two counters computes the simulator's counts |
| Metrics.Aggregate | harness/diff/metrics.py:85-115 | the metrics assembled from the two walks |
| Metrics.CountersAreSets | harness/diff/metrics.py:156-196 | every counter, the per-protocol ones included, is the cardinality of the set of keys whose two routes are related accordingly in the indexes |
| Metrics.PerProtocolSums | harness/diff/metrics.py:156-203 | per-protocol totals add up to present-in-both, per-protocol matches to next-hop matches |
| Metrics.ClassCount | harness/diff/engine.py:190-206 | the records of a presence class are as many as its set-algebra definition has keys |
| Metrics.PresencePartition | harness/diff/engine.py:190-206 | the sizes of the seven classes add up to the key union and to the number of records |
| Metrics.ClassesDisjoint | harness/diff/engine.py:190-206 | each key of the union lies in exactly one of the seven classes |
| Metrics.SimMetricsAreSetRates | harness/diff/metrics.py:199-215 | each published rate of one simulator is a quotient of set sizes (1 over an empty set) and lies in [0, 1]; a vendor protocol has a per-protocol rate if and only if some shared key has it, namely the share of those keys with equal next hops, and no other name has one |
| Metrics.ProtocolRates | harness/diff/metrics.py:199-203 | the per-protocol map holds that rate under that name, for every protocol |
| Metrics.MetricsAreSetRates | harness/diff/metrics.py:85-115 | totals are the index sizes and the rates of both simulators, per-protocol ones included, are the set rates |
| ComparisonLaws.MatchRatesMean | harness/diff/metrics.py:199-215 | each published rate of a simulator is 1 if and only if it carries every vendor key, or the shared keys all have the same next hops, the same protocol, or (where both are BGP) the same attributes |
| Invariance.NextHopOrderInvariance | harness/diff/engine.py:127-187 | permuting the next hops of any routes changes no presence and no match bit of the diff |
| Invariance.RouteOrderInvariance | harness/diff/engine.py:240-256 | permuting routes with distinct (prefix, protocol) within FIBs leaves the index the same |
| Invariance.FibOrderInvariance | harness/diff/engine.py:240-256 | permuting FIBs with distinct (node, canonical VRF) leaves the index the same |
| Reconcile.NextHopsAgreeEquivalence | harness/pipeline.py:1384-1410 | the lenient next-hop relation is reflexive, symmetric and transitive, and strict set equality implies it |
| ComparisonLaws.NextHopsAgreeMeans | harness/pipeline.py:1384-1410 | two routes agree if and only if they carry the same next-hop addresses and, when neither has any, both or neither name an interface; with an address on one side alone they do not |
| Reconcile.PairwiseAgreement | harness/pipeline.py:1999-2036 | the counting loop computes the rates as quotients of set sizes, 1 over nothing |
| ComparisonLaws.AgreementMeans | harness/pipeline.py:1999-2036 | each published agreement is 1 if and only if the two key sets are the same, or every shared key meets that comparison of its two routes; the next-hop one is 0 if and only if there are shared keys and none does |
| ComparisonLaws.CountsMean | harness/pipeline.py:2026-2032 | the shared and the union count together are the routes of both sides, and presence is their quotient, 1 over nothing |
| Reconcile.PairwiseSymmetric | harness/pipeline.py:1999-2036 | agreement does not depend on the order of the arguments |
| Reconcile.JaccardBelowRecall | harness/pipeline.py:2028-2032 | Jaccard presence is at most recall of the truth, empty indexes included |
| Reconcile.PairwiseAgainstEngine | harness/pipeline.py:1999-2036 | for a simulator against the truth: pairwise next-hop rate >= the engine's, protocol and BGP rates equal, presence <= |
| Reconcile.CollectOneSided | harness/pipeline.py:1352-1367 | the scan finds exactly the loopback-like keys that only one side holds |
| Reconcile.ReconcileLoopbackHostRoutes | harness/pipeline.py:1309-1381 | the three policies give the reconciled pair and the count of rows moved |
| ReconcileLaws.MovedIsTheChange | harness/pipeline.py:1343-1381 | the count is exactly what the union loses under STRIP and the intersection gains under MATERIALIZE, and the other of the two stays |
| ReconcileLaws.NoOneSidedSurvivor | harness/pipeline.py:1343-1381 | after STRIP or MATERIALIZE no loopback-like key is one-sided |
| ReconcileLaws.ReconcileTwice | harness/pipeline.py:1309-1381 | a second reconciliation moves no row, under every policy |
| ReconcileLaws.PresenceOrder | harness/pipeline.py:595-611 | on one pair of indexes Jaccard presence satisfies PASSTHROUGH <= STRIP <= MATERIALIZE |
| PolicyPresence.StripIndexesLess | harness/pipeline.py:1241-1256 | STRIP indexes no key that PASSTHROUGH does not |
| PolicyPresence.MaterializeAbovePassthrough | harness/pipeline.py:1002-1014 | for the same FIBs MATERIALIZE publishes at least the presence of PASSTHROUGH |
| PolicyPresence.StripAgainstPassthrough | harness/pipeline.py:1002-1014 | for the same FIBs STRIP does so if and only if it leaves nothing to compare or both sides share no larger a part of the keys it drops than of all keys |
| PolicyPresence.StripAboveWhenNothingSharedIsLost | harness/pipeline.py:1002-1014 | so it does whenever it drops no key that both sides hold |
| PolicyPresence.StripCanPublishLess | harness/pipeline.py:1002-1014 | two FIBs with a shared loopback row for which PASSTHROUGH publishes a third and STRIP 0 |
| ReconcileLaws.StripKeepsAgreement | harness/pipeline.py:1369-1381 | under STRIP the set of agreeing keys is the same for every relation |
| ReconcileLaws.StripKeepsRates | harness/pipeline.py:1369-1381 | so all agreement rates and their denominators are the same |
| ReconcileLaws.MaterializeAddsReflexive | harness/pipeline.py:1369-1381 | under MATERIALIZE the agreeing keys of a reflexive relation grow by exactly the moved keys |
| ReconcileLaws.MaterializeKeepsBgp | harness/pipeline.py:1369-1381 | no mirrored row is BGP, so the BGP rows and their agreement stay |
| ReconcileLaws.MaterializeRates | harness/pipeline.py:1369-1381 | numerator and denominator of the next-hop and protocol rates grow by the moved count, those rates never fall, the BGP rate stays |
| MovedRows.MovedMeans | harness/pipeline.py:1273-1306 | the rows moved are exactly those one side alone holds that are OSPF or IS-IS /32s, or connected or local /32s through a loopback interface |
| MovedRows.ReconciledMeans | harness/pipeline.py:1343-1381 | key by key: STRIP drops the moved rows, MATERIALIZE gives them unchanged to the other side, and every other row stays as it was where it was; the count is that of the moved rows, 0 under PASSTHROUGH |
| ReconcileLaws.StripMovesOnlyIgp | harness/pipeline.py:1241-1306 | on STRIP indexes a row is moved if and only if one side alone holds it and it is an OSPF or IS-IS /32 |
| ReconcileLaws.CountAgreement | harness/pipeline.py:1022-1056 | the loop over the sorted key union counts the same sets as the pairwise computation |
| ReconcileLaws.ComputeSimOnlyAgreement | harness/pipeline.py:1002-1057 | the published numbers are the pairwise ones of the reconciled indexes, with the unreconciled presence beside them and never above |
| ThreeWay.ComputeThreeWay | harness/pipeline.py:1952-1958 | the three agreements are the pairwise ones of simulator and truth, and of the two simulators |
| ThreeWay.ThreeWayTriangle | harness/pipeline.py:1952-1958 | on the keys all three hold, the simulators disagree with each other on next hops, and on protocols, at most as often as both together disagree with the truth |
| ThreeWay.WeightedRatesTriangle | harness/pipeline.py:1952-1958 | for any three indexes: what the published next-hop (and protocol) rate of the two simulators leaves, in keys, is at most what the two rates against the truth leave, plus the keys the simulators share and the truth lacks |
| ThreeWay.RatesTriangle | harness/pipeline.py:1952-1958 | in particular, where all three hold the same keys the published next-hop and protocol rates satisfy the triangle inequality |
| Means.Tangent | harness/aggregate.py:146-162 | the tangent inequality between powers that the comparison of the two means rests on, strict unless the bases are equal |
| Means.GeometricMeanUnique | harness/aggregate.py:146-162 | the positive g with g^n equal to the product is unique |
| Means.GeometricBelowArithmetic | harness/aggregate.py:138-162 | geometric mean <= arithmetic mean for every non-empty list of positive ratios, with equality if and only if all are equal |
| Means.MeansOrdered | harness/aggregate.py:138-162 | both means lie within any bounds of the ratios |
| Means.WeightedMeanBounds | harness/aggregate.py:165-189 | the weighted mean lies within any bounds of the ratios |
| Means.EqualWeights | harness/aggregate.py:165-189 | with equal weights the weighted mean is the arithmetic mean |
| Means.WeightedAboveArithmetic | harness/aggregate.py:165-189 | when weights and ratios are similarly ordered the weighted mean is at least the arithmetic mean |
| Quantile.BetweenNeighbours | harness/aggregate.py:307-327 | the quantile lies between the two order statistics around its position |
| Quantile.QuantileMonotone | harness/aggregate.py:307-327 | the quantile does not fall as q grows, across segment boundaries |
| Quantile.QuantileMonotoneInData | harness/aggregate.py:307-327 | raising samples pointwise does not lower a quantile |
| Quantile.QuantileEnds | harness/aggregate.py:307-327 | the quantile is the first sample at 0 and the last at 1 |
| Quantile.QuantileIsBlended | harness/aggregate.py:307-327 | for every q the quantile is the blend of all samples, each counted by how close it lies to position q (n - 1), 1 on it and 0 from one place away |
| Quantile.MedianIsMiddle | harness/aggregate.py:307-327 | the median is halfway between the two samples in the middle, for every number of samples |
| Quantile.QuantileOfProgression | harness/aggregate.py:307-327 | on evenly spaced samples the quantile is the point q (n - 1) steps along, for every q |
| Quantile.QuantilesOrdered | harness/aggregate.py:256-263 | min <= p25 <= median <= p75 <= max |
| Ratios.WorkloadWeightedMean | harness/aggregate.py:165-189 | the accumulating loop computes the quotient of the weighted sum and the sum of weights over the weighable samples, none if there is none |
| Ratios.ExclusionIsFilter | harness/aggregate.py:281-304 | a sample has no exclusion reason if and only if the reducers' filter takes its ratio |
| Ratios.AuditPartitions | harness/aggregate.py:227-237 | used and excluded samples partition the input, and each list keeps the input's order |
| Ratios.AuditMembers | harness/aggregate.py:227-237 | a sample is used, or excluded with its reason, according to its ratio alone |
| Ratios.UsedIsUsable | harness/aggregate.py:227-266 | the ratios of the used samples, in order, are what the standalone reducers keep of the unfiltered list |
| Ratios.WeighableOfUsed | harness/aggregate.py:165-189 | dropping excluded samples first does not change what the weighted mean weighs |
| Ratios.EqualWeightsMean | harness/aggregate.py:165-189 | if all used samples have one weight, as by default, the weighted mean of the list is its arithmetic mean |
| Ratios.OrderedWeightsMean | harness/aggregate.py:165-189 | if every used sample has a weight and larger weights come with larger ratios, the weighted mean of the list is at least its arithmetic mean |
| Ratios.SummarizeRatios | harness/aggregate.py:192-275 | the loop and the reducers compute the summary |
| Ratios.SummaryIsStandalone | harness/aggregate.py:264-266 | each mean of the summary is the standalone reducer's on the unfiltered list, for all three |
| Ratios.SummaryOrdered | harness/aggregate.py:256-271 | 0 < min <= geometric <= arithmetic <= max, the quantiles in order, the weighted mean in range, and geometric = arithmetic if and only if all used ratios are equal |
| RatioLaws.ReasonMeans | harness/aggregate.py:281-304 | a sample is used if and only if its ratio is a positive finite number, and otherwise has the reason of its kind |
| RatioLaws.SummaryCounts | harness/aggregate.py:227-252 | the summary's totals, its list of used samples and its list of excluded ones: together all samples, told apart by whether the ratio is a positive finite number |
| RatioLaws.ArithmeticMeanBalances | harness/aggregate.py:138-143 | the arithmetic mean of the raw list is the one point about which its positive ratios balance, and there is none if it has none |
| RatioLaws.WeightedMeanBalances | harness/aggregate.py:165-189 | the weighted mean is the one point about which the positive ratios balance under their positive weights, and there is none if no sample has both |
| RatioLaws.SummaryQuantiles | harness/aggregate.py:253-271 | of any ascending arrangement of the used ratios the summary's range is the ends, its median the middle, and its quartiles the blends a quarter and three quarters of the way along |
| RatioOrder.SummaryPermuted | harness/aggregate.py:192-275 | permuting the samples changes no reducer and no count of the summary |
| TrialTimings.PairingIsAdding | harness/pipeline.py:1061-1081 | the paired per-trial mean equals the sum of the two means, so the three branches are one formula |
| TrialTimings.SplitMeans | harness/pipeline.py:1132-1148 | with one tag for each trial the cold figure is that of the first trial tagged cold, and there is a warm one if any is tagged warm; otherwise the first trial counts as cold and there is no warm figure |
| TrialTimings.ColdOnlyOnFirstTopology | harness/pipeline.py:1132-1148 | of a topology's trials on a shared service the cold figure is the first trial's if that was the service's first counted call, and there is none otherwise; the warm mean is that of all other trials |
| TrialTimings.SecondTopologyHasNoCold | harness/pipeline.py:1132-1148 | two topologies on one service: the second has no cold figure |
| SolverRatios.AsymAtLeastFair | harness/pipeline.py:628-676 | the ratio over simulate time alone is at least the headline ratio of the same topology, and equal if and only if Batfish took no time or the rib step took none |
| SolverRatios.RatiosMean | harness/pipeline.py:628-676 | each ratio is published if and only if both sides were timed and its denominator is positive, and times that denominator, simulate time alone or with the rib time, it is what Batfish took |
| SolverRatios.SampleMeans | harness/pipeline.py:2151-2219 | a topology's sample is usable if and only if it has a positive ratio; its weight is its Batfish route count, and 1 without routes |
| RatioMonotone.SortMonotone | harness/aggregate.py:253-254 | sorting keeps a pointwise order of two lists: order statistics are monotone |
| RatioMonotone.ReducersMonotone | harness/aggregate.py:256-275 | raising ratios, weights kept, lowers no reducer of the summary |
| SolverRatios.SummariesOrdered | harness/pipeline.py:2151-2219 | where every timed simulate step took some time, the two summaries use the same topologies and every reducer of the asymmetric one is at least the headline's |
| CorpusMeans.UncoveredCountAsOne | harness/pipeline.py:2104-2247 | a topology with no shared key counts as a full 1 in the plain means |
| CorpusMeans.CoveredMeans | harness/pipeline.py:2106-2106 | a topology is in the covered list, as often as in the corpus, if and only if some key is held by both sides |
| CorpusMeans.NaiveMeanFlatters | harness/pipeline.py:2104-2247 | for each of the three rates the mean over all topologies is at least the mean over the covered ones, with equality if and only if all are covered or the covered mean is 1 |
| FatTree.SubnetAllocator.NextP2p | topologies/_shared/fat_tree.py:39-46 | each call hands out the two hosts of the next /30, or fails once the /10 is used up |
| FatTree.LoopbackAllocator.Next | topologies/_shared/fat_tree.py:49-56 | each call hands out the next address, or fails past the 32-bit space |
| FatTree.TakeLoopbacks | topologies/_shared/fat_tree.py:78-83 | core, agg and edge loopbacks are three consecutive ranges |
| FatTree.WireCores | topologies/_shared/fat_tree.py:89-97 | the first wiring loop gives agg i the high end and its core the low end of /30 number i |
| FatTree.WireEdges | topologies/_shared/fat_tree.py:99-107 | the second wiring loop gives link (agg i, edge e) the /30 number k*half + i*half + e |
| FatTree.GenerateFatTree | topologies/_shared/fat_tree.py:59-107 | the whole generator equals the closed form, and raises exactly the errors of the closed form |
| FatTreeWiring.UpLinkWired | topologies/_shared/fat_tree.py:89-97 | in plain numbers: agg g of a pod and core g*h + pod % h hold the second and the first host of /30 number pod*h + g of 10.128.0.0, each on the interface named |
| FatTreeWiring.DownLinkWired | topologies/_shared/fat_tree.py:99-107 | agg a and edge e of a pod hold the first and the second host of /30 number 2h^2 + (pod*h + a)*h + e, each on the interface named |
| FatTreeWiring.LoopbacksCountUp | topologies/_shared/fat_tree.py:78-83 | loopbacks count up from 10.0.0.1 through cores, aggs and edges |
| FatTreeWiring.FailsHow | topologies/_shared/fat_tree.py:35-83 | the argument is refused if and only if k is odd or below 4; for even k the /30s run out from 162 on, and from 57462 on the loopbacks leave the 32-bit space first |
| FatTreeLaws.LinkAtPort | topologies/_shared/fat_tree.py:89-107 | every position of every link list holds the end of the link that index arithmetic names |
| FatTreeLaws.Degrees | topologies/_shared/fat_tree.py:89-107 | a core has 2 links, an agg 1 + k/2, an edge k/2 |
| FatTreeLaws.PortOfEnd | topologies/_shared/fat_tree.py:89-107 | a port is found back from the link end in it |
| FatTreeLaws.EndOfPort | topologies/_shared/fat_tree.py:89-107 | a link end is found back from the port it is in, so ports and link ends correspond one to one |
| FatTreeLaws.LinkHasTwoEnds | topologies/_shared/fat_tree.py:89-107 | each /30 is on exactly two ports, of two switches, as its two hosts |
| FatTreeLaws.InterfaceAddressesDistinct | topologies/_shared/fat_tree.py:39-46 | no two interfaces share an address |
| FatTreeLaws.SucceedsUpTo160 | topologies/_shared/fat_tree.py:35-107 | generation succeeds if and only if k is even and 4 <= k <= 160 |
| FatTreeLaws.SubnetsDisjointAndInside | topologies/_shared/fat_tree.py:35-46 | for those k all /30s are aligned, disjoint and inside 10.128.0.0/10 |
| FatTreeLaws.LoopbacksDistinctAndInside | topologies/_shared/fat_tree.py:35-83 | for those k all loopbacks are distinct, inside 10.0.0.0/12 and apart from the /30s |
| FatTreeLaws.ConnectedIffSameClass | topologies/_shared/fat_tree.py:91-107 | two switches are joined by a path of links if and only if they agree modulo k/2 (a core by index, an agg or edge by pod) |
| FatTreeLaws.Components | topologies/_shared/fat_tree.py:91-107 | there are k/2 such classes of 5k/2 switches each: the fabric is not connected |
| FatTreeNames.PaddedInjective | topologies/_shared/fat_tree.py:109-129 | zero-padded numbers are distinct for distinct numbers, at any width and past it |
| FatTreeWiring.PaddedMeans | topologies/_shared/fat_tree.py:109-129 | a padded number consists of digits, has its value, and has its width unless it does not fit |
| FatTreeWiring.HostnamesMean | topologies/_shared/fat_tree.py:109-129 | cores are numbered from 1 with four digits, pods and the switches in them from 1 with two |
| FatTreeWiring.FirstNames | topologies/_shared/fat_tree.py:109-129 | the first switch of each layer by its literal name |
| FatTreeNames.HostnamesDistinct | topologies/_shared/fat_tree.py:109-129 | no two switches share a hostname, so no configuration file is overwritten, for every k |
| Convergence.WaitForConvergence | harness/adapters/frr.py:90-127 | returns true if and only if some poll before the deadline ends a 15 s window of equal ok counts, stops at the first such poll, and makes at most timeout_s polls |
| Convergence.ConvergedMeans | harness/adapters/frr.py:97-124 | a poll ends a window if and only if it and two polls before it are ok with one count, only failed polls or that count came in between, and 15 s have passed since the second of them |
| Convergence.ConvergedIsTracked | harness/adapters/frr.py:97-124 | at every poll the two loop variables decide whether that poll ends a window |
| Convergence.ThirdEqualPollConverges | harness/adapters/ceos.py:117-144 | if sleeps last as long as asked, a poll converges if and only if it is at least the third equal ok poll with only failed ones between: the 15 s test never decides |
| Batfish.BatfishService.Start | harness/tools/batfish.py:783-801 | the method takes the state to that of the transition, on every outcome of the launch |
| Batfish.BatfishService.RunOne | harness/tools/batfish.py:820-910 | likewise, its own assertion never fails, and the reply is the transition's |
| Batfish.BatfishService.Close | harness/tools/batfish.py:803-811 | likewise, and no container and no session is left |
| Batfish.RunBatfish | harness/tools/batfish.py:913-947 | whatever fails, the container it was handed is stopped exactly once; stats are returned if and only if launch and work succeed, and are cold with the whole start-up cost |
| Batfish.StepKeepsSound | harness/tools/batfish.py:783-811 | every call keeps: container and session set together, and the runner's log a row of start-stop pairs but for the live one |
| Batfish.OneStopEach | harness/tools/batfish.py:783-811 | in such a log each id was handed out as often as stopped, once more if live |
| Batfish.EveryRunIsSound | harness/tools/batfish.py:783-902 | both hold after every sequence of start, run_one and close with failures at any step |
| BatfishCalls.ContainerIsUp | harness/tools/batfish.py:783-910 | on the calls alone: a container is up if and only if some call brought one up and nothing was closed since, whatever raised in between; it is the one of the earliest such call |
| BatfishCalls.ReplyMeans | harness/tools/batfish.py:783-910 | what each call replies, on the calls alone: it raises if no container is up after its start or its queries fail, and loses or returns its stats as its stats file can be written or not |
| BatfishCalls.GetsThroughMeans | harness/tools/batfish.py:835-910 | a call gets through if and only if it is a run_one whose queries succeed and a container is up after its start |
| BatfishCalls.StatsMean | harness/tools/batfish.py:883-902 | returned stats are warm if and only if an earlier call got through, and cold ones carry the start-up cost of the container that is up |
| BatfishCalls.RunnerLogMeans | harness/tools/batfish.py:783-811 | the runner handed a container out on exactly the starts and run_ones that found none up and got one, and stopped it once unless it is the live one |
| Batfish.OnlyTheFirstIsCold | harness/tools/batfish.py:883-902 | a counted call is cold if and only if it is the first counted one, and a warm one carries no start-up cost |
| Batfish.ColdCostReturnedOnce | harness/tools/batfish.py:883-910 | with one successful start of cost c the returned costs add up to c if and only if c is 0 or the first run_one whose queries succeed, on a container that is up or comes up, also writes its stats file |
| Batfish.CountedIsThrough | harness/tools/batfish.py:835-910 | a call is counted if and only if it is a run_one whose queries succeed on a container that is up or comes up, and returns if it also writes its stats file |
| Batfish.ColdCostCanBeLost | harness/tools/batfish.py:883-910 | a run where that write fails: the next call is warm and the cost is never returned |
| Batfish.ReturnedIsPaid | harness/tools/batfish.py:883-910 | over any lifetime the returned costs add up to the cost of one start, the last before the first run_one that gets through, if that call writes its stats file, and to 0 otherwise |
| Batfish.ColdCostOverAnyLifetime | harness/tools/batfish.py:883-910 | so with any number of starts they add up to the cost of all starts if and only if every other start cost nothing |
| Batfish.SecondContainerIsWarm | harness/tools/batfish.py:883-902 | a run with a close and a second start: the first call on the second container is warm and its start-up cost is returned by no call |
| Memory.HeadroomCoversCaps | harness/memory.py:145-173 | a passed check leaves room for the sum of the caps, and for the product with the multiplier to within one megabyte |
| Memory.HeadroomMeans | harness/memory.py:145-173 | the check refuses a negative cap or a multiplier below 1, and otherwise passes if and only if the host is short of caps times multiplier by less than one megabyte |
| Memory.AssertRecovered | harness/memory.py:176-217 | returns the first reading at or above the threshold unless the clock reached the deadline after an earlier low one, else raises with that one; at most timeout_s + 1 readings |
| Memory.VerdictIsUnique | harness/memory.py:176-217 | the readings and the clock leave one verdict |
| Memory.VerdictMeans | harness/memory.py:176-217 | the poll has recovered if and only if some reading is the first within the slack of the baseline and the clock was short of the deadline after each one before it; that reading is returned |
| RunTopology.StepsInOrder | harness/pipeline.py:224-319 | every run takes its steps in one fixed order and none twice, and the phases of its recorded samples are strictly increasing |
| RunTopology.TakenIff | harness/pipeline.py:224-319 | a step is taken if and only if it is planned and no planned step before it stopped that part of the run |
| RunPlan.TraceIsThePlan | harness/pipeline.py:224-319 | a run takes the steps of a list written out, up to the first that fails, and those of the clean-up in the same way when it cleans up |
| RunPlan.LastStepTaken | harness/pipeline.py:224-319 | the steps taken of a list are a beginning of it, at each of which but the last the run goes on, and the last one stops it or ends the list |
| RunPlan.ErrorMeans | harness/pipeline.py:289-294 | a run has an error if and only if it does not pass, and the error is how the last step of its body ended |
| RunTopology.HooksOfAPassedRun | harness/pipeline.py:261-288 | a run that passes calls exactly the simulators it was given, and computes a diff if and only if there is at least one |
| RunPlan.PassesMeans | harness/pipeline.py:224-294 | a run passes if and only if there is room for the containers and none of the steps it was given fails |
| RunPlan.HeadroomOutcome | harness/pipeline.py:235-239 | a failed headroom check is a memory-guard error, bad arguments are another kind of error |
| RunPlan.RecoveryOutcome | harness/pipeline.py:354-371 | memory has recovered if and only if a reading comes within 500 MB of the first sample before 30 s are over, else the guard raises |
| RunPlan.EscapesWhen | harness/pipeline.py:295-319 | nothing escapes from a clean-up if and only if destroy and listing end well or in a containerlab error, the sample between them is taken and logged, and memory does not recover or does and is logged |
| RunPlan.EscapeMeans | harness/pipeline.py:295-319 | what escapes is how the last step of the clean-up ended |
| RunPlan.NotesMean | harness/pipeline.py:295-371 | the notes of a run that returns: one for each thing that went wrong in its clean-up, none without one |
| RunTopology.DeployIsGuarded | harness/pipeline.py:224-239 | a deploy is attempted only after a passed headroom check, so with room for all caps |
| RunTopology.DestroyFollowsDeploy | harness/pipeline.py:295-300 | a destroy is attempted if and only if a deploy succeeded and the run passed or keep_lab_on_failure is off |
| RunPlan.SampleLaws | harness/pipeline.py:224-371 | every sample has the sum of the caps; the last reports a reading within 500 MB of the first sample and repeats its harness memory, the others report what was measured |
| RunPlan.SampledIff | harness/pipeline.py:224-371 | a phase has a sample if and only if its measurement was taken and succeeded |
| RunTopology.LogIsWhatWasWritten | harness/pipeline.py:332-335 | the lines appended to the log are, in order, the in-memory samples whose append did not fail; the two are equal if and only if none failed |
| RunTopology.LogCanMissASample | harness/pipeline.py:332-335 | a run whose first append fails: one sample is kept in memory and no line is written |
| RunTopology.RecoveryDoesNotDecide | harness/pipeline.py:338-371 | memory that does not recover is noted and nothing escapes; the status is failed if and only if a planned step of the body stops the run, so never when the lab is kept on failure |
| RunTopology.PassesWithoutRecovery | harness/pipeline.py:338-371 | a run in which every other step is fine and memory stays low: it passes, with that note alone |
| RunTopology.TopologyRunResult.RecordSample | harness/pipeline.py:332-335 | the sample is kept in memory before its line is appended, also when the append fails |
| RunTopology.RunBody | harness/pipeline.py:224-294 | the try block takes the planned steps up to the first that raises, and says whether a lab came up |
| RunTopology.CleanUp | harness/pipeline.py:295-319 | the finally block: which step failures become notes and which escape |
| RunTopology.VerifyRecovery | harness/pipeline.py:338-371 | a recovery timeout is noted and nothing is recorded; a recovered reading is recorded; other failures, a reading that raises among them, escape |
| RunTopology.RunTopology | harness/pipeline.py:174-321 | for every environment: the steps taken, the status, the samples and the log are those of the specification; the error is the outcome of the first planned body step that stops the run, what escapes that of the first clean-up step that does unless memory did not recover, the notes are those made, each once, in order; and a destroy was attempted if and only if the deploy succeeded and the run passed or is not to keep its lab |
| Cumulus.OpensHasName | harness/tools/batfish.py:619-620 | on a line that opens a block the split index exists and the name is not empty |
| Cumulus.AddressIsThere | harness/tools/batfish.py:622-623 | on an address line the split index exists and what follows is not empty |
| Cumulus.AddressIsNotEmpty | harness/tools/batfish.py:623-625 | so the test for an empty address always passes |
| Cumulus.CurrentIsLastOpened | harness/tools/batfish.py:616-627 | the open block is the last one opened that no line since has closed |
| CumulusLines.FirstLineThen | harness/tools/batfish.py:617-617 | a body is its first line and then the lines after the break, a carriage return and a newline being one break |
| CumulusLines.SpacesMean | harness/tools/batfish.py:617-618 | what counts as a blank: the line breaks, and the other characters listed |
| CumulusLines.OpensMeans | harness/tools/batfish.py:619-620 | a line opens the block of a name if and only if it does not start with a space and says `interface`, a space and that bare name between blanks |
| CumulusLines.AddressMeans | harness/tools/batfish.py:622-625 | a line gives an address if and only if it says `ip address`, a space and that bare text between blanks |
| CumulusLines.ClosesMeans | harness/tools/batfish.py:626-627 | any other line closes the block if and only if it does not start with a space and its first character that is no blank exists and is not `!` |
| Cumulus.Scan | harness/tools/batfish.py:615-627 | the line loop computes, for each name opened, the addresses of its blocks in file order, repeated blocks merged |
| CumulusLines.NamesMean | harness/tools/batfish.py:616-621 | the interfaces found are exactly those some line opens, each early one before a later one |
| CumulusLines.AddressesMean | harness/tools/batfish.py:622-625 | the addresses of an interface grow by one at exactly the address lines that the lines before leave in its block, in file order |
| CumulusEnvelope.WrapFrr | harness/tools/batfish.py:629-652 | the printer's loops give the text of the envelope |
| CumulusLines.EnvelopeOfOne | harness/tools/batfish.py:615-652 | the whole text of the envelope of a body with one interface and one address, for every name and address |
| CumulusLines.NeedsVersionMeans | harness/tools/batfish.py:648-650 | a version line is added if and only if none of the first three lines is one |
| CumulusLines.NewlinesStripped | harness/tools/batfish.py:651-651 | all newlines at the end of the body are dropped and nothing else is |
| CumulusLines.IfaceOrderMeans | harness/tools/batfish.py:632-633 | stanzas are ordered by name, but for `lo`, which is first |
| CumulusLaws.RoundTrip | harness/tools/batfish.py:615-652 | a reader of the envelope gets the body below its delimiter back always, and the interface map if and only if no interface is named `lo inet loopback` |
| CumulusLaws.LoopbackNameIsLost | harness/tools/batfish.py:635-639 | a body with such an interface, whose map is not read back |
| CumulusLaws.StanzaOrder | harness/tools/batfish.py:633-642 | each interface has one stanza, `lo` first and the others by name |
| CumulusLaws.TailFindsTheSame | harness/tools/batfish.py:615-651 | scanning the printed tail finds what scanning the body finds: trailing newlines and the added version line do not matter |
| CumulusLaws.SameEnvelope | harness/tools/batfish.py:615-652 | two bodies get one envelope if and only if their printed tails are the same |
| CumulusLaws.SameKindOfBody | harness/tools/batfish.py:645-651 | for bodies that both have, or both lack, a version line near the top: if and only if they differ in trailing newlines alone |
| CumulusLaws.DefaultVersionIsNotSeen | harness/tools/batfish.py:645-651 | a body without a version line shares its envelope with the same body below the default one |
| Coverage.DegradedMeans | harness/pipeline.py:1510-1546 | degraded is true if and only if some trial is, false if and only if there are trials and all are complete, and agrees with the count |
| Coverage.StatusMeans | harness/pipeline.py:1528-1537 | the status word is that of the first degraded trial, `degraded` if it gave none, or that of the last trial if all are complete |
| Coverage.BlockersMean | harness/pipeline.py:1538-1539 | the blockers are those any trial recorded, each once, and there is no list if no trial recorded one |
| Coverage.DistinctInOrder | harness/pipeline.py:1539-1539 | they stand in the order in which they first occur |
| Coverage.DegradedCount | harness/pipeline.py:1528-1544 | the count of degraded trials is the number of positions with a degraded verdict |
| Coverage.DistinctOfDistinct | harness/pipeline.py:1538-1539 | the first-occurrence union of blockers may be taken batch by batch |
| Coverage.RollUpConcat | harness/pipeline.py:1510-1546 | the roll-up of two non-empty batches is the combination of their roll-ups, in every field |
| Coverage.CorpusPartition | harness/pipeline.py:2039-2070 | complete, degraded and unknown topologies add up to all of them, and the degraded list has its count |
| Coverage.WithVerdictCount | harness/pipeline.py:2051-2061 | each count has a topology as often as the corpus does if the verdict is its own, and not otherwise |
| Coverage.EntriesMean | harness/pipeline.py:2061-2069 | the list's entries are exactly those that repeat the name, status, blockers and trial counts of a degraded topology |
| Coverage.DegradedAreListed | harness/pipeline.py:2051-2069 | a topology with a degraded trial is in the list, and each entry stands for at least one |

## Left out

- Ratios.SummarizeRatios: the geometric mean's value comes from `exp` and `log`; it is an argument that must be the positive n-th root of the product, which is shown to be unique, not to exist.
- Floating point rounding: sums, quotients and quantiles are exact reals, so results are those of the formulas, not of IEEE arithmetic.
- Convergence.WaitForConvergence: the environment must sleep at least a second per round; how a query result becomes "failed", "not ok" or a count is an input.
- Batfish.BatfishService.RunOne: the memory sampler, the timings other than the start-up cost, and exceptions that are not `Exception` (an interrupt between two assignments) are not modelled.
- RunTopology.RunTopology: the result's file paths, timestamps and coverage fields are not modelled; the waits, extractions and hooks are single steps with an outcome.
- RunTopology.VerifyRecovery: a memory reading that raises is one outcome of the whole poll, so the model does not say at which reading it raises.
- Cumulus.Scan: characters are Unicode scalar values; lone surrogates are not modelled.
- Fib.CanonicalizeIdempotent: `str.lower` is the ASCII one; outside ASCII U+0130 and U+212A lower to text with an ASCII `i` or `k`, which no comparison here depends on.
- TrialTimings.ColdOnlyOnFirstTopology: the trials are calls that returned; a call that raises ends the topology before any figure is computed.
- Reconcile.ReconcileLoopbackHostRoutes: dictionary insertion order is not modelled; the harness sorts keys before it uses them.
- Docker, containerlab, vtysh, the EOS CLI, pybatfish and the Hammerhead binary: foreign calls whose outcomes are inputs.
- Rendering, file reading and writing, JSON and pydantic parsing, CLI options and reports: plumbing without a property of this depth.
- Vendor protocol label tables and entry parsers (`_parse_*_entry`, `_map_batfish_protocol`): lookups; the model starts from typed routes, and from parsed paths in `BgpMerge`.
- `_merge_bgp_attrs` of the Batfish adapter: a join like that of `merge_bgp_attributes`, but keyed by node as well, taking the last BEST row instead of the first best path of the last entry, and writing communities too.
- `aggregate_many`, and the means over covered topologies of complete coverage, the peak-memory and total fields of `aggregate_sim_only`: plain means of rates already shown to lie in [0, 1], maxima and sums.
- Router configuration text of the fat-tree (`_eos_config`, `_frr_config`): string building from the link lists modelled here.
- `spine_leaf.py` and the hand-written topologies: simple grids and literal data.
- The convergence of BGP, OSPF and IS-IS itself: performed by the programs under test, not by this repository.
