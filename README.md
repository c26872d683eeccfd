# bact-mdr-profiler core, modelled in Dafny

bact-mdr-profiler turns per-drug antimicrobial susceptibility results of bacterial isolates
into antibiotic-class calls, and then classifies and explains multi-drug resistance (MDR)
without treating an untested drug as susceptible. This project models the core of that
pipeline and proves what it promises:

- **Class calls and MDR** (`classification.dfy`, module `Classification`):
  - the three NA-aware class rules ("any", "all", "majority") of `build_class_matrix`;
  - `identify_mdr`, the MDR/XDR/PDR spectrum and the Jeffreys-prior prevalence table;
  - the convolution that `mdr_probability` uses for MDR under missing calls.
- **The reference probability** (`bernoulli.dfy`, module `Bernoulli`): the chance that at least
  k of a set of independent trials succeed. Both missing-data calculations are proved
  against it.
- **Decision support** (`decision.dfy`, module `DecisionV3`):
  - the 2^m outcome enumeration of `_posterior_mdr_prob`;
  - the value-of-information ranking of `next_best_test_evpi`;
  - the Shapley attribution of `shapley_pattern_contributions`.
- **Causal discovery** (`discovery.dfy` and `counter.dfy`, modules `Discovery` and `Counter`):
  - the conditional-independence decision rule and the Cochran–Mantel–Haenszel accumulation;
  - the PC skeleton search, with phase-wise edge removal and separating sets;
  - collider orientation, and the census of connected motifs.
- **Resistance hypergraph** (`hypergraph.dfy` and `interaction.dfy`, modules `Hypergraph` and
  `Interaction`):
  - the extraction of resistance patterns as hyperedges;
  - the centrality of each class;
  - the interaction information (co-information) of class subsets.
- **Configuration** (`config.dfy`, module `Config`):
  - the recursive filter that drops undeclared keys and reports their paths;
  - the PASS/WARN/FAIL decision of loading a configuration, strict or not.

Shared pieces:

- `wrappers.dfy`: `Option` and `Result`.
- `combinatorics.dfy`: `itertools.combinations` in its emission order, binomials and
  factorials.
- `ordering.dfy`:
  - a sort by any total preorder, proved sorted and a permutation, which stands for pandas
    `sort_values`;
  - the code-point order on strings;
  - `sorted(set(...))`.

Table cells are `Option<bool>`: `None` is NA, `Some(true)` resistant, `Some(false)` susceptible.
Statistical library calls (p-values, the entropy of a column set, the Beta quantile) are
parameters of the model, not computed. Real numbers are exact.

Where the code and its documentation differ, the model follows the code:

- The docstring of `build_class_matrix` describes the "all" rule as "1 only if all tested drugs
  are resistant". The code (`src/bactmdrprofiler/mdr/classification.py:124`) also requires that
  every drug was tested, and the model does the same. So `[susceptible, untested]` gives NA
  under "all", although every completion would be susceptible (`Classification.AllNaWhenDecided`).
- The docstring of `build_class_matrix` (`src/bactmdrprofiler/mdr/classification.py:74-76`) promises NA whenever the untested drugs could change the call. The "majority" rule counts only tested drugs, so `[resistant, untested, untested]` is called resistant, although its completion `[resistant, susceptible, susceptible]` is susceptible (`Classification.MajorityPositiveOverturned`).
- The `identify_mdr` docstring says False means "max_resistant < threshold". The code's three
  masked assignments give exactly that, and `Classification.MdrCallMeaning` proves it for all
  inputs.

## Model

| member | source | states |
|---|---|---|
| Classification.CountPartition | src/bactmdrprofiler/mdr/classification.py:107-109 | the resistant, susceptible and NA counts of a row add up to its number of cells |
| Classification.ToBinary | src/bactmdrprofiler/mdr/classification.py:29-30 | a number is resistant iff it is > 0 and susceptible iff it is ≤ 0; an empty cell stays NA |
| Classification.ParseRule | src/bactmdrprofiler/mdr/classification.py:90-94 | the rule is accepted iff it is "any", "all" or "majority", and each name selects its own rule |
| Classification.AnyRule | src/bactmdrprofiler/mdr/classification.py:114-119 | "any" calls resistant iff some drug is resistant, and susceptible iff every drug was tested susceptible |
| Classification.AllRule | src/bactmdrprofiler/mdr/classification.py:121-127 | "all": resistant iff every drug was tested resistant; susceptible iff none is untested and one is susceptible; NA iff some drug is untested |
| Classification.MajorityRule | src/bactmdrprofiler/mdr/classification.py:130-135 | "majority": resistant iff more than half of the tested drugs are resistant; susceptible iff all were tested and at most half are resistant |
| Classification.RulesNested | src/bactmdrprofiler/mdr/classification.py:69-72 | a resistant call under "all" is resistant under "majority", and one under "majority" is resistant under "any"; susceptible calls nest the other way |
| Classification.AnyCallSound | src/bactmdrprofiler/mdr/classification.py:74-76 | a definite "any" call is unchanged by every way of filling in the untested drugs |
| Classification.AnyNaUndecided | src/bactmdrprofiler/mdr/classification.py:74-76 | an "any" NA is open: one completion is called resistant, another susceptible |
| Classification.AllCallSound | src/bactmdrprofiler/mdr/classification.py:74-76 | a definite "all" call is unchanged by every completion |
| Classification.AllNaWhenDecided | src/bactmdrprofiler/mdr/classification.py:124-127 | "all" answers NA for [susceptible, untested] although every completion is susceptible |
| Classification.MajorityNegativeSound | src/bactmdrprofiler/mdr/classification.py:133-135 | a "majority" susceptible call is unchanged by every completion |
| Classification.MajorityPositiveOverturned | src/bactmdrprofiler/mdr/classification.py:132 | a "majority" resistant call counts only tested drugs: [R, NA, NA] is resistant, but its completion [R, S, S] is susceptible |
| Classification.PresentMeaning | src/bactmdrprofiler/mdr/classification.py:100 | a drug is kept iff it is listed for the class and is a column of the table |
| Classification.MatchedMeaning | src/bactmdrprofiler/mdr/classification.py:99-102 | a class gets a column iff at least one of its drugs is a column, and that column aggregates exactly those drugs |
| Classification.MatchedNamesDistinct | src/bactmdrprofiler/mdr/classification.py:99-137 | the matrix's class columns never repeat, and each comes from the class map |
| Classification.AggregateClasses | src/bactmdrprofiler/mdr/classification.py:99-137 | the loop yields one column per matched class, in class-map order, and every cell is the rule applied to that isolate's calls |
| Classification.BuildClassMatrix | src/bactmdrprofiler/mdr/classification.py:41-139 | an error iff the rule is unknown; otherwise every isolate is kept, the class columns are distinct, and each cell is the class rule applied to that isolate's calls on the class's present drugs |
| Classification.MdrCallMeaning | src/bactmdrprofiler/mdr/classification.py:150-157 | True iff at least threshold classes are known resistant; False iff even every missing class resistant stays below threshold |
| Classification.MdrCallSound | src/bactmdrprofiler/mdr/classification.py:142-149 | a definite MDR call agrees with every completion of the missing class calls |
| Classification.MdrCallNaUndecided | src/bactmdrprofiler/mdr/classification.py:148-157 | an NA is open: filling the gaps with resistant makes the isolate MDR, filling them with susceptible does not |
| Classification.IdentifyMdr | src/bactmdrprofiler/mdr/classification.py:142-158 | one call per isolate: True iff min_res ≥ threshold, False iff min_res + n_missing < threshold |
| Classification.CategorizeMonotone | src/bactmdrprofiler/mdr/classification.py:168-175 | more resistant classes never give a lower category (susceptible < MDR < XDR < PDR) |
| Classification.MdrSpectrum | src/bactmdrprofiler/mdr/classification.py:161-191 | per isolate: min = known resistant, missing = NA count, min ≤ max = min + missing ≤ total classes, and the definite category never exceeds the possible one |
| Classification.SpectrumAgreesWithMdr | src/bactmdrprofiler/mdr/classification.py:150-178 | a definitely MDR isolate is never definitely susceptible, and a possibly-susceptible isolate is definitely not MDR |
| Classification.XdrWithoutMdr | src/bactmdrprofiler/mdr/classification.py:168-175 | with four classes and threshold 3, two resistant classes are categorised XDR while identify_mdr says not MDR |
| Classification.BayesianPrevalence | src/bactmdrprofiler/mdr/classification.py:202-213 | no estimate (NaN) iff total ≤ 0 |
| Classification.PosteriorMeanShrinks | src/bactmdrprofiler/mdr/classification.py:210-212 | the posterior mean is the weighted average of the prior mean and the observed proportion, with weight (a+b)/(a+b+n) on the prior, and lies strictly inside (0, 1) |
| Classification.PosteriorModeInUnit | src/bactmdrprofiler/mdr/classification.py:213 | the reported mode lies strictly inside (0, 1) |
| Classification.PrevalenceTable | src/bactmdrprofiler/mdr/classification.py:224-243 | one row per class, with positive ≤ observed ≤ all and the missing count; the posterior is absent iff nothing was observed and its mean is in (0, 1) otherwise |
| Classification.ClassPrior | src/bactmdrprofiler/mdr/classification.py:249-251 | p_class is a probability (the mean over tested isolates, 0 when none) |
| Classification.MissingPriors | src/bactmdrprofiler/mdr/classification.py:258-259 | the priors of an isolate's missing classes are probabilities, one per NA cell |
| Classification.TailConv | src/bactmdrprofiler/mdr/classification.py:262-263 | one convolution with [1-p, p] conditions the tail on the new trial |
| Classification.TailIsAtLeast | src/bactmdrprofiler/mdr/classification.py:261-271 | the tail of the convolved distribution is the probability that at least `need` trials succeed |
| Classification.Convolve | src/bactmdrprofiler/mdr/classification.py:261-263 | the loop builds the distribution whose every tail is that probability |
| Classification.DistIsDistribution | src/bactmdrprofiler/mdr/classification.py:261-263 | entry k of the convolved distribution is the probability of exactly k successes, the entries add up to 1, and for probabilities none is negative |
| Classification.ClampedTail | src/bactmdrprofiler/mdr/classification.py:265-271 | clamping `need` at 0, and returning 0.0 beyond the distribution, gives the same tail as the unclamped sum |
| Classification.IsolateBounds | src/bactmdrprofiler/mdr/classification.py:265-271 | the three tails are probabilities with P(PDR) ≤ P(XDR); P(MDR) is 1 when identify_mdr says True and 0 when it says False |
| Classification.IsolateMdrProbability | src/bactmdrprofiler/mdr/classification.py:257-281 | one isolate's row: its counts, and P_MDR, P_XDR and P_PDR as the reference tails, with the bounds above |
| Classification.MdrProbability | src/bactmdrprofiler/mdr/classification.py:246-283 | one row per isolate, each as above |
| Bernoulli.AtLeastBounds | src/bactmdrprofiler/mdr/classification.py:261-271 | the probability of at least k successes lies in [0, 1] |
| Bernoulli.AtLeastCertain | src/bactmdrprofiler/mdr/decision_v3.py:8 | needing no success is certain |
| Bernoulli.AtLeastImpossible | src/bactmdrprofiler/mdr/decision_v3.py:9 | needing more successes than there are trials is impossible |
| Bernoulli.AtLeastAntitoneFar | src/bactmdrprofiler/mdr/classification.py:265-271 | needing more successes never makes them likelier |
| Bernoulli.AtLeastCondition | src/bactmdrprofiler/mdr/decision_v3.py:34-40 | law of total probability: conditioning on any one trial, not just the last |
| DecisionV3.Clamp01 | src/bactmdrprofiler/mdr/decision_v3.py:18 | the clamp lies in [0, 1] and leaves a probability unchanged |
| DecisionV3.MaskSumIsAtLeast | src/bactmdrprofiler/mdr/decision_v3.py:10-17 | summing the probability of every outcome mask that reaches the threshold gives the probability of at least that many successes |
| DecisionV3.OutcomesSumToOne | src/bactmdrprofiler/mdr/decision_v3.py:11-16 | the 2^m outcome weights sum to 1 |
| DecisionV3.Outcome | src/bactmdrprofiler/mdr/decision_v3.py:12-16 | the inner loop gives kk = known_pos + the bits set in the mask, and pr = the mask's probability |
| DecisionV3.PosteriorMdrProb | src/bactmdrprofiler/mdr/decision_v3.py:6-18 | the method computes the posterior: 1 if already MDR, 0 if MDR is unreachable, else the clamped mask sum |
| DecisionV3.PosteriorCertain | src/bactmdrprofiler/mdr/decision_v3.py:8 | known_pos ≥ threshold gives 1 |
| DecisionV3.PosteriorImpossible | src/bactmdrprofiler/mdr/decision_v3.py:9 | known_pos + len(missing) < threshold gives 0 |
| DecisionV3.PosteriorValue | src/bactmdrprofiler/mdr/decision_v3.py:6-18 | with probabilities as priors the result is the probability that at least threshold − known_pos missing classes are resistant |
| DecisionV3.PosteriorTotalProbability | src/bactmdrprofiler/mdr/decision_v3.py:35-40 | the posterior is the prior-weighted mixture of the posteriors with class c called resistant and susceptible |
| DecisionV3.RiskConcave | src/bactmdrprofiler/mdr/decision_v3.py:33-41 | the Bayes risk is concave, so the expected risk after a test never exceeds the current risk |
| DecisionV3.PrevalenceMapMeaning | src/bactmdrprofiler/mdr/decision_v3.py:22 | every prior is a probability: the column mean, or 0.5 for an untested class |
| DecisionV3.CostFor | src/bactmdrprofiler/mdr/decision_v3.py:22-27 | every cost is at least 1e-9 |
| DecisionV3.CostDefault | src/bactmdrprofiler/mdr/decision_v3.py:22 | a class without a parseable override costs 1.0 |
| DecisionV3.TestCosts | src/bactmdrprofiler/mdr/decision_v3.py:22-27 | one cost per class; overrides of unknown classes are ignored |
| DecisionV3.CandidateMeaning | src/bactmdrprofiler/mdr/decision_v3.py:32-42 | Current_pMDR is a probability and equals the prevalence-weighted mixture of the posteriors with the class called resistant and susceptible; EVPI is exactly the drop in Bayes risk, never negative, so the max with 0 never applies; EVPI_per_Cost ≥ 0; Current_Uncertain is 1 iff 0 < pMDR < 1; N_tested + missing = number of classes |
| DecisionV3.IsolateRows | src/bactmdrprofiler/mdr/decision_v3.py:30-34 | an isolate has exactly one row per missing class |
| DecisionV3.IsolateRowsMeaning | src/bactmdrprofiler/mdr/decision_v3.py:30-42 | every row of an isolate carries its id, tests a class whose cell is NA, costs that class's cost, and reports EVPI and pMDR as above |
| DecisionV3.EvpiOrderIsTotalPreorder | src/bactmdrprofiler/mdr/decision_v3.py:44 | Strain_ID ascending, then EVPI_per_Cost descending, then EVPI descending, is a total preorder |
| DecisionV3.IsolateCandidates | src/bactmdrprofiler/mdr/decision_v3.py:29-42 | the per-isolate loop produces exactly that isolate's rows |
| DecisionV3.CollectCandidates | src/bactmdrprofiler/mdr/decision_v3.py:28-42 | the loop over isolates produces every isolate's rows, in order |
| DecisionV3.NextBestTestEvpi | src/bactmdrprofiler/mdr/decision_v3.py:20-44 | the output is a permutation of all candidate rows, sorted by the EVPI order, and empty for an empty table; the three-key sort is stable, so rows that tie on Strain_ID, EVPI_per_Cost and EVPI keep their candidate order (isolate order, then class-column order) |
| DecisionV3.NoClassesNoCandidates | src/bactmdrprofiler/mdr/decision_v3.py:21-31 | no classes or no isolates give no rows |
| DecisionV3.CandidatesPerMissingCell | src/bactmdrprofiler/mdr/decision_v3.py:29-34 | exactly one candidate row per NA cell |
| DecisionV3.PosteriorAgreesWithMdrProbability | src/bactmdrprofiler/mdr/decision_v3.py:6-18 | when every class was tested somewhere, the posterior equals mdr_probability's P_MDR for the same isolate |
| DecisionV3.ShapWeight | src/bactmdrprofiler/mdr/decision_v3.py:61 | r!(n−r−1)!/n! is positive |
| DecisionV3.LayerWeight | src/bactmdrprofiler/mdr/decision_v3.py:58-61 | the C(n−1, r) coalitions of size r weigh 1/n together |
| DecisionV3.ShapleyBounds | src/bactmdrprofiler/mdr/decision_v3.py:56-61 | each feature's Shapley value lies in [0, 1] |
| DecisionV3.ShapleyNull | src/bactmdrprofiler/mdr/decision_v3.py:56-61 | a class of prevalence 0 contributes nothing (null player) |
| DecisionV3.AddCoalitions | src/bactmdrprofiler/mdr/decision_v3.py:59-61 | the innermost loop adds the weighted marginal contribution of every coalition of size r |
| DecisionV3.ShapleyFor | src/bactmdrprofiler/mdr/decision_v3.py:57-61 | the loops for one feature compute its Shapley value |
| DecisionV3.FeatureRows | src/bactmdrprofiler/mdr/decision_v3.py:56-62 | one row per feature, in the order of the features |
| DecisionV3.Ranked | src/bactmdrprofiler/mdr/decision_v3.py:53 | the classes, as a permutation sorted by mean prevalence descending (untested last) |
| DecisionV3.HeadCount | src/bactmdrprofiler/mdr/decision_v3.py:53 | head keeps at most the available classes |
| DecisionV3.FeaturesMeaning | src/bactmdrprofiler/mdr/decision_v3.py:53 | the features are distinct classes, as many as top_n allows, and every class left out is no more prevalent than every feature |
| DecisionV3.ShapleyRowAt | src/bactmdrprofiler/mdr/decision_v3.py:55-62 | the j-th row names the j-th feature with its prevalence (0.5 if untested) and its Shapley value |
| DecisionV3.ShapleyRowsMeaning | src/bactmdrprofiler/mdr/decision_v3.py:52-62 | one row per feature, in feature order, never more than the classes; each contribution is in [0, 1] and 0 for a class of prevalence 0 |
| DecisionV3.ShapleyAsCoalitions | src/bactmdrprofiler/mdr/decision_v3.py:56-61 | the loops over sizes and combinations weigh each coalition of the other features exactly once: the Shapley value is the sum over all coalitions S of w(|S|) (v(S ∪ {f}) − v(S)) |
| DecisionV3.WeightBalance | src/bactmdrprofiler/mdr/decision_v3.py:61 | u · w(u − 1) = (n − u) · w(u) for 0 < u < n, so the weights with which a coalition is joined and left cancel |
| DecisionV3.GainsBalance | src/bactmdrprofiler/mdr/decision_v3.py:56-61 | summed over all features, the marginal contributions count each coalition's value with coefficient u · w(u − 1) − (n − u) · w(u) |
| DecisionV3.PhiTotalPermutation | src/bactmdrprofiler/mdr/decision_v3.py:63 | sorting the rows keeps the total of the contributions |
| DecisionV3.ShapleyEfficiency | src/bactmdrprofiler/mdr/decision_v3.py:52-62 | efficiency: the features' Shapley values add up to v(all features) − v(no feature) |
| DecisionV3.ShapleyPatternContributions | src/bactmdrprofiler/mdr/decision_v3.py:52-63 | the output is a permutation of those rows, sorted by contribution descending, and its contributions add up to v(all features) − v(no feature) |
| Discovery.DenSumSign | src/bactmdrprofiler/causal/discovery.py:66-76 | the pooled CMH variance is never negative, and is positive iff some stratum is a 2 × 2 table of at least two isolates with all four margins non-empty |
| Discovery.CmhSums | src/bactmdrprofiler/causal/discovery.py:66-74 | the stratum loop accumulates the CMH numerator and variance over exactly the strata that are 2 × 2 with at least two isolates |
| Discovery.CiTest | src/bactmdrprofiler/causal/discovery.py:45-79 | independent iff p > alpha or the stratified variance vanishes, the latter with p = 1 at any alpha; unconditionally p is Fisher's when an expected count is below 5, chi-squared otherwise, 1 when chi-squared raises on a table that is not 2 × 2; stratified p is the chi-squared tail at the CMH statistic; no informative stratum gives independence with p = 1; the pair returned is CiDecision's |
| Discovery.CiDecision | src/bactmdrprofiler/causal/discovery.py:45-79 | the (independent, p) answer the PC search consumes: independent whenever p > alpha, and unconditionally only then; independent with p ≤ alpha only for a stratified test with no informative stratum, which answers (True, 1.0) at every alpha, 1 included |
| Discovery.Tabulate | src/bactmdrprofiler/causal/discovery.py:68-69 | a crosstab is 2 × 2 iff both columns take both values |
| Discovery.Neighbors | src/bactmdrprofiler/causal/discovery.py:133 | exactly the nodes adjacent to x |
| Discovery.Pool | src/bactmdrprofiler/causal/discovery.py:133 | every pool member is a neighbour of an endpoint; with the endpoints excluded, neither endpoint is in it |
| Discovery.EdgeList | src/bactmdrprofiler/causal/discovery.py:132 | exactly the current edges, in the order the complete graph was built, without repeats |
| Discovery.FirstSeparating | src/bactmdrprofiler/causal/discovery.py:135-143 | the search stops at the first conditioning set that tests independent, every earlier set tests dependent, and no result means every set tests dependent |
| Discovery.SeparableExactly | src/bactmdrprofiler/causal/discovery.py:134-143 | the search finds a set iff some pool subset of that size separates the pair |
| Discovery.TestEdge | src/bactmdrprofiler/causal/discovery.py:133-148 | a separating set is returned iff one exists, with a removal row; an edge kept at size 0 gets one row with its unconditional p and Cond_Size −1; an edge kept at a later size gets none |
| Discovery.RemoveEdges | src/bactmdrprofiler/causal/discovery.py:149-150 | the graph loses exactly the listed edges, in both orientations |
| Discovery.ScanEdges | src/bactmdrprofiler/causal/discovery.py:132-148 | the edges marked for removal are exactly those separable in the graph at the start of the phase, listed without repeats; their sets are recorded under both orientations; at size 0 there is one row per edge tested, otherwise the rows are the removal rows of the marked edges, position by position, each naming the stored set of that size under which its edge tests independent |
| Discovery.RemovalPhase | src/bactmdrprofiler/causal/discovery.py:130-150 | one phase leaves exactly the edges no set of that size separates; each removed edge's separating set is stored under both orientations and every other stored set is unchanged; at size 0 the rows are one per edge tested; at a larger size the rows are the removal rows of the removed edges in order of removal, one per edge, the i-th naming the i-th removed edge and its stored set |
| Discovery.RemovalPhases | src/bactmdrprofiler/causal/discovery.py:130-150 | after every phase the graph and the separating sets are those of the phase-by-phase specification; the detail rows are one per pair for size 0, then, position by position, the removal rows of a repeat-free list of exactly the pairs removed since |
| Discovery.SkeletonShrinks | src/bactmdrprofiler/causal/discovery.py:130-150 | a later phase never adds an edge back |
| Discovery.SepRecordSymmetric | src/bactmdrprofiler/causal/discovery.py:139 | the separating set of (u, v) is that of (v, u) |
| Discovery.HitSound | src/bactmdrprofiler/causal/discovery.py:157-162 | a non-adjacent pair of neighbours of k whose separating set lacks k makes k a collider: its arcs out of k are dropped |
| Discovery.HitComplete | src/bactmdrprofiler/causal/discovery.py:157-162 | every v-structure x − k − y is among the pairs the loop examines |
| Discovery.OrientAt | src/bactmdrprofiler/causal/discovery.py:158-162 | the pass for centre k removes exactly the arcs from k to the ends of its v-structures |
| Discovery.Orient | src/bactmdrprofiler/causal/discovery.py:153-162 | the directed graph holds both arcs of every skeleton edge, less the arcs from the centre of each v-structure to its ends |
| Discovery.PcSkeleton | src/bactmdrprofiler/causal/discovery.py:84-164 | the skeleton is the phase-by-phase specification; the arcs are its partial orientation; separating sets are stored for exactly the removed pairs, in both orientations, each no larger than max_cond and separating its pair in the graph of its phase; max_cond < 0 runs no test and keeps the complete graph; otherwise the details are one row per pair at size 0, then the removal rows of a repeat-free list of exactly the pairs removed in later phases, the i-th row naming the i-th pair and its stored set |
| Discovery.EndpointInConditioningSet | src/bactmdrprofiler/causal/discovery.py:65-76 | when the conditioning set holds an endpoint, that endpoint is constant within each stratum, so no stratum is informative |
| Discovery.TestedEndpointBlind | src/bactmdrprofiler/causal/discovery.py:45-79 | an oracle that answers as _ci_test on the data, where grouping by a set holding the second endpoint leaves no informative stratum, answers (True, 1.0) for every such set, at any alpha |
| Discovery.AsWrittenEmptiesSkeleton | src/bactmdrprofiler/causal/discovery.py:133-150 | with the pool as written and an oracle that answers (True, 1.0) whenever the set holds the second endpoint, as _ci_test does at any alpha, max_cond ≥ 1 leaves no edge at all |
| Discovery.DependentPairSurvives | src/bactmdrprofiler/causal/discovery.py:133-150 | with the endpoints excluded from the pool, a pair dependent under every conditioning set without its endpoints stays in the skeleton |
| Discovery.IsConnected | src/bactmdrprofiler/causal/discovery.py:179 | an error for the empty subgraph (networkx refuses the null graph); otherwise true iff the induced subgraph is connected |
| Discovery.ReachConnected | src/bactmdrprofiler/causal/discovery.py:179 | the search visits every node iff the induced subgraph is connected |
| Discovery.Handshake | src/bactmdrprofiler/causal/discovery.py:180-181 | the degrees of an induced subgraph sum to twice its number of edges |
| Discovery.KeyMeaning | src/bactmdrprofiler/causal/discovery.py:180-182 | a motif key holds the subgraph's size, its edge count, and its degrees sorted descending (a permutation of the degrees, summing to twice the edges) |
| Discovery.CountSize | src/bactmdrprofiler/causal/discovery.py:177-182 | for one size, the keys of the connected induced subgraphs in combinations order; size 0 is an error |
| Discovery.CensusKeys | src/bactmdrprofiler/causal/discovery.py:175-182 | an error iff some size is ≤ 0; sizes above the node count are skipped |
| Discovery.MotifCensus | src/bactmdrprofiler/causal/discovery.py:169-183 | sizes default to [3, 4]; an error iff a size is ≤ 0; otherwise one row per distinct key, with its number of connected subgraphs, counts descending |
| Counter.MostCommon | src/bactmdrprofiler/network/hypergraph.py:37-39 | Counter(...).most_common(): one row per distinct item, with its multiplicity, sorted by count descending |
| Counter.MostCommonTotal | src/bactmdrprofiler/network/hypergraph.py:37-39 | the counts of most_common add up to at most the number of items |
| Hypergraph.Sized | src/bactmdrprofiler/network/hypergraph.py:35-36 | a pattern is kept, with all its occurrences, iff its size is within the bounds |
| Hypergraph.SizedPatterns | src/bactmdrprofiler/network/hypergraph.py:32-36 | the row loop collects exactly those patterns, a missing class call counting as not resistant (the corrected reading; see Findings) |
| Hypergraph.ExtractHyperedges | src/bactmdrprofiler/network/hypergraph.py:24-45 | with a missing class call counted as not resistant (the corrected reading; see Findings): every row is a pattern within the size bounds with its isolate count and support count/n ≥ min_support; every such pattern has a row; patterns never repeat; counts are non-increasing |
| Hypergraph.RowsAreHyperedges | src/bactmdrprofiler/network/hypergraph.py:33-44 | every emitted row is a supported pattern with its true count |
| Hypergraph.RowsComplete | src/bactmdrprofiler/network/hypergraph.py:33-44 | no supported pattern within the bounds is missed |
| Hypergraph.RowsOrdered | src/bactmdrprofiler/network/hypergraph.py:39-44 | rows keep most_common's order: distinct patterns, counts descending |
| Hypergraph.PatternAsWritten | src/bactmdrprofiler/network/hypergraph.py:33-34 | the generator as written fails (raises) iff the table has two or more class columns and the row has a missing call; otherwise it yields the corrected pattern, a lone column's missing call reading as NaN, which is not 1 |
| Hypergraph.SizedPatternsAsWritten | src/bactmdrprofiler/network/hypergraph.py:32-36 | the row loop as written raises iff there are two or more class columns and some isolate has a missing class call; otherwise it collects the same patterns as the corrected loop |
| Hypergraph.ExtractHyperedgesAsWritten | src/bactmdrprofiler/network/hypergraph.py:24-45 | extract_hyperedges as written raises iff there are two or more class columns and some isolate has a missing class call; otherwise it returns a table with every property of ExtractHyperedges |
| Hypergraph.MissingCallRaises | src/bactmdrprofiler/network/hypergraph.py:34 | one isolate, two classes, the first call missing and the second resistant: the code as written raises, where the corrected reading gives the pattern {second class} |
| Hypergraph.SingleClassMissingKept | src/bactmdrprofiler/network/hypergraph.py:33-34 | one isolate, one class, its call missing: the code as written does not raise and gives the empty pattern, as the corrected reading does |
| Hypergraph.HyperedgeCountsWithin | src/bactmdrprofiler/network/hypergraph.py:31-44 | the hyperedges' counts add up to at most the number of isolates |
| Hypergraph.AddHyperedge | src/bactmdrprofiler/network/hypergraph.py:64-68 | each tracked member gains 1 degree, the support, and support × size; other classes are unchanged |
| Hypergraph.TallyHyperedges | src/bactmdrprofiler/network/hypergraph.py:60-68 | every class's degree, weighted degree and size-weighted degree over all hyperedges |
| Hypergraph.Max | src/bactmdrprofiler/network/hypergraph.py:74 | the maximum is a value of the column and bounds all of them |
| Hypergraph.NormOfBounds | src/bactmdrprofiler/network/hypergraph.py:75 | a normalised value exists iff the maximum is positive, and is ≤ 1 (≥ 0 for a non-negative value) |
| Hypergraph.Normalise | src/bactmdrprofiler/network/hypergraph.py:73-75 | the values are kept and each norm column is the value over its column's maximum, absent when that maximum is not positive |
| Hypergraph.HypergraphCentrality | src/bactmdrprofiler/network/hypergraph.py:50-76 | one row per listed class (none for no classes), each with its three centralities, sorted by size-weighted degree descending, with the norm columns as above |
| Hypergraph.NormalisedBounds | src/bactmdrprofiler/network/hypergraph.py:73-75 | each norm is present iff its column maximum is positive, and lies in [0, 1] |
| Hypergraph.ClassAbsent | src/bactmdrprofiler/network/hypergraph.py:63-68 | a class in no hyperedge has degree 0 and weights 0 |
| Hypergraph.DegreeHandshake | src/bactmdrprofiler/network/hypergraph.py:63-68 | when every member is a listed class, the degrees add up to the total size of the hyperedges |
| Interaction.KindOf | src/bactmdrprofiler/network/hypergraph.py:113 | synergistic only for positive II, redundant only for negative II, independent iff abs(II) ≤ 0.01 |
| Interaction.JointPrevalence | src/bactmdrprofiler/network/hypergraph.py:104 | NaN iff the table has no isolates; otherwise a probability, 1 iff every isolate is resistant to every feature of the subset |
| Interaction.Columns | src/bactmdrprofiler/network/hypergraph.py:106 | the subset's columns, in order |
| Interaction.UpToTree | src/bactmdrprofiler/network/hypergraph.py:109-112 | summing the signed entropies size by size, in combinations order, gives the inclusion–exclusion sum over all subsets |
| Interaction.AddLayer | src/bactmdrprofiler/network/hypergraph.py:110-112 | the inner loop adds the signed joint entropy of every subset of one size |
| Interaction.CoInformationOf | src/bactmdrprofiler/network/hypergraph.py:107-112 | the loops compute the co-information: the sum over non-empty subsets T of (−1)^(n − len(T)) H(T) |
| Interaction.ThreeWay | src/bactmdrprofiler/network/hypergraph.py:107-112 | for three features, II = H(XYZ) − H(XY) − H(XZ) − H(YZ) + H(X) + H(Y) + H(Z) |
| Interaction.IndependentFeatures | src/bactmdrprofiler/network/hypergraph.py:106-113 | mutually independent features (additive joint entropy) have II = 0 and are typed independent |
| Interaction.RowOf | src/bactmdrprofiler/network/hypergraph.py:104-116 | a row names its features and order, and carries their co-information, its type and the joint prevalence |
| Interaction.RowsOfOrder | src/bactmdrprofiler/network/hypergraph.py:103-116 | the loop over the subsets of one order yields the rows of the subsets not below min_support |
| Interaction.RowsForMeaning | src/bactmdrprofiler/network/hypergraph.py:103-116 | a row is produced for one order iff its subset is listed and its joint prevalence is not below min_support |
| Interaction.CollectRows | src/bactmdrprofiler/network/hypergraph.py:101-116 | the loop over orders 3 … max_order yields every order's rows in turn |
| Interaction.CandidatesMeaning | src/bactmdrprofiler/network/hypergraph.py:101-116 | a row is produced iff its order is in 3 … max_order, its features are a combination of that size, it is not below min_support, and it is that subset's row |
| Interaction.InteractionInformation | src/bactmdrprofiler/network/hypergraph.py:89-120 | the output is a permutation of those rows, sorted by abs(II) descending, and empty for max_order < 3 |
| Config.FieldTypeOf | src/bactmdrprofiler/config.py:48-54 | a key is undeclared iff no field has that name; otherwise the type of a field with that name |
| Config.Join | src/bactmdrprofiler/config.py:50-60 | the path of a key is the key at the top level and prefix.key below it |
| Config.Filtered | src/bactmdrprofiler/config.py:44-75 | the filtered value is never None, and is a mapping iff the input is a mapping or None |
| Config.ValidateAndFilter | src/bactmdrprofiler/config.py:44-75 | the recursion returns the filtered value and appends the unknown paths of the input, in document order |
| Config.ValidateEntries | src/bactmdrprofiler/config.py:48-74 | the loop over a mapping keeps the declared entries and reports the paths of the rest |
| Config.ValidateEntry | src/bactmdrprofiler/config.py:50-74 | one key: dropped and reported when undeclared, otherwise kept with its filtered value |
| Config.ValidateField | src/bactmdrprofiler/config.py:57-73 | a nested section recurses with its path; a list of sections recurses into each mapping item; anything else is kept as is |
| Config.ValidateItems | src/bactmdrprofiler/config.py:62-71 | every mapping item is filtered under path[i], other items are kept, and the order is preserved |
| Config.UndeclaredReported | src/bactmdrprofiler/config.py:50-52 | an undeclared key is reported under its path and absent from the result |
| Config.FilteredConforms | src/bactmdrprofiler/config.py:44-75 | the filtered value holds only declared keys, at every level of nesting |
| Config.ConformingUnchanged | src/bactmdrprofiler/config.py:44-75 | a conforming document is returned unchanged and reports nothing |
| Config.CleanIffConforms | src/bactmdrprofiler/config.py:44-75 | no unknown path is reported iff the document conforms to the schema |
| Config.FilterIdempotent | src/bactmdrprofiler/config.py:44-75 | filtering twice equals filtering once, and the second pass reports nothing |
| Config.NestedKeyMissedAsWritten | src/bactmdrprofiler/config.py:57-61 | with annotations postponed (line 15 of the file), {causal: {foo: 1}} passes unchanged and reports nothing, although it does not conform |
| Config.NestedKeyReported | src/bactmdrprofiler/config.py:57-61 | with evaluated annotations, the same document reports causal.foo and keeps an empty causal section |
| Config.Lookup | src/bactmdrprofiler/config.py:166-167 | a value found is the value of an entry with that key |
| Config.Document | src/bactmdrprofiler/config.py:164 | an empty or false document is read as an empty mapping |
| Config.FromYaml | src/bactmdrprofiler/config.py:163-202 | filters with evaluated annotations, the corrected reading of the config.py:57-61 finding, so nested unknown keys are reported too; a document that is not a mapping is an error; an error iff strict and (the schema version is unsupported or a key is unknown); otherwise the unknown keys are the reported paths, sorted and without repeats, the status is PASS iff the version is supported and no key is unknown, WARN otherwise, never FAIL |
| Ordering.SortBy | src/bactmdrprofiler/network/hypergraph.py:72 | sort_values by any total preorder: a permutation of the input, sorted |
| Ordering.SortByStable | src/bactmdrprofiler/mdr/decision_v3.py:44 | the sort is stable: for any z, the elements that tie with z come out in their input order, as pandas' stable multi-key sort keeps them |
| Ordering.StrLeIsTotalPreorder | src/bactmdrprofiler/config.py:191 | the code-point order on strings is total and transitive |
| Ordering.SortedUnique | src/bactmdrprofiler/config.py:191 | sorted(set(xs)): strictly increasing and holding exactly the elements of xs |
| Combinatorics.CombinationsCount | src/bactmdrprofiler/mdr/decision_v3.py:58-59 | combinations(s, k) yields C(len(s), k) tuples |
| Combinatorics.CombinationsShape | src/bactmdrprofiler/causal/discovery.py:135 | each tuple has k elements drawn from s |
| Combinatorics.CombinationsDistinct | src/bactmdrprofiler/causal/discovery.py:135 | the tuples of a list without repeats have no repeats |
| Combinatorics.CombinationsComplete | src/bactmdrprofiler/causal/discovery.py:135 | every k-subset of a list without repeats is one of its tuples |
| Combinatorics.BinomFactorial | src/bactmdrprofiler/mdr/decision_v3.py:61 | C(n, k) · k! · (n − k)! = n! |

## Left out

- Reading and writing files, YAML parsing, logging, and the `SSUIS_CONFIG_STRICT` environment variable. A loaded document is a `Config.Value`, and the variable's test is the `envStrict` input of `Config.FromYaml`.
- pandas and networkx data structures. Tables are sequences of `Option<bool>` rows, graphs are sets of ordered pairs, and frames are sequences of row datatypes.
- The dtype handling of `_to_binary`. Only its cell mapping is modelled.
- Floating point. Every quantity is an exact real, and the `round(..., 4)` applied to reported values is not modelled.
- The statistical library calls are parameters of the model, not computed:
  - `fisher_exact`, `chi2_contingency` and the chi-squared CDF;
  - the data behind each test of the PC search: the search consults an oracle that gives `_ci_test`'s (independent, p) answer, and `Discovery.TestedBy` ties that oracle to `Discovery.CiDecision` on the crosstabs;
  - the Beta quantiles `CI_Lo`/`CI_Hi` of `prevalence_table`;
  - the joint entropy `_joint_H`, including its `log2`.
- `pattern_mdl_compression` (`decision_v3.py:46-50`), because it is `log2` arithmetic on floats.
- `build_hybrid_network` (`discovery.py:188-242`), because it is library tests, a square root and `multipletests`.
- Text the code builds only for display:
  - the `Hyperedge` and `Features` joins;
  - the motif key string (kept as a `MotifKey` datatype);
  - `Cond_Set` as a joined string (kept as a sequence, or `None` for "—");
  - the `str()` of a mapping or list used as `schema_version` (`Config.Str` gives it a fixed marker).
- Iteration order of Python sets:
  - the PC pool is enumerated in an arbitrary order chosen by `Discovery.Enumerate`;
  - frozenset members are visited in an arbitrary order by `Hypergraph.AddHyperedge`.

  Results that do not depend on that order are proved for every order. The particular separating set `pc_skeleton` stores does depend on it, so the model only proves that the stored set separates its pair.
- Hypergraph.ExtractHyperedgesAsWritten: follows pandas 2.2 and later, where a table with a single class column reaches the loop as float NaN and does not raise (`Hypergraph.SingleClassMissingKept`). Before pandas 2.2, that column's `to_numpy()` kept NA in an object array, so a one-class table with a missing call raised too; the model does not capture that version difference.
- Ordering.SortBy: its contract does not state the order among rows with equal sort keys, because pandas' single-key `sort_values` (hypergraph.py:72 and :119, decision_v3.py:53 and :63) uses an unstable quicksort by default. The multi-key sort of `next_best_test_evpi` (decision_v3.py:44) is stable, and `Ordering.SortByStable` proves that order where `DecisionV3.NextBestTestEvpi` states it.
- Counter.MostCommon: the order among keys with equal counts (first occurrence in CPython) is not stated.
- Counter.MostCommonTotal: states that the counts add up to at most the number of items, not exactly to it.
- Building the configuration dataclasses after filtering (`config.py:176-184`) is not modelled:
  - the `TypeError` a section that is not a mapping would raise;
  - keys that are not strings;
  - the duplicate keys a YAML loader collapses, which a `Config.Value` mapping can hold.
- Config.FromYaml: filters with evaluated annotations, so it reports an undeclared nested key where the code as written would pass it through and then raise a `TypeError` when building the section (see Findings).
- The `f is None` branch of `_validate_and_filter` (`config.py:54-57`) cannot be reached once the key is declared, so the model has no case for it.
- `pipeline.py`, the dashboards and `selfcheck.py` are not part of this model.

## Findings

| source | as written | input that shows it | evidently intended | confidence | as-written member | corrected member |
|---|---|---|---|---|---|---|
| src/bactmdrprofiler/causal/discovery.py:133 | `-` binds tighter than the set union, so the pool is N(u) united with (N(v) minus {u, v}), and it contains v itself | any data, any alpha, max_cond ≥ 1. At size 1 the set {v} is tried for every remaining edge u − v. Within each stratum v is constant, so no 2 × 2 table arises (`Discovery.EndpointInConditioningSet`), and `_ci_test` returns (True, 1.0). Every edge is removed | the neighbours of u or v other than u and v themselves, so that a pair dependent given every such set keeps its edge | high; not executed | Discovery.AsWrittenEmptiesSkeleton | Discovery.DependentPairSurvives |
| src/bactmdrprofiler/config.py:57-61 | the module postpones annotations (line 15), so a field's type is a string. `_is_dataclass_type` is then false and `get_origin` gives None, and nested sections and lists of sections are passed through unfiltered | `{causal: {foo: 1}}`: no unknown key is reported and the section is kept as it is, `causal.foo` included, so `CausalSpec(**...)` would then raise a `TypeError` instead of the documented warning | `causal.foo` is reported, dropped, and under strict mode rejected, as for a top-level key | high; not executed | Config.NestedKeyMissedAsWritten | Config.NestedKeyReported |
| src/bactmdrprofiler/network/hypergraph.py:34 | `row[c] == 1` is evaluated for every class column of every isolate. The class table holds pandas NA wherever a class call is undetermined (its columns are Int8 and start as NA, src/bactmdrprofiler/mdr/classification.py:111). With two or more class columns, iterrows yields object rows that keep NA. The comparison then gives NA, and the generator's `if` raises `TypeError: boolean value of NA is ambiguous` | a table with two classes and one isolate whose first call is NA and whose second is resistant (`Hypergraph.MissingCallRaises`) | the docstring makes a pattern the set of resistant classes, so an undetermined call is simply not resistant and the isolate keeps its pattern | medium; not executed | Hypergraph.ExtractHyperedgesAsWritten | Hypergraph.ExtractHyperedges |
