# Schelling segregation engine in Dafny

This project models the incremental happiness-and-occupancy engine of a Schelling segregation simulator. Agents of two types sit on the vertices of a graph. An agent compares its occupied neighbours against a rational threshold p/q. An unhappy agent moves to a vacancy, and only the agents whose neighbourhood changed are re-evaluated. The model also covers the small pure utilities the engine relies on.

Every module is pure: states are immutable datatypes, operations are functions (or methods where the source loops), and each operation is paired with the invariant it keeps, a reference recomputation it agrees with, or an inverse it completes. The recurring shape is "the incrementally maintained counters and flags equal a full recount from scratch".

Modules, one per source component:

- `Basics`: `Option`, swap-remove on sequences, counting and selecting `true` bits, small arithmetic facts.
- `Topology`: an immutable adjacency (neighbour lists per vertex) and an occupancy world; neighbour counts and their locality under a move.
- `Threshold`: the two integer happiness rules, `Threshold::satisfied` (a least fraction of same-type neighbours) and `PqThreshold::is_unhappy` (a greatest fraction of disagreeing neighbours), and `init_program_threshold`. The `need` rule of `Metrics` and the Python `similar >= homophily` test live with their own modules.
- `IndexedPool`: the swap-remove array with a position map used for vacancy, occupied and unhappy sets.
- `SchellingAgent`, `SchellingModel`: the Python model (`agentsJ.py`, `modelJ.py`): `count`, `recount`, `move`, the initial placement and `step`.
- `WorldPacked`, `SimMetrics`, `RandomStepper`: the packed world, the unhappy tracker and the single random move of `include/sim/`.
- `SimRandom`, `SimFast`, `FlatMetrics`: the stand-alone steppers `sim_random.hpp` and `sim_fast.hpp` and the flat metrics of `metrics.hpp`.
- `CliqueGraph`, `LinePath`, `Lollipop`, `ColorPath`: the counts-only graphs of `include/graphs/`.
- `WorldAgentPacked`: the agent-compact world with a sorted vertex index.
- `Approx`, `BitPack`, `BitOps`, `BlockBitset`, `BlockPick`, `BandedRow`, `Checkpoints`, `Cli`: the rational approximation, bit-packed vectors, bit selection, the Fenwick-block bitset, banded histogram rows, checkpoint lists and the command-line token parsers.

Conventions:

- A random choice is a `draw: nat` parameter reduced modulo the size of the set it picks from. Every property holds for every draw.
- Machine integers are `nat` with the wrap written out where the source's width matters (`% 2^8`, `% 2^32`, `% 2^64`). The one exception is the mediant denominator of `approx.hpp`, which "## Left out" names.
- A bitset or a 64-bit word is a `seq<bool>`, least significant bit first.
- Thresholds are exact rationals p/q. The source's `double` τ is modelled as an exact rational, and so are the Python model's float shares and the per-agent same-fraction of `metrics.hpp`; "## Left out" names each member this affects.

Where the written description of the system and the code disagree, the model follows the code:

- The agent total of `modelJ.py` is reached by `while n_agents < total_agents` on a float, which places ceil(density·N) agents, not round(density·N) (`SchellingModel.BelowTotalIffBelowCeil`).
- The agents placed first are the type-0 agents, round(total·minority_pc) of them, whichever type is the minority (`SchellingModel.PlaceTwoKindsEffect`).
- The specialised graphs and `PqThreshold` count disagreeing neighbours against the threshold (`d·q > n·p`), whereas the Python model and `Metrics` count agreeing ones; each module keeps its own source's rule, and `Threshold.SatisfiedIffNotUnhappy` relates the two integer rules.

## Model

| member | source | states |
|---|---|---|
| Threshold.Satisfied | metrics.hpp:14-18 | an agent with no occupied neighbours is satisfied; otherwise, while the 32-bit denominator does not wrap, it is satisfied exactly when same·q ≥ p·(same + other) |
| Threshold.SatisfiedIsFractionTest | metrics.hpp:14-18 | the cross-multiplied test is the fraction test same/(same + other) ≥ p/q |
| Threshold.IsUnhappy | include/core/schelling_threshold.hpp:17 | unhappy exactly when disagree·q > neighbours·p while neither product wraps; no disagreeing neighbour, so in particular d = n = 0, is never unhappy |
| Threshold.IsUnhappyIsFractionTest | include/core/schelling_threshold.hpp:17 | with neighbours > 0 the cross-multiplied test is disagree/neighbours > p/q |
| Threshold.SatisfiedIffNotUnhappy | metrics.hpp:14-18 | the two conventions agree: satisfied with same-fraction threshold p/q exactly when not unhappy with disagree-fraction threshold (q − p)/q |
| Threshold.InitProgramThreshold | include/core/schelling_threshold.hpp:30-37 | a second initialisation changes nothing; the first stores p/q, marks the state initialised and sets minority-happy to ¬is_unhappy(1, 2), that is 2p ≥ q |
| Threshold.InitProgramThresholdOnce | include/core/schelling_threshold.hpp:30-37 | initialising twice is the same as initialising once: only the first call takes effect |
| FlatMetrics.SameOther | metrics.hpp:27-34 | the same-type count is the number of occupied same-type neighbours, and same + other is the number of occupied neighbours |
| FlatMetrics.SatisfiedAt | metrics.hpp:14-18 | an agent with no occupied neighbour is satisfied |
| FlatMetrics.UnhappyBelow | metrics.hpp:41-48 | the tally over the first n vertices is at most n and is zero exactly when none of them is an unhappy agent |
| FlatMetrics.UnhappyCount | metrics.hpp:37-52 | the unhappy count is zero exactly when no agent is unsatisfied |
| FlatMetrics.SameFraction | metrics.hpp:44-45 | an isolated agent has same-fraction 1; otherwise the fraction lies in [0, 1] and times the denominator gives the same-type count |
| IndexedPool.Empty | sim_random.hpp:61-64 | a cleared pool is well formed, has no members and no vertex has a position |
| IndexedPool.ValidNoDup | sim_random.hpp:270-278 | a pool whose position map matches its array lists each vertex at most once, and a vertex has a position exactly when it is listed |
| IndexedPool.Push | sim_random.hpp:68-72 | pushing an absent vertex appends it, keeps the pool well formed and adds exactly that vertex |
| IndexedPool.Add | sim_random.hpp:280-284 | `vacancy_add` and `add_unhappy` do nothing on a member; otherwise the pool grows by one and gains exactly v; the pool stays well formed |
| IndexedPool.Remove | sim_random.hpp:285-296 | `vacancy_remove` and `remove_unhappy` do nothing on a non-member; otherwise the pool shrinks by one, loses exactly v (as a multiset) and keeps its position map consistent |
| IndexedPool.RemoveMiddle | sim_random.hpp:289-295 | swap-pop from a slot other than the last: the moved last member is re-pointed to the vacated slot and the pool stays well formed |
| IndexedPool.RemoveLast | sim_random.hpp:294-295 | removing the last member pops it and clears its position |
| IndexedPool.SwapPopMultiset | sim_random.hpp:289-294 | moving the last element into slot i and popping removes exactly the element at slot i |
| IndexedPool.AddThenRemove | sim_random.hpp:280-296 | removing a vertex just added to a pool that lacked it gives back the original pool |
| IndexedPool.Pick | sim_random.hpp:155-156 | a random slot of a non-empty pool names one of its members |
| SimRandom.UpdateUnhappy | sim_random.hpp:315-320 | afterwards v is in the unhappy set exactly when it holds an unsatisfied agent; every other membership is unchanged |
| SimRandom.UpdateEach | sim_random.hpp:220-221 | updating a neighbour list leaves each listed vertex in the set exactly when unsatisfied and every other vertex as it was |
| SimRandom.Initialize | sim_random.hpp:60-80 | occupied and vacant lists partition the vertices by occupancy and the unhappy set is exactly the unsatisfied agents |
| SimRandom.ReplaceAt | sim_random.hpp:207-210 | overwriting slot `pick` of the occupied list with dst swaps the source for dst and keeps the position map consistent |
| SimRandom.Relocate | sim_random.hpp:205-222 | the move empties the source and places its agent at dst; occupied loses src and gains dst, vacant loses dst and gains src |
| SimRandom.RelocateKeepsInv | sim_random.hpp:205-214 | a move keeps occupied and vacant an exact partition of the vertices |
| SimRandom.RelocateUnhappy | sim_random.hpp:218-222 | after a move, dst and the neighbours of src and dst are in the unhappy set exactly when unsatisfied; all others keep their membership |
| SimRandom.RelocateExactAt | sim_random.hpp:218-222 | removing the mover and then re-evaluating those vertices leaves the unhappy set exact |
| SimRandom.VerdictAway | sim_random.hpp:218-222 | a vertex outside src, dst and their neighbourhoods keeps its verdict, so it needs no re-evaluation |
| SimRandom.Iterate | sim_random.hpp:153-237 | one iteration stops with no agents; a satisfied pick changes nothing; with no vacancy nothing moves; otherwise the unsatisfied pick moves to the drawn vacancy |
| SimRandom.IterateStaysIffSatisfied | sim_random.hpp:160-161 | given an exact unhappy set, the iteration does nothing exactly when the picked agent is not unhappy |
| SimRandom.IterateKeepsInv | sim_random.hpp:205-214 | a move keeps the list invariant |
| SimRandom.IterateKeepsExact | sim_random.hpp:218-222 | the unhappy set stays exact after every iteration |
| SimRandom.Run | sim_random.hpp:83-261 | a run never counts more moves than its iteration budget |
| SimRandom.Loop | sim_random.hpp:103-250 | the move counter only grows, and by at most one per iteration |
| SimRandom.NoVacancyNoMoves | sim_random.hpp:165-216 | `successful_moves` is bumped only for applied moves: with no vacancy no move applies, so the loop ends with the counter where it started |
| SimRandom.Next | sim_random.hpp:239-249 | the rest of the loop after one iteration also counts at most one move per remaining iteration |
| SimRandom.EmptyPoolIffNoneUnhappy | sim_random.hpp:104-116 | with an exact unhappy set, the set is empty exactly when no agent is unsatisfied, so stopping on an empty set is sound |
| SimRandom.LoopHonest | sim_random.hpp:103-250 | whichever way the loop ends, the reported unhappy count equals the full recount and converged means that count is zero |
| SimRandom.RunHonest | sim_random.hpp:83-261 | the same for a whole run from an exact state |
| SimMetrics.Need | include/sim/metrics.hpp:110-115 | the clamped ceiling need is at most occ, and same < need exactly when same/occ < τ and same < occ |
| SimMetrics.ScanUnhappy | include/sim/metrics.hpp:99-116 | an empty vertex is never unhappy, and neither is an agent with no occupied neighbours |
| SimMetrics.ScanUnhappyMeaning | include/sim/metrics.hpp:99-116 | while the 16-bit counters do not wrap, the scan says unhappy exactly when v is occupied, has occupied neighbours, and its same-type share is below τ and below all of them |
| SimMetrics.ScanIsNotSatisfied | include/sim/metrics.hpp:99-116 | for τ = p/q ≤ 1 the scan is the negation of `Threshold::satisfied` on the same and other counts |
| SimMetrics.SetUnhappy | include/sim/metrics.hpp:119-141 | an unchanged flag leaves everything as it was; otherwise the flag is written, the pool holds exactly the flagged vertices with a matching position map, and the total moves by one in the flag's direction |
| SimMetrics.Bind | include/sim/metrics.hpp:63-78 | every flag equals the scan, the pool lists exactly the flagged occupied vertices in increasing order, and the total is their number |
| WorldPacked.View | include/sim/world_packed.hpp:50-51 | the cell a vertex shows is occupied exactly when its occ bit is set, with the type bit as its kind |
| WorldPacked.Resize | include/sim/world_packed.hpp:40-48 | after `resize(n)` there are n vertices, both lists are empty, every position is NPOS and every bit is clear |
| WorldPacked.SetEmpty | include/sim/world_packed.hpp:54-77 | `set_empty(v)` clears only v's occ bit, swap-removes v from `occupied` and lists v among the empties exactly once; other memberships are unchanged and a consistent or partitioned world stays so |
| WorldPacked.SetOccupied | include/sim/world_packed.hpp:80-102 | `set_occupied(v, t)` sets v's occ bit and type, removes v from `empties` and lists v in `occupied` exactly once; other memberships are unchanged and consistency is kept |
| WorldPacked.SettersChangeOnlyV | include/sim/world_packed.hpp:54-102 | seen as cells, the setters change exactly vertex v: to empty, or to an agent of type t |
| WorldPacked.RandomEmpty | include/sim/world_packed.hpp:105-108 | the drawn vertex is listed among the empties and is empty |
| WorldPacked.RandomOccupied | include/sim/world_packed.hpp:109-112 | the drawn vertex is listed as occupied and is occupied |
| WorldPacked.SeedBuildsWorld | include/sim/world_packed.hpp:14-18 | setting every vertex in turn, from a consistent state, yields a world that shows the given cells and whose two lists partition the vertices |
| WorldPacked.SeedStep | include/sim/world_packed.hpp:54-102 | one seeding step keeps consistency, fixes the next cell and lists it |
| WorldPacked.SeedFromResize | include/sim/world_packed.hpp:40-48 | seeding straight after `resize` is safe: the result shows exactly the given cells and is partitioned |
| RandomStepper.Moved | include/sim/random_stepper.hpp:47-68 | after a move the world is still partitioned and differs from before only in that the source vertex is empty and the destination holds an agent of the source's type |
| RandomStepper.Rescan | include/sim/random_stepper.hpp:55-60 | the neighbour loop of `step`: every listed vertex occupied in the given world gets its flag set to the scan's verdict, every other flag is unchanged, and the pool stays consistent |
| RandomStepper.UpdateAsWritten | include/sim/random_stepper.hpp:55-77 | the flags the source leaves: the destination and its occupied neighbours rescanned after the move, the source cleared, the source's occupied neighbours rescanned in the world before the source was emptied, every other flag untouched |
| RandomStepper.Update | include/sim/random_stepper.hpp:53-77 | the flags as intended: every occupied neighbour of either endpoint and the destination rescanned in the world after the move, the source cleared, the rest untouched |
| RandomStepper.StepAsWritten | include/sim/random_stepper.hpp:41-80 | `step` as written keeps the pools consistent, reports a move exactly when it proceeds, leaves the state alone otherwise and, after a move, shows the moved world with the source unflagged |
| RandomStepper.Step | include/sim/random_stepper.hpp:41-80 | the same promises for the corrected step |
| RandomStepper.StepRefusedOnlyWhenStuck | include/sim/random_stepper.hpp:42-51 | with exact flags, a step moves exactly when there is an empty vertex and an unhappy agent: the two guards behind it never fire |
| RandomStepper.StepKeepsExact | include/sim/random_stepper.hpp:53-77 | the corrected step keeps every flag equal to a fresh scan of the new world |
| RandomStepper.UntouchedScan | include/sim/random_stepper.hpp:10-11 | a vertex that is neither endpoint nor an occupied neighbour of one has the same scan verdict after the move |
| RandomStepper.AsWrittenLeavesStaleFlag | include/sim/random_stepper.hpp:55-60 | on the three-vertex counterexample the step as written leaves vertex 1 flagged although a scan of the new world says it is satisfied |
| RandomStepper.StepClearsIt | include/sim/random_stepper.hpp:55-77 | on the same input the corrected step clears that flag |
| SchellingAgent.HappyVerdict | Python_Version/agentsJ.py:32-44 | an agent is happy exactly when its share of same-type neighbours (1 with no neighbours) is at least the homophily, the comparison taken over the exact rationals |
| SchellingAgent.Recount | Python_Version/agentsJ.py:55-84 | an unchanged verdict changes nothing; the call raises only when the agent turns happy while it is missing from the unhappy list |
| SchellingAgent.RecountKeepsInv | Python_Version/agentsJ.py:73-84 | on a consistent model `recount` never raises and keeps the flags, the happy counter and the unhappy list in step |
| SchellingAgent.RecountIdempotent | Python_Version/agentsJ.py:73-84 | recounting the same agent twice in a row is the same as recounting once |
| SchellingAgent.RecountAllEffect | Python_Version/agentsJ.py:110-114 | recounting a list of agents never raises on a consistent model, sets each listed agent's flag to its fresh verdict and leaves the others alone |
| SchellingAgent.AgentsOn | Python_Version/agentsJ.py:95-107 | the contents of a list of nodes are exactly the agents standing on those nodes |
| SchellingAgent.Relocate | Python_Version/agentsJ.py:97-105 | the move changes only the mover's node and bumps the move counter; flags, counter and unhappy list are untouched |
| SchellingAgent.RelocateKeepsInv | Python_Version/agentsJ.py:97-103 | after the move the grid has the old node freed and the new one holding the mover, and the empty list holds exactly the old empties plus the old node minus the new one, each once |
| SchellingAgent.Move | Python_Version/agentsJ.py:88-114 | a happy agent does not move; an unhappy one with no empty node raises IndexError, as `random.choice` on an empty list does |
| SchellingAgent.MoveRecountsEnough | Python_Version/agentsJ.py:94-114 | an agent that is not the mover and stands next to neither the old nor the new node keeps its verdict, so recounting the mover and the two neighbourhoods suffices |
| SchellingAgent.MoveKeepsFlagsExact | Python_Version/agentsJ.py:88-114 | moving an unhappy agent when a node is free succeeds, keeps the model consistent with every flag equal to a fresh verdict, puts the mover on the drawn empty node and updates the empty list |
| SchellingAgent.MoveExact | Python_Version/agentsJ.py:110-114 | flags refreshed for the mover and both neighbourhoods, the rest unchanged, are all exact |
| SchellingModel.RoundHalfEven | Python_Version/modelJ.py:94 | Python's `round`: the result is within half of num/den, and a tie goes to the even neighbour |
| SchellingModel.BelowTotalIffBelowCeil | Python_Version/modelJ.py:104 | `n_agents < total_agents` with a fractional total holds exactly while n is below the ceiling of the total |
| SchellingModel.Fresh | Python_Version/modelJ.py:76-91 | before placement there are no agents and every node is listed as empty, in node order |
| SchellingModel.FreshPlaced | Python_Version/modelJ.py:87-91 | that state satisfies the placement invariant |
| SchellingModel.PlaceOne | Python_Version/modelJ.py:96-102 | placing an agent raises exactly when no node is free; otherwise it adds one agent of the given type |
| SchellingModel.PlaceOneShape | Python_Version/modelJ.py:98-102 | the agent lands on the drawn free node, which leaves the empty list while every other entry stays |
| SchellingModel.PlaceOneKeepsPlaced | Python_Version/modelJ.py:96-102 | placement keeps the grid, positions and empty list consistent |
| SchellingModel.FillEffect | Python_Version/modelJ.py:95-111 | a placement loop succeeds exactly when its target fits on the graph, and then adds exactly target minus current agents of its type |
| SchellingModel.Shuffle | Python_Version/modelJ.py:115 | the visiting order is a permutation of the agents |
| SchellingModel.Count | Python_Version/agentsJ.py:26-51 | `count` sets the agent's flag to its fresh verdict and accounts it once, in the happy counter or on the unhappy list |
| SchellingModel.CountAllEffect | Python_Version/modelJ.py:115 | counting every pending agent once leaves no agent pending, each flag exact and counter plus list equal to the number of agents |
| SchellingModel.PlaceTwoKindsEffect | Python_Version/modelJ.py:92-111 | the two loops succeed exactly when the larger target fits, and agent j has type 1 exactly when j is at or past the type-0 count |
| SchellingModel.Populate | Python_Version/modelJ.py:86-111 | the placement half of the constructor: a fresh model, then round(total·minority_pc) type-0 agents and type-1 agents up to ceil(density·N), raising IndexError when the empty list runs out; `PopulateEffect` states its outcome |
| SchellingModel.PopulateEffect | Python_Version/modelJ.py:86-111 | construction succeeds exactly when ceil(density·nodes) agents fit, placing round(total·minority_pc) agents of type 0 first and the rest of type 1 |
| SchellingModel.InitialCountEffect | Python_Version/modelJ.py:114-115 | after the shuffled initial count the model is consistent and every flag is exact |
| SchellingModel.InitCorrect | Python_Version/modelJ.py:26-115 | the whole constructor: it succeeds exactly when the population fits, and then leaves a consistent model with exact flags, the right number of agents, the rest of the nodes empty and the types laid out as above |
| SchellingModel.Step | Python_Version/modelJ.py:117-125 | with no unhappy agent `step` raises IndexError |
| SchellingModel.StepCorrect | Python_Version/modelJ.py:117-125 | with an unhappy agent and a free node a step succeeds, keeps the flags exact, counts one more move and keeps running exactly when some agent's fresh verdict is unhappy |
| Topology.KindCountsSplit | metrics.hpp:27-34 | over any neighbour list, same-type plus other-type occupied neighbours is the number of occupied neighbours |
| Topology.CountsLocal | metrics.hpp:27-34 | the counts look only at the listed nodes: two worlds that agree there give the same counts |
| Topology.CountsAtOnePoint | sim_fast.hpp:187-207 | writing one cell that occurs once in the list changes each count by exactly that cell's change of contribution |
| Topology.OtherIsOccMinusSame | sim_fast.hpp:293 | `total - same` is the number of occupied neighbours of the other type |
| Topology.MoveLocality | sim_fast.hpp:20 | a vertex adjacent to neither endpoint of a move keeps all its neighbour counts |
| SimFast.Step8 | sim_fast.hpp:189-205 | incrementing or decrementing a `uint8_t` counter is the step taken modulo 2^8 |
| SimFast.Shift | sim_fast.hpp:189-205 | one neighbour's counters step by one agent of type t; every other vertex's counters are unchanged |
| SimFast.FastUnhappy | sim_fast.hpp:289-296 | the verdict `update_unhappy` acts on: v is occupied and its `uint8_t` same count against total − same fails `satisfied`; `FastAgreesWithScan` equates it with the scan below degree 256 |
| SimFast.FastAgreesWithScan | sim_fast.hpp:289-296 | when degrees stay below 2^8 and the counters are exact, the counter-based test of `update_unhappy` gives the same verdict as a fresh neighbour scan |
| SimFast.BumpAt | sim_fast.hpp:188-207 | sweeping a duplicate-free neighbour list steps exactly the listed vertices' counters |
| SimFast.Sweep | sim_fast.hpp:188-207 | the sweep bumps the counters and touches the unhappy pool only at occupied listed vertices |
| SimFast.SweepFlags | sim_fast.hpp:188-207 | after a sweep, an occupied listed vertex is in the unhappy pool exactly when the counter test says so at the updated counts; the rest keep their membership |
| SimFast.Update | sim_fast.hpp:289-296 | `update_unhappy(v)` lists v exactly when the counter test says so and changes no other membership |
| SimFast.ListRemoveAt | sim_fast.hpp:43-48 | `list_remove_at` drops exactly the one element at idx, moving the last element into its place |
| SimFast.SwapPop | sim_fast.hpp:44-47 | the swap followed by the pop removes exactly one copy of `a[idx]` |
| SimFast.ScatterStep | sim_fast.hpp:73-78 | scattering the agent at v adds it to every neighbour's counters, extending the tally by one vertex |
| SimFast.ScatteredCounts | sim_fast.hpp:71-78 | once every vertex is scattered the counters are the neighbour counts modulo 2^8 |
| SimFast.Initialize | sim_fast.hpp:61-89 | `initialize` lists the vacancies in vertex order and builds exact counters and an unhappy pool that is exactly the counter test's verdict |
| SimFast.Vacancies | sim_fast.hpp:62-69 | the vacancy list holds exactly the empty vertices, once each and in increasing order |
| SimFast.ScatterAll | sim_fast.hpp:71-78 | the scatter over all agents yields the neighbour counts modulo 2^8 |
| SimFast.UnhappyPool | sim_fast.hpp:80-88 | the initial unhappy list holds exactly the occupied vertices that fail the counter test |
| SimFast.Candidates | sim_fast.hpp:165-168 | every sampled candidate is a listed vacancy |
| SimFast.Choose | sim_fast.hpp:164-181 | the candidate loop returns one of the sampled candidates or the fallback best, or none; `ChooseFirstFit`, `ChooseBest` and `ChooseNone` say which |
| SimFast.ChooseFirstFit | sim_fast.hpp:166-173 | the first candidate that satisfies the agent is the destination |
| SimFast.ChooseNone | sim_fast.hpp:166-181 | no destination is chosen exactly when no candidate satisfies and either the fallback is off or every candidate has zero same-type neighbours |
| SimFast.ChooseBest | sim_fast.hpp:171-177 | when no candidate satisfies, the fallback picks a candidate with the largest same-type count among those seen |
| SimFast.Leave | sim_fast.hpp:184-193 | leaving decrements the counters around the source and keeps the source out of the unhappy pool |
| SimFast.Move | sim_fast.hpp:184-210 | a move relocates the agent, lists the source as vacant and the destination as not, and leaves the counters stepped down around the source and up around the destination |
| SimFast.MoveVacancies | sim_fast.hpp:252-268 | after `vacancy_add(src)` and `vacancy_remove(dst)` the vacancy pool is exactly the empty vertices of the moved world |
| SimFast.StepTracks | sim_fast.hpp:189-205 | stepping counters that hold true counts modulo 2^8 keeps them the true counts modulo 2^8 |
| SimFast.MoveKeepsCounts | sim_fast.hpp:184-207 | after a move the counters are again the neighbour counts of the moved world |
| SimFast.MoveKeepsExact | sim_fast.hpp:184-210 | after a move the unhappy pool is again exactly the counter test's verdict for every vertex |
| SimFast.Dest | sim_fast.hpp:157-182 | a chosen destination is a listed, empty vertex |
| SimFast.DestNone | sim_fast.hpp:161-181 | the destination search fails exactly as ChooseNone describes for the source agent's type |
| SimFast.Advance | sim_fast.hpp:137-210 | one pass reports converged exactly when the unhappy pool is empty, blocked exactly when there is an unhappy agent but no vacancy, skipped exactly when no destination is found, and otherwise relocates a listed unhappy agent to a listed vacancy |
| SimFast.AdvanceKeepsExact | sim_fast.hpp:184-210 | a relocation keeps counters and unhappy pool exact |
| SimFast.Finalized | sim_fast.hpp:299-304 | the final report counts zero unhappy agents exactly when no agent of the final world is unhappy by a fresh scan |
| SimFast.LoopAsWritten | sim_fast.hpp:106-221 | the loop as written never reports more than max_moves moves |
| SimFast.Loop | sim_fast.hpp:106-220 | the corrected loop reports between the starting step and max_moves moves |
| SimFast.EmptyPoolAllHappy | sim_fast.hpp:137-144 | with exact counters and small degrees, an empty unhappy pool means no agent is unhappy |
| SimFast.LoopHonest | sim_fast.hpp:106-220 | the corrected loop's reported unhappy count is the true count in the final world, and convergence is reported only with zero unhappy agents |
| SimFast.AsWrittenLosesReport | sim_fast.hpp:174-181 | on the path counterexample the loop as written returns the empty `res{}` with zero unhappy while two agents are unhappy; the corrected loop reports two |
| CliqueGraph.FromMasks | include/graphs/clique.hpp:28-30 | built from two bitsets, c0 + c1 is the number of occupied bits and c1 the number of coloured ones |
| CliqueGraph.CountByColor | include/graphs/clique.hpp:49-52 | with no colour the result plus the occupied count is Size; with a colour it is that colour's counter |
| CliqueGraph.PlaceAgent | include/graphs/clique.hpp:41-45 | placing an agent adds exactly one to its colour's counter and leaves the other colour alone |
| CliqueGraph.PopAgentAsWritten | include/graphs/clique.hpp:35-39 | `pop_agent` as written removes one agent |
| CliqueGraph.PopAsWrittenMisreports | include/graphs/clique.hpp:37-38 | popping the last type-0 agent reports colour 1, because the colour is read after the decrement |
| CliqueGraph.PopAgent | include/graphs/clique.hpp:35-39 | the corrected pop reports the colour `get_color(from)` gives before the pop and removes one agent of exactly that colour |
| CliqueGraph.PopThenPlace | include/graphs/clique.hpp:35-45 | placing the popped agent's colour back restores the counters |
| CliqueGraph.Neighbors | include/graphs/clique.hpp:75 | an occupied vertex has c0 + c1 - 1 neighbours |
| CliqueGraph.IsUnhappyAtAsWritten | include/graphs/clique.hpp:72-76 | `is_unhappy(v)` as written: the threshold rule on c1 disagreeing neighbours for every occupied index and c0 for every empty one, out of c0 + c1 − 1 neighbours; `AsWrittenJudgesType1ByC1` shows where it departs from the agent's colour |
| CliqueGraph.IsUnhappyAt | include/graphs/clique.hpp:72-76 | the corrected verdict: the agent at v disagrees with every agent of the other colour, judged out of c0 + c1 − 1 neighbours; `UnhappyCountIsTally` ties it to `unhappy_count` |
| CliqueGraph.AsWrittenJudgesType1ByC1 | include/graphs/clique.hpp:72-76 | with c0 = 1, c1 = 2 and τ = 1/2, `is_unhappy(1)` judges the type-1 agent at index 1 by its own colour's count and calls it unhappy, while the unhappy weights count it satisfied |
| CliqueGraph.Weights | include/graphs/clique.hpp:81-86 | each colour block weighs its size when an agent of that colour is unhappy and nothing otherwise |
| CliqueGraph.UnhappyCount | include/graphs/clique.hpp:67-70 | `unhappy_count` sums the two colour weights and never exceeds the number of agents |
| CliqueGraph.UnhappyBelow | include/graphs/clique.hpp:67-70 | the per-vertex tally over the first m agents is at most m |
| CliqueGraph.UnhappyCountIsTally | include/graphs/clique.hpp:67-86 | `unhappy_count` equals the number of agents the corrected per-vertex test calls unhappy |
| CliqueGraph.TallyPrefix | include/graphs/clique.hpp:72-86 | the per-vertex tally over a prefix is the colour blocks' verdicts times how much of each block it covers |
| CliqueGraph.GetUnoccupied | include/graphs/clique.hpp:54-58 | the drawn vertex lies in the empty range [c0 + c1, Size) |
| CliqueGraph.GetUnhappy | include/graphs/clique.hpp:60-65 | the drawn vertex is an agent and is unhappy |
| LinePath.Frustration | include/graphs/path.hpp:119-121 | the frustration of a vertex is at most 2 and 0 when the vertex is empty |
| LinePath.Neighbors | include/graphs/path.hpp:122 | a vertex has at most two occupied neighbours |
| LinePath.IsUnhappyAt | include/graphs/path.hpp:96 | `is_unhappy(v)`: the threshold rule on v's frustration out of its occupied neighbours, at any logical index including the sentinel; an empty vertex is never unhappy (`EmptyNeverUnhappy`) |
| LinePath.EmptyNeverUnhappy | include/graphs/path.hpp:96 | an empty vertex is never unhappy |
| LinePath.UnhappyLocal | include/graphs/path.hpp:6-7 | a change at one vertex cannot change the verdict of a vertex two or more away |
| LinePath.Reset3 | include/graphs/path.hpp:125-129 | `local_unhappy_reset(idx)` clears exactly the cache bits idx-1, idx, idx+1 |
| LinePath.Update3 | include/graphs/path.hpp:132-136 | `local_unhappy_update(idx)` sets the window bits whose vertex is unhappy and touches nothing else |
| LinePath.RefreshWindow | include/graphs/path.hpp:70-90 | resetting and then updating the window around the only changed vertex makes an exact cache exact again |
| LinePath.Pop | include/graphs/path.hpp:71-80 | `pop_agent` returns the vertex's colour, clears its occupancy and colour bits and leaves cache bits outside the window alone |
| LinePath.Place | include/graphs/path.hpp:83-90 | `place_agent` sets the occupancy bit, sets the colour bit when c holds and leaves cache bits outside the window alone |
| LinePath.SetSentinel | include/graphs/path.hpp:100-110 | the sentinel holds the given occupancy, and the given colour only when occupied |
| LinePath.PopKeepsCacheExact | include/graphs/path.hpp:71-80 | popping keeps every cache bit equal to the vertex's verdict |
| LinePath.PlaceKeepsCacheExact | include/graphs/path.hpp:83-90 | placing keeps every cache bit equal to the vertex's verdict |
| LinePath.SetSentinelKeepsCacheExact | include/graphs/path.hpp:100-110 | moving the sentinel keeps the cache exact |
| LinePath.SetSentinelLocal | include/graphs/path.hpp:100-110 | moving the sentinel changes cache bits only at the sentinel slot and vertex 0 |
| LinePath.PopThenPlace | include/graphs/path.hpp:71-90 | putting a popped agent back with its colour restores the path exactly, cache included |
| LinePath.PlaceColor | include/graphs/path.hpp:83-90 | on a clean path the placed vertex is occupied with exactly colour c, and the path stays clean |
| LinePath.PopClean | include/graphs/path.hpp:74-77 | popping keeps colour bits only where agents sit |
| LinePath.CountByColor | include/graphs/path.hpp:48-52 | empty count plus occupied count is B; colour 1 counts colour bits; colour 0 is occupied minus colour 1 |
| LinePath.UnhappyCount | include/graphs/path.hpp:54 | `unhappy_count` reads the cached bits of the B vertices, sentinel excluded, so it is at most B; `UnhappyCountIsRecount` equates it with the recount under an exact cache |
| LinePath.UnhappyCountIsRecount | include/graphs/path.hpp:53-54 | with an exact cache, `unhappy_count` equals a fresh recount of the verdicts |
| LinePath.GetUnoccupied | include/graphs/path.hpp:57-61 | the drawn vertex is empty |
| LinePath.GetUnhappy | include/graphs/path.hpp:64-68 | the drawn vertex has its cache bit set |
| LinePath.GetUnhappyIsUnhappy | include/graphs/path.hpp:64-68 | with an exact cache the drawn vertex is occupied and unhappy |
| LinePath.MaskIsRule | include/graphs/path.hpp:138-153 | for τ below 1, the bitwise mask gives each vertex the verdict of the per-vertex rule |
| LinePath.FreshAsWritten | include/graphs/path.hpp:140-153 | the constructor as written fills the cache with the bitwise mask |
| LinePath.MaskMisjudgesHighThreshold | include/graphs/path.hpp:150-152 | with τ = 1 two adjacent agents of different colours are both marked unhappy although neither is |
| LinePath.Fresh | include/graphs/path.hpp:42-45 | the corrected constructor starts with an exact cache |
| LinePath.FreshAsWrittenBelowOne | include/graphs/path.hpp:140-153 | for τ below 1 the constructor as written and the corrected one agree |
| Lollipop.Empty | include/graphs/lollipop.hpp:134-140 | the default lollipop is valid, has a path of PathLength vertices and an exact cache for every threshold |
| Lollipop.BridgeIndex | include/graphs/lollipop.hpp:102-109 | an occupied bridge sits first in its colour block (index 0 or c0); an empty bridge is the first empty clique index |
| Lollipop.BridgeNeighbors | include/graphs/lollipop.hpp:125-127 | the bridge's neighbours are the other clique agents plus path vertex 0 when occupied |
| Lollipop.BridgeUnhappy | include/graphs/lollipop.hpp:118-121 | `bridge_unhappy`: false on an empty bridge, otherwise the threshold rule on the bridge's disagreeing clique agents plus a differing path vertex 0, out of all its neighbours |
| Lollipop.UnhappyCount | include/graphs/lollipop.hpp:36-41 | `unhappy_count`: the transient −1 of the bridge reconciliation never drives the sum below 0 and the total never exceeds the agent slots; `UnhappyCountIsReference` equates it with the vertex-by-vertex count |
| Lollipop.PathTally | include/graphs/lollipop.hpp:34-41 | the reference path tally over n vertices is at most n |
| Lollipop.PathVerdictIsReference | include/graphs/lollipop.hpp:34-41 | each path vertex's verdict, sentinel included, is the reference verdict on the whole lollipop |
| Lollipop.PathTallyIsCount | include/graphs/lollipop.hpp:34-41 | the path's verdict count over a prefix is the reference tally |
| Lollipop.UnhappyCountIsReference | include/graphs/lollipop.hpp:34-41 | with an exact cache, `unhappy_count` equals a vertex-by-vertex count over the whole lollipop in which the bridge is judged once, by its full neighbourhood |
| Lollipop.PathPartIsReference | include/graphs/lollipop.hpp:40 | the path's cached count is the reference count of the path vertices |
| Lollipop.CliquePartIsReference | include/graphs/lollipop.hpp:113-131 | bridge verdict minus its clique-sense verdict plus the clique's count is the reference count of the clique vertices |
| Lollipop.PopAsWritten | include/graphs/lollipop.hpp:65-80 | `pop_agent` as written leaves the corrected pop's state; a non-bridge clique index reports the colour read after the clique's counter drops, the other branches report what the corrected pop does |
| Lollipop.PopAsWrittenMisreports | include/graphs/lollipop.hpp:75-76 | with c0 = 2, c1 = 0 and the bridge at index 0, popping index 1 removes a colour-0 agent, yet the as-written pop reports colour 1 |
| Lollipop.Pop | include/graphs/lollipop.hpp:65-80 | the corrected pop removes exactly one agent and reports its colour; popping the bridge clears the bridge state and the sentinel |
| Lollipop.PopBridge | include/graphs/lollipop.hpp:68-74 | popping the bridge removes one clique agent and clears the bridge and sentinel, leaving the path bits alone |
| Lollipop.PopPath | include/graphs/lollipop.hpp:77-78 | popping a path vertex returns its colour and changes only the path |
| Lollipop.Place | include/graphs/lollipop.hpp:82-97 | placing adds exactly one agent; at the bridge index it records the bridge colour and sets the sentinel |
| Lollipop.PlaceBridge | include/graphs/lollipop.hpp:87-91 | placing at the bridge sets sentinel (true, c), records the colour and adds one agent of colour c to the clique |
| Lollipop.PlacePath | include/graphs/lollipop.hpp:94-95 | placing on the path occupies that vertex with colour c and changes only the path |
| Lollipop.PopKeepsExact | include/graphs/lollipop.hpp:65-80 | after a pop the cache stays exact and `unhappy_count` still equals the reference count |
| Lollipop.PlaceKeepsExact | include/graphs/lollipop.hpp:82-97 | after a place the cache stays exact and `unhappy_count` still equals the reference count |
| ColorPath.GetColor | include/graphs/path_graph.hpp:31-34 | out of range the colour is 0; in range it is the stored colour |
| ColorPath.CountColor | include/graphs/path_graph.hpp:23-24 | a colour's count never exceeds the number of vertices |
| ColorPath.New | include/graphs/path_graph.hpp:20-26 | a new graph has n unoccupied vertices, counts[0] = n, tf = 0, and satisfies the counter invariant |
| ColorPath.LocalFrustration | include/graphs/path_graph.hpp:44-47 | at most 2, and 0 on an empty vertex |
| ColorPath.OccupiedNeighborCount | include/graphs/path_graph.hpp:52-54 | the number of occupied vertices among v-1 and v+1, out-of-range ones reading empty |
| ColorPath.FrustrationIsIncidentPairs | include/graphs/path_graph.hpp:44-47 | a vertex's frustration is the number of disagreeing pairs it belongs to |
| ColorPath.DisagreementsUpdate | include/graphs/path_graph.hpp:64-68 | recolouring one vertex changes the number of disagreeing pairs by the change in the pairs incident to it |
| ColorPath.CountColorUpdate | include/graphs/path_graph.hpp:65-66 | recolouring one vertex moves exactly one unit from the old colour's count to the new one's |
| ColorPath.ChangeColor | include/graphs/path_graph.hpp:59-69 | `change_color` keeps the histogram and tf equal to a full recount; an unchanged colour is a no-op; otherwise exactly one unit moves from the old colour to the new |
| ColorPath.ChangeColorValid | include/graphs/path_graph.hpp:63-68 | subtracting the old local frustration and adding the new one gives the recounted tf |
| ColorPath.SetColor | include/graphs/path_graph.hpp:36 | `set_color` changes the colour of v only |
| ColorPath.ChangeColorBack | include/graphs/path_graph.hpp:59-69 | setting a vertex back to its former colour restores the graph |
| Approx.LessIsCross | include/core/approx.hpp:44-46 | comparing two fractions is comparing their cross products |
| Approx.MediantGap | include/core/approx.hpp:35-48 | a fraction strictly between two Farey neighbours has a denominator at least the sum of theirs |
| Approx.ExactIsBest | include/core/approx.hpp:47 | a fraction equal to tau is both the best lower and the best upper approximation |
| Approx.NeighboursAreBest | include/core/approx.hpp:25-43 | once the next mediant's denominator exceeds the cap, the window ends are the best lower and upper approximations with denominator at most max_q |
| Approx.MediantDeterminants | include/core/approx.hpp:41-46 | replacing either end by the mediant keeps the window's determinant at 1 |
| Approx.FareyNeighbors | include/core/approx.hpp:16-50 | `farey_neighbors` returns 0/1 twice for tau ≤ 0 and 1/1 twice for tau ≥ 1; otherwise lo ≤ tau ≤ hi, both denominators are at most max_q, lo = hi exactly on an exact hit, the two are Farey neighbours, and they are the best lower and upper approximations |
| Approx.BestWithMaxDen | include/core/approx.hpp:52-64 | the result has denominator at most max_q, no such fraction is closer to tau, and on a tie the smaller one wins |
| Approx.Dist | include/core/approx.hpp:61-62 | the distance is non-negative and zero exactly when the fraction equals tau |
| Approx.TieGoesLow | include/core/approx.hpp:63 | for tau = 1/2 with max_q = 1 the neighbours 0/1 and 1/1 are equally close and 0/1 is returned |
| BitPack.ToBitsRoundTrip | include/core/bitpack.hpp:88-89 | writing a value into w bits and reading them back gives the value modulo 2^w |
| BitPack.FromBitsRoundTrip | include/core/bitpack.hpp:64-77 | reading w bits and writing the value back gives the same bits |
| BitPack.ConcatAt | include/core/bitpack.hpp:65-67 | bit j of word idx is bit idx·64 + j of the logical stream |
| BitPack.Extract | include/core/bitpack.hpp:64-77 | the field read is w bits wide |
| BitPack.ExtractIsSlice | include/core/bitpack.hpp:64-77 | the one-word and the two-word read both return exactly bits [bit, bit+w) of the stream |
| BitPack.Insert | include/core/bitpack.hpp:84-101 | the write keeps every word 64 bits and the word count unchanged |
| BitPack.InsertAt | include/core/bitpack.hpp:84-101 | after a write, the stream holds the new bits in [bit, bit+w) and the old bits everywhere else, in both the one-word and the two-word branch |
| BitPack.ExtractInsert | include/core/bitpack.hpp:64-101 | reading a field just written returns the written bits |
| BitPack.ExtractInsertOther | include/core/bitpack.hpp:64-101 | writing a field does not change any disjoint field |
| BitPack.WordCount | include/core/bitpack.hpp:40-41 | the word count is the least number of 64-bit words holding n·BITS bits |
| BitPack.Resize | include/core/bitpack.hpp:38-43 | `resize(n)` holds n elements in that many words, all zero |
| BitPack.Get | include/core/bitpack.hpp:64-77 | `get` returns a value below 2^BITS |
| BitPack.Set | include/core/bitpack.hpp:84-101 | `set` keeps the vector's shape |
| BitPack.GetReadsStream | include/core/bitpack.hpp:64-77 | `get(i)` is the number held in bits [i·BITS, (i+1)·BITS) of the stream |
| BitPack.GetAfterSet | include/core/bitpack.hpp:82-89 | reading back after `set(i, v)` gives v masked to its low BITS bits |
| BitPack.SetLeavesOthers | include/core/bitpack.hpp:84-101 | `set(i, v)` leaves every other element unchanged |
| BitPack.ResizeReadsZero | include/core/bitpack.hpp:38-43 | every element of a freshly resized vector reads 0 |
| BitOps.CountrZero | include/core/bitops.hpp:38 | `countr_zero` is the index of the lowest set bit, every bit below it clear, or the width when none is set |
| BitOps.Halve | include/core/bitops.hpp:24-34 | each descent step keeps a window half as wide |
| BitOps.HalveTracks | include/core/bitops.hpp:24-34 | a descent step keeps the wanted bit inside the window, with the rank reduced by the popcount skipped |
| BitOps.LowestIsRank | include/core/bitops.hpp:37-38 | after clearing c lowest set bits, the lowest bit left is the set bit of rank c |
| BitOps.ClearLowestStep | include/core/bitops.hpp:37 | `b & (b - 1)` clears exactly the set bit of the next rank |
| BitOps.Select1 | include/core/bitops.hpp:14-40 | for kth below the popcount, `select1_index_u64` returns the position of the set bit with exactly kth set bits below it |
| BitOps.Located | include/core/bitops.hpp:36-38 | the byte found by the descent, offset by base, holds the kth set bit of the word |
| BitOps.RandomSetBit | include/core/bitops.hpp:42-55 | an empty mask gives none; otherwise the result is a set bit whose rank is the draw reduced below the popcount |
| BlockBitset.LowBit | include/core/bitset_select.hpp:95-98 | `i & -i` is a positive part of i, at most i |
| BlockBitset.BlockCount | include/core/bitset_select.hpp:27 | `nblocks_` is the least number of blocks covering nbits |
| BlockBitset.New | include/core/bitset_select.hpp:25-30 | a new bitset has nbits bits, all clear, a zero count and a consistent Fenwick tree |
| BlockBitset.Test | include/core/bitset_select.hpp:35-39 | `test(i)` is false past nbits and the stored bit otherwise |
| BlockBitset.CountIsOnes | include/core/bitset_select.hpp:33 | `count()` is the number of set bits |
| BlockBitset.ChainStep | include/core/bitset_select.hpp:94-96 | the update loop's `i += i & -i` moves from one node covering the block to the next and skips no covering node |
| BlockBitset.FenwickAdd | include/core/bitset_select.hpp:94-96 | `fenwick_add_` adds delta modulo 2^32 to exactly the nodes whose range covers the block |
| BlockBitset.OnesUpdate | include/core/bitset_select.hpp:174-184 | writing one bit changes a block range's ones count by that bit's change when it lies in the range |
| BlockBitset.WriteKeepsFenwick | include/core/bitset_select.hpp:174-184 | after a bit write and the Fenwick add, every node again holds its range's ones modulo 2^32 |
| BlockBitset.WriteBit | include/core/bitset_select.hpp:174-184 | `write_bit_` stores the bit and keeps count and Fenwick tree consistent; writing the same value changes nothing |
| BlockBitset.SetBit | include/core/bitset_select.hpp:40 | `set(i)` turns bit i on when i is in range and changes nothing else |
| BlockBitset.ResetBit | include/core/bitset_select.hpp:41 | `reset(i)` turns bit i off and changes nothing else |
| BlockBitset.FlipBit | include/core/bitset_select.hpp:185-194 | `flip(i)` inverts bit i when i is in range and changes nothing else |
| BlockBitset.FenwickSum | include/core/bitset_select.hpp:97-99 | `fenwick_sum_(idx)` is the number of ones in the first idx blocks, modulo 2^32 |
| BlockBitset.PrefixOfAllIsCount | include/core/bitset_select.hpp:97-99 | the ones in all blocks are the running count |
| BlockPick.NodeExact | include/core/bitset_select.hpp:75 | below 2^32 bits every Fenwick node holds its range's exact ones count |
| BlockPick.FindByOrder | include/core/bitset_select.hpp:100-114 | `fenwick_find_by_order_(k1)` returns the block in which the prefix ones count first reaches k1 |
| BlockPick.Descend | include/core/bitset_select.hpp:109-113 | the descent returns the block b1 with fewer than k1 ones before it and at least k1 up to it |
| BlockPick.DescendStep | include/core/bitset_select.hpp:110-111 | each step keeps idx aligned with fewer than k1 ones before it and the target within the next span |
| BlockPick.ScanOnes | include/core/bitset_select.hpp:149-154 | scanning a block's words finds the set bit of the given rank, or none when the block has fewer ones |
| BlockPick.Select1InBlock | include/core/bitset_select.hpp:145-156 | `select1_in_block_` returns the position of the set bit of that rank in the block, or npos |
| BlockPick.PrefixBits | include/core/bitset_select.hpp:88-92 | `prefix_bits_(m)` is m blocks' worth of bits capped at nbits |
| BlockPick.Capacity | include/core/bitset_select.hpp:82-87 | `block_capacity_bits_` is positive, at most a block, and ends the block at the capped prefix |
| BlockPick.BlockZerosCount | include/core/bitset_select.hpp:82-92 | a block's zeros below its capacity are the difference of the zeros-before counts around it |
| BlockPick.ScanZeros | include/core/bitset_select.hpp:162-170 | scanning the masked words finds the clear bit below cap with exactly the given number of clear bits before it, or none when there are fewer |
| BlockPick.WordStep | include/core/bitset_select.hpp:163-169 | one word of the scan counts the masked zeros and finds the wanted one when it lies in this word |
| BlockPick.Select0InBlock | include/core/bitset_select.hpp:157-172 | `select0_in_block_` returns a position inside the block's capacity, or npos when the rank exceeds the block's zeros |
| BlockPick.RandomOne | include/core/bitset_select.hpp:44-52 | with no ones the result is npos; otherwise it is a set bit with exactly draw mod count set bits before it |
| BlockPick.ZerosEnds | include/core/bitset_select.hpp:56-66 | no zeros precede block 1, and all nbits - count zeros precede the end |
| BlockPick.ZeroBlock | include/core/bitset_select.hpp:60-65 | the binary search returns the block whose zeros-before range contains k |
| BlockPick.RandomZero | include/core/bitset_select.hpp:54-69 | with no zeros the result is npos; otherwise it is a clear bit below nbits with exactly draw mod zeros clear bits before it |
| BandedRow.ExtendLeft | include/sim/job_handler.hpp:77-83 | growing the band to the left keeps every bin's count |
| BandedRow.ExtendRight | include/sim/job_handler.hpp:86-90 | growing the band to the right keeps every bin's count |
| BandedRow.Bump | include/sim/job_handler.hpp:71-94 | `bump(u)` starts the band [u, u] holding 1 on an empty row and otherwise widens it to include u; bin u gains one, modulo 2^64, and every other bin keeps its count |
| BandedRow.AddAt | include/sim/job_handler.hpp:112-114 | the merge loop adds src's entries bin-wise at the offset and leaves the rest of the band alone |
| BandedRow.Merge | include/sim/job_handler.hpp:96-115 | `merge_from` leaves the row alone when src is empty, copies src into an empty row, otherwise covers the union range; every bin's count is the sum of the two, modulo 2^64 |
| BandedRow.AddInto | include/sim/job_handler.hpp:112-114 | adding a row whose range lies inside the destination's keeps the range and sums the counts bin-wise |
| BandedRow.BumpAll | include/sim/job_handler.hpp:71-94 | bumping a list of bins keeps the row well formed |
| BandedRow.BumpAllIsHistogram | include/sim/job_handler.hpp:71-94 | bumping a list of bins into a fresh row gives each bin its number of occurrences, modulo 2^64 |
| BandedRow.MergeIsConcatenation | include/sim/job_handler.hpp:96-115 | merging the histograms of two lists gives the histogram of the two lists joined |
| BandedRow.MergeCount | include/sim/job_handler.hpp:96-115 | each bin of a merge is the sum of the two rows' counts, modulo 2^64 |
| BandedRow.Splice | include/sim/job_handler.hpp:141 | `copy_n` overwrites exactly the target positions with the copied values |
| BandedRow.CopyRow | include/sim/job_handler.hpp:137-141 | copying one row fills exactly that row of the table with the row's counts and leaves the other rows alone |
| BandedRow.ToDense | include/sim/job_handler.hpp:131-144 | `to_dense` yields a rows × bins table whose cell (r, u) is the count of bin u in step r |
| Checkpoints.Stride | checkpoints.hpp:11 | a step of 0 is used as 1; any other step is kept |
| Checkpoints.Linear | checkpoints.hpp:8-15 | the list starts at 0, ends at horizon, and its interior entries are the successive multiples of the step, all below horizon, with the next multiple reaching horizon |
| Checkpoints.InteriorIsMultiples | checkpoints.hpp:10-13 | a value lies strictly inside the list exactly when it is a positive multiple of the step below horizon |
| Checkpoints.NextAsWritten | checkpoints.hpp:12 | `t += step` on 64 bits adds the step when the sum fits and otherwise wraps to a smaller value |
| Checkpoints.RunAsWritten | checkpoints.hpp:12 | every value the loop as written pushes is below horizon, and a run that has not exited has used all its passes |
| Checkpoints.AsWrittenNeverStops | checkpoints.hpp:12 | with horizon 2^64 − 1 and step 2^63 the loop as written does not exit within any number of passes |
| Cli.ShowSpells | src/cli/cli.cpp:22-26 | the decimal spelling of n is a non-empty digit string whose value is n |
| Cli.Find | src/cli/cli.cpp:17-18 | `find` gives none exactly when the character is absent, and otherwise its first position |
| Cli.FromChars | src/cli/cli.cpp:22-26 | a successful whole-text `from_chars` read spells exactly the value it returns |
| Cli.ParsePq | src/cli/cli.cpp:16-29 | `parse_pq` fails without a '/'; a result has q > 0, and p and q are spelled by the text before and after a '/' |
| Cli.ParsePqComplete | src/cli/cli.cpp:16-29 | for two digit strings around a '/', the parse succeeds exactly when both values fit in 64 bits and q is not 0, and then returns them |
| Cli.ParsePqRoundTrip | src/cli/cli.cpp:16-29 | printing p and q as "p/q" and parsing gives back (p, q), or nothing when q is 0 |
| Cli.LowerAll | cli.hpp:40-44 | lowering a string lowers each character and keeps the length |
| Cli.ToBool | cli.hpp:42-48 | `_to_bool` reports true exactly for the lowered words 1/true/yes/y/on, false exactly for 0/false/no/n/off, and otherwise fails leaving v unchanged |
| Cli.ToBoolIgnoresCase | cli.hpp:40-44 | case does not matter to `_to_bool` |
| Cli.ToBoolReadsOnOff | cli.hpp:45-46 | "on" in any case reads true and "off" reads false |
| Cli.SkipSpace | cli.hpp:75-76 | `stoull`'s skipping of white space leaves a suffix that does not start with white space |
| Cli.DigitRun | cli.hpp:75-76 | the digit run is the longest digit prefix |
| Cli.Stoull | cli.hpp:75-76 | `std::stoull`: leading white space skipped, an optional sign, the longest digit run read; none (the exception) without digits or above 2^64 − 1, and a negated value wrapped modulo 2^64; `StoullReadsSpelling` gives its round-trip |
| Cli.StoullReadsSpelling | cli.hpp:75-76 | `stoull` of a decimal spelling returns its value |
| Cli.Normalize | cli.hpp:71-72 | every 'X', 'x' and '+' becomes the separator and other characters are kept |
| Cli.SizeParts | cli.hpp:73-74 | the size text has no separator exactly when it holds neither 'X', 'x', '+' nor the separator |
| Cli.SizePartsOfSpellings | cli.hpp:70-76 | two decimal spellings around a separator character split into their two values |
| Cli.ParseSizeAsWritten | cli.hpp:70-78 | with no separator `_parse_size` fails and leaves a and b alone; a success has both values positive |
| Cli.AsWrittenAcceptsWrapped | cli.hpp:75-77 | the decimal spelling of 2^32 + y, an `x`, and the spelling of y are accepted as a y by y torus, so "4294967297x1" reads as 1 by 1 |
| Cli.ParseSize | cli.hpp:70-78 | the corrected parse fails without a separator; a success returns exactly the two values the text spells, both positive |
| Cli.ParseSizeRoundTrip | cli.hpp:70-78 | printing "x<sep>y" and parsing always yields a result, which succeeds exactly when both values are positive and fit in 32 bits, and then returns them |
| WorldAgentPacked.LowerBound | world_agent_packed.hpp:17-19 | `find_vertex(v)` is the first index entry whose vertex is at least v: every entry before it is below v |
| WorldAgentPacked.LowerBoundAt | world_agent_packed.hpp:17-19 | in a sorted index, looking up the vertex of entry k lands on entry k |
| WorldAgentPacked.Create | world_agent_packed.hpp:22-26 | a new world satisfies the index invariant and has no occupied vertex |
| WorldAgentPacked.OccupiedIff | world_agent_packed.hpp:31-34 | the lower-bound test succeeds exactly when some index entry holds the vertex |
| WorldAgentPacked.Occupied | world_agent_packed.hpp:31-34 | `occupied(v)` is true exactly when some index entry holds v |
| WorldAgentPacked.TypeOf | world_agent_packed.hpp:36-40 | `type_of(v)` reads the type of the agent record the lower-bound entry for v points to; `EntryLookup` states it for every entry |
| WorldAgentPacked.EntryLookup | world_agent_packed.hpp:36-40 | `type_of` at the vertex of any index entry gives that entry's agent's type |
| WorldAgentPacked.IdsDistinct | world_agent_packed.hpp:13 | two distinct index entries never name the same agent record |
| WorldAgentPacked.EraseSorted | world_agent_packed.hpp:51 | erasing an entry keeps the index sorted and drops its vertex |
| WorldAgentPacked.InsertSorted | world_agent_packed.hpp:75 | inserting a new vertex at its lower bound keeps the index sorted |
| WorldAgentPacked.MissingBound | world_agent_packed.hpp:73 | while some 32-bit vertex is free there are fewer than 2^32 agents, so the new id fits in 32 bits |
| WorldAgentPacked.SetVertex | world_agent_packed.hpp:69-76 | `set_vertex` changes nothing on an occupied vertex; otherwise v now holds type t, every other vertex keeps what it held, the agent count grows by one, and the invariant holds |
| WorldAgentPacked.SetValid | world_agent_packed.hpp:73-75 | appending the record and inserting its entry keeps the index invariant |
| WorldAgentPacked.SetLookup | world_agent_packed.hpp:69-76 | after `set_vertex` on a free vertex, v holds t and every other vertex reads as before |
| WorldAgentPacked.RemoveValid | world_agent_packed.hpp:47-65 | erasing the entry and moving the last record into the freed slot keeps the index invariant |
| WorldAgentPacked.LastEntry | world_agent_packed.hpp:59-62 | after the erase, the lower bound of the last record's vertex is its entry, the only one naming the last id |
| WorldAgentPacked.RemoveLookup | world_agent_packed.hpp:43-66 | after removing the entry of vertex v, v reads empty and every other vertex reads as before |
| WorldAgentPacked.ClearVertex | world_agent_packed.hpp:43-66 | `clear_vertex` changes nothing on a free vertex; otherwise v now reads empty, every other vertex keeps what it held, the agent count drops by one, and the invariant holds |
| WorldAgentPacked.Move | world_agent_packed.hpp:78-93 | `move(src, dst)` onto a free dst carries src's type to dst, empties src, leaves every other vertex alone, keeps the agent count, and keeps the invariant |
| WorldAgentPacked.MoveValid | world_agent_packed.hpp:82-92 | re-pointing the record and re-inserting its entry at dst keeps the index invariant |
| WorldAgentPacked.MoveLookup | world_agent_packed.hpp:78-93 | after a move, dst reads what src held, src reads empty, and every other vertex reads as before |
| WorldAgentPacked.ForEachAgent | world_agent_packed.hpp:95-102 | `for_each_agent` visits each agent once in increasing vertex order, with the type stored at that vertex, and reaches every occupied vertex |

## Left out

- Randomness: every generator (`core/rng.hpp`, `rng.hpp`, splitmix, `seeds.hpp`, `include/sim/init.hpp`) becomes a `draw` parameter. The model proves properties for every draw, not distributions.
- Graph construction: torus and lollipop geometries and the graph libraries are replaced by an immutable adjacency given as input (`Topology.Adjacency`).
- `plf_bitset`, `padded_bitset.hpp`, `fast_bitset.hpp`, `bitwords.hpp` and `world_grid_packed.hpp`: these are word-level duplicates of what `BitPack`, `BitOps` and `BlockBitset` cover. Bitsets are `seq<bool>`.
- The files that do not compile as they stand are not modelled: `lollipop_graph.hpp`, `graph_base.hpp`, `random_transition.hpp`, `simulator.hpp`, `schelling_sim.hpp`, `clique_graph.hpp`, `src/main.cpp`. Neither is `path_graph_64.hpp`, whose interior mask is hard-coded.
- Floating-point statistics and stopping rules are not modelled: the average over agents of `Metrics::unhappy_and_avg_same_fraction`, the `stopping_*` rules and the `include/stats` headers. Of the metrics, the model keeps the unhappy count and the per-agent same-fraction (`FlatMetrics.SameFraction`).
- `FlatMetrics.SameFraction`: `double(s) / double(denom)` is modelled as an exact real quotient, so `r · denom == same` holds of the real and not of the rounded double.
- `make_checkpoints_log` is floating point and is not modelled.
- Timing, progress printing, plotting, configuration files, JIT loading and all file and terminal I/O are not modelled.
- Concurrency is not modelled: the OpenMP job runners, the reductions and the process fan-out. `BandedRow` models the per-row histogram they merge.
- The Python drivers and the benchmarks are not modelled. Only `agentsJ.py` and `modelJ.py` are.
- Command-line parsing beyond `parse_pq`, `_to_bool` and `_parse_size` is not modelled: cxxopts, `_get_opt`, `strtod` of τ and the help text.
- `get_unhappy` and `get_unoccupied` of `lollipop.hpp:43-62` are not modelled. They draw through `weighted_pick2/3` of `core/rng.hpp`, which is not part of this model. The model covers the counts, the bridge and pop/place.
- `is_occupied` of the lollipop: `lollipop.hpp` calls it but never defines it. `Lollipop.IsOccupied` takes a clique index as occupied when it is below c0 + c1, and a path index from the path's own bits.
- `SchellingAgent.HappyVerdict`: `similar_total / len(neighbors)` and the homophily are Python floats in `agentsJ.py`. The model compares exact rationals, so a verdict can differ where float rounding lands on the boundary.
- `SchellingModel.BelowTotalIffBelowCeil`: the loop bound `total_agents` is a float product in `modelJ.py`. The model takes the exact product density·nodes, so the agent count can differ by one where the float product rounds across an integer.
- `SchellingModel.PopulateEffect`: `total_agents` and `round(total_agents * minority_pc)` use float products in `modelJ.py`. The model uses exact rationals, so the total or the type-0 count can differ where float rounding crosses an integer or a tie.
- `Lollipop.Pop`: reports the colour of the popped clique agent as read before the clique's counter drops. The source returns the clique's as-written colour; `Lollipop.PopAsWritten` models that and the Findings table records the difference.
- `SimMetrics.ScanUnhappy`: τ is the exact rational p/q instead of a `double`, and the 1e-12 slack subtracted before rounding up is dropped.
- `Approx.FareyNeighbors`: τ is an exact real instead of a `double`, so the mediant comparisons carry no rounding.
- `Approx.FareyNeighbors`: the mediant denominator b + d is unbounded. In the source it is a 64-bit `color_count_t` and wraps once max_q ≥ 2^63, after which `den > max_q` can miss and the walk continues from a wrapped window. Below 2^63 no wrap occurs, since b and d never exceed max_q. The best-bound promise is therefore the source's only for max_q < 2^63.
- `Approx.BestWithMaxDen`: the distances `dlo` and `dhi` are compared as exact reals instead of `long double`, so a near-tie can resolve differently. It inherits the unbounded mediant denominator of `Approx.FareyNeighbors`, so its closest-fraction promise is the source's only for max_q < 2^63.
- `SimMetrics.Need`: `std::ceil(tau * occ - 1e-12)` is computed in `double` in the source. The model takes the exact ceiling of p·occ/q without the 1e-12 slack, so when τ·occ is within 1e-12 above an integer the source's need is one lower.
- `SimRandom.Iterate`: only the default destination policy (a uniform vacancy) is modelled. The satisfaction-seeking policies are not.
- `SimFast.FastAgreesWithScan`: the counters are `uint8_t` and wrap modulo 2^8. The agreement with a full scan is stated for vertices of degree below 256.
- `BitOps.Select1`: only the portable path is modelled. The BMI2 `pdep` path is not.
- `BlockPick.RandomOne`: stated for bitsets of fewer than 2^32 bits, where the 32-bit Fenwick nodes are exact.
- `BlockPick.RandomZero`: stated for bitsets of fewer than 2^32 bits, for the same reason.
- `BandedRow.ToDense`: requires each non-empty row to start at or below `bins`. The table size rows·bins is taken to fit in memory.
- `WorldAgentPacked.Move`: requires dst to be free or equal to src. The source states this only in its comment at `world_agent_packed.hpp:78` and does not check it.
- `WorldAgentPacked.NumAgents`: the count is a `nat`, without the 32-bit cast of `num_agents`. `MissingBound` shows it stays below 2^32 while some vertex is free.
- `Topology.WellFormed`: adjacency lists are duplicate-free, irreflexive and symmetric. A torus small enough to list a neighbour twice falls outside the model.

## Findings

| source | as written | input that shows it | evidently intended | confidence | as-written member | corrected member |
|---|---|---|---|---|---|---|
| include/sim/random_stepper.hpp:55-60 | the neighbours of the source vertex are re-evaluated before the source is emptied, so they are judged against the old occupancy | 3 vertices, edge 0–1, vertex 2 isolated; type 0 at 0, type 1 at 1, τ = 1/2; move 0 → 2: vertex 1 keeps its unhappy flag although it has no occupied neighbour left | re-evaluate the source's neighbours after `set_empty` | not executed | RandomStepper.StepAsWritten, RandomStepper.AsWrittenLeavesStaleFlag | RandomStepper.Step, RandomStepper.StepKeepsExact |
| sim_fast.hpp:166-221 | a step skipped by `continue` on the last iteration of the budget leaves the loop and returns the default result, without finalizing | path 0–1–2, types 0 at 0 and 1 at 1, vacancy 2, τ = 1/2, `max_moves` = 1, default options: the result reports 0 unhappy, the true count is 2 | finalize after the loop whatever the last iteration did | not executed | SimFast.LoopAsWritten, SimFast.AsWrittenLosesReport | SimFast.Loop, SimFast.LoopHonest |
| include/graphs/clique.hpp:35-39 | `pop_agent` computes the colour from `from >= c0_` after decrementing c0 | c0 = 1, c1 = 0, `pop_agent(0)`: removes the colour-0 agent and reports colour 1 | compare against c0 before the decrement | not executed | CliqueGraph.PopAgentAsWritten, CliqueGraph.PopAsWrittenMisreports | CliqueGraph.PopAgent, CliqueGraph.PopThenPlace |
| include/graphs/lollipop.hpp:75-76 | a non-bridge clique index returns the clique's as-written `pop_agent`, so the lollipop inherits its misreported colour | c0 = 2, c1 = 0, bridge occupied with colour 0 at index 0, `pop_agent(1)`: removes a colour-0 agent and reports colour 1 | report the colour before the clique's counter drops | not executed | Lollipop.PopAsWritten, Lollipop.PopAsWrittenMisreports | Lollipop.Pop, Lollipop.PopKeepsExact |
| include/graphs/clique.hpp:72-76 | `is_unhappy(v)` picks the disagreeing count by `v < c0_ + c1_`, so every occupied agent is judged as colour 0 | c0 = 1, c1 = 2, threshold 1/2, v = 1 (a colour-1 agent): reported unhappy, though 1 of its 2 neighbours disagree | pick by `v < c0_` | not executed | CliqueGraph.IsUnhappyAtAsWritten, CliqueGraph.AsWrittenJudgesType1ByC1 | CliqueGraph.IsUnhappyAt, CliqueGraph.UnhappyCountIsTally |
| include/graphs/path.hpp:140-153 | the constructor's bitwise unhappy mask flags any disagreeing neighbour, which matches `is_unhappy` only while p < q | B = 2, colours [0, 1], both occupied, threshold 1/1: the mask flags both vertices, `is_unhappy` flags neither | build the cache from `is_unhappy` (or restrict the mask to p < q) | not executed | LinePath.FreshAsWritten, LinePath.MaskMisjudgesHighThreshold | LinePath.Fresh, LinePath.MaskIsRule |
| checkpoints.hpp:12 | `t += step` on `uint64_t` wraps, so `t < horizon` can stay true forever | horizon = 2^64 − 1, step = 2^63: t runs 0, 2^63, 0, … and the loop never exits | stop once the next multiple would reach horizon | not executed | Checkpoints.RunAsWritten, Checkpoints.AsWrittenNeverStops | Checkpoints.Linear, Checkpoints.InteriorIsMultiples |
| cli.hpp:75-77 | the `stoull` results are cast to `uint32_t` before the positivity test, so values of 2^32 and more wrap | "4294967297x1" is accepted as a 1 by 1 torus | reject values that do not fit in 32 bits | not executed | Cli.ParseSizeAsWritten, Cli.AsWrittenAcceptsWrapped | Cli.ParseSize, Cli.ParseSizeRoundTrip |
